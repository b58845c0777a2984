# Bank server: a verified sequential model

This project models the core of a small multi-threaded bank server written in
C, together with the test harness that drives it and checks its output.

- **The server** (`appserver.c`, and `appserver-coarse.c`) reads request lines
  until `END`. It queues each one with the next request ID, counting from 1.
  Worker threads pop requests from the queue and cut each command into tokens.
  `CHECK a` reports the balance of account `a`. `TRANS a1 v1 a2 v2 ...` first
  checks every pair against the balances as they stand. When a pair would go
  below zero it reports ISF for that pair's account and writes nothing.
  Otherwise it applies the pairs in command order and reports OK. Each result
  is appended to the output file as one line:
  `<id> BAL <v> TIME <s>.<us> <s>.<us>`, `<id> ISF <a> TIME ...` or
  `<id> OK TIME ...`.
- **The account store** (`Bank.c`) holds one integer balance per account.
  Accounts are numbered from 1.
- **The test harness** (`Project2Test_v2.c`) sends the initial deposits: one
  TRANS per ten accounts, 10000 into each. It also derives the number of random
  transactions and of expected ISF results. Then it reads the output file back.
  Each line is split on single spaces and checked: field count, keyword, request
  ID, ISF account and BAL sign. It adds up the balances, lists the 0-based
  indices of the requests nobody answered (each one less than the missing
  request ID; see Findings) and compares ISF IDs with `equals`.

Modules, one per file:

| file | module | models |
|---|---|---|
| `bank.dfy` | `Bank` | the store as a class over an `array<int>`, with `Read`/`Write` on its contents |
| `queue.dfy` | `RequestQueue` | the linked FIFO (`front`, `rear`, `count`) as a class over `Node` objects, with ghost `Nodes`/`Contents`/`Repr` |
| `seqs.dfy` | `Seqs` | the sum of a sequence of integers, and prefix facts the folds share |
| `text.dfy` | `Text` | `strsep` fields (`Fields`), `strtok` tokens (`Tokens`), `Join`, `strcasecmp` |
| `numerals.dfy` | `Numerals` | `%d` (`Itoa`), `%06d` (`Pad6`), `atoi` (`Atoi`) |
| `executor.dfy` | `Executor` | what one worker does with one request: tokenizer, TRANS parsing, the check and apply passes, the result line |
| `server.dfy` | `Server` | the main loop's ID assignment, and the worker draining the queue |
| `validator.dfy` | `Validator` | `split`, the line checks of `analyzeOutputFile`, the missing-ID scan, the expected sum, `equals` |
| `harness.dfy` | `Harness` | `doInitialDeposits` and the two clamping rules |
| `crosscheck.dfy` | `CrossCheck` | server and harness together: the harness accepts every line the server writes, and the server reads each deposit request as the deposits the harness meant |

The two server files run the same sequential code. `appserver-coarse.c` holds
one lock around the whole store; `appserver.c` locks the accounts one by one.
The locks are not modelled, so one model stands for both. The table in "## Model" cites `appserver.c`; the matching lines of
`appserver-coarse.c` are:

| part | appserver.c | appserver-coarse.c |
|---|---|---|
| first request ID | 23 | 24 |
| main loop | 67-88 | 70-88 |
| `queueInit` | 104-108 | 98-102 |
| `push` | 121-139 | 113-131 |
| `pop` | 142-168 | 133-159 |
| worker loop and pop | 171-181 | 161-167 |
| tokenizer | 185-213 | 170-198 |
| CHECK | 218-234 | 201-211 |
| TRANS parsing | 237-256 | 213-233 |
| check pass | 264-270 | 235-241 |
| ISF line | 272-278 | 242-246 |
| apply pass and OK line | 280-292 | 247-256 |

Input the server cannot handle is modelled as a precondition, not as
behaviour. This covers a command with no token, a CHECK without an account, a
TRANS whose token count is not one per space plus one or whose space count is
odd, and account numbers outside `1..n`. In C these read NULL pointers or
write past the arrays (`Executor.Parsable`, `Executor.Fits`). Clock readings
(`gettimeofday`) are parameters. The output is returned as a sequence of
strings, one entry per request: the result line the file receives, or the
empty string for a request whose keyword is neither CHECK nor TRANS, for
which the file receives nothing.

Two intended behaviours that the code does not have; the model follows the
code in both. A TRANS is meant to abort with ISF whenever applying a delta
would drive an account negative, but the code checks each pair against the
balance from before the transaction (see Findings). Every request is meant to
get exactly one result line, but the code writes nothing for a command whose
keyword is neither CHECK nor TRANS (`Executor.Silent`).

## Model

| member | source | states |
|---|---|---|
| Bank.Bank.constructor | Bank.c:8 | a store with no accounts before `initialize_accounts` |
| Bank.Bank.InitializeAccounts | Bank.c:17-28 | afterwards there are `n` accounts, every balance is 0, and the result is 1 |
| Bank.Bank.ReadAccount | Bank.c:35-39 | returns the balance at index `ID-1` and changes nothing |
| Bank.Bank.WriteAccount | Bank.c:46-50 | index `ID-1` becomes the value; every other account stays as it was |
| Bank.ReadAfterWrite | Bank.c:35-50 | a read right after a write of the same account returns the written value; other accounts read as before; the number of accounts does not change |
| RequestQueue.Queue.constructor | appserver.c:104-108 | an empty queue: `front` and `rear` NULL, `count` 0, no contents |
| RequestQueue.Node.constructor | appserver.c:122-128 | a node carries the request given and has no successor |
| RequestQueue.Queue.Push | appserver.c:121-139 | the contents become the old contents plus the new request at the rear, with its command, arrival time and ID; `count` grows by 1; the list stays well linked |
| RequestQueue.Queue.Pop | appserver.c:142-168 | non-empty queue: returns the front request, the rest stays queued in order, `count` drops by 1, `front` moves to the next node, `rear` is NULL once empty and unchanged otherwise. Empty queue: returns the NULL-command request (`None`) and changes nothing |
| RequestQueue.Queue.HasFront | appserver.c:177 | `q->front != NULL` holds exactly when requests are queued |
| Server.FirstEnd | appserver.c:74-79 | the number of lines before the first that reads `END` once its last character is dropped; no earlier line reads `END` |
| Server.SubmissionsShape | appserver.c:23-87 | queued request `i` carries ID `i+1`, is never `END` and is its line without the last character; the line after the last queued one reads `END` |
| Server.ReadRequests | appserver.c:67-88 | the queue gains exactly the lines before `END`, in order, with IDs 1, 2, ...; the ID left over is one past the last ID used |
| Server.Run | appserver.c:171-181 | running the requests in order keeps the number of accounts and gives one output entry per request |
| Server.Step | appserver.c:185-300 | one request moves the store by its command and appends exactly one output entry |
| Server.ServeFront | appserver.c:177-180 | the worker pops the front request and processes it: the queue loses its front and the store and output move on by that request |
| Server.ServeNext | appserver.c:173-181 | one turn of the worker loop on request `i` extends the run of requests `0..i-1` to `0..i` |
| Server.Drain | appserver.c:173-306 | once the main loop stops, a single worker empties the queue; the store and the output are those of running the queued requests in queue order |
| Server.RunPrefix | appserver.c:231-233 | a worker only appends to the output: the output after `n` requests is a prefix of the output after more |
| Server.RunAnswersInOrder | appserver.c:218-300 | output entry `i` belongs to request `i`: it is empty exactly when the keyword is neither CHECK nor TRANS; otherwise it ends in a newline and its first field reads back as the request's ID |
| Text.Fields | Project2Test_v2.c:539-542 | `strsep` on single spaces gives one field per separator plus one |
| Text.JoinFields | Project2Test_v2.c:533-545 | gluing the fields back with the separator gives the line |
| Text.FieldsJoin | Project2Test_v2.c:539-542 | splitting undoes joining when no part holds the separator |
| Text.TokensShape | appserver.c:208-213 | `strtok` tokens are non-empty and hold no space; there are at most one per space plus one, and exactly the `strsep` fields when the count is met |
| Numerals.AtoiItoa | Project2Test_v2.c:338 | `atoi` reads back the number `%d` printed |
| Numerals.ItoaShape | appserver.c:232 | a printed number is non-empty and holds no white space; a non-negative one is all digits |
| Numerals.Pad6Shape | appserver.c:232 | `%06d` prints digits that spell the count, leading zeros included; below 10^6 there are exactly six |
| Executor.Tokenize | appserver.c:185-213 | returns the number of spaces in the command and its `strtok` tokens |
| Executor.CountSpaces | appserver.c:189-196 | the loop counts exactly the spaces in the command |
| Executor.CutTokens | appserver.c:205-213 | the `strtok` loop yields the maximal runs of non-space characters, in order |
| Executor.ParseTrans | appserver.c:237-256 | `numOfTrans = spaces/2`; account `k` is token `2k+1` and amount `k` is token `2k+2`, read with `atoi`, in command order |
| Executor.FirstShortfall | appserver.c:264-270 | the first pair in command order whose account, at its balance from before the transaction, cannot take the amount; every earlier pair can; `numOfTrans` when none fails |
| Executor.ApplyPairsBalance | appserver.c:281-285 | after the apply pass each account holds its old balance plus the sum of all amounts named against it, repeats included |
| Executor.ApplyPairsSum | appserver.c:281-285 | the apply pass moves the total of all balances by the total of the amounts |
| Executor.TransContract | appserver.c:264-291 | ISF exactly when some pair fails against the balances from before; ISF names the first failing pair's account and writes nothing; on OK every account moves by the amounts named against it and the total by the sum of the amounts |
| Executor.TransOkAccounts | appserver.c:280-285 | on OK an account named once moves by exactly its amount and an account no pair names is unchanged |
| Executor.CheckAfterTrans | appserver.c:221-225 | a CHECK after an OK TRANS reads the account's old balance plus what the TRANS named against it |
| Executor.RepeatedAccountOverdraws | appserver.c:264-285 | as written, `TRANS 1 -60 1 -60` on a balance of 100 answers OK and leaves -20 |
| Executor.CumulativeShortfallFrom | appserver.c:264-270 | the corrected check: the first pair whose account cannot take the amount once the earlier pairs are applied |
| Executor.CumulativeKeepsNonNegative | appserver.c:264-285 | with the corrected check, a TRANS that passes leaves no balance negative when none was |
| Executor.ShortfallsAgreeWhenDistinct | appserver.c:264-270 | when no account is named twice, the code's check and the corrected one stop at the same pair |
| Executor.TransKeepsNonNegativeWhenDistinct | appserver.c:264-285 | so a TRANS naming no account twice never takes a non-negative store below zero |
| Executor.ExecuteCheck | appserver.c:218-226 | CHECK returns the stored balance of its account |
| Executor.ExecuteTrans | appserver.c:236-292 | the check and apply passes: the outcome is ISF of the first failing pair's account or OK, and the store becomes the old store (ISF) or every pair applied in order (OK) |
| Executor.ResultLineJoin | appserver.c:232-290 | a result line is its fields joined by single spaces, then a newline |
| Executor.ResultLineFields | appserver.c:232-290 | each result line ends in a newline; split on single spaces, the rest gives back its fields: six for BAL and ISF, five for OK, none empty |
| Executor.ProcessRequest | appserver.c:185-300 | one request: the outcome is the command's answer on the old store, the store becomes the command's effect, and the line written is the result line for the request's ID, arrival time and finishing time |
| Validator.Split | Project2Test_v2.c:533-545 | drops one trailing newline and returns the `strsep` fields, empty ones kept; their count is the number of spaces plus one; joining them with spaces gives the line back |
| Validator.CutAtSpaces | Project2Test_v2.c:537-543 | the `strsep` loop returns the fields between single spaces |
| Validator.Judge | Project2Test_v2.c:315-371 | a line is accepted only with 5 fields and OK, or 6 fields and BAL or ISF (case-insensitive); its ID is in range and not yet answered; an ISF account is in `1..num_accounts`; a BAL value is non-negative |
| Validator.JudgeAccepts | Project2Test_v2.c:315-371 | the converse: every line meeting those conditions, its keyword in any case, is accepted with its ID, kind and value |
| Validator.JudgeLowerCase | Project2Test_v2.c:330-335 | `strcasecmp` lets lower-case keywords through: `3 ok ...` and `3 bal 250 ...` are accepted for an unanswered request 3 |
| Validator.CheckFields | Project2Test_v2.c:315-371 | the tests run in the code's order and give `Judge`'s verdict; an accepted line marks its request answered and nothing else |
| Validator.AnalyzeResults | Project2Test_v2.c:306-371 | the loop gives the report the file calls for: the first bad line with its fault, or the answered flags, the BAL sum and the ISF IDs in file order |
| Validator.AnalyzeLine | Project2Test_v2.c:307-371 | one pass on line `k` moves the report on by that line, adding its ISF ID or BAL value |
| Validator.CheckLine | Project2Test_v2.c:307-349 | the line loses its last character, is split, and its fields are judged against the flags so far |
| Validator.FailedSticks | Project2Test_v2.c:315-319 | once a line fails the loop stops: later lines change nothing |
| Validator.ValidateCounts | Project2Test_v2.c:338-360 | while the check passes, each line answers exactly one request not answered before, so as many flags are set as lines read; every ISF ID is an answered ID and none repeats |
| Validator.MissingIds | Project2Test_v2.c:411-415 | the missing list is exactly the 0-based indices whose flag is clear, ascending; its length is the number of clear flags |
| Validator.MissingIdsOffByOne | Project2Test_v2.c:411-421 | as written, with request 1 answered and request 2 not, the list printed as missing request IDs is `[1]`, and 2 is not in it |
| Validator.MissingRequestIds | Project2Test_v2.c:411-421 | the corrected scan: exactly the request IDs `id` in `1..num_req_total` with `req_answered[id-1]` clear, ascending, one per clear flag |
| Validator.ExpectedSum | Project2Test_v2.c:430-432 | the sum of the first `num_accounts` expected balances |
| Validator.ShiftIds | Project2Test_v2.c:447-448 | the first `n` expected ISF IDs are shifted by the offset; the rest are unchanged |
| Validator.Equals | Project2Test_v2.c:557-565 | returns 1 exactly when the lengths match and the arrays agree element by element, and 0 otherwise |
| Harness.DoInitialDeposits | Project2Test_v2.c:134-156 | returns ceil(`num_accounts / accounts_per_trans`) (0 for no accounts); the requests are the groups in order; every expected balance of an existing account is 10000 and the rest of the array is unchanged |
| Harness.DepositGroup | Project2Test_v2.c:139-148 | one TRANS depositing 10000 into the accounts `i+1` up to `i+size` (capped at `num_accounts`), setting their expected balances to 10000 |
| Harness.GroupsAt | Project2Test_v2.c:137-148 | request `r` covers the accounts `r*size+1` .. `(r+1)*size`, the last one capped at `num_accounts` |
| Harness.IsfCount | Project2Test_v2.c:165-258 | `n/100`, raised to 1 when `n > 1`, the rule used both for the ISF count and for the expected ISF count: at least one ISF for more than one transaction, never more than the transactions |
| Harness.RandomTransCount | Project2Test_v2.c:107-110 | three per account per worker, clamped to `[300, 1000]`, unless a secret count is given |
| CrossCheck.CheckedFields | Project2Test_v2.c:308-311 | dropping the last character of a server line and splitting it gives back the line's fields |
| CrossCheck.ServerLineJudged | Project2Test_v2.c:315-371 | a server line for a sent, unanswered request is accepted with its ID, keyword and value, given an existing ISF account and a non-negative balance; a negative BAL is refused as such |
| CrossCheck.AnswerCheckable | appserver.c:218-291 | on a non-negative store, a CHECK or a TRANS naming no account twice leaves the store non-negative, answers BAL with a non-negative balance or ISF with an existing account, and writes a line |
| CrossCheck.RunOutputPasses | Project2Test_v2.c:306-371 | when one worker runs requests 1, 2, ... in order from a non-negative store, each a CHECK or a TRANS naming no account twice, the harness accepts the whole output (time check left out) and marks exactly those requests answered |
| CrossCheck.DepositRequestJoin | Project2Test_v2.c:139-148 | a deposit request is TRANS, then each account number and 10000, joined by single spaces |
| CrossCheck.DepositTokens | appserver.c:185-213 | the server's tokenizer cuts a deposit request back into those words, with two spaces per account |
| CrossCheck.DepositRequestRead | appserver.c:237-256 | the server reads a deposit request as 10000 into each of its accounts, in order |
| CrossCheck.GroupRead | Project2Test_v2.c:137-151 | request `r` that `doInitialDeposits` sends reads as the deposits for the accounts of group `r` |
| CrossCheck.DepositApplied | appserver.c:280-285 | on a non-negative store a deposit request answers OK, names no account twice, and adds 10000 to its accounts only |
| CrossCheck.AfterDeposits | appserver.c:280-285 | after the first `k` deposit requests, the accounts they cover hold 10000 more, the others are unchanged, and none is negative |
| CrossCheck.DepositsMeetExpected | Project2Test_v2.c:147 | from a fresh store, the initial deposits leave every account at 10000, the balance the harness expects |

## Left out

- Threads and locking: worker creation and joins, the queue and account mutexes, `flockfile`, the whole-store lock of `appserver-coarse.c`, the busy-polling worker loop and its racy `running` flag. They are concurrency and have no sequential meaning. One worker runs after the main loop stops (`Server.Drain`).
- Server.Drain: the main loop and the workers do not interleave, and only one worker is modelled. With several workers, output order and the balances a CHECK sees can differ from queue order.
- Timestamps: `gettimeofday` readings are parameters (`Timeval`); the sleeps (`usleep` in `Bank.c`, the harness's `sleep` and `countDown`) are not modelled.
- Console and file I/O: the prompt, the `printf` feedback, `fopen`/`fclose`, `fprintf` and `popen`/`pclose`. Output lines are returned as strings, and the input lines and the output file are given as sequences of strings.
- `fgets` splitting a line longer than 1023 characters, and end of input in the main loop: lines are given as at least one and fewer than 1024 characters, and the loop ends at `END` or when the lines run out.
- `display`, `free_accounts` and every `free`/`malloc`; allocation failure (`initialize_accounts` returning 0) is not modelled.
- Executor.ExecuteTrans: balances are unbounded integers; 32-bit overflow of `accBalance + amounts[i]` is not modelled.
- Numerals.Atoi: the value is not clipped to C's `int`; overflow is undefined in C.
- Harness.RandomTransCount: `num_accounts/num_workers*3` is not bounded to 32 bits.
- Validator.AnalyzeResults: the time check (`end < start` over `double` values read with `sscanf`) and all elapsed-time bookkeeping are not modelled, so a line that only fails that check is accepted.
- Validator.AnalyzeResults: the callers' buffer limits (`lineCopy[200]`, room for 99 fields) are preconditions; the overflow of `actual_isf_req_ids` when more ISF lines arrive than random transactions is not modelled (ISF IDs are kept in a sequence).
- Validator.ExpectedSum: the `int` sum of the expected balances is unbounded; 32-bit wrap-around is not modelled.
- Validator.AnalyzeResults: the `int` sum of the BAL values is unbounded; 32-bit wrap-around is not modelled.
- Harness.DoInitialDeposits: the 300-byte `request` buffer is not modelled; the request is an unbounded string.
- `doRandomTrans` (driven by `rand`), `doFinalBalanceCheck`, `endProgram`, and the summary `printf`s that compare sums and ISF lists.
- `sort` and `comparator`: a thin `qsort` wrapper whose subtracting comparator can overflow.
- `appserver.h` holds type declarations only; they shape `Entry`, `Node` and `Queue`.

## Findings

| source | as written | input that shows it | evidently intended | confidence | as-written member | corrected member |
|---|---|---|---|---|---|---|
| appserver.c:264-270 | each pair is checked against the balance from before the transaction, but the apply pass at appserver.c:281-285 accumulates, so an account named twice can go below zero | `TRANS 1 -60 1 -60` on a balance of 100 answers OK and leaves -20 | check each pair against the balance its account has once the earlier pairs are applied, so that a TRANS that passes never drives an account negative | not executed | Executor.RepeatedAccountOverdraws | Executor.CumulativeKeepsNonNegative |
| Project2Test_v2.c:411-421 | the scan stores the 0-based index `i` of each clear `req_answered` flag, and the report prints those indices as "Missing req IDs"; request `id` is flagged at index `id-1` (Project2Test_v2.c:348), so every printed ID is one less than the missing one | requests 1 and 2 sent, only request 1 answered: the report prints `1` as the missing ID | store `i + 1`, the request ID, so that the report lists the IDs nobody answered | not executed | Validator.MissingIdsOffByOne | Validator.MissingRequestIds |

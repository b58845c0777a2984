/** What one worker does with one popped request (`processCmd` in
    appserver.c and appserver-coarse.c, locking left aside): cut the command
    into tokens, dispatch on the keyword, run CHECK or TRANS against the
    account store and format the result line. */
module Executor {
  import opened Seqs
  import opened Text
  import opened Numerals
  import Bank
  import opened RequestQueue

  /** What a request produces. `Silent` is a command whose keyword is neither
      CHECK nor TRANS: the worker writes nothing for it. */
  datatype Outcome = Bal(balance: int) | Ok | Isf(account: int) | Silent

  /** A command as the worker dispatches it. */
  datatype Command = Check(account: int) | Trans(accountNums: seq<int>, amounts: seq<int>) | Unrecognised

  // ---------------------------------------------------------------------
  // Reading the command line

  /** What the worker's parsing needs of a command to stay within its arrays:
      a first token (else `strcmp(NULL, ...)`), an account token after CHECK
      (else `atoi(NULL)`), and for TRANS one token per space plus one (else
      some `command[i]` read is NULL) and an even number of spaces (else the
      last account number is written past `accountNums`). */
  predicate Parsable(cmd: string)
  {
    ParsableTokens(Tokens(cmd), Count(cmd, Space))
  }

  /** The same demands on the token list and the number of spaces. */
  predicate ParsableTokens(t: seq<string>, spaces: nat)
  {
    && |t| >= 1
    && (t[0] == "CHECK" ==> |t| >= 2)
    && (t[0] == "TRANS" ==> |t| == spaces + 1 && spaces % 2 == 0)
  }

  /** The command a parsable line stands for. */
  function Interpret(cmd: string): Command
    requires Parsable(cmd)
  {
    Dispatch(Tokens(cmd), Count(cmd, Space))
  }

  /** The dispatch on the first token: CHECK reads one account number, TRANS
      one account number and one amount per pair of spaces. */
  function Dispatch(t: seq<string>, spaces: nat): Command
    requires ParsableTokens(t, spaces)
  {
    if t[0] == "CHECK" then Check(Atoi(t[1]))
    else if t[0] == "TRANS" then
      var n := spaces / 2;
      Trans(seq(n, k requires 0 <= k < n => Atoi(t[2 * k + 1])),
            seq(n, k requires 0 <= k < n => Atoi(t[2 * k + 2])))
    else Unrecognised
  }

  /** A TRANS line stands for the pairs read from its tokens two by two. */
  lemma TransDispatch(t: seq<string>, spaces: nat, accs: seq<int>, amts: seq<int>)
    requires ParsableTokens(t, spaces) && t[0] == "TRANS"
    requires |accs| == |amts| == spaces / 2
    requires forall k :: 0 <= k < spaces / 2 ==>
      accs[k] == Atoi(t[2 * k + 1]) && amts[k] == Atoi(t[2 * k + 2])
    ensures Dispatch(t, spaces) == Trans(accs, amts)
  {
  }

  /** A line is read through its tokens and its number of spaces alone. */
  lemma InterpretByTokens(cmd: string, t: seq<string>, spaces: nat)
    requires Tokens(cmd) == t && Count(cmd, Space) == spaces && ParsableTokens(t, spaces)
    ensures Parsable(cmd) && Interpret(cmd) == Dispatch(t, spaces)
  {
  }

  /** Every account the command names exists in a store of `n` accounts. */
  predicate Fits(n: int, c: Command)
  {
    match c
    case Check(a) => 1 <= a <= n
    case Trans(accs, amts) => |accs| == |amts| && ValidAccounts(n, accs)
    case Unrecognised => true
  }

  predicate ValidAccounts(n: int, accs: seq<int>)
  {
    forall k :: 0 <= k < |accs| ==> 1 <= accs[k] <= n
  }

  /** The two loops at the head of `processCmd`: count the spaces, then cut
      the line with `strtok(..., " ")`. */
  method Tokenize(line: string) returns (spaces: nat, command: seq<string>)
    ensures spaces == Count(line, Space)
    ensures command == Tokens(line)
  {
    spaces := CountSpaces(line);
    command := CutTokens(line);
  }

  /** The first loop: one count per space in the line. */
  method CountSpaces(line: string) returns (spaces: nat)
    ensures spaces == Count(line, Space)
  {
    spaces := 0;
    var j := 0;
    while j < |line|
      invariant 0 <= j <= |line|
      invariant spaces == Count(line[..j], Space)
    {
      assert line[..j + 1][..j] == line[..j];
      if line[j] == Space {
        spaces := spaces + 1;
      }
      j := j + 1;
    }
    assert line[..|line|] == line;
  }

  /** The `strtok` loop: the runs of non-space characters, in order; spaces
      next to each other, leading or trailing yield no token. */
  method CutTokens(line: string) returns (command: seq<string>)
    ensures command == Tokens(line)
  {
    command := [];
    ghost var done: seq<string> := [];
    ghost var seen: string := [];
    var cut: string := [];
    var i := 0;
    while i < |line|
      invariant 0 <= i <= |line| && seen == line[..i]
      invariant done + [cut] == Fields(seen, Space)
      invariant command == NonEmpty(done)
    {
      CutStep(done, cut, seen, command, line[i]);
      if line[i] == Space {
        if cut != [] {
          command := command + [cut];
        }
        done := done + [cut];
        cut := [];
      } else {
        cut := cut + [line[i]];
      }
      seen := seen + [line[i]];
      i := i + 1;
    }
    assert line[..i] == line;
    NonEmptySnoc(done, cut);
    if cut != [] {
      command := command + [cut];
    }
  }

  /** One character of the `strtok` loop: a space ends the open token, kept
      when it is not empty; any other character extends it. */
  lemma CutStep(done: seq<string>, cut: string, seen: string, command: seq<string>, c: char)
    requires done + [cut] == Fields(seen, Space) && command == NonEmpty(done)
    ensures c == Space ==>
      && done + [cut] + [[]] == Fields(seen + [c], Space)
      && NonEmpty(done + [cut]) == command + (if cut == [] then [] else [cut])
    ensures c != Space ==> done + [cut + [c]] == Fields(seen + [c], Space)
  {
    FieldsSnoc(done, cut, seen, c, Space);
    NonEmptySnoc(done, cut);
  }

  /** The TRANS loop over `command[1..spaces]`: odd positions are account
      numbers, even positions amounts, both in command order. */
  method ParseTrans(command: seq<string>, spaces: nat) returns (accountNums: seq<int>, amounts: seq<int>)
    requires spaces % 2 == 0 && |command| >= spaces + 1
    ensures |accountNums| == |amounts| == spaces / 2
    ensures forall k :: 0 <= k < spaces / 2 ==>
      accountNums[k] == Atoi(command[2 * k + 1]) && amounts[k] == Atoi(command[2 * k + 2])
  {
    var numOfTrans := spaces / 2;
    var accs := new int[numOfTrans];
    var amts := new int[numOfTrans];
    var accIndex, amIndex := 0, 0;
    var i := 1;
    while i < spaces + 1
      invariant 1 <= i <= spaces + 1
      invariant accIndex == i / 2 && amIndex == (i - 1) / 2
      invariant forall k :: 0 <= k < accIndex ==> accs[k] == Atoi(command[2 * k + 1])
      invariant forall k :: 0 <= k < amIndex ==> amts[k] == Atoi(command[2 * k + 2])
    {
      if i % 2 == 0 {
        amts[amIndex] := Atoi(command[i]);
        amIndex := amIndex + 1;
      } else {
        accs[accIndex] := Atoi(command[i]);
        accIndex := accIndex + 1;
      }
      i := i + 1;
    }
    accountNums, amounts := accs[..], amts[..];
  }

  // ---------------------------------------------------------------------
  // The TRANS semantics, as functions of the store contents

  /** The first pair, in command order, whose account at its balance from
      before the transaction cannot take the amount without going below
      zero; `|accs|` when there is none. */
  function FirstShortfall(s: seq<int>, accs: seq<int>, amts: seq<int>): (k: nat)
    requires |accs| == |amts| && ValidAccounts(|s|, accs)
    ensures k <= |accs|
    ensures forall j :: 0 <= j < k ==> Bank.Read(s, accs[j]) + amts[j] >= 0
    ensures k < |accs| ==> Bank.Read(s, accs[k]) + amts[k] < 0
  {
    if accs == [] then 0
    else if Bank.Read(s, accs[0]) + amts[0] < 0 then 0
    else 1 + FirstShortfall(s, accs[1..], amts[1..])
  }

  /** Every pair applied in command order, each as a read and a write of its account. */
  function ApplyPairs(s: seq<int>, accs: seq<int>, amts: seq<int>): (r: seq<int>)
    requires |accs| == |amts| && ValidAccounts(|s|, accs)
    ensures |r| == |s|
  {
    if accs == [] then s
    else
      var n := |accs| - 1;
      var before := ApplyPairs(s, accs[..n], amts[..n]);
      Bank.Write(before, accs[n], Bank.Read(before, accs[n]) + amts[n])
  }

  /** The sum of the amounts the pairs name against account `a`. */
  function AmountFor(accs: seq<int>, amts: seq<int>, a: int): int
    requires |accs| == |amts|
  {
    if accs == [] then 0
    else
      var n := |accs| - 1;
      AmountFor(accs[..n], amts[..n], a) + (if accs[n] == a then amts[n] else 0)
  }

  function TransOutcome(s: seq<int>, accs: seq<int>, amts: seq<int>): Outcome
    requires |accs| == |amts| && ValidAccounts(|s|, accs)
  {
    var k := FirstShortfall(s, accs, amts);
    if k < |accs| then Isf(accs[k]) else Ok
  }

  function TransStore(s: seq<int>, accs: seq<int>, amts: seq<int>): seq<int>
    requires |accs| == |amts| && ValidAccounts(|s|, accs)
  {
    if FirstShortfall(s, accs, amts) < |accs| then s else ApplyPairs(s, accs, amts)
  }

  /** What a command answers when run against store contents `s`. */
  function Answer(s: seq<int>, c: Command): Outcome
    requires Fits(|s|, c)
  {
    match c
    case Check(a) => Bal(Bank.Read(s, a))
    case Trans(accs, amts) => TransOutcome(s, accs, amts)
    case Unrecognised => Silent
  }

  /** The store contents after a command has run against `s`. */
  function StoreAfter(s: seq<int>, c: Command): (r: seq<int>)
    requires Fits(|s|, c)
    ensures |r| == |s|
  {
    match c
    case Trans(accs, amts) => TransStore(s, accs, amts)
    case _ => s
  }

  // ---------------------------------------------------------------------
  // Properties of the TRANS semantics

  /** Each account ends at its old balance plus every amount named against it,
      repeats included. */
  lemma {:induction false} ApplyPairsBalance(s: seq<int>, accs: seq<int>, amts: seq<int>, a: int)
    requires |accs| == |amts| && ValidAccounts(|s|, accs) && 1 <= a <= |s|
    ensures ApplyPairs(s, accs, amts)[a - 1] == s[a - 1] + AmountFor(accs, amts, a)
  {
    if accs != [] {
      var n := |accs| - 1;
      ApplyPairsBalance(s, accs[..n], amts[..n], a);
    }
  }

  /** An account no pair names keeps its balance. */
  lemma {:induction false} AmountForUnnamed(accs: seq<int>, amts: seq<int>, a: int)
    requires |accs| == |amts| && a !in accs
    ensures AmountFor(accs, amts, a) == 0
  {
    if accs != [] {
      var n := |accs| - 1;
      assert a !in accs[..n] by {
        forall k | 0 <= k < n ensures accs[..n][k] != a { assert accs[..n][k] == accs[k]; }
      }
      AmountForUnnamed(accs[..n], amts[..n], a);
    }
  }

  /** When the account occurs once, what is named against it is that one amount. */
  lemma {:induction false} AmountForSingle(accs: seq<int>, amts: seq<int>, k: nat)
    requires |accs| == |amts| && k < |accs|
    requires forall j :: 0 <= j < |accs| && j != k ==> accs[j] != accs[k]
    ensures AmountFor(accs, amts, accs[k]) == amts[k]
  {
    var n := |accs| - 1;
    if k == n {
      assert accs[k] !in accs[..n] by {
        forall j | 0 <= j < n ensures accs[..n][j] != accs[k] { assert accs[..n][j] == accs[j]; }
      }
      AmountForUnnamed(accs[..n], amts[..n], accs[k]);
    } else {
      AmountForSingle(accs[..n], amts[..n], k);
    }
  }

  lemma {:induction false} SumUpdate(s: seq<int>, i: nat, v: int)
    requires i < |s|
    ensures Sum(s[i := v]) == Sum(s) - s[i] + v
  {
    var n := |s| - 1;
    if i < n {
      SumUpdate(s[..n], i, v);
      assert s[i := v][..n] == s[..n][i := v];
    } else {
      assert s[i := v][..n] == s[..n];
    }
  }

  /** Applying the pairs moves the total of all balances by the total of the amounts. */
  lemma {:induction false} ApplyPairsSum(s: seq<int>, accs: seq<int>, amts: seq<int>)
    requires |accs| == |amts| && ValidAccounts(|s|, accs)
    ensures Sum(ApplyPairs(s, accs, amts)) == Sum(s) + Sum(amts)
  {
    if accs != [] {
      var n := |accs| - 1;
      ApplyPairsSum(s, accs[..n], amts[..n]);
      var before := ApplyPairs(s, accs[..n], amts[..n]);
      SumUpdate(before, accs[n] - 1, before[accs[n] - 1] + amts[n]);
    }
  }

  /** The TRANS contract: ISF names the account of the first pair, in command
      order, that fails against the balances from before the transaction, and
      then nothing is written; otherwise OK, every account moves by the sum of
      the amounts named against it, and the total moves by the sum of all
      amounts. */
  lemma TransContract(s: seq<int>, accs: seq<int>, amts: seq<int>)
    requires |accs| == |amts| && ValidAccounts(|s|, accs)
    ensures TransOutcome(s, accs, amts).Isf? <==>
      exists k :: 0 <= k < |accs| && Bank.Read(s, accs[k]) + amts[k] < 0
    ensures TransOutcome(s, accs, amts).Isf? ==>
      exists k :: 0 <= k < |accs| && TransOutcome(s, accs, amts) == Isf(accs[k])
        && Bank.Read(s, accs[k]) + amts[k] < 0
        && (forall j :: 0 <= j < k ==> Bank.Read(s, accs[j]) + amts[j] >= 0)
    ensures TransOutcome(s, accs, amts).Isf? ==> TransStore(s, accs, amts) == s
    ensures TransOutcome(s, accs, amts) == Ok ==>
      && |TransStore(s, accs, amts)| == |s|
      && (forall a :: 1 <= a <= |s| ==> TransStore(s, accs, amts)[a - 1] == s[a - 1] + AmountFor(accs, amts, a))
      && Sum(TransStore(s, accs, amts)) == Sum(s) + Sum(amts)
  {
    var k := FirstShortfall(s, accs, amts);
    if k < |accs| {
      assert Bank.Read(s, accs[k]) + amts[k] < 0;
    } else {
      forall a | 1 <= a <= |s| ensures TransStore(s, accs, amts)[a - 1] == s[a - 1] + AmountFor(accs, amts, a) {
        ApplyPairsBalance(s, accs, amts, a);
      }
      ApplyPairsSum(s, accs, amts);
    }
  }

  /** On OK an account named once moves by exactly its amount, and an account
      no pair names is untouched. */
  lemma TransOkAccounts(s: seq<int>, accs: seq<int>, amts: seq<int>, a: int)
    requires |accs| == |amts| && ValidAccounts(|s|, accs) && 1 <= a <= |s|
    requires TransOutcome(s, accs, amts) == Ok
    ensures a !in accs ==> TransStore(s, accs, amts)[a - 1] == s[a - 1]
    ensures forall k :: 0 <= k < |accs| && accs[k] == a && (forall j :: 0 <= j < |accs| && j != k ==> accs[j] != a) ==>
      TransStore(s, accs, amts)[a - 1] == s[a - 1] + amts[k]
  {
    ApplyPairsBalance(s, accs, amts, a);
    if a !in accs {
      AmountForUnnamed(accs, amts, a);
    }
    forall k | 0 <= k < |accs| && accs[k] == a && (forall j :: 0 <= j < |accs| && j != k ==> accs[j] != a)
      ensures TransStore(s, accs, amts)[a - 1] == s[a - 1] + amts[k]
    {
      AmountForSingle(accs, amts, k);
    }
  }

  /** CHECK right after an OK TRANS reads the balance the TRANS left. */
  lemma CheckAfterTrans(s: seq<int>, accs: seq<int>, amts: seq<int>, a: int)
    requires |accs| == |amts| && ValidAccounts(|s|, accs) && 1 <= a <= |s|
    requires TransOutcome(s, accs, amts) == Ok
    ensures Fits(|StoreAfter(s, Trans(accs, amts))|, Check(a))
    ensures Answer(StoreAfter(s, Trans(accs, amts)), Check(a)) == Bal(s[a - 1] + AmountFor(accs, amts, a))
  {
    ApplyPairsBalance(s, accs, amts, a);
  }

  // ---------------------------------------------------------------------
  // The check pass reads balances from before the transaction

  /** As written, a TRANS that names one account twice passes the check pair
      by pair against the untouched balance, and the apply pass then takes
      the account below zero: `TRANS 1 -60 1 -60` on a balance of 100 answers
      OK and leaves -20. */
  lemma RepeatedAccountOverdraws()
    ensures TransOutcome([100], [1, 1], [-60, -60]) == Ok
    ensures TransStore([100], [1, 1], [-60, -60]) == [-20]
  {
    assert FirstShortfall([100], [1], [-60]) == 1;
    assert [1, 1][1..] == [1] && [-60, -60][1..] == [-60];
    assert [1, 1][..1] == [1] && [-60, -60][..1] == [-60];
    assert [1][..0] == [] && [-60][..0] == [];
    assert ApplyPairs([100], [1], [-60]) == [40];
  }

  /** The check the transaction evidently intends: the pairs from index `i`
      on, each against the balance its account has once the pairs before it
      are applied; `|accs|` when none fails. */
  function CumulativeShortfallFrom(s: seq<int>, accs: seq<int>, amts: seq<int>, i: nat): (k: nat)
    requires |accs| == |amts| && ValidAccounts(|s|, accs) && i <= |accs|
    ensures i <= k <= |accs|
    ensures forall j :: i <= j < k ==> BalanceBefore(s, accs, amts, j) + amts[j] >= 0
    ensures k < |accs| ==> BalanceBefore(s, accs, amts, k) + amts[k] < 0
    decreases |accs| - i
  {
    if i == |accs| then i
    else if BalanceBefore(s, accs, amts, i) + amts[i] < 0 then i
    else CumulativeShortfallFrom(s, accs, amts, i + 1)
  }

  /** The balance the account of pair `j` has once the pairs before it are applied. */
  function BalanceBefore(s: seq<int>, accs: seq<int>, amts: seq<int>, j: nat): int
    requires |accs| == |amts| && ValidAccounts(|s|, accs) && j < |accs|
  {
    assert ValidAccounts(|s|, accs[..j]);
    ApplyPairs(s, accs[..j], amts[..j])[accs[j] - 1]
  }

  function CumulativeShortfall(s: seq<int>, accs: seq<int>, amts: seq<int>): nat
    requires |accs| == |amts| && ValidAccounts(|s|, accs)
  {
    CumulativeShortfallFrom(s, accs, amts, 0)
  }

  /** With the cumulative check, a transaction that passes never leaves a
      balance below zero when none was below zero before. */
  lemma CumulativeKeepsNonNegative(s: seq<int>, accs: seq<int>, amts: seq<int>)
    requires |accs| == |amts| && ValidAccounts(|s|, accs)
    requires forall a :: 0 <= a < |s| ==> s[a] >= 0
    requires CumulativeShortfall(s, accs, amts) == |accs|
    ensures forall a :: 0 <= a < |s| ==> ApplyPairs(s, accs, amts)[a] >= 0
  {
    PrefixNonNegative(s, accs, amts, |accs|);
    assert accs[..|accs|] == accs && amts[..|amts|] == amts;
  }

  lemma {:induction false} PrefixNonNegative(s: seq<int>, accs: seq<int>, amts: seq<int>, n: nat)
    requires |accs| == |amts| && ValidAccounts(|s|, accs) && n <= |accs|
    requires forall a :: 0 <= a < |s| ==> s[a] >= 0
    requires CumulativeShortfall(s, accs, amts) == |accs|
    ensures forall a :: 0 <= a < |s| ==> ApplyPairs(s, accs[..n], amts[..n])[a] >= 0
  {
    if n > 0 {
      PrefixNonNegative(s, accs, amts, n - 1);
      assert accs[..n][..n - 1] == accs[..n - 1] && amts[..n][..n - 1] == amts[..n - 1];
      assert BalanceBefore(s, accs, amts, n - 1) + amts[n - 1] >= 0;
    }
  }

  /** When no account is named twice, the balance an account has before its
      own pair is its balance from before the transaction, so the code's
      check and the cumulative one find the same pair. */
  lemma ShortfallsAgreeWhenDistinct(s: seq<int>, accs: seq<int>, amts: seq<int>)
    requires |accs| == |amts| && ValidAccounts(|s|, accs)
    requires Distinct(accs)
    ensures CumulativeShortfall(s, accs, amts) == FirstShortfall(s, accs, amts)
  {
    var c, f := CumulativeShortfall(s, accs, amts), FirstShortfall(s, accs, amts);
    if c < f {
      UntouchedBefore(s, accs, amts, c);
    } else if f < c {
      UntouchedBefore(s, accs, amts, f);
    }
  }

  /** No account is named by two pairs. */
  predicate Distinct(accs: seq<int>)
  {
    forall i, j :: 0 <= i < j < |accs| ==> accs[i] != accs[j]
  }

  /** With distinct accounts, pair `k` sees its account's balance from before the transaction. */
  lemma UntouchedBefore(s: seq<int>, accs: seq<int>, amts: seq<int>, k: nat)
    requires |accs| == |amts| && ValidAccounts(|s|, accs) && Distinct(accs) && k < |accs|
    ensures BalanceBefore(s, accs, amts, k) == Bank.Read(s, accs[k])
  {
    PrefixUntouched(s, accs, amts, k, accs[k]);
  }

  /** An account none of the first `j` pairs names keeps its balance through them. */
  lemma {:induction false} PrefixUntouched(s: seq<int>, accs: seq<int>, amts: seq<int>, j: nat, a: int)
    requires |accs| == |amts| && ValidAccounts(|s|, accs) && j <= |accs| && 1 <= a <= |s|
    requires forall i :: 0 <= i < j ==> accs[i] != a
    ensures ValidAccounts(|s|, accs[..j])
    ensures ApplyPairs(s, accs[..j], amts[..j])[a - 1] == s[a - 1]
  {
    if j > 0 {
      PrefixUntouched(s, accs, amts, j - 1, a);
      var pa, pm := accs[..j], amts[..j];
      assert pa[..j - 1] == accs[..j - 1] && pm[..j - 1] == amts[..j - 1];
      assert pa[j - 1] == accs[j - 1] && pm[j - 1] == amts[j - 1];
    }
  }

  /** So, with distinct accounts, the code's TRANS keeps every balance
      non-negative. */
  lemma TransKeepsNonNegativeWhenDistinct(s: seq<int>, accs: seq<int>, amts: seq<int>)
    requires |accs| == |amts| && ValidAccounts(|s|, accs)
    requires Distinct(accs)
    requires forall a :: 0 <= a < |s| ==> s[a] >= 0
    ensures forall a :: 0 <= a < |s| ==> TransStore(s, accs, amts)[a] >= 0
  {
    if FirstShortfall(s, accs, amts) == |accs| {
      ShortfallsAgreeWhenDistinct(s, accs, amts);
      CumulativeKeepsNonNegative(s, accs, amts);
    }
  }

  // ---------------------------------------------------------------------
  // Running one request against the store

  /** The CHECK branch: one read, no write. */
  method ExecuteCheck(bank: Bank.Bank, accountNum: int) returns (outcome: Outcome)
    requires 1 <= accountNum <= bank.accounts.Length
    ensures outcome == Bal(bank.accounts[accountNum - 1])
  {
    var balance := bank.ReadAccount(accountNum);
    outcome := Bal(balance);
  }

  /** The TRANS branch: a check pass over the pairs against the balances as
      they stand (nothing is written during it), then either ISF for the
      failing pair or an apply pass that reads and writes each pair's
      account in command order. */
  method ExecuteTrans(bank: Bank.Bank, accountNums: seq<int>, amounts: seq<int>) returns (outcome: Outcome)
    requires |accountNums| == |amounts| && ValidAccounts(bank.accounts.Length, accountNums)
    modifies bank.accounts
    ensures outcome == TransOutcome(old(bank.accounts[..]), accountNums, amounts)
    ensures bank.accounts[..] == TransStore(old(bank.accounts[..]), accountNums, amounts)
  {
    ghost var s := bank.accounts[..];
    var numOfTrans := |accountNums|;
    var isf := false;
    var i := 0;
    while i < numOfTrans
      invariant 0 <= i <= numOfTrans
      invariant bank.accounts[..] == s
      invariant forall j :: 0 <= j < i ==> Bank.Read(s, accountNums[j]) + amounts[j] >= 0
    {
      var accBalance := bank.ReadAccount(accountNums[i]);
      if accBalance + amounts[i] < 0 {
        isf := true;
        break;
      }
      i := i + 1;
    }
    ghost var k := FirstShortfall(s, accountNums, amounts);
    if isf {
      assert k == i;
      outcome := Isf(accountNums[i]);
    } else {
      assert k == numOfTrans;
      i := 0;
      while i < numOfTrans
        invariant 0 <= i <= numOfTrans
        invariant bank.accounts[..] == ApplyPairs(s, accountNums[..i], amounts[..i])
      {
        assert accountNums[..i + 1][..i] == accountNums[..i];
        assert amounts[..i + 1][..i] == amounts[..i];
        var accBalance := bank.ReadAccount(accountNums[i]);
        bank.WriteAccount(accountNums[i], accBalance + amounts[i]);
        i := i + 1;
      }
      assert accountNums[..numOfTrans] == accountNums && amounts[..numOfTrans] == amounts;
      outcome := Ok;
    }
  }

  // ---------------------------------------------------------------------
  // The result line

  /** `%d.%06d` of a timestamp. */
  function FormatTime(t: Timeval): string
  {
    Itoa(t.sec) + "." + Pad6(t.usec)
  }

  /** The text `fprintf` appends to the output file for an outcome. */
  function ResultLine(id: int, o: Outcome, start: Timeval, finished: Timeval): string
  {
    match o
    case Bal(v) =>
      Itoa(id) + " " + "BAL" + " " + Itoa(v) + " " + "TIME" + " " + FormatTime(start) + " " + FormatTime(finished) + "\n"
    case Ok =>
      Itoa(id) + " " + "OK" + " " + "TIME" + " " + FormatTime(start) + " " + FormatTime(finished) + "\n"
    case Isf(a) =>
      Itoa(id) + " " + "ISF" + " " + Itoa(a) + " " + "TIME" + " " + FormatTime(start) + " " + FormatTime(finished) + "\n"
    case Silent => ""
  }

  /** The space-separated fields of a result line, without its newline. */
  function ResultFields(id: int, o: Outcome, start: Timeval, finished: Timeval): seq<string>
  {
    match o
    case Bal(v) => [Itoa(id), "BAL", Itoa(v), "TIME", FormatTime(start), FormatTime(finished)]
    case Ok => [Itoa(id), "OK", "TIME", FormatTime(start), FormatTime(finished)]
    case Isf(a) => [Itoa(id), "ISF", Itoa(a), "TIME", FormatTime(start), FormatTime(finished)]
    case Silent => []
  }

  lemma NoSpaceInNumeral(n: int)
    ensures Space !in Itoa(n) && |Itoa(n)| >= 1
  {
    ItoaShape(n);
    forall i | 0 <= i < |Itoa(n)| ensures Itoa(n)[i] != Space {
      assert !IsSpace(Itoa(n)[i]);
    }
  }

  lemma NoSpaceInTime(t: Timeval)
    ensures Space !in FormatTime(t) && |FormatTime(t)| >= 1
  {
    NoSpaceInNumeral(t.sec);
    Pad6Shape(t.usec);
    var p := Pad6(t.usec);
    forall i | 0 <= i < |p| ensures p[i] != Space {
      assert IsDigit(p[i]);
    }
    var f := FormatTime(t);
    forall i | 0 <= i < |f| ensures f[i] != Space {
      if i < |Itoa(t.sec)| {
        assert f[i] == Itoa(t.sec)[i];
      } else if i > |Itoa(t.sec)| {
        assert f[i] == p[i - |Itoa(t.sec)| - 1];
      }
    }
  }

  /** A result line is its fields joined by single spaces, then a newline. */
  lemma ResultLineJoin(id: int, o: Outcome, start: Timeval, finished: Timeval)
    requires o != Silent
    ensures ResultLine(id, o, start, finished) == Join(ResultFields(id, o, start, finished), Space) + "\n"
  {
    JoinUnrolled(ResultFields(id, o, start, finished));
  }

  /** Every line the server writes ends in a newline, and splitting what
      precedes it on single spaces gives back its fields: six for BAL and
      ISF, five for OK, none of them empty, the keyword second, the
      request ID first. */
  lemma ResultLineFields(id: int, o: Outcome, start: Timeval, finished: Timeval)
    requires o != Silent
    ensures var line := ResultLine(id, o, start, finished);
      && |line| >= 1 && line[|line| - 1] == '\n'
      && Fields(line[..|line| - 1], Space) == ResultFields(id, o, start, finished)
    ensures |ResultFields(id, o, start, finished)| == (if o == Ok then 5 else 6)
    ensures forall i :: 0 <= i < |ResultFields(id, o, start, finished)| ==> ResultFields(id, o, start, finished)[i] != []
  {
    var fs := ResultFields(id, o, start, finished);
    ResultFieldsPlain(id, o, start, finished);
    ResultLineJoin(id, o, start, finished);
    var body := Join(fs, Space);
    assert (body + "\n")[..|body|] == body;
    FieldsJoin(fs, Space);
  }

  /** No field of a result line is empty or holds a space. */
  lemma ResultFieldsPlain(id: int, o: Outcome, start: Timeval, finished: Timeval)
    requires o != Silent
    ensures var fs := ResultFields(id, o, start, finished);
      forall i :: 0 <= i < |fs| ==> fs[i] != [] && Space !in fs[i]
  {
    NoSpaceInNumeral(id);
    NoSpaceInTime(start);
    NoSpaceInTime(finished);
    match o {
      case Bal(v) => NoSpaceInNumeral(v);
      case Isf(a) => NoSpaceInNumeral(a);
      case Ok =>
    }
  }

  /** `Join` of five or six fields, spelled out. */
  lemma JoinUnrolled(fs: seq<string>)
    ensures |fs| == 5 ==> Join(fs, Space) == fs[0] + " " + fs[1] + " " + fs[2] + " " + fs[3] + " " + fs[4]
    ensures |fs| == 6 ==> Join(fs, Space) == fs[0] + " " + fs[1] + " " + fs[2] + " " + fs[3] + " " + fs[4] + " " + fs[5]
  {
    if |fs| == 5 || |fs| == 6 {
      assert fs[..1][..0] == [] && |fs[..1]| == 1;
      assert Join(fs[..1], Space) == fs[0];
      assert fs[..2][..1] == fs[..1];
      assert Join(fs[..2], Space) == fs[0] + " " + fs[1];
      assert fs[..3][..2] == fs[..2];
      assert Join(fs[..3], Space) == fs[0] + " " + fs[1] + " " + fs[2];
      assert fs[..4][..3] == fs[..3];
      assert Join(fs[..4], Space) == fs[0] + " " + fs[1] + " " + fs[2] + " " + fs[3];
      assert fs[..5][..4] == fs[..4];
      assert Join(fs[..5], Space) == fs[0] + " " + fs[1] + " " + fs[2] + " " + fs[3] + " " + fs[4];
      if |fs| == 5 {
        assert fs[..5] == fs;
      } else {
        assert fs[..6] == fs && fs[..6][..5] == fs[..5];
      }
    }
  }

  /** One pass of a worker over a popped request: tokenize, dispatch on the
      keyword (case-sensitive), execute, and return the text written to the
      output file together with the outcome; `finished` stands for the
      `gettimeofday` taken after execution. */
  method ProcessRequest(bank: Bank.Bank, req: Entry, finished: Timeval) returns (outcome: Outcome, line: string)
    requires Parsable(req.command) && Fits(bank.accounts.Length, Interpret(req.command))
    modifies bank.accounts
    ensures outcome == Answer(old(bank.accounts[..]), Interpret(req.command))
    ensures bank.accounts[..] == StoreAfter(old(bank.accounts[..]), Interpret(req.command))
    ensures line == ResultLine(req.requestId, outcome, req.timeStart, finished)
  {
    var spaces, command := Tokenize(req.command);
    if command[0] == "CHECK" {
      var accountNum := Atoi(command[1]);
      outcome := ExecuteCheck(bank, accountNum);
    } else if command[0] == "TRANS" {
      var accountNums, amounts := ParseTrans(command, spaces);
      TransDispatch(command, spaces, accountNums, amounts);
      outcome := ExecuteTrans(bank, accountNums, amounts);
    } else {
      outcome := Silent;
    }
    line := ResultLine(req.requestId, outcome, req.timeStart, finished);
  }
}

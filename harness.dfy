/** The request generator of the test harness (Project2Test_v2.c): the
    initial deposits and the arithmetic that sizes the random phase. The
    random transactions themselves, drawn with `rand`, are not modelled. */
module Harness {
  import opened Numerals

  /** AMOUNT_INITIAL_DEPOSIT */
  const InitialDeposit: int := 10000

  /** MIN_RANDOM_TRANS and MAX_RANDOM_TRANS */
  const MinRandomTrans: int := 300
  const MaxRandomTrans: int := 1000

  /** One deposit action, `sprintf(part, " %d %d", account, AMOUNT_INITIAL_DEPOSIT)`. */
  function DepositPart(account: int): string
  {
    " " + Itoa(account) + " " + Itoa(InitialDeposit)
  }

  /** The request `doInitialDeposits` builds for the accounts with 0-based
      indices `lo` up to `hi` (excluded): `TRANS`, then one deposit part per
      account, for the 1-based account numbers `lo + 1` .. `hi`. */
  function DepositRequest(lo: int, hi: int): string
    decreases hi - lo
  {
    if hi <= lo then "TRANS" else DepositRequest(lo, hi - 1) + DepositPart(hi)
  }

  function Min(a: int, b: int): int
  {
    if a < b then a else b
  }

  /** Where group `k` starts when the accounts are taken `size` at a time. */
  function GroupStart(k: nat, size: int): (r: int)
    ensures size > 0 ==> r >= k
  {
    if k == 0 then 0 else GroupStart(k - 1, size) + size
  }

  lemma {:induction false} GroupStartProduct(k: nat, size: int)
    ensures GroupStart(k, size) == k * size
  {
    if k > 0 {
      GroupStartProduct(k - 1, size);
      assert k * size == (k - 1) * size + size;
    }
  }

  /** The requests for the first `k` groups: group `r` covers the account
      indices from `GroupStart(r)` up to the next group's start, cut at
      `numAccounts`. */
  function Groups(k: nat, size: int, numAccounts: int): (g: seq<string>)
    ensures |g| == k
  {
    if k == 0 then []
    else Groups(k - 1, size, numAccounts) + [DepositRequest(GroupStart(k - 1, size), Min(GroupStart(k, size), numAccounts))]
  }

  /** Group `r` deposits into the accounts `r * size + 1` .. `(r + 1) * size`,
      the last group stopping at `numAccounts`. */
  lemma GroupsAt(k: nat, size: int, numAccounts: int, r: nat)
    requires r < k
    ensures Groups(k, size, numAccounts)[r] == DepositRequest(r * size, Min((r + 1) * size, numAccounts))
  {
    GroupsPrefix(k, size, numAccounts, r);
    GroupStartProduct(r, size);
    GroupStartProduct(r + 1, size);
  }

  lemma {:induction false} GroupsPrefix(k: nat, size: int, numAccounts: int, r: nat)
    requires r < k
    ensures Groups(k, size, numAccounts)[r] == Groups(r + 1, size, numAccounts)[r]
  {
    if r < k - 1 {
      GroupsPrefix(k - 1, size, numAccounts, r);
    }
  }

  /** doInitialDeposits(pipe, expected_balances, accounts_per_trans): the
      accounts are taken `accountsPerTrans` at a time, each group sent as one
      TRANS that deposits 10000 into each of its accounts, and every expected
      balance is set to 10000. Returns the number of requests, the least
      number of groups that covers all accounts, and the requests in the order
      they are sent (each followed by a newline on the pipe). */
  method DoInitialDeposits(numAccounts: int, expected: array<int>, accountsPerTrans: int)
    returns (numRequest: int, requests: seq<string>)
    requires accountsPerTrans > 0 && numAccounts <= expected.Length
    modifies expected
    ensures numRequest == |requests|
    ensures numAccounts <= 0 ==> numRequest == 0
    ensures numAccounts > 0 ==>
      && numRequest >= 1
      && GroupStart(numRequest - 1, accountsPerTrans) < numAccounts <= GroupStart(numRequest, accountsPerTrans)
    ensures numRequest >= 0 && requests == Groups(numRequest, accountsPerTrans, numAccounts)
    ensures forall j :: 0 <= j < expected.Length ==>
      expected[j] == if j < numAccounts then InitialDeposit else old(expected[j])
  {
    numRequest := 0;
    requests := [];
    var i := 0;
    while i < numAccounts
      invariant numRequest >= 0 && i == GroupStart(numRequest, accountsPerTrans) && i >= 0
      invariant numRequest == |requests| && (numAccounts <= 0 ==> numRequest == 0)
      invariant numRequest > 0 ==> GroupStart(numRequest - 1, accountsPerTrans) < numAccounts
      invariant requests == Groups(numRequest, accountsPerTrans, numAccounts)
      invariant forall j :: 0 <= j < expected.Length ==>
        expected[j] == if j < Min(i, numAccounts) then InitialDeposit else old(expected[j])
    {
      var request := DepositGroup(expected, i, accountsPerTrans, numAccounts);
      requests := requests + [request];
      numRequest := numRequest + 1;
      i := i + accountsPerTrans;
    }
    assert GroupStart(0, accountsPerTrans) == 0;
  }

  /** The inner loop of `doInitialDeposits`: the accounts from index `i` on,
      at most `size` of them and none past the last, each given a deposit part
      and an expected balance of 10000. */
  method DepositGroup(expected: array<int>, i: int, size: int, numAccounts: int) returns (request: string)
    requires 0 <= i < numAccounts <= expected.Length && size > 0
    modifies expected
    ensures request == DepositRequest(i, Min(i + size, numAccounts))
    ensures forall k :: 0 <= k < expected.Length ==>
      expected[k] == if i <= k < Min(i + size, numAccounts) then InitialDeposit else old(expected[k])
  {
    request := "TRANS";
    var j := i;
    while j < i + size && j < numAccounts
      invariant i <= j <= Min(i + size, numAccounts)
      invariant request == DepositRequest(i, j)
      invariant forall k :: 0 <= k < expected.Length ==>
        expected[k] == if i <= k < j then InitialDeposit else old(expected[k])
    {
      request := request + DepositPart(j + 1);
      expected[j] := InitialDeposit;
      j := j + 1;
    }
  }

  // ---------------------------------------------------------------------
  // Sizing the random phase

  /** C's `/` on `int`: the quotient truncated toward zero. */
  function CDiv(a: int, b: int): int
    requires b != 0
  {
    var q := (if a < 0 then -a else a) / (if b < 0 then -b else b);
    if (a < 0) != (b < 0) then -q else q
  }

  /** The number of ISF transactions among `n` random ones: `n / 100`, raised
      to 1 when `n > 1`. For at least 100 transactions it is the whole
      hundreds; between 2 and 99 it is 1; it never exceeds `n` when `n` is
      positive, so the loop that marks that many distinct transactions as ISF
      can finish. */
  function IsfCount(n: int): (r: int)
    ensures n >= 100 ==> 100 * r <= n < 100 * (r + 1)
    ensures 1 < n < 100 ==> r == 1
    ensures -100 < n <= 1 ==> r == 0
    ensures n > 1 ==> 1 <= r
    ensures n >= 1 ==> r <= n
  {
    var q := CDiv(n, 100);
    if n > 1 && q == 0 then 1 else q
  }

  /** `num_trans_random`: three transactions per account per worker, kept
      within [300, 1000], unless a secret count is given. */
  function RandomTransCount(numAccounts: int, numWorkers: int, secret: int): (r: int)
    requires numWorkers != 0
    ensures secret != 0 ==> r == secret
    ensures secret == 0 ==> MinRandomTrans <= r <= MaxRandomTrans
    ensures secret == 0 && MinRandomTrans <= CDiv(numAccounts, numWorkers) * 3 <= MaxRandomTrans ==>
      r == CDiv(numAccounts, numWorkers) * 3
    ensures secret == 0 && CDiv(numAccounts, numWorkers) * 3 < MinRandomTrans ==> r == MinRandomTrans
    ensures secret == 0 && CDiv(numAccounts, numWorkers) * 3 > MaxRandomTrans ==> r == MaxRandomTrans
  {
    var perWorker := CDiv(numAccounts, numWorkers) * 3;
    var atLeast := if MinRandomTrans > perWorker then MinRandomTrans else perWorker;
    var clamped := if MaxRandomTrans < atLeast then MaxRandomTrans else atLeast;
    if secret != 0 then secret else clamped
  }
}

/** How the server and its test harness fit together: every result line the
    server writes passes the harness's line check, and every deposit request
    the harness sends reads, on the server side, as the deposits it meant. */
module CrossCheck {
  import opened Text
  import opened Numerals
  import opened RequestQueue
  import opened Executor
  import Server
  import Validator
  import Harness

  /** The keyword and the value the line check reads from a result line. */
  function KindOf(o: Outcome): Validator.Kind
  {
    match o
    case Bal(_) => Validator.BalLine
    case Isf(_) => Validator.IsfLine
    case _ => Validator.OkLine
  }

  function ValueOf(o: Outcome): int
  {
    match o
    case Bal(v) => v
    case Isf(a) => a
    case _ => 0
  }

  /** The last character of a printed time is a digit. */
  lemma TimeEndsInDigit(t: Timeval)
    ensures |FormatTime(t)| >= 1 && IsDigit(FormatTime(t)[|FormatTime(t)| - 1])
  {
    Pad6Shape(t.usec);
    var p := Pad6(t.usec);
    assert |p| >= 1;
    assert FormatTime(t)[|FormatTime(t)| - 1] == p[|p| - 1];
  }

  /** What the line check sees of a result line: the harness drops its last
      character, the newline, and `split` finds no second newline to drop. */
  lemma CheckedFields(id: int, o: Outcome, start: Timeval, finished: Timeval)
    requires o != Silent
    ensures var line := ResultLine(id, o, start, finished);
      |line| >= 1 && Fields(Validator.DropNewline(StripLast(line)), Space) == ResultFields(id, o, start, finished)
  {
    var line := ResultLine(id, o, start, finished);
    ResultLineFields(id, o, start, finished);
    ResultLineJoin(id, o, start, finished);
    var body := Join(ResultFields(id, o, start, finished), Space);
    assert StripLast(line) == body;
    TimeEndsInDigit(finished);
    JoinUnrolled(ResultFields(id, o, start, finished));
    var f := FormatTime(finished);
    assert body[|body| - 1] == f[|f| - 1];
    assert Validator.DropNewline(body) == body;
  }

  /** A result line for a request that was sent and not yet answered passes
      the line check, which reads back its request ID, its keyword and its
      value, provided an ISF line names an existing account and a BAL line a
      balance that is not negative; a BAL line with a negative balance is
      refused as such. */
  lemma ServerLineJudged(id: int, o: Outcome, start: Timeval, finished: Timeval, answered: seq<bool>, numAccounts: int)
    requires o != Silent && 1 <= id <= |answered| && !answered[id - 1]
    requires o.Isf? ==> 1 <= o.account <= numAccounts
    ensures |ResultLine(id, o, start, finished)| >= 1
    ensures var parts := Fields(Validator.DropNewline(StripLast(ResultLine(id, o, start, finished))), Space);
      Validator.Judge(parts, answered, numAccounts) ==
        if o.Bal? && o.balance < 0 then Validator.Reject(Validator.NegativeBalance)
        else Validator.Accept(id, KindOf(o), ValueOf(o))
  {
    CheckedFields(id, o, start, finished);
    JudgeResultFields(id, o, start, finished, answered, numAccounts);
  }

  /** The line check on the fields of a result line. */
  lemma JudgeResultFields(id: int, o: Outcome, start: Timeval, finished: Timeval, answered: seq<bool>, numAccounts: int)
    requires o != Silent && 1 <= id <= |answered| && !answered[id - 1]
    requires o.Isf? ==> 1 <= o.account <= numAccounts
    ensures Validator.Judge(ResultFields(id, o, start, finished), answered, numAccounts) ==
        if o.Bal? && o.balance < 0 then Validator.Reject(Validator.NegativeBalance)
        else Validator.Accept(id, KindOf(o), ValueOf(o))
  {
    var parts := ResultFields(id, o, start, finished);
    match o {
      case Bal(v) => JudgeBal(parts, id, v, answered, numAccounts);
      case Isf(a) => JudgeIsf(parts, id, a, answered, numAccounts);
      case Ok => JudgeOk(parts, id, answered, numAccounts);
    }
  }

  lemma JudgeBal(parts: seq<string>, id: int, v: int, answered: seq<bool>, numAccounts: int)
    requires |parts| == 6 && parts[0] == Itoa(id) && parts[1] == "BAL" && parts[2] == Itoa(v)
    requires 1 <= id <= |answered| && !answered[id - 1]
    ensures Validator.Judge(parts, answered, numAccounts) ==
      if v < 0 then Validator.Reject(Validator.NegativeBalance) else Validator.Accept(id, Validator.BalLine, v)
  {
    AtoiItoa(id);
    AtoiItoa(v);
    assert EqualsIgnoreCase(parts[1], "BAL");
    assert !EqualsIgnoreCase(parts[1], "OK");
    assert !EqualsIgnoreCase(parts[1], "ISF") by { assert Lower(parts[1][0]) != Lower("ISF"[0]); }
  }

  lemma JudgeIsf(parts: seq<string>, id: int, a: int, answered: seq<bool>, numAccounts: int)
    requires |parts| == 6 && parts[0] == Itoa(id) && parts[1] == "ISF" && parts[2] == Itoa(a)
    requires 1 <= id <= |answered| && !answered[id - 1] && 1 <= a <= numAccounts
    ensures Validator.Judge(parts, answered, numAccounts) == Validator.Accept(id, Validator.IsfLine, a)
  {
    AtoiItoa(id);
    AtoiItoa(a);
    assert EqualsIgnoreCase(parts[1], "ISF");
    assert !EqualsIgnoreCase(parts[1], "OK");
    assert !EqualsIgnoreCase(parts[1], "BAL") by { assert Lower(parts[1][0]) != Lower("BAL"[0]); }
  }

  lemma JudgeOk(parts: seq<string>, id: int, answered: seq<bool>, numAccounts: int)
    requires |parts| == 5 && parts[0] == Itoa(id) && parts[1] == "OK"
    requires 1 <= id <= |answered| && !answered[id - 1]
    ensures Validator.Judge(parts, answered, numAccounts) == Validator.Accept(id, Validator.OkLine, 0)
  {
    AtoiItoa(id);
    assert EqualsIgnoreCase(parts[1], "OK");
    assert !EqualsIgnoreCase(parts[1], "BAL");
    assert !EqualsIgnoreCase(parts[1], "ISF");
  }

  // ---------------------------------------------------------------------
  // A whole run

  /** A command whose answer the line check can take: a CHECK, or a TRANS
      that names no account twice. */
  predicate Checkable(n: int, e: Entry)
  {
    && Server.Acceptable(n, e.command)
    && match Interpret(e.command)
       case Check(_) => true
       case Trans(accs, _) => Executor.Distinct(accs)
       case Unrecognised => false
  }

  predicate NonNegative(s: seq<int>)
  {
    forall a :: 0 <= a < |s| ==> s[a] >= 0
  }

  /** The flags of the line check once requests 1 .. k are answered. */
  function AnsweredUpTo(numReqTotal: nat, k: int): seq<bool>
  {
    seq(numReqTotal, j => j < k)
  }

  /** After `k` requests answered in order: no balance is negative, no
      output line is empty, and the line check has passed every line,
      answering exactly the requests 1 .. k. */
  predicate Good(t: Server.Trace, numReqTotal: nat, numAccounts: int, k: nat)
  {
    && |t.out| == k
    && NonNegative(t.store)
    && (forall i :: 0 <= i < |t.out| ==> |t.out[i]| >= 1)
    && var v := Validator.Validate(t.out, numReqTotal, numAccounts);
       v.Passed? && v.lineNumber == k && v.answered == AnsweredUpTo(numReqTotal, k)
  }

  /** The run of `es` from `s` is good. */
  predicate Passes(s: seq<int>, es: seq<Entry>, fin: seq<Timeval>, numReqTotal: nat)
    requires Server.Runnable(|s|, es) && |fin| == |es|
  {
    Good(Server.Run(s, es, fin), numReqTotal, |s|, |es|)
  }

  /** When the worker runs requests 1, 2, ... in order, each a CHECK or a TRANS
      naming no account twice, on a store with no negative balance, no
      balance goes below zero and the output file passes the harness's line
      check with exactly those requests answered. */
  lemma {:induction false} RunOutputPasses(s: seq<int>, es: seq<Entry>, fin: seq<Timeval>, numReqTotal: nat)
    requires Server.Runnable(|s|, es) && |fin| == |es| && |es| <= numReqTotal
    requires InOrder(|s|, es) && NonNegative(s)
    ensures Passes(s, es, fin, numReqTotal)
  {
    if es == [] {
      assert AnsweredUpTo(numReqTotal, 0) == seq(numReqTotal, _ => false);
    } else {
      var n := |es| - 1;
      RequestsPrefix(s, es, n);
      RunOutputPasses(s, es[..n], fin[..n], numReqTotal);
      LastLinePasses(s, es, fin, numReqTotal);
    }
  }

  /** The induction step of `RunOutputPasses`: the last request's line. */
  lemma LastLinePasses(s: seq<int>, es: seq<Entry>, fin: seq<Timeval>, numReqTotal: nat)
    requires Server.Runnable(|s|, es) && |fin| == |es| && 0 < |es| <= numReqTotal
    requires es[|es| - 1].requestId == |es| && Checkable(|s|, es[|es| - 1])
    requires Passes(s, es[..|es| - 1], fin[..|es| - 1], numReqTotal)
    ensures Passes(s, es, fin, numReqTotal)
  {
    var n := |es| - 1;
    var t' := Server.Run(s, es[..n], fin[..n]);
    StepPasses(t', es[n], fin[n], numReqTotal);
    assert Server.Run(s, es, fin) == Server.Step(t', es[n], fin[n]);
  }

  /** Requests 1, 2, ... in order, each a CHECK or a TRANS naming no account
      twice among `n`. */
  predicate InOrder(n: int, es: seq<Entry>)
  {
    forall i :: 0 <= i < |es| ==> es[i].requestId == i + 1 && Checkable(n, es[i])
  }

  lemma RequestsPrefix(s: seq<int>, es: seq<Entry>, n: nat)
    requires n <= |es| && Server.Runnable(|s|, es) && InOrder(|s|, es)
    ensures Server.Runnable(|s|, es[..n]) && InOrder(|s|, es[..n])
  {
    Server.RunnablePrefix(|s|, es, n);
    forall i | 0 <= i < n ensures es[..n][i].requestId == i + 1 && Checkable(|s|, es[..n][i]) {
      assert es[..n][i] == es[i];
    }
  }

  /** One more request of the kind above keeps the store non-negative and
      its line passes, answering the next request ID. */
  lemma StepPasses(t: Server.Trace, e: Entry, finished: Timeval, numReqTotal: nat)
    requires Checkable(|t.store|, e) && 1 <= e.requestId <= numReqTotal
    requires Good(t, numReqTotal, |t.store|, e.requestId - 1)
    ensures Good(Server.Step(t, e, finished), numReqTotal, |t.store|, e.requestId)
  {
    var c := Interpret(e.command);
    var o := Answer(t.store, c);
    var line := ResultLine(e.requestId, o, e.timeStart, finished);
    assert Server.Step(t, e, finished) == Server.Trace(StoreAfter(t.store, c), t.out + [line]);
    AnswerCheckable(t.store, e);
    var r := Validator.Validate(t.out, numReqTotal, |t.store|);
    LinePasses(e.requestId, o, e.timeStart, finished, r, numReqTotal, |t.store|);
    Validator.ValidateSnoc(t.out, line, numReqTotal, |t.store|);
  }

  /** The result line for the next request ID, holding an OK, an ISF naming
      an existing account or a BAL with a balance that is not negative,
      passes the line check and marks that request answered. */
  lemma LinePasses(id: int, o: Outcome, start: Timeval, finished: Timeval, r: Validator.Report, numReqTotal: nat,
                   numAccounts: int)
    requires o != Silent && (o.Isf? ==> 1 <= o.account <= numAccounts) && (o.Bal? ==> o.balance >= 0)
    requires 1 <= id <= numReqTotal
    requires r.Passed? && r.lineNumber == id - 1 && r.answered == AnsweredUpTo(numReqTotal, id - 1)
    ensures var line := ResultLine(id, o, start, finished);
      && |line| >= 1
      && var f := Validator.Feed(r, line, numAccounts);
         f.Passed? && f.lineNumber == id && f.answered == AnsweredUpTo(numReqTotal, id)
  {
    var line := ResultLine(id, o, start, finished);
    var v := Validator.Accept(id, KindOf(o), ValueOf(o));
    assert |line| >= 1 && Validator.Feed(r, line, numAccounts) == Validator.Record(r, v) by {
      ServerLineJudged(id, o, start, finished, r.answered, numAccounts);
    }
    AnsweredNext(numReqTotal, id);
  }

  lemma AnsweredNext(numReqTotal: nat, id: int)
    requires 1 <= id <= numReqTotal
    ensures AnsweredUpTo(numReqTotal, id - 1)[id - 1 := true] == AnsweredUpTo(numReqTotal, id)
  {
  }

  /** The answer to a CHECK, or to a TRANS naming no account twice, on a store
      with no negative balance: a BAL line with a balance that is not
      negative, or an OK, or an ISF naming an existing account; the store
      stays non-negative. */
  lemma AnswerCheckable(s: seq<int>, e: Entry)
    requires Checkable(|s|, e) && NonNegative(s)
    ensures var c := Interpret(e.command);
      && NonNegative(StoreAfter(s, c))
      && Answer(s, c) != Silent
      && (Answer(s, c).Isf? ==> 1 <= Answer(s, c).account <= |s|)
      && (Answer(s, c).Bal? ==> Answer(s, c).balance >= 0)
  {
    match Interpret(e.command) {
      case Check(a) =>
      case Trans(accs, amts) =>
        TransContract(s, accs, amts);
        TransKeepsNonNegativeWhenDistinct(s, accs, amts);
    }
  }

  // ---------------------------------------------------------------------
  // The initial deposits as the server reads them

  /** The words of a deposit request: TRANS, then for each account its
      number and the amount deposited. */
  function DepositWords(lo: int, hi: int): (w: seq<string>)
    decreases hi - lo
    ensures |w| >= 1 && w[0] == "TRANS"
  {
    if hi <= lo then ["TRANS"] else DepositWords(lo, hi - 1) + [Itoa(hi), Itoa(Harness.InitialDeposit)]
  }

  /** Word `i` (from 1) of a deposit request starting after account `lo`:
      odd words are account numbers, even words the amount `m`. */
  function DepositWord(lo: int, i: int, m: int): string
  {
    if i % 2 == 1 then Itoa(lo + (i + 1) / 2) else Itoa(m)
  }

  lemma {:induction false} DepositWordsAt(lo: int, hi: int)
    requires lo <= hi
    decreases hi - lo
    ensures |DepositWords(lo, hi)| == 2 * (hi - lo) + 1
    ensures forall i :: 0 <= i < |DepositWords(lo, hi)| ==>
      DepositWords(lo, hi)[i] != [] && Space !in DepositWords(lo, hi)[i]
    ensures forall i :: 1 <= i < |DepositWords(lo, hi)| ==>
      DepositWords(lo, hi)[i] == DepositWord(lo, i, Harness.InitialDeposit)
  {
    if lo < hi {
      DepositWordsAt(lo, hi - 1);
      NoSpaceInNumeral(hi);
      NoSpaceInNumeral(Harness.InitialDeposit);
      var p := DepositWords(lo, hi - 1);
      var w := DepositWords(lo, hi);
      assert w == p + [Itoa(hi), Itoa(Harness.InitialDeposit)];
      forall i | 0 <= i < |w|
        ensures w[i] != [] && Space !in w[i]
        ensures i >= 1 ==> w[i] == DepositWord(lo, i, Harness.InitialDeposit)
      {
        if i < |p| {
          assert w[i] == p[i];
        } else if i == |p| {
          assert w[i] == Itoa(hi) && i % 2 == 1 && lo + (i + 1) / 2 == hi;
        } else {
          assert w[i] == Itoa(Harness.InitialDeposit) && i % 2 == 0;
        }
      }
    }
  }

  /** The request `doInitialDeposits` builds is its words joined by single spaces. */
  lemma {:induction false} DepositRequestJoin(lo: int, hi: int)
    decreases hi - lo
    ensures Harness.DepositRequest(lo, hi) == Join(DepositWords(lo, hi), Space)
  {
    if lo < hi {
      var a, b := Itoa(hi), Itoa(Harness.InitialDeposit);
      DepositRequestJoin(lo, hi - 1);
      JoinTwoMore(DepositWords(lo, hi - 1), a, b, Space);
      assert Harness.DepositPart(hi) == [Space] + a + [Space] + b;
      var x := Harness.DepositRequest(lo, hi - 1);
      assert x + ([Space] + a + [Space] + b) == x + [Space] + a + [Space] + b;
    }
  }

  lemma JoinTwoMore(p: seq<string>, a: string, b: string, sep: char)
    requires |p| >= 1
    ensures Join(p + [a, b], sep) == Join(p, sep) + [sep] + a + [sep] + b
  {
    var w := p + [a, b];
    assert w[..|w| - 1] == p + [a] && w[|w| - 1] == b;
    assert (p + [a])[..|p|] == p && (p + [a])[|p|] == a;
  }

  /** `strtok` cuts a deposit request back into its words. */
  lemma DepositTokens(lo: int, hi: int)
    requires lo <= hi
    ensures Tokens(Harness.DepositRequest(lo, hi)) == DepositWords(lo, hi)
    ensures Count(Harness.DepositRequest(lo, hi), Space) == 2 * (hi - lo)
  {
    var w := DepositWords(lo, hi);
    DepositRequestJoin(lo, hi);
    DepositWordsAt(lo, hi);
    FieldsJoin(w, Space);
    NonEmptyAll(w);
  }

  /** The server reads the deposit request for the account indices `lo` up
      to `hi` as a TRANS that deposits 10000 into accounts `lo + 1` .. `hi`,
      in that order. */
  lemma DepositRequestRead(lo: int, hi: int)
    requires lo <= hi
    ensures Parsable(Harness.DepositRequest(lo, hi))
    ensures Interpret(Harness.DepositRequest(lo, hi)) == DepositCommand(lo, hi)
  {
    var w, n := DepositWords(lo, hi), hi - lo;
    assert ParsableTokens(w, 2 * n) && Dispatch(w, 2 * n) == DepositCommand(lo, hi) by {
      DepositWordValues(lo, hi);
      ReadAsDeposits(w, lo, n);
    }
    var req := Harness.DepositRequest(lo, hi);
    assert Tokens(req) == w && Count(req, Space) == 2 * n by {
      DepositTokens(lo, hi);
    }
    InterpretByTokens(req, w, 2 * n);
  }

  /** What `atoi` reads from each word of a deposit request after TRANS. */
  lemma DepositWordValues(lo: int, hi: int)
    requires lo <= hi
    ensures |DepositWords(lo, hi)| == 2 * (hi - lo) + 1
    ensures forall i :: 1 <= i < |DepositWords(lo, hi)| ==>
      Atoi(DepositWords(lo, hi)[i]) == if i % 2 == 1 then lo + (i + 1) / 2 else Harness.InitialDeposit
  {
    var w := DepositWords(lo, hi);
    DepositWordsAt(lo, hi);
    forall i | 1 <= i < |w|
      ensures Atoi(w[i]) == if i % 2 == 1 then lo + (i + 1) / 2 else Harness.InitialDeposit
    {
      WordValue(lo, i, Harness.InitialDeposit);
    }
  }

  lemma WordValue(lo: int, i: int, m: int)
    ensures Atoi(DepositWord(lo, i, m)) == if i % 2 == 1 then lo + (i + 1) / 2 else m
  {
    if i % 2 == 1 {
      AtoiItoa(lo + (i + 1) / 2);
    } else {
      AtoiItoa(m);
    }
  }

  /** Tokens TRANS and then, for accounts `lo + 1` .. `lo + n`, each number
      followed by the amount 10000, with `2 * n` spaces in the line. */
  lemma ReadAsDeposits(t: seq<string>, lo: int, n: nat)
    requires |t| == 2 * n + 1 && t[0] == "TRANS"
    requires forall i :: 1 <= i < |t| ==>
      Atoi(t[i]) == if i % 2 == 1 then lo + (i + 1) / 2 else Harness.InitialDeposit
    ensures ParsableTokens(t, 2 * n)
    ensures Dispatch(t, 2 * n) == DepositCommand(lo, lo + n)
  {
    var accs := seq(n, k requires 0 <= k < n => Atoi(t[2 * k + 1]));
    var amts := seq(n, k requires 0 <= k < n => Atoi(t[2 * k + 2]));
    assert Dispatch(t, 2 * n) == Trans(accs, amts);
    var c := DepositCommand(lo, lo + n);
    forall k | 0 <= k < n ensures accs[k] == c.accountNums[k] && amts[k] == c.amounts[k] {
      assert Atoi(t[2 * k + 1]) == lo + (2 * k + 2) / 2;
      assert Atoi(t[2 * k + 2]) == Harness.InitialDeposit;
    }
  }

  /** The TRANS a deposit request stands for: 10000 into each of the accounts
      `lo + 1` .. `hi`, in that order. */
  function DepositCommand(lo: int, hi: int): Command
    requires lo <= hi
  {
    Trans(seq(hi - lo, k => lo + k + 1), seq(hi - lo, _ => Harness.InitialDeposit))
  }

  /** The deposits for account indices within the store, run against a store
      with no negative balance, answer OK and add 10000 to exactly the
      accounts `lo + 1` .. `hi`; they name no account twice. */
  lemma DepositApplied(s: seq<int>, lo: int, hi: int)
    requires 0 <= lo <= hi <= |s| && NonNegative(s)
    ensures var c := DepositCommand(lo, hi);
      && Fits(|s|, c) && Answer(s, c) == Ok
      && (forall i, j :: 0 <= i < j < |c.accountNums| ==> c.accountNums[i] != c.accountNums[j])
      && forall a :: 0 <= a < |s| ==>
           StoreAfter(s, c)[a] == s[a] + (if lo <= a < hi then Harness.InitialDeposit else 0)
  {
    var accs := seq(hi - lo, k => lo + k + 1);
    var amts := seq(hi - lo, _ => Harness.InitialDeposit);
    assert ValidAccounts(|s|, accs);
    assert FirstShortfall(s, accs, amts) == |accs|;
    forall a | 0 <= a < |s|
      ensures ApplyPairs(s, accs, amts)[a] == s[a] + (if lo <= a < hi then Harness.InitialDeposit else 0)
    {
      DepositReaches(s, lo, hi, a);
    }
  }

  lemma DepositReaches(s: seq<int>, lo: int, hi: int, a: int)
    requires 0 <= lo <= hi <= |s| && 0 <= a < |s|
    ensures var accs := seq(hi - lo, k => lo + k + 1);
      && ValidAccounts(|s|, accs)
      && ApplyPairs(s, accs, seq(hi - lo, _ => Harness.InitialDeposit))[a] ==
           s[a] + (if lo <= a < hi then Harness.InitialDeposit else 0)
  {
    var accs := seq(hi - lo, k => lo + k + 1);
    var amts := seq(hi - lo, _ => Harness.InitialDeposit);
    ApplyPairsBalance(s, accs, amts, a + 1);
    if lo <= a < hi {
      AmountForSingle(accs, amts, a - lo);
    } else {
      AmountForUnnamed(accs, amts, a + 1);
    }
  }

  /** Request `r` of those `doInitialDeposits` sends, taking the accounts
      `size` at a time, reads on the server side as the deposits into the
      accounts of group `r`. */
  lemma GroupRead(k: nat, size: int, numAccounts: int, r: nat)
    requires size > 0 && r < k && Harness.GroupStart(r, size) <= numAccounts
    ensures var lo, hi := Harness.GroupStart(r, size), Harness.Min(Harness.GroupStart(r + 1, size), numAccounts);
      && lo <= hi
      && Parsable(Harness.Groups(k, size, numAccounts)[r])
      && Interpret(Harness.Groups(k, size, numAccounts)[r]) == DepositCommand(lo, hi)
  {
    var lo, hi := Harness.GroupStart(r, size), Harness.Min(Harness.GroupStart(r + 1, size), numAccounts);
    assert Harness.Groups(k, size, numAccounts)[r] == Harness.DepositRequest(lo, hi) by {
      Harness.GroupsPrefix(k, size, numAccounts, r);
    }
    DepositRequestRead(lo, hi);
  }

  /** The store after the deposits of the first `k` groups, taking the
      accounts `size` at a time: every account they have reached holds 10000
      more, the others are unchanged. */
  function AfterDeposits(s: seq<int>, k: nat, size: int): (r: seq<int>)
    requires size > 0 && NonNegative(s) && (k > 0 ==> Harness.GroupStart(k - 1, size) < |s|)
    ensures |r| == |s| && NonNegative(r)
    ensures forall a :: 0 <= a < |s| ==>
      r[a] == s[a] + (if a < Harness.Min(Harness.GroupStart(k, size), |s|) then Harness.InitialDeposit else 0)
  {
    if k == 0 then s
    else
      var prev := AfterDeposits(s, k - 1, size);
      var lo := Harness.GroupStart(k - 1, size);
      var hi := Harness.Min(Harness.GroupStart(k, size), |s|);
      DepositApplied(prev, lo, hi);
      StoreAfter(prev, DepositCommand(lo, hi))
  }

  /** After the deposits of all the requests `doInitialDeposits` sends
      (`GroupRead`), a store that started at zero holds exactly the balances
      the harness expects: 10000 in every account. */
  lemma DepositsMeetExpected(s: seq<int>, size: int, numRequest: nat)
    requires size > 0 && |s| > 0 && numRequest >= 1
    requires forall a :: 0 <= a < |s| ==> s[a] == 0
    requires Harness.GroupStart(numRequest - 1, size) < |s| <= Harness.GroupStart(numRequest, size)
    ensures NonNegative(s)
    ensures forall a :: 0 <= a < |s| ==> AfterDeposits(s, numRequest, size)[a] == Harness.InitialDeposit
  {
  }
}

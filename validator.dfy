/** The check the test harness (Project2Test_v2.c, `analyzeOutputFile`) runs
    over the server's output file: every line must be a well-formed result
    for a request that was sent and not yet answered; balances are summed,
    ISF request IDs collected, and the requests nobody answered listed by
    0-based index. The first bad line stops the check. The elapsed-time
    bookkeeping is not modelled. */
module Validator {
  import opened Text
  import opened Numerals
  import opened Seqs

  /** `char lineCopy[200]`: the copy `strcpy` makes of each line. */
  const LineCopyCapacity: nat := 200

  /** `malloc(sizeof(char*)*100)`: room for the fields plus the closing NULL. */
  const PartsCapacity: nat := 100

  /** `split` first drops one trailing newline, if there is one. */
  function DropNewline(line: string): string
  {
    if |line| > 0 && line[|line| - 1] == '\n' then line[..|line| - 1] else line
  }

  /** split(line, parts): the `strsep` fields of the line without its
      newline; gluing them back with spaces gives that line. */
  method Split(line: string) returns (parts: seq<string>)
    ensures parts == Fields(DropNewline(line), Space)
    ensures |parts| == Count(DropNewline(line), Space) + 1
    ensures Join(parts, Space) == DropNewline(line)
  {
    var rest := line;
    if |line| > 0 && line[|line| - 1] == '\n' {
      rest := line[..|line| - 1];
    }
    parts := CutAtSpaces(rest);
    JoinFields(rest, Space);
  }

  /** The `strsep` loop of `split`: each space ends a field, empty ones
      included. */
  method CutAtSpaces(rest: string) returns (parts: seq<string>)
    ensures parts == Fields(rest, Space)
  {
    parts := [];
    var part: string := [];
    ghost var seen: string := [];
    var i := 0;
    while i < |rest|
      invariant 0 <= i <= |rest| && seen == rest[..i]
      invariant parts + [part] == Fields(seen, Space)
    {
      FieldsSnoc(parts, part, seen, rest[i], Space);
      if rest[i] == Space {
        parts := parts + [part];
        part := [];
      } else {
        part := part + [rest[i]];
      }
      seen := seen + [rest[i]];
      i := i + 1;
    }
    parts := parts + [part];
    assert rest[..i] == rest;
  }

  // ---------------------------------------------------------------------
  // One line

  datatype Kind = BalLine | OkLine | IsfLine

  /** The errors the check reports, in the order it tests for them. */
  datatype Fault = BadFormat | UnknownKeyword | BadRequestId | DuplicateRequestId | BadIsfAccount | NegativeBalance

  /** What one line amounts to: a result for request `requestId` carrying
      `value` (the balance of a BAL line, the account of an ISF line), or
      the first fault found. */
  datatype Verdict = Accept(requestId: int, kind: Kind, value: int) | Reject(fault: Fault)

  /** The tests applied to the fields of one line, `answered[i]` telling
      whether request `i + 1` was already answered. An accepted line has five
      fields if it reads OK and six otherwise, names a request that was sent
      and not yet answered, an ISF line an existing account and a BAL line a
      balance that is not negative. */
  function Judge(parts: seq<string>, answered: seq<bool>, numAccounts: int): (v: Verdict)
    ensures v.Accept? ==>
      && |parts| == (if v.kind == OkLine then 5 else 6)
      && v.requestId == Atoi(parts[0])
      && 1 <= v.requestId <= |answered| && !answered[v.requestId - 1]
      && (v.kind == BalLine ==> EqualsIgnoreCase(parts[1], "BAL") && v.value == Atoi(parts[2]) && v.value >= 0)
      && (v.kind == IsfLine ==> EqualsIgnoreCase(parts[1], "ISF") && v.value == Atoi(parts[2]) && 1 <= v.value <= numAccounts)
      && (v.kind == OkLine ==> EqualsIgnoreCase(parts[1], "OK"))
  {
    var n := |parts|;
    if n != 5 && n != 6 then Reject(BadFormat)
    else
      var isBAL := EqualsIgnoreCase(parts[1], "BAL");
      var isOK := EqualsIgnoreCase(parts[1], "OK");
      var isISF := EqualsIgnoreCase(parts[1], "ISF");
      if (isOK && n != 5) || (isBAL && n != 6) || (isISF && n != 6) then Reject(BadFormat)
      else if !isBAL && !isOK && !isISF then Reject(UnknownKeyword)
      else
        var id := Atoi(parts[0]);
        if id < 1 || id > |answered| then Reject(BadRequestId)
        else if answered[id - 1] then Reject(DuplicateRequestId)
        else if isISF && (Atoi(parts[2]) < 1 || Atoi(parts[2]) > numAccounts) then Reject(BadIsfAccount)
        else if isBAL && Atoi(parts[2]) < 0 then Reject(NegativeBalance)
        else if isBAL then Accept(id, BalLine, Atoi(parts[2]))
        else if isISF then Accept(id, IsfLine, Atoi(parts[2]))
        else Accept(id, OkLine, 0)
  }

  /** No word reads as two of the keywords, whatever its case. */
  lemma KeywordsExclusive(s: string)
    ensures !(EqualsIgnoreCase(s, "BAL") && EqualsIgnoreCase(s, "ISF"))
    ensures !(EqualsIgnoreCase(s, "OK") && (EqualsIgnoreCase(s, "BAL") || EqualsIgnoreCase(s, "ISF")))
  {
    if |s| == 3 {
      assert EqualsIgnoreCase(s, "BAL") ==> Lower(s[0]) == 'b';
      assert EqualsIgnoreCase(s, "ISF") ==> Lower(s[0]) == 'i';
    }
  }

  /** The converse of `Judge`'s contract: a line with the field count of its
      keyword, the keyword in any case, a request that was sent and not yet
      answered, an existing ISF account and a BAL balance that is not
      negative is accepted, with its ID, kind and value. */
  lemma JudgeAccepts(parts: seq<string>, answered: seq<bool>, numAccounts: int, k: Kind)
    requires |parts| == (if k == OkLine then 5 else 6)
    requires k == OkLine ==> EqualsIgnoreCase(parts[1], "OK")
    requires k == BalLine ==> EqualsIgnoreCase(parts[1], "BAL") && Atoi(parts[2]) >= 0
    requires k == IsfLine ==> EqualsIgnoreCase(parts[1], "ISF") && 1 <= Atoi(parts[2]) <= numAccounts
    requires 1 <= Atoi(parts[0]) <= |answered| && !answered[Atoi(parts[0]) - 1]
    ensures Judge(parts, answered, numAccounts)
      == Accept(Atoi(parts[0]), k, if k == OkLine then 0 else Atoi(parts[2]))
  {
    KeywordsExclusive(parts[1]);
  }

  /** `strcasecmp` lets a lower-case keyword through: `3 ok ...` and
      `3 bal 250 ...` are accepted for an unanswered request 3. */
  lemma JudgeLowerCase(answered: seq<bool>, numAccounts: int)
    requires |answered| >= 3 && !answered[2]
    ensures Judge([Itoa(3), "ok", "TIME", "1.000000", "2.000000"], answered, numAccounts)
      == Accept(3, OkLine, 0)
    ensures Judge([Itoa(3), "bal", Itoa(250), "TIME", "1.000000", "2.000000"], answered, numAccounts)
      == Accept(3, BalLine, 250)
  {
    AtoiItoa(3);
    AtoiItoa(250);
    assert EqualsIgnoreCase("ok", "OK") && EqualsIgnoreCase("bal", "BAL");
    JudgeAccepts([Itoa(3), "ok", "TIME", "1.000000", "2.000000"], answered, numAccounts, OkLine);
    JudgeAccepts([Itoa(3), "bal", Itoa(250), "TIME", "1.000000", "2.000000"], answered, numAccounts, BalLine);
  }

  // ---------------------------------------------------------------------
  // The whole file

  /** Where the check stands: stopped at line `lineNumber` with a fault, or
      still going after `lineNumber` lines with the answered flags, the sum
      of the BAL balances and the ISF request IDs in file order. */
  datatype Report =
    | Failed(lineNumber: nat, fault: Fault)
    | Passed(lineNumber: nat, answered: seq<bool>, sumBalance: int, isfIds: seq<int>)

  /** The fields of one line of the file: its last character dropped, then split. */
  function LineFields(raw: string): seq<string>
    requires |raw| >= 1
  {
    Fields(DropNewline(StripLast(raw)), Space)
  }

  /** One more line read after report `r`. */
  function Feed(r: Report, raw: string, numAccounts: int): Report
    requires r.Passed? && |raw| >= 1
  {
    Record(r, Judge(LineFields(raw), r.answered, numAccounts))
  }

  /** Report `r` after a line judged `v`. */
  function Record(r: Report, v: Verdict): Report
    requires r.Passed? && (v.Accept? ==> 1 <= v.requestId <= |r.answered|)
  {
    match v
    case Reject(f) => Failed(r.lineNumber + 1, f)
    case Accept(id, kind, value) =>
      Passed(r.lineNumber + 1, r.answered[id - 1 := true],
             r.sumBalance + (if kind == BalLine then value else 0),
             r.isfIds + (if kind == IsfLine then [id] else []))
  }

  /** The report after lines whose fields are `ps`, one entry per line, when
      `numReqTotal` requests were sent: each line is judged in turn until one
      fails. */
  function Tally(ps: seq<seq<string>>, numReqTotal: nat, numAccounts: int): Report
  {
    if ps == [] then Passed(0, seq(numReqTotal, _ => false), 0, [])
    else
      var n := |ps| - 1;
      var r := Tally(ps[..n], numReqTotal, numAccounts);
      if r.Failed? then r else Record(r, Judge(ps[n], r.answered, numAccounts))
  }

  /** The fields of every line. */
  function PartsOf(lines: seq<string>): (ps: seq<seq<string>>)
    requires forall i :: 0 <= i < |lines| ==> |lines[i]| >= 1
    ensures |ps| == |lines|
  {
    seq(|lines|, i requires 0 <= i < |lines| => LineFields(lines[i]))
  }

  /** The report after reading `lines` when `numReqTotal` requests were sent. */
  function Validate(lines: seq<string>, numReqTotal: nat, numAccounts: int): Report
    requires forall i :: 0 <= i < |lines| ==> |lines[i]| >= 1
  {
    Tally(PartsOf(lines), numReqTotal, numAccounts)
  }

  /** One more line judged after the lines `ps`. */
  lemma TallySnoc(ps: seq<seq<string>>, p: seq<string>, numReqTotal: nat, numAccounts: int)
    ensures var r := Tally(ps, numReqTotal, numAccounts);
      Tally(ps + [p], numReqTotal, numAccounts) == if r.Failed? then r else Record(r, Judge(p, r.answered, numAccounts))
  {
    assert (ps + [p])[..|ps|] == ps;
  }

  lemma PartsPrefix(lines: seq<string>, k: nat)
    requires forall i :: 0 <= i < |lines| ==> |lines[i]| >= 1
    requires k <= |lines|
    ensures PartsOf(lines[..k]) == PartsOf(lines)[..k]
  {
  }

  lemma PartsSnoc(lines: seq<string>, line: string)
    requires forall i :: 0 <= i < |lines| ==> |lines[i]| >= 1
    requires |line| >= 1
    ensures forall i :: 0 <= i < |lines + [line]| ==> |(lines + [line])[i]| >= 1
    ensures PartsOf(lines + [line]) == PartsOf(lines) + [LineFields(line)]
  {
  }

  lemma ValidateStep(lines: seq<string>, k: nat, numReqTotal: nat, numAccounts: int)
    requires forall i :: 0 <= i < |lines| ==> |lines[i]| >= 1
    requires k < |lines|
    ensures var r := Validate(lines[..k], numReqTotal, numAccounts);
      Validate(lines[..k + 1], numReqTotal, numAccounts) == if r.Failed? then r else Feed(r, lines[k], numAccounts)
  {
    TakeSnoc(lines, k);
    PartsSnoc(lines[..k], lines[k]);
    TallySnoc(PartsOf(lines[..k]), LineFields(lines[k]), numReqTotal, numAccounts);
  }

  /** Reading one more line after `lines`. */
  lemma ValidateSnoc(lines: seq<string>, line: string, numReqTotal: nat, numAccounts: int)
    requires forall i :: 0 <= i < |lines| ==> |lines[i]| >= 1
    requires |line| >= 1
    ensures forall i :: 0 <= i < |lines + [line]| ==> |(lines + [line])[i]| >= 1
    ensures var r := Validate(lines, numReqTotal, numAccounts);
      Validate(lines + [line], numReqTotal, numAccounts) == if r.Failed? then r else Feed(r, line, numAccounts)
  {
    PartsSnoc(lines, line);
    TallySnoc(PartsOf(lines), LineFields(line), numReqTotal, numAccounts);
  }

  /** Number of set flags. */
  function CountTrue(b: seq<bool>): nat
  {
    if b == [] then 0 else CountTrue(b[..|b| - 1]) + (if b[|b| - 1] then 1 else 0)
  }

  lemma {:induction false} CountTrueSet(b: seq<bool>, i: nat)
    requires i < |b| && !b[i]
    ensures CountTrue(b[i := true]) == CountTrue(b) + 1
  {
    var n := |b| - 1;
    if i < n {
      CountTrueSet(b[..n], i);
      assert b[i := true][..n] == b[..n][i := true];
    } else {
      assert b[i := true][..n] == b[..n];
    }
  }

  lemma {:induction false} CountTrueNone(n: nat)
    ensures CountTrue(seq(n, _ => false)) == 0
  {
    if n > 0 {
      CountTrueNone(n - 1);
      assert seq(n, _ => false)[..n - 1] == seq(n - 1, _ => false);
    }
  }

  /** A report still going after `lines` lines agrees with its flags: it has
      one flag per request sent and as many set as lines read, and every ISF
      ID is the ID of an answered request, none repeated. */
  predicate Tallied(r: Report, numReqTotal: nat, lines: nat)
  {
    r.Passed? ==>
      && r.lineNumber == lines
      && |r.answered| == numReqTotal
      && CountTrue(r.answered) == lines
      && (forall k :: 0 <= k < |r.isfIds| ==> 1 <= r.isfIds[k] <= numReqTotal && r.answered[r.isfIds[k] - 1])
      && (forall j, k :: 0 <= j < k < |r.isfIds| ==> r.isfIds[j] != r.isfIds[k])
  }

  /** While the check passes, each line has answered exactly one request that
      had not been answered before, so the flags set are as many as the lines;
      every ISF ID is the ID of an answered request and none repeats. */
  lemma ValidateCounts(lines: seq<string>, numReqTotal: nat, numAccounts: int)
    requires forall i :: 0 <= i < |lines| ==> |lines[i]| >= 1
    ensures Tallied(Validate(lines, numReqTotal, numAccounts), numReqTotal, |lines|)
  {
    TallyCounts(PartsOf(lines), numReqTotal, numAccounts);
  }

  lemma {:induction false} TallyCounts(ps: seq<seq<string>>, numReqTotal: nat, numAccounts: int)
    ensures Tallied(Tally(ps, numReqTotal, numAccounts), numReqTotal, |ps|)
  {
    if ps == [] {
      CountTrueNone(numReqTotal);
    } else {
      var n := |ps| - 1;
      TallyCounts(ps[..n], numReqTotal, numAccounts);
      var r := Tally(ps[..n], numReqTotal, numAccounts);
      if r.Passed? {
        RecordCounts(r, Judge(ps[n], r.answered, numAccounts), numReqTotal, n);
      }
    }
  }

  /** One accepted line sets one more flag and adds at most a new ISF ID. */
  lemma RecordCounts(r: Report, v: Verdict, numReqTotal: nat, lines: nat)
    requires r.Passed? && Tallied(r, numReqTotal, lines)
    requires v.Accept? ==> 1 <= v.requestId <= numReqTotal && !r.answered[v.requestId - 1]
    ensures Tallied(Record(r, v), numReqTotal, lines + 1)
  {
    if v.Accept? {
      CountTrueSet(r.answered, v.requestId - 1);
    }
  }

  /** Once a line has failed, the lines after it change nothing. */
  lemma FailedSticks(lines: seq<string>, k: nat, numReqTotal: nat, numAccounts: int)
    requires forall i :: 0 <= i < |lines| ==> |lines[i]| >= 1
    requires k <= |lines| && Validate(lines[..k], numReqTotal, numAccounts).Failed?
    ensures Validate(lines, numReqTotal, numAccounts) == Validate(lines[..k], numReqTotal, numAccounts)
  {
    PartsPrefix(lines, k);
    TallySticks(PartsOf(lines), k, numReqTotal, numAccounts);
  }

  lemma {:induction false} TallySticks(ps: seq<seq<string>>, k: nat, numReqTotal: nat, numAccounts: int)
    requires k <= |ps| && Tally(ps[..k], numReqTotal, numAccounts).Failed?
    ensures Tally(ps, numReqTotal, numAccounts) == Tally(ps[..k], numReqTotal, numAccounts)
  {
    if k < |ps| {
      var n := |ps| - 1;
      TakeTake(ps, n, k);
      TallySticks(ps[..n], k, numReqTotal, numAccounts);
    } else {
      TakeAll(ps);
    }
  }

  /** The tests `analyzeOutputFile` applies to the fields of one line, in
      its order; the request is marked answered as soon as its ID has passed,
      before the ISF and BAL tests. */
  method CheckFields(parts: seq<string>, answered: array<bool>, numAccounts: int) returns (v: Verdict)
    modifies answered
    ensures v == Judge(parts, old(answered[..]), numAccounts)
    ensures v.Accept? ==> answered[..] == old(answered[..])[v.requestId - 1 := true]
  {
    var numParts := |parts|;
    if numParts != 5 && numParts != 6 {
      return Reject(BadFormat);
    }
    var isBAL := EqualsIgnoreCase(parts[1], "BAL");
    var isOK := EqualsIgnoreCase(parts[1], "OK");
    var isISF := EqualsIgnoreCase(parts[1], "ISF");
    if (isOK && numParts != 5) || (isBAL && numParts != 6) || (isISF && numParts != 6) {
      return Reject(BadFormat);
    }
    if !isBAL && !isOK && !isISF {
      return Reject(UnknownKeyword);
    }
    var reqId := Atoi(parts[0]);
    if reqId < 1 || reqId > answered.Length {
      return Reject(BadRequestId);
    }
    if answered[reqId - 1] {
      return Reject(DuplicateRequestId);
    }
    answered[reqId - 1] := true;
    var kind, value := OkLine, 0;
    if isISF {
      var isfAccount := Atoi(parts[2]);
      if isfAccount < 1 || isfAccount > numAccounts {
        return Reject(BadIsfAccount);
      }
      kind, value := IsfLine, isfAccount;
    }
    if isBAL {
      var balance := Atoi(parts[2]);
      if balance < 0 {
        return Reject(NegativeBalance);
      }
      kind, value := BalLine, balance;
    }
    return Accept(reqId, kind, value);
  }

  /** The loop of `analyzeOutputFile` over the lines `getline` returns: each
      line loses its last character and is split, its fields are tested, ISF
      IDs are collected and BAL balances added up; the first fault ends the
      loop. */
  method AnalyzeResults(lines: seq<string>, numReqTotal: nat, numAccounts: int) returns (report: Report)
    requires forall i :: 0 <= i < |lines| ==>
      1 <= |lines[i]| <= LineCopyCapacity && Count(StripLast(lines[i]), Space) + 1 < PartsCapacity
    ensures report == Validate(lines, numReqTotal, numAccounts)
  {
    var answered := new bool[numReqTotal](_ => false);
    var sum := 0;
    var isfIds: seq<int> := [];
    var lineNumber := 0;
    assert answered[..] == seq(numReqTotal, _ => false);
    while lineNumber < |lines|
      invariant 0 <= lineNumber <= |lines| && answered.Length == numReqTotal
      invariant Validate(lines[..lineNumber], numReqTotal, numAccounts) == Passed(lineNumber, answered[..], sum, isfIds)
    {
      var v;
      v, sum, isfIds := AnalyzeLine(lines, lineNumber, answered, numReqTotal, numAccounts, sum, isfIds);
      lineNumber := lineNumber + 1;
      if v.Reject? {
        FailedSticks(lines, lineNumber, numReqTotal, numAccounts);
        return Failed(lineNumber, v.fault);
      }
    }
    assert lines[..lineNumber] == lines;
    report := Passed(lineNumber, answered[..], sum, isfIds);
  }

  /** One pass of the loop on line `k`: drop the last character, split, test
      the fields, then add the line's ISF ID or BAL balance. The report moves
      on by that line. */
  method AnalyzeLine(lines: seq<string>, k: nat, answered: array<bool>, ghost numReqTotal: nat, numAccounts: int,
                     sum: int, isfIds: seq<int>) returns (v: Verdict, sum': int, isfIds': seq<int>)
    requires forall i :: 0 <= i < |lines| ==> |lines[i]| >= 1
    requires k < |lines| && Validate(lines[..k], numReqTotal, numAccounts) == Passed(k, answered[..], sum, isfIds)
    modifies answered
    ensures v.Reject? ==> Validate(lines[..k + 1], numReqTotal, numAccounts) == Failed(k + 1, v.fault)
    ensures v.Accept? ==> Validate(lines[..k + 1], numReqTotal, numAccounts) == Passed(k + 1, answered[..], sum', isfIds')
  {
    ghost var r := Passed(k, answered[..], sum, isfIds);
    v := CheckLine(lines, k, answered, numReqTotal, numAccounts, r);
    sum', isfIds' := sum, isfIds;
    if v.Accept? && v.kind == IsfLine {
      isfIds' := isfIds + [v.requestId];
    }
    if v.Accept? && v.kind == BalLine {
      sum' := sum + v.value;
    }
  }

  /** The tests on line `k`: drop the last character, split, judge the
      fields. The report moves on by that line. */
  method CheckLine(lines: seq<string>, k: nat, answered: array<bool>, ghost numReqTotal: nat, numAccounts: int,
                   ghost r: Report) returns (v: Verdict)
    requires forall i :: 0 <= i < |lines| ==> |lines[i]| >= 1
    requires k < |lines| && Validate(lines[..k], numReqTotal, numAccounts) == r && r.Passed?
    requires r.answered == answered[..]
    modifies answered
    ensures v.Accept? ==> 1 <= v.requestId <= answered.Length
    ensures Validate(lines[..k + 1], numReqTotal, numAccounts) == Record(r, v)
    ensures v.Accept? ==> answered[..] == old(answered[..])[v.requestId - 1 := true]
  {
    var parts := Split(StripLast(lines[k]));
    v := CheckFields(parts, answered, numAccounts);
    ValidateFeed(lines, k, numReqTotal, numAccounts, r, v);
  }

  /** While the check passes, the next line is judged against the flags so far. */
  lemma ValidateFeed(lines: seq<string>, k: nat, numReqTotal: nat, numAccounts: int, r: Report, v: Verdict)
    requires forall i :: 0 <= i < |lines| ==> |lines[i]| >= 1
    requires k < |lines| && Validate(lines[..k], numReqTotal, numAccounts) == r && r.Passed?
    requires v == Judge(LineFields(lines[k]), r.answered, numAccounts)
    ensures Validate(lines[..k + 1], numReqTotal, numAccounts) == Record(r, v)
  {
    ValidateStep(lines, k, numReqTotal, numAccounts);
  }

  // ---------------------------------------------------------------------
  // After the loop

  /** The scan for requests nobody answered: the 0-based indices whose flag
      is clear, in increasing order, and no others. */
  method MissingIds(answered: seq<bool>) returns (missing: seq<int>)
    ensures forall i :: i in missing <==> 0 <= i < |answered| && !answered[i]
    ensures forall j, k :: 0 <= j < k < |missing| ==> missing[j] < missing[k]
    ensures |missing| == |answered| - CountTrue(answered)
  {
    missing := [];
    var i := 0;
    while i < |answered|
      invariant 0 <= i <= |answered|
      invariant forall m :: m in missing <==> 0 <= m < i && !answered[m]
      invariant forall j, k :: 0 <= j < k < |missing| ==> missing[j] < missing[k]
      invariant forall j :: 0 <= j < |missing| ==> missing[j] < i
      invariant |missing| == i - CountTrue(answered[..i])
    {
      assert answered[..i + 1][..i] == answered[..i];
      if !answered[i] {
        missing := missing + [i];
      }
      i := i + 1;
    }
    assert answered[..i] == answered;
  }

  /** As written, the scan reports indices under the heading of request IDs:
      with request 1 answered and request 2 not, it reports 1, and the
      unanswered ID 2 does not appear. */
  method MissingIdsOffByOne() returns (missing: seq<int>)
    ensures missing == [1] && 2 !in missing
  {
    var answered := [true, false];
    missing := MissingIds(answered);
    assert CountTrue(answered) == 1 by {
      assert answered[..1] == [true];
    }
    assert 1 in missing;
  }

  /** The scan as the report means it: the request IDs nobody answered, in
      increasing order. Request `id` is answered when `req_answered[id-1]`
      is set. */
  method MissingRequestIds(answered: seq<bool>) returns (ids: seq<int>)
    ensures forall id :: id in ids <==> 1 <= id <= |answered| && !answered[id - 1]
    ensures forall j, k :: 0 <= j < k < |ids| ==> ids[j] < ids[k]
    ensures |ids| == |answered| - CountTrue(answered)
  {
    var missing := MissingIds(answered);
    ids := seq(|missing|, j requires 0 <= j < |missing| => missing[j] + 1);
    forall id | id in ids
      ensures 1 <= id <= |answered| && !answered[id - 1]
    {
      var j :| 0 <= j < |ids| && ids[j] == id;
      assert missing[j] in missing;
    }
    forall id | 1 <= id <= |answered| && !answered[id - 1]
      ensures id in ids
    {
      var j :| 0 <= j < |missing| && missing[j] == id - 1;
      assert ids[j] == id;
    }
  }

  /** The loop adding up the expected balances of the first `n` accounts. */
  method ExpectedSum(expected: array<int>, n: int) returns (sum: int)
    requires 0 <= n <= expected.Length
    ensures sum == Sum(expected[..n])
  {
    sum := 0;
    var i := 0;
    while i < n
      invariant 0 <= i <= n
      invariant sum == Sum(expected[..i])
    {
      assert expected[..i + 1][..i] == expected[..i];
      sum := sum + expected[i];
      i := i + 1;
    }
  }

  /** The expected ISF positions among the random transactions become request
      IDs: each of the first `n` is moved up by `offset`, the rest stay. */
  method ShiftIds(ids: array<int>, n: int, offset: int)
    requires n <= ids.Length
    modifies ids
    ensures forall k :: 0 <= k < ids.Length ==> ids[k] == if k < n then old(ids[k]) + offset else old(ids[k])
  {
    var i := 0;
    while i < n
      invariant 0 <= i <= (if n < 0 then 0 else n)
      invariant forall k :: 0 <= k < ids.Length ==> ids[k] == if k < i then old(ids[k]) + offset else old(ids[k])
    {
      ids[i] := ids[i] + offset;
      i := i + 1;
    }
  }

  /** equals(arr1, len1, arr2, len2): 1 exactly when the lengths agree and so
      do the first `len1` elements; 0 otherwise. */
  method Equals(arr1: array<int>, len1: int, arr2: array<int>, len2: int) returns (r: int)
    requires len1 <= arr1.Length && len2 <= arr2.Length
    ensures r == 0 || r == 1
    ensures r == 1 <==> len1 == len2 && forall i :: 0 <= i < len1 ==> arr1[i] == arr2[i]
  {
    if len1 != len2 {
      return 0;
    }
    var i := 0;
    while i < len1
      invariant 0 <= i <= (if len1 < 0 then 0 else len1)
      invariant forall k :: 0 <= k < i ==> arr1[k] == arr2[k]
    {
      if arr1[i] != arr2[i] {
        return 0;
      }
      i := i + 1;
    }
    return 1;
  }
}

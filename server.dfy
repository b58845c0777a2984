/** The server's two loops (appserver.c; appserver-coarse.c is the same
    program with one lock around the whole store): the main loop reads
    request lines until `END` and queues each with the next request ID,
    counted from 1; a worker pops the queued requests front first and
    processes each against the store. The loops are modelled one after the
    other, with a single worker. */
module Server {
  import opened Seqs
  import opened Text
  import opened Numerals
  import opened RequestQueue
  import opened Executor
  import Bank

  const EndCommand: string := "END"

  /** Size of the main loop's `request` buffer (`fgets(request, 1024, stdin)`). */
  const LineBuffer: nat := 1024

  /** What `fgets` hands the main loop: at least one character (the newline,
      or the last character before end of input) and fewer than 1024. */
  predicate ReadableLines(lines: seq<string>)
  {
    forall i :: 0 <= i < |lines| ==> 1 <= |lines[i]| < LineBuffer
  }

  /** The number of lines read before the first one that reads `END`. */
  function FirstEnd(lines: seq<string>): (k: nat)
    requires ReadableLines(lines)
    ensures k <= |lines|
    ensures forall i :: 0 <= i < k ==> StripLast(lines[i]) != EndCommand
    ensures k < |lines| ==> StripLast(lines[k]) == EndCommand
  {
    if lines == [] then 0
    else if StripLast(lines[0]) == EndCommand then 0
    else 1 + FirstEnd(lines[1..])
  }

  /** The requests the main loop queues for `lines`, `times[i]` being the
      `gettimeofday` reading `push` takes for line `i`. */
  function Submissions(lines: seq<string>, times: seq<Timeval>): (r: seq<Entry>)
    requires ReadableLines(lines) && |times| == |lines|
  {
    var k := FirstEnd(lines);
    seq(k, i requires 0 <= i < k => Entry(StripLast(lines[i]), times[i], i + 1))
  }

  /** The queued requests carry the IDs 1, 2, ... in arrival order, none of
      them is `END`, and each is the line as typed without its newline. */
  lemma SubmissionsShape(lines: seq<string>, times: seq<Timeval>)
    requires ReadableLines(lines) && |times| == |lines|
    ensures var r := Submissions(lines, times);
      && |r| <= |lines|
      && (|r| < |lines| ==> StripLast(lines[|r|]) == EndCommand)
      && forall i :: 0 <= i < |r| ==>
           && r[i].requestId == i + 1
           && r[i].command != EndCommand
           && lines[i] == r[i].command + [lines[i][|lines[i]| - 1]]
  {
    var r := Submissions(lines, times);
    forall i | 0 <= i < |r|
      ensures lines[i] == r[i].command + [lines[i][|lines[i]| - 1]]
    {
      assert r[i].command == lines[i][..|lines[i]| - 1];
    }
  }

  /** The main loop: each line is stripped of its last character; `END` stops
      the loop; any other line is pushed with the current ID, which then goes
      up by one. Returns the ID the next request would have had. */
  method ReadRequests(q: Queue, lines: seq<string>, times: seq<Timeval>) returns (id: int)
    requires q.Valid() && ReadableLines(lines) && |times| == |lines|
    modifies q.Repr
    ensures q.Valid() && fresh(q.Repr - old(q.Repr))
    ensures q.Contents == old(q.Contents) + Submissions(lines, times)
    ensures id == |Submissions(lines, times)| + 1
  {
    id := 1;
    var i := 0;
    while i < |lines|
      invariant 0 <= i <= FirstEnd(lines)
      invariant id == i + 1
      invariant q.Valid() && fresh(q.Repr - old(q.Repr))
      invariant q.Contents == old(q.Contents) + Submissions(lines, times)[..i]
    {
      var request := StripLast(lines[i]);
      if request == EndCommand {
        break;
      }
      q.Push(request, id, times[i]);
      assert Submissions(lines, times)[..i + 1] == Submissions(lines, times)[..i] + [Entry(request, times[i], id)];
      id := id + 1;
      i := i + 1;
    }
    assert Submissions(lines, times)[..i] == Submissions(lines, times);
  }

  // ---------------------------------------------------------------------
  // The worker

  /** Every queued command can be run by the worker against a store of `n`
      accounts. */
  predicate Runnable(n: int, es: seq<Entry>)
  {
    es == [] || (Runnable(n, es[..|es| - 1]) && Acceptable(n, es[|es| - 1].command))
  }

  lemma {:induction false} RunnableAt(n: int, es: seq<Entry>, i: nat)
    requires Runnable(n, es) && i < |es|
    ensures Acceptable(n, es[i].command)
  {
    if i < |es| - 1 {
      RunnableAt(n, es[..|es| - 1], i);
    }
  }

  /** A command the worker can parse and whose accounts exist among `n`. */
  predicate Acceptable(n: int, cmd: string)
  {
    Parsable(cmd) && Fits(n, Interpret(cmd))
  }

  /** The store and the output file after a worker has processed `es` in
      order, starting from store contents `s`; `fin[i]` is the clock reading
      taken when request `i` is done. */
  datatype Trace = Trace(store: seq<int>, out: seq<string>)

  function Run(s: seq<int>, es: seq<Entry>, fin: seq<Timeval>): (t: Trace)
    requires Runnable(|s|, es) && |fin| == |es|
    ensures |t.store| == |s| && |t.out| == |es|
  {
    if es == [] then Trace(s, [])
    else
      var n := |es| - 1;
      Step(Run(s, es[..n], fin[..n]), es[n], fin[n])
  }

  /** One request processed after trace `t`: the store moves on and the
      request's result line is appended to the output. */
  function Step(t: Trace, e: Entry, finished: Timeval): (r: Trace)
    requires Acceptable(|t.store|, e.command)
    ensures |r.store| == |t.store| && |r.out| == |t.out| + 1
  {
    var c := Interpret(e.command);
    Trace(StoreAfter(t.store, c), t.out + [ResultLine(e.requestId, Answer(t.store, c), e.timeStart, finished)])
  }

  lemma RunStep(s: seq<int>, es: seq<Entry>, fin: seq<Timeval>, i: nat)
    requires Runnable(|s|, es) && |fin| == |es| && i < |es|
    ensures Runnable(|s|, es[..i]) && Runnable(|s|, es[..i + 1])
    ensures Run(s, es[..i + 1], fin[..i + 1]) == Step(Run(s, es[..i], fin[..i]), es[i], fin[i])
  {
    RunnablePrefix(|s|, es, i + 1);
    TakeSnoc(es, i);
    TakeSnoc(fin, i);
    RunSnoc(s, es[..i], fin[..i], es[i], fin[i]);
  }

  /** A step only appends to the output. */
  lemma StepKeepsOut(t: Trace, e: Entry, finished: Timeval)
    requires Acceptable(|t.store|, e.command)
    ensures Step(t, e, finished).out[..|t.out|] == t.out
  {
  }

  /** A run one request longer is one more step. */
  lemma RunSnoc(s: seq<int>, es: seq<Entry>, fin: seq<Timeval>, e: Entry, f: Timeval)
    requires Runnable(|s|, es + [e]) && |fin| == |es|
    ensures Runnable(|s|, es) && Acceptable(|s|, e.command)
    ensures Run(s, es + [e], fin + [f]) == Step(Run(s, es, fin), e, f)
  {
    assert (es + [e])[..|es|] == es && (fin + [f])[..|es|] == fin;
  }

  lemma {:induction false} RunnablePrefix(n: int, es: seq<Entry>, k: nat)
    requires Runnable(n, es) && k <= |es|
    ensures Runnable(n, es[..k])
  {
    if k < |es| {
      RunnablePrefix(n, es[..|es| - 1], k);
      TakeTake(es, |es| - 1, k);
    } else {
      TakeAll(es);
    }
  }

  /** One turn of the worker on a non-empty queue: pop the front request and
      process it. The queue loses its front, and the store and the output move
      on by that request. */
  method ServeFront(q: Queue, bank: Bank.Bank, out: seq<string>, finished: Timeval) returns (out': seq<string>)
    requires q.Valid() && bank.accounts !in q.Repr && q.Contents != []
    requires Acceptable(bank.accounts.Length, q.Contents[0].command)
    modifies q, bank.accounts
    ensures q.Valid() && bank.accounts !in q.Repr
    ensures q.Contents == old(q.Contents)[1..]
    ensures Trace(bank.accounts[..], out') == Step(Trace(old(bank.accounts[..]), out), old(q.Contents)[0], finished)
  {
    var r := q.Pop();
    assert bank.accounts !in q.Repr;
    var outcome, line := ProcessRequest(bank, r.value, finished);
    out' := out + [line];
  }

  /** The worker's turn on request `i` of a run: the run so far moves on by
      that request. */
  method ServeNext(q: Queue, bank: Bank.Bank, out: seq<string>, ghost s0: seq<int>, ghost es: seq<Entry>,
                   fin: seq<Timeval>, i: nat) returns (out': seq<string>)
    requires q.Valid() && bank.accounts !in q.Repr
    requires Runnable(|s0|, es) && |fin| == |es| && i < |es| && q.Contents == es[i..]
    requires bank.accounts.Length == |s0| && Runnable(|s0|, es[..i])
    requires Run(s0, es[..i], fin[..i]) == Trace(bank.accounts[..], out)
    modifies q, bank.accounts
    ensures q.Valid() && bank.accounts !in q.Repr && q.Contents == es[i + 1..]
    ensures Runnable(|s0|, es[..i + 1]) && Run(s0, es[..i + 1], fin[..i + 1]) == Trace(bank.accounts[..], out')
  {
    assert q.Contents[0] == es[i];
    RunnableAt(|s0|, es, i);
    RunStep(s0, es, fin, i);
    out' := ServeFront(q, bank, out, fin[i]);
  }

  /** The worker loop once the main loop has stopped: while the queue has a
      front, pop it and process it. The queue ends empty, the output holds one
      result per popped request in queue order, and the store is the one the
      requests compute one after the other. */
  method Drain(q: Queue, bank: Bank.Bank, fin: seq<Timeval>) returns (out: seq<string>)
    requires q.Valid() && bank.accounts !in q.Repr
    requires |fin| == |q.Contents| && Runnable(bank.accounts.Length, q.Contents)
    modifies q, bank.accounts
    ensures q.Valid() && q.Contents == []
    ensures Run(old(bank.accounts[..]), old(q.Contents), fin) == Trace(bank.accounts[..], out)
  {
    ghost var es := q.Contents;
    ghost var s0 := bank.accounts[..];
    assert es[0..] == es && es[..0] == [];
    out := [];
    var i := 0;
    var more := q.HasFront();
    while more
      invariant q.Valid() && bank.accounts !in q.Repr
      invariant 0 <= i <= |es| && q.Contents == es[i..]
      invariant more <==> q.Contents != []
      invariant bank.accounts.Length == |s0| && Runnable(|s0|, es[..i])
      invariant Run(s0, es[..i], fin[..i]) == Trace(bank.accounts[..], out)
      decreases |q.Contents|
    {
      out := ServeNext(q, bank, out, s0, es, fin, i);
      i := i + 1;
      more := q.HasFront();
    }
    assert i == |es|;
    TakeAll(es);
    TakeAll(fin);
  }

  /** The output of a shorter run is a prefix of the output of a longer one. */
  lemma {:induction false} RunPrefix(s: seq<int>, es: seq<Entry>, fin: seq<Timeval>, n: nat)
    requires Runnable(|s|, es) && |fin| == |es| && n <= |es|
    ensures Runnable(|s|, es[..n])
    ensures Run(s, es[..n], fin[..n]).out == Run(s, es, fin).out[..n]
  {
    if n < |es| {
      var m := |es| - 1;
      RunPrefix(s, es[..m], fin[..m], n);
      TakeTake(es, m, n);
      TakeTake(fin, m, n);
      var t := Run(s, es[..m], fin[..m]);
      assert Run(s, es, fin) == Step(t, es[m], fin[m]);
      StepKeepsOut(t, es[m], fin[m]);
      TakeTake(Run(s, es, fin).out, m, n);
    } else {
      TakeAll(es);
      TakeAll(fin);
    }
  }

  /** Line `i` of the output answers request `i`: it is empty exactly when
      the worker does not recognise the command, and otherwise it ends in a
      newline and its first field reads back as the request's ID. */
  lemma RunAnswersInOrder(s: seq<int>, es: seq<Entry>, fin: seq<Timeval>, i: nat)
    requires Runnable(|s|, es) && |fin| == |es| && i < |es|
    ensures var line := Run(s, es, fin).out[i];
      && Parsable(es[i].command)
      && (line == "" <==> Interpret(es[i].command) == Unrecognised)
      && (line != "" ==> line[|line| - 1] == '\n' && Atoi(Fields(line[..|line| - 1], Space)[0]) == es[i].requestId)
  {
    RunLineAt(s, es, fin, i);
    StepAnswers(Run(s, es[..i], fin[..i]), es[i], fin[i]);
  }

  /** Line `i` of a run is the line the step for request `i` appends. */
  lemma RunLineAt(s: seq<int>, es: seq<Entry>, fin: seq<Timeval>, i: nat)
    requires Runnable(|s|, es) && |fin| == |es| && i < |es|
    ensures Runnable(|s|, es[..i]) && Acceptable(|s|, es[i].command)
    ensures Run(s, es, fin).out[i] == Step(Run(s, es[..i], fin[..i]), es[i], fin[i]).out[i]
  {
    RunPrefix(s, es, fin, i + 1);
    RunStep(s, es, fin, i);
    RunnableAt(|s|, es, i);
  }

  /** The line one step appends answers that step's request. */
  lemma StepAnswers(t: Trace, e: Entry, finished: Timeval)
    requires Acceptable(|t.store|, e.command)
    ensures var line := Step(t, e, finished).out[|t.out|];
      && (line == "" <==> Interpret(e.command) == Unrecognised)
      && (line != "" ==> line[|line| - 1] == '\n' && Atoi(Fields(line[..|line| - 1], Space)[0]) == e.requestId)
  {
    var o := Answer(t.store, Interpret(e.command));
    assert Step(t, e, finished).out[|t.out|] == ResultLine(e.requestId, o, e.timeStart, finished);
    if o != Silent {
      ResultLineFields(e.requestId, o, e.timeStart, finished);
      AtoiItoa(e.requestId);
    }
  }
}

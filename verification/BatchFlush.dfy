/**
 lib/statement.js, the queue of a statement, and ParaVFS.run and ParaVFS.flush, which
 write it to the log: a flushed queue does what running its elements one by one does.
 */
module BatchFlush {
  import opened Common
  import opened Codecs
  import opened Oplog
  import opened OplogTheorems

  // The parameters of one run: `positional` is always an array here.
  datatype Item<+P> = Item(named: Any<P>, positional: P) {
    function Normal(): Item<P> { Item(named.Normal(), positional) }
  }

  type Queue<+P> = seq<Item<P>>

  function Batches<P>(q: Queue<P>): seq<Op<P>> {
    seq(|q|, i requires 0 <= i < |q| => Batch(q[i].named, Params(q[i].positional)))
  }

  // ParaVFS.flush: the STMT goes without parameters.
  function FlushLog<P>(sql: string, q: Queue<P>): seq<Op<P>> {
    FlushWith(sql, q, Undefined)
  }

  function FlushWith<P>(sql: string, q: Queue<P>, none: Any<P>): seq<Op<P>> {
    [Stmt(sql, none, none)] + Batches(q) + [Flush]
  }

  function RunLog<P>(sql: string, q: Queue<P>): seq<Op<P>> {
    seq(|q|, i requires 0 <= i < |q| => Run(sql, q[i].named, Params(q[i].positional)))
  }

  // ----- the reference: one run after another, stopping at a batch left open -----

  datatype Tally<+V> = Tally(view: V, open: set<string>, changes: int, rowid: Option<int>, failures: nat)

  function Sequential<V(!new), P(!new)>(e: Engine<V, P>, sql: string, q: Queue<P>, view: V): Tally<V> {
    if q == [] then Tally(view, {}, 0, None, 0)
    else
      var t, item := Sequential(e, sql, q[..|q| - 1], view), q[|q| - 1];
      if t.open != {} then t
      else
        var f := e.run(sql, item.named, item.positional, t.view);
        match f.result
        case Some(r) => Tally(f.view, f.open, t.changes + r.changes, Some(r.lastInsertRowid), t.failures)
        case None => Tally(f.view, f.open, t.changes, t.rowid, t.failures + 1)
  }

  /** The reference, one run at a time: the sums, the last rowid, and the view that the run before left. */
  lemma OneMoreRun<V(!new), P(!new)>(e: Engine<V, P>, sql: string, q: Queue<P>, item: Item<P>, view: V)
    ensures Sequential(e, sql, [], view) == Tally(view, {}, 0, None, 0)
    ensures var t, u := Sequential(e, sql, q, view), Sequential(e, sql, q + [item], view);
      if t.open != {} then u == t
      else
        var f := e.run(sql, item.named, item.positional, t.view);
        && u.view == f.view && u.open == f.open
        && u.changes == t.changes + (if f.result.Some? then f.result.value.changes else 0)
        && u.rowid == (if f.result.Some? then Some(f.result.value.lastInsertRowid) else t.rowid)
        && u.failures == t.failures + if f.result.Some? then 0 else 1
  {
    assert (q + [item])[..|q|] == q;
  }

  // The call c after executions that leave the tally t.
  ghost predicate Tallied<V>(c: Call<V>, t: Tally<V>, d: Call<V>) {
    && d.r.view == t.view && d.r.open == t.open && d.r.writers == c.r.writers
    && d.r.pointed == d.thrown == (t.open != {})
  }

  lemma {:induction false} RunsTally<V(!new), P(!new)>(e: Engine<V, P>, outer: V, c: Call<V>, sql: string, q: Queue<P>)
    requires e.Coherent() && !c.thrown && c.r.Clean()
    ensures Tallied(c, Sequential(e, sql, q, c.r.view), Steps(e, outer, c, RunLog(sql, q)))
  {
    if q != [] {
      var before := q[..|q| - 1];
      RunsTally(e, outer, c, sql, before);
      assert RunLog(sql, q)[..|q| - 1] == RunLog(sql, before);
    }
  }

  lemma {:induction false} BatchesTally<V(!new), P(!new)>(e: Engine<V, P>, outer: V, c: Call<V>, sql: string, q: Queue<P>)
    requires !c.thrown && c.r.Clean() && c.stmt == Some(sql)
    ensures var t, d := Sequential(e, sql, q, c.r.view), Steps(e, outer, c, Batches(q));
      && Tallied(c, t, d) && d.stmt == c.stmt && d.r.reply == c.r.reply
      && d.changes == c.changes + t.changes && d.errors == c.errors + t.failures
      && d.rowid == t.rowid.GetOr(c.rowid)
  {
    if q != [] {
      var before := q[..|q| - 1];
      BatchesTally(e, outer, c, sql, before);
      assert Batches(q)[..|q| - 1] == Batches(before);
    }
  }

  // The run of the STMT node itself has no parameters to bind: it fails.
  function AfterStmt<V>(c: Call<V>, sql: string): Call<V> {
    c.(stmt := Some(sql), cache := c.cache.Used(sql), errors := c.errors + 1)
  }

  lemma FlushSteps<V(!new), P(!new)>(e: Engine<V, P>, outer: V, c: Call<V>, sql: string, q: Queue<P>, none: Any<P>)
    requires !c.thrown && c.r.Clean() && Ready(e, c.cache, sql, outer) && !none.Params?
    ensures var c1 := AfterStmt(c, sql);
      var d := Steps(e, outer, c1, Batches(q));
      Steps(e, outer, c, FlushWith(sql, q, none)) == if d.thrown then d else d.(r := d.r.Settle(FlushedAll(d.changes, d.rowid, d.errors)))
  {
    var head: seq<Op<P>> := [Stmt(sql, none, none)];
    StepsSnoc(e, outer, c, [], head[0]);
    assert [] + [head[0]] == head;
    StepsConcat(e, outer, c, head, Batches(q));
    var log := head + Batches(q) + [Flush];
    assert log[..|log| - 1] == head + Batches(q);
  }

  // What FLUSH reports after the tally t in the call c; a settled promise stays.
  function Reported<V>(c: Call<V>, t: Tally<V>): Reply {
    if c.r.reply.Some? then c.r.reply.value
    else FlushedAll(c.changes + t.changes, t.rowid.GetOr(c.rowid), c.errors + t.failures + 1)
  }

  /**
   A flushed queue in any call of _apply, after any nodes of that call: it leaves the
   view that running its elements in order leaves, and if no batch stays open it reports
   what the call counted before plus the queue's changes and failures, plus one failure
   for the run of the STMT node itself, and the rowid of the last run that succeeded.
   */
  lemma FlushEqualsRuns<V(!new), P(!new)>(e: Engine<V, P>, outer: V, c: Call<V>, sql: string, q: Queue<P>, none: Any<P>)
    requires e.Coherent() && !c.thrown && c.r.Clean() && Ready(e, c.cache, sql, outer) && !none.Params?
    ensures var d := Steps(e, outer, c, FlushWith(sql, q, none));
      && SameCore(d, Steps(e, outer, c, RunLog(sql, q)))
      && (!d.thrown ==> d.r.reply == Some(Reported(c, Sequential(e, sql, q, c.r.view))))
      && (!d.thrown && c.r.reply == None ==>
            var t := Sequential(e, sql, q, c.r.view);
            d.r.reply == Some(FlushedAll(c.changes + t.changes, t.rowid.GetOr(c.rowid), c.errors + t.failures + 1)))
  {
    var t := Sequential(e, sql, q, c.r.view);
    FlushTally(e, outer, c, sql, q, none);
    RunsTally(e, outer, c, sql, q);
    SameTally(c, t, Steps(e, outer, c, FlushWith(sql, q, none)), Steps(e, outer, c, RunLog(sql, q)));
  }

  lemma FlushTally<V(!new), P(!new)>(e: Engine<V, P>, outer: V, c: Call<V>, sql: string, q: Queue<P>, none: Any<P>)
    requires !c.thrown && c.r.Clean() && Ready(e, c.cache, sql, outer) && !none.Params?
    ensures var d := Steps(e, outer, c, FlushWith(sql, q, none));
      var t := Sequential(e, sql, q, c.r.view);
      Tallied(c, t, d) && (!d.thrown ==> d.r.reply == Some(Reported(c, t)))
  {
    FlushSteps(e, outer, c, sql, q, none);
    BatchesTally(e, outer, AfterStmt(c, sql), sql, q);
  }

  /** If the STMT is neither cached nor prepares, the call throws there and nothing of the queue is run. */
  lemma FlushUnprepared<V(!new), P(!new)>(e: Engine<V, P>, outer: V, c: Call<V>, sql: string, q: Queue<P>, none: Any<P>)
    requires !c.thrown && !Ready(e, c.cache, sql, outer)
    ensures Steps(e, outer, c, FlushWith(sql, q, none)) == c.Throw()
  {
    var head: seq<Op<P>> := [Stmt(sql, none, none)];
    var tail: seq<Op<P>> := Batches(q) + [Flush];
    StepsSnoc(e, outer, c, [], head[0]);
    assert [] + [head[0]] == head;
    assert FlushWith(sql, q, none) == head + tail;
    StepsConcat(e, outer, c, head, tail);
    ThrownIgnores(e, outer, c.Throw(), tail);
  }

  /** A flushed queue leaves what its runs leave if and only if its text is cached or prepares. */
  lemma FlushEqualsRunsExactly<V(!new), P(!new)>(e: Engine<V, P>, outer: V, c: Call<V>, sql: string, q: Queue<P>, none: Any<P>)
    requires e.Coherent() && !c.thrown && c.r.Clean() && !none.Params?
    ensures SameCore(Steps(e, outer, c, FlushWith(sql, q, none)), Steps(e, outer, c, RunLog(sql, q)))
       <==> Ready(e, c.cache, sql, outer)
  {
    if Ready(e, c.cache, sql, outer) {
      FlushEqualsRuns(e, outer, c, sql, q, none);
    } else {
      FlushUnprepared(e, outer, c, sql, q, none);
      RunsTally(e, outer, c, sql, q);
    }
  }

  /**
   A cut before a flushed queue is harmless if and only if its text is available in both
   calls or in none: it is cached, or prepares on the view from before that call.
   */
  lemma FlushCutExactly<V(!new), P(!new)>(
    e: Engine<V, P>, l1: Local<V>, l2: Local<V>, r: Replica<V>, a: seq<Op<P>>, sql: string, q: Queue<P>, none: Any<P>)
    requires e.Coherent() && r.Clean() && !First(e, l1, r, a).thrown && !none.Params?
    ensures CutIsHarmless(e, l1, l2, r, a, FlushWith(sql, q, none))
       <==> (Ready(e, First(e, l1, r, a).cache, sql, l1.outer) <==> Ready(e, l2.cache, sql, l2.outer))
  {
    var c := First(e, l1, r, a);
    var d := Start(c.r, l2.cache);
    EveryNodeStartsClean(e, l1.outer, Start(r, l1.cache), a);
    StepsConcat(e, l1.outer, Start(r, l1.cache), a, FlushWith(sql, q, none));
    FlushLeaves(e, l1.outer, c, sql, q, none);
    FlushLeaves(e, l2.outer, d, sql, q, none);
  }

  lemma FlushLeaves<V(!new), P(!new)>(e: Engine<V, P>, outer: V, c: Call<V>, sql: string, q: Queue<P>, none: Any<P>)
    requires !c.thrown && c.r.Clean() && !none.Params?
    ensures var d := Steps(e, outer, c, FlushWith(sql, q, none));
      if Ready(e, c.cache, sql, outer) then Tallied(c, Sequential(e, sql, q, c.r.view), d) else d == c.Throw()
  {
    if Ready(e, c.cache, sql, outer) {
      FlushTally(e, outer, c, sql, q, none);
    } else {
      FlushUnprepared(e, outer, c, sql, q, none);
    }
  }

  // An engine where texts prepare once something was created, which every EXEC does.
  function Growing<P(!new)>(): Engine<int, P> {
    Engine((sql, v) => v >= 1,
           (sql, v) => Effect(v + 1, {}, Some(RunResult(0, 0))),
           (sql, named, p, v) => if v >= 1 then Effect(v, {}, Some(RunResult(1, 0))) else Effect(v, {}, None))
  }

  // The EXEC in a call of its own.
  lemma CreateFirst<P(!new)>(create: string, l: Local<int>)
    requires l.outer == 0
    ensures First(Growing<P>(), l, Replica(0, {}, {}, false, None), [Operation<P>.Exec(create)])
         == Start(Replica(1, {}, {}, false, Some(Resolved)), l.cache)
  {
    var e, a, c := Growing<P>(), [Operation<P>.Exec(create)], Start(Replica(0, {}, {}, false, None), l.cache);
    StepsSnoc(e, 0, c, [], a[0]);
    assert [] + [a[0]] == a;
  }

  /**
   Where a replica cuts the log can decide whether it stops: a flush after the EXEC that
   creates what it needs throws in one call with it, and not in a call of its own, though
   it is framed.  Each call prepares on the view from before it.
   */
  lemma CutDecides<P(!new)>(create: string, sql: string, q: Queue<P>)
    ensures var e, a, b := Growing<P>(), [Operation<P>.Exec(create)], FlushLog(sql, q);
      var r, l1 := Replica(0, {}, {}, false, None), Local(0, Cache([], 1));
      var c := First(e, l1, r, a);
      var l2 := Then(e, l1, c.r.view, r, a);
      && e.Coherent() && Framed(b) && SelfContained(b) && !c.thrown && !CutIsHarmless(e, l1, l2, r, a, b)
      && First(e, l1, r, a + b).thrown && !First(e, l2, c.r, b).thrown
  {
    var e, a, b := Growing<P>(), [Operation<P>.Exec(create)], FlushLog(sql, q);
    var r, l1 := Replica(0, {}, {}, false, None), Local(0, Cache([], 1));
    CreateFirst<P>(create, l1);
    var c := First(e, l1, r, a);
    FlushFramed(sql, q, Undefined);
    StepsConcat(e, 0, Start(r, l1.cache), a, b);
    FlushLeaves(e, 0, c, sql, q, Undefined);
    FlushLeaves(e, 1, Start(c.r, l1.cache), sql, q, Undefined);
    NeverOpen(sql, q, 1);
  }

  lemma {:induction false} NeverOpen<P(!new)>(sql: string, q: Queue<P>, v: int)
    ensures Sequential(Growing<P>(), sql, q, v).open == {}
  {
    if q != [] {
      NeverOpen(sql, q[..|q| - 1], v);
    }
  }

  lemma SameTally<V>(c: Call<V>, t: Tally<V>, d1: Call<V>, d2: Call<V>)
    requires Tallied(c, t, d1) && Tallied(c, t, d2)
    ensures SameCore(d1, d2)
  {
  }

  // ----- through the codec -----

  function EncodedAll<P(!new)>(w: Wire<P>, ops: seq<Op<P>>): seq<Bytes> {
    seq(|ops|, i requires 0 <= i < |ops| => w.Encoded(ops[i]))
  }

  function NormalAll<P>(ops: seq<Op<P>>): seq<Op<P>> {
    seq(|ops|, i requires 0 <= i < |ops| => ops[i].Normal())
  }

  function NormalQueue<P>(q: Queue<P>): Queue<P> {
    seq(|q|, i requires 0 <= i < |q| => q[i].Normal())
  }

  /** Interpreting encoded nodes is interpreting the operations. */
  lemma {:induction false} NodesAreOperations<V(!new), P(!new)>(e: Engine<V, P>, w: Wire<P>, outer: V, c: Call<V>, ops: seq<Op<P>>)
    requires w.Lawful() && forall i :: 0 <= i < |ops| ==> ops[i].WellTagged()
    ensures StepNodes(e, w, outer, c, EncodedAll(w, ops)) == Steps(e, outer, c, NormalAll(ops))
  {
    if ops != [] {
      var n := |ops| - 1;
      var nodes, normal := EncodedAll(w, ops), NormalAll(ops);
      NodesAreOperations(e, w, outer, c, ops[..n]);
      assert nodes[..n] == EncodedAll(w, ops[..n]) && normal[..n] == NormalAll(ops[..n]);
      assert nodes[n] == w.Encoded(ops[n]) && normal[n] == ops[n].Normal();
      w.DecodedEncoded(ops[n]);
    }
  }

  /** The same, from the bytes that flush and run append to the log. */
  lemma FlushedNodesEqualRunNodes<V(!new), P(!new)>(
    e: Engine<V, P>, w: Wire<P>, outer: V, c: Call<V>, sql: string, q: Queue<P>)
    requires w.Lawful() && e.Coherent() && !c.thrown && c.r.Clean() && Ready(e, c.cache, sql, outer)
    ensures var d := StepNodes(e, w, outer, c, EncodedAll(w, FlushLog(sql, q)));
      && SameCore(d, StepNodes(e, w, outer, c, EncodedAll(w, RunLog(sql, q))))
      && (!d.thrown ==> d.r.reply == Some(Reported(c, Sequential(e, sql, NormalQueue(q), c.r.view))))
  {
    NodesAreOperations(e, w, outer, c, FlushLog(sql, q));
    NodesAreOperations(e, w, outer, c, RunLog(sql, q));
    NormalLogs(sql, q);
    FlushEqualsRuns(e, outer, c, sql, NormalQueue(q), Null);
  }

  lemma NormalLogs<P>(sql: string, q: Queue<P>)
    ensures NormalAll(FlushLog(sql, q)) == FlushWith(sql, NormalQueue(q), Null)
    ensures NormalAll(RunLog(sql, q)) == RunLog(sql, NormalQueue(q))
  {
    var log := FlushWith(sql, NormalQueue(q), Null);
    forall i | 0 <= i < |log| ensures NormalAll(FlushLog(sql, q))[i] == log[i] {
    }
  }

  lemma TallyOfOne<V(!new), P(!new)>(e: Engine<V, P>, sql: string, item: Item<P>, view: V)
    ensures var t, f := Sequential(e, sql, [item], view), e.run(sql, item.named, item.positional, view);
      match f.result
      case Some(x) => t.failures == 0 && t.changes == x.changes && t.rowid == Some(x.lastInsertRowid)
      case None => t.failures == 1
  {
    assert [item][..0] == [];
  }

  /** A RUN that is first in its call reports the changes and the rowid of its run, or its failure. */
  lemma RunReports<V(!new), P(!new)>(e: Engine<V, P>, outer: V, r: Replica<V>, cache: Cache, sql: string, item: Item<P>)
    requires e.Coherent() && r.Clean() && r.reply == None
    ensures var t := Sequential(e, sql, [item], r.view);
      Steps(e, outer, Start(r, cache), RunLog(sql, [item])).r.reply
      == Some(if t.failures == 0 then Ran(RunResult(t.changes, t.rowid.GetOr(0))) else Failed)
  {
    var log := RunLog(sql, [item]);
    TallyOfOne(e, sql, item, r.view);
    StepsSnoc(e, outer, Start(r, cache), [], log[0]);
    assert [] + [log[0]] == log;
  }

  // ----- whose result the caller gets -----

  predicate Settles<P>(op: Op<P>) {
    op.Exec? || op.Run? || op.Flush?
  }

  lemma StepSettles<V(!new), P(!new)>(e: Engine<V, P>, outer: V, c: Call<V>, op: Op<P>)
    requires !Step(e, outer, c, op).thrown
    ensures Step(e, outer, c, op).r.reply == None <==> c.r.reply == None && !Settles(op)
  {
  }

  /**
   The promise of the local caller is settled by the first EXEC, RUN or FLUSH node of the
   call, whoever appended it: it is still open after nodes exactly if none was among them.
   */
  lemma {:induction false} FirstNodeSettles<V(!new), P(!new)>(e: Engine<V, P>, outer: V, r: Replica<V>, cache: Cache, ops: seq<Op<P>>)
    requires r.reply == None
    requires !Steps(e, outer, Start(r, cache), ops).thrown
    ensures Steps(e, outer, Start(r, cache), ops).r.reply == None <==> forall i :: 0 <= i < |ops| ==> !Settles(ops[i])
  {
    if ops != [] {
      FirstNodeSettles(e, outer, r, cache, ops[..|ops| - 1]);
      assert forall i :: 0 <= i < |ops| - 1 ==> ops[..|ops| - 1][i] == ops[i];
      StepSettles(e, outer, Steps(e, outer, Start(r, cache), ops[..|ops| - 1]), ops[|ops| - 1]);
    }
  }

  lemma {:induction false} SettledStays<V(!new), P(!new)>(e: Engine<V, P>, outer: V, c: Call<V>, ops: seq<Op<P>>)
    requires c.r.reply.Some?
    ensures Steps(e, outer, c, ops).r.reply == c.r.reply
  {
    if ops != [] {
      SettledStays(e, outer, c, ops[..|ops| - 1]);
    }
  }

  // ----- the queue of a statement -----

  datatype Use<+P> = SetBatch(on: bool) | DoRun(item: Item<P>) | DoFlush

  // The queue (None when not batching), the log written so far, and the items it executes.
  datatype Session<+P> = Session(queue: Option<Queue<P>>, log: seq<Op<P>>, executed: Queue<P>)

  function NextUse<P>(sql: string, s: Session<P>, u: Use<P>): Session<P> {
    match u
    case SetBatch(on) =>
      if on then s.(queue := if s.queue.Some? then s.queue else Some([])) else s.(queue := None)
    case DoRun(item) =>
      if s.queue.Some? then s.(queue := Some(s.queue.value + [item]))
      else s.(log := s.log + RunLog(sql, [item]), executed := s.executed + [item])
    case DoFlush =>
      if s.queue.Some? then
        Session(Some([]), s.log + FlushLog(sql, s.queue.value), s.executed + s.queue.value)
      else s.(queue := Some([]))
  }

  function Uses<P>(sql: string, uses: seq<Use<P>>): Session<P> {
    if uses == [] then Session(None, [], []) else NextUse(sql, Uses(sql, uses[..|uses| - 1]), uses[|uses| - 1])
  }

  lemma RunLogConcat<P>(sql: string, a: Queue<P>, b: Queue<P>)
    ensures RunLog(sql, a + b) == RunLog(sql, a) + RunLog(sql, b)
  {
  }

  lemma {:induction false} BatchesFramed<P>(sql: string, q: Queue<P>, none: Any<P>)
    requires !none.Params?
    ensures var log := [Stmt(sql, none, none)] + Batches(q); Framed(log) && Opened(log) == Some(sql)
  {
    var head: seq<Op<P>> := [Stmt(sql, none, none)];
    var log := head + Batches(q);
    FramedSnoc(log);
    if q == [] {
      assert log == head && head[..0] == [];
    } else {
      BatchesFramed(sql, q[..|q| - 1], none);
      assert log[..|log| - 1] == head + Batches(q[..|q| - 1]);
    }
  }

  /** What flush appends is framed, before and after it went through the codec, and so is what run appends. */
  lemma FlushFramed<P>(sql: string, q: Queue<P>, none: Any<P>)
    requires !none.Params?
    ensures Framed(FlushWith(sql, q, none)) && Framed(RunLog(sql, q))
    ensures SelfContained(FlushWith(sql, q, none)) && SelfContained(RunLog(sql, q))
  {
    var log := FlushWith(sql, q, none);
    BatchesFramed(sql, q, none);
    FramedSnoc(log);
    assert log[..|log| - 1] == [Stmt(sql, none, none)] + Batches(q);
    FramedIsSelfContained(log);
    FramedIsSelfContained(RunLog(sql, q));
  }

  // All nodes are about the same text.
  ghost predicate OnlyOf<P>(ops: seq<Op<P>>, sql: string) {
    forall i :: 0 <= i < |ops| && (ops[i].Stmt? || ops[i].Run?) ==> ops[i].sql == sql
  }

  // A text that is used is not pushed out.
  lemma {:induction false} StaysReady<V(!new), P(!new)>(e: Engine<V, P>, outer: V, c: Call<V>, sql: string, ops: seq<Op<P>>)
    requires Ready(e, c.cache, sql, outer) && OnlyOf(ops, sql)
    ensures Ready(e, Steps(e, outer, c, ops).cache, sql, outer)
  {
    if ops != [] {
      var before, op := ops[..|ops| - 1], ops[|ops| - 1];
      StaysReady(e, outer, c, sql, before);
      UsedIsLast(Steps(e, outer, c, before).cache, sql);
    }
  }

  lemma UsedIsLast(cache: Cache, sql: string)
    ensures sql in cache.Used(sql).texts
  {
    var texts := cache.Used(sql).texts;
    assert texts[|texts| - 1] == sql;
  }

  // The log as written leaves what the runs it stands for leave.
  ghost predicate StandsFor<V(!new), P(!new)>(e: Engine<V, P>, outer: V, c: Call<V>, sql: string, log: seq<Op<P>>, executed: Queue<P>) {
    && Ready(e, Steps(e, outer, c, log).cache, sql, outer)
    && SameCore(Steps(e, outer, c, log), Steps(e, outer, c, RunLog(sql, executed)))
  }

  // One more unit on both sides.
  lemma OneMoreUnit<V(!new), P(!new)>(e: Engine<V, P>, outer: V, c: Call<V>, d: Call<V>, sql: string, q: Queue<P>, none: Any<P>)
    requires e.Coherent() && Ready(e, c.cache, sql, outer) && SameCore(c, d) && (!c.thrown ==> c.r.Clean()) && !none.Params?
    ensures SameCore(Steps(e, outer, c, FlushWith(sql, q, none)), Steps(e, outer, d, RunLog(sql, q)))
    ensures SameCore(Steps(e, outer, c, RunLog(sql, q)), Steps(e, outer, d, RunLog(sql, q)))
  {
    if c.thrown {
      ThrownIgnores(e, outer, c, FlushWith(sql, q, none));
      ThrownIgnores(e, outer, c, RunLog(sql, q));
      ThrownIgnores(e, outer, d, RunLog(sql, q));
    } else {
      FlushEqualsRuns(e, outer, c, sql, q, none);
      RunsTally(e, outer, c, sql, q);
      RunsTally(e, outer, d, sql, q);
    }
  }

  lemma MoreLog<V(!new), P(!new)>(
    e: Engine<V, P>, outer: V, c: Call<V>, sql: string, log: seq<Op<P>>, executed: Queue<P>, unit: seq<Op<P>>, q: Queue<P>, none: Any<P>)
    requires e.Coherent() && c.r.Clean() && StandsFor(e, outer, c, sql, log, executed)
    requires !none.Params? && (unit == RunLog(sql, q) || unit == FlushWith(sql, q, none))
    ensures StandsFor(e, outer, c, sql, log + unit, executed + q)
  {
    var a, b := Steps(e, outer, c, log), Steps(e, outer, c, RunLog(sql, executed));
    EveryNodeStartsClean(e, outer, c, log);
    StepsConcat(e, outer, c, log, unit);
    StepsConcat(e, outer, c, RunLog(sql, executed), RunLog(sql, q));
    RunLogConcat(sql, executed, q);
    StaysReady(e, outer, a, sql, unit);
    OneMoreUnit(e, outer, a, b, sql, q, none);
  }

  /**
   Whatever a caller does with a statement, the log it wrote leaves the view of the
   executed items run one by one, in the order of the calls of run.
   */
  lemma {:induction false} SessionEqualsRuns<V(!new), P(!new)>(
    e: Engine<V, P>, outer: V, c: Call<V>, sql: string, uses: seq<Use<P>>)
    requires e.Coherent() && c.r.Clean() && Ready(e, c.cache, sql, outer)
    ensures var s := Uses(sql, uses); StandsFor(e, outer, c, sql, s.log, s.executed)
  {
    if uses != [] {
      var before, u := uses[..|uses| - 1], uses[|uses| - 1];
      SessionEqualsRuns(e, outer, c, sql, before);
      var s := Uses(sql, before);
      if u.DoRun? && s.queue.None? {
        MoreLog(e, outer, c, sql, s.log, s.executed, RunLog(sql, [u.item]), [u.item], Undefined);
      } else if u.DoFlush? && s.queue.Some? {
        MoreLog(e, outer, c, sql, s.log, s.executed, FlushLog(sql, s.queue.value), s.queue.value, Undefined);
      }
    }
  }

  lemma NormalConcat<P>(a: seq<Op<P>>, b: seq<Op<P>>, p: Queue<P>, q: Queue<P>)
    ensures NormalAll(a + b) == NormalAll(a) + NormalAll(b)
    ensures NormalQueue(p + q) == NormalQueue(p) + NormalQueue(q)
  {
  }

  ghost predicate AllTagged<P>(ops: seq<Op<P>>) {
    forall i :: 0 <= i < |ops| ==> ops[i].WellTagged()
  }

  lemma {:induction false} SessionTagged<P>(sql: string, uses: seq<Use<P>>)
    ensures AllTagged(Uses(sql, uses).log)
  {
    if uses != [] {
      SessionTagged(sql, uses[..|uses| - 1]);
    }
  }

  // One more unit, as its readers decode it: with null in place of undefined.
  lemma MoreNormalLog<V(!new), P(!new)>(
    e: Engine<V, P>, outer: V, c: Call<V>, sql: string, s: Session<P>, unit: seq<Op<P>>, q: Queue<P>)
    requires e.Coherent() && c.r.Clean() && StandsFor(e, outer, c, sql, NormalAll(s.log), NormalQueue(s.executed))
    requires unit == RunLog(sql, q) || unit == FlushLog(sql, q)
    ensures StandsFor(e, outer, c, sql, NormalAll(s.log + unit), NormalQueue(s.executed + q))
  {
    NormalLogs(sql, q);
    NormalConcat(s.log, unit, s.executed, q);
    MoreLog(e, outer, c, sql, NormalAll(s.log), NormalQueue(s.executed), NormalAll(unit), NormalQueue(q), Null);
  }

  lemma {:induction false} NormalSession<V(!new), P(!new)>(
    e: Engine<V, P>, outer: V, c: Call<V>, sql: string, uses: seq<Use<P>>)
    requires e.Coherent() && c.r.Clean() && Ready(e, c.cache, sql, outer)
    ensures var s := Uses(sql, uses); StandsFor(e, outer, c, sql, NormalAll(s.log), NormalQueue(s.executed))
  {
    if uses != [] {
      var before, u := uses[..|uses| - 1], uses[|uses| - 1];
      NormalSession(e, outer, c, sql, before);
      var s := Uses(sql, before);
      if u.DoRun? && s.queue.None? {
        MoreNormalLog(e, outer, c, sql, s, RunLog(sql, [u.item]), [u.item]);
      } else if u.DoFlush? && s.queue.Some? {
        MoreNormalLog(e, outer, c, sql, s, FlushLog(sql, s.queue.value), s.queue.value);
      }
    }
  }

  /**
   The same from the bytes: every replica that applies what a statement appended is left
   with what it would be left with if each executed item had been appended as one RUN.
   */
  lemma SessionNodesEqualRunNodes<V(!new), P(!new)>(
    e: Engine<V, P>, w: Wire<P>, outer: V, c: Call<V>, sql: string, uses: seq<Use<P>>)
    requires w.Lawful() && e.Coherent() && c.r.Clean() && Ready(e, c.cache, sql, outer)
    ensures var s := Uses(sql, uses);
      SameCore(StepNodes(e, w, outer, c, EncodedAll(w, s.log)), StepNodes(e, w, outer, c, EncodedAll(w, RunLog(sql, s.executed))))
  {
    var s := Uses(sql, uses);
    NormalSession(e, outer, c, sql, uses);
    SessionTagged(sql, uses);
    NodesAreOperations(e, w, outer, c, s.log);
    NodesAreOperations(e, w, outer, c, RunLog(sql, s.executed));
    NormalLogs(sql, s.executed);
  }

  // a is b without some of its elements.
  ghost predicate Subsequence<T>(a: seq<T>, b: seq<T>)
    decreases |b|
  {
    if a == [] then true
    else if b == [] then false
    else
      || (a[|a| - 1] == b[|b| - 1] && Subsequence(a[..|a| - 1], b[..|b| - 1]))
      || Subsequence(a, b[..|b| - 1])
  }

  function ItemsRun<P>(uses: seq<Use<P>>): Queue<P> {
    if uses == [] then []
    else
      var u := uses[|uses| - 1];
      ItemsRun(uses[..|uses| - 1]) + if u.DoRun? then [u.item] else []
  }

  lemma {:induction false} PrefixSubsequence<T>(a: seq<T>, q: seq<T>, b: seq<T>)
    requires Subsequence(a + q, b)
    ensures Subsequence(a, b)
    decreases |b|
  {
    if q == [] {
      assert a + q == a;
    } else if a != [] {
      var s := a + q;
      assert s[..|s| - 1] == a + q[..|q| - 1];
      if Subsequence(s, b[..|b| - 1]) {
        PrefixSubsequence(a, q, b[..|b| - 1]);
      } else {
        PrefixSubsequence(a, q[..|q| - 1], b[..|b| - 1]);
      }
    }
  }

  // Executed items, then queued ones.
  function Items<P>(s: Session<P>): Queue<P> {
    s.executed + if s.queue.Some? then s.queue.value else []
  }

  lemma NextItems<P>(sql: string, s: Session<P>, u: Use<P>)
    ensures Items(NextUse(sql, s, u)) == match u
      case SetBatch(on) => if on then Items(s) else s.executed
      case DoRun(item) => Items(s) + [item]
      case DoFlush => Items(s)
  {
  }

  lemma BothMore<T>(a: seq<T>, b: seq<T>, x: T)
    requires Subsequence(a, b)
    ensures Subsequence(a + [x], b + [x])
  {
    assert (a + [x])[..|a|] == a && (b + [x])[..|b|] == b;
  }

  /** No item is executed twice, or in another order than that of the calls of run. */
  lemma {:induction false} ExecutedInOrder<P>(sql: string, uses: seq<Use<P>>)
    ensures Subsequence(Items(Uses(sql, uses)), ItemsRun(uses))
  {
    if uses != [] {
      var before, u := uses[..|uses| - 1], uses[|uses| - 1];
      ExecutedInOrder(sql, before);
      var s := Uses(sql, before);
      NextItems(sql, s, u);
      if u.DoRun? {
        BothMore(Items(s), ItemsRun(before), u.item);
      } else {
        assert ItemsRun(uses) == ItemsRun(before);
        PrefixSubsequence(s.executed, if s.queue.Some? then s.queue.value else [], ItemsRun(before));
      }
    }
  }

  /** Unless batching was turned off, every item that was run is executed or still queued, in order. */
  lemma {:induction false} NothingLost<P>(sql: string, uses: seq<Use<P>>)
    requires forall i :: 0 <= i < |uses| ==> uses[i] != SetBatch(false)
    ensures var s := Uses(sql, uses); s.executed + (if s.queue.Some? then s.queue.value else []) == ItemsRun(uses)
  {
    if uses != [] {
      var before, u := uses[..|uses| - 1], uses[|uses| - 1];
      NothingLost(sql, before);
      NextItems(sql, Uses(sql, before), u);
      assert u != SetBatch(false);
    }
  }

  /** A flush leaves the queue empty, so then all of them are executed; an item run outside of a batch is executed at once. */
  lemma FlushExecutesAll<P>(sql: string, uses: seq<Use<P>>, item: Item<P>)
    requires forall i :: 0 <= i < |uses| ==> uses[i] != SetBatch(false)
    ensures var s := Uses(sql, uses + [DoFlush]); s.queue == Some([]) && s.executed == ItemsRun(uses)
    ensures var s, t := Uses(sql, uses), Uses(sql, uses + [DoRun(item)]);
      s.queue == None ==> t.queue == None && t.executed == ItemsRun(uses) + [item]
  {
    NothingLost(sql, uses);
    var s := Uses(sql, uses);
    assert (uses + [DoFlush])[..|uses|] == uses && (uses + [DoRun(item)])[..|uses|] == uses;
    assert s.executed + [] == s.executed;
  }

  /** The nodes of a flush, and their bytes. */
  lemma FlushNodes<P(!new)>(w: Wire<P>, sql: string, q: Queue<P>)
    ensures var log, nodes := FlushLog(sql, q), EncodedAll(w, FlushLog(sql, q));
      && |log| == |nodes| == |q| + 2
      && log[0] == Stmt(sql, Undefined, Undefined) && log[|q| + 1] == Operation.Flush
      && (forall i :: 0 <= i < |q| ==> log[i + 1] == Batch(q[i].named, Params(q[i].positional)))
      && (forall i :: 0 <= i < |log| ==>
            nodes[i] == if w.compressed then w.deflate(Written(w.formats, log[i])) else Written(w.formats, log[i]))
  {
  }

  // The log of the local writer.
  class Bee {
    var log: seq<Bytes>

    constructor ()
      ensures log == []
    {
      log := [];
    }

    method Append(nodes: seq<Bytes>)
      modifies this
      ensures log == old(log) + nodes
    {
      log := log + nodes;
    }
  }

  class ParaQLStatement<P(!new)> {
    const sql: string
    const wire: Wire<P>
    const bee: Bee

    var queue: Option<Queue<P>>

    // What was in the log when the statement was made.
    ghost const before: seq<Bytes>

    // What callers did with the statement, and what it did for them, as operations rather than bytes.
    ghost var uses: seq<Use<P>>
    ghost var session: Session<P>

    ghost predicate Valid()
      reads this, bee
    {
      session == Uses(sql, uses) && session.queue == queue && bee.log == before + EncodedAll(wire, session.log)
    }

    constructor (sql: string, wire: Wire<P>, bee: Bee)
      ensures Valid() && uses == [] && queue == None && before == bee.log
      ensures this.sql == sql && this.wire == wire && this.bee == bee
    {
      this.sql, this.wire, this.bee := sql, wire, bee;
      queue := None;
      before, uses, session := bee.log, [], Session(None, [], []);
    }

    // The caller did one thing more.
    ghost method Note(u: Use<P>)
      requires session == Uses(sql, uses)
      modifies this`uses, this`session
      ensures uses == old(uses) + [u] && session == NextUse(sql, old(session), u) == Uses(sql, uses)
    {
      assert (uses + [u])[..|uses|] == uses;
      uses, session := uses + [u], NextUse(sql, session, u);
    }

    method SetBatching(on: bool)
      requires Valid()
      modifies this
      ensures Valid() && uses == old(uses) + [SetBatch(on)] && session == NextUse(sql, old(session), SetBatch(on))
      ensures queue == (if !on then None else if old(queue).Some? then old(queue) else Some([])) && bee.log == old(bee.log)
    {
      if !on {
        queue := None;
      } else if queue.None? {
        queue := Some([]);
      }
      Note(SetBatch(on));
    }

    method Run(item: Item<P>)
      requires Valid()
      modifies this, bee
      ensures Valid() && uses == old(uses) + [DoRun(item)] && session == NextUse(sql, old(session), DoRun(item))
      ensures old(queue).Some? ==> queue == Some(old(queue).value + [item]) && bee.log == old(bee.log)
      ensures old(queue).None? ==>
        var bytes := Written(wire.formats, Operation.Run(sql, item.named, Params(item.positional)));
        queue == None && bee.log == old(bee.log) + [if wire.compressed then wire.deflate(bytes) else bytes]
    {
      if queue.Some? {
        queue := Some(queue.value + [item]);
      } else {
        var op := Operation.Run(sql, item.named, Params(item.positional));
        bee.Append([wire.Encoded(op)]);
        EncodedConcat(wire, session.log, RunLog(sql, [item]));
        assert EncodedAll(wire, RunLog(sql, [item])) == [wire.Encoded(op)];
      }
      Note(DoRun(item));
    }

    /** flush: false is the TypeError for a statement that is not batching, which starts batching. */
    method Flush() returns (ok: bool)
      requires Valid()
      modifies this, bee
      ensures Valid() && uses == old(uses) + [DoFlush] && session == NextUse(sql, old(session), DoFlush)
      ensures ok <==> old(queue).Some?
      ensures queue == Some([])
      ensures bee.log == old(bee.log) + if ok then EncodedAll(wire, FlushLog(sql, old(queue).value)) else []
    {
      var taken := queue;
      queue := Some([]);
      if taken.Some? {
        bee.Append(EncodedAll(wire, FlushLog(sql, taken.value)));
        EncodedConcat(wire, session.log, FlushLog(sql, taken.value));
      }
      Note(DoFlush);
      return taken.Some?;
    }

    /** The bytes that this statement appended, applied by any replica, are its executed items run in order. */
    lemma AppendedEqualsRuns<V(!new)>(e: Engine<V, P>, outer: V, c: Call<V>)
      requires Valid() && wire.Lawful() && e.Coherent() && c.r.Clean() && Ready(e, c.cache, sql, outer)
      ensures SameCore(StepNodes(e, wire, outer, c, bee.log[|before|..]),
                       StepNodes(e, wire, outer, c, EncodedAll(wire, RunLog(sql, session.executed))))
    {
      SessionNodesEqualRunNodes(e, wire, outer, c, sql, uses);
      assert bee.log[|before|..] == EncodedAll(wire, session.log);
    }
  }

  lemma EncodedConcat<P(!new)>(w: Wire<P>, a: seq<Op<P>>, b: seq<Op<P>>)
    ensures EncodedAll(w, a + b) == EncodedAll(w, a) + EncodedAll(w, b)
  {
  }
}

/** What holds of every run of the operation log: proofs about `Oplog`. */
module OplogTheorems {
  import opened Common
  import opened Codecs
  import opened Oplog
  import StatementCache

  // ----- isolation of the operations -----

  predicate Executes<P>(op: Op<P>) {
    op.Exec? || op.Run? || op.Stmt? || op.Batch?
  }

  /**
   In a call on a clean replica, every node is reached with no open batch and `_view`
   unset, and so is the end of the call; if a batch is left open, the call has thrown.
   */
  lemma {:induction false} EveryNodeStartsClean<V(!new), P(!new)>(e: Engine<V, P>, outer: V, c: Call<V>, ops: seq<Op<P>>)
    requires c.r.Clean()
    ensures var d := Steps(e, outer, c, ops);
      && (!d.thrown ==> d.r.Clean())
      && (!d.r.Clean() ==> d.r.open != {} && d.r.pointed)
  {
    if ops != [] {
      EveryNodeStartsClean(e, outer, c, ops[..|ops| - 1]);
    }
  }

  /**
   Once a batch is left open nothing is executed on this replica any more: the view
   and the batch stay, and any call with a node that executes throws.
   */
  lemma {:induction false} LeftoverBlocks<V(!new), P(!new)>(e: Engine<V, P>, outer: V, r: Replica<V>, cache: Cache, ops: seq<Op<P>>)
    requires r.open != {}
    ensures var c := Steps(e, outer, Start(r, cache), ops);
      && c.r.view == r.view && c.r.open == r.open && c.r.pointed == r.pointed
      && (c.thrown <==> exists i :: 0 <= i < |ops| && Executes(ops[i]))
  {
    if ops != [] {
      var before, op := ops[..|ops| - 1], ops[|ops| - 1];
      LeftoverBlocks(e, outer, r, cache, before);
      assert forall i :: 0 <= i < |before| ==> before[i] == ops[i];
    }
  }

  /** An EXEC that is first in its call: its effect, and its success or failure for the caller. */
  lemma ExecReports<V(!new), P(!new)>(e: Engine<V, P>, outer: V, r: Replica<V>, cache: Cache, sql: string)
    requires r.Clean()
    ensures var f, d := e.exec(sql, r.view), Steps(e, outer, Start(r, cache), [Operation<P>.Exec(sql)]);
      && d.r.view == f.view && d.r.open == f.open && d.r.writers == r.writers && d.cache == cache
      && (d.thrown <==> f.open != {})
      && (r.reply == None ==> d.r.reply == Some(if f.result.Some? then Resolved else Failed))
  {
    var op: Op<P> := Operation.Exec(sql);
    StepsSnoc(e, outer, Start(r, cache), [], op);
    assert [] + [op] == [op];
  }

  /** Nodes that execute nothing change no pages and no batch, and never throw; unknown ones change nothing at all. */
  lemma {:induction false} QuietNodes<V(!new), P(!new)>(e: Engine<V, P>, outer: V, c: Call<V>, ops: seq<Op<P>>)
    requires forall i :: 0 <= i < |ops| ==> !Executes(ops[i])
    ensures var d := Steps(e, outer, c, ops);
      && d.r.view == c.r.view && d.r.open == c.r.open && d.r.pointed == c.r.pointed && d.thrown == c.thrown
      && ((forall i :: 0 <= i < |ops| ==> ops[i].Other?) ==> d == c)
  {
    if ops != [] {
      QuietNodes(e, outer, c, ops[..|ops| - 1]);
    }
  }

  /** A node that cannot be decoded stops the call, with what was done before it. */
  lemma UndecodableStops<V(!new), P(!new)>(e: Engine<V, P>, w: Wire<P>, outer: V, c: Call<V>, before: seq<Bytes>, node: Bytes, after: seq<Bytes>)
    requires Parsed(w.formats, if w.compressed then w.inflate(node) else node) == None
    ensures StepNodes(e, w, outer, c, before + [node] + after) == StepNodes(e, w, outer, c, before).(thrown := true)
  {
    var nodes := before + [node] + after;
    NextNode(e, w, outer, c, nodes, |before|);
    assert nodes[..|before|] == before && nodes[|before|] == node;
    ThrownStays(e, w, outer, c, nodes, |before| + 1);
  }

  // ----- the writers -----

  // The last node about the writer k; -1 if there is none.
  function LastWord<P>(ops: seq<Op<P>>, k: Key): (t: int)
    ensures -1 <= t < |ops|
    ensures t >= 0 ==> (ops[t].WriterAdd? || ops[t].WriterDel?) && ops[t].key == k
    ensures forall i :: t < i < |ops| && (ops[i].WriterAdd? || ops[i].WriterDel?) ==> ops[i].key != k
  {
    if ops == [] then -1
    else
      var n := |ops| - 1;
      if (ops[n].WriterAdd? || ops[n].WriterDel?) && ops[n].key == k then n else LastWord(ops[..n], k)
  }

  /** After a call that does not throw, the last node about a key decides whether it is a writer. */
  lemma {:induction false} LastWordDecides<V(!new), P(!new)>(e: Engine<V, P>, outer: V, r: Replica<V>, cache: Cache, ops: seq<Op<P>>, k: Key)
    requires !Steps(e, outer, Start(r, cache), ops).thrown
    ensures k in Steps(e, outer, Start(r, cache), ops).r.writers <==>
      var t := LastWord(ops, k); if t < 0 then k in r.writers else ops[t].WriterAdd?
  {
    if ops != [] {
      LastWordDecides(e, outer, r, cache, ops[..|ops| - 1], k);
    }
  }

  // ----- which local variables matter -----

  lemma StepsSnoc<V(!new), P(!new)>(e: Engine<V, P>, outer: V, c: Call<V>, ops: seq<Op<P>>, op: Op<P>)
    ensures Steps(e, outer, c, ops + [op]) == Step(e, outer, Steps(e, outer, c, ops), op)
  {
    assert (ops + [op])[..|ops|] == ops;
  }

  lemma {:induction false} StepsConcat<V(!new), P(!new)>(e: Engine<V, P>, outer: V, c: Call<V>, a: seq<Op<P>>, b: seq<Op<P>>)
    ensures Steps(e, outer, c, a + b) == Steps(e, outer, Steps(e, outer, c, a), b)
  {
    if b == [] {
      assert a + b == a;
    } else {
      assert (a + b)[..|a + b| - 1] == a + b[..|b| - 1];
      StepsConcat(e, outer, c, a, b[..|b| - 1]);
    }
  }

  ghost predicate HasStmt<P>(ops: seq<Op<P>>) {
    exists op :: op in ops && op.Stmt?
  }

  // Every BATCH that can run anything has its STMT in the same list.
  ghost predicate SelfContained<P>(ops: seq<Op<P>>) {
    forall i :: 0 <= i < |ops| && ops[i].Batch? && ops[i].positional.Params? ==> HasStmt(ops[..i])
  }

  lemma SelfContainedSnoc<P>(ops: seq<Op<P>>)
    requires ops != []
    ensures var before, op := ops[..|ops| - 1], ops[|ops| - 1];
      && (SelfContained(ops) <==> SelfContained(before) && (op.Batch? && op.positional.Params? ==> HasStmt(before)))
      && (HasStmt(ops) <==> HasStmt(before) || op.Stmt?)
  {
    var before, op := ops[..|ops| - 1], ops[|ops| - 1];
    assert ops == before + [op];
    assert forall i :: 0 <= i < |before| ==> before[i] == ops[i] && before[..i] == ops[..i];
  }

  /** Units of the log can be grouped into chunks at will. */
  lemma {:induction false} JoinedSelfContained<P>(a: seq<Op<P>>, b: seq<Op<P>>)
    requires SelfContained(a) && SelfContained(b)
    ensures SelfContained(a + b)
  {
    if b == [] {
      assert a + b == a;
    } else {
      assert (a + b)[..|a + b| - 1] == a + b[..|b| - 1];
      SelfContainedSnoc(b);
      JoinedSelfContained(a, b[..|b| - 1]);
      SelfContainedSnoc(a + b);
      var shorter := a + b[..|b| - 1];
      assert forall op :: op in b[..|b| - 1] ==> op in shorter;
    }
  }

  // The text of the STMT that a BATCH after these nodes belongs to; a RUN of another text ends it.
  function Opened<P>(ops: seq<Op<P>>): Option<string> {
    if ops == [] then None
    else
      var before, op := Opened(ops[..|ops| - 1]), ops[|ops| - 1];
      if op.Stmt? then Some(op.sql)
      else if op.Run? && before != Some(op.sql) then None
      else before
  }

  // Every BATCH that can run anything directly belongs to a STMT of the same list.
  ghost predicate Framed<P>(ops: seq<Op<P>>) {
    forall i :: 0 <= i < |ops| && ops[i].Batch? && ops[i].positional.Params? ==> Opened(ops[..i]).Some?
  }

  lemma FramedSnoc<P>(ops: seq<Op<P>>)
    requires ops != []
    ensures var before, op := ops[..|ops| - 1], ops[|ops| - 1];
      Framed(ops) <==> Framed(before) && (op.Batch? && op.positional.Params? ==> Opened(before).Some?)
  {
    var before, op := ops[..|ops| - 1], ops[|ops| - 1];
    assert ops == before + [op];
    assert forall i :: 0 <= i < |before| ==> before[i] == ops[i] && before[..i] == ops[..i];
  }

  lemma {:induction false} OpenedHasStmt<P>(ops: seq<Op<P>>)
    requires Opened(ops).Some?
    ensures HasStmt(ops)
  {
    var before, op := ops[..|ops| - 1], ops[|ops| - 1];
    assert ops == before + [op];
    if !op.Stmt? {
      OpenedHasStmt(before);
      assert forall o :: o in before ==> o in ops;
    }
  }

  lemma FramedIsSelfContained<P>(ops: seq<Op<P>>)
    requires Framed(ops)
    ensures SelfContained(ops)
  {
    forall i | 0 <= i < |ops| && ops[i].Batch? && ops[i].positional.Params? ensures HasStmt(ops[..i]) {
      OpenedHasStmt(ops[..i]);
    }
  }

  lemma {:induction false} OpenedConcat<P>(a: seq<Op<P>>, b: seq<Op<P>>)
    requires Opened(b).Some?
    ensures Opened(a + b) == Opened(b)
  {
    var before := b[..|b| - 1];
    assert (a + b)[..|a + b| - 1] == a + before;
    if !b[|b| - 1].Stmt? { OpenedConcat(a, before); }
  }

  lemma {:induction false} JoinedFramed<P>(a: seq<Op<P>>, b: seq<Op<P>>)
    requires Framed(a) && Framed(b)
    ensures Framed(a + b)
  {
    if b == [] {
      assert a + b == a;
    } else {
      var before := b[..|b| - 1];
      assert (a + b)[..|a + b| - 1] == a + before;
      FramedSnoc(b);
      FramedSnoc(a + b);
      JoinedFramed(a, before);
      if Opened(before).Some? { OpenedConcat(a, before); }
    }
  }

  // What a replica keeps of a call, apart from the promise of its caller.
  ghost predicate SameCore<V>(a: Call<V>, b: Call<V>) {
    && a.r.view == b.r.view && a.r.writers == b.r.writers
    && a.r.open == b.r.open && a.r.pointed == b.r.pointed
    && a.thrown == b.thrown
  }

  // The statements of the log prepare on one replica as on the other.
  ghost predicate SamePrepares<V(!new), P(!new)>(e: Engine<V, P>, outer1: V, outer2: V, ops: seq<Op<P>>) {
    forall op :: op in ops && op.Stmt? ==> e.prepares(op.sql, outer1) == e.prepares(op.sql, outer2)
  }

  lemma OneStep<V(!new), P(!new)>(e: Engine<V, P>, outer1: V, outer2: V, c1: Call<V>, c2: Call<V>, op: Op<P>)
    requires SameCore(c1, c2) && c1.cache == c2.cache
    requires op.Stmt? ==> e.prepares(op.sql, outer1) == e.prepares(op.sql, outer2)
    requires !c1.thrown && op.Batch? && op.positional.Params? ==> c1.stmt == c2.stmt
    ensures var d1, d2 := Step(e, outer1, c1, op), Step(e, outer2, c2, op);
      && SameCore(d1, d2) && d1.cache == d2.cache
      && (!d1.thrown && (op.Stmt? || c1.stmt == c2.stmt) ==> d1.stmt == d2.stmt)
  {
  }

  lemma {:induction false} LocalsDoNotMatter<V(!new), P(!new)>(
    e: Engine<V, P>, outer1: V, outer2: V, c1: Call<V>, c2: Call<V>, ops: seq<Op<P>>)
    requires SelfContained(ops) && SamePrepares(e, outer1, outer2, ops) && SameCore(c1, c2) && c1.cache == c2.cache
    ensures var d1, d2 := Steps(e, outer1, c1, ops), Steps(e, outer2, c2, ops);
      && SameCore(d1, d2) && d1.cache == d2.cache
      && (HasStmt(ops) && !d1.thrown ==> d1.stmt == d2.stmt)
  {
    if ops != [] {
      var before, op := ops[..|ops| - 1], ops[|ops| - 1];
      SelfContainedSnoc(ops);
      assert forall o :: o in before ==> o in ops;
      LocalsDoNotMatter(e, outer1, outer2, c1, c2, before);
      assert op in ops;
      OneStep(e, outer1, outer2, Steps(e, outer1, c1, before), Steps(e, outer2, c2, before), op);
    }
  }

  // ----- independence of what a replica has prepared before -----

  // A STMT prepares on the view `outer`, unless its text is one of `never`; none of those is run.
  ghost predicate Agrees<V(!new), P(!new)>(e: Engine<V, P>, never: set<string>, outer: V, ops: seq<Op<P>>) {
    forall op :: op in ops ==>
      && (op.Stmt? ==> (e.prepares(op.sql, outer) <==> op.sql !in never))
      && (op.Run? ==> op.sql !in never)
  }

  ghost predicate Lacks(cache: Cache, never: set<string>) {
    forall text :: text in cache.texts ==> text !in never
  }

  lemma {:induction false} WithoutFrom(keys: seq<string>, k: string)
    ensures forall x :: x in StatementCache.Without(keys, k) ==> x in keys
  {
    if keys != [] {
      WithoutFrom(keys[..|keys| - 1], k);
    }
  }

  lemma UsedLacks(cache: Cache, sql: string, never: set<string>)
    requires Lacks(cache, never) && sql !in never
    ensures Lacks(cache.Used(sql), never)
  {
    WithoutFrom(cache.texts, sql);
  }

  // Two calls that differ in cache, view of prepare, promise and counters; `current` if their statement is the same.
  ghost predicate Alike<V>(a: Call<V>, b: Call<V>, never: set<string>, current: Option<string>) {
    && SameCore(a, b) && Lacks(a.cache, never) && Lacks(b.cache, never)
    && (!a.thrown && current.Some? ==> a.stmt == b.stmt == current)
  }

  // A RUN that does not prepare does what a cached one does that fails.
  lemma RunAlike<V(!new), P(!new)>(e: Engine<V, P>, c1: Call<V>, c2: Call<V>, op: Op<P>)
    requires op.Run? && e.Coherent() && SameCore(c1, c2) && !c1.thrown
    ensures SameCore(StepRun(e, c1, op), StepRun(e, c2, op))
    ensures c1.stmt == Some(op.sql) ==> StepRun(e, c1, op).stmt == c1.stmt
    ensures c2.stmt == Some(op.sql) ==> StepRun(e, c2, op).stmt == c2.stmt
  {
  }

  lemma StepLacks<V(!new), P(!new)>(e: Engine<V, P>, never: set<string>, outer: V, c: Call<V>, op: Op<P>)
    requires Lacks(c.cache, never) && Agrees(e, never, outer, [op])
    ensures Lacks(Step(e, outer, c, op).cache, never)
  {
    assert op in [op];
    if (op.Stmt? || op.Run?) && op.sql !in never {
      UsedLacks(c.cache, op.sql, never);
    }
  }

  lemma AlikeStep<V(!new), P(!new)>(
    e: Engine<V, P>, never: set<string>, outer1: V, outer2: V, c1: Call<V>, c2: Call<V>, before: seq<Op<P>>, op: Op<P>)
    requires e.Coherent() && Alike(c1, c2, never, Opened(before))
    requires Agrees(e, never, outer1, [op]) && Agrees(e, never, outer2, [op])
    requires op.Batch? && op.positional.Params? ==> Opened(before).Some?
    ensures Alike(Step(e, outer1, c1, op), Step(e, outer2, c2, op), never, Opened(before + [op]))
  {
    assert (before + [op])[..|before|] == before && op in [op];
    StepLacks(e, never, outer1, c1, op);
    StepLacks(e, never, outer2, c2, op);
    if op.Run? && !c1.thrown {
      RunAlike(e, c1, c2, op);
    }
  }

  /**
   On a framed list neither the local variables, the promise, the view that prepares read
   nor the cached statements matter to what a replica keeps.
   */
  lemma {:induction false} CacheDoesNotMatter<V(!new), P(!new)>(
    e: Engine<V, P>, never: set<string>, outer1: V, outer2: V, c1: Call<V>, c2: Call<V>, ops: seq<Op<P>>)
    requires e.Coherent() && Framed(ops) && Alike(c1, c2, never, None)
    requires Agrees(e, never, outer1, ops) && Agrees(e, never, outer2, ops)
    ensures Alike(Steps(e, outer1, c1, ops), Steps(e, outer2, c2, ops), never, Opened(ops))
  {
    if ops != [] {
      var before, op := ops[..|ops| - 1], ops[|ops| - 1];
      assert ops == before + [op] && op in ops;
      FramedSnoc(ops);
      CacheDoesNotMatter(e, never, outer1, outer2, c1, c2, before);
      AlikeStep(e, never, outer1, outer2, Steps(e, outer1, c1, before), Steps(e, outer2, c2, before), before, op);
    }
  }

  /** A STMT node does the same with every cache if and only if its text prepares. */
  lemma StmtOnEveryCacheExactly<V(!new), P(!new)>(e: Engine<V, P>, outer: V, r: Replica<V>, sql: string, named: Any<P>, positional: Any<P>)
    requires r.Clean()
    ensures e.prepares(sql, outer) <==>
      forall k1, k2 :: SameCore(Step(e, outer, Start(r, k1), Stmt(sql, named, positional)),
                                Step(e, outer, Start(r, k2), Stmt(sql, named, positional)))
  {
    if !e.prepares(sql, outer) {
      var op: Op<P> := Stmt(sql, named, positional);
      var with, without := Cache([sql], 1), Cache([], 1);
      var f := e.Execute(sql, named, positional, r.view);
      assert Step(e, outer, Start(r, without), op).thrown;
      assert f.open == {} ==> !Step(e, outer, Start(r, with), op).thrown;
      assert f.open != {} ==> Step(e, outer, Start(r, with), op).r.open != {};
    }
  }

  // ----- independence of how the log is cut -----

  // What a replica brings to a call of _apply.
  datatype Local<+V> = Local(outer: V, cache: Cache)

  // Successive calls of _apply; a call that throws ends the run.
  function Calls<V(!new), P(!new)>(e: Engine<V, P>, locals: seq<Local<V>>, c: Call<V>, chunks: seq<seq<Op<P>>>): Call<V>
    requires |locals| == |chunks|
  {
    if chunks == [] then c
    else
      var n := |chunks| - 1;
      var before := Calls(e, locals[..n], c, chunks[..n]);
      if before.thrown then before else Steps(e, locals[n].outer, Start(before.r, locals[n].cache), chunks[n])
  }

  function Concat<T>(chunks: seq<seq<T>>): seq<T> {
    if chunks == [] then [] else Concat(chunks[..|chunks| - 1]) + chunks[|chunks| - 1]
  }

  ghost predicate Comparable<V(!new), P(!new)>(e: Engine<V, P>, never: set<string>, local: Local<V>, ops: seq<Op<P>>) {
    Lacks(local.cache, never) && Agrees(e, never, local.outer, ops)
  }

  /**
   However a log is cut at framed chunks, and whatever the promise of the local caller,
   the views that prepares read, and the sizes and the contents of the caches, every
   replica ends with the view, the writers and the failure of the uncut log.
   */
  lemma {:induction false} LogCutIndependence<V(!new), P(!new)>(
    e: Engine<V, P>, never: set<string>, locals: seq<Local<V>>, local: Local<V>,
    r1: Replica<V>, r2: Replica<V>, chunks: seq<seq<Op<P>>>)
    requires e.Coherent() && |locals| == |chunks|
    requires r1.(reply := None) == r2.(reply := None)
    requires Lacks(local.cache, never)
    requires forall i :: 0 <= i < |chunks| ==>
      Framed(chunks[i]) && Comparable(e, never, locals[i], chunks[i]) && Agrees(e, never, local.outer, chunks[i])
    ensures var uncut := Steps(e, local.outer, Start(r2, local.cache), Concat(chunks));
      SameCore(Calls(e, locals, Start(r1, local.cache), chunks), uncut) && Lacks(uncut.cache, never)
  {
    if chunks != [] {
      var n := |chunks| - 1;
      LogCutIndependence(e, never, locals[..n], local, r1, r2, chunks[..n]);
      var cut := Calls(e, locals[..n], Start(r1, local.cache), chunks[..n]);
      var uncut := Steps(e, local.outer, Start(r2, local.cache), Concat(chunks[..n]));
      StepsConcat(e, local.outer, Start(r2, local.cache), Concat(chunks[..n]), chunks[n]);
      if cut.thrown {
        ThrownIgnores(e, local.outer, uncut, chunks[n]);
      } else {
        CacheDoesNotMatter(e, never, locals[n].outer, local.outer, Start(cut.r, locals[n].cache), uncut, chunks[n]);
      }
    }
  }

  lemma {:induction false} ThrownIgnores<V(!new), P(!new)>(e: Engine<V, P>, outer: V, c: Call<V>, ops: seq<Op<P>>)
    requires c.thrown
    ensures Steps(e, outer, c, ops) == c
  {
    if ops != [] {
      ThrownIgnores(e, outer, c, ops[..|ops| - 1]);
    }
  }

  // ----- the exact condition for a cut -----

  // An engine on counters: from 0 on only `text` prepares, and a run of it adds one.
  function Picky<P(!new)>(text: string): Engine<int, P> {
    Engine((sql, v) => sql == text || v < 0,
           (sql, v) => Effect(v, {}, None),
           (sql, named, p, v) => if sql == text then Effect(v + 1, {}, Some(RunResult(1, 0))) else Effect(v, {}, None))
  }

  // A text that none of the nodes has.
  function OtherText<P>(ops: seq<Op<P>>): (text: string)
    ensures forall op :: op in ops && (op.Run? || op.Stmt?) ==> |op.sql| < |text|
  {
    if ops == [] then "x"
    else
      var before, op := ops[..|ops| - 1], ops[|ops| - 1];
      assert ops == before + [op];
      OtherText(before) + (if op.Run? || op.Stmt? then op.sql + "x" else "")
  }

  // Calls that differ in the statement alone, which the second does not have, until they throw.
  ghost predicate Orphaned(text: string, c1: Call<int>, c2: Call<int>) {
    && c1.thrown == c2.thrown && c1.r.open == c2.r.open == {}
    && c1.stmt == Some(text) && c2.stmt == None && c1.cache == c2.cache == Cache([text], 1)
    && c1.r.view >= c2.r.view >= 0
  }

  lemma OrphanStep<P(!new)>(text: string, c1: Call<int>, c2: Call<int>, op: Op<P>)
    requires Orphaned(text, c1, c2) && (op.Run? || op.Stmt? ==> op.sql != text)
    ensures var d1, d2 := Step(Picky<P>(text), 0, c1, op), Step(Picky<P>(text), 0, c2, op);
      && Orphaned(text, d1, d2) && d1.thrown == (c1.thrown || op.Stmt?)
      && d1.r.view - d2.r.view == c1.r.view - c2.r.view + if !c1.thrown && op.Batch? && op.positional.Params? then 1 else 0
  {
  }

  lemma {:induction false} OrphanCounts<P(!new)>(text: string, c1: Call<int>, c2: Call<int>, ops: seq<Op<P>>)
    requires forall op :: op in ops && (op.Run? || op.Stmt?) ==> op.sql != text
    requires Orphaned(text, c1, c2) && !c1.thrown
    ensures var d1, d2 := Steps(Picky<P>(text), 0, c1, ops), Steps(Picky<P>(text), 0, c2, ops);
      && Orphaned(text, d1, d2) && d1.thrown == HasStmt(ops)
      && (!SelfContained(ops) ==> d1.r.view > d2.r.view)
  {
    if ops != [] {
      var before, op := ops[..|ops| - 1], ops[|ops| - 1];
      assert ops == before + [op];
      OrphanCounts(text, c1, c2, before);
      SelfContainedSnoc(ops);
      OrphanStep(text, Steps(Picky<P>(text), 0, c1, before), Steps(Picky<P>(text), 0, c2, before), op);
    }
  }

  // The first call, on what is local to it.
  function First<V(!new), P(!new)>(e: Engine<V, P>, l: Local<V>, r: Replica<V>, a: seq<Op<P>>): Call<V> {
    Steps(e, l.outer, Start(r, l.cache), a)
  }

  // a + b in one call, and a cut before b: the second call has its own view of prepare and cache.
  ghost predicate CutIsHarmless<V(!new), P(!new)>(
    e: Engine<V, P>, l1: Local<V>, l2: Local<V>, r: Replica<V>, a: seq<Op<P>>, b: seq<Op<P>>)
  {
    SameCore(First(e, l1, r, a + b), First(e, l2, First(e, l1, r, a).r, b))
  }

  // The second call finds the cache that the first one left.
  function Then<V(!new), P(!new)>(e: Engine<V, P>, l1: Local<V>, outer2: V, r: Replica<V>, a: seq<Op<P>>): Local<V> {
    Local(outer2, First(e, l1, r, a).cache)
  }

  /**
   The exact condition for a cut before b on one replica that the local variables do not
   spoil: for every engine on integer views, all views of prepare on which the same STMT
   texts of b prepare, every log a, cache and replica, the second call gives what the
   uncut call gives, if and only if b brings the STMT of every BATCH that can run.
   */
  lemma CutHarmlessExactly<P(!new)>(b: seq<Op<P>>)
    ensures SelfContained(b) <==>
      forall e: Engine<int, P>, l1: Local<int>, outer2, r, a: seq<Op<P>> ::
        e.Coherent() && SamePrepares(e, l1.outer, outer2, b) && !First(e, l1, r, a).thrown
        ==> CutIsHarmless(e, l1, Then(e, l1, outer2, r, a), r, a, b)
  {
    if SelfContained(b) {
      forall e: Engine<int, P>, l1: Local<int>, outer2, r, a: seq<Op<P>>
        | e.Coherent() && SamePrepares(e, l1.outer, outer2, b) && !First(e, l1, r, a).thrown
        ensures CutIsHarmless(e, l1, Then(e, l1, outer2, r, a), r, a, b)
      {
        var c := First(e, l1, r, a);
        StepsConcat(e, l1.outer, Start(r, l1.cache), a, b);
        LocalsDoNotMatter(e, l1.outer, outer2, c, Start(c.r, c.cache), b);
      }
    } else {
      OrphanCut(b);
    }
  }

  lemma OrphanCut<P(!new)>(b: seq<Op<P>>)
    requires !SelfContained(b)
    ensures exists e: Engine<int, P>, l1: Local<int>, outer2, r, a: seq<Op<P>> ::
      e.Coherent() && SamePrepares(e, l1.outer, outer2, b) && !First(e, l1, r, a).thrown
      && !CutIsHarmless(e, l1, Then(e, l1, outer2, r, a), r, a, b)
  {
    var text := OtherText(b);
    var e, l1, r := Picky<P>(text), Local(0, Cache([], 1)), Replica(0, {}, {}, false, None);
    var a := AfterOne(l1, r, text);
    var c := First(e, l1, r, a);
    StepsConcat(e, 0, Start(r, l1.cache), a, b);
    OrphanCounts(text, c, Start(c.r, c.cache), b);
    assert !CutIsHarmless(e, l1, Then(e, l1, 0, r, a), r, a, b);
  }

  // A log that leaves nothing but the statement of `text`.
  lemma AfterOne<P(!new)>(l: Local<int>, r: Replica<int>, text: string) returns (a: seq<Op<P>>)
    requires l.cache == Cache([], 1) && r == Replica(0, {}, {}, false, None)
    ensures First(Picky<P>(text), l, r, a) == Start(r, Cache([text], 1)).(stmt := Some(text), errors := 1)
  {
    a := [Stmt(text, Null, Null)];
    StepsSnoc(Picky<P>(text), l.outer, Start(r, l.cache), [], a[0]);
    assert [] + [a[0]] == a;
  }

  /** A STMT node does the same on two views of prepare, whatever is cached, if and only if its text prepares on both or none. */
  lemma StmtOnBothViewsExactly<V(!new), P(!new)>(
    e: Engine<V, P>, outer1: V, outer2: V, r: Replica<V>, sql: string, named: Any<P>, positional: Any<P>)
    requires r.Clean()
    ensures (e.prepares(sql, outer1) <==> e.prepares(sql, outer2)) <==>
      forall k :: SameCore(Step(e, outer1, Start(r, k), Stmt(sql, named, positional)),
                           Step(e, outer2, Start(r, k), Stmt(sql, named, positional)))
  {
    var op: Op<P> := Stmt(sql, named, positional);
    var none, f := Start(r, Cache([], 1)), e.Execute(sql, named, positional, r.view);
    if e.prepares(sql, outer1) != e.prepares(sql, outer2) {
      var with, without := if e.prepares(sql, outer1) then outer1 else outer2, if e.prepares(sql, outer1) then outer2 else outer1;
      assert Step(e, without, none, op) == none.Throw();
      assert Step(e, with, none, op).thrown == (Step(e, with, none, op).r.open != {});
    }
  }

  // An engine on which nothing has an effect: texts prepare on every view but 0.
  function Idle<P(!new)>(): Engine<int, P> {
    Engine((sql, v) => v != 0, (sql, v) => Effect(v, {}, None), (sql, named, p, v) => Effect(v, {}, None))
  }

  lemma {:induction false} IdleSteps<P(!new)>(outer: int, c: Call<int>, ops: seq<Op<P>>)
    requires !c.thrown && c.r.open == {} && c.r.view == 0 && c.cache.texts == []
    ensures var d := Steps(Idle<P>(), outer, c, ops);
      && d.r.open == {} && d.r.view == 0 && (d.thrown <==> outer == 0 && HasStmt(ops))
      && (outer == 0 ==> d.cache.texts == [])
  {
    if ops != [] {
      IdleSteps(outer, c, ops[..|ops| - 1]);
      SelfContainedSnoc(ops);
    }
  }

  /** If nothing is known of the views either, a cut is harmless just before nodes that hold no STMT and no BATCH that can run. */
  lemma CutOnEveryViewExactly<P(!new)>(b: seq<Op<P>>)
    ensures SelfContained(b) && !HasStmt(b) <==>
      forall e: Engine<int, P>, l1: Local<int>, outer2, r, a: seq<Op<P>> ::
        e.Coherent() && !First(e, l1, r, a).thrown ==> CutIsHarmless(e, l1, Then(e, l1, outer2, r, a), r, a, b)
  {
    if HasStmt(b) {
      var l1, r := Local(0, Cache([], 1)), Replica(0, {}, {}, false, None);
      assert [] + b == b;
      IdleSteps(0, Start(r, l1.cache), b);
      IdleSteps(1, Start(r, l1.cache), b);
      assert !CutIsHarmless(Idle<P>(), l1, Then(Idle<P>(), l1, 1, r, []), r, [], b);
    } else if SelfContained(b) {
      forall e: Engine<int, P>, l1: Local<int>, outer2, r, a: seq<Op<P>> | e.Coherent() && !First(e, l1, r, a).thrown
        ensures CutIsHarmless(e, l1, Then(e, l1, outer2, r, a), r, a, b)
      {
        assert SamePrepares(e, l1.outer, outer2, b);
        CutHarmlessExactly(b);
      }
    } else {
      OrphanCut(b);
    }
  }

  // ----- the exact condition for independence of the caches -----

  // Cached or not, a RUN of another text than `text` takes effect on a call with all texts
  // cached and on no call that has room for one: the statements that the two calls hold.
  function Kept<P>(text: string, ops: seq<Op<P>>): string {
    if ops == [] then text
    else
      var before, op := Kept(text, ops[..|ops| - 1]), ops[|ops| - 1];
      if op.Stmt? then op.sql else if op.Run? && op.sql == text then text else before
  }

  function Current<P>(ops: seq<Op<P>>): Option<string> {
    if ops == [] then None
    else
      var op := ops[|ops| - 1];
      if op.Stmt? || op.Run? then Some(op.sql) else Current(ops[..|ops| - 1])
  }

  lemma {:induction false} OpenedKeeps<P>(ops: seq<Op<P>>)
    requires Opened(ops).Some?
    ensures Kept(Opened(ops).value, ops) == Opened(ops).value
  {
    if !ops[|ops| - 1].Stmt? {
      OpenedKeeps(ops[..|ops| - 1]);
    }
  }

  // Without an open STMT, more than one text is kept.
  lemma {:induction false} AnotherKept<P>(ops: seq<Op<P>>, x: string) returns (text: string)
    requires Opened(ops) == None
    ensures text != x && Kept(text, ops) == text
  {
    if ops == [] {
      text := x + "x";
      assert |text| > |x|;
    } else {
      var before, op := ops[..|ops| - 1], ops[|ops| - 1];
      if Opened(before) == None {
        text := AnotherKept(before, x);
      } else {
        OpenedKeeps(before);
        text := if Opened(before).value != x then Opened(before).value else op.sql;
      }
    }
  }

  // All texts of the nodes, as uses of the cache.
  function TextsOf<P>(ops: seq<Op<P>>): seq<StatementCache.Use> {
    if ops == [] then []
    else
      var op := ops[|ops| - 1];
      TextsOf(ops[..|ops| - 1]) + if op.Run? || op.Stmt? then [StatementCache.Use(op.sql)] else []
  }

  lemma {:induction false} WithoutHas(keys: seq<string>, k: string, x: string)
    requires x in keys && x != k
    ensures x in StatementCache.Without(keys, k)
  {
    if keys[|keys| - 1] != x {
      assert keys == keys[..|keys| - 1] + [keys[|keys| - 1]];
      WithoutHas(keys[..|keys| - 1], k, x);
    }
  }

  lemma {:induction false} RecentHas(uses: seq<StatementCache.Use>, x: string)
    requires StatementCache.Use(x) in uses
    ensures x in StatementCache.Recent(uses)
  {
    var before, u := uses[..|uses| - 1], uses[|uses| - 1];
    assert uses == before + [u];
    if u.sql != x {
      RecentHas(before, x);
      WithoutHas(StatementCache.Recent(before), u.sql, x);
    }
  }

  lemma {:induction false} TextsOfHas<P>(ops: seq<Op<P>>, op: Op<P>)
    requires op in ops && (op.Run? || op.Stmt?)
    ensures StatementCache.Use(op.sql) in TextsOf(ops)
  {
    assert ops == ops[..|ops| - 1] + [ops[|ops| - 1]];
    if op != ops[|ops| - 1] {
      TextsOfHas(ops[..|ops| - 1], op);
    }
  }

  // A cache that holds all texts of the nodes.
  function FullCache<P>(ops: seq<Op<P>>): Cache {
    var texts := StatementCache.Recent(TextsOf(ops));
    Cache(texts, |texts| + 1)
  }

  ghost predicate Holds<P>(cache: Cache, ops: seq<Op<P>>) {
    forall op :: op in ops && (op.Run? || op.Stmt?) ==> op.sql in cache.texts
  }

  lemma FullCacheHolds<P>(ops: seq<Op<P>>)
    ensures Holds(FullCache(ops), ops) && FullCache(ops).Valid()
  {
    StatementCache.RecentDistinct(TextsOf(ops));
    forall op | op in ops && (op.Run? || op.Stmt?) ensures op.sql in FullCache(ops).texts {
      TextsOfHas(ops, op);
      RecentHas(TextsOf(ops), op.sql);
    }
  }

  lemma UsedHolds<P>(cache: Cache, sql: string, ops: seq<Op<P>>)
    requires Holds(cache, ops) && sql in cache.texts
    ensures Holds(cache.Used(sql), ops)
  {
    forall op | op in ops && (op.Run? || op.Stmt?) ensures op.sql in cache.Used(sql).texts {
      if op.sql != sql { WithoutHas(cache.texts, sql, op.sql); }
    }
  }

  // c1 has room for one statement; c2 has cached all texts.
  ghost predicate Apart<P>(text: string, c1: Call<int>, c2: Call<int>, ops: seq<Op<P>>) {
    && !c1.thrown && !c2.thrown && c1.r.open == c2.r.open == {} && c1.r.view >= c2.r.view >= 0
    && c1.stmt.Some? && c1.cache == Cache([c1.stmt.value], 1) && Holds(c2.cache, ops)
    && (c2.stmt == Some(text) ==> c1.stmt == Some(text))
  }

  function Gain<P>(text: string, c: Call<int>, op: Op<P>): int {
    if op.Batch? && op.positional.Params? && c.stmt == Some(text) then 1 else 0
  }

  lemma OneSlot(text: string, sql: string)
    ensures Cache([text], 1).Used(sql) == Cache([sql], 1)
  {
    assert StatementCache.Without([text], text) == [] by { assert [text][..0] == []; }
  }

  lemma ApartRun<P(!new)>(text: string, c1: Call<int>, c2: Call<int>, op: Op<P>, ops: seq<Op<P>>)
    requires Apart(text, c1, c2, ops) && op in ops && op.Run?
    ensures var d1, d2 := StepRun(Picky<P>(text), c1, op), StepRun(Picky<P>(text), c2, op);
      && !d1.thrown && !d2.thrown && d1.r.open == d2.r.open == {}
      && d1.r.view - d2.r.view == c1.r.view - c2.r.view && d2.r.view >= c2.r.view
      && d1.stmt == (if op.sql == text then Some(text) else c1.stmt) && d2.stmt == Some(op.sql)
      && d1.cache == Cache([d1.stmt.value], 1) && d2.cache == c2.cache.Used(op.sql)
  {
    OneSlot(c1.stmt.value, op.sql);
  }

  lemma ApartStep<P(!new)>(text: string, c1: Call<int>, c2: Call<int>, op: Op<P>, ops: seq<Op<P>>)
    requires Apart(text, c1, c2, ops) && op in ops
    ensures var d1, d2 := Step(Picky<P>(text), -1, c1, op), Step(Picky<P>(text), -1, c2, op);
      && Apart(text, d1, d2, ops)
      && d1.stmt == (if op.Stmt? || (op.Run? && op.sql == text) then Some(op.sql) else c1.stmt)
      && d2.stmt == (if op.Stmt? || op.Run? then Some(op.sql) else c2.stmt)
      && d1.r.view - d2.r.view == c1.r.view - c2.r.view + Gain(text, c1, op) - Gain(text, c2, op)
  {
    if op.Stmt? || op.Run? {
      OneSlot(c1.stmt.value, op.sql);
      UsedHolds(c2.cache, op.sql, ops);
      if op.Run? { ApartRun(text, c1, c2, op, ops); }
    }
  }

  lemma {:induction false} ApartSteps<P(!new)>(text: string, c1: Call<int>, c2: Call<int>, ops: seq<Op<P>>, n: nat)
    requires Apart(text, c1, c2, ops) && c1.stmt == Some(text) && c2.stmt == None && n <= |ops|
    ensures var d1, d2 := Steps(Picky<P>(text), -1, c1, ops[..n]), Steps(Picky<P>(text), -1, c2, ops[..n]);
      && Apart(text, d1, d2, ops) && d1.stmt == Some(Kept(text, ops[..n])) && d2.stmt == Current(ops[..n])
  {
    if n > 0 {
      ApartSteps(text, c1, c2, ops, n - 1);
      assert ops[..n] == ops[..n - 1] + [ops[n - 1]];
      StepsSnoc(Picky<P>(text), -1, c1, ops[..n - 1], ops[n - 1]);
      StepsSnoc(Picky<P>(text), -1, c2, ops[..n - 1], ops[n - 1]);
      ApartStep(text, Steps(Picky<P>(text), -1, c1, ops[..n - 1]), Steps(Picky<P>(text), -1, c2, ops[..n - 1]), ops[n - 1], ops);
    }
  }

  // How far the views are apart after these nodes.
  ghost function Lead<P(!new)>(text: string, c1: Call<int>, c2: Call<int>, ops: seq<Op<P>>): int {
    Steps(Picky<P>(text), -1, c1, ops).r.view - Steps(Picky<P>(text), -1, c2, ops).r.view
  }

  lemma LeadGrows<P(!new)>(text: string, c1: Call<int>, c2: Call<int>, ops: seq<Op<P>>, n: nat)
    requires Apart(text, c1, c2, ops) && c1.stmt == Some(text) && c2.stmt == None && n < |ops|
    ensures var before, op := ops[..n], ops[n];
      && Lead(text, c1, c2, ops[..n + 1]) >= Lead(text, c1, c2, before) >= 0
      && (op.Batch? && op.positional.Params? && Kept(text, before) == text && Current(before) != Some(text)
          ==> Lead(text, c1, c2, ops[..n + 1]) > Lead(text, c1, c2, before))
  {
    ApartSteps(text, c1, c2, ops, n);
    assert ops[..n + 1] == ops[..n] + [ops[n]];
    StepsSnoc(Picky<P>(text), -1, c1, ops[..n], ops[n]);
    StepsSnoc(Picky<P>(text), -1, c2, ops[..n], ops[n]);
    ApartStep(text, Steps(Picky<P>(text), -1, c1, ops[..n]), Steps(Picky<P>(text), -1, c2, ops[..n]), ops[n], ops);
  }

  // A BATCH whose statement differs leaves the views apart, from then on.
  lemma {:induction false} ApartGains<P(!new)>(text: string, c1: Call<int>, c2: Call<int>, ops: seq<Op<P>>, n: nat, i: nat)
    requires Apart(text, c1, c2, ops) && c1.stmt == Some(text) && c2.stmt == None && i < n <= |ops|
    requires ops[i].Batch? && ops[i].positional.Params? && Kept(text, ops[..i]) == text && Current(ops[..i]) != Some(text)
    ensures Lead(text, c1, c2, ops[..n]) > 0
  {
    LeadGrows(text, c1, c2, ops, n - 1);
    if i < n - 1 { ApartGains(text, c1, c2, ops, n - 1, i); }
  }

  /**
   The exact condition for a cut before b if nothing is known of the cache that the second
   call finds, as between replicas: b is framed.
   */
  lemma CutOnEveryCacheExactly<P(!new)>(b: seq<Op<P>>)
    ensures Framed(b) <==>
      forall e: Engine<int, P>, l1: Local<int>, l2: Local<int>, r, a: seq<Op<P>> ::
        FairCut(e, l1, l2, r, a, b) ==> CutIsHarmless(e, l1, l2, r, a, b)
  {
    if Framed(b) {
      forall e: Engine<int, P>, l1: Local<int>, l2: Local<int>, r, a: seq<Op<P>> | FairCut(e, l1, l2, r, a, b)
        ensures CutIsHarmless(e, l1, l2, r, a, b)
      {
        var c := First(e, l1, r, a);
        StepsConcat(e, l1.outer, Start(r, l1.cache), a, b);
        CacheDoesNotMatter(e, {}, l1.outer, l2.outer, c, Start(c.r, l2.cache), b);
      }
    } else {
      UnframedCut(b);
    }
  }

  // The first call does not throw, and everything that a STMT node of b asks for prepares.
  ghost predicate FairCut<V(!new), P(!new)>(
    e: Engine<V, P>, l1: Local<V>, l2: Local<V>, r: Replica<V>, a: seq<Op<P>>, b: seq<Op<P>>)
  {
    && e.Coherent() && Agrees(e, {}, l1.outer, b) && Agrees(e, {}, l2.outer, b)
    && l1.cache.Valid() && l2.cache.Valid() && !First(e, l1, r, a).thrown
  }

  lemma UnframedCut<P(!new)>(b: seq<Op<P>>)
    requires !Framed(b)
    ensures exists e: Engine<int, P>, l1: Local<int>, l2: Local<int>, r, a: seq<Op<P>> ::
      FairCut(e, l1, l2, r, a, b) && !CutIsHarmless(e, l1, l2, r, a, b)
  {
    var i :| 0 <= i < |b| && b[i].Batch? && b[i].positional.Params? && Opened(b[..i]).None?;
    var text := AnotherKept(b[..i], Current(b[..i]).GetOr(""));
    var e, r := Picky<P>(text), Replica(0, {}, {}, false, None);
    var l1, l2 := Local(-1, Cache([], 1)), Local(-1, FullCache(b));
    FullCacheHolds(b);
    var a := AfterOne(l1, r, text);
    StepsConcat(e, -1, Start(r, l1.cache), a, b);
    ApartGains(text, First(e, l1, r, a), Start(r, l2.cache), b, |b|, i);
    assert b[..|b|] == b;
    assert FairCut(e, l1, l2, r, a, b) && !CutIsHarmless(e, l1, l2, r, a, b);
  }

  ghost predicate SameResult<V(!new), P(!new)>(e: Engine<V, P>, outer1: V, outer2: V, c1: Call<V>, c2: Call<V>, ops: seq<Op<P>>) {
    SameCore(Steps(e, outer1, c1, ops), Steps(e, outer2, c2, ops))
  }

  // Everything that a STMT node asks for prepares, and the two calls start alike but for what is local.
  ghost predicate Fair<V(!new), P(!new)>(e: Engine<V, P>, outer1: V, outer2: V, c1: Call<V>, c2: Call<V>, ops: seq<Op<P>>) {
    && e.Coherent() && Agrees(e, {}, outer1, ops) && Agrees(e, {}, outer2, ops)
    && SameCore(c1, c2) && c1.cache.Valid() && c2.cache.Valid()
  }

  /**
   The exact condition for what is local not to matter: for every engine on integer views,
   and all local variables, caches and views of prepare, a list has the same result if
   and only if every BATCH that can run directly belongs to a STMT of the list.
   */
  lemma FramedExactly<P(!new)>(ops: seq<Op<P>>)
    ensures Framed(ops) <==>
      forall e: Engine<int, P>, outer1, outer2, c1, c2 ::
        Fair(e, outer1, outer2, c1, c2, ops) ==> SameResult(e, outer1, outer2, c1, c2, ops)
  {
    if Framed(ops) {
      forall e: Engine<int, P>, outer1, outer2, c1, c2 | Fair(e, outer1, outer2, c1, c2, ops)
        ensures SameResult(e, outer1, outer2, c1, c2, ops)
      {
        CacheDoesNotMatter(e, {}, outer1, outer2, c1, c2, ops);
      }
    } else {
      UnframedDiffers(ops);
    }
  }

  lemma UnframedDiffers<P(!new)>(ops: seq<Op<P>>)
    requires !Framed(ops)
    ensures exists e: Engine<int, P>, outer1, outer2, c1, c2 ::
      Fair(e, outer1, outer2, c1, c2, ops) && !SameResult(e, outer1, outer2, c1, c2, ops)
  {
    var i :| 0 <= i < |ops| && ops[i].Batch? && ops[i].positional.Params? && Opened(ops[..i]).None?;
    var text := AnotherKept(ops[..i], Current(ops[..i]).GetOr(""));
    var e, r := Picky<P>(text), Replica(0, {}, {}, false, None);
    var c1, c2 := Start(r, Cache([text], 1)).(stmt := Some(text)), Start(r, FullCache(ops));
    FullCacheHolds(ops);
    ApartGains(text, c1, c2, ops, |ops|, i);
    assert ops[..|ops|] == ops;
    assert Fair(e, -1, -1, c1, c2, ops) && !SameResult(e, -1, -1, c1, c2, ops);
  }
}

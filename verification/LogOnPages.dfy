/**
 The log over the page store: an engine whose statements read and write the database
 through the VFS callbacks, so that a view is the committed pages.
 */
module LogOnPages {
  import opened Common
  import opened Codecs
  import opened Oplog
  import opened OplogTheorems
  import opened Pages
  import PageTheorems

  type Callback = PageTheorems.Callback

  // The callbacks that a statement makes on the pages it finds, and what it reports.
  datatype Plan = Plan(calls: seq<Callback>, result: Option<RunResult>)

  datatype Plans<!P(!new)> = Plans(
    prepares: (string, PageMap) -> bool,
    exec: (string, PageMap) -> Plan,
    run: (string, Any<P>, P, PageMap) -> Plan)

  // Running a plan leaves what is committed, and the files whose batch was not flushed.
  ghost function EffectOf(p: Plan, view: PageMap): Effect<PageMap> {
    var d := PageTheorems.Run(Disk(view, map[]), p.calls);
    Effect(d.committed, d.pending.Keys, p.result)
  }

  ghost function EngineOf<P(!new)>(plans: Plans<P>): Engine<PageMap, P> {
    Engine(plans.prepares,
           (sql, view) => EffectOf(plans.exec(sql, view), view),
           (sql, named, p, view) => EffectOf(plans.run(sql, named, p, view), view))
  }

  // The callbacks that one node makes, from the state before it.
  ghost function NodeCalls<P(!new)>(plans: Plans<P>, outer: PageMap, c: Call<PageMap>, op: Op<P>): seq<Callback> {
    if c.thrown || c.r.open != {} then []
    else
      match op
      case Exec(sql) => plans.exec(sql, c.r.view).calls
      case Run(sql, n, p) => if Ready(EngineOf(plans), c.cache, sql, c.r.view) then RunCalls(plans, Some(sql), n, p, c.r.view) else []
      case Stmt(sql, n, p) => if Ready(EngineOf(plans), c.cache, sql, outer) then RunCalls(plans, Some(sql), n, p, c.r.view) else []
      case Batch(n, p) => RunCalls(plans, c.stmt, n, p, c.r.view)
      case _ => []
  }

  ghost function RunCalls<P(!new)>(plans: Plans<P>, stmt: Option<string>, named: Any<P>, positional: Any<P>, view: PageMap): seq<Callback> {
    if stmt.None? || !positional.Params? then [] else plans.run(stmt.value, named, positional.params, view).calls
  }

  ghost function LogCalls<P(!new)>(plans: Plans<P>, outer: PageMap, c: Call<PageMap>, ops: seq<Op<P>>): seq<Callback> {
    if ops == [] then []
    else
      var before := ops[..|ops| - 1];
      LogCalls(plans, outer, c, before)
        + NodeCalls(plans, outer, Steps(EngineOf(plans), outer, c, before), ops[|ops| - 1])
  }

  lemma {:induction false} RunConcat(d: Disk, a: seq<Callback>, b: seq<Callback>)
    ensures PageTheorems.Run(d, a + b) == PageTheorems.Run(PageTheorems.Run(d, a), b)
  {
    if b == [] {
      assert a + b == a;
    } else {
      assert (a + b)[..|a + b| - 1] == a + b[..|b| - 1];
      RunConcat(d, a, b[..|b| - 1]);
    }
  }

  // A statement of the engine is its plan, or nothing if it cannot be bound.
  lemma ExecuteIsItsCalls<P(!new)>(plans: Plans<P>, sql: string, named: Any<P>, positional: Any<P>, view: PageMap)
    ensures var f := EngineOf(plans).Execute(sql, named, positional, view);
      var d := PageTheorems.Run(Disk(view, map[]), RunCalls(plans, Some(sql), named, positional, view));
      f.view == d.committed && f.open == d.pending.Keys
  {
  }

  lemma NodeIsItsCalls<P(!new)>(plans: Plans<P>, outer: PageMap, c: Call<PageMap>, op: Op<P>)
    requires c.r.open == {}
    ensures var d := PageTheorems.Run(Disk(c.r.view, map[]), NodeCalls(plans, outer, c, op));
      var next := Step(EngineOf(plans), outer, c, op);
      d.committed == next.r.view && d.pending.Keys == next.r.open
  {
    if !c.thrown {
      if op.Run? || op.Stmt? {
        ExecuteIsItsCalls(plans, op.sql, op.named, op.positional, c.r.view);
      } else if op.Batch? && c.stmt.Some? {
        ExecuteIsItsCalls(plans, c.stmt.value, op.named, op.positional, c.r.view);
      }
    }
  }

  lemma BlockedNode<P(!new)>(plans: Plans<P>, outer: PageMap, c: Call<PageMap>, op: Op<P>)
    requires c.r.open != {}
    ensures var next := Step(EngineOf(plans), outer, c, op);
      next.r.view == c.r.view && next.r.open == c.r.open && NodeCalls(plans, outer, c, op) == []
  {
  }

  /**
   The pages after any nodes, also after a call that threw, are the pages after all the
   callbacks of those nodes in order; a batch is pending for just the files the replica
   has open.  So no write of one node is committed by the run of another.
   */
  lemma {:induction false} LogIsItsCalls<P(!new)>(plans: Plans<P>, outer: PageMap, c: Call<PageMap>, ops: seq<Op<P>>)
    requires c.r.Clean()
    ensures var d := PageTheorems.Run(Disk(c.r.view, map[]), LogCalls(plans, outer, c, ops));
      var after := Steps(EngineOf(plans), outer, c, ops);
      d.committed == after.r.view && d.pending.Keys == after.r.open
  {
    if ops != [] {
      var before, op := ops[..|ops| - 1], ops[|ops| - 1];
      LogIsItsCalls(plans, outer, c, before);
      var mid := Steps(EngineOf(plans), outer, c, before);
      var done := LogCalls(plans, outer, c, before);
      RunConcat(Disk(c.r.view, map[]), done, NodeCalls(plans, outer, mid, op));
      if mid.r.open == {} {
        assert PageTheorems.Run(Disk(c.r.view, map[]), done) == Disk(mid.r.view, map[]);
        NodeIsItsCalls(plans, outer, mid, op);
      } else {
        BlockedNode(plans, outer, mid, op);
      }
    }
  }

  /**
   What one node does to the pages, from the plans alone: an EXEC or a RUN makes the
   callbacks of its statement, on the pages it found, and leaves what they leave.
   */
  lemma OneNodeOnPages<P(!new)>(plans: Plans<P>, outer: PageMap, c: Call<PageMap>, sql: string, named: Any<P>, p: P)
    requires !c.thrown && c.r.open == {}
    ensures var d := PageTheorems.Run(Disk(c.r.view, map[]), plans.exec(sql, c.r.view).calls);
      var after := Step(EngineOf(plans), outer, c, Operation.Exec(sql));
      after.r.view == d.committed && after.r.open == d.pending.Keys
      && NodeCalls(plans, outer, c, Operation.Exec(sql)) == plans.exec(sql, c.r.view).calls
    ensures plans.prepares(sql, c.r.view) ==>
      var d := PageTheorems.Run(Disk(c.r.view, map[]), plans.run(sql, named, p, c.r.view).calls);
      var after := Step(EngineOf(plans), outer, c, Operation.Run(sql, named, Params(p)));
      after.r.view == d.committed && after.r.open == d.pending.Keys
      && NodeCalls(plans, outer, c, Operation.Run(sql, named, Params(p))) == plans.run(sql, named, p, c.r.view).calls
  {
  }
}

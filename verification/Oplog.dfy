/**
 lib/vfs.js, _apply: the operation log as a program over a view of the database.
 The SQL engine is a parameter; its V is the view with all that a statement can
 read or change there.
 */
module Oplog {
  import opened Common
  import opened Codecs
  import StatementCache

  type Op<+P> = Operation<P>

  datatype RunResult = RunResult(changes: int, lastInsertRowid: int)

  // What one execution does: the view it leaves, the files it leaves with an
  // unflushed batch, and its result; None is an error.
  datatype Effect<+V> = Effect(view: V, open: set<string>, result: Option<RunResult>)

  // Preparing reads a view, and may fail.  A run starts from a prepared statement.
  datatype Engine<!V(!new), !P(!new)> = Engine(
    prepares: (string, V) -> bool,
    exec: (string, V) -> Effect<V>,
    run: (string, Any<P>, P, V) -> Effect<V>)
  {
    // _run: without an array of positional parameters binding fails, before the engine runs.
    function Execute(sql: string, named: Any<P>, positional: Any<P>, view: V): Effect<V> {
      match positional
      case Params(p) => run(sql, named, p, view)
      case _ => Effect(view, {}, None)
    }

    // A statement that no longer prepares fails when it is run.
    ghost predicate Coherent() {
      forall sql, named, p, view {:trigger run(sql, named, p, view)} ::
        !prepares(sql, view) ==> run(sql, named, p, view) == Effect(view, {}, None)
    }
  }

  // How the promise of the local caller can settle.
  datatype Reply =
    | Resolved
    | Ran(result: RunResult)
    | Failed
    | FlushedAll(changes: int, lastInsertRowid: int, errors: nat)

  // What outlives a call of _apply: the view and the writers it produces, the open
  // batches (`_files`), whether `_view` is set, and the promise of the caller.
  datatype Replica<+V> = Replica(view: V, writers: set<Key>, open: set<string>, pointed: bool, reply: Option<Reply>) {
    // A promise settles once.
    function Settle(r: Reply): Replica<V> {
      if reply.None? then this.(reply := Some(r)) else this
    }

    predicate Clean() { open == {} && !pointed }
  }

  // A cacheSize below 1 is not modelled here: no statement is open when it is returned.
  type Size = n: int | n >= 1 witness 1

  // The statements that are prepared already, by their text, as index.js keeps them.
  datatype Cache = Cache(texts: seq<string>, size: Size) {
    predicate Valid() { StatementCache.Distinct(texts) && |texts| <= size }

    function Used(sql: string): Cache { this.(texts := StatementCache.Prepared(texts, sql, size)) }
  }

  // prepare gives a statement: a cached one is returned without asking the engine.
  predicate Ready<V(!new), P(!new)>(e: Engine<V, P>, cache: Cache, sql: string, view: V) {
    sql in cache.texts || e.prepares(sql, view)
  }

  // The cache, and the local variables of _apply; thrown ends the call.
  datatype Call<+V> = Call(r: Replica<V>, cache: Cache, stmt: Option<string>, changes: int, rowid: int, errors: nat, thrown: bool) {
    function Throw(): Call<V> { this.(thrown := true) }
  }

  function Start<V>(r: Replica<V>, cache: Cache): Call<V> {
    Call(r, cache, None, 0, 0, 0, false)
  }

  // _write(view), one execution, and _write(null): the effect is in the view even if
  // the second _write throws.
  function Perform<V>(c: Call<V>, f: Effect<V>): Call<V> {
    c.(r := c.r.(view := f.view, open := f.open, pointed := f.open != {}), thrown := f.open != {})
  }

  function StepRun<V(!new), P(!new)>(e: Engine<V, P>, c: Call<V>, op: Op<P>): Call<V>
    requires op.Run?
  {
    if c.r.open != {} then c.Throw()
    else if !Ready(e, c.cache, op.sql, c.r.view) then c.(r := c.r.Settle(Failed).(pointed := false))
    else
      var f := e.Execute(op.sql, op.named, op.positional, c.r.view);
      var d := c.(stmt := Some(op.sql), cache := c.cache.Used(op.sql), r := c.r.Settle(if f.result.Some? then Ran(f.result.value) else Failed));
      Perform(d, f)
  }

  function StepExec<V(!new), P(!new)>(e: Engine<V, P>, c: Call<V>, sql: string): Call<V> {
    if c.r.open != {} then c.Throw()
    else
      var f := e.exec(sql, c.r.view);
      Perform(c.(r := c.r.Settle(if f.result.Some? then Resolved else Failed)), f)
  }

  // The BATCH case, reached by STMT too.
  function StepBatch<V(!new), P(!new)>(e: Engine<V, P>, c: Call<V>, named: Any<P>, positional: Any<P>): Call<V> {
    if c.r.open != {} then c.Throw()
    else
      var f := if c.stmt.None? then Effect(c.r.view, {}, None) else e.Execute(c.stmt.value, named, positional, c.r.view);
      var d := if f.result.Some? then
        c.(changes := c.changes + f.result.value.changes, rowid := f.result.value.lastInsertRowid)
      else
        c.(errors := c.errors + 1);
      Perform(d, f)
  }

  // `outer` is the view that a prepare outside of _write reads.
  function Step<V(!new), P(!new)>(e: Engine<V, P>, outer: V, c: Call<V>, op: Op<P>): Call<V> {
    if c.thrown then c
    else
      match op
      case WriterAdd(k) => c.(r := c.r.(writers := c.r.writers + {k}))
      case WriterDel(k) => c.(r := c.r.(writers := c.r.writers - {k}))
      case Exec(sql) => StepExec(e, c, sql)
      case Run(_, _, _) => StepRun(e, c, op)
      case Stmt(sql, n, p) =>
        if Ready(e, c.cache, sql, outer) then StepBatch(e, c.(stmt := Some(sql), cache := c.cache.Used(sql)), n, p) else c.Throw()
      case Batch(n, p) => StepBatch(e, c, n, p)
      case Flush => c.(r := c.r.Settle(FlushedAll(c.changes, c.rowid, c.errors)))
      case Other(_) => c
  }

  function Steps<V(!new), P(!new)>(e: Engine<V, P>, outer: V, c: Call<V>, ops: seq<Op<P>>): Call<V> {
    if ops == [] then c else Step(e, outer, Steps(e, outer, c, ops[..|ops| - 1]), ops[|ops| - 1])
  }

  // ----- the nodes of the log -----

  datatype Wire<!P(!new)> = Wire(formats: Formats<P>, compressed: bool, deflate: Bytes -> Bytes, inflate: Bytes -> Bytes) {
    ghost predicate Lawful() {
      formats.Lawful() && forall b :: inflate(deflate(b)) == b
    }

    function Encoded(op: Op<P>): Bytes {
      if compressed then deflate(Written(formats, op)) else Written(formats, op)
    }

    function Decoded(node: Bytes): Option<Op<P>> {
      match Parsed(formats, if compressed then inflate(node) else node)
      case None => None
      case Some((op, _)) => Some(op)
    }

    lemma DecodedEncoded(op: Op<P>)
      requires Lawful() && op.WellTagged()
      ensures Decoded(Encoded(op)) == Some(op.Normal())
    {
      RoundTrip(formats, op, []);
      assert Written(formats, op) + [] == Written(formats, op);
    }
  }

  function StepNode<V(!new), P(!new)>(e: Engine<V, P>, w: Wire<P>, outer: V, c: Call<V>, node: Bytes): Call<V> {
    if c.thrown then c
    else match w.Decoded(node) case None => c.Throw() case Some(op) => Step(e, outer, c, op)
  }

  function StepNodes<V(!new), P(!new)>(e: Engine<V, P>, w: Wire<P>, outer: V, c: Call<V>, nodes: seq<Bytes>): Call<V> {
    if nodes == [] then c
    else StepNode(e, w, outer, StepNodes(e, w, outer, c, nodes[..|nodes| - 1]), nodes[|nodes| - 1])
  }

  // ----- the imperative interpreter -----

  class Deferred {
    var settled: Option<Reply>

    constructor ()
      ensures settled == None
    {
      settled := None;
    }

    method Settle(r: Reply)
      modifies this
      ensures settled == if old(settled).None? then Some(r) else old(settled)
    {
      if settled.None? { settled := Some(r); }
    }
  }

  // The view and the host that Autobee passes to _apply.
  class Host<V> {
    var view: V
    var writers: set<Key>

    constructor (view: V, writers: set<Key>)
      ensures this.view == view && this.writers == writers
    {
      this.view, this.writers := view, writers;
    }
  }

  class Interpreter<V(!new), P(!new)> {
    const engine: Engine<V, P>
    const wire: Wire<P>
    const db: StatementCache.ParaQL

    var open: set<string>
    var pointed: bool
    var interactive: Deferred?

    constructor (engine: Engine<V, P>, wire: Wire<P>, db: StatementCache.ParaQL)
      requires db.Valid() && db.cacheSize >= 1
      ensures this.engine == engine && this.wire == wire && this.db == db
      ensures Valid() && open == {} && !pointed && interactive == null
    {
      this.engine, this.wire, this.db := engine, wire, db;
      open, pointed, interactive := {}, false, null;
    }

    ghost predicate Valid()
      reads db, db.made
    {
      db.Valid() && db.cacheSize >= 1
    }

    // Without a promise any reply goes nowhere: Resolved stands for it.
    ghost function Abs(host: Host<V>): Replica<V>
      reads this, host, interactive
    {
      Replica(host.view, host.writers, open, pointed, if interactive == null then Some(Resolved) else interactive.settled)
    }

    ghost function Cached(): Cache
      requires db.cacheSize >= 1
      reads db
    {
      Cache(db.keys, db.cacheSize)
    }

    // What _apply holds in its local variable: a statement that is open.
    ghost predicate Usable(stmt: StatementCache.Statement?)
      reads db, stmt
    {
      stmt != null ==> stmt in db.made && !stmt.closed
    }

    method Settle(r: Reply)
      modifies interactive
      ensures interactive != null ==>
        interactive.settled == if old(interactive.settled).None? then Some(r) else old(interactive.settled)
    {
      if interactive != null { interactive.Settle(r); }
    }

    // _write: false is the thrown "Unflushed batches".
    method Write(on: bool) returns (ok: bool)
      modifies this`pointed
      ensures ok <==> open == {}
      ensures pointed == if ok then on else old(pointed)
    {
      if |open| > 0 {
        assert open != {};
        return false;
      }
      assert open == {};
      pointed := on;
      return true;
    }

    // The engine answers only if the text is not cached.
    method Prepare(sql: string, view: V) returns (stmt: StatementCache.Statement?)
      requires Valid()
      modifies db, db.made`closed
      ensures Valid() && old(db.made) <= db.made && fresh(db.made - old(db.made))
      ensures stmt == null <==> !Ready(engine, old(Cached()), sql, view)
      ensures stmt == null ==> Cached() == old(Cached()) && forall s :: s in old(db.made) ==> s.closed == old(s.closed)
      ensures stmt != null ==> Usable(stmt) && stmt.sourceSQL == sql && Cached() == old(Cached()).Used(sql)
    {
      stmt := db.Prepare(sql, engine.prepares(sql, view));
      if stmt != null {
        StatementCache.Next(old(db.uses), StatementCache.Use(sql), db.cacheSize);
      }
    }

    // One execution by the engine on the current view.
    method Do(host: Host<V>, f: Effect<V>) returns (result: Option<RunResult>)
      modifies this`open, host`view
      ensures host.view == f.view && open == f.open && result == f.result
    {
      host.view := f.view;
      open := f.open;
      result := f.result;
    }

    // _run: a closed statement has no handle to bind to.
    method RunStatement(host: Host<V>, stmt: StatementCache.Statement, named: Any<P>, positional: Any<P>)
      returns (result: Option<RunResult>)
      requires !stmt.closed
      modifies this`open, host`view
      ensures var f := engine.Execute(stmt.sourceSQL, named, positional, old(host.view));
        host.view == f.view && open == f.open && result == f.result
    {
      result := Do(host, engine.Execute(stmt.sourceSQL, named, positional, host.view));
    }

    method Apply(nodes: seq<Bytes>, host: Host<V>, outer: V) returns (thrown: bool)
      requires Valid()
      modifies this`open, this`pointed, host, interactive, db, db.made`closed
      ensures Valid()
      ensures var c := StepNodes(engine, wire, outer, Start(old(Abs(host)), old(Cached())), nodes);
        Abs(host) == c.r && Cached() == c.cache && thrown == c.thrown
    {
      ghost var first, made := Start(Abs(host), Cached()), db.made;
      var stmt: StatementCache.Statement? := null;
      var changes, rowid, errors := 0, 0, 0;
      var i := 0;
      while i < |nodes|
        invariant i <= |nodes| && Valid() && Usable(stmt) && made <= db.made && fresh(db.made - made)
        invariant Call(Abs(host), Cached(), TextOf(stmt), changes, rowid, errors, false)
               == StepNodes(engine, wire, outer, first, nodes[..i])
        decreases |nodes| - i
      {
        NextNode(engine, wire, outer, first, nodes, i);
        thrown, stmt, changes, rowid, errors := ApplyNode(nodes[i], host, outer, stmt, changes, rowid, errors);
        if thrown {
          ThrownStays(engine, wire, outer, first, nodes, i + 1);
          return;
        }
        i := i + 1;
      }
      assert nodes[..i] == nodes;
      return false;
    }

    // The body of the loop: one node through the switch.
    method ApplyNode(node: Bytes, host: Host<V>, outer: V,
                     stmt0: StatementCache.Statement?, changes0: int, rowid0: int, errors0: nat)
      returns (thrown: bool, stmt: StatementCache.Statement?, changes: int, rowid: int, errors: nat)
      requires Valid() && Usable(stmt0)
      modifies this`open, this`pointed, host, interactive, db, db.made`closed
      ensures Valid() && Usable(stmt) && old(db.made) <= db.made && fresh(db.made - old(db.made))
      ensures Call(Abs(host), Cached(), TextOf(stmt), changes, rowid, errors, thrown)
           == StepNode(engine, wire, outer, Call(old(Abs(host)), old(Cached()), TextOf(stmt0), changes0, rowid0, errors0, false), node)
    {
      thrown, stmt, changes, rowid, errors := false, stmt0, changes0, rowid0, errors0;
      var decoded := wire.Decoded(node);
      if decoded.None? { thrown := true; return; }
      var op := decoded.value;
      match op {
        case WriterAdd(k) => host.writers := host.writers + {k};
        case WriterDel(k) => host.writers := host.writers - {k};
        case Exec(sql) => thrown := ApplyExec(host, sql);
        case Run(_, _, _) => thrown, stmt := ApplyRun(host, op, stmt);
        case Stmt(_, _, _) =>
          thrown, stmt, changes, rowid, errors := ApplyStmt(host, op, outer, stmt, changes, rowid, errors);
        case Batch(n, p) =>
          thrown, changes, rowid, errors := ApplyBatch(host, stmt, n, p, changes, rowid, errors);
        case Flush => Settle(FlushedAll(changes, rowid, errors));
        case Other(_) =>
      }
    }

    method ApplyExec(host: Host<V>, sql: string) returns (thrown: bool)
      modifies this`open, this`pointed, host`view, interactive
      ensures forall c: Call<V> :: c.r == old(Abs(host)) && !c.thrown ==>
        StepExec(engine, c, sql) == c.(r := Abs(host), thrown := thrown)
    {
      var ok := Write(true);
      if !ok { return true; }
      var result := Do(host, engine.exec(sql, host.view));
      Settle(if result.Some? then Resolved else Failed);
      ok := Write(false);
      return !ok;
    }

    method ApplyRun(host: Host<V>, op: Op<P>, stmt0: StatementCache.Statement?)
      returns (thrown: bool, stmt: StatementCache.Statement?)
      requires op.Run? && Valid() && Usable(stmt0)
      modifies this`open, this`pointed, host`view, interactive, db, db.made`closed
      ensures Valid() && Usable(stmt) && old(db.made) <= db.made && fresh(db.made - old(db.made))
      ensures forall c: Call<V> :: c.r == old(Abs(host)) && c.cache == old(Cached()) && c.stmt == TextOf(stmt0) && !c.thrown ==>
        StepRun(engine, c, op) == c.(r := Abs(host), cache := Cached(), stmt := TextOf(stmt), thrown := thrown)
    {
      stmt := stmt0;
      var ok := Write(true);
      if !ok { return true, stmt; }
      var prepared := Prepare(op.sql, host.view);
      if prepared != null {
        stmt := prepared;
        var result := RunStatement(host, stmt, op.named, op.positional);
        Settle(if result.Some? then Ran(result.value) else Failed);
      } else {
        Settle(Failed);
      }
      ok := Write(false);
      return !ok, stmt;
    }

    // It prepares outside of _write, and falls through to BATCH.
    method ApplyStmt(host: Host<V>, op: Op<P>, outer: V,
                     stmt0: StatementCache.Statement?, changes0: int, rowid0: int, errors0: nat)
      returns (thrown: bool, stmt: StatementCache.Statement?, changes: int, rowid: int, errors: nat)
      requires op.Stmt? && Valid() && Usable(stmt0)
      modifies this`open, this`pointed, host`view, db, db.made`closed
      ensures Valid() && Usable(stmt) && old(db.made) <= db.made && fresh(db.made - old(db.made))
      ensures Call(Abs(host), Cached(), TextOf(stmt), changes, rowid, errors, thrown)
           == Step(engine, outer, Call(old(Abs(host)), old(Cached()), TextOf(stmt0), changes0, rowid0, errors0, false), op)
    {
      thrown, stmt, changes, rowid, errors := false, stmt0, changes0, rowid0, errors0;
      var prepared := Prepare(op.sql, outer);
      if prepared == null { thrown := true; return; }
      stmt := prepared;
      thrown, changes, rowid, errors := ApplyBatch(host, stmt, op.named, op.positional, changes, rowid, errors);
    }

    method ApplyBatch(host: Host<V>, stmt: StatementCache.Statement?, named: Any<P>, positional: Any<P>,
                      changes0: int, rowid0: int, errors0: nat)
      returns (thrown: bool, changes: int, rowid: int, errors: nat)
      requires stmt != null ==> !stmt.closed
      modifies this`open, this`pointed, host`view
      ensures forall cache ::
        StepBatch(engine, Call(old(Abs(host)), cache, TextOf(stmt), changes0, rowid0, errors0, false), named, positional)
        == Call(Abs(host), cache, TextOf(stmt), changes, rowid, errors, thrown)
    {
      changes, rowid, errors := changes0, rowid0, errors0;
      var ok := Write(true);
      if !ok { thrown := true; return; }
      var result := None;
      if stmt != null {
        result := RunStatement(host, stmt, named, positional);
      }
      if result.Some? {
        changes := changes + result.value.changes;
        rowid := result.value.lastInsertRowid;
      } else {
        errors := errors + 1;
      }
      ok := Write(false);
      thrown := !ok;
    }
  }

  function TextOf(stmt: StatementCache.Statement?): Option<string> {
    if stmt == null then None else Some(stmt.sourceSQL)
  }

  lemma NextNode<V(!new), P(!new)>(e: Engine<V, P>, w: Wire<P>, outer: V, c: Call<V>, nodes: seq<Bytes>, i: nat)
    requires i < |nodes|
    ensures StepNodes(e, w, outer, c, nodes[..i + 1]) == StepNode(e, w, outer, StepNodes(e, w, outer, c, nodes[..i]), nodes[i])
  {
    assert nodes[..i + 1][..i] == nodes[..i] && nodes[..i + 1][i] == nodes[i];
  }

  lemma {:induction false} ThrownStays<V(!new), P(!new)>(e: Engine<V, P>, w: Wire<P>, outer: V, c: Call<V>, nodes: seq<Bytes>, i: nat)
    requires i <= |nodes| && StepNodes(e, w, outer, c, nodes[..i]).thrown
    ensures StepNodes(e, w, outer, c, nodes) == StepNodes(e, w, outer, c, nodes[..i])
  {
    if i < |nodes| {
      assert nodes[..|nodes| - 1][..i] == nodes[..i];
      ThrownStays(e, w, outer, c, nodes[..|nodes| - 1], i);
    } else {
      assert nodes[..i] == nodes;
    }
  }
}

/**
 binding.c: the intrusive list of prepared statements of a database, and who may
 finalize a statement handle.  Each work callback is one atomic step.
 */
module Statements {
  import opened Common

  /** The handles that sqlite gave out: each is open, or was finalized exactly once. */
  class Sqlite {
    var next: nat
    var issued: set<nat>
    var live: set<nat>
    var finalized: seq<nat>

    ghost predicate Valid()
      reads this
    {
      && (forall h :: h in issued ==> h < next)
      && live <= issued && Once(finalized, issued - live)
    }

    constructor ()
      ensures Valid() && issued == live == {} && finalized == []
    {
      next, issued, live, finalized := 0, {}, {}, [];
    }

    method Prepare() returns (h: nat)
      requires Valid()
      modifies this
      ensures Valid() && h !in old(issued) && issued == old(issued) + {h}
      ensures live == old(live) + {h} && finalized == old(finalized)
    {
      h := next;
      assert (issued + {h}) - (live + {h}) == issued - live;
      next, issued, live := next + 1, issued + {h}, live + {h};
    }

    // What a prepare puts into `stmt`: null unless there is a handle.
    method PrepareIf(given: bool) returns (handle: Option<nat>)
      requires Valid()
      modifies this
      ensures Valid() && (handle.Some? <==> given) && finalized == old(finalized)
      ensures handle.None? ==> issued == old(issued) && live == old(live)
      ensures handle.Some? ==>
        && handle.value !in old(issued) && issued == old(issued) + {handle.value} && live == old(live) + {handle.value}
    {
      handle := None;
      if given {
        var h := Prepare();
        handle := Some(h);
      }
    }

    // Finalizing a handle that is not open is a double free: it is ruled out here.
    method Finalize(h: nat)
      requires Valid() && h in live
      modifies this`live, this`finalized
      ensures Valid() && live == old(live) - {h} && finalized == old(finalized) + [h]
    {
      assert (issued - (live - {h})) - {h} == issued - live;
      assert (finalized + [h])[..|finalized|] == finalized;
      live, finalized := live - {h}, finalized + [h];
    }
  }

  // n handles were given out since `before`, and each of them is finalized, exactly once.
  ghost predicate AllClosed(sqlite: Sqlite, before: set<nat>, n: nat)
    reads sqlite
  {
    && before <= sqlite.issued && |sqlite.issued - before| == n
    && forall h :: h in sqlite.issued - before ==> h !in sqlite.live && multiset(sqlite.finalized)[h] == 1
  }

  // If no more handles are live than before, those given out since are closed.
  lemma ClosedSince(sqlite: Sqlite, before: set<nat>, live: set<nat>, n: nat)
    requires sqlite.Valid() && before <= sqlite.issued && |sqlite.issued - before| == n
    requires live <= before && sqlite.live == live
    ensures AllClosed(sqlite, before, n)
  {
    forall h | h in sqlite.issued - before ensures multiset(sqlite.finalized)[h] == 1 {
      OnceCounts(sqlite.finalized, sqlite.issued - sqlite.live, h);
    }
  }

  // A prepare that fails, and may leave a handle: it is finalized.
  method RefusedPrepare(sqlite: Sqlite, leavesHandle: bool)
    requires sqlite.Valid()
    modifies sqlite
    ensures sqlite.Valid() && sqlite.live == old(sqlite.live)
    ensures AllClosed(sqlite, old(sqlite.issued), if leavesHandle then 1 else 0)
  {
    ghost var issued := sqlite.issued;
    var handle := sqlite.PrepareIf(leavesHandle);
    if handle.Some? { sqlite.Finalize(handle.value); }
    assert sqlite.issued - issued == if handle.Some? then {handle.value} else {};
    ClosedSince(sqlite, issued, sqlite.live, if leavesHandle then 1 else 0);
  }

  // The log repeats no handle and holds just the closed ones.
  ghost predicate Once(log: seq<nat>, closed: set<nat>) {
    if log == [] then closed == {}
    else log[|log| - 1] in closed && Once(log[..|log| - 1], closed - {log[|log| - 1]})
  }

  /** Each handle that was given out is open, or in the log of finalized handles exactly once. */
  lemma {:induction false} OnceCounts(log: seq<nat>, closed: set<nat>, h: nat)
    requires Once(log, closed)
    ensures multiset(log)[h] == if h in closed then 1 else 0
  {
    if log != [] {
      var last := log[|log| - 1];
      OnceCounts(log[..|log| - 1], closed - {last}, h);
      assert log == log[..|log| - 1] + [last];
    }
  }

  lemma NoneLive(given: seq<nat>, log: seq<nat>, issued: set<nat>, live: set<nat>)
    requires Once(log, issued - live)
    requires forall h :: h in given ==> h in log
    requires forall h :: h in live ==> h in given
    ensures live == {}
  {
    forall h ensures h !in live {
      OnceCounts(log, issued - live, h);
      assert h in log <==> multiset(log)[h] > 0;
    }
  }

  class Statement {
    // The handle that prepare put there.
    ghost const given: Option<nat>

    var handle: Option<nat>
    var db: Db?
    var prev: Statement?
    var next: Statement?

    constructor (handle: Option<nat>)
      ensures this.handle == given == handle && db == null && prev == null && next == null
    {
      given := handle;
      this.handle, db, prev, next := handle, null, null, null;
    }

    // Finalize the handle if there is one, the first of those that are to go, and unlink.
    method Detach(sqlite: Sqlite, ghost rest: seq<Option<nat>>)
      requires sqlite.Valid() && rest != [] && handle == rest[0] && Ready(rest, sqlite.live)
      modifies this, sqlite`live, sqlite`finalized
      ensures Detached(this) && sqlite.Valid() && sqlite.live <= old(sqlite.live)
      ensures Ready(rest[1..], sqlite.live)
      ensures sqlite.finalized + Given(rest[1..]) == old(sqlite.finalized) + Given(rest)
    {
      if handle.Some? {
        assert sqlite.finalized + ([handle.value] + Given(rest[1..])) == sqlite.finalized + [handle.value] + Given(rest[1..]);
        sqlite.Finalize(handle.value);
        handle := None;
      } else {
        assert [] + Given(rest[1..]) == Given(rest[1..]);
      }
      db, prev, next := null, null, null;
    }
  }

  class Db {
    var statements: Statement?

    // The records of the list, first to last.
    ghost var list: seq<Statement>

    constructor ()
      ensures statements == null && list == []
    {
      statements, list := null, [];
    }

    /** prev and next are mutually inverse along `list`, which repeats no record. */
    ghost predicate Linked()
      reads this, list
    {
      && statements == At(list, 0)
      && (forall i :: 0 <= i < |list| ==> list[i].db == this)
      && (forall i, j :: 0 <= i < j < |list| && j == i + 1 ==> list[i].next == list[j] && list[j].prev == list[i])
      && (list != [] ==> list[0].prev == null && list[|list| - 1].next == null)
      && (forall i, j :: 0 <= i < j < |list| ==> list[i] != list[j])
    }

    lemma Neighbours(k: nat)
      requires Linked() && k < |list|
      ensures list[k].prev == At(list, k - 1) && list[k].next == At(list, k + 1)
    {
    }

    method InsertStatement(stmt: Statement)
      requires Linked() && stmt !in list
      modifies this, stmt, statements
      ensures Linked() && list == [stmt] + old(list)
      ensures stmt.handle == old(stmt.handle)
      ensures forall s :: s in list ==> s.handle == old(s.handle)
    {
      stmt.db := this;
      stmt.prev := null;
      stmt.next := statements;
      if statements != null { statements.prev := stmt; }
      statements := stmt;
      list := [stmt] + list;
    }

    // Detach every record, finalizing the handles that are left, in list order.
    method FinalizeStatements(sqlite: Sqlite)
      requires Linked() && sqlite.Valid() && Ready(Handles(list), sqlite.live)
      modifies this, list, sqlite`live, sqlite`finalized
      ensures Linked() && list == [] && sqlite.Valid()
      ensures forall s :: s in old(list) ==> Detached(s)
      ensures sqlite.live <= old(sqlite.live)
      ensures sqlite.finalized == old(sqlite.finalized + Given(Handles(list)))
    {
      ghost var all, handles, goal, k := list, Handles(list), sqlite.finalized + Given(Handles(list)), 0;
      var stmt := statements;
      StartDetaching(sqlite);
      while stmt != null
        invariant k <= |all| && stmt == At(all, k)
        invariant sqlite.live <= old(sqlite.live)
        invariant Detaching(all, handles, k, sqlite) && sqlite.finalized + Given(handles[k..]) == goal
        decreases |all| - k
      {
        var next := stmt.next;
        DetachNext(stmt, sqlite, all, handles, k);
        stmt := next;
        k := k + 1;
      }
      statements := null;
      list := [];
    }

    // The first k records are detached, the others as they were.
    ghost predicate Detaching(all: seq<Statement>, handles: seq<Option<nat>>, k: nat, sqlite: Sqlite)
      requires k <= |all|
      reads all, sqlite
    {
      && |handles| == |all| && sqlite.Valid() && Ready(handles[k..], sqlite.live)
      && (forall i, j :: 0 <= i < j < |all| ==> all[i] != all[j])
      && (forall i {:trigger Detached(all[i])} :: 0 <= i < k ==> Detached(all[i]))
      && (forall i {:trigger all[i].handle} :: k <= i < |all| ==> all[i].handle == handles[i])
      && (forall i {:trigger all[i].next} :: k <= i < |all| ==> all[i].next == At(all, i + 1))
    }

    lemma StartDetaching(sqlite: Sqlite)
      requires Linked() && sqlite.Valid() && Ready(Handles(list), sqlite.live)
      ensures Detaching(list, Handles(list), 0, sqlite) && Handles(list)[0..] == Handles(list)
    {
      forall i | 0 <= i < |list| ensures list[i].next == At(list, i + 1) { Neighbours(i); }
    }

    // The body of the loop.
    method DetachNext(stmt: Statement, sqlite: Sqlite, ghost all: seq<Statement>, ghost handles: seq<Option<nat>>, ghost k: nat)
      requires k < |all| && stmt == all[k] && Detaching(all, handles, k, sqlite)
      modifies stmt, sqlite`live, sqlite`finalized
      ensures Detaching(all, handles, k + 1, sqlite) && sqlite.live <= old(sqlite.live)
      ensures sqlite.finalized + Given(handles[k + 1..]) == old(sqlite.finalized) + Given(handles[k..])
    {
      assert handles[k..][0] == handles[k] && handles[k..][1..] == handles[k + 1..];
      stmt.Detach(sqlite, handles[k..]);
    }
  }

  function At(list: seq<Statement>, i: int): Statement? {
    if 0 <= i < |list| then list[i] else null
  }

  ghost predicate Detached(s: Statement)
    reads s
  {
    s.handle == None && s.db == null && s.prev == null && s.next == null
  }

  ghost function Handles(list: seq<Statement>): (hs: seq<Option<nat>>)
    reads list
    ensures |hs| == |list| && forall i :: 0 <= i < |list| ==> hs[i] == list[i].handle
  {
    seq(|list|, i requires 0 <= i < |list| reads list => list[i].handle)
  }

  // The handles that are not null, in order.
  function Given(hs: seq<Option<nat>>): seq<nat> {
    if hs == [] then [] else (if hs[0].Some? then [hs[0].value] else []) + Given(hs[1..])
  }

  // The handles can be finalized one after another, starting from the live ones.
  ghost predicate Ready(hs: seq<Option<nat>>, live: set<nat>) {
    hs == [] || (if hs[0].Some? then hs[0].value in live && Ready(hs[1..], live - {hs[0].value}) else Ready(hs[1..], live))
  }

  lemma {:induction false} DistinctReady(hs: seq<Option<nat>>, live: set<nat>)
    requires forall i :: 0 <= i < |hs| && hs[i].Some? ==> hs[i].value in live
    requires forall i, j :: 0 <= i < j < |hs| && hs[i].Some? ==> hs[i] != hs[j]
    ensures Ready(hs, live)
  {
    if hs != [] {
      DistinctReady(hs[1..], if hs[0].Some? then live - {hs[0].value} else live);
    }
  }

  lemma {:induction false} GivenHas(hs: seq<Option<nat>>, i: nat)
    requires i < |hs| && hs[i].Some?
    ensures hs[i].value in Given(hs)
  {
    if i > 0 {
      GivenHas(hs[1..], i - 1);
    }
  }

  // list without its record at k, in the same order.
  function Without(list: seq<Statement>, k: nat): seq<Statement>
    requires k < |list|
  {
    list[..k] + list[k + 1..]
  }

  lemma WithoutHas(list: seq<Statement>, k: nat)
    requires k < |list|
    ensures forall s :: s in list && s != list[k] ==> s in Without(list, k)
    ensures forall s :: s in Without(list, k) ==> s in list
  {
    forall s | s in list && s != list[k] ensures s in Without(list, k) {
      var i :| 0 <= i < |list| && list[i] == s;
      assert Without(list, k)[if i < k then i else i - 1] == s;
    }
  }

  method RemoveStatement(stmt: Statement, ghost k: nat)
    requires stmt.db != null ==> stmt.db.Linked() && k < |stmt.db.list| && stmt.db.list[k] == stmt
    modifies stmt, stmt.db, stmt.prev, stmt.next
    ensures stmt.handle == old(stmt.handle)
    ensures old(stmt.db) == null ==> unchanged(stmt)
    ensures old(stmt.db) != null ==>
      && stmt.db == null && stmt.prev == null && stmt.next == null
      && old(stmt.db).Linked() && old(stmt.db).list == Without(old(stmt.db.list), k)
      && (forall s :: s in old(stmt.db).list ==> s.handle == old(s.handle))
  {
    if stmt.db == null { return; }
    var db := stmt.db;
    ghost var before := db.list;
    db.Neighbours(k);
    if stmt.prev != null { stmt.prev.next := stmt.next; } else { db.statements := stmt.next; }
    if stmt.next != null { stmt.next.prev := stmt.prev; }
    stmt.db := null;
    stmt.prev := null;
    stmt.next := null;
    db.list := Without(before, k);
    assert forall i :: 0 <= i < |db.list| ==> db.list[i] == before[if i < k then i else i + 1];
  }

  // What sqlite3_prepare_v2 did: a statement, nothing for an empty text, or an
  // error, after which a handle may have to be finalized.
  datatype Outcome = Prepared | Empty | Rejected(leavesHandle: bool)

  // A work callback; k counts the statements in the order they were prepared.
  datatype Work =
    | DoPrepare(outcome: Outcome)
    | DoFinalize(k: nat)
    | DoCollect(k: nat)
    | DoClose(fails: bool)
    | DoCollectDb
    | DoFollow(k: nat)

  // A schedule on values: of each statement, whether its handle is open and its record there.
  datatype Fate = Fate(open: bool, kept: bool)
  datatype System = System(freed: bool, connected: bool, made: seq<Fate>)

  // A callback on a freed record or database is not queued.
  function NextSystem(s: System, w: Work): System {
    match w
    case DoPrepare(o) =>
      if s.freed || o.Rejected? || !s.connected then s else s.(made := s.made + [Fate(o.Prepared?, true)])
    case DoFinalize(k) =>
      if k < |s.made| && s.made[k].kept then s.(made := s.made[k := Fate(false, true)]) else s
    case DoCollect(k) =>
      if k < |s.made| && s.made[k].kept then s.(made := s.made[k := Fate(false, false)]) else s
    case DoClose(fails) => if s.freed then s else s.(connected := s.connected && fails)
    case DoCollectDb => if s.freed then s else System(true, s.connected, Closed(s.made))
    case DoFollow(_) => s
  }

  function Closed(made: seq<Fate>): (r: seq<Fate>)
    ensures |r| == |made| && forall k :: 0 <= k < |made| ==> r[k] == Fate(false, made[k].kept)
  {
    seq(|made|, k requires 0 <= k < |made| => Fate(false, made[k].kept))
  }

  function RunSystem(work: seq<Work>): System {
    if work == [] then System(false, true, []) else NextSystem(RunSystem(work[..|work| - 1]), work[|work| - 1])
  }

  ghost predicate AllOf(made: seq<Statement>, ever: set<Statement>) {
    && (forall x :: x in made ==> x in ever) && (forall x :: x in ever ==> x in made)
    && (forall i, j :: 0 <= i < j < |made| ==> made[i] != made[j])
  }

  predicate OpenAreKept(made: seq<Fate>) {
    forall f :: f in made && f.open ==> f.kept
  }

  // Whether prepare gave the statement k a handle.
  predicate HadHandle(work: seq<Work>, k: nat) {
    work != [] &&
    if k < |RunSystem(work[..|work| - 1]).made| then HadHandle(work[..|work| - 1], k)
    else work[|work| - 1] == DoPrepare(Prepared)
  }

  // What takes the record k away, or also just its handle.
  predicate Releases(w: Work, k: nat, record: bool) {
    w == DoCollect(k) || (!record && (w == DoFinalize(k) || w == DoCollectDb))
  }

  // The callback at index i does so, and k was made before it.
  predicate ReleasedAt(work: seq<Work>, k: nat, record: bool, i: nat)
    requires i < |work|
  {
    k < |RunSystem(work[..i]).made| && Releases(work[i], k, record)
  }

  ghost predicate Released(work: seq<Work>, k: nat, record: bool) {
    exists i :: 0 <= i < |work| && ReleasedAt(work, k, record, i)
  }

  lemma SameAt(work: seq<Work>, k: nat, record: bool, n: nat, i: nat)
    requires i < n <= |work|
    ensures ReleasedAt(work[..n], k, record, i) == ReleasedAt(work, k, record, i)
  {
    assert work[..n][..i] == work[..i];
  }

  lemma ReleasedSnoc(work: seq<Work>, k: nat, record: bool)
    requires work != []
    ensures var before := work[..|work| - 1];
      Released(work, k, record) <==>
        Released(before, k, record) || (k < |RunSystem(before).made| && Releases(work[|work| - 1], k, record))
  {
    var n := |work| - 1;
    forall i: nat | i < n ensures ReleasedAt(work[..n], k, record, i) == ReleasedAt(work, k, record, i) {
      SameAt(work, k, record, n, i);
    }
    if k < |RunSystem(work[..n]).made| && Releases(work[n], k, record) {
      assert ReleasedAt(work, k, record, n);
    }
  }

  /**
   In every schedule a handle is open exactly if prepare gave it and no finalize or
   collection of the statement or of the database came since; a record is there exactly
   if it was not collected since.
   */
  lemma {:induction false} OpenExactly(work: seq<Work>, k: nat)
    requires k < |RunSystem(work).made|
    ensures var f := RunSystem(work).made[k];
      && (f.open <==> HadHandle(work, k) && !Released(work, k, false))
      && (f.kept <==> !Released(work, k, true))
      && (f.open ==> f.kept && !RunSystem(work).freed)
  {
    if work != [] {
      var before, w := work[..|work| - 1], work[|work| - 1];
      ReleasedSnoc(work, k, false);
      ReleasedSnoc(work, k, true);
      OneMoreCallback(RunSystem(before), w, k);
      if k < |RunSystem(before).made| {
        OpenExactly(before, k);
      } else {
        NotYetReleased(before, k, false);
        NotYetReleased(before, k, true);
      }
    }
  }

  lemma OneMoreCallback(s: System, w: Work, k: nat)
    requires k < |NextSystem(s, w).made|
    ensures var f := NextSystem(s, w).made[k];
      if k < |s.made| then
        && (s.made[k].open && s.made[k].kept && !s.freed ==> (f.open <==> !Releases(w, k, false)))
        && (f.open ==> s.made[k].open) && (f.kept <==> s.made[k].kept && !Releases(w, k, true))
        && (f.open && s.made[k].kept ==> f.kept) && (NextSystem(s, w).freed && !s.freed ==> !f.open)
      else w.DoPrepare? && f == Fate(w == DoPrepare(Prepared), true) && !s.freed && !NextSystem(s, w).freed && k == |s.made|
  {
  }

  lemma {:induction false} NotYetReleased(work: seq<Work>, k: nat, record: bool)
    requires k >= |RunSystem(work).made|
    ensures !Released(work, k, record)
  {
    if work != [] {
      ReleasedSnoc(work, k, record);
      NotYetReleased(work[..|work| - 1], k, record);
    }
  }

  /**
   After any schedule, a prepare that sqlite accepts makes one more statement while the
   database is open; only a collection frees the database, and only a close that sqlite
   accepts takes the connection.
   */
  lemma AfterSchedule(work: seq<Work>, w: Work)
    ensures var s, t := RunSystem(work), RunSystem(work + [w]);
      && |t.made| == |s.made| + (if (w == DoPrepare(Prepared) || w == DoPrepare(Empty)) && s.connected && !s.freed then 1 else 0)
      && (t.freed <==> s.freed || w == DoCollectDb)
      && (t.connected <==> s.connected && (w == DoClose(false) ==> s.freed))
  {
    assert (work + [w])[..|work|] == work;
  }

  /**
   A database, the records of its statements that are not freed, and the work callbacks
   on them.  Databases share no record and no handle, so each is a system of its own.
   */
  class Binding {
    const sqlite: Sqlite
    const db: Db
    var freed: bool

    // db->handle is not null.
    var connected: bool
    var records: set<Statement>

    // The record that each handle was made for.
    ghost var owner: map<nat, Statement>

    // All records that were ever made, freed or not.
    ghost var ever: set<Statement>

    /**
     The list holds no freed record; a record outside it holds no handle; and a record
     with a handle has a database that is not freed, so `stmt->db` may be followed.
     */
    ghost predicate Valid()
      reads this, sqlite, db, records
    {
      Links() && Holders(null)
    }

    ghost predicate Links()
      reads this, db, records
    {
      && (forall s :: s in db.list ==> s in records)
      && db.Linked()
      && (freed ==> db.list == [])
      && (forall s :: s in records ==> if s.db == null then s.prev == s.next == null else s in db.list)
    }

    // Every open handle is held by its own record, which is in the list or about to be.
    ghost predicate Holders(pending: Statement?)
      reads this, sqlite, records, pending
    {
      && sqlite.Valid() && owner.Keys <= sqlite.issued && records <= ever
      && (forall h :: h in sqlite.live ==> h in owner && owner[h] in records + {pending} && owner[h].handle == Some(h))
      && (forall s :: s in ever && s.given.Some? ==> s.given.value in owner && owner[s.given.value] == s)
      && (forall s :: s in records && s.handle.Some? ==> s.handle == s.given && s.handle.value in sqlite.live && s.db != null)
    }

    constructor ()
      ensures Valid() && !freed && connected && records == {} && db.list == [] && fresh(sqlite) && fresh(db)
    {
      sqlite := new Sqlite();
      db := new Db();
      freed, connected, records, owner, ever := false, true, {}, map[], {};
    }

    // paraql__on_before_prepare; null is an error.
    method Prepare(outcome: Outcome) returns (stmt: Statement?)
      requires Valid() && !freed && (connected || outcome == Rejected(false))
      modifies this`records, this`owner, this`ever, sqlite, db, db.statements
      ensures Valid() && ever == old(ever) + (if stmt == null then {} else {stmt}) && (stmt == null <==> outcome.Rejected?)
      ensures stmt == null ==>
        && records == old(records) && db.list == old(db.list) && sqlite.live == old(sqlite.live)
        && AllClosed(sqlite, old(sqlite.issued), if outcome.leavesHandle then 1 else 0)
      ensures stmt != null ==>
        && fresh(stmt) && records == old(records) + {stmt} && db.list == [stmt] + old(db.list)
        && (stmt.handle.Some? <==> outcome.Prepared?) && sqlite.finalized == old(sqlite.finalized)
      ensures forall s :: s in old(records) ==> s.handle == old(s.handle)
    {
      if outcome.Rejected? {
        FailPrepare(outcome.leavesHandle);
        return null;
      }
      stmt := NewRecord(outcome.Prepared?);
      Insert(stmt);
    }

    // The error case: sqlite may have left a handle that no record is going to hold.
    method FailPrepare(leavesHandle: bool)
      requires Valid()
      modifies sqlite
      ensures Valid() && sqlite.live == old(sqlite.live)
      ensures AllClosed(sqlite, old(sqlite.issued), if leavesHandle then 1 else 0)
    {
      RefusedPrepare(sqlite, leavesHandle);
    }

    // The other case: an empty text leaves no handle, and gets a record all the same.
    method NewRecord(hasHandle: bool) returns (stmt: Statement)
      requires Valid()
      modifies this`ever, this`owner, sqlite
      ensures fresh(stmt) && ever == old(ever) + {stmt} && Links() && Holders(stmt)
      ensures stmt.handle == stmt.given && (stmt.handle.Some? <==> hasHandle) && sqlite.finalized == old(sqlite.finalized)
      ensures stmt.handle.Some? ==> stmt.handle.value in sqlite.live
    {
      var handle := sqlite.PrepareIf(hasHandle);
      stmt := new Statement(handle);
      assert Links();
      Own(stmt);
    }

    // A new record, and the handle it is made for.
    ghost method Own(stmt: Statement)
      modifies this`ever, this`owner
      ensures ever == old(ever) + {stmt}
      ensures owner == if stmt.given.Some? then old(owner)[stmt.given.value := stmt] else old(owner)
    {
      ever := ever + {stmt};
      if stmt.given.Some? { owner := owner[stmt.given.value := stmt]; }
    }

    method Insert(stmt: Statement)
      requires Links() && Holders(stmt) && !freed && stmt !in records && stmt in ever
      requires stmt.handle == stmt.given && (stmt.handle.Some? ==> stmt.handle.value in sqlite.live)
      modifies this`records, db, db.statements, stmt
      ensures Valid() && stmt.handle == old(stmt.handle)
      ensures records == old(records) + {stmt} && db.list == [stmt] + old(db.list)
      ensures forall s :: s in old(records) ==> s.handle == old(s.handle)
    {
      Link(stmt);
    }

    method Link(stmt: Statement)
      requires Links() && !freed && stmt !in records
      modifies this`records, db, db.statements, stmt
      ensures Links() && stmt.handle == old(stmt.handle) && stmt.db == db
      ensures records == old(records) + {stmt} && db.list == [stmt] + old(db.list)
      ensures forall s :: s in old(records) ==> s.handle == old(s.handle) && s.db == old(s.db)
    {
      db.InsertStatement(stmt);
      assert forall s :: s in db.list <==> s == stmt || s in old(db.list);
      records := records + {stmt};
    }

    // Finalize the handle of a record, if it has one.
    method Release(stmt: Statement)
      requires Valid() && stmt in records
      modifies sqlite`live, sqlite`finalized, stmt`handle
      ensures Valid() && stmt.handle == None
      ensures sqlite.finalized == old(sqlite.finalized) + if old(stmt.handle).Some? then [old(stmt.handle).value] else []
    {
      if stmt.handle.Some? {
        sqlite.Finalize(stmt.handle.value);
        stmt.handle := None;
      }
    }

    // paraql__on_before_finalize.
    method Finalize(stmt: Statement)
      requires Valid() && stmt in records
      modifies sqlite`live, sqlite`finalized, stmt, stmt.db, stmt.prev, stmt.next
      ensures Valid() && Detached(stmt) && records == old(records)
      ensures forall s :: s in records && s != stmt ==> s.handle == old(s.handle)
      ensures sqlite.finalized == old(sqlite.finalized) + if old(stmt.handle).Some? then [old(stmt.handle).value] else []
      ensures if old(stmt.db) == null then db.list == old(db.list) else RemovedFrom(old(db.list), stmt, db.list)
    {
      Release(stmt);
      Unlink(stmt);
    }

    method Unlink(stmt: Statement)
      requires Links() && stmt in records
      modifies stmt, stmt.db, stmt.prev, stmt.next
      ensures Links()
      ensures stmt.db == null && stmt.prev == null && stmt.next == null
      ensures forall s :: s in records ==> s.handle == old(s.handle) && (s != stmt ==> s.db == old(s.db))
      ensures if old(stmt.db) == null then db.list == old(db.list) else RemovedFrom(old(db.list), stmt, db.list)
    {
      ghost var k := 0;
      if stmt.db != null {
        k :| 0 <= k < |db.list| && db.list[k] == stmt;
        db.Neighbours(k);
      }
      ghost var before := db.list;
      RemoveStatement(stmt, k);
      if old(stmt.db) != null {
        WithoutHas(before, k);
      }
    }

    // paraql__on_before_finalize_statement: the record was collected, and is freed.
    method Collect(stmt: Statement)
      requires Valid() && stmt in records
      modifies this`records, sqlite`live, sqlite`finalized, stmt, stmt.db, stmt.prev, stmt.next
      ensures Valid() && Detached(stmt) && records == old(records) - {stmt}
      ensures forall s :: s in records ==> s.handle == old(s.handle)
      ensures sqlite.finalized == old(sqlite.finalized) + if old(stmt.handle).Some? then [old(stmt.handle).value] else []
      ensures if old(stmt.db) == null then db.list == old(db.list) else RemovedFrom(old(db.list), stmt, db.list)
    {
      Finalize(stmt);
      records := records - {stmt};
    }

    // paraql__on_before_finalize_db: the database was collected, and is freed.
    method CollectDb()
      requires Valid() && !freed
      modifies this`freed, sqlite`live, sqlite`finalized, db, db.list
      ensures Valid() && freed && sqlite.live == {}
      ensures forall s :: s in records ==> Detached(s)
      ensures sqlite.finalized == old(sqlite.finalized + Given(Handles(db.list)))
    {
      ListOwns();
      ghost var given := Given(Handles(db.list));
      db.FinalizeStatements(sqlite);
      NoneLive(given, sqlite.finalized, sqlite.issued, sqlite.live);
      freed := true;
    }

    /** A handle that prepare gave was finalized exactly once, or its record still holds it. */
    lemma HandleFate(s: Statement)
      requires Valid() && s in ever && s.given.Some?
      ensures multiset(sqlite.finalized)[s.given.value] == if s in records && s.handle == s.given then 0 else 1
    {
      OnceCounts(sqlite.finalized, sqlite.issued - sqlite.live, s.given.value);
    }

    lemma OwnLinks(stmt: Statement)
      requires Valid() && stmt in records
      ensures stmt.db == null || stmt.db == db
      ensures stmt.prev == null || stmt.prev in records
      ensures stmt.next == null || stmt.next in records
    {
      if stmt.db != null {
        var k :| 0 <= k < |db.list| && db.list[k] == stmt;
        db.Neighbours(k);
      }
    }

    // paraql__on_before_close: the list and its handles stay.
    method Close(fails: bool)
      requires Valid() && !freed
      modifies this`connected
      ensures Valid() && connected == (old(connected) && fails)
    {
      if !fails { connected := false; }
    }

    // Where bind, step and run follow stmt->db; null is "already been finalized", and
    // `reached` is whether stmt->db->handle is not null.
    method Follow(stmt: Statement) returns (to: Db?, reached: bool)
      requires Valid() && stmt in records
      ensures to == null <==> stmt.handle == None
      ensures to != null ==> to == db && !freed && stmt in db.list && reached == connected
    {
      if stmt.handle.Some? { to, reached := stmt.db, connected; } else { to, reached := null, false; }
    }

    /**
     Every record that holds a handle reaches a connection exactly if the database was not
     closed or no handle is open; a close that waits for every finalize keeps that.
     */
    lemma ReachesConnection()
      requires Valid()
      ensures (forall s :: s in records && s.handle.Some? ==> s.db == db && connected) <==> connected || sqlite.live == {}
    {
      if !connected && sqlite.live != {} {
        var h :| h in sqlite.live;
        assert owner[h] in records && owner[h].handle == Some(h);
      }
      forall s | s in records && s.handle.Some? ensures s.db == db && s.handle.value in sqlite.live {
        OwnLinks(s);
      }
    }

    // The statements as the schedule on values has them.
    ghost predicate Shows(s: System, made: seq<Statement>)
      reads this, made
    {
      && s.freed == freed && s.connected == connected
      && AllOf(made, ever) && FatesOf(made) == s.made && OpenAreKept(s.made)
    }

    ghost function FatesOf(made: seq<Statement>): seq<Fate>
      reads this, made
    {
      seq(|made|, i requires 0 <= i < |made| reads this, made => Fate(made[i].handle.Some?, made[i] in records))
    }

    /**
     Any schedule of the callbacks does to the statements what the schedule on values says:
     a handle that is open there is not finalized, and each other one was, exactly once.
     */
    method RunAll(work: seq<Work>) returns (made: seq<Statement>)
      requires Valid() && records == ever == {} && !freed && connected
      modifies this, sqlite, db
      ensures Valid() && Shows(RunSystem(work), made)
      ensures forall k :: 0 <= k < |made| && made[k].given.Some? ==>
        multiset(sqlite.finalized)[made[k].given.value] == if RunSystem(work).made[k].open then 0 else 1
    {
      made := [];
      for i := 0 to |work|
        invariant Valid() && fresh(ever) && Shows(RunSystem(work[..i]), made)
      {
        assert work[..i + 1][..i] == work[..i] && work[..i + 1][i] == work[i];
        made := Serve(work[i], made, RunSystem(work[..i]));
      }
      assert work[..|work|] == work;
      forall k | 0 <= k < |made| && made[k].given.Some?
        ensures multiset(sqlite.finalized)[made[k].given.value] == if RunSystem(work).made[k].open then 0 else 1
      {
        HandleFate(made[k]);
      }
    }

    // One callback; one on a freed record or database is not queued.
    method Serve(w: Work, made: seq<Statement>, ghost s: System) returns (more: seq<Statement>)
      requires Valid() && Shows(s, made)
      modifies this, sqlite, db, records
      ensures Valid() && Shows(NextSystem(s, w), more) && old(ever) <= ever && fresh(ever - old(ever))
      ensures w.DoFinalize? && w.k < |made| && made[w.k] in old(records) ==>
        Detached(made[w.k]) && (made[w.k].given.Some? ==> multiset(sqlite.finalized)[made[w.k].given.value] == 1)
      ensures w.DoCollect? && w.k < |made| && made[w.k] in old(records) ==>
        records == old(records) - {made[w.k]}
        && (made[w.k].given.Some? ==> multiset(sqlite.finalized)[made[w.k].given.value] == 1)
    {
      more := made;
      match w {
        case DoPrepare(outcome) => more := ServePrepare(outcome, made, s);
        case DoFinalize(k) =>
          if k < |made| && made[k] in records { ServeFinalize(k, made, s); }
        case DoCollect(k) =>
          if k < |made| && made[k] in records { ServeCollect(k, made, s); }
        case DoClose(fails) =>
          if !freed { Close(fails); }
        case DoCollectDb =>
          if !freed { CollectDb(); }
        case DoFollow(k) =>
          if k < |made| && made[k] in records { var to, reached := Follow(made[k]); }
      }
    }

    method ServePrepare(outcome: Outcome, made: seq<Statement>, ghost s: System) returns (more: seq<Statement>)
      requires Valid() && Shows(s, made)
      modifies this`records, this`owner, this`ever, sqlite, db, records
      ensures Valid() && Shows(NextSystem(s, DoPrepare(outcome)), more) && old(ever) <= ever && fresh(ever - old(ever))
    {
      more := made;
      if !freed && (connected || outcome == Rejected(false)) {
        if outcome.Rejected? {
          var none := PrepareBeside(outcome, made);
        } else {
          var stmt := PrepareBeside(outcome, made);
          more := made + [stmt];
          assert FatesOf(more) == s.made + [Fate(outcome.Prepared?, true)];
        }
      }
    }

    // The statements made before are as they were.
    method PrepareBeside(outcome: Outcome, ghost made: seq<Statement>) returns (stmt: Statement?)
      requires Valid() && !freed && (connected || outcome == Rejected(false)) && AllOf(made, ever)
      modifies this`records, this`owner, this`ever, sqlite, db, records
      ensures Valid() && FatesOf(made) == old(FatesOf(made)) && (stmt == null <==> outcome.Rejected?)
      ensures ever == old(ever) + (if stmt == null then {} else {stmt})
      ensures stmt != null ==> fresh(stmt) && stmt in records && (stmt.handle.Some? <==> outcome.Prepared?)
    {
      assert db.statements != null ==> db.statements in records;
      ghost var fates := FatesOf(made);
      stmt := Prepare(outcome);
      forall i | 0 <= i < |made| ensures FatesOf(made)[i] == fates[i] {
        assert made[i] in old(ever);
      }
    }

    method ServeFinalize(k: nat, made: seq<Statement>, ghost s: System)
      requires Valid() && Shows(s, made) && k < |made| && made[k] in records
      modifies sqlite, db, records
      ensures Valid() && Shows(NextSystem(s, DoFinalize(k)), made) && Detached(made[k])
      ensures made[k].given.Some? ==> multiset(sqlite.finalized)[made[k].given.value] == 1
    {
      OwnLinks(made[k]);
      ghost var fates := FatesOf(made);
      Finalize(made[k]);
      assert FatesOf(made) == fates[k := Fate(false, true)];
      if made[k].given.Some? { HandleFate(made[k]); }
    }

    method ServeCollect(k: nat, made: seq<Statement>, ghost s: System)
      requires Valid() && Shows(s, made) && k < |made| && made[k] in records
      modifies this`records, sqlite, db, records
      ensures Valid() && Shows(NextSystem(s, DoCollect(k)), made) && records == old(records) - {made[k]}
      ensures made[k].given.Some? ==> multiset(sqlite.finalized)[made[k].given.value] == 1
    {
      OwnLinks(made[k]);
      ghost var fates := FatesOf(made);
      Collect(made[k]);
      assert FatesOf(made) == fates[k := Fate(false, false)];
      if made[k].given.Some? { HandleFate(made[k]); }
    }

    lemma ListOwns()
      requires Valid()
      ensures Ready(Handles(db.list), sqlite.live)
      ensures forall h :: h in sqlite.live ==> h in Given(Handles(db.list))
    {
      forall h | h in sqlite.live ensures h in Given(Handles(db.list)) {
        var i :| 0 <= i < |db.list| && db.list[i] == owner[h];
        GivenHas(Handles(db.list), i);
      }
      DistinctReady(Handles(db.list), sqlite.live);
    }
  }

  ghost predicate RemovedFrom(before: seq<Statement>, s: Statement, after: seq<Statement>) {
    exists k :: 0 <= k < |before| && before[k] == s && after == Without(before, k)
  }
}

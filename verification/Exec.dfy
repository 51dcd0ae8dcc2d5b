/** binding.c, paraql__on_before_exec: the statements of one SQL text, in order. */
module Exec {
  import Statements
  import Parameters

  // sqlite3_prepare_v2 on the rest of a text: how much of it one statement takes.
  datatype Prepared = Refused(status: int, leavesHandle: bool) | Blank(used: nat) | Ready(used: nat)

  // Stepping a statement to its end.
  datatype Stepped<+V> = Stepped(view: V, done: bool, status: int)

  datatype Engine<!V(!new)> = Engine(prepare: (V, string) -> Prepared, step: (V, string) -> Stepped<V>) {
    // Preparing a text that is not empty uses some of it.
    ghost predicate Lawful() {
      forall view, text {:trigger prepare(view, text)} :: text != "" ==>
        match prepare(view, text)
        case Refused(_, _) => true
        case Blank(n) => 1 <= n <= |text|
        case Ready(n) => 1 <= n <= |text|
    }
  }

  // The cursor and the view at the head of the loop.
  datatype Turn<+V> = Turn(rest: string, view: V)

  datatype End<+V> = Completed(view: V) | Failed(view: V, status: int)

  ghost predicate Follows<V(!new)>(e: Engine<V>, a: Turn<V>, b: Turn<V>)
    requires e.Lawful()
  {
    a.rest != "" && match e.prepare(a.view, a.rest)
    case Refused(_, _) => false
    case Blank(n) => b == Turn(a.rest[n..], a.view)
    case Ready(n) => var r := e.step(a.view, a.rest[..n]); r.done && b == Turn(a.rest[n..], r.view)
  }

  ghost predicate Stops<V(!new)>(e: Engine<V>, a: Turn<V>, end: End<V>)
    requires e.Lawful()
  {
    if a.rest == "" then end == Completed(a.view)
    else
      match e.prepare(a.view, a.rest)
      case Refused(status, _) => end == Failed(a.view, status)
      case Blank(_) => false
      case Ready(n) => var r := e.step(a.view, a.rest[..n]); !r.done && end == Failed(r.view, r.status)
  }

  /** The statements run one after another: each turn but the last succeeds, and nothing follows the last. */
  ghost predicate IsRun<V(!new)>(e: Engine<V>, turns: seq<Turn<V>>, end: End<V>)
    requires e.Lawful()
  {
    && turns != [] && Stops(e, turns[|turns| - 1], end)
    && forall i, j :: 0 <= i < j < |turns| && j == i + 1 ==> Follows(e, turns[i], turns[j])
  }

  /** The same text on the same view always runs the same statements to the same end. */
  lemma {:induction false} RunIsUnique<V(!new)>(e: Engine<V>, a: seq<Turn<V>>, endA: End<V>, b: seq<Turn<V>>, endB: End<V>)
    requires e.Lawful() && IsRun(e, a, endA) && IsRun(e, b, endB) && a[0] == b[0]
    ensures a == b && endA == endB
  {
    assert |a| > 1 ==> Follows(e, a[0], a[1]);
    assert |b| > 1 ==> Follows(e, b[0], b[1]);
    if |a| > 1 && |b| > 1 {
      RunIsUnique(e, a[1..], endA, b[1..], endB);
      assert a == [a[0]] + a[1..] && b == [b[0]] + b[1..];
    }
  }

  // ----- what a script does, from prepare and step -----

  ghost predicate Ends<V(!new)>(e: Engine<V>, view: V, text: string, end: End<V>)
    requires e.Lawful()
  {
    exists turns :: IsRun(e, turns, end) && turns[0] == Turn(text, view)
  }

  // A run is its first turn and the run of the rest.
  lemma RunCons<V(!new)>(e: Engine<V>, a: Turn<V>, rest: seq<Turn<V>>, end: End<V>)
    requires e.Lawful() && IsRun(e, rest, end) && Follows(e, a, rest[0])
    ensures IsRun(e, [a] + rest, end)
  {
    var turns := [a] + rest;
    forall i, j | 0 <= i < j < |turns| && j == i + 1 ensures Follows(e, turns[i], turns[j]) {
      assert i > 0 ==> Follows(e, rest[i - 1], rest[i]);
    }
  }

  lemma EndsAsNext<V(!new)>(e: Engine<V>, view: V, text: string, next: Turn<V>, end: End<V>)
    requires e.Lawful() && Follows(e, Turn(text, view), next)
    requires forall b :: Follows(e, Turn(text, view), b) ==> b == next
    requires forall x :: !Stops(e, Turn(text, view), x)
    ensures Ends(e, view, text, end) <==> Ends(e, next.view, next.rest, end)
  {
    if Ends(e, view, text, end) {
      var turns :| IsRun(e, turns, end) && turns[0] == Turn(text, view);
      assert |turns| > 1 && Follows(e, turns[0], turns[1]);
      assert IsRun(e, turns[1..], end) && turns[1..][0] == next;
    }
    if Ends(e, next.view, next.rest, end) {
      var rest :| IsRun(e, rest, end) && rest[0] == Turn(next.rest, next.view);
      RunCons(e, Turn(text, view), rest, end);
    }
  }

  lemma EndsHere<V(!new)>(e: Engine<V>, view: V, text: string, here: End<V>, end: End<V>)
    requires e.Lawful() && Stops(e, Turn(text, view), here)
    requires forall b :: !Follows(e, Turn(text, view), b)
    requires forall x :: Stops(e, Turn(text, view), x) ==> x == here
    ensures Ends(e, view, text, end) <==> end == here
  {
    assert IsRun(e, [Turn(text, view)], here);
    if Ends(e, view, text, end) {
      var turns :| IsRun(e, turns, end) && turns[0] == Turn(text, view);
      FirstStep(e, turns, end);
    }
  }

  lemma FirstStep<V(!new)>(e: Engine<V>, turns: seq<Turn<V>>, end: End<V>)
    requires e.Lawful() && IsRun(e, turns, end)
    ensures |turns| > 1 ==> Follows(e, turns[0], turns[1])
  {
  }

  /**
   A script ends where its text does; an error of prepare ends it on the view it found; an
   empty statement is skipped; a statement that is done leaves its view to the text after
   it; and one that fails ends the script on the view that it left.
   */
  lemma EndsExactly<V(!new)>(e: Engine<V>, view: V, text: string, end: End<V>)
    requires e.Lawful()
    ensures Ends(e, view, text, end) <==>
      if text == "" then end == Completed(view)
      else match e.prepare(view, text)
        case Refused(status, _) => end == Failed(view, status)
        case Blank(n) => Ends(e, view, text[n..], end)
        case Ready(n) =>
          var r := e.step(view, text[..n]);
          if r.done then Ends(e, r.view, text[n..], end) else end == Failed(r.view, r.status)
  {
    if text == "" {
      EndsHere(e, view, text, Completed(view), end);
    } else {
      match e.prepare(view, text) {
        case Refused(status, _) => EndsHere(e, view, text, Failed(view, status), end);
        case Blank(n) => EndsAsNext(e, view, text, Turn(text[n..], view), end);
        case Ready(n) =>
          var r := e.step(view, text[..n]);
          if r.done {
            EndsAsNext(e, view, text, Turn(text[n..], r.view), end);
          } else {
            EndsHere(e, view, text, Failed(r.view, r.status), end);
          }
      }
    }
  }

  /** One statement that takes the whole text and is done: its effect is what is left. */
  lemma OneStatement<V(!new)>(e: Engine<V>, view: V, text: string, end: End<V>)
    requires e.Lawful() && text != "" && e.prepare(view, text) == Ready(|text|) && e.step(view, text).done
    ensures Ends(e, view, text, end) <==> end == Completed(e.step(view, text).view)
  {
    assert text[..|text|] == text && text[|text|..] == "";
    EndsExactly(e, view, text, end);
    EndsExactly(e, e.step(view, text).view, "", end);
  }

  // ----- the handles -----

  // Whether the head of the loop gets a handle: for a statement, and for some errors.
  predicate Takes<V(!new)>(e: Engine<V>, a: Turn<V>) {
    a.rest != "" && match e.prepare(a.view, a.rest)
    case Refused(_, leavesHandle) => leavesHandle
    case Blank(_) => false
    case Ready(_) => true
  }

  function Taken<V(!new)>(e: Engine<V>, turns: seq<Turn<V>>): nat {
    if turns == [] then 0 else Taken(e, turns[..|turns| - 1]) + if Takes(e, turns[|turns| - 1]) then 1 else 0
  }

  lemma TakenConcat<V(!new)>(e: Engine<V>, turns: seq<Turn<V>>, a: Turn<V>)
    ensures Taken(e, turns + [a]) == Taken(e, turns) + if Takes(e, a) then 1 else 0
  {
    assert (turns + [a])[..|turns|] == turns;
  }

  // The turns at which prepare gives a handle.
  function HandleTurns<V(!new)>(e: Engine<V>, turns: seq<Turn<V>>): set<nat> {
    set i: nat | i < |turns| && turns[i].rest != "" &&
      (e.prepare(turns[i].view, turns[i].rest).Ready? ||
       (e.prepare(turns[i].view, turns[i].rest).Refused? && e.prepare(turns[i].view, turns[i].rest).leavesHandle))
  }

  lemma {:induction false} TakenIs<V(!new)>(e: Engine<V>, turns: seq<Turn<V>>)
    ensures Taken(e, turns) == |HandleTurns(e, turns)|
  {
    if turns != [] {
      var n := |turns| - 1;
      TakenIs(e, turns[..n]);
      assert HandleTurns(e, turns) == HandleTurns(e, turns[..n]) + if Takes(e, turns[n]) then {n} else {};
    }
  }

  // All handles given out since `before` are finalized again, n of them.
  ghost predicate Returned(sqlite: Statements.Sqlite, before: set<nat>, live: set<nat>, n: nat)
    reads sqlite
  {
    sqlite.Valid() && before <= sqlite.issued && |sqlite.issued - before| == n && sqlite.live == live
  }

  lemma AllReturned<V(!new)>(e: Engine<V>, turns: seq<Turn<V>>, sqlite: Statements.Sqlite, before: set<nat>, live: set<nat>)
    requires Returned(sqlite, before, live, Taken(e, turns)) && live <= before
    ensures Statements.AllClosed(sqlite, before, |HandleTurns(e, turns)|)
  {
    TakenIs(e, turns);
    Statements.ClosedSince(sqlite, before, live, Taken(e, turns));
  }

  lemma OneMore(before: set<nat>, issued: set<nat>, h: nat)
    requires before <= issued && h !in issued
    ensures |issued + {h} - before| == |issued - before| + 1
  {
    assert issued + {h} - before == (issued - before) + {h};
  }

  // Stepping asks for an open handle.
  method StepToEnd<V(!new)>(e: Engine<V>, sqlite: Statements.Sqlite, h: nat, view: V, text: string) returns (r: Stepped<V>)
    requires h in sqlite.live
    ensures r == e.step(view, text)
  {
    r := e.step(view, text);
  }

  // One statement: its handle is open while it is stepped, and finalized however that ends.
  method RunStatement<V(!new)>(e: Engine<V>, view: V, text: string, sqlite: Statements.Sqlite,
                               ghost before: set<nat>, ghost live: set<nat>, ghost n: nat)
    returns (r: Stepped<V>)
    requires Returned(sqlite, before, live, n) && live <= before
    modifies sqlite
    ensures r == e.step(view, text) && Returned(sqlite, before, live, n + 1)
  {
    ghost var issued := sqlite.issued;
    var h := sqlite.Prepare();
    OneMore(before, issued, h);
    r := StepToEnd(e, sqlite, h, view, text);
    sqlite.Finalize(h);
  }

  // An error of prepare: a handle that came with it is finalized.
  method DropHandle(leavesHandle: bool, sqlite: Statements.Sqlite, ghost before: set<nat>, ghost live: set<nat>, ghost n: nat)
    requires Returned(sqlite, before, live, n) && live <= before
    modifies sqlite
    ensures Returned(sqlite, before, live, n + if leavesHandle then 1 else 0)
  {
    if leavesHandle {
      OneMore(before, sqlite.issued, sqlite.next);
      var h := sqlite.Prepare();
      sqlite.Finalize(h);
    }
  }

  /**
   The loop: it ends, and runs the statements up to and including the first that fails.
   However it ends, sqlite gave one handle for each statement and for each error that
   leaves one, each of them is finalized exactly once, and the copy of the text is freed.
   */
  method OnBeforeExec<V(!new)>(e: Engine<V>, view: V, sql: string, text: nat, heap: Parameters.Heap, sqlite: Statements.Sqlite)
    returns (end: End<V>, ghost turns: seq<Turn<V>>)
    requires e.Lawful() && heap.Valid() && text in heap.live && sqlite.Valid()
    modifies heap, sqlite
    ensures IsRun(e, turns, end) && turns[0] == Turn(sql, view) && Ends(e, view, sql, end)
    ensures Statements.AllClosed(sqlite, old(sqlite.issued), |HandleTurns(e, turns)|)
    ensures heap.Valid() && heap.live == old(heap.live) - {text}
    ensures sqlite.Valid() && sqlite.live == old(sqlite.live)
  {
    ghost var before, live := sqlite.issued, sqlite.live;
    ghost var done: seq<Turn<V>> := [];
    var cursor, current := sql, view;
    turns := [Turn(sql, view)];
    while cursor != ""
      invariant turns == done + [Turn(cursor, current)] && turns[0] == Turn(sql, view)
      invariant forall i, j :: 0 <= i < j < |turns| && j == i + 1 ==> Follows(e, turns[i], turns[j])
      invariant Returned(sqlite, before, live, Taken(e, done))
      invariant heap.Valid() && heap.live == old(heap.live)
      decreases |cursor|
    {
      TakenConcat(e, done, Turn(cursor, current));
      done := turns;
      match e.prepare(current, cursor) {
        case Refused(status, leavesHandle) =>
          DropHandle(leavesHandle, sqlite, before, live, Taken(e, turns[..|turns| - 1]));
          AllReturned(e, turns, sqlite, before, live);
          heap.Free(text);
          return Failed(current, status), turns;
        case Blank(n) =>
          cursor := cursor[n..];
        case Ready(n) =>
          var stepped := RunStatement(e, current, cursor[..n], sqlite, before, live, Taken(e, turns[..|turns| - 1]));
          if !stepped.done {
            AllReturned(e, turns, sqlite, before, live);
            heap.Free(text);
            return Failed(stepped.view, stepped.status), turns;
          }
          cursor, current := cursor[n..], stepped.view;
      }
      turns := turns + [Turn(cursor, current)];
    }
    TakenConcat(e, done, Turn(cursor, current));
    AllReturned(e, turns, sqlite, before, live);
    heap.Free(text);
    return Completed(current), turns;
  }
}

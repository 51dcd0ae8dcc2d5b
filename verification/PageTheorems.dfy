/** What the page store guarantees across calls: proofs about `Pages`. */
module PageTheorems {
  import opened Common
  import opened Pages

  // ----- flushing a batch, key by key -----

  // The value that the last operation on k leaves, starting from base.
  function Resolve<V>(ops: seq<BatchOp<V>>, k: PageKey, base: Option<V>): Option<V> {
    if ops == [] then base
    else if ops[|ops| - 1].key == k then ops[|ops| - 1].Result()
    else Resolve(ops[..|ops| - 1], k, base)
  }

  lemma {:induction false} FlushedResolves<V>(m: map<PageKey, V>, ops: seq<BatchOp<V>>, k: PageKey)
    ensures Lookup(Flushed(m, ops), k) == Resolve(ops, k, Lookup(m, k))
  {
    if ops != [] {
      FlushedResolves(m, ops[..|ops| - 1], k);
    }
  }

  lemma {:induction false} ResolveConcat<V>(a: seq<BatchOp<V>>, b: seq<BatchOp<V>>, k: PageKey, base: Option<V>)
    ensures Resolve(a + b, k, base) == Resolve(b, k, Resolve(a, k, base))
  {
    if b == [] {
      assert a + b == a;
    } else {
      assert (a + b)[..|a + b| - 1] == a + b[..|b| - 1];
      ResolveConcat(a, b[..|b| - 1], k, base);
    }
  }

  lemma {:induction false} ResolveNone<V>(ops: seq<BatchOp<V>>, k: PageKey, base: Option<V>)
    requires forall j :: 0 <= j < |ops| ==> ops[j].key != k
    ensures Resolve(ops, k, base) == base
  {
    if ops != [] {
      ResolveNone(ops[..|ops| - 1], k, base);
    }
  }

  // All the operation lists built by the page loops have consecutive keys.
  lemma {:induction false} ResolveSpan<V>(ops: seq<BatchOp<V>>, n: Name, first: nat, k: PageKey, base: Option<V>)
    requires forall j :: 0 <= j < |ops| ==> ops[j].key == (n, first + j)
    ensures Resolve(ops, k, base)
         == if k.0 == n && first <= k.1 < first + |ops| then ops[k.1 - first].Result() else base
  {
    if ops != [] {
      ResolveSpan(ops[..|ops| - 1], n, first, k, base);
    }
  }

  lemma WriteResolves(pages: PageMap, n: Name, w: Write, k: PageKey, base: Option<Page>)
    ensures Resolve(WriteOps(pages, n, w), k, base)
         == if k.0 == n && w.Touches(k.1) then Some(Overlay(PageOr0(pages, n, k.1), k.1, w)) else base
  {
    ResolveSpan(WriteOps(pages, n, w), n, w.First(), k, base);
  }

  lemma CoversTouches(w: Write, pos: nat)
    requires w.Covers(pos)
    ensures w.Touches(pos / PAGE_SIZE)
  {
  }

  lemma AppendTwice(d: Disk, n: Name, a: seq<BatchOp<Page>>, b: seq<BatchOp<Page>>)
    ensures AppendOps(AppendOps(d, n, a), n, b) == AppendOps(d, n, a + b)
  {
    if a == [] || b == [] {
      assert a + b == if a == [] then b else a;
    } else {
      assert d.PendingOf(n) + (a + b) == d.PendingOf(n) + a + b;
    }
  }

  lemma NothingToDelete(d: Disk, n: Name)
    ensures DeleteAll(d, n) == if d.Last(n) < 0 then d else DeleteTo(d, n, d.Last(n) + 1)
  {
  }

  // One turn of the page loops of _xDelete and _xTruncate.
  lemma NextDelete(d: Disk, n: Name, i: nat)
    ensures AppendOps(AppendOps(d, n, DeleteOps(n, i)), n, [TryDelete((n, i))]) == AppendOps(d, n, DeleteOps(n, i + 1))
  {
    AppendTwice(d, n, DeleteOps(n, i), [TryDelete((n, i))]);
    assert DeleteOps(n, i) + [TryDelete((n, i))] == DeleteOps(n, i + 1);
  }

  lemma NextZero(d: Disk, n: Name, from: nat, i: nat)
    requires from <= i
    ensures AppendOps(AppendOps(d, n, ZeroOps(n, from, i)), n, [TryPut((n, i), ZeroPage())])
         == AppendOps(d, n, ZeroOps(n, from, i + 1))
  {
    AppendTwice(d, n, ZeroOps(n, from, i), [TryPut((n, i), ZeroPage())]);
    assert ZeroOps(n, from, i) + [TryPut((n, i), ZeroPage())] == ZeroOps(n, from, i + 1);
  }

  // One turn of the page loop of _xWrite.
  lemma NextWrite(d: Disk, n: Name, w: Write, i: nat)
    requires w.Touches(i)
    ensures AppendOps(AppendOps(d, n, WriteOps(d.committed, n, w)[..i - w.First()]), n,
                      [TryPut((n, i), Overlay(PageOr0(d.committed, n, i), i, w))])
         == AppendOps(d, n, WriteOps(d.committed, n, w)[..i + 1 - w.First()])
  {
    var ops := WriteOps(d.committed, n, w);
    var op := TryPut((n, i), Overlay(PageOr0(d.committed, n, i), i, w));
    AppendTwice(d, n, ops[..i - w.First()], [op]);
    assert ops[i - w.First()] == op;
    assert ops[..i - w.First()] + [op] == ops[..i + 1 - w.First()];
  }

  // ----- runs of VFS callbacks -----

  datatype Callback =
    | DoWrite(n: Name, w: Write)
    | DoSync(n: Name)
    | DoDelete(n: Name)
    | DoTruncate(n: Name, size: nat)

  ghost function Step(d: Disk, c: Callback): Disk {
    match c
    case DoWrite(n, w) => WriteSpec(d, n, w)
    case DoSync(n) => SyncSpec(d, n).disk
    case DoDelete(n) => DeleteSpec(d, n).disk
    case DoTruncate(n, size) => TruncateSpec(d, n, size).disk
  }

  ghost function Run(d: Disk, calls: seq<Callback>): Disk {
    if calls == [] then d else Step(Run(d, calls[..|calls| - 1]), calls[|calls| - 1])
  }

  ghost predicate SameFile(d: Disk, e: Disk, n: Name) {
    && Lookup(d.pending, n) == Lookup(e.pending, n)
    && forall i :: Lookup(d.committed, (n, i)) == Lookup(e.committed, (n, i))
  }

  lemma AppendKeepsKeys(d: Disk, n: Name, ops: seq<BatchOp<Page>>)
    requires d.WellKeyed() && forall j :: 0 <= j < |ops| ==> ops[j].key.0 == n
    ensures AppendOps(d, n, ops).WellKeyed()
  {
  }

  lemma SyncKeepsOthers(d: Disk, n: Name, m: Name)
    requires d.WellKeyed() && n != m
    ensures SameFile(d, SyncSpec(d, n).disk, m)
  {
    if n in d.pending {
      forall i: nat
        ensures Lookup(d.committed, (m, i)) == Lookup(SyncSpec(d, n).disk.committed, (m, i))
      {
        FlushedResolves(d.committed, d.pending[n], (m, i));
        ResolveNone(d.pending[n], (m, i), Lookup(d.committed, (m, i)));
      }
    }
  }

  lemma DeleteKeepsOthers(d: Disk, n: Name, m: Name)
    requires d.WellKeyed()
    ensures DeleteSpec(d, n).disk.WellKeyed()
    ensures n != m ==> SameFile(d, DeleteSpec(d, n).disk, m)
  {
    var ops := DeleteOps(n, d.Last(n) + 1);
    AppendKeepsKeys(d, n, ops);
    if n != m { SyncKeepsOthers(AppendOps(d, n, ops), n, m); }
  }

  lemma StepKeepsOthers(d: Disk, c: Callback, m: Name)
    requires d.WellKeyed()
    ensures Step(d, c).WellKeyed()
    ensures c.n != m ==> SameFile(d, Step(d, c), m)
  {
    var n := c.n;
    match c {
      case DoWrite(_, w) => AppendKeepsKeys(d, n, WriteOps(d.committed, n, w));
      case DoSync(_) => if n != m { SyncKeepsOthers(d, n, m); }
      case DoDelete(_) => DeleteKeepsOthers(d, n, m);
      case DoTruncate(_, size) =>
        if size > d.Size(n) {
          AppendKeepsKeys(d, n, ZeroOps(n, d.Last(n) + 1, (size - 1) / PAGE_SIZE + 1));
        }
    }
  }

  /** Whatever is done to other files, a file keeps its pages and its batch. */
  lemma {:induction false} RunKeepsOthers(d: Disk, calls: seq<Callback>, m: Name)
    requires d.WellKeyed()
    ensures Run(d, calls).WellKeyed()
    ensures (forall c :: c in calls ==> c.n != m) ==> SameFile(d, Run(d, calls), m)
  {
    if calls != [] {
      RunKeepsOthers(d, calls[..|calls| - 1], m);
      StepKeepsOthers(Run(d, calls[..|calls| - 1]), calls[|calls| - 1], m);
    }
  }

  // ----- runs of _xWrite -----

  predicate OnlyWrites(calls: seq<Callback>) {
    forall c :: c in calls ==> c.DoWrite?
  }

  function WritesTo(calls: seq<Callback>, n: Name): seq<Write> {
    if calls == [] then []
    else
      var c := calls[|calls| - 1];
      WritesTo(calls[..|calls| - 1], n) + if c.n == n && c.DoWrite? then [c.w] else []
  }

  function OpsOf(pages: PageMap, n: Name, ws: seq<Write>): seq<BatchOp<Page>> {
    if ws == [] then [] else OpsOf(pages, n, ws[..|ws| - 1]) + WriteOps(pages, n, ws[|ws| - 1])
  }

  lemma WriteAppends(d: Disk, n: Name, ops: seq<BatchOp<Page>>, m: Name)
    ensures AppendOps(d, n, ops).committed == d.committed
    ensures AppendOps(d, n, ops).PendingOf(m) == d.PendingOf(m) + if n == m then ops else []
  {
  }

  lemma OpsOfSnoc(pages: PageMap, n: Name, ws: seq<Write>, w: Write)
    ensures OpsOf(pages, n, ws + [w]) == OpsOf(pages, n, ws) + WriteOps(pages, n, w)
  {
    assert (ws + [w])[..|ws + [w]| - 1] == ws;
  }

  lemma ConcatAssoc<T>(a: seq<T>, b: seq<T>, c: seq<T>)
    ensures a + (b + c) == (a + b) + c
  {
  }

  lemma {:induction false} WritesAccumulate(d: Disk, calls: seq<Callback>, n: Name)
    requires OnlyWrites(calls)
    ensures Run(d, calls).committed == d.committed
    ensures Run(d, calls).PendingOf(n) == d.PendingOf(n) + OpsOf(d.committed, n, WritesTo(calls, n))
  {
    if calls != [] {
      var before, c := calls[..|calls| - 1], calls[|calls| - 1];
      assert c in calls && forall b :: b in before ==> b in calls;
      WritesAccumulate(d, before, n);
      var ops := WriteOps(d.committed, c.n, c.w);
      WriteAppends(Run(d, before), c.n, ops, n);
      if c.n == n {
        OpsOfSnoc(d.committed, n, WritesTo(before, n), c.w);
        ConcatAssoc(d.PendingOf(n), OpsOf(d.committed, n, WritesTo(before, n)), ops);
      } else {
        assert WritesTo(calls, n) == WritesTo(before, n);
      }
    }
  }

  // Which write was the last to touch page i; -1 if none did.
  function LastToucher(ws: seq<Write>, i: nat): (t: int)
    ensures -1 <= t < |ws|
    ensures t >= 0 ==> ws[t].Touches(i)
    ensures forall j :: t < j < |ws| ==> !ws[j].Touches(i)
  {
    if ws == [] then -1
    else if ws[|ws| - 1].Touches(i) then |ws| - 1
    else LastToucher(ws[..|ws| - 1], i)
  }

  lemma {:induction false} OpsOfResolves(pages: PageMap, n: Name, ws: seq<Write>, i: nat, base: Option<Page>)
    ensures Resolve(OpsOf(pages, n, ws), (n, i), base)
         == var t := LastToucher(ws, i);
            if t < 0 then base else Some(Overlay(PageOr0(pages, n, i), i, ws[t]))
  {
    if ws != [] {
      var before, w := ws[..|ws| - 1], ws[|ws| - 1];
      OpsOfResolves(pages, n, before, i, base);
      ResolveConcat(OpsOf(pages, n, before), WriteOps(pages, n, w), (n, i), base);
      WriteResolves(pages, n, w, (n, i), Resolve(OpsOf(pages, n, before), (n, i), base));
    }
  }

  /**
   After any run of writes to any files, _xSync(n) leaves in each page of n the
   page committed before the run, overlaid with the slice of the last write that
   touched it; a page no write touched is whatever was already pending for it.
   */
  lemma LastWriteWins(d: Disk, calls: seq<Callback>, n: Name, i: nat)
    requires d.WellKeyed() && OnlyWrites(calls)
    requires SyncSpec(Run(d, calls), n).ok
    ensures Lookup(SyncSpec(Run(d, calls), n).disk.committed, (n, i))
         == var ws := WritesTo(calls, n);
            var t := LastToucher(ws, i);
            if t < 0 then Lookup(Flushed(d.committed, d.PendingOf(n)), (n, i))
            else Some(Overlay(PageOr0(d.committed, n, i), i, ws[t]))
  {
    var ws, base := WritesTo(calls, n), Lookup(d.committed, (n, i));
    WritesAccumulate(d, calls, n);
    FlushedResolves(d.committed, Run(d, calls).pending[n], (n, i));
    FlushedResolves(d.committed, d.PendingOf(n), (n, i));
    ResolveConcat(d.PendingOf(n), OpsOf(d.committed, n, ws), (n, i), base);
    OpsOfResolves(d.committed, n, ws, i, Resolve(d.PendingOf(n), (n, i), base));
  }

  // ----- against a flat byte file -----

  // The byte at pos when every write is applied to a plain byte file, in order.
  function FlatByte(pages: PageMap, n: Name, ws: seq<Write>, pos: nat): Byte {
    if ws == [] then ByteAt(pages, n, pos)
    else
      var w := ws[|ws| - 1];
      if w.Covers(pos) then w.data[pos - w.offset] else FlatByte(pages, n, ws[..|ws| - 1], pos)
  }

  ghost predicate IsFlat(pages: PageMap, n: Name, ws: seq<Write>) {
    forall pos: nat ::
      ByteAt(Flushed(pages, OpsOf(pages, n, ws)), n, pos) == FlatByte(pages, n, ws, pos)
  }

  // The ranges of a run of writes: offset and length, without the bytes.
  type Shape = seq<(nat, nat)>

  predicate HasShape(ws: seq<Write>, shape: Shape) {
    |ws| == |shape| && forall j :: 0 <= j < |ws| ==> ws[j].offset == shape[j].0 && |ws[j].data| == shape[j].1
  }

  function Blank(shape: Shape, b: Byte): (ws: seq<Write>)
    ensures HasShape(ws, shape)
    ensures forall j, k :: 0 <= j < |ws| && 0 <= k < |ws[j].data| ==> ws[j].data[k] == b
  {
    seq(|shape|, j requires 0 <= j < |shape| => Write(shape[j].0, seq(shape[j].1, _ => b)))
  }

  /** Bytes written earlier to a page are rewritten by the last write touching it. */
  ghost predicate Superseded(shape: Shape) {
    var ws := Blank(shape, 0);
    forall j, pos: nat :: 0 <= j < |ws| && ws[j].Covers(pos)
      ==> ws[LastToucher(ws, pos / PAGE_SIZE)].Covers(pos)
  }

  lemma {:induction false} SameTouchers(a: seq<Write>, b: seq<Write>, shape: Shape, i: nat)
    requires HasShape(a, shape) && HasShape(b, shape)
    ensures LastToucher(a, i) == LastToucher(b, i)
  {
    if a != [] {
      var short := shape[..|shape| - 1];
      SameTouchers(a[..|a| - 1], b[..|b| - 1], short, i);
    }
  }

  lemma OverlayByte(base: Page, w: Write, pos: nat)
    ensures Overlay(base, pos / PAGE_SIZE, w)[pos % PAGE_SIZE]
         == if w.Covers(pos) then w.data[pos - w.offset] else base[pos % PAGE_SIZE]
  {
    var i, k := pos / PAGE_SIZE, pos % PAGE_SIZE;
    assert i * PAGE_SIZE + k == pos;
  }

  lemma SyncedByte(pages: PageMap, n: Name, ws: seq<Write>, pos: nat)
    ensures ByteAt(Flushed(pages, OpsOf(pages, n, ws)), n, pos)
         == var t := LastToucher(ws, pos / PAGE_SIZE);
            if t >= 0 && ws[t].Covers(pos) then ws[t].data[pos - ws[t].offset] else ByteAt(pages, n, pos)
  {
    var i := pos / PAGE_SIZE;
    FlushedResolves(pages, OpsOf(pages, n, ws), (n, i));
    OpsOfResolves(pages, n, ws, i, Lookup(pages, (n, i)));
    var t := LastToucher(ws, i);
    if t >= 0 {
      OverlayByte(PageOr0(pages, n, i), ws[t], pos);
    }
  }

  // The last write covering pos decides the flat byte.
  lemma {:induction false} FlatByteIs(pages: PageMap, n: Name, ws: seq<Write>, t: int, pos: nat)
    requires -1 <= t < |ws|
    requires forall j :: t < j < |ws| ==> !ws[j].Covers(pos)
    requires t >= 0 ==> ws[t].Covers(pos)
    ensures FlatByte(pages, n, ws, pos) == if t >= 0 then ws[t].data[pos - ws[t].offset] else ByteAt(pages, n, pos)
  {
    if t < |ws| - 1 {
      FlatByteIs(pages, n, ws[..|ws| - 1], t, pos);
    }
  }

  lemma SupersededIsFlat(pages: PageMap, n: Name, ws: seq<Write>, shape: Shape)
    requires HasShape(ws, shape) && Superseded(shape)
    ensures IsFlat(pages, n, ws)
  {
    forall pos: nat
      ensures ByteAt(Flushed(pages, OpsOf(pages, n, ws)), n, pos) == FlatByte(pages, n, ws, pos)
    {
      var i := pos / PAGE_SIZE;
      var t := LastToucher(ws, i);
      SameTouchers(ws, Blank(shape, 0), shape, i);
      SyncedByte(pages, n, ws, pos);
      forall j | t < j < |ws| ensures !ws[j].Covers(pos) {
        if ws[j].Covers(pos) { CoversTouches(ws[j], pos); }
      }
      if t >= 0 && !ws[t].Covers(pos) {
        forall j | 0 <= j < |ws| ensures !ws[j].Covers(pos) {
          assert Blank(shape, 0)[j].Covers(pos) == ws[j].Covers(pos);
        }
        FlatByteIs(pages, n, ws, -1, pos);
      } else {
        FlatByteIs(pages, n, ws, t, pos);
      }
    }
  }

  lemma {:induction false} CoveredOnes(pages: PageMap, n: Name, ws: seq<Write>, j: nat, pos: nat)
    requires j < |ws| && ws[j].Covers(pos)
    requires forall j, k :: 0 <= j < |ws| && 0 <= k < |ws[j].data| ==> ws[j].data[k] == 1
    ensures FlatByte(pages, n, ws, pos) == 1
  {
    if !ws[|ws| - 1].Covers(pos) {
      CoveredOnes(pages, n, ws[..|ws| - 1], j, pos);
    }
  }

  lemma NotSupersededIsNotFlat(n: Name, shape: Shape)
    requires !Superseded(shape)
    ensures !IsFlat(map[], n, Blank(shape, 1))
  {
    var zeros, ones := Blank(shape, 0), Blank(shape, 1);
    var j, pos: nat :| 0 <= j < |zeros| && zeros[j].Covers(pos)
      && !zeros[LastToucher(zeros, pos / PAGE_SIZE)].Covers(pos);
    var t := LastToucher(zeros, pos / PAGE_SIZE);
    SameTouchers(zeros, ones, shape, pos / PAGE_SIZE);
    SyncedByte(map[], n, ones, pos);
    assert ones[j].Covers(pos);
    assert t >= 0 ==> !ones[t].Covers(pos);
    CoveredOnes(map[], n, ones, j, pos);
  }

  /**
   The exact condition for refining a flat file: writes of these ranges to a clean
   file, then a sync, give the flat file for all old contents and all data if and
   only if the last write touching each page rewrites all that earlier ones wrote there.
   */
  lemma FlatExactlyWhenSuperseded(n: Name, shape: Shape)
    ensures Superseded(shape) <==> forall pages, ws :: HasShape(ws, shape) ==> IsFlat(pages, n, ws)
  {
    if Superseded(shape) {
      forall pages, ws | HasShape(ws, shape) ensures IsFlat(pages, n, ws) {
        SupersededIsFlat(pages, n, ws, shape);
      }
    } else {
      NotSupersededIsNotFlat(n, shape);
      assert HasShape(Blank(shape, 1), shape);
    }
  }

  // The check a caller can make before each write: it fills the page, or no earlier one touched it.
  ghost predicate NoPartialRewrite(ws: seq<Write>) {
    forall a, b, i: nat {:trigger ws[a].Touches(i), ws[b].Touches(i)} ::
      0 <= a < b < |ws| && ws[a].Touches(i) && ws[b].Touches(i) ==> ws[b].Fills(i)
  }

  lemma FillsCovers(w: Write, pos: nat)
    requires w.Fills(pos / PAGE_SIZE)
    ensures w.Covers(pos)
  {
  }

  lemma NoPartialRewriteIsSuperseded(shape: Shape)
    requires NoPartialRewrite(Blank(shape, 0))
    ensures Superseded(shape)
  {
    var ws := Blank(shape, 0);
    forall j, pos: nat | 0 <= j < |ws| && ws[j].Covers(pos)
      ensures ws[LastToucher(ws, pos / PAGE_SIZE)].Covers(pos)
    {
      CoversTouches(ws[j], pos);
      var t := LastToucher(ws, pos / PAGE_SIZE);
      if j < t {
        assert ws[t].Touches(pos / PAGE_SIZE);
        FillsCovers(ws[t], pos);
      }
    }
  }

  /** Runs of whole aligned pages always refine the flat file. */
  lemma AlignedIsFlat(pages: PageMap, n: Name, ws: seq<Write>, shape: Shape)
    requires HasShape(ws, shape)
    requires forall j :: 0 <= j < |shape| ==> shape[j].0 % PAGE_SIZE == 0 && shape[j].1 % PAGE_SIZE == 0
    ensures IsFlat(pages, n, ws)
  {
    var zs := Blank(shape, 0);
    forall a, b, i: nat | 0 <= a < b < |zs| && zs[a].Touches(i) && zs[b].Touches(i)
      ensures zs[b].Fills(i)
    {
      assert zs[b].offset % PAGE_SIZE == 0 && |zs[b].data| % PAGE_SIZE == 0;
    }
    NoPartialRewriteIsSuperseded(shape);
    SupersededIsFlat(pages, n, ws, shape);
  }

  function ShapeOf(ws: seq<Write>): (shape: Shape)
    ensures HasShape(ws, shape)
  {
    seq(|ws|, j requires 0 <= j < |ws| => (ws[j].offset, |ws[j].data|))
  }

  /** Writes to any files, then a sync of a file that was clean before them. */
  lemma SyncRefinesFlatFile(d: Disk, calls: seq<Callback>, n: Name, pos: nat)
    requires n !in d.pending && OnlyWrites(calls)
    requires Superseded(ShapeOf(WritesTo(calls, n)))
    ensures ByteAt(SyncSpec(Run(d, calls), n).disk.committed, n, pos)
         == FlatByte(d.committed, n, WritesTo(calls, n), pos)
  {
    var ws := WritesTo(calls, n);
    WritesAccumulate(d, calls, n);
    SupersededIsFlat(d.committed, n, ws, ShapeOf(ws));
    assert Run(d, calls).PendingOf(n) == OpsOf(d.committed, n, ws);
  }

  // ----- runs with any number of syncs -----

  // What is done to n: writes and syncs.  Other files may see anything.
  ghost predicate WritesAndSyncs(calls: seq<Callback>, n: Name) {
    forall c :: c in calls && c.n == n ==> c.DoWrite? || c.DoSync?
  }

  // The writes to n since its last sync, and those before it.
  function Since(calls: seq<Callback>, n: Name): seq<Write> {
    if calls == [] then []
    else
      var before, c := Since(calls[..|calls| - 1], n), calls[|calls| - 1];
      if c.n != n then before
      else match c
        case DoWrite(_, w) => before + [w]
        case DoSync(_) => []
        case _ => before
  }

  function Synced(calls: seq<Callback>, n: Name): seq<Write> {
    if calls == [] then []
    else
      var before, c := calls[..|calls| - 1], calls[|calls| - 1];
      if c.n == n && c.DoSync? then Synced(before, n) + Since(before, n) else Synced(before, n)
  }

  lemma {:induction false} SyncedAndSince(calls: seq<Callback>, n: Name)
    requires WritesAndSyncs(calls, n)
    ensures Synced(calls, n) + Since(calls, n) == WritesTo(calls, n)
  {
    if calls != [] {
      var before, c := calls[..|calls| - 1], calls[|calls| - 1];
      WritesAndSyncsBefore(calls, n);
      SyncedAndSince(before, n);
      if c.n == n && c.DoWrite? {
        ConcatAssoc(Synced(before, n), Since(before, n), [c.w]);
      } else {
        assert Synced(calls, n) + Since(calls, n) == Synced(before, n) + Since(before, n);
        assert WritesTo(calls, n) == WritesTo(before, n);
      }
    }
  }

  // At each sync of n, the writes since the one before meet the exact condition.
  ghost predicate EachSuperseded(calls: seq<Callback>, n: Name) {
    calls == [] ||
    var before, c := calls[..|calls| - 1], calls[|calls| - 1];
    EachSuperseded(before, n) && (c.n == n && c.DoSync? ==> Superseded(ShapeOf(Since(before, n))))
  }

  lemma {:induction false} SamePagesSameOps(a: PageMap, b: PageMap, n: Name, ws: seq<Write>)
    requires forall i: nat :: Lookup(a, (n, i)) == Lookup(b, (n, i))
    ensures OpsOf(a, n, ws) == OpsOf(b, n, ws)
  {
    if ws != [] {
      SamePagesSameOps(a, b, n, ws[..|ws| - 1]);
      SamePagesSameWrite(a, b, n, ws[|ws| - 1]);
    }
  }

  lemma SamePagesSameWrite(a: PageMap, b: PageMap, n: Name, w: Write)
    requires forall i: nat :: Lookup(a, (n, i)) == Lookup(b, (n, i))
    ensures WriteOps(a, n, w) == WriteOps(b, n, w)
  {
    forall i: nat ensures PageOr0(a, n, i) == PageOr0(b, n, i) {
      assert Lookup(a, (n, i)) == Lookup(b, (n, i));
    }
  }

  // The batch of n holds the writes since the last sync, on the pages that are committed now.
  lemma {:induction false} PendingIsSince(d: Disk, calls: seq<Callback>, n: Name)
    requires d.WellKeyed() && n !in d.pending && WritesAndSyncs(calls, n)
    ensures var e := Run(d, calls); e.WellKeyed() && e.PendingOf(n) == OpsOf(e.committed, n, Since(calls, n))
  {
    if calls != [] {
      var before, c := calls[..|calls| - 1], calls[|calls| - 1];
      WritesAndSyncsBefore(calls, n);
      PendingIsSince(d, before, n);
      var m, e := Run(d, before), Run(d, calls);
      StepKeepsOthers(m, c, n);
      if c.n != n {
        SamePagesSameOps(m.committed, e.committed, n, Since(before, n));
      } else if c.DoWrite? {
        WriteAppends(m, n, WriteOps(m.committed, n, c.w), n);
        OpsOfSnoc(m.committed, n, Since(before, n), c.w);
      }
    }
  }

  // What a sync of n commits, whether or not there is a batch.
  lemma SyncCommits(d: Disk, n: Name, ws: seq<Write>)
    requires d.PendingOf(n) == OpsOf(d.committed, n, ws)
    ensures SyncSpec(d, n).disk.committed == Flushed(d.committed, OpsOf(d.committed, n, ws))
  {
  }

  lemma {:induction false} FlatOnFlat(base: PageMap, pages: PageMap, n: Name, a: seq<Write>, b: seq<Write>, pos: nat)
    requires ByteAt(pages, n, pos) == FlatByte(base, n, a, pos)
    ensures FlatByte(pages, n, b, pos) == FlatByte(base, n, a + b, pos)
  {
    if b == [] {
      assert a + b == a;
    } else {
      assert (a + b)[..|a + b| - 1] == a + b[..|b| - 1];
      FlatOnFlat(base, pages, n, a, b[..|b| - 1], pos);
    }
  }

  lemma SyncIsFlat(base: PageMap, d: Disk, n: Name, a: seq<Write>, ws: seq<Write>, pos: nat)
    requires d.PendingOf(n) == OpsOf(d.committed, n, ws) && Superseded(ShapeOf(ws))
    requires ByteAt(d.committed, n, pos) == FlatByte(base, n, a, pos)
    ensures ByteAt(SyncSpec(d, n).disk.committed, n, pos) == FlatByte(base, n, a + ws, pos)
  {
    SyncCommits(d, n, ws);
    SupersededIsFlat(d.committed, n, ws, ShapeOf(ws));
    FlatOnFlat(base, d.committed, n, a, ws, pos);
  }

  lemma SameFileSameByte(d: Disk, e: Disk, n: Name, pos: nat)
    requires SameFile(d, e, n)
    ensures ByteAt(d.committed, n, pos) == ByteAt(e.committed, n, pos)
  {
    assert Lookup(d.committed, (n, pos / PAGE_SIZE)) == Lookup(e.committed, (n, pos / PAGE_SIZE));
  }

  lemma WritesAndSyncsBefore(calls: seq<Callback>, n: Name)
    requires calls != [] && WritesAndSyncs(calls, n)
    ensures var before, c := calls[..|calls| - 1], calls[|calls| - 1];
      WritesAndSyncs(before, n) && (c.n == n ==> c.DoWrite? || c.DoSync?)
  {
    assert calls[|calls| - 1] in calls;
  }

  /**
   At any time in a run with any number of syncs, in which other files see any callbacks,
   the committed bytes of a file are the flat file of all its writes that were synced.
   */
  lemma {:induction false} RunRefinesFlatFile(d: Disk, calls: seq<Callback>, n: Name, pos: nat)
    requires d.WellKeyed() && n !in d.pending && WritesAndSyncs(calls, n) && EachSuperseded(calls, n)
    ensures ByteAt(Run(d, calls).committed, n, pos) == FlatByte(d.committed, n, Synced(calls, n), pos)
  {
    if calls != [] {
      var before, c := calls[..|calls| - 1], calls[|calls| - 1];
      WritesAndSyncsBefore(calls, n);
      RunRefinesFlatFile(d, before, n, pos);
      PendingIsSince(d, before, n);
      var m := Run(d, before);
      if c.n != n {
        StepKeepsOthers(m, c, n);
        SameFileSameByte(m, Run(d, calls), n, pos);
      } else if c.DoSync? {
        SyncIsFlat(d.committed, m, n, Synced(before, n), Since(before, n), pos);
      }
    }
  }

  // ----- the size -----

  // The last page that is there or that a write touches.
  function LastAfter(last: int, ws: seq<Write>): int {
    if ws == [] then last
    else
      var before, w := LastAfter(last, ws[..|ws| - 1]), ws[|ws| - 1];
      if w.First() < w.Past() && before < w.Past() - 1 then w.Past() - 1 else before
  }

  lemma {:induction false} LastAfterIs(last: int, ws: seq<Write>)
    requires last >= -1
    ensures var r := LastAfter(last, ws);
      && r >= last && (r == last || (r >= 0 && LastToucher(ws, r) >= 0))
      && forall i: nat :: LastToucher(ws, i) >= 0 ==> i <= r
  {
    if ws != [] {
      LastAfterIs(last, ws[..|ws| - 1]);
    }
  }

  lemma FlushedLast(pages: PageMap, n: Name, ws: seq<Write>)
    ensures LastIndex(Flushed(pages, OpsOf(pages, n, ws)).Keys, n) == LastAfter(LastIndex(pages.Keys, n), ws)
  {
    var after, last := Flushed(pages, OpsOf(pages, n, ws)), LastIndex(pages.Keys, n);
    LastAfterIs(last, ws);
    forall i: nat ensures (n, i) in after <==> (n, i) in pages || LastToucher(ws, i) >= 0 {
      FlushedResolves(pages, OpsOf(pages, n, ws), (n, i));
      OpsOfResolves(pages, n, ws, i, Lookup(pages, (n, i)));
      assert (n, i) in after <==> Lookup(after, (n, i)).Some?;
    }
    var r := LastAfter(last, ws);
    assert r >= 0 ==> (n, r) in after;
    forall k | k in after.Keys && k.0 == n ensures k.1 <= r {
      assert (n, k.1) in after;
    }
    LastIs(after.Keys, n, r);
  }

  lemma {:induction false} LastAfterConcat(last: int, a: seq<Write>, b: seq<Write>)
    ensures LastAfter(last, a + b) == LastAfter(LastAfter(last, a), b)
  {
    if b == [] {
      assert a + b == a;
    } else {
      assert (a + b)[..|a + b| - 1] == a + b[..|b| - 1];
      LastAfterConcat(last, a, b[..|b| - 1]);
    }
  }

  lemma SyncLast(d: Disk, n: Name, ws: seq<Write>)
    requires d.PendingOf(n) == OpsOf(d.committed, n, ws)
    ensures SyncSpec(d, n).disk.Last(n) == LastAfter(d.Last(n), ws)
  {
    SyncCommits(d, n, ws);
    FlushedLast(d.committed, n, ws);
  }

  lemma SameFileSameLast(d: Disk, e: Disk, n: Name)
    requires SameFile(d, e, n)
    ensures d.Last(n) == e.Last(n)
  {
    forall i: nat ensures (n, i) in d.committed <==> (n, i) in e.committed {
      assert Lookup(d.committed, (n, i)) == Lookup(e.committed, (n, i));
    }
    forall k | k in e.committed.Keys && k.0 == n ensures k.1 <= d.Last(n) {
      assert (n, k.1) in d.committed;
    }
    LastIs(e.committed.Keys, n, d.Last(n));
  }

  /** The same run leaves the last page that was there or that a synced write touches. */
  lemma {:induction false} RunLast(d: Disk, calls: seq<Callback>, n: Name)
    requires d.WellKeyed() && n !in d.pending && WritesAndSyncs(calls, n)
    ensures Run(d, calls).Last(n) == LastAfter(d.Last(n), Synced(calls, n))
  {
    if calls != [] {
      var before, c := calls[..|calls| - 1], calls[|calls| - 1];
      WritesAndSyncsBefore(calls, n);
      RunLast(d, before, n);
      PendingIsSince(d, before, n);
      var m := Run(d, before);
      if c.n != n {
        StepKeepsOthers(m, c, n);
        SameFileSameLast(m, Run(d, calls), n);
      } else if c.DoSync? {
        SyncLast(m, n, Since(before, n));
        LastAfterConcat(d.Last(n), Synced(before, n), Since(before, n));
      } else {
        WriteAppends(m, n, WriteOps(m.committed, n, c.w), n);
      }
    }
  }

  // The end of a flat file: a write without bytes does not move it.
  function FlatEnd(size: nat, ws: seq<Write>): nat {
    if ws == [] then size
    else
      var before, w := FlatEnd(size, ws[..|ws| - 1]), ws[|ws| - 1];
      if |w.data| > 0 && before < w.End() then w.End() else before
  }

  function RoundUp(size: nat): nat { (size + PAGE_SIZE - 1) / PAGE_SIZE * PAGE_SIZE }

  // A write without bytes puts the page it points into, unless it is at the start of one.
  predicate Empty(w: Write) { w.data == [] && w.offset % PAGE_SIZE != 0 }

  lemma PastOf(w: Write)
    ensures |w.data| > 0 ==> w.First() < w.Past() && w.Past() * PAGE_SIZE == RoundUp(w.End())
    ensures w.data == [] ==> (w.First() < w.Past() <==> Empty(w)) && (Empty(w) ==> w.Past() * PAGE_SIZE == RoundUp(w.offset))
  {
  }

  lemma RoundUpGrows(a: nat, b: nat)
    requires a <= b
    ensures a <= RoundUp(a) <= RoundUp(b)
  {
  }

  lemma RoundUpLeast(a: nat, pages: nat)
    ensures a <= pages * PAGE_SIZE ==> RoundUp(a) <= pages * PAGE_SIZE
  {
  }

  function SizeAfter(last: int, ws: seq<Write>): int { (LastAfter(last, ws) + 1) * PAGE_SIZE }

  lemma {:induction false} EndsAfter(last: int, ws: seq<Write>)
    requires last >= -1
    ensures var size, flat := SizeAfter(last, ws), RoundUp(FlatEnd((last + 1) * PAGE_SIZE, ws));
      && size >= flat
      && (forall j :: 0 <= j < |ws| && Empty(ws[j]) ==> ws[j].offset <= size)
      && (size > flat ==> exists j :: 0 <= j < |ws| && Empty(ws[j]) && RoundUp(ws[j].offset) == size)
  {
    if ws != [] {
      var before, w := ws[..|ws| - 1], ws[|ws| - 1];
      EndsAfter(last, before);
      var flat, size := FlatEnd((last + 1) * PAGE_SIZE, before), SizeAfter(last, before);
      OneMoreEnd(last, ws);
      if SizeAfter(last, ws) > RoundUp(FlatEnd((last + 1) * PAGE_SIZE, ws)) && SizeAfter(last, ws) == size {
        var j :| 0 <= j < |before| && Empty(before[j]) && RoundUp(before[j].offset) == size;
        assert ws[j] == before[j];
      }
    }
  }

  lemma OneMoreEnd(last: int, ws: seq<Write>)
    requires last >= -1 && ws != []
    requires var before := ws[..|ws| - 1]; SizeAfter(last, before) >= RoundUp(FlatEnd((last + 1) * PAGE_SIZE, before))
    ensures var before, w := ws[..|ws| - 1], ws[|ws| - 1];
      var flat0, flat := RoundUp(FlatEnd((last + 1) * PAGE_SIZE, before)), RoundUp(FlatEnd((last + 1) * PAGE_SIZE, ws));
      && SizeAfter(last, ws) >= SizeAfter(last, before) && SizeAfter(last, ws) >= flat >= flat0
      && (Empty(w) ==> w.offset <= SizeAfter(last, ws))
      && (SizeAfter(last, ws) > flat ==>
            SizeAfter(last, ws) == SizeAfter(last, before) || (Empty(w) && RoundUp(w.offset) == SizeAfter(last, ws)))
  {
    var before, w := ws[..|ws| - 1], ws[|ws| - 1];
    PastOf(w);
    LastAfterIs(last, before);
    RoundUpGrows(FlatEnd((last + 1) * PAGE_SIZE, before), FlatEnd((last + 1) * PAGE_SIZE, ws));
    RoundUpGrows(w.offset, w.offset);
    if |w.data| > 0 { RoundUpGrows(w.End(), FlatEnd((last + 1) * PAGE_SIZE, ws)); }
  }

  lemma EndsExactly(last: int, ws: seq<Write>)
    requires last >= -1
    ensures var flat := RoundUp(FlatEnd((last + 1) * PAGE_SIZE, ws));
      SizeAfter(last, ws) == flat <==> forall j :: 0 <= j < |ws| && Empty(ws[j]) ==> ws[j].offset <= flat
  {
    var flat := RoundUp(FlatEnd((last + 1) * PAGE_SIZE, ws));
    EndsAfter(last, ws);
    if SizeAfter(last, ws) > flat {
      var j :| 0 <= j < |ws| && Empty(ws[j]) && RoundUp(ws[j].offset) == SizeAfter(last, ws);
      RoundUpLeast(ws[j].offset, (FlatEnd((last + 1) * PAGE_SIZE, ws) + PAGE_SIZE - 1) / PAGE_SIZE);
    }
  }

  /**
   The size of the file in such a run is that of the flat file, rounded up to a page, if
   and only if no write without bytes points into a page beyond that end.
   */
  lemma SizeExactly(d: Disk, calls: seq<Callback>, n: Name)
    requires d.WellKeyed() && n !in d.pending && WritesAndSyncs(calls, n)
    ensures var ws := Synced(calls, n);
      var flat := RoundUp(FlatEnd(d.Size(n), ws));
      Run(d, calls).Size(n) == flat <==> forall j :: 0 <= j < |ws| && Empty(ws[j]) ==> ws[j].offset <= flat
  {
    RunSize(d, calls, n);
    EndsExactly(d.Last(n), Synced(calls, n));
  }

  lemma RunSize(d: Disk, calls: seq<Callback>, n: Name)
    requires d.WellKeyed() && n !in d.pending && WritesAndSyncs(calls, n)
    ensures Run(d, calls).Size(n) == SizeAfter(d.Last(n), Synced(calls, n))
  {
    RunLast(d, calls, n);
  }

  // One key after appending operations to the batch of a file and syncing it.
  lemma AppendedThenSynced(d: Disk, n: Name, ops: seq<BatchOp<Page>>, k: PageKey)
    requires ops != [] || n in d.pending
    ensures var r := SyncSpec(AppendOps(d, n, ops), n);
      && r.ok && Lookup(r.disk.committed, k) == Resolve(ops, k, Lookup(Flushed(d.committed, d.PendingOf(n)), k))
  {
    WriteAppends(d, n, ops, n);
    FlushedResolves(d.committed, d.PendingOf(n) + ops, k);
    FlushedResolves(d.committed, d.PendingOf(n), k);
    ResolveConcat(d.PendingOf(n), ops, k, Lookup(d.committed, k));
    if ops == [] { assert d.PendingOf(n) + ops == d.PendingOf(n); }
  }

  // ----- write, sync, read -----

  /** Reading back what was written to a clean file, and the frame around it. */
  lemma WriteSyncRead(d: Disk, n: Name, w: Write)
    requires d.WellKeyed() && n !in d.pending
    ensures var e := SyncSpec(WriteSpec(d, n, w), n).disk;
      && ReadSpec(e, n, w.offset, |w.data|) == w.data
      && n !in e.pending
      && (forall pos: nat :: !w.Covers(pos) ==> ByteAt(e.committed, n, pos) == ByteAt(d.committed, n, pos))
      && (forall m :: m != n ==> SameFile(d, e, m))
  {
    var e := SyncSpec(WriteSpec(d, n, w), n).disk;
    forall pos: nat
      ensures ByteAt(e.committed, n, pos) == if w.Covers(pos) then w.data[pos - w.offset] else ByteAt(d.committed, n, pos)
    {
      WrittenByte(d, n, w, pos);
    }
    assert |ReadSpec(e, n, w.offset, |w.data|)| == |w.data|;
    forall k | 0 <= k < |w.data| ensures ReadSpec(e, n, w.offset, |w.data|)[k] == w.data[k] {
      assert w.Covers(w.offset + k);
    }
    forall m | m != n ensures SameFile(d, e, m) {
      StepKeepsOthers(d, DoWrite(n, w), m);
      StepKeepsOthers(WriteSpec(d, n, w), DoSync(n), m);
    }
  }

  lemma WrittenPage(d: Disk, n: Name, w: Write, i: nat)
    requires n !in d.pending
    ensures Lookup(SyncSpec(WriteSpec(d, n, w), n).disk.committed, (n, i))
         == if w.Touches(i) then Some(Overlay(PageOr0(d.committed, n, i), i, w)) else Lookup(d.committed, (n, i))
  {
    var ops := WriteOps(d.committed, n, w);
    WriteResolves(d.committed, n, w, (n, i), Lookup(d.committed, (n, i)));
    if ops != [] {
      AppendedThenSynced(d, n, ops, (n, i));
    }
  }

  lemma WrittenByte(d: Disk, n: Name, w: Write, pos: nat)
    requires n !in d.pending
    ensures ByteAt(SyncSpec(WriteSpec(d, n, w), n).disk.committed, n, pos)
         == if w.Covers(pos) then w.data[pos - w.offset] else ByteAt(d.committed, n, pos)
  {
    WrittenPage(d, n, w, pos / PAGE_SIZE);
    OverlayByte(PageOr0(d.committed, n, pos / PAGE_SIZE), w, pos);
    if w.Covers(pos) { CoversTouches(w, pos); }
  }

  // ----- delete -----

  lemma LastIs(keys: set<PageKey>, n: Name, last: int)
    requires IsLast(keys, n, last)
    ensures LastIndex(keys, n) == last
  {
  }

  /**
   _xDelete removes the committed pages, and only those: pages pending beyond the
   last committed one are committed by it.  It fails when there is nothing at all.
   */
  lemma DeleteExactly(d: Disk, n: Name)
    requires d.WellKeyed()
    ensures var r := DeleteSpec(d, n);
      && (r.ok <==> d.Last(n) >= 0 || n in d.pending)
      && n !in r.disk.pending
      && (forall i: nat :: Lookup(r.disk.committed, (n, i))
            == if i <= d.Last(n) then None else Lookup(Flushed(d.committed, d.PendingOf(n)), (n, i)))
      && (forall m :: m != n ==> SameFile(d, r.disk, m))
  {
    var ops := DeleteOps(n, d.Last(n) + 1);
    var r := DeleteSpec(d, n);
    forall i: nat
      ensures Lookup(r.disk.committed, (n, i))
           == if i <= d.Last(n) then None else Lookup(Flushed(d.committed, d.PendingOf(n)), (n, i))
    {
      ResolveSpan(ops, n, 0, (n, i), Lookup(Flushed(d.committed, d.PendingOf(n)), (n, i)));
      if ops != [] || n in d.pending {
        AppendedThenSynced(d, n, ops, (n, i));
      }
    }
    forall m | m != n ensures SameFile(d, r.disk, m) {
      StepKeepsOthers(d, DoDelete(n), m);
    }
  }

  /** After a delete the file is gone exactly when no put beyond its last page was pending. */
  lemma DeletedExactlyWhen(d: Disk, n: Name)
    requires d.WellKeyed()
    ensures DeleteSpec(d, n).disk.Last(n) == -1 <==>
      forall i: nat :: i > d.Last(n) ==> (n, i) !in Flushed(d.committed, d.PendingOf(n))
  {
    var e, f := DeleteSpec(d, n).disk, Flushed(d.committed, d.PendingOf(n));
    DeleteExactly(d, n);
    if e.Last(n) == -1 {
      forall i: nat | i > d.Last(n) ensures (n, i) !in f {
        assert Lookup(e.committed, (n, i)) == Lookup(f, (n, i));
      }
    }
    if forall i: nat :: i > d.Last(n) ==> (n, i) !in f {
      forall i: nat ensures (n, i) !in e.committed {
        assert Lookup(e.committed, (n, i)) == if i <= d.Last(n) then None else Lookup(f, (n, i));
      }
      LastIs(e.committed.Keys, n, -1);
    }
  }

  // ----- growing truncate -----

  /** Growing puts zero pages after the last committed page, over anything pending there. */
  lemma GrownPages(d: Disk, n: Name, size: nat, i: nat)
    requires size > d.Size(n)
    ensures var r := TruncateSpec(d, n, size); var s := SyncSpec(r.disk, n);
      && r.ok && s.ok
      && Lookup(s.disk.committed, (n, i))
           == if d.Last(n) < i <= (size - 1) / PAGE_SIZE then Some(ZeroPage())
              else Lookup(Flushed(d.committed, d.PendingOf(n)), (n, i))
  {
    var ops := ZeroOps(n, d.Last(n) + 1, (size - 1) / PAGE_SIZE + 1);
    AppendedThenSynced(d, n, ops, (n, i));
    ResolveSpan(ops, n, d.Last(n) + 1, (n, i), Lookup(Flushed(d.committed, d.PendingOf(n)), (n, i)));
  }

  /** Shrinking fails, setting the same size does nothing, and neither changes anything. */
  lemma NotGrowing(d: Disk, n: Name, size: nat)
    ensures size < d.Size(n) ==> TruncateSpec(d, n, size) == Outcome(d, false)
    ensures size == d.Size(n) ==> TruncateSpec(d, n, size) == Outcome(d, true)
  {
  }

  /** After any run, a delete and a truncate act on the file as the run left it. */
  lemma LastCallback(d: Disk, calls: seq<Callback>, n: Name, size: nat, i: nat)
    requires d.WellKeyed()
    ensures var m, e := Run(d, calls), Run(d, calls + [DoDelete(n)]);
      && n !in e.pending
      && Lookup(e.committed, (n, i)) == if i <= m.Last(n) then None else Lookup(Flushed(m.committed, m.PendingOf(n)), (n, i))
    ensures var m, e := Run(d, calls), Run(d, calls + [DoTruncate(n, size), DoSync(n)]);
      size > m.Size(n) ==>
        Lookup(e.committed, (n, i)) == if m.Last(n) < i <= (size - 1) / PAGE_SIZE then Some(ZeroPage())
                                       else Lookup(Flushed(m.committed, m.PendingOf(n)), (n, i))
  {
    var m := Run(d, calls);
    RunKeepsOthers(d, calls, n);
    RunSnoc(d, calls, DoDelete(n));
    DeleteExactly(m, n);
    RunSnoc(d, calls, DoTruncate(n, size));
    RunSnoc(d, calls + [DoTruncate(n, size)], DoSync(n));
    assert calls + [DoTruncate(n, size), DoSync(n)] == calls + [DoTruncate(n, size)] + [DoSync(n)];
    if size > m.Size(n) { GrownPages(m, n, size, i); }
  }

  lemma RunSnoc(d: Disk, calls: seq<Callback>, c: Callback)
    ensures Run(d, calls + [c]) == Step(Run(d, calls), c)
  {
    assert (calls + [c])[..|calls|] == calls;
  }

  /** On a clean file, growing rounds the size up to a page and changes no byte. */
  lemma GrowThenSync(d: Disk, n: Name, size: nat)
    requires n !in d.pending && size > d.Size(n)
    ensures var e := SyncSpec(TruncateSpec(d, n, size).disk, n).disk;
      && size <= e.Size(n) < size + PAGE_SIZE && e.Size(n) % PAGE_SIZE == 0
      && forall pos: nat :: ByteAt(e.committed, n, pos) == ByteAt(d.committed, n, pos)
                         && (pos >= d.Size(n) ==> ByteAt(e.committed, n, pos) == 0)
  {
    var e := SyncSpec(TruncateSpec(d, n, size).disk, n).disk;
    forall i: nat
      ensures Lookup(e.committed, (n, i)) == if d.Last(n) < i <= (size - 1) / PAGE_SIZE then Some(ZeroPage())
                                             else Lookup(d.committed, (n, i))
    {
      GrownPages(d, n, size, i);
    }
    var top := (size - 1) / PAGE_SIZE;
    assert Lookup(e.committed, (n, top)) == Some(ZeroPage());
    forall k | k in e.committed.Keys && k.0 == n ensures k.1 <= top {
      assert Lookup(e.committed, (n, k.1)).Some?;
    }
    LastIs(e.committed.Keys, n, top);
    forall pos: nat
      ensures ByteAt(e.committed, n, pos) == ByteAt(d.committed, n, pos)
      ensures pos >= d.Size(n) ==> ByteAt(e.committed, n, pos) == 0
    {
      var i := pos / PAGE_SIZE;
      assert Lookup(e.committed, (n, i)) == if d.Last(n) < i <= top then Some(ZeroPage()) else Lookup(d.committed, (n, i));
      assert i > d.Last(n) ==> (n, i) !in d.committed;
    }
  }

  // What a sync would commit if the file did not grow.
  function Unsynced(d: Disk, n: Name): PageMap {
    Flushed(d.committed, d.PendingOf(n))
  }

  function Top(size: nat): int { (size - 1) / PAGE_SIZE }

  ghost function Grown(d: Disk, n: Name, size: nat): Disk {
    SyncSpec(TruncateSpec(d, n, size).disk, n).disk
  }

  /**
   Growing keeps every byte of the file, pending writes included, if and only if the
   pages between the last committed one and the new end are absent or zero.
   */
  lemma GrowKeepsBytesExactlyWhen(d: Disk, n: Name, size: nat)
    requires size > d.Size(n)
    ensures (forall pos: nat :: ByteAt(Grown(d, n, size).committed, n, pos) == ByteAt(Unsynced(d, n), n, pos))
       <==> (forall i: nat :: d.Last(n) < i <= Top(size) ==> PageOr0(Unsynced(d, n), n, i) == ZeroPage())
  {
    var e, f := Grown(d, n, size).committed, Unsynced(d, n);
    forall i: nat
      ensures PageOr0(e, n, i) == if d.Last(n) < i <= Top(size) then ZeroPage() else PageOr0(f, n, i)
    {
      GrownPages(d, n, size, i);
    }
    if forall pos: nat :: ByteAt(e, n, pos) == ByteAt(f, n, pos) {
      forall i: nat | d.Last(n) < i <= Top(size) ensures PageOr0(f, n, i) == ZeroPage() {
        forall j | 0 <= j < PAGE_SIZE ensures PageOr0(f, n, i)[j] == PageOr0(e, n, i)[j] {
          PosOf(i, j);
          assert ByteAt(e, n, i * PAGE_SIZE + j) == ByteAt(f, n, i * PAGE_SIZE + j);
        }
      }
    }
  }

  lemma PosOf(i: nat, j: nat)
    requires j < PAGE_SIZE
    ensures (i * PAGE_SIZE + j) / PAGE_SIZE == i && (i * PAGE_SIZE + j) % PAGE_SIZE == j
  {
  }

  /** The file ends at its new size, rounded up, if and only if no page is pending beyond it. */
  lemma GrowEndsExactlyWhen(d: Disk, n: Name, size: nat)
    requires size > d.Size(n)
    ensures Grown(d, n, size).Last(n) == Top(size) <==> forall i: nat :: i > Top(size) ==> (n, i) !in Unsynced(d, n)
  {
    var e, f := Grown(d, n, size).committed, Unsynced(d, n);
    forall i: nat
      ensures Lookup(e, (n, i)) == if d.Last(n) < i <= Top(size) then Some(ZeroPage()) else Lookup(f, (n, i))
    {
      GrownPages(d, n, size, i);
    }
    assert Lookup(e, (n, Top(size))) == Some(ZeroPage());
    if forall i: nat :: i > Top(size) ==> (n, i) !in f {
      forall k | k in e.Keys && k.0 == n ensures k.1 <= Top(size) {
        assert Lookup(e, (n, k.1)).Some?;
      }
      LastIs(e.Keys, n, Top(size));
    } else {
      var i: nat :| i > Top(size) && (n, i) in f;
      assert Lookup(e, (n, i)) == Lookup(f, (n, i));
      assert (n, i) in e.Keys;
    }
  }
}

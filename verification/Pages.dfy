/**
 The page store of lib/vfs.js on values: what one VFS callback does to the
 committed pages and to the per-file pending batches.  `PageStore` proves the
 imperative code against these functions; `PageTheorems` says what they mean.
 */
module Pages {
  import opened Common

  const PAGE_SIZE: nat := 4096

  type Name = string

  // A key of the ordered store: file name, then page index.
  type PageKey = (Name, nat)

  type Page = p: Bytes | |p| == PAGE_SIZE witness seq(PAGE_SIZE, _ => 0)

  function ZeroPage(): Page { seq(PAGE_SIZE, _ => 0) }

  // ----- batches of the key/value store -----

  datatype BatchOp<+V> = TryPut(key: PageKey, value: V) | TryDelete(key: PageKey) {
    function Result(): Option<V> {
      if TryPut? then Some(value) else None
    }
  }

  function ApplyOp<V>(m: map<PageKey, V>, op: BatchOp<V>): map<PageKey, V> {
    match op
    case TryPut(k, v) => m[k := v]
    case TryDelete(k) => m - {k}
  }

  // A batch applies its operations in order.
  function Flushed<V>(m: map<PageKey, V>, ops: seq<BatchOp<V>>): map<PageKey, V> {
    if ops == [] then m else ApplyOp(Flushed(m, ops[..|ops| - 1]), ops[|ops| - 1])
  }

  // ----- writes -----

  datatype Write = Write(offset: nat, data: Bytes) {
    function End(): nat { offset + |data| }

    // The loop bounds of _xWrite: first page, and one past the last page.
    function First(): nat { offset / PAGE_SIZE }
    function Past(): nat { (offset + |data| - 1) / PAGE_SIZE + 1 }

    predicate Touches(i: nat) { First() <= i < Past() }
    predicate Covers(pos: nat) { offset <= pos < End() }
    predicate Fills(i: nat) { offset <= i * PAGE_SIZE && (i + 1) * PAGE_SIZE <= End() }
  }

  /** Page i with the bytes that w covers replaced. */
  function Overlay(base: Page, i: nat, w: Write): Page {
    seq(PAGE_SIZE, k requires 0 <= k < PAGE_SIZE =>
      if w.Covers(i * PAGE_SIZE + k) then w.data[i * PAGE_SIZE + k - w.offset] else base[k])
  }

  type PageMap = map<PageKey, Page>

  // An absent page reads as zeros.
  function PageOr0(pages: PageMap, n: Name, i: nat): Page {
    if (n, i) in pages then pages[(n, i)] else ZeroPage()
  }

  function ByteAt(pages: PageMap, n: Name, pos: nat): Byte {
    PageOr0(pages, n, pos / PAGE_SIZE)[pos % PAGE_SIZE]
  }

  // Every page starts from the committed page, never from a pending one.
  function WriteOps(pages: PageMap, n: Name, w: Write): (ops: seq<BatchOp<Page>>)
    ensures |ops| == w.Past() - w.First()
  {
    seq(w.Past() - w.First(), j requires 0 <= j < w.Past() - w.First() =>
      TryPut((n, w.First() + j), Overlay(PageOr0(pages, n, w.First() + j), w.First() + j, w)))
  }

  // ----- the last page of a file -----

  ghost predicate IsLast(keys: set<PageKey>, n: Name, last: int) {
    && (last == -1 || (0 <= last && (n, last) in keys))
    && forall k :: k in keys && k.0 == n ==> k.1 <= last
  }

  lemma {:induction false} LastExists(keys: set<PageKey>, n: Name) returns (last: int)
    ensures IsLast(keys, n, last)
  {
    if k :| k in keys && k.0 == n {
      var rest := LastExists(keys - {k}, n);
      last := if rest < k.1 then k.1 else rest;
    } else {
      last := -1;
    }
  }

  ghost function LastIndex(keys: set<PageKey>, n: Name): (last: int)
    ensures IsLast(keys, n, last)
  {
    assert exists last :: IsLast(keys, n, last) by { var last := LastExists(keys, n); }
    var last :| IsLast(keys, n, last);
    last
  }

  // ----- the whole store -----

  datatype Disk = Disk(committed: PageMap, pending: map<Name, seq<BatchOp<Page>>>) {
    function PendingOf(n: Name): seq<BatchOp<Page>> {
      if n in pending then pending[n] else []
    }

    // Each batch holds operations of its own file only.
    ghost predicate WellKeyed() {
      forall n, j :: n in pending && 0 <= j < |pending[n]| ==> pending[n][j].key.0 == n
    }

    ghost function Last(n: Name): (last: int)
      ensures IsLast(committed.Keys, n, last)
    {
      LastIndex(committed.Keys, n)
    }

    ghost function Size(n: Name): nat { (Last(n) + 1) * PAGE_SIZE }
  }

  datatype Outcome = Outcome(disk: Disk, ok: bool)

  // Opening a batch happens with the first operation put into it.
  function AppendOps(d: Disk, n: Name, ops: seq<BatchOp<Page>>): Disk {
    if ops == [] then d else d.(pending := d.pending[n := d.PendingOf(n) + ops])
  }

  function WriteSpec(d: Disk, n: Name, w: Write): Disk {
    AppendOps(d, n, WriteOps(d.committed, n, w))
  }

  function SyncSpec(d: Disk, n: Name): Outcome {
    if n in d.pending then
      Outcome(Disk(Flushed(d.committed, d.pending[n]), d.pending - {n}), true)
    else
      Outcome(d, false)
  }

  function DeleteOps(n: Name, past: nat): (ops: seq<BatchOp<Page>>) {
    if past == 0 then [] else seq(past, j requires 0 <= j < past => TryDelete((n, j)))
  }

  function DeleteTo(d: Disk, n: Name, past: nat): Disk {
    AppendOps(d, n, DeleteOps(n, past))
  }

  // Deleting every page up to the last committed one.
  ghost function DeleteAll(d: Disk, n: Name): Disk {
    DeleteTo(d, n, d.Last(n) + 1)
  }

  ghost function DeleteSpec(d: Disk, n: Name): Outcome {
    SyncSpec(DeleteAll(d, n), n)
  }

  function ZeroOps(n: Name, from: nat, past: nat): (ops: seq<BatchOp<Page>>) {
    if past <= from then [] else seq(past - from, j requires 0 <= j < past - from => TryPut((n, from + j), ZeroPage()))
  }

  // Shrinking reads an undeclared name before it changes anything.
  ghost function TruncateSpec(d: Disk, n: Name, size: nat): Outcome {
    if size > d.Size(n) then
      Outcome(AppendOps(d, n, ZeroOps(n, d.Last(n) + 1, (size - 1) / PAGE_SIZE + 1)), true)
    else
      Outcome(d, size == d.Size(n))
  }

  function ReadSpec(d: Disk, n: Name, offset: nat, length: nat): (data: Bytes) {
    seq(length, k requires 0 <= k < length => ByteAt(d.committed, n, offset + k))
  }
}

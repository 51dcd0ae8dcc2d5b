/** lib/vfs.js, _get to _xSize: the VFS callbacks over the stores and their batches. */
module PageStore {
  import opened Common
  import opened Pages
  import PageTheorems
  import opened Encryption

  type Raw = map<PageKey, Bytes>

  // What a page goes through between the callbacks and a store.
  datatype Layer = Layer(main: Name, deflate: Bytes -> Bytes, inflate: Bytes -> Bytes,
                         compressed: bool, cipher: Option<Cipher>)
  {
    ghost predicate Lawful() {
      && (forall x :: inflate(deflate(x)) == x)
      && (cipher.Some? ==> cipher.value.lib.Lawful())
    }

    // Only temporary files are encrypted here; the database is encrypted by its store.
    predicate Ciphers(n: Name) { n != main && cipher.Some? }

    function Crypt(k: PageKey, value: Bytes): (r: Bytes)
      requires Lawful()
    {
      if Ciphers(k.0) then cipher.value.Apply(value, k.0, k.1) else value
    }

    function Seal(k: PageKey, page: Bytes): Bytes
      requires Lawful()
    {
      Crypt(k, if compressed then deflate(page) else page)
    }

    function Open(k: PageKey, value: Bytes): Bytes
      requires Lawful()
    {
      var v := Crypt(k, value);
      if compressed then inflate(v) else v
    }

    /** A sealed page opens to itself under all four settings, for every kind of file. */
    lemma OpenSeal(k: PageKey, page: Bytes)
      requires Lawful()
      ensures Open(k, Seal(k, page)) == page
    {
      if Ciphers(k.0) {
        ApplyTwice(cipher.value, if compressed then deflate(page) else page, k.0, k.1);
      }
    }

    ghost predicate Stores(raw: Raw)
      requires Lawful()
    {
      forall k :: k in raw ==> |Open(k, raw[k])| == PAGE_SIZE
    }

    ghost function Decoded(raw: Raw): (pages: PageMap)
      requires Lawful() && Stores(raw)
      ensures pages.Keys == raw.Keys
    {
      map k | k in raw :: Open(k, raw[k])
    }

    lemma DecodedUnion(a: Raw, b: Raw)
      requires Lawful() && Stores(a) && Stores(b)
      ensures Stores(a + b) && Decoded(a + b) == Decoded(a) + Decoded(b)
    {
    }

    ghost predicate Batches(n: Name, ops: seq<BatchOp<Bytes>>)
      requires Lawful()
    {
      forall j :: 0 <= j < |ops| ==>
        ops[j].key.0 == n && (ops[j].TryPut? ==> |Open(ops[j].key, ops[j].value)| == PAGE_SIZE)
    }

    ghost function DecodedOps(n: Name, ops: seq<BatchOp<Bytes>>): (r: seq<BatchOp<Page>>)
      requires Lawful() && Batches(n, ops)
      ensures |r| == |ops|
    {
      seq(|ops|, j requires 0 <= j < |ops| =>
        match ops[j] case TryPut(k, v) => TryPut(k, Open(k, v)) case TryDelete(k) => TryDelete(k))
    }

    lemma ApplyDecodes(raw: Raw, n: Name, op: BatchOp<Bytes>)
      requires Lawful() && Stores(raw) && Batches(n, [op])
      ensures Stores(ApplyOp(raw, op))
      ensures Decoded(ApplyOp(raw, op)) == ApplyOp(Decoded(raw), DecodedOps(n, [op])[0])
    {
      assert [op][0] == op;
    }

    lemma {:induction false} FlushDecodes(raw: Raw, n: Name, ops: seq<BatchOp<Bytes>>)
      requires Lawful() && Stores(raw) && Batches(n, ops)
      ensures Stores(Flushed(raw, ops))
      ensures Decoded(Flushed(raw, ops)) == Flushed(Decoded(raw), DecodedOps(n, ops))
    {
      if ops != [] {
        var before, op := ops[..|ops| - 1], ops[|ops| - 1];
        FlushDecodes(raw, n, before);
        ApplyDecodes(Flushed(raw, before), n, op);
        var decoded := DecodedOps(n, ops);
        assert decoded[..|decoded| - 1] == DecodedOps(n, before);
        assert decoded[|decoded| - 1] == DecodedOps(n, [op])[0];
      }
    }
  }

  /** The overlay of a write over a caller's buffer once its whole pages were put. */
  ghost function CallersBytes(layer: Layer, n: Name, w: Write): (r: Bytes)
    requires layer.Lawful()
    ensures |r| == |w.data|
  {
    seq(|w.data|, k requires 0 <= k < |w.data| => CallersByte(layer, n, w, k))
  }

  ghost function CallersByte(layer: Layer, n: Name, w: Write, k: nat): Byte
    requires layer.Lawful() && k < |w.data|
  {
    var i := (w.offset + k) / PAGE_SIZE;
    if layer.Ciphers(n) && !layer.compressed && w.Fills(i) then
      layer.Seal((n, i), Overlay(ZeroPage(), i, w))[(w.offset + k) % PAGE_SIZE]
    else w.data[k]
  }

  // A view of the bee, or the temporary RocksDB.
  class Store {
    var pages: Raw

    constructor ()
      ensures pages == map[]
    {
      pages := map[];
    }

    method Get(key: PageKey) returns (value: array?<Byte>)
      ensures value == null <==> key !in pages
      ensures value != null ==> fresh(value) && value[..] == pages[key]
    {
      if key !in pages { return null; }
      var found := pages[key];
      value := new Byte[|found|](k requires 0 <= k < |found| => found[k]);
    }

    // The last key in the range of one file name.
    method Peek(n: Name) returns (last: int)
      ensures last == LastIndex(pages.Keys, n)
    {
      last := -1;
      var keys := pages.Keys;
      while keys != {}
        invariant keys <= pages.Keys
        invariant last == -1 || (0 <= last && (n, last) in pages.Keys)
        invariant forall k :: k in pages.Keys && k.0 == n && k !in keys ==> k.1 <= last
        decreases keys
      {
        var k :| k in keys;
        if k.0 == n && last < k.1 { last := k.1; }
        keys := keys - {k};
      }
    }
  }

  // A callback of sqlite, or _write: from then on the database file is in v.
  datatype Event = Callback(c: PageTheorems.Callback) | Point(v: Store?)

  // The decoded pages of the database file in every view, those of the temporary files, and the batches.
  datatype World = World(mains: map<Store, PageMap>, current: Store, tmp: PageMap, pending: map<Name, seq<BatchOp<Page>>>) {
    function Seen(): Disk
      requires current in mains
    {
      Disk(mains[current] + tmp, pending)
    }
  }

  // The pages of the database file, or those of the other files.
  function Part(pages: PageMap, main: Name, isMain: bool): PageMap {
    map k | k in pages && (k.0 == main <==> isMain) :: pages[k]
  }

  lemma PartsOfUnion(a: PageMap, b: PageMap, main: Name)
    requires forall k :: k in a ==> k.0 == main
    requires forall k :: k in b ==> k.0 != main
    ensures Part(a + b, main, true) == a && Part(a + b, main, false) == b
  {
  }

  datatype Batch = Batch(store: Store, ops: seq<BatchOp<Bytes>>)

  function Max(a: int, b: int): int { if a < b then b else a }
  function Min(a: int, b: int): int { if a < b then a else b }

  // Buffer.copy, for ranges that fit.
  method Copy(source: array<Byte>, from: nat, to: nat, target: array<Byte>, at: nat)
    requires source != target && from <= to <= source.Length && at + (to - from) <= target.Length
    modifies target
    ensures forall k :: 0 <= k < target.Length ==>
      target[k] == if at <= k < at + (to - from) then source[from + (k - at)] else old(target[k])
  {
    forall k | at <= k < at + (to - from) {
      target[k] := source[from + (k - at)];
    }
  }

  class ParaVFS {
    const name: Name
    const bee: Store
    const tmp: Store
    const encryption: ParaQLEncryption?
    const compressed: bool
    const deflate: Bytes -> Bytes
    const inflate: Bytes -> Bytes

    var view: Store?
    var files: map<Name, Batch>

    // The pages and batches of the current view, decoded.
    ghost var disk: Disk

    ghost function TheLayer(): Layer {
      Layer(name, deflate, inflate, compressed, if encryption == null then None else Some(encryption.cipher))
    }

    function Current(): Store reads this { if view == null then bee else view }

    function Home(n: Name): Store reads this { if n != name then tmp else Current() }

    /**
     The stored page invariant: every stored or pending value decodes to one page,
     and every batch will be flushed into the store it was opened on.
     */
    ghost predicate Valid()
      reads this, bee, tmp, view
    {
      Consistent() && disk == Abs()
    }

    ghost predicate Consistent()
      reads this, bee, tmp, view
    {
      && TheLayer().Lawful()
      && bee != tmp && view != tmp
      && Holds(bee) && Holds(tmp) && Holds(Current())
      && forall n :: n in files ==> files[n].store == Home(n) && TheLayer().Batches(n, files[n].ops)
    }

    ghost predicate Holds(s: Store)
      requires TheLayer().Lawful()
      reads s
    {
      TheLayer().Stores(s.pages) && forall k :: k in s.pages ==> (k.0 != name <==> s == tmp)
    }

    ghost function RawPages(): Raw
      reads this, bee, tmp, view
    {
      Current().pages + tmp.pages
    }

    ghost function Abs(): (d: Disk)
      requires Consistent()
      reads this, bee, tmp, view
      ensures d.WellKeyed()
    {
      Image(RawPages(), files)
    }

    ghost predicate Good(raw: Raw, batches: map<Name, Batch>) {
      && TheLayer().Lawful() && TheLayer().Stores(raw)
      && forall n :: n in batches ==> TheLayer().Batches(n, batches[n].ops)
    }

    ghost function Image(raw: Raw, batches: map<Name, Batch>): (d: Disk)
      requires Good(raw, batches)
    {
      Disk(TheLayer().Decoded(raw), map n | n in batches :: TheLayer().DecodedOps(n, batches[n].ops))
    }

    lemma ImagePush(raw: Raw, batches: map<Name, Batch>, n: Name, batch: Batch, op: BatchOp<Bytes>)
      requires Good(raw, batches) && TheLayer().Batches(n, [op])
      requires if n in batches then batch == batches[n] else batch.ops == []
      ensures var pushed := batches[n := Batch(batch.store, batch.ops + [op])];
        && Good(raw, pushed)
        && Image(raw, pushed) == AppendOps(Image(raw, batches), n, TheLayer().DecodedOps(n, [op]))
    {
      var pushed := batches[n := Batch(batch.store, batch.ops + [op])];
      PushedOps(n, batch.ops, op);
      assert TheLayer().DecodedOps(n, []) == [];
      assert Image(raw, pushed).pending == AppendOps(Image(raw, batches), n, TheLayer().DecodedOps(n, [op])).pending;
    }

    lemma ImageFlush(raw: Raw, batches: map<Name, Batch>, n: Name)
      requires Good(raw, batches) && n in batches
      ensures var raw' := Flushed(raw, batches[n].ops);
        && Good(raw', batches - {n})
        && Image(raw', batches - {n}) == SyncSpec(Image(raw, batches), n).disk
    {
      TheLayer().FlushDecodes(raw, n, batches[n].ops);
      assert Image(Flushed(raw, batches[n].ops), batches - {n}).pending == Image(raw, batches).pending - {n};
    }

    constructor (name: Name, bee: Store, tmp: Store, encryption: ParaQLEncryption?,
                 compressed: bool, deflate: Bytes -> Bytes, inflate: Bytes -> Bytes)
      requires bee != tmp && bee.pages == tmp.pages == map[]
      requires forall x :: inflate(deflate(x)) == x
      requires encryption != null ==> encryption.cipher.lib.Lawful()
      ensures Valid() && disk == Disk(map[], map[])
    {
      this.name, this.bee, this.tmp, this.encryption := name, bee, tmp, encryption;
      this.compressed, this.deflate, this.inflate := compressed, deflate, inflate;
      view := null;
      files := map[];
      disk := Disk(map[], map[]);
    }

    /** _write: point the database file at a view; refused while a batch is open. */
    method SetView(v: Store?) returns (ok: bool)
      requires Valid()
      requires v != null ==> v != tmp && Holds(v)
      modifies this`view, this`disk
      ensures Valid()
      ensures ok <==> old(disk).pending == map[]
      ensures ok ==> view == v && disk.pending == map[]
      ensures !ok ==> view == old(view) && disk == old(disk)
    {
      if |files| > 0 {
        assert files != map[];
        var n :| n in files;
        assert n in disk.pending;
        return false;
      }
      view := v;
      disk := Abs();
      return true;
    }

    lemma AbsPage(k: PageKey)
      requires Valid()
      ensures k in disk.committed <==> k in Home(k.0).pages
      ensures k in disk.committed ==> disk.committed[k] == TheLayer().Open(k, Home(k.0).pages[k])
    {
    }

    method GetStored(n: Name, index: nat) returns (value: array?<Byte>)
      requires Valid()
      ensures value == null <==> (n, index) !in Home(n).pages
      ensures value != null ==> fresh(value) && value[..] == TheLayer().Crypt((n, index), Home(n).pages[(n, index)])
    {
      var isTmp := n != name;
      value := Home(n).Get((n, index));
      if isTmp {
        if value != null && encryption != null {
          encryption.Decrypt(value, n, index);
        }
      }
    }

    method Get(n: Name, index: nat) returns (value: array?<Byte>)
      requires Valid()
      ensures value == null <==> (n, index) !in disk.committed
      ensures value != null ==> fresh(value) && value[..] == disk.committed[(n, index)]
    {
      AbsPage((n, index));
      value := GetStored(n, index);
      if value != null && compressed {
        value := Inflate(value);
      }
    }

    method Inflate(value: array<Byte>) returns (page: array<Byte>)
      ensures fresh(page) && page[..] == inflate(value[..])
    {
      var bytes := inflate(value[..]);
      page := new Byte[|bytes|](k requires 0 <= k < |bytes| => bytes[k]);
    }

    method Last(n: Name) returns (index: int)
      requires Valid()
      ensures index == disk.Last(n)
    {
      index := Home(n).Peek(n);
      PageTheorems.LastIs(RawPages().Keys, n, index);
    }

    lemma PushedOps(n: Name, ops: seq<BatchOp<Bytes>>, op: BatchOp<Bytes>)
      requires TheLayer().Lawful() && TheLayer().Batches(n, ops) && TheLayer().Batches(n, [op])
      ensures TheLayer().Batches(n, ops + [op])
      ensures TheLayer().DecodedOps(n, ops + [op]) == TheLayer().DecodedOps(n, ops) + TheLayer().DecodedOps(n, [op])
    {
    }

    // Put op into the batch of n, opening the batch if there is none.
    method Push(n: Name, op: BatchOp<Bytes>)
      requires Valid() && TheLayer().Batches(n, [op])
      modifies this`files, this`disk
      ensures Valid()
      ensures files.Keys == old(files.Keys) + {n} && forall m :: m in files && m != n ==> files[m] == old(files)[m]
      ensures files[n].ops == (if n in old(files) then old(files)[n].ops else []) + [op]
      ensures disk == AppendOps(old(disk), n, TheLayer().DecodedOps(n, [op]))
    {
      var batch := if n in files then files[n] else Batch(Home(n), []);
      ImagePush(RawPages(), files, n, batch, op);
      files := files[n := Batch(batch.store, batch.ops + [op])];
      disk := AppendOps(disk, n, TheLayer().DecodedOps(n, [op]));
    }

    /**
     _tryPut of the slice buf[from..from + PAGE_SIZE].  Encryption without compression
     is done in that slice, before the store copies it.
     */
    method TryPut(n: Name, index: nat, buf: array<Byte>, from: nat)
      requires Valid() && from + PAGE_SIZE <= buf.Length
      modifies this`files, this`disk, buf
      ensures Valid()
      ensures var page: Page := old(buf[from..from + PAGE_SIZE]);
        && disk == AppendOps(old(disk), n, [BatchOp.TryPut((n, index), page)])
        && buf[..] == old(buf[..from])
             + (if TheLayer().Ciphers(n) && !compressed then TheLayer().Seal((n, index), page) else page)
             + old(buf[from + PAGE_SIZE..])
      ensures n in files && |files[n].ops| == 1 + |if n in old(files) then old(files)[n].ops else []|
        && files[n].ops == (if n in old(files) then old(files)[n].ops else []) + files[n].ops[|files[n].ops| - 1..]
        && var op := files[n].ops[|files[n].ops| - 1];
           op.TryPut? && op.key == (n, index) && IsStored(n, index, old(buf[from..from + PAGE_SIZE]), op.value)
    {
      ghost var page: Page := buf[from..from + PAGE_SIZE];
      var value := SealSlice(n, index, buf, from);
      TheLayer().OpenSeal((n, index), page);
      SealIsStored(n, index, page);
      assert TheLayer().DecodedOps(n, [BatchOp.TryPut((n, index), value)]) == [BatchOp.TryPut((n, index), page)];
      Push(n, BatchOp.TryPut((n, index), value));
    }

    /**
     What is stored for a page: the page or what deflate makes of it; and if the database is
     encrypted, for a file other than the database that, XORed with the keystream.
     */
    ghost predicate IsStored(n: Name, index: nat, page: Bytes, value: Bytes)
      requires TheLayer().Lawful()
    {
      var packed := if compressed then deflate(page) else page;
      if n == name || encryption == null then value == packed
      else
        var c := encryption.cipher;
        var nonce := c.lib.genericHash(c.key + c.lib.utf8(n) + c.lib.uint64(index));
        var ks := c.lib.stream(nonce, c.encryptionKey, |packed|);
        |value| == |packed| && forall k :: 0 <= k < |packed| ==> value[k] == packed[k] ^ ks[k]
    }

    lemma SealIsStored(n: Name, index: nat, page: Bytes)
      requires TheLayer().Lawful()
      ensures IsStored(n, index, page, TheLayer().Seal((n, index), page))
    {
    }

    method SealSlice(n: Name, index: nat, buf: array<Byte>, from: nat) returns (value: Bytes)
      requires Valid() && from + PAGE_SIZE <= buf.Length
      modifies buf
      ensures var page := old(buf[from..from + PAGE_SIZE]);
        && value == TheLayer().Seal((n, index), page)
        && buf[..] == old(buf[..from]) + (if TheLayer().Ciphers(n) && !compressed then value else page)
             + old(buf[from + PAGE_SIZE..])
    {
      value := buf[from..from + PAGE_SIZE];
      assert buf[..] == buf[..from] + value + buf[from + PAGE_SIZE..];
      var isTmp := n != name;
      if compressed {
        value := deflate(value);
      }
      if isTmp && encryption != null {
        if compressed {
          var deflated := new Byte[|value|](k requires 0 <= k < |value| => value[k]);
          assert deflated[..0] == [] && deflated[0..deflated.Length] == value && deflated[deflated.Length..] == [];
          encryption.Encrypt(deflated, 0, deflated.Length, n, index);
          value := deflated[..];
        } else {
          encryption.Encrypt(buf, from, from + PAGE_SIZE, n, index);
          value := buf[from..from + PAGE_SIZE];
        }
      }
    }

    method TryDelete(n: Name, index: nat)
      requires Valid()
      modifies this`files, this`disk
      ensures Valid()
      ensures disk == AppendOps(old(disk), n, [BatchOp.TryDelete((n, index))])
    {
      assert TheLayer().DecodedOps(n, [BatchOp.TryDelete((n, index))]) == [BatchOp.TryDelete((n, index))];
      Push(n, BatchOp.TryDelete((n, index)));
    }

    predicate Side(raw: Raw, isTmp: bool) {
      forall k :: k in raw ==> (k.0 != name <==> isTmp)
    }

    // Flushing the batch of n into its home store is flushing it into the union.
    lemma FlushedSide(cur: Raw, temp: Raw, n: Name, ops: seq<BatchOp<Bytes>>)
      requires TheLayer().Lawful() && TheLayer().Batches(n, ops)
      requires Side(cur, false) && Side(temp, true)
      ensures var cur' := if n == name then Flushed(cur, ops) else cur;
        var temp' := if n == name then temp else Flushed(temp, ops);
        Side(cur', false) && Side(temp', true) && cur' + temp' == Flushed(cur + temp, ops)
    {
      var cur' := if n == name then Flushed(cur, ops) else cur;
      var temp' := if n == name then temp else Flushed(temp, ops);
      forall k
        ensures k in cur' ==> k.0 == name
        ensures k in temp' ==> k.0 != name
        ensures Lookup(cur' + temp', k) == Lookup(Flushed(cur + temp, ops), k)
      {
        FlushedKey(cur, ops, n, k);
        FlushedKey(temp, ops, n, k);
        FlushedKey(cur + temp, ops, n, k);
      }
      SameLookups(cur' + temp', Flushed(cur + temp, ops));
    }

    lemma FlushedKey(raw: Raw, ops: seq<BatchOp<Bytes>>, n: Name, k: PageKey)
      requires TheLayer().Lawful() && TheLayer().Batches(n, ops)
      ensures Lookup(Flushed(raw, ops), k)
           == if k.0 == n then PageTheorems.Resolve(ops, k, Lookup(raw, k)) else Lookup(raw, k)
    {
      PageTheorems.FlushedResolves(raw, ops, k);
      if k.0 != n {
        PageTheorems.ResolveNone(ops, k, Lookup(raw, k));
      }
    }

    lemma SameLookups(a: Raw, b: Raw)
      requires forall k :: Lookup(a, k) == Lookup(b, k)
      ensures a == b
    {
      forall k ensures k in a <==> k in b { assert Lookup(a, k) == Lookup(b, k); }
      forall k | k in a ensures a[k] == b[k] { assert Lookup(a, k) == Lookup(b, k); }
    }

    method Flush(n: Name) returns (ok: bool)
      requires Valid()
      modifies this`files, this`disk, Home(n)
      ensures Valid()
      ensures Outcome(disk, ok) == SyncSpec(old(disk), n)
    {
      if n !in files { return false; }
      var batch := files[n];
      ImageFlush(RawPages(), files, n);
      FlushedSide(Current().pages, tmp.pages, n, batch.ops);
      TheLayer().FlushDecodes(batch.store.pages, n, batch.ops);
      files := files - {n};
      batch.store.pages := Flushed(batch.store.pages, batch.ops);
      assert RawPages() == Flushed(old(RawPages()), batch.ops);
      disk := SyncSpec(disk, n).disk;
      return true;
    }

    // ----- the callbacks: false is an error passed to the callback -----

    method XDelete(n: Name) returns (ok: bool)
      requires Valid()
      modifies this`files, this`disk, Home(n)
      ensures Valid()
      ensures Outcome(disk, ok) == DeleteSpec(old(disk), n)
    {
      DeletePages(n);
      assert view == old(view);
      ok := Flush(n);
    }

    // The loop of _xDelete, before its flush.
    method DeletePages(n: Name)
      requires Valid()
      modifies this`files, this`disk
      ensures Valid()
      ensures disk == DeleteAll(old(disk), n)
    {
      var index := Last(n);
      PageTheorems.NothingToDelete(disk, n);
      if index >= 0 { DeleteBelow(n, index + 1); }
    }

    method DeleteBelow(n: Name, past: nat)
      requires Valid()
      modifies this`files, this`disk
      ensures Valid() && disk == DeleteTo(old(disk), n, past)
    {
      ghost var d := disk;
      for i := 0 to past
        invariant Valid() && disk == DeleteTo(d, n, i)
      {
        DeletePage(n, i, d);
      }
    }

    method DeletePage(n: Name, i: nat, ghost d: Disk)
      requires Valid() && disk == DeleteTo(d, n, i)
      modifies this`files, this`disk
      ensures Valid() && disk == DeleteTo(d, n, i + 1)
    {
      PageTheorems.NextDelete(d, n, i);
      TryDelete(n, i);
    }

    method XAccess(n: Name) returns (found: bool)
      requires Valid()
      ensures found <==> exists i :: (n, i) in disk.committed
    {
      var index := Last(n);
      found := index >= 0;
    }

    method XRead(n: Name, buf: array<Byte>, offset: nat)
      requires Valid()
      modifies buf
      ensures buf[..] == ReadSpec(disk, n, offset, buf.Length)
    {
      var end := offset + buf.Length;
      var startPage := offset / PAGE_SIZE;
      var endPage := (end - 1) / PAGE_SIZE;
      for i := startPage to endPage + 1
        invariant PagesRead(buf[..], n, offset, i)
      {
        ghost var before := buf[..];
        ReadPage(n, buf, offset, i);
        NextPageRead(before, buf[..], n, offset, i);
      }
      AllPagesRead(buf[..], n, offset, endPage + 1);
    }

    // The bytes on pages before i are read.
    ghost predicate PagesRead(data: Bytes, n: Name, offset: nat, i: nat)
      reads this
    {
      forall k :: 0 <= k < |data| && (offset + k) / PAGE_SIZE < i ==> data[k] == ByteAt(disk.committed, n, offset + k)
    }

    ghost predicate PageRead(before: Bytes, after: Bytes, n: Name, offset: nat, i: nat)
      reads this
    {
      |before| == |after| && forall k :: 0 <= k < |after| ==>
        after[k] == if (offset + k) / PAGE_SIZE == i then ByteAt(disk.committed, n, offset + k) else before[k]
    }

    lemma NextPageRead(before: Bytes, after: Bytes, n: Name, offset: nat, i: nat)
      requires PagesRead(before, n, offset, i) && PageRead(before, after, n, offset, i)
      ensures PagesRead(after, n, offset, i + 1)
    {
    }

    lemma AllPagesRead(data: Bytes, n: Name, offset: nat, i: nat)
      requires PagesRead(data, n, offset, i) && i > (offset + |data| - 1) / PAGE_SIZE
      ensures data == ReadSpec(disk, n, offset, |data|)
    {
      forall k | 0 <= k < |data| ensures data[k] == ByteAt(disk.committed, n, offset + k) {
        assert (offset + k) / PAGE_SIZE < i;
      }
    }

    // The body of the read loop: fill the part of buf that lies on page i.
    method ReadPage(n: Name, buf: array<Byte>, offset: nat, i: nat)
      requires Valid()
      modifies buf
      ensures PageRead(old(buf[..]), buf[..], n, offset, i)
    {
      var end := offset + buf.Length;
      var pageStart := i * PAGE_SIZE;
      var pageEnd := pageStart + PAGE_SIZE;
      var readStart := Max(offset, pageStart);
      var readEnd := Min(end, pageEnd);
      if readStart < readEnd {
        var page := PageOrZeros(n, i);
        var sliceStart := readStart - pageStart;
        var sliceLength := readEnd - readStart;
        var dataOffset := readStart - offset;
        Copy(page, sliceStart, sliceStart + sliceLength, buf, dataOffset);
        forall k | 0 <= k < buf.Length && (offset + k) / PAGE_SIZE == i
          ensures buf[k] == ByteAt(disk.committed, n, offset + k)
        {
          assert buf[k] == page[..][offset + k - pageStart];
        }
      }
    }

    method XWrite(n: Name, data: array<Byte>, offset: nat)
      requires Valid()
      modifies this`files, this`disk, data
      ensures Valid()
      ensures var w := Write(offset, old(data[..]));
        && disk == WriteSpec(old(disk), n, w)
        && data[..] == CallersBytes(TheLayer(), n, w)
    {
      ghost var w, d := Write(offset, data[..]), disk;
      var start := offset / PAGE_SIZE;
      var end := (offset + data.Length - 1) / PAGE_SIZE;
      for i := start to end + 1
        invariant Valid() && data.Length == |w.data| && Written(d, n, w, i) && PagesDone(data[..], n, w, i)
      {
        WriteNext(n, data, offset, i, w, d);
      }
      AllWritten(d, n, w);
      AllPagesDone(data[..], n, w);
    }

    // The pages of w before page i are put.
    ghost predicate Written(d: Disk, n: Name, w: Write, i: nat)
      requires w.First() <= i <= w.Past()
      reads this
    {
      disk == AppendOps(d, n, WriteOps(d.committed, n, w)[..i - w.First()])
    }

    lemma AllWritten(d: Disk, n: Name, w: Write)
      requires Written(d, n, w, w.Past())
      ensures disk == WriteSpec(d, n, w)
    {
      var ops := WriteOps(d.committed, n, w);
      assert ops[..w.Past() - w.First()] == ops;
    }

    // One turn of the write loop.
    method WriteNext(n: Name, data: array<Byte>, offset: nat, i: nat, ghost w: Write, ghost d: Disk)
      requires Valid() && w.Touches(i) && w.offset == offset && Written(d, n, w, i) && PagesDone(data[..], n, w, i)
      modifies this`files, this`disk, data
      ensures Valid() && Written(d, n, w, i + 1) && PagesDone(data[..], n, w, i + 1)
    {
      ghost var before := data[..];
      PageTheorems.NextWrite(d, n, w, i);
      WritePage(n, data, offset, i, w);
      NextPageDone(before, data[..], n, w, i);
    }

    // What is left of the caller's bytes when the loop reaches page i.
    ghost predicate Rest(data: Bytes, w: Write, i: nat) {
      |data| == |w.data| && forall k :: 0 <= k < |data| && (w.offset + k) / PAGE_SIZE >= i ==> data[k] == w.data[k]
    }

    // A slice that fills page i is the page, whatever was there.
    lemma FullSlice(data: Bytes, w: Write, base: Page, i: nat, from: nat)
      requires w.Fills(i) && from == i * PAGE_SIZE - w.offset && Rest(data, w, i)
      ensures data[from..from + PAGE_SIZE] == Overlay(base, i, w) == Overlay(ZeroPage(), i, w)
    {
      var slice := data[from..from + PAGE_SIZE];
      forall k | 0 <= k < PAGE_SIZE
        ensures slice[k] == Overlay(base, i, w)[k] == Overlay(ZeroPage(), i, w)[k]
      {
        assert (w.offset + (from + k)) / PAGE_SIZE == i;
        assert slice[k] == data[from + k] == w.data[from + k];
        assert w.Covers(i * PAGE_SIZE + k) && i * PAGE_SIZE + k - w.offset == from + k;
      }
    }

    // The caller's bytes on page i are final, the others as before.
    ghost predicate PageDone(before: Bytes, after: Bytes, n: Name, w: Write, i: nat)
      requires TheLayer().Lawful()
    {
      |before| == |after| == |w.data| && forall k :: 0 <= k < |after| ==>
        after[k] == if (w.offset + k) / PAGE_SIZE == i then CallersByte(TheLayer(), n, w, k) else before[k]
    }

    ghost predicate PagesDone(data: Bytes, n: Name, w: Write, i: nat)
      requires TheLayer().Lawful()
    {
      |data| == |w.data| && forall k :: 0 <= k < |data| ==>
        data[k] == if (w.offset + k) / PAGE_SIZE < i then CallersByte(TheLayer(), n, w, k) else w.data[k]
    }

    lemma NextPageDone(before: Bytes, after: Bytes, n: Name, w: Write, i: nat)
      requires TheLayer().Lawful() && PagesDone(before, n, w, i) && PageDone(before, after, n, w, i)
      ensures PagesDone(after, n, w, i + 1)
    {
    }

    lemma AllPagesDone(data: Bytes, n: Name, w: Write)
      requires TheLayer().Lawful() && PagesDone(data, n, w, w.Past())
      ensures data == CallersBytes(TheLayer(), n, w)
    {
      forall k | 0 <= k < |data| ensures data[k] == CallersByte(TheLayer(), n, w, k) {
        assert (w.offset + k) / PAGE_SIZE < w.Past();
      }
    }

    lemma PartialPageDone(data: Bytes, n: Name, w: Write, i: nat)
      requires TheLayer().Lawful() && !w.Fills(i) && Rest(data, w, i)
      ensures PageDone(data, data, n, w, i)
    {
    }

    lemma CallersSlice(data: Bytes, after: Bytes, w: Write, n: Name, i: nat, from: nat)
      requires TheLayer().Lawful()
      requires w.Fills(i) && from == i * PAGE_SIZE - w.offset && Rest(data, w, i)
      requires var page := Overlay(ZeroPage(), i, w);
        after == data[..from] + (if TheLayer().Ciphers(n) && !compressed then TheLayer().Seal((n, i), page) else page)
               + data[from + PAGE_SIZE..]
      ensures PageDone(data, after, n, w, i)
    {
      FullSlice(data, w, ZeroPage(), i, from);
      var page := Overlay(ZeroPage(), i, w);
      var mid := if TheLayer().Ciphers(n) && !compressed then TheLayer().Seal((n, i), page) else page;
      assert data[from..from + PAGE_SIZE] == page;
      forall k | 0 <= k < |data|
        ensures |after| == |data|
        ensures after[k] == if (w.offset + k) / PAGE_SIZE == i then CallersByte(TheLayer(), n, w, k) else data[k]
      {
        Spliced(data, from, mid, k);
        assert (w.offset + k) / PAGE_SIZE == i <==> from <= k < from + PAGE_SIZE;
        if from <= k < from + PAGE_SIZE {
          assert (w.offset + k) % PAGE_SIZE == k - from;
          assert w.data[k] == data[k] == page[k - from];
        }
      }
    }

    lemma Spliced(data: Bytes, from: nat, mid: Bytes, k: nat)
      requires from + |mid| <= |data| && k < |data|
      ensures var after := data[..from] + mid + data[from + |mid|..];
        |after| == |data| && after[k] == if from <= k < from + |mid| then mid[k - from] else data[k]
    {
    }

    // Copying the slice of w on page i over the base gives the overlay.
    lemma PatchedPage(data: Bytes, w: Write, base: Page, i: nat, page: Page, k: nat)
      requires Rest(data, w, i) && k < PAGE_SIZE
      requires var at := Max(w.offset, i * PAGE_SIZE) - i * PAGE_SIZE;
        var to := Min(w.End(), (i + 1) * PAGE_SIZE) - i * PAGE_SIZE;
        if at <= k < to then
          0 <= i * PAGE_SIZE + k - w.offset < |data| && page[k] == data[i * PAGE_SIZE + k - w.offset]
        else page[k] == base[k]
      ensures page[k] == Overlay(base, i, w)[k]
    {
      if w.Covers(i * PAGE_SIZE + k) {
        var j := i * PAGE_SIZE + k - w.offset;
        assert (w.offset + j) / PAGE_SIZE == i;
      }
    }

    // The body of the write loop: put page i, whole or patched.
    method WritePage(n: Name, data: array<Byte>, offset: nat, i: nat, ghost w: Write)
      requires Valid() && w.Touches(i) && w.offset == offset && Rest(data[..], w, i)
      modifies this`files, this`disk, data
      ensures Valid()
      ensures disk == AppendOps(old(disk), n,
        [BatchOp.TryPut((n, i), Overlay(PageOr0(old(disk).committed, n, i), i, w))])
      ensures PageDone(old(data[..]), data[..], n, w, i)
    {
      var pageStart := i * PAGE_SIZE;
      var pageEnd := pageStart + PAGE_SIZE;
      var writeStart := Max(offset, pageStart);
      var writeEnd := Min(offset + data.Length, pageEnd);
      var writeLength := writeEnd - writeStart;
      var pageOffset := writeStart - pageStart;
      var dataStart := writeStart - offset;
      if writeLength == PAGE_SIZE {
        PutSlice(n, data, i, dataStart, w);
      } else {
        PartialPageDone(data[..], n, w, i);
        var page := PageOrZeros(n, i);
        Patch(data, dataStart, dataStart + writeLength, page, pageOffset, i, w);
        PutPage(n, i, page);
      }
    }

    method PutPage(n: Name, i: nat, page: array<Byte>)
      requires Valid() && page.Length == PAGE_SIZE
      modifies this`files, this`disk, page
      ensures Valid()
      ensures var value: Page := old(page[..]);
        disk == AppendOps(old(disk), n, [BatchOp.TryPut((n, i), value)])
    {
      assert page[0..PAGE_SIZE] == page[..];
      TryPut(n, i, page, 0);
    }

    // Copy the slice of the write that lies on page i over that page.
    method Patch(data: array<Byte>, from: nat, to: nat, page: array<Byte>, at: nat, i: nat, ghost w: Write)
      requires data != page && page.Length == PAGE_SIZE && Rest(data[..], w, i) && w.Touches(i)
      requires at == Max(w.offset, i * PAGE_SIZE) - i * PAGE_SIZE
      requires from == Max(w.offset, i * PAGE_SIZE) - w.offset
      requires to == Min(w.End(), (i + 1) * PAGE_SIZE) - w.offset && from <= to
      modifies page
      ensures page[..] == Overlay(old(page[..]), i, w)
    {
      ghost var base := page[..];
      Copy(data, from, to, page, at);
      forall k | 0 <= k < PAGE_SIZE ensures page[k] == Overlay(base, i, w)[k] {
        PatchedPage(data[..], w, base, i, page[..], k);
      }
    }

    // A whole page is put straight from the caller's buffer.
    method PutSlice(n: Name, data: array<Byte>, i: nat, from: nat, ghost w: Write)
      requires Valid() && w.Fills(i) && from == i * PAGE_SIZE - w.offset && Rest(data[..], w, i)
      modifies this`files, this`disk, data
      ensures Valid()
      ensures disk == AppendOps(old(disk), n,
        [BatchOp.TryPut((n, i), Overlay(PageOr0(old(disk).committed, n, i), i, w))])
      ensures PageDone(old(data[..]), data[..], n, w, i)
    {
      ghost var before := data[..];
      FullSlice(before, w, PageOr0(disk.committed, n, i), i, from);
      TryPut(n, i, data, from);
      CallersSlice(before, data[..], w, n, i, from);
    }

    method PageOrZeros(n: Name, i: nat) returns (page: array<Byte>)
      requires Valid()
      ensures fresh(page) && page[..] == PageOr0(disk.committed, n, i)
    {
      var found := Get(n, i);
      if found == null { page := new Byte[PAGE_SIZE](_ => 0); } else { page := found; }
      assert found == null ==> page[..] == ZeroPage();
    }

    method XTruncate(n: Name, size: nat) returns (ok: bool)
      requires Valid()
      modifies this`files, this`disk
      ensures Valid()
      ensures Outcome(disk, ok) == TruncateSpec(old(disk), n, size)
    {
      var index := Last(n);
      var current := (index + 1) * PAGE_SIZE;
      if size > current {
        var targetIndex := (size - 1) / PAGE_SIZE;
        PutZeros(n, index + 1, targetIndex);
      } else if size < current {
        // The loop that would delete pages starts from an undeclared name.
        return false;
      }
      return true;
    }

    // The loop of a growing _xTruncate.
    method PutZeros(n: Name, from: nat, targetIndex: nat)
      requires Valid() && from <= targetIndex
      modifies this`files, this`disk
      ensures Valid()
      ensures disk == AppendOps(old(disk), n, ZeroOps(n, from, targetIndex + 1))
    {
      ghost var d := disk;
      for i := from to targetIndex + 1
        invariant Valid() && disk == AppendOps(d, n, ZeroOps(n, from, i))
      {
        PutZero(n, i, d, from);
      }
    }

    method PutZero(n: Name, i: nat, ghost d: Disk, ghost from: nat)
      requires Valid() && from <= i && disk == AppendOps(d, n, ZeroOps(n, from, i))
      modifies this`files, this`disk
      ensures Valid() && disk == AppendOps(d, n, ZeroOps(n, from, i + 1))
    {
      PageTheorems.NextZero(d, n, from, i);
      var zeros := new Byte[PAGE_SIZE](_ => 0);
      assert zeros[..] == ZeroPage();
      PutPage(n, i, zeros);
    }

    method XSync(n: Name) returns (ok: bool)
      requires Valid()
      modifies this`files, this`disk, Home(n)
      ensures Valid()
      ensures Outcome(disk, ok) == SyncSpec(old(disk), n)
    {
      ok := Flush(n);
    }

    /** The callbacks are served one at a time; any run of them does what `Run` says. */
    method Serve(calls: seq<PageTheorems.Callback>)
      requires Valid()
      modifies this`files, this`disk, bee, tmp, view
      ensures Valid() && disk == PageTheorems.Run(old(disk), calls)
    {
      ghost var d := disk;
      for i := 0 to |calls|
        invariant Valid() && disk == PageTheorems.Run(d, calls[..i])
      {
        ghost var before := disk;
        ServeOne(calls[i]);
        assert calls[..i + 1][..i] == calls[..i];
        assert PageTheorems.Run(d, calls[..i + 1]) == PageTheorems.Step(before, calls[i]);
      }
      assert calls[..|calls|] == calls;
    }

    method ServeOne(c: PageTheorems.Callback)
      requires Valid()
      modifies this`files, this`disk, Home(c.n)
      ensures Valid() && disk == PageTheorems.Step(old(disk), c)
    {
      match c {
        case DoWrite(n, w) =>
          var data := new Byte[|w.data|](k requires 0 <= k < |w.data| => w.data[k]);
          assert Write(w.offset, data[..]) == w;
          XWrite(n, data, w.offset);
        case DoSync(n) => var ok := XSync(n);
        case DoDelete(n) => var ok := XDelete(n);
        case DoTruncate(n, size) => var ok := XTruncate(n, size);
      }
    }

    // ----- runs that point at other views in between -----

    // Null points back at the view of the bee.
    function Target(v: Store?): Store { if v == null then bee else v }

    ghost predicate Points(e: Event, views: set<Store>) {
      e.Point? ==> Target(e.v) in views
    }

    /** One event on the decoded pages of all views. */
    ghost function Next(w: World, e: Event): (next: World)
      requires w.current in w.mains && Points(e, w.mains.Keys)
      ensures next.current in next.mains && next.mains.Keys == w.mains.Keys
    {
      match e
      case Callback(c) =>
        var d := PageTheorems.Step(w.Seen(), c);
        World(w.mains[w.current := Part(d.committed, name, true)], w.current, Part(d.committed, name, false), d.pending)
      case Point(v) => if w.pending == map[] then w.(current := Target(v)) else w
    }

    ghost function RunWorld(w: World, events: seq<Event>): (after: World)
      requires w.current in w.mains && forall i :: 0 <= i < |events| ==> Points(events[i], w.mains.Keys)
      ensures after.current in after.mains && after.mains.Keys == w.mains.Keys
    {
      if events == [] then w else Next(RunWorld(w, events[..|events| - 1]), events[|events| - 1])
    }

    /** A view that no event points at keeps its pages: so does the one that prepares read during a call of _apply. */
    lemma {:induction false} OtherViewsKept(w: World, events: seq<Event>, v: Store)
      requires w.current in w.mains && forall i :: 0 <= i < |events| ==> Points(events[i], w.mains.Keys)
      requires v in w.mains && v != w.current
      requires forall i :: 0 <= i < |events| && events[i].Point? ==> Target(events[i].v) != v
      ensures RunWorld(w, events).mains[v] == w.mains[v] && RunWorld(w, events).current != v
    {
      if events != [] {
        OtherViewsKept(w, events[..|events| - 1], v);
      }
    }

    // The database file is in every view, and the other files are not.
    ghost predicate Sided(w: World) {
      && (forall v, k :: v in w.mains && k in w.mains[v] ==> k.0 == name)
      && (forall k :: k in w.tmp ==> k.0 != name)
    }

    lemma CallbackSeen(w: World, c: PageTheorems.Callback)
      requires w.current in w.mains && Sided(w)
      ensures var next := Next(w, Callback(c)); Sided(next) && next.Seen() == PageTheorems.Step(w.Seen(), c)
    {
      var d := PageTheorems.Step(w.Seen(), c);
      assert Part(d.committed, name, true) + Part(d.committed, name, false) == d.committed;
    }

    /** Between two changes of the view, a run is a run of callbacks on what is seen there. */
    lemma {:induction false} SeenRuns(w: World, calls: seq<PageTheorems.Callback>, events: seq<Event>)
      requires w.current in w.mains && Sided(w) && |events| == |calls|
      requires forall i :: 0 <= i < |calls| ==> events[i] == Callback(calls[i])
      ensures var after := RunWorld(w, events);
        Sided(after) && after.current == w.current && after.Seen() == PageTheorems.Run(w.Seen(), calls)
    {
      if events != [] {
        var n := |events| - 1;
        SeenRuns(w, calls[..n], events[..n]);
        CallbackSeen(RunWorld(w, events[..n]), calls[n]);
      }
    }

    /** After any run, the view is changed exactly if no batch is open, and then its pages are seen. */
    lemma PointSees(w: World, events: seq<Event>, v: Store)
      requires w.current in w.mains && v in w.mains && forall i :: 0 <= i < |events| ==> Points(events[i], w.mains.Keys)
      ensures var m, after := RunWorld(w, events), RunWorld(w, events + [Point(v)]);
        if m.pending == map[] then after.current == v && after.Seen() == Disk(m.mains[v] + m.tmp, map[]) else after == m
    {
      assert (events + [Point(v)])[..|events|] == events;
    }

    // The stored page invariant for all views.
    ghost predicate Sound(views: set<Store>)
      reads this, bee, tmp, view, views
    {
      && Valid() && Current() in views && bee in views && tmp !in views
      && forall v :: v in views ==> Holds(v)
    }

    ghost function TheWorld(views: set<Store>): (w: World)
      requires Sound(views)
      reads this, bee, tmp, view, views
      ensures w.current in w.mains && w.mains.Keys == views
    {
      World(map v | v in views :: TheLayer().Decoded(v.pages), Current(), TheLayer().Decoded(tmp.pages), disk.pending)
    }

    lemma SeenIsDisk(views: set<Store>)
      requires Sound(views)
      ensures TheWorld(views).Seen() == disk
    {
      TheLayer().DecodedUnion(Current().pages, tmp.pages);
    }

    lemma PartsOfDisk()
      requires Valid()
      ensures TheLayer().Decoded(Current().pages) == Part(disk.committed, name, true)
      ensures TheLayer().Decoded(tmp.pages) == Part(disk.committed, name, false)
    {
      TheLayer().DecodedUnion(Current().pages, tmp.pages);
      PartsOfUnion(TheLayer().Decoded(Current().pages), TheLayer().Decoded(tmp.pages), name);
    }

    /**
     Any run of callbacks and changes of the view keeps the invariant of every view, and
     acts on their decoded pages as RunWorld says.
     */
    method ServeAll(events: seq<Event>, ghost views: set<Store>)
      requires Sound(views) && forall i :: 0 <= i < |events| ==> Points(events[i], views)
      modifies this`files, this`disk, this`view, tmp, views
      ensures Sound(views) && TheWorld(views) == RunWorld(old(TheWorld(views)), events)
    {
      ghost var w := TheWorld(views);
      for i := 0 to |events|
        invariant Sound(views) && TheWorld(views) == RunWorld(w, events[..i])
      {
        assert events[..i + 1][..i] == events[..i] && events[..i + 1][i] == events[i];
        ServeEvent(events[i], views);
      }
      assert events[..|events|] == events;
    }

    method ServeEvent(e: Event, ghost views: set<Store>)
      requires Sound(views) && Points(e, views)
      modifies this`files, this`disk, this`view, tmp, views
      ensures Sound(views) && TheWorld(views) == Next(old(TheWorld(views)), e)
    {
      match e {
        case Callback(c) => ServeCallback(c, views);
        case Point(v) => PointAt(v, views);
      }
    }

    method ServeCallback(c: PageTheorems.Callback, ghost views: set<Store>)
      requires Sound(views)
      modifies this`files, this`disk, tmp, views
      ensures Sound(views) && TheWorld(views) == Next(old(TheWorld(views)), Callback(c))
    {
      ghost var w := TheWorld(views);
      SeenIsDisk(views);
      OthersOf(views);
      ServeInView(c, views, w);
      WorldOfDisk(views, w);
    }

    // The views that are not pointed at are as in w.
    ghost predicate OthersShow(views: set<Store>, w: World)
      requires TheLayer().Lawful()
      reads this, views
    {
      forall v :: v in views && v != w.current ==>
        v in w.mains && TheLayer().Stores(v.pages) && w.mains[v] == TheLayer().Decoded(v.pages)
    }

    lemma OthersOf(views: set<Store>)
      requires Sound(views)
      ensures OthersShow(views, TheWorld(views))
    {
    }

    method ServeInView(c: PageTheorems.Callback, ghost views: set<Store>, ghost w: World)
      requires Sound(views) && w.current == Current() && OthersShow(views, w)
      modifies this`files, this`disk, tmp, views
      ensures Sound(views) && disk == PageTheorems.Step(old(disk), c) && w.current == Current() && OthersShow(views, w)
    {
      ServeOne(c);
    }

    lemma WorldOfDisk(views: set<Store>, w: World)
      requires Sound(views) && w.current == Current() && OthersShow(views, w) && w.mains.Keys == views
      ensures TheWorld(views)
        == World(w.mains[w.current := Part(disk.committed, name, true)], w.current, Part(disk.committed, name, false), disk.pending)
    {
      PartsOfDisk();
      var mains := w.mains[w.current := Part(disk.committed, name, true)];
      forall v | v in views ensures TheWorld(views).mains[v] == mains[v] {
      }
      assert TheWorld(views).mains == mains;
    }

    method PointAt(v: Store?, ghost views: set<Store>)
      requires Sound(views) && Target(v) in views
      modifies this`disk, this`view
      ensures Sound(views) && TheWorld(views) == Next(old(TheWorld(views)), Point(v))
    {
      var ok := SetView(v);
    }

    method XSize(n: Name) returns (size: nat)
      requires Valid()
      ensures size == disk.Size(n)
    {
      var index := Last(n);
      size := (index + 1) * PAGE_SIZE;
    }
  }
}

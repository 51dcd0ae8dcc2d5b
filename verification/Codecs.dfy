/** lib/codecs.js: the binary form of an operation, and its decoding. */
module Codecs {
  import opened Common

  type Key = k: Bytes | |k| == 32 witness seq(32, _ => 0)

  // A value of compact-encoding's `any`: P stands for objects and arrays.
  datatype Any<+P> = Undefined | Null | Params(params: P) {
    function Normal(): Any<P> {
      if Undefined? then Null else this
    }
  }

  datatype Operation<+P> =
    | WriterAdd(key: Key)
    | WriterDel(key: Key)
    | Exec(sql: string)
    | Run(sql: string, named: Any<P>, positional: Any<P>)
    | Stmt(sql: string, named: Any<P>, positional: Any<P>)
    | Batch(named: Any<P>, positional: Any<P>)
    | Flush
    | Other(tag: Byte)
  {
    function Tag(): Byte {
      match this
      case WriterAdd(_) => 1
      case WriterDel(_) => 2
      case Exec(_) => 8
      case Run(_, _, _) => 9
      case Stmt(_, _, _) => 10
      case Batch(_, _) => 11
      case Flush => 12
      case Other(t) => t
    }

    // The tags outside the OPERATION table.
    predicate WellTagged() {
      Other? ==> tag !in {1, 2, 8, 9, 10, 11, 12}
    }

    // What a decoder can give back: undefined parameters become null.
    function Normal(): Operation<P> {
      match this
      case Run(s, n, p) => Run(s, n.Normal(), p.Normal())
      case Stmt(s, n, p) => Stmt(s, n.Normal(), p.Normal())
      case Batch(n, p) => Batch(n.Normal(), p.Normal())
      case _ => this
    }
  }

  // A codec of the compact-encoding library: read answers None where it throws.
  datatype Codec<!T> = Codec(size: T -> nat, write: T -> Bytes, read: Bytes -> Option<(T, nat)>)

  datatype Formats<!P(!new)> = Formats(text: Codec<string>, any: Codec<Any<P>>) {
    ghost predicate Lawful() {
      && (forall x :: |text.write(x)| == text.size(x))
      && (forall x, rest :: text.read(text.write(x) + rest) == Some((x, text.size(x))))
      && (forall x :: |any.write(x)| == any.size(x))
      && (forall x, rest :: any.read(any.write(x) + rest) == Some((x.Normal(), any.size(x))))
      && (forall b :: text.read(b).Some? ==> text.read(b).value.1 <= |b|)
      && (forall b :: any.read(b).Some? ==> any.read(b).value.1 <= |b|)
    }
  }

  // ----- the format -----

  function Written<P(!new)>(f: Formats<P>, op: Operation<P>): Bytes {
    [op.Tag()] + match op
    case WriterAdd(k) => k
    case WriterDel(k) => k
    case Exec(s) => f.text.write(s)
    case Run(s, n, p) => f.text.write(s) + f.any.write(n) + f.any.write(p)
    case Stmt(s, n, p) => f.text.write(s) + f.any.write(n) + f.any.write(p)
    case Batch(n, p) => f.any.write(n) + f.any.write(p)
    case Flush => []
    case Other(_) => []
  }

  // The next value and what is left after it.
  function Next<T>(c: Codec<T>, b: Bytes): Option<(T, Bytes)> {
    match c.read(b)
    case None => None
    case Some((x, n)) => if n <= |b| then Some((x, b[n..])) else None
  }

  function Parsed<P(!new)>(f: Formats<P>, b: Bytes): Option<(Operation<P>, Bytes)> {
    if b == [] then None
    else
      var tag, rest := b[0], b[1..];
      if tag == 1 || tag == 2 then
        if |rest| < 32 then None
        else Some((if tag == 1 then WriterAdd(rest[..32]) else WriterDel(rest[..32]), rest[32..]))
      else if tag == 8 then
        match Next(f.text, rest) case None => None case Some((s, r)) => Some((Exec(s), r))
      else if tag == 9 || tag == 10 then
        match Next(f.text, rest)
        case None => None
        case Some((s, r)) =>
          (match ParsedParams(f, r)
           case None => None
           case Some((n, p, r')) => Some((if tag == 9 then Run(s, n, p) else Stmt(s, n, p), r')))
      else if tag == 11 then
        match ParsedParams(f, rest) case None => None case Some((n, p, r)) => Some((Batch(n, p), r))
      else if tag == 12 then Some((Flush, rest))
      else Some((Other(tag), rest))
  }

  function ParsedParams<P(!new)>(f: Formats<P>, b: Bytes): Option<(Any<P>, Any<P>, Bytes)> {
    match Next(f.any, b)
    case None => None
    case Some((n, r)) => (match Next(f.any, r) case None => None case Some((p, r')) => Some((n, p, r')))
  }

  lemma NextText<P(!new)>(f: Formats<P>, x: string, rest: Bytes)
    requires f.Lawful()
    ensures Next(f.text, f.text.write(x) + rest) == Some((x, rest))
  {
    assert (f.text.write(x) + rest)[f.text.size(x)..] == rest;
  }

  lemma NextAny<P(!new)>(f: Formats<P>, x: Any<P>, rest: Bytes)
    requires f.Lawful()
    ensures Next(f.any, f.any.write(x) + rest) == Some((x.Normal(), rest))
  {
    assert (f.any.write(x) + rest)[f.any.size(x)..] == rest;
  }

  lemma NextParams<P(!new)>(f: Formats<P>, n: Any<P>, p: Any<P>, rest: Bytes)
    requires f.Lawful()
    ensures ParsedParams(f, f.any.write(n) + f.any.write(p) + rest) == Some((n.Normal(), p.Normal(), rest))
  {
    assert f.any.write(n) + f.any.write(p) + rest == f.any.write(n) + (f.any.write(p) + rest);
    NextAny(f, n, f.any.write(p) + rest);
    NextAny(f, p, rest);
  }

  lemma RoundTripParams<P(!new)>(f: Formats<P>, op: Operation<P>, rest: Bytes)
    requires f.Lawful() && (op.Run? || op.Stmt?)
    ensures Parsed(f, Written(f, op) + rest) == Some((op.Normal(), rest))
  {
    var text, named, positional := f.text.write(op.sql), f.any.write(op.named), f.any.write(op.positional);
    WrittenThenRest(op.Tag(), text, named, positional, rest);
    NextText(f, op.sql, named + positional + rest);
    NextParams(f, op.named, op.positional, rest);
  }

  lemma WrittenThenRest(tag: Byte, text: Bytes, named: Bytes, positional: Bytes, rest: Bytes)
    ensures var b := [tag] + (text + named + positional) + rest;
      b[0] == tag && b[1..] == text + (named + positional + rest)
  {
  }

  lemma RoundTripBatch<P(!new)>(f: Formats<P>, op: Operation<P>, rest: Bytes)
    requires f.Lawful() && op.Batch?
    ensures Parsed(f, Written(f, op) + rest) == Some((op.Normal(), rest))
  {
    var b := Written(f, op) + rest;
    assert b[0] == op.Tag() && b[1..] == f.any.write(op.named) + f.any.write(op.positional) + rest;
    NextParams(f, op.named, op.positional, rest);
  }

  lemma RoundTripSimple<P(!new)>(f: Formats<P>, op: Operation<P>, rest: Bytes)
    requires f.Lawful() && op.WellTagged() && !HasParams(op)
    ensures Parsed(f, Written(f, op) + rest) == Some((op.Normal(), rest))
  {
    var b := Written(f, op) + rest;
    assert b[0] == op.Tag();
    if op.Exec? {
      assert b[1..] == f.text.write(op.sql) + rest;
      NextText(f, op.sql, rest);
    } else if op.WriterAdd? || op.WriterDel? {
      assert b[1..] == op.key + rest;
      assert b[1..][..32] == op.key && b[1..][32..] == rest;
    } else {
      assert b[1..] == rest;
    }
  }

  /** Decoding an encoded operation gives it back and stops exactly at its end. */
  lemma RoundTrip<P(!new)>(f: Formats<P>, op: Operation<P>, rest: Bytes)
    requires f.Lawful() && op.WellTagged()
    ensures Parsed(f, Written(f, op) + rest) == Some((op.Normal(), rest))
  {
    if op.Run? || op.Stmt? {
      RoundTripParams(f, op, rest);
    } else if op.Batch? {
      RoundTripBatch(f, op, rest);
    } else {
      RoundTripSimple(f, op, rest);
    }
  }

  /** Two operations have the same bytes only if they differ in undefined against null at most. */
  lemma EncodingInjective<P(!new)>(f: Formats<P>, a: Operation<P>, b: Operation<P>)
    requires f.Lawful() && a.WellTagged() && b.WellTagged()
    requires Written(f, a) == Written(f, b)
    ensures a.Normal() == b.Normal()
  {
    RoundTrip(f, a, []);
    RoundTrip(f, b, []);
  }

  // The bytes that follow the tag.
  lemma Layout<P(!new)>(f: Formats<P>, op: Operation<P>)
    ensures var b := Written(f, op); b != [] && match op
      case WriterAdd(k) => b[0] == 1 && b[1..] == k
      case WriterDel(k) => b[0] == 2 && b[1..] == k
      case Exec(s) => b[0] == 8 && b[1..] == f.text.write(s)
      case Run(s, n, p) => b[0] == 9 && b[1..] == f.text.write(s) + f.any.write(n) + f.any.write(p)
      case Stmt(s, n, p) => b[0] == 10 && b[1..] == f.text.write(s) + f.any.write(n) + f.any.write(p)
      case Batch(n, p) => b[0] == 11 && b[1..] == f.any.write(n) + f.any.write(p)
      case Flush => b == [12]
      case Other(t) => b == [t]
  {
    assert Written(f, op)[1..] == match op
      case WriterAdd(k) => k
      case WriterDel(k) => k
      case Exec(s) => f.text.write(s)
      case Run(s, n, p) => f.text.write(s) + f.any.write(n) + f.any.write(p)
      case Stmt(s, n, p) => f.text.write(s) + f.any.write(n) + f.any.write(p)
      case Batch(n, p) => f.any.write(n) + f.any.write(p)
      case Flush => []
      case Other(t) => [];
  }

  // A field that can be read, and its length.
  predicate Reads<T>(c: Codec<T>, b: Bytes) {
    c.read(b).Some? && c.read(b).value.1 <= |b|
  }

  predicate ReadsTwo<T>(c: Codec<T>, b: Bytes) {
    Reads(c, b) && Reads(c, b[c.read(b).value.1..])
  }

  /** What cannot be decoded: a node that ends before the fields of its tag do. */
  lemma UndecodableExactly<P(!new)>(f: Formats<P>, b: Bytes)
    ensures Parsed(f, b) == None <==>
      || b == []
      || (b[0] in {1, 2} && |b| < 33)
      || (b[0] in {8, 9, 10} && !Reads(f.text, b[1..]))
      || (b[0] in {9, 10} && Reads(f.text, b[1..]) && !ReadsTwo(f.any, b[1..][f.text.read(b[1..]).value.1..]))
      || (b[0] == 11 && !ReadsTwo(f.any, b[1..]))
  {
  }

  // ----- the codec over a cursor -----

  class State {
    var start: nat
    var end: nat
    var buffer: array<Byte>

    constructor ()
      ensures start == end == 0 && fresh(buffer)
    {
      start, end := 0, 0;
      buffer := new Byte[0];
    }

    // Put bytes at the cursor, as the encode of a library codec does.
    method Put(bytes: Bytes)
      requires start + |bytes| <= buffer.Length
      modifies this`start, buffer
      ensures start == old(start) + |bytes|
      ensures buffer[..start] == old(buffer[..start]) + bytes
      ensures buffer[start..] == old(buffer[start + |bytes|..])
    {
      forall k | 0 <= k < |bytes| {
        buffer[start + k] := bytes[k];
      }
      start := start + |bytes|;
    }

    // Between head and tail, `done` was put so far.
    ghost predicate Reached(head: Bytes, done: Bytes, tail: Bytes)
      reads this, buffer
    {
      && start <= buffer.Length && |done| <= |tail|
      && buffer[..start] == head + done && buffer[start..] == tail[|done|..]
    }

    method PutAfter(bytes: Bytes, ghost head: Bytes, ghost done: Bytes, ghost tail: Bytes)
      requires start + |bytes| <= buffer.Length && Reached(head, done, tail)
      modifies this`start, buffer
      ensures start == old(start) + |bytes| && Reached(head, done + bytes, tail)
    {
      assert |tail[|done|..]| == buffer.Length - start;
      Put(bytes);
      assert head + done + bytes == head + (done + bytes);
      assert tail[|done|..][|bytes|..] == tail[|done + bytes|..];
      assert buffer[start..] == tail[|done|..][|bytes|..];
    }
  }

  // The cases of the switch, with those that fall through into the next one.
  predicate HasText<P>(op: Operation<P>) { op.Exec? || op.Run? || op.Stmt? }
  predicate HasParams<P>(op: Operation<P>) { op.Run? || op.Stmt? || op.Batch? }

  function KeyPart<P>(op: Operation<P>): Bytes {
    if op.WriterAdd? || op.WriterDel? then op.key else []
  }

  function TextPart<P(!new)>(f: Formats<P>, op: Operation<P>): Bytes {
    if HasText(op) then f.text.write(op.sql) else []
  }

  function ParamsPart<P(!new)>(f: Formats<P>, op: Operation<P>): Bytes {
    if HasParams(op) then f.any.write(op.named) + f.any.write(op.positional) else []
  }

  lemma WrittenParts<P(!new)>(f: Formats<P>, op: Operation<P>)
    ensures Written(f, op) == [op.Tag()] + KeyPart(op) + TextPart(f, op) + ParamsPart(f, op)
  {
    var parts := [op.Tag()] + KeyPart(op) + TextPart(f, op) + ParamsPart(f, op);
    if op.Run? || op.Stmt? {
      var text, params := TextPart(f, op), ParamsPart(f, op);
      assert parts == [op.Tag()] + (text + params);
      assert text + params == f.text.write(op.sql) + f.any.write(op.named) + f.any.write(op.positional);
    } else {
      assert parts == [op.Tag()] + (if op.Batch? then ParamsPart(f, op) else if op.Exec? then TextPart(f, op) else KeyPart(op));
    }
  }

  method Preencode<P(!new)>(f: Formats<P>, state: State, op: Operation<P>)
    requires f.Lawful()
    modifies state`end
    ensures state.end == old(state.end) + |Written(f, op)|
  {
    state.end := state.end + 1;
    if op.WriterAdd? || op.WriterDel? {
      state.end := state.end + 32;
    }
    if HasText(op) {
      state.end := state.end + f.text.size(op.sql);
    }
    if HasParams(op) {
      state.end := state.end + f.any.size(op.named);
      state.end := state.end + f.any.size(op.positional);
    }
  }

  method Encode<P(!new)>(f: Formats<P>, state: State, op: Operation<P>)
    requires f.Lawful()
    requires state.start + |Written(f, op)| <= state.buffer.Length
    modifies state`start, state.buffer
    ensures state.start == old(state.start) + |Written(f, op)|
    ensures state.buffer[..state.start] == old(state.buffer[..state.start]) + Written(f, op)
    ensures state.buffer[state.start..] == old(state.buffer[state.start..])[|Written(f, op)|..]
  {
    ghost var head, tail := state.buffer[..state.start], state.buffer[state.start..];
    ghost var key, text, params := KeyPart(op), TextPart(f, op), ParamsPart(f, op);
    ghost var tag := [op.Tag()];
    WrittenParts(f, op);
    assert |Written(f, op)| == 1 + |key| + |text| + |params|;
    state.PutAfter([op.Tag()], head, [], tail);
    assert [] + tag == tag;
    EncodeKey(state, op, head, tag, tail);
    EncodeText(f, state, op, head, tag + key, tail);
    EncodeParams(f, state, op, head, tag + key + text, tail);
  }

  // The parts of the switch, each after what was put before it.
  method EncodeKey<P(!new)>(state: State, op: Operation<P>, ghost head: Bytes, ghost done: Bytes, ghost tail: Bytes)
    requires state.Reached(head, done, tail) && state.start + |KeyPart(op)| <= state.buffer.Length
    modifies state`start, state.buffer
    ensures state.start == old(state.start) + |KeyPart(op)|
    ensures state.Reached(head, done + KeyPart(op), tail)
  {
    if op.WriterAdd? || op.WriterDel? {
      state.PutAfter(op.key, head, done, tail);
    } else {
      assert done + KeyPart(op) == done;
    }
  }

  method EncodeText<P(!new)>(f: Formats<P>, state: State, op: Operation<P>,
                             ghost head: Bytes, ghost done: Bytes, ghost tail: Bytes)
    requires state.Reached(head, done, tail) && state.start + |TextPart(f, op)| <= state.buffer.Length
    modifies state`start, state.buffer
    ensures state.start == old(state.start) + |TextPart(f, op)|
    ensures state.Reached(head, done + TextPart(f, op), tail)
  {
    if HasText(op) {
      state.PutAfter(f.text.write(op.sql), head, done, tail);
    } else {
      assert done + TextPart(f, op) == done;
    }
  }

  method EncodeParams<P(!new)>(f: Formats<P>, state: State, op: Operation<P>,
                               ghost head: Bytes, ghost done: Bytes, ghost tail: Bytes)
    requires state.Reached(head, done, tail) && state.start + |ParamsPart(f, op)| <= state.buffer.Length
    modifies state`start, state.buffer
    ensures state.start == old(state.start) + |ParamsPart(f, op)|
    ensures state.Reached(head, done + ParamsPart(f, op), tail)
  {
    if HasParams(op) {
      ghost var named, positional := f.any.write(op.named), f.any.write(op.positional);
      state.PutAfter(f.any.write(op.named), head, done, tail);
      state.PutAfter(f.any.write(op.positional), head, done + named, tail);
      assert done + named + positional == done + ParamsPart(f, op);
    } else {
      assert done + ParamsPart(f, op) == done;
    }
  }

  // c.encode: reserve what preencode counts, then fill it.
  method EncodeOperation<P(!new)>(f: Formats<P>, op: Operation<P>) returns (bytes: array<Byte>)
    requires f.Lawful()
    ensures fresh(bytes) && bytes[..] == Written(f, op)
  {
    var state := new State();
    Preencode(f, state, op);
    state.buffer := new Byte[state.end](_ => 0);
    Encode(f, state, op);
    assert state.buffer[..state.start] == state.buffer[..];
    bytes := state.buffer;
  }

  method Take<T>(c: Codec<T>, state: State) returns (x: Option<T>)
    requires state.start <= state.end <= state.buffer.Length
    modifies state`start
    ensures state.start <= state.end
    ensures var r := Next(c, state.buffer[old(state.start)..state.end]);
      match r
      case None => x == None && state.start == old(state.start)
      case Some((v, rest)) => x == Some(v) && state.buffer[state.start..state.end] == rest
  {
    var here := state.buffer[state.start..state.end];
    match c.read(here) {
      case None => return None;
      case Some((v, n)) =>
        if n > |here| { return None; }
        state.start := state.start + n;
        assert state.buffer[state.start..state.end] == here[n..];
        return Some(v);
    }
  }

  /** Decode at the cursor; None where the library throws for lack of bytes. */
  method Decode<P(!new)>(f: Formats<P>, state: State) returns (op: Option<Operation<P>>)
    requires state.start <= state.end <= state.buffer.Length
    modifies state`start
    ensures state.start <= state.end
    ensures match Parsed(f, state.buffer[old(state.start)..state.end])
      case None => op == None
      case Some((v, rest)) => op == Some(v) && state.buffer[state.start..state.end] == rest
  {
    ghost var b := state.buffer[state.start..state.end];
    if state.start == state.end { return None; }
    var tag := state.buffer[state.start];
    state.start := state.start + 1;
    assert state.buffer[state.start..state.end] == b[1..];
    if tag == 1 || tag == 2 {
      if state.end - state.start < 32 { return None; }
      var key: Key := state.buffer[state.start..state.start + 32];
      assert key == b[1..][..32];
      state.start := state.start + 32;
      assert state.buffer[state.start..state.end] == b[1..][32..];
      return Some(if tag == 1 then WriterAdd(key) else WriterDel(key));
    }
    var sql := "";
    if tag == 8 || tag == 9 || tag == 10 {
      var text := Take(f.text, state);
      if text == None { return None; }
      sql := text.value;
    }
    if tag == 8 { return Some(Exec(sql)); }
    if tag == 9 || tag == 10 || tag == 11 {
      var named := Take(f.any, state);
      if named.None? { return None; }
      var positional := Take(f.any, state);
      if positional.None? { return None; }
      if tag == 9 { return Some(Run(sql, named.value, positional.value)); }
      if tag == 10 { return Some(Stmt(sql, named.value, positional.value)); }
      return Some(Batch(named.value, positional.value));
    }
    return Some(if tag == 12 then Flush else Other(tag));
  }
}

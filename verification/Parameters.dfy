/** binding.c, paraql_bind and its callbacks: which parameters are accepted, and who frees them. */
module Parameters {
  import opened Common

  // The values a caller can pass.  Other is any type that is not bound: booleans, functions, plain objects.
  datatype JsValue = JsNull | JsUndefined | JsNumber(n: real) | JsString(s: string) | JsBuffer(b: Bytes) | Other

  datatype Param = PNull | PInt(i: int) | PDouble(d: real) | PText(s: string) | PBlob(b: Bytes)

  // A number is bound as an integer if the cast to int64 loses nothing.
  function Converted(v: JsValue): Option<Param> {
    match v
    case JsNull => Some(PNull)
    case JsUndefined => Some(PNull)
    case JsNumber(n) =>
      Some(if n.Floor as real == n && -0x8000_0000_0000_0000 <= n.Floor < 0x8000_0000_0000_0000 then PInt(n.Floor) else PDouble(n))
    case JsString(s) => Some(PText(s))
    case JsBuffer(b) => Some(PBlob(b))
    case Other => None
  }

  // The object of named parameters, with its property names in order.  A string is its
  // UTF-8 encoding, one char for each byte, so a key is less than the 256 bytes of the buffer.
  datatype Named = Named(keys: seq<string>, values: map<string, JsValue>) {
    ghost predicate Valid() {
      && (forall k :: k in keys <==> k in values)
      && (forall k :: k in keys ==> |k| < 256 && '\0' !in k)
    }
  }

  datatype Error =
    | MissingPositional | MissingObject | MissingNamed | Unsupported | TooManyPositional | UnknownNamed
    | Misuse

  // A parameter without a name is None; a name starts with its sigil.
  type Names = names: seq<Option<string>> | forall i :: 0 <= i < |names| && names[i].Some? ==> names[i].value != "" witness []

  // ----- what is to be bound -----

  function Unnamed(names: seq<Option<string>>): nat {
    if names == [] then 0 else Unnamed(names[..|names| - 1]) + if names[|names| - 1].None? then 1 else 0
  }

  // The key with the sigil wins over the key without it.
  function KeyFor(named: Named, name: string): Option<string>
    requires name != ""
  {
    if name in named.values then Some(name)
    else if name[1..] in named.values then Some(name[1..])
    else None
  }

  // The value that slot i takes, or why there is none.
  datatype Slot = Takes(value: JsValue) | Lacks(error: Error)

  function SlotOf(names: Names, named: Option<Named>, positional: seq<JsValue>, i: nat): Slot
    requires i < |names|
  {
    match names[i]
    case None =>
      var p := Unnamed(names[..i]);
      if p < |positional| then Takes(positional[p]) else Lacks(MissingPositional)
    case Some(name) =>
      if named.None? then Lacks(MissingObject)
      else match KeyFor(named.value, name) case Some(k) => Takes(named.value.values[k]) case None => Lacks(MissingNamed)
  }

  predicate Fills(names: Names, named: Option<Named>, positional: seq<JsValue>, i: nat)
    requires i < |names|
  {
    var s := SlotOf(names, named, positional, i);
    s.Takes? && Converted(s.value).Some?
  }

  predicate Known(names: Names, key: string) {
    exists i :: 0 <= i < |names| && names[i].Some? && (names[i].value == key || names[i].value[1..] == key)
  }

  /** The set of calls that are accepted. */
  ghost predicate Acceptable(names: Names, named: Option<Named>, positional: seq<JsValue>) {
    && |positional| == Unnamed(names)
    && (forall i :: 0 <= i < |names| ==> Fills(names, named, positional, i))
    && (named.Some? ==> forall k :: k in named.value.keys ==> Known(names, k))
  }

  /** Why a call is refused: the first slot that is not filled, else too many values, else an unknown key. */
  ghost predicate RefusedFor(names: Names, named: Option<Named>, positional: seq<JsValue>, e: Error) {
    if exists i :: 0 <= i < |names| && !Fills(names, named, positional, i) then
      exists i ::
        && 0 <= i < |names| && !Fills(names, named, positional, i)
        && (forall j :: 0 <= j < i ==> Fills(names, named, positional, j))
        && e == (var s := SlotOf(names, named, positional, i); if s.Lacks? then s.error else Unsupported)
    else if Unnamed(names) < |positional| then e == TooManyPositional
    else e == UnknownNamed
  }

  // ----- what the definitions above come to -----

  predicate Equal(n: real, i: int) { n == i as real }

  ghost predicate IsInt64(n: real) {
    exists i :: Equal(n, i) && -0x8000_0000_0000_0000 <= i < 0x8000_0000_0000_0000
  }

  /** What a value is bound as: a number as an integer if it is one that fits, else as a double. */
  lemma ConvertedExactly(v: JsValue, i: int)
    ensures v.JsNull? || v.JsUndefined? ==> Converted(v) == Some(PNull)
    ensures v == JsNumber(i as real) && IsInt64(v.n) ==> Converted(v) == Some(PInt(i))
    ensures v.JsNumber? && !IsInt64(v.n) ==> Converted(v) == Some(PDouble(v.n))
    ensures v.JsString? ==> Converted(v) == Some(PText(v.s))
    ensures v.JsBuffer? ==> Converted(v) == Some(PBlob(v.b))
    ensures v.Other? <==> Converted(v) == None
  {
    if v.JsNumber? { assert v.n.Floor as real == v.n ==> Equal(v.n, v.n.Floor); }
  }

  // The elements at the slots without a name, in slot order.
  function AtUnnamed<T>(xs: seq<T>, names: seq<Option<string>>): seq<T>
    requires |xs| == |names|
  {
    if names == [] then []
    else
      var n := |names| - 1;
      AtUnnamed(xs[..n], names[..n]) + if names[n].None? then [xs[n]] else []
  }

  ghost predicate Gives(v: JsValue, p: Param) { Converted(v) == Some(p) }

  // What a named slot takes: the key with the sigil if it is there, else the one without.
  ghost predicate NamedValue(name: string, named: Option<Named>, p: Param)
    requires name != ""
  {
    named.Some? &&
    if name in named.value.values then Gives(named.value.values[name], p)
    else name[1..] in named.value.values && Gives(named.value.values[name[1..]], p)
  }

  /** The values of the slots without a name are the positional ones, in order; a named slot has the value of its key. */
  ghost predicate InOrder(bound: seq<Param>, names: Names, named: Option<Named>, positional: seq<JsValue>) {
    && |bound| == |names| && |AtUnnamed(bound, names)| == |positional|
    && (forall j :: 0 <= j < |positional| ==> Gives(positional[j], AtUnnamed(bound, names)[j]))
    && forall i :: 0 <= i < |names| && names[i].Some? ==> NamedValue(names[i].value, named, bound[i])
  }

  lemma {:induction false} UnnamedInOrder(bound: seq<Param>, names: Names, named: Option<Named>, positional: seq<JsValue>, n: nat)
    requires n <= |names| == |bound| && Unnamed(names[..n]) <= |positional|
    requires forall i :: 0 <= i < n ==> var s := SlotOf(names, named, positional, i); s.Takes? && Gives(s.value, bound[i])
    ensures var taken := AtUnnamed(bound[..n], names[..n]);
      |taken| == Unnamed(names[..n]) && forall j :: 0 <= j < |taken| ==> Gives(positional[j], taken[j])
  {
    if n > 0 {
      assert names[..n][..n - 1] == names[..n - 1] && bound[..n][..n - 1] == bound[..n - 1];
      UnnamedInOrder(bound, names, named, positional, n - 1);
      var s := SlotOf(names, named, positional, n - 1);
      assert s.Takes? && Gives(s.value, bound[n - 1]);
    }
  }

  lemma AsAskedInOrder(bound: seq<Param>, names: Names, named: Option<Named>, positional: seq<JsValue>)
    requires BoundAsAsked(bound, names, named, positional, |names|) && |positional| == Unnamed(names)
    ensures InOrder(bound, names, named, positional)
  {
    assert names[..|names|] == names && bound[..|names|] == bound;
    forall i | 0 <= i < |names|
      ensures var s := SlotOf(names, named, positional, i); s.Takes? && Gives(s.value, bound[i])
    {
      assert Fills(names, named, positional, i);
    }
    UnnamedInOrder(bound, names, named, positional, |names|);
  }

  lemma {:induction false} AllUnnamed<T>(xs: seq<T>, names: seq<Option<string>>)
    requires |xs| == |names| && forall i :: 0 <= i < |names| ==> names[i].None?
    ensures AtUnnamed(xs, names) == xs
  {
    if names != [] {
      AllUnnamed(xs[..|names| - 1], names[..|names| - 1]);
      assert xs == xs[..|names| - 1] + [xs[|names| - 1]];
    }
  }

  /** Without names, parameter i is the value at index i. */
  lemma PositionalInOrder(bound: seq<Param>, names: Names, named: Option<Named>, positional: seq<JsValue>)
    requires InOrder(bound, names, named, positional) && forall i :: 0 <= i < |names| ==> names[i].None?
    ensures |bound| == |positional| && forall i :: 0 <= i < |bound| ==> Converted(positional[i]) == Some(bound[i])
  {
    AllUnnamed(bound, names);
    assert forall i :: 0 <= i < |bound| ==> Gives(positional[i], AtUnnamed(bound, names)[i]);
  }

  // A key that would be found for the name.
  ghost predicate HasKey(named: Named, name: string)
    requires name != ""
  {
    name in named.values || name[1..] in named.values
  }

  lemma {:induction false} UnnamedIs(names: seq<Option<string>>)
    ensures Unnamed(names) == |AtUnnamed(names, names)|
    ensures Unnamed(names) <= |names|
  {
    if names != [] { UnnamedMore(names, names); }
  }

  lemma {:induction false} UnnamedMore<T>(xs: seq<T>, names: seq<Option<string>>)
    requires |xs| == |names|
    ensures Unnamed(names) == |AtUnnamed(xs, names)| <= |names|
  {
    if names != [] {
      UnnamedMore(xs[..|names| - 1], names[..|names| - 1]);
    }
  }

  lemma {:induction false} UnnamedPrefix(names: seq<Option<string>>, i: nat)
    requires i < |names|
    ensures Unnamed(names[..i]) + (if names[i].None? then 1 else 0) <= Unnamed(names)
  {
    var n := |names| - 1;
    if i < n {
      UnnamedPrefix(names[..n], i);
      assert names[..n][..i] == names[..i];
    }
  }

  lemma {:induction false} SlotFor(names: seq<Option<string>>, j: nat) returns (i: nat)
    requires j < Unnamed(names)
    ensures i < |names| && names[i].None? && Unnamed(names[..i]) == j
  {
    var n := |names| - 1;
    if names[n].None? && Unnamed(names[..n]) == j {
      i := n;
    } else {
      i := SlotFor(names[..n], j);
      assert names[..n][..i] == names[..i];
    }
  }

  // What a named parameter asks of the call.
  ghost predicate NamedGiven(name: string, named: Option<Named>)
    requires name != ""
  {
    named.Some? && HasKey(named.value, name) &&
    !named.value.values[if name in named.value.values then name else name[1..]].Other?
  }

  ghost predicate NamesKey(names: Names, k: string) {
    exists i :: 0 <= i < |names| && names[i].Some? && k in {names[i].value, names[i].value[1..]}
  }

  lemma FillsExactly(names: Names, named: Option<Named>, positional: seq<JsValue>, i: nat)
    requires i < |names|
    ensures Fills(names, named, positional, i) <==>
      match names[i]
      case None => Unnamed(names[..i]) < |positional| && !positional[Unnamed(names[..i])].Other?
      case Some(name) => NamedGiven(name, named)
  {
    var s := SlotOf(names, named, positional, i);
    if s.Takes? { ConvertedExactly(s.value, 0); }
  }

  /**
   Which calls are accepted: as many positional values as there are slots without a name,
   all of supported types; a supported value for each name; and no key that names nothing.
   */
  lemma AcceptableExactly(names: Names, named: Option<Named>, positional: seq<JsValue>)
    ensures Acceptable(names, named, positional) <==>
      && |positional| == |AtUnnamed(names, names)|
      && (forall j :: 0 <= j < |positional| ==> !positional[j].Other?)
      && (forall i :: 0 <= i < |names| && names[i].Some? ==> NamedGiven(names[i].value, named))
      && (named.Some? ==> forall k :: k in named.value.keys ==> NamesKey(names, k))
  {
    UnnamedIs(names);
    forall i | 0 <= i < |names|
      ensures names[i].None? ==> Unnamed(names[..i]) < Unnamed(names)
      ensures Fills(names, named, positional, i) <==>
        match names[i]
        case None => Unnamed(names[..i]) < |positional| && !positional[Unnamed(names[..i])].Other?
        case Some(name) => NamedGiven(name, named)
    {
      UnnamedPrefix(names, i);
      FillsExactly(names, named, positional, i);
    }
    forall k ensures NamesKey(names, k) <==> Known(names, k) {
      if NamesKey(names, k) {
        var i :| 0 <= i < |names| && names[i].Some? && k in {names[i].value, names[i].value[1..]};
      }
      if Known(names, k) {
        var i :| 0 <= i < |names| && names[i].Some? && (names[i].value == k || names[i].value[1..] == k);
        assert k in {names[i].value, names[i].value[1..]};
      }
    }
    if Acceptable(names, named, positional) {
      forall j | 0 <= j < |positional| ensures !positional[j].Other? {
        var i := SlotFor(names, j);
        assert Fills(names, named, positional, i);
      }
    }
  }

  /** The reason of a refusal is true of the call. */
  lemma WhyRefused(names: Names, named: Option<Named>, positional: seq<JsValue>, e: Error)
    requires !Acceptable(names, named, positional) && RefusedFor(names, named, positional, e)
    ensures match e
      case MissingPositional => |positional| < |AtUnnamed(names, names)|
      case TooManyPositional => |positional| > |AtUnnamed(names, names)|
      case MissingObject => named.None? && exists i :: 0 <= i < |names| && names[i].Some?
      case MissingNamed => named.Some? && exists i :: 0 <= i < |names| && names[i].Some? && !HasKey(named.value, names[i].value)
      case Unsupported =>
        || (exists j :: 0 <= j < |positional| && positional[j].Other?)
        || (named.Some? && exists k :: k in named.value.values && named.value.values[k].Other?)
      case UnknownNamed => named.Some? && exists k :: k in named.value.keys && forall i ::
        0 <= i < |names| && names[i].Some? ==> names[i].value != k && names[i].value[1..] != k
      case Misuse => false
  {
    UnnamedIs(names);
    if exists i :: 0 <= i < |names| && !Fills(names, named, positional, i) {
      var i :| 0 <= i < |names| && !Fills(names, named, positional, i)
        && (forall j :: 0 <= j < i ==> Fills(names, named, positional, j))
        && e == (var s := SlotOf(names, named, positional, i); if s.Lacks? then s.error else Unsupported);
      WhyNotFilled(names, named, positional, i);
    } else {
      WhyNotKnown(names, named, positional);
    }
  }

  lemma WhyNotFilled(names: Names, named: Option<Named>, positional: seq<JsValue>, i: nat)
    requires i < |names| && !Fills(names, named, positional, i)
    ensures var s := SlotOf(names, named, positional, i); match (if s.Lacks? then s.error else Unsupported)
      case MissingPositional => |positional| < Unnamed(names)
      case MissingObject => named.None? && names[i].Some?
      case MissingNamed => named.Some? && names[i].Some? && !HasKey(named.value, names[i].value)
      case Unsupported =>
        || (exists j :: 0 <= j < |positional| && positional[j].Other?)
        || (named.Some? && exists k :: k in named.value.values && named.value.values[k].Other?)
      case _ => false
  {
    UnnamedPrefix(names, i);
    var s := SlotOf(names, named, positional, i);
    if s.Takes? {
      ConvertedExactly(s.value, 0);
      if names[i].None? {
        assert positional[Unnamed(names[..i])].Other?;
      } else {
        assert named.value.values[KeyFor(named.value, names[i].value).value].Other?;
      }
    }
  }

  lemma WhyNotKnown(names: Names, named: Option<Named>, positional: seq<JsValue>)
    requires !Acceptable(names, named, positional) && forall i :: 0 <= i < |names| ==> Fills(names, named, positional, i)
    ensures |positional| >= Unnamed(names)
    ensures |positional| == Unnamed(names) ==> named.Some? && exists k :: k in named.value.keys && forall i ::
      0 <= i < |names| && names[i].Some? ==> names[i].value != k && names[i].value[1..] != k
  {
    FilledEnough(names, named, positional, |names|);
    assert names[..|names|] == names;
    if |positional| == Unnamed(names) {
      var k :| k in named.value.keys && !Known(names, k);
    }
  }

  lemma {:induction false} FilledEnough(names: Names, named: Option<Named>, positional: seq<JsValue>, n: nat)
    requires n <= |names| && forall i :: 0 <= i < |names| ==> Fills(names, named, positional, i)
    ensures |positional| >= Unnamed(names[..n])
  {
    if n > 0 {
      FilledEnough(names, named, positional, n - 1);
      assert names[..n][..n - 1] == names[..n - 1] && Fills(names, named, positional, n - 1);
    }
  }

  // ----- the C heap -----

  class Heap {
    var next: nat
    var live: set<nat>

    ghost predicate Valid()
      reads this
    {
      forall p :: p in live ==> p < next
    }

    constructor ()
      ensures Valid() && live == {}
    {
      next, live := 0, {};
    }

    // Also the references to JavaScript values, which have to be deleted.
    method Malloc() returns (p: nat)
      requires Valid()
      modifies this
      ensures Valid() && p !in old(live) && live == old(live) + {p}
    {
      p := next;
      next, live := next + 1, live + {p};
    }

    // Freeing what is not live is a double free: it is ruled out here.
    method Free(p: nat)
      requires Valid() && p in live
      modifies this
      ensures Valid() && live == old(live) - {p}
    {
      live := live - {p};
    }
  }

  // A parsed value: its block, the block of its text, and what it says.
  datatype BindValue = BindValue(header: nat, text: Option<nat>, param: Param) {
    function Blocks(): set<nat> { {header} + if text.Some? then {text.value} else {} }
  }

  /** live is base and, apart from it and from each other, the blocks of vs. */
  ghost predicate Owns(vs: seq<BindValue>, live: set<nat>, base: set<nat>) {
    if vs == [] then live == base
    else
      && vs[0].Blocks() <= live && (vs[0].text.Some? ==> vs[0].text.value != vs[0].header)
      && Owns(vs[1..], live - vs[0].Blocks(), base)
  }

  lemma {:induction false} OwnsMore(vs: seq<BindValue>, live: set<nat>, base: set<nat>, v: BindValue)
    requires Owns(vs, live, base) && live !! v.Blocks() && (v.text.Some? ==> v.text.value != v.header)
    ensures Owns(vs + [v], live + v.Blocks(), base)
  {
    if vs == [] {
      assert ([] + [v])[1..] == [];
      assert live + v.Blocks() - v.Blocks() == live;
    } else {
      assert (vs + [v])[1..] == vs[1..] + [v];
      OwnsMore(vs[1..], live - vs[0].Blocks(), base, v);
      assert live + v.Blocks() - vs[0].Blocks() == (live - vs[0].Blocks()) + v.Blocks();
    }
  }

  lemma {:induction false} OwnsLess(vs: seq<BindValue>, live: set<nat>, base: set<nat>, p: nat)
    requires Owns(vs, live, base) && p in base
    ensures p in live && Owns(vs, live - {p}, base - {p})
  {
    if vs != [] {
      OwnsLess(vs[1..], live - vs[0].Blocks(), base, p);
      assert live - {p} - vs[0].Blocks() == live - vs[0].Blocks() - {p};
    }
  }

  lemma {:induction false} OwnsAlso(vs: seq<BindValue>, live: set<nat>, base: set<nat>, p: nat)
    requires Owns(vs, live, base) && p !in live
    ensures Owns(vs, live + {p}, base + {p})
  {
    if vs != [] {
      OwnsAlso(vs[1..], live - vs[0].Blocks(), base, p);
      assert live + {p} - vs[0].Blocks() == live - vs[0].Blocks() + {p};
    }
  }

  method FreeValue(heap: Heap, v: BindValue, ghost rest: seq<BindValue>, ghost base: set<nat>)
    requires heap.Valid() && Owns([v] + rest, heap.live, base)
    modifies heap
    ensures heap.Valid() && Owns(rest, heap.live, base)
  {
    assert ([v] + rest)[1..] == rest;
    ghost var live := heap.live;
    if v.text.Some? { heap.Free(v.text.value); }
    heap.Free(v.header);
    assert heap.live == live - v.Blocks();
  }

  // The loops over req->values[from..to], in paraql__cancel_bind and paraql__free_bind_values.
  method FreeValues(heap: Heap, values: array<BindValue>, from: nat, to: nat, ghost base: set<nat>)
    requires from <= to <= values.Length
    requires heap.Valid() && Owns(values[from..to], heap.live, base)
    modifies heap
    ensures heap.Valid() && heap.live == base
  {
    var i := from;
    while i < to
      invariant from <= i <= to && heap.Valid() && Owns(values[i..to], heap.live, base)
    {
      assert values[i..to] == [values[i]] + values[i + 1..to];
      FreeValue(heap, values[i], values[i + 1..to], base);
      i := i + 1;
    }
  }

  // paraql__parse_value; None is the null pointer, and then the block of the value is lost.
  method ParseValue(heap: Heap, v: JsValue) returns (r: Option<BindValue>)
    requires heap.Valid()
    modifies heap
    ensures heap.Valid() && (r.Some? <==> Converted(v).Some?)
    ensures match v
      case JsNull => r.Some? && r.value.param == PNull
      case JsUndefined => r.Some? && r.value.param == PNull
      case JsNumber(n) => r.Some? && r.value.param ==
        if IsInt64(n) then PInt(n.Floor) else PDouble(n)
      case JsString(s) => r.Some? && r.value.param == PText(s)
      case JsBuffer(b) => r.Some? && r.value.param == PBlob(b)
      case Other => r.None?
    ensures match r
      case Some(b) => Some(b.param) == Converted(v) && b.Blocks() !! old(heap.live)
        && heap.live == old(heap.live) + b.Blocks() && (b.text.Some? <==> v.JsString?)
        && (b.text.Some? ==> b.text.value != b.header)
      case None => exists lost :: lost !in old(heap.live) && heap.live == old(heap.live) + {lost}
  {
    var header := heap.Malloc();
    ConvertedExactly(v, if v.JsNumber? then v.n.Floor else 0);
    match v {
      case JsString(s) =>
        var text := heap.Malloc();
        r := Some(BindValue(header, Some(text), PText(s)));
      case Other => r := None;
      case _ => r := Some(BindValue(header, None, Converted(v).value));
    }
  }

  // ----- a request, from paraql_bind to paraql__on_after_bind -----

  class BindRequest {
    // Its own block, and the references that keep both arguments alive.
    const block: nat
    const namedRef: nat
    const positionalRef: nat

    // Set by paraql__on_before_parse.
    var names: Names
    var namesBlock: nat
    var values: array<BindValue>
    var valuesBlock: nat

    constructor (block: nat, namedRef: nat, positionalRef: nat)
      ensures this.block == block && this.namedRef == namedRef && this.positionalRef == positionalRef
      ensures fresh(values)
    {
      this.block, this.namedRef, this.positionalRef := block, namedRef, positionalRef;
      names, namesBlock, valuesBlock := [], 0, 0;
      values := new BindValue[0];
    }

    ghost function Refs(): set<nat> { {namedRef, positionalRef} }

    // The blocks of a parsed request, apart from its values.
    ghost function Own(): set<nat>
      reads this
    {
      Refs() + {block, namesBlock, valuesBlock}
    }

    ghost predicate Distinct(base: set<nat>)
      reads this
    {
      && block !in Refs() && namesBlock !in Refs() + {block} && valuesBlock !in Refs() + {block, namesBlock}
      && namedRef != positionalRef && Own() !! base && values.Length == |names|
    }
  }

  // js_has_named_property, with the sigil and then without it.
  method FindSlot(names: Names, named: Option<Named>, positional: seq<JsValue>, i: nat, posIdx: nat) returns (slot: Slot, posIdx': nat)
    requires i < |names| && posIdx == Unnamed(names[..i])
    ensures slot == SlotOf(names, named, positional, i) && (slot.Lacks? ==> slot.error != Unsupported)
    ensures match names[i]
      case None => slot == if posIdx < |positional| then Takes(positional[posIdx]) else Lacks(MissingPositional)
      case Some(name) =>
        slot == if named.None? then Lacks(MissingObject)
                else if name in named.value.values then Takes(named.value.values[name])
                else if name[1..] in named.value.values then Takes(named.value.values[name[1..]])
                else Lacks(MissingNamed)
    ensures slot.Takes? ==> posIdx' == Unnamed(names[..i + 1])
    ensures posIdx <= |positional| ==> posIdx' <= |positional|
  {
    assert names[..i + 1][..i] == names[..i];
    posIdx' := posIdx;
    if names[i].None? {
      if posIdx >= |positional| { return Lacks(MissingPositional), posIdx'; }
      slot := Takes(positional[posIdx]);
      posIdx' := posIdx + 1;
    } else {
      if named.None? { return Lacks(MissingObject), posIdx'; }
      var name := names[i].value;
      var key := name;
      var found := name in named.value.values;
      if !found {
        found := name[1..] in named.value.values;
        if found { key := name[1..]; }
      }
      if !found { return Lacks(MissingNamed), posIdx'; }
      slot := Takes(named.value.values[key]);
    }
  }

  // The last loops of paraql__on_after_parse: does every key name a parameter?
  method AllKnown(names: Names, keys: seq<string>) returns (all: bool)
    ensures all <==> forall k :: k in keys ==> Known(names, k)
  {
    for k := 0 to |keys|
      invariant forall j :: 0 <= j < k ==> Known(names, keys[j])
    {
      var known := false;
      var i := 0;
      while i < |names| && !known
        invariant i <= |names| && (known ==> Known(names, keys[k]))
        invariant !known ==> forall j :: 0 <= j < i && names[j].Some? ==>
          names[j].value != keys[k] && names[j].value[1..] != keys[k]
        decreases |names| - i, !known
      {
        if names[i].Some? && (names[i].value == keys[k] || names[i].value[1..] == keys[k]) { known := true; }
        i := i + 1;
      }
      if !known {
        assert keys[k] in keys;
        return false;
      }
    }
    return true;
  }

  // paraql__cancel_bind: the references to the arguments are not deleted here.
  method Cancel(heap: Heap, req: BindRequest, index: nat, ghost base: set<nat>)
    requires heap.Valid() && index <= req.values.Length
    requires {req.block, req.namesBlock, req.valuesBlock} <= base
    requires req.block != req.namesBlock && req.block != req.valuesBlock && req.namesBlock != req.valuesBlock
    requires Owns(req.values[..index], heap.live, base)
    modifies heap
    ensures heap.Valid() && heap.live == base - {req.block, req.namesBlock, req.valuesBlock}
  {
    OwnsLess(req.values[..index], heap.live, base, req.namesBlock);
    heap.Free(req.namesBlock);
    assert req.values[0..index] == req.values[..index];
    FreeValues(heap, req.values, 0, index, base - {req.namesBlock});
    heap.Free(req.valuesBlock);
    heap.Free(req.block);
  }

  // The first n slots hold what they take.
  ghost predicate Assigned(vs: seq<BindValue>, names: Names, named: Option<Named>, positional: seq<JsValue>)
    requires |vs| <= |names|
  {
    forall i :: 0 <= i < |vs| ==>
      Fills(names, named, positional, i) && Some(vs[i].param) == Converted(SlotOf(names, named, positional, i).value)
  }

  // Parse a value into req.values[i]; if it is not supported, a block is lost.
  method Store(heap: Heap, req: BindRequest, v: JsValue, i: nat, ghost base: set<nat>) returns (ok: bool, ghost lost: set<nat>)
    requires heap.Valid() && i < req.values.Length && Owns(req.values[..i], heap.live, base)
    modifies heap, req.values
    ensures heap.Valid() && req.values[..i] == old(req.values[..i]) && (ok <==> Converted(v).Some?)
    ensures ok ==> Some(req.values[i].param) == Converted(v) && Owns(req.values[..i + 1], heap.live, base)
    ensures !ok ==> lost !! old(heap.live) && |lost| == 1 && Owns(req.values[..i], heap.live, base + lost)
  {
    ghost var before, live := req.values[..i], heap.live;
    var parsed := ParseValue(heap, v);
    if parsed.None? {
      ghost var p :| p !in live && heap.live == live + {p};
      OwnsAlso(before, live, base, p);
      return false, {p};
    }
    OwnsMore(before, live, base, parsed.value);
    req.values[i] := parsed.value;
    assert req.values[..i + 1] == before + [parsed.value];
    return true, {};
  }

  /**
   paraql__on_after_parse: it accepts exactly the acceptable calls, and then slot i holds
   what it takes; a refused call keeps its two references and, for an unsupported value,
   one block more.
   */
  method AfterParse(heap: Heap, req: BindRequest, named: Option<Named>, positional: seq<JsValue>, ghost base: set<nat>)
    returns (refused: Option<Error>)
    requires heap.Valid() && req.Distinct(base) && heap.live == base + req.Own()
    requires named.Some? ==> named.value.Valid()
    modifies heap, req.values
    ensures heap.Valid()
    ensures refused.None? ==> Acceptable(req.names, named, positional)
    ensures refused.None? ==> Assigned(req.values[..], req.names, named, positional)
    ensures refused.None? ==> Owns(req.values[..], heap.live, base + req.Own() - {req.namesBlock})
    ensures refused.Some? ==> Refused(heap, req, named, positional, refused.value, base)
  {
    var posIdx;
    refused, posIdx := FillSlots(heap, req, named, positional, base);
    if refused.Some? { return; }
    FilledAll(heap, req, named, positional, posIdx, base);
    refused := CheckRest(req.names, named, positional, posIdx);
    if refused.Some? {
      Refuse(heap, req, |req.names|, refused.value, base, {});
    } else {
      OwnsLess(req.values[..], heap.live, base + req.Own(), req.namesBlock);
      heap.Free(req.namesBlock);
    }
  }

  lemma FilledAll(heap: Heap, req: BindRequest, named: Option<Named>, positional: seq<JsValue>, posIdx: nat, base: set<nat>)
    requires Filled(heap, req, named, positional, |req.names|, posIdx, base)
    ensures posIdx == Unnamed(req.names) <= |positional| && Assigned(req.values[..], req.names, named, positional)
    ensures Owns(req.values[..], heap.live, base + req.Own())
    ensures req.values[..|req.names|] == req.values[..] && base + req.Own() + {} == base + req.Own()
    ensures forall i :: 0 <= i < |req.names| ==> Fills(req.names, named, positional, i)
  {
    assert req.names[..|req.names|] == req.names && req.values[..|req.names|] == req.values[..];
    AllFilled(req.values[..], req.names, named, positional);
  }

  // What is checked once every slot is filled.
  method CheckRest(names: Names, named: Option<Named>, positional: seq<JsValue>, posIdx: nat) returns (refused: Option<Error>)
    requires posIdx == Unnamed(names) <= |positional|
    requires forall i :: 0 <= i < |names| ==> Fills(names, named, positional, i)
    ensures refused.None? <==> Acceptable(names, named, positional)
    ensures refused.Some? ==> RefusedFor(names, named, positional, refused.value) && refused.value != Unsupported
  {
    if posIdx < |positional| { return Some(TooManyPositional); }
    if named.Some? {
      var known := AllKnown(names, named.value.keys);
      if !known { return Some(UnknownNamed); }
    }
    return None;
  }

  // The first loop of paraql__on_after_parse.
  method FillSlots(heap: Heap, req: BindRequest, named: Option<Named>, positional: seq<JsValue>, ghost base: set<nat>)
    returns (refused: Option<Error>, posIdx: nat)
    requires heap.Valid() && req.Distinct(base) && heap.live == base + req.Own()
    modifies heap, req.values
    ensures heap.Valid()
    ensures refused.None? ==> Filled(heap, req, named, positional, |req.names|, posIdx, base)
    ensures refused.Some? ==> Refused(heap, req, named, positional, refused.value, base)
  {
    posIdx := 0;
    var i := 0;
    while i < |req.names|
      invariant i <= |req.names| && heap.Valid() && Filled(heap, req, named, positional, i, posIdx, base)
    {
      ghost var lost;
      refused, posIdx, lost := FillSlot(heap, req, named, positional, i, posIdx, base);
      if refused.Some? {
        RefuseAt(heap, req, named, positional, i, refused.value, base, lost);
        return;
      }
      i := i + 1;
    }
    return None, posIdx;
  }

  method RefuseAt(heap: Heap, req: BindRequest, named: Option<Named>, positional: seq<JsValue>, i: nat, e: Error,
                  ghost base: set<nat>, ghost lost: set<nat>)
    requires heap.Valid() && i < |req.names| && req.Distinct(base) && Bad(heap, req, named, positional, i, e, base, lost)
    modifies heap
    ensures heap.Valid() && Refused(heap, req, named, positional, e, base)
  {
    FirstBad(req.values[..i], req.names, named, positional);
    Refuse(heap, req, i, e, base, lost);
  }

  // The first i slots are parsed, and the heap holds them beside the request.
  ghost predicate Filled(heap: Heap, req: BindRequest, named: Option<Named>, positional: seq<JsValue>,
                         i: nat, posIdx: nat, base: set<nat>)
    requires i <= |req.names|
    reads heap, req, req.values
  {
    && req.values.Length == |req.names| && posIdx == Unnamed(req.names[..i]) <= |positional|
    && Assigned(req.values[..i], req.names, named, positional)
    && Owns(req.values[..i], heap.live, base + req.Own())
  }

  ghost predicate Refused(heap: Heap, req: BindRequest, named: Option<Named>, positional: seq<JsValue>, e: Error, base: set<nat>)
    reads heap, req
  {
    && !Acceptable(req.names, named, positional) && RefusedFor(req.names, named, positional, e)
    && Kept(heap.live, base + req.Refs(), e)
  }

  method FillSlot(heap: Heap, req: BindRequest, named: Option<Named>, positional: seq<JsValue>,
                  i: nat, posIdx: nat, ghost base: set<nat>)
    returns (refused: Option<Error>, posIdx': nat, ghost lost: set<nat>)
    requires heap.Valid() && i < |req.names| && Filled(heap, req, named, positional, i, posIdx, base)
    modifies heap, req.values
    ensures heap.Valid()
    ensures refused.None? ==> Filled(heap, req, named, positional, i + 1, posIdx', base)
    ensures refused.Some? ==> Bad(heap, req, named, positional, i, refused.value, base, lost)
  {
    ghost var all, before := base + req.Own(), req.values[..i];
    var slot;
    slot, posIdx' := FindSlot(req.names, named, positional, i, posIdx);
    if slot.Lacks? {
      LackIsBad(heap, req, named, positional, i, posIdx, base);
      return Some(slot.error), posIdx', {};
    }
    OwnsBase(before, heap.live, all);
    var ok;
    ok, lost := Store(heap, req, slot.value, i, all);
    if !ok { return Some(Unsupported), posIdx', lost; }
    AssignedMore(before, req.values[i], req.names, named, positional);
    assert req.values[..i + 1] == before + [req.values[i]];
    return None, posIdx', {};
  }

  // Slot i cannot be filled, and the heap holds `lost` for it.
  ghost predicate Bad(heap: Heap, req: BindRequest, named: Option<Named>, positional: seq<JsValue>,
                      i: nat, e: Error, base: set<nat>, lost: set<nat>)
    requires i < |req.names|
    reads heap, req, req.values
  {
    && req.values.Length == |req.names| && Assigned(req.values[..i], req.names, named, positional)
    && !Fills(req.names, named, positional, i)
    && e == (var s := SlotOf(req.names, named, positional, i); if s.Lacks? then s.error else Unsupported)
    && lost !! base + req.Own() && |lost| == (if e == Unsupported then 1 else 0)
    && Owns(req.values[..i], heap.live, base + req.Own() + lost)
  }

  lemma LackIsBad(heap: Heap, req: BindRequest, named: Option<Named>, positional: seq<JsValue>, i: nat, posIdx: nat, base: set<nat>)
    requires i < |req.names| && Filled(heap, req, named, positional, i, posIdx, base)
    requires SlotOf(req.names, named, positional, i).Lacks?
    ensures Bad(heap, req, named, positional, i, SlotOf(req.names, named, positional, i).error, base, {})
  {
    assert base + req.Own() + {} == base + req.Own();
  }

  lemma AssignedMore(vs: seq<BindValue>, v: BindValue, names: Names, named: Option<Named>, positional: seq<JsValue>)
    requires |vs| < |names| && Assigned(vs, names, named, positional) && Fills(names, named, positional, |vs|)
    requires Some(v.param) == Converted(SlotOf(names, named, positional, |vs|).value)
    ensures Assigned(vs + [v], names, named, positional)
  {
  }

  // A call whose slots are filled up to one that is not is refused for that one.
  lemma FirstBad(vs: seq<BindValue>, names: Names, named: Option<Named>, positional: seq<JsValue>)
    requires |vs| < |names| && Assigned(vs, names, named, positional) && !Fills(names, named, positional, |vs|)
    ensures !Acceptable(names, named, positional)
    ensures var s := SlotOf(names, named, positional, |vs|);
      RefusedFor(names, named, positional, if s.Lacks? then s.error else Unsupported)
  {
  }

  lemma AllFilled(vs: seq<BindValue>, names: Names, named: Option<Named>, positional: seq<JsValue>)
    requires |vs| == |names| && Assigned(vs, names, named, positional)
    ensures forall i :: 0 <= i < |names| ==> Fills(names, named, positional, i)
  {
  }

  method Refuse(heap: Heap, req: BindRequest, index: nat, e: Error, ghost base: set<nat>, ghost lost: set<nat>)
    requires heap.Valid() && req.Distinct(base) && index <= req.values.Length
    requires lost !! base + req.Own() && |lost| == if e == Unsupported then 1 else 0
    requires Owns(req.values[..index], heap.live, base + req.Own() + lost)
    modifies heap
    ensures heap.Valid() && Kept(heap.live, base + req.Refs(), e)
  {
    ghost var all := base + req.Own() + lost;
    Cancel(heap, req, index, all);
    KeptAfter(base, req.Refs(), {req.block, req.namesBlock, req.valuesBlock}, lost, e);
  }

  lemma KeptAfter(base: set<nat>, refs: set<nat>, blocks: set<nat>, lost: set<nat>, e: Error)
    requires blocks !! base + refs + lost && lost !! base + refs && |lost| == if e == Unsupported then 1 else 0
    ensures Kept(base + (refs + blocks) + lost - blocks, base + refs, e)
  {
    assert base + (refs + blocks) + lost - blocks == base + refs + lost;
  }

  ghost predicate Kept(live: set<nat>, base: set<nat>, e: Error) {
    exists lost: set<nat> :: lost !! base && |lost| == (if e == Unsupported then 1 else 0) && live == base + lost
  }

  lemma {:induction false} OwnsBase(vs: seq<BindValue>, live: set<nat>, base: set<nat>)
    requires Owns(vs, live, base)
    ensures base <= live
  {
    if vs != [] {
      OwnsBase(vs[1..], live - vs[0].Blocks(), base);
    }
  }

  // ----- the second work callback and the whole request -----

  // How a request ends; Failed(k) is an error of sqlite for the parameter at index k.
  datatype Outcome = Bound | Rejected(error: Error) | Failed(k: nat)

  // The parameters that sqlite took before the first one it refused.
  ghost predicate TookUpTo(bound: seq<Param>, vs: seq<BindValue>, refuses: seq<bool>, k: nat) {
    && k <= |vs| == |refuses| && |bound| == k
    && forall i :: 0 <= i < k ==> !refuses[i] && bound[i] == vs[i].param
  }

  // paraql__on_before_bind: every value is freed, however it ends.
  method BeforeBind(heap: Heap, req: BindRequest, isOpen: bool, refuses: seq<bool>, ghost base: set<nat>)
    returns (outcome: Outcome, bound: seq<Param>)
    requires heap.Valid() && |refuses| == req.values.Length
    requires Owns(req.values[..], heap.live, base) && req.valuesBlock in base
    modifies heap
    ensures heap.Valid() && heap.live == base - {req.valuesBlock}
    ensures !isOpen ==> outcome == Rejected(Misuse) && bound == []
    ensures isOpen ==> match outcome
      case Bound => TookUpTo(bound, req.values[..], refuses, |refuses|)
      case Failed(k) => k < |refuses| && refuses[k] && TookUpTo(bound, req.values[..], refuses, k)
      case Rejected(_) => false
  {
    var n := req.values.Length;
    bound := [];
    assert req.values[0..n] == req.values[..];
    if !isOpen {
      FreeValues(heap, req.values, 0, n, base);
      heap.Free(req.valuesBlock);
      return Rejected(Misuse), bound;
    }
    var i := 0;
    while i < n
      invariant i <= n && heap.Valid() && Owns(req.values[i..n], heap.live, base)
      invariant TookUpTo(bound, req.values[..], refuses, i)
    {
      assert req.values[i..n] == [req.values[i]] + req.values[i + 1..n];
      var value := req.values[i];
      FreeValue(heap, value, req.values[i + 1..n], base);
      if refuses[i] {
        FreeValues(heap, req.values, i + 1, n, base);
        heap.Free(req.valuesBlock);
        return Failed(i), bound;
      }
      bound := bound + [value.param];
      i := i + 1;
    }
    heap.Free(req.valuesBlock);
    return Bound, bound;
  }

  // paraql_bind and paraql__on_before_parse, on a statement that is not finalized.
  method BeforeParse(heap: Heap, names: Names) returns (req: BindRequest)
    requires heap.Valid()
    modifies heap
    ensures heap.Valid() && fresh(req) && fresh(req.values) && req.names == names
    ensures req.Distinct(old(heap.live)) && heap.live == old(heap.live) + req.Own()
  {
    req := NewRequest(heap);
    req.names := names;
    var namesBlock := heap.Malloc();
    var valuesBlock := heap.Malloc();
    req.namesBlock, req.valuesBlock := namesBlock, valuesBlock;
    req.values := new BindValue[|names|](_ => BindValue(0, None, PNull));
  }

  method NewRequest(heap: Heap) returns (req: BindRequest)
    requires heap.Valid()
    modifies heap
    ensures heap.Valid() && fresh(req) && fresh(req.values)
    ensures req.namedRef != req.positionalRef && req.block !in req.Refs()
    ensures req.Refs() + {req.block} !! old(heap.live) && heap.live == old(heap.live) + (req.Refs() + {req.block})
  {
    var namedRef := heap.Malloc();
    var positionalRef := heap.Malloc();
    var block := heap.Malloc();
    req := new BindRequest(block, namedRef, positionalRef);
  }

  // paraql__on_after_bind, and the failing case of paraql__on_after_parse.
  method Finish(heap: Heap, req: BindRequest, ghost base: set<nat>)
    requires heap.Valid() && req.Refs() + {req.block} !! base && heap.live == base + (req.Refs() + {req.block})
    requires req.namedRef != req.positionalRef && req.block !in req.Refs()
    modifies heap
    ensures heap.Valid() && heap.live == base
  {
    heap.Free(req.namedRef);
    heap.Free(req.positionalRef);
    heap.Free(req.block);
  }

  /**
   A whole bind.  It binds exactly the acceptable calls on a statement that stays open, each
   slot to the value it takes, and then everything it allocated is freed, also when sqlite
   refuses a value or the statement is finalized in between; a call that is refused keeps
   its two references, and one block more if a value is not supported.
   */
  method Bind(heap: Heap, names: Names, named: Option<Named>, positional: seq<JsValue>,
              openAtParse: bool, openAtBind: bool, refuses: seq<bool>)
    returns (outcome: Outcome, bound: seq<Param>)
    requires heap.Valid() && |refuses| == |names| && (named.Some? ==> named.value.Valid())
    modifies heap
    ensures heap.Valid()
    ensures !openAtParse ==> outcome == Rejected(Misuse) && heap.live == old(heap.live)
    ensures openAtParse && !Acceptable(names, named, positional) ==>
      && outcome.Rejected? && RefusedFor(names, named, positional, outcome.error)
      && exists kept :: |kept| == (if outcome.error == Unsupported then 3 else 2)
           && kept !! old(heap.live) && heap.live == old(heap.live) + kept
    ensures openAtParse && Acceptable(names, named, positional) ==>
      && heap.live == old(heap.live)
      && (!openAtBind ==> outcome == Rejected(Misuse))
      && (openAtBind ==> match outcome
            case Bound => BoundAsAsked(bound, names, named, positional, |names|) && InOrder(bound, names, named, positional) && forall i :: 0 <= i < |names| ==> !refuses[i]
            case Failed(k) => k < |names| && refuses[k] && (forall i :: 0 <= i < k ==> !refuses[i])
                              && BoundAsAsked(bound, names, named, positional, k)
            case Rejected(_) => false)
  {
    ghost var base := heap.live;
    bound := [];
    if !openAtParse {
      var early := NewRequest(heap);
      Finish(heap, early, base);
      return Rejected(Misuse), bound;
    }
    var req := BeforeParse(heap, names);
    var refused := AfterParse(heap, req, named, positional, base);
    if refused.Some? {
      KeptCount(heap.live, base, req.namedRef, req.positionalRef, refused.value);
      return Rejected(refused.value), bound;
    }
    outcome, bound := BeforeBind(heap, req, openAtBind, refuses, base + req.Own() - {req.namesBlock});
    assert heap.live == base + (req.Refs() + {req.block});
    if outcome.Bound? { AsAskedInOrder(bound, names, named, positional); }
    Finish(heap, req, base);
  }

  lemma KeptCount(live: set<nat>, base: set<nat>, p: nat, q: nat, e: Error)
    requires p != q && {p, q} !! base && Kept(live, base + {p, q}, e)
    ensures exists kept :: |kept| == (if e == Unsupported then 3 else 2) && kept !! base && live == base + kept
  {
    var lost: set<nat> :| lost !! base + {p, q} && |lost| == (if e == Unsupported then 1 else 0) && live == base + {p, q} + lost;
    var kept := {p, q} + lost;
    UnionSize({p, q}, lost);
    UnionIsKept(live, base, {p, q}, lost);
  }

  lemma UnionSize(a: set<nat>, b: set<nat>)
    requires a !! b
    ensures |a + b| == |a| + |b|
  {
  }

  lemma UnionIsKept(live: set<nat>, base: set<nat>, a: set<nat>, b: set<nat>)
    requires live == base + a + b && a !! base && b !! base + a
    ensures live == base + (a + b) && a + b !! base
  {
  }

  // The first k parameters are what the slots take.
  ghost predicate BoundAsAsked(bound: seq<Param>, names: Names, named: Option<Named>, positional: seq<JsValue>, k: nat) {
    && k <= |names| && |bound| == k
    && forall i :: 0 <= i < k ==>
         Fills(names, named, positional, i) && Some(bound[i]) == Converted(SlotOf(names, named, positional, i).value)
  }
}

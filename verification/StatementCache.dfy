/** index.js, prepare and _close: the cache of prepared statements, with LRU eviction. */
module StatementCache {
  // ----- the order of the keys -----

  function Without(keys: seq<string>, k: string): seq<string> {
    if keys == [] then []
    else Without(keys[..|keys| - 1], k) + if keys[|keys| - 1] == k then [] else [keys[|keys| - 1]]
  }

  predicate Distinct(keys: seq<string>) {
    forall i, j :: 0 <= i < j < |keys| ==> keys[i] != keys[j]
  }

  // Preparing moves a cached text to the end; a new text may push out the first.
  function Prepared(keys: seq<string>, sql: string, size: int): seq<string> {
    if sql in keys then Without(keys, sql) + [sql]
    else if |keys| + 1 > size then (keys + [sql])[1..]
    else keys + [sql]
  }

  // What callers did to the cache; a drop is a finalize of the cached statement.
  datatype Use = Use(sql: string) | Drop(sql: string)

  function Cached(uses: seq<Use>, size: int): seq<string> {
    if uses == [] then []
    else
      var keys, u := Cached(uses[..|uses| - 1], size), uses[|uses| - 1];
      if u.Use? then Prepared(keys, u.sql, size) else Without(keys, u.sql)
  }

  // When a text was last prepared; -1 if never.
  function LastUse(uses: seq<Use>, sql: string): (t: int)
    ensures -1 <= t < |uses|
  {
    if uses == [] then -1
    else if uses[|uses| - 1] == Use(sql) then |uses| - 1
    else LastUse(uses[..|uses| - 1], sql)
  }

  ghost predicate ByLastUse(keys: seq<string>, uses: seq<Use>) {
    && (forall i :: 0 <= i < |keys| ==> LastUse(uses, keys[i]) >= 0)
    && (forall i, j :: 0 <= i < j < |keys| ==> LastUse(uses, keys[i]) < LastUse(uses, keys[j]))
  }

  // Without keeps the order and the other elements.
  lemma {:induction false} WithoutKeeps(keys: seq<string>, k: string, uses: seq<Use>)
    requires ByLastUse(keys, uses)
    ensures var r := Without(keys, k);
      && k !in r && ByLastUse(r, uses) && |r| <= |keys|
      && (forall x :: x in r <==> x in keys && x != k)
  {
    if keys != [] {
      var before, last := keys[..|keys| - 1], keys[|keys| - 1];
      WithoutKeeps(before, k, uses);
      var r := Without(before, k);
      assert keys == before + [last];
      forall i | 0 <= i < |r| ensures LastUse(uses, r[i]) < LastUse(uses, last) {
        assert r[i] in before;
      }
    }
  }

  lemma AnotherUse(keys: seq<string>, uses: seq<Use>, u: Use)
    requires ByLastUse(keys, uses) && (u.Use? ==> u.sql !in keys)
    ensures ByLastUse(keys, uses + [u])
  {
    assert (uses + [u])[..|uses|] == uses;
    forall i | 0 <= i < |keys| ensures LastUse(uses + [u], keys[i]) == LastUse(uses, keys[i]) {
      assert keys[i] in keys;
    }
  }

  /**
   In every run of prepare and finalize the cache lists at most `size` texts, the least
   recently prepared first; so an eviction takes the least recently prepared one.
   */
  lemma {:induction false} RecencyOrder(uses: seq<Use>, size: int)
    ensures var keys := Cached(uses, size);
      ByLastUse(keys, uses) && Distinct(keys) && |keys| <= if size < 0 then 0 else size
  {
    if uses != [] {
      var before, u := uses[..|uses| - 1], uses[|uses| - 1];
      RecencyOrder(before, size);
      var keys := Cached(before, size);
      WithoutKeeps(keys, u.sql, before);
      var kept := Without(keys, u.sql);
      assert uses == before + [u];
      if u.Drop? {
        AnotherUse(kept, before, u);
      } else if u.sql in keys {
        WithoutLess(keys, u.sql);
        AnotherUse(kept, before, u);
        MostRecentLast(kept, before, u);
      } else {
        AnotherUse(keys, before, u);
        MostRecentLast(keys, before, u);
        Rest(keys + [u.sql], uses);
      }
    }
  }

  lemma Rest(keys: seq<string>, uses: seq<Use>)
    requires keys != [] && ByLastUse(keys, uses)
    ensures ByLastUse(keys[1..], uses)
  {
  }

  lemma MostRecentLast(keys: seq<string>, uses: seq<Use>, u: Use)
    requires u.Use? && ByLastUse(keys, uses + [u]) && u.sql !in keys
    ensures ByLastUse(keys + [u.sql], uses + [u])
  {
    assert (uses + [u])[..|uses|] == uses;
    forall i | 0 <= i < |keys| ensures LastUse(uses + [u], keys[i]) < |uses| {
      assert keys[i] in keys;
    }
  }

  lemma {:induction false} WithoutLess(keys: seq<string>, k: string)
    ensures |Without(keys, k)| <= |keys|
    ensures k in keys ==> |Without(keys, k)| < |keys|
    ensures k !in keys ==> Without(keys, k) == keys
  {
    if keys != [] {
      assert keys == keys[..|keys| - 1] + [keys[|keys| - 1]];
      WithoutLess(keys[..|keys| - 1], k);
    }
  }

  lemma {:induction false} WithoutConcat(a: seq<string>, b: seq<string>, k: string)
    ensures Without(a + b, k) == Without(a, k) + Without(b, k)
  {
    if b == [] {
      assert a + b == a;
    } else {
      assert (a + b)[..|a + b| - 1] == a + b[..|b| - 1];
      WithoutConcat(a, b[..|b| - 1], k);
    }
  }

  lemma {:induction false} WithoutDistinct(keys: seq<string>, k: string)
    requires Distinct(keys)
    ensures Distinct(Without(keys, k)) && (forall x :: x in Without(keys, k) <==> x in keys && x != k)
    ensures |Without(keys, k)| == |keys| - if k in keys then 1 else 0
  {
    if keys != [] {
      var before, last := keys[..|keys| - 1], keys[|keys| - 1];
      assert keys == before + [last];
      WithoutDistinct(before, k);
      assert forall i :: 0 <= i < |Without(before, k)| ==> Without(before, k)[i] in before;
    }
  }

  // ----- runs without finalize: the last `size` texts -----

  // All texts ever prepared, by their last use.
  function Recent(uses: seq<Use>): seq<string> {
    if uses == [] then []
    else Without(Recent(uses[..|uses| - 1]), uses[|uses| - 1].sql) + [uses[|uses| - 1].sql]
  }

  function Tail(s: seq<string>, n: nat): seq<string> {
    if n <= |s| then s[|s| - n..] else s
  }

  lemma TailOfConcat(older: seq<string>, keys: seq<string>, size: nat)
    requires |keys| <= size && (older != [] ==> |keys| == size)
    ensures Tail(older + keys, size) == keys
  {
  }

  lemma DistinctParts(older: seq<string>, keys: seq<string>, k: string)
    requires Distinct(older + keys) && k in keys
    ensures k !in older && Distinct(keys)
  {
    forall i, j | 0 <= i < j < |keys| ensures keys[i] != keys[j] {
      assert (older + keys)[|older| + i] == keys[i] && (older + keys)[|older| + j] == keys[j];
    }
    var j :| 0 <= j < |keys| && keys[j] == k;
    forall i | 0 <= i < |older| ensures older[i] != k {
      assert (older + keys)[i] == older[i] && (older + keys)[|older| + j] == k;
    }
  }

  // One prepare on the last keys of all, when older ones may have been pushed out.
  lemma PreparedTail(older: seq<string>, keys: seq<string>, sql: string, size: nat)
    requires Distinct(older + keys) && size >= 1
    requires |keys| <= size && (older != [] ==> |keys| == size)
    ensures Prepared(keys, sql, size) == Tail(Without(older + keys, sql) + [sql], size)
  {
    WithoutConcat(older, keys, sql);
    WithoutLess(older, sql);
    WithoutLess(keys, sql);
    var o, kept := Without(older, sql), Without(keys, sql);
    if sql in keys {
      DistinctParts(older, keys, sql);
      WithoutDistinct(keys, sql);
      ConcatAssoc(older, kept, [sql]);
      TailOfConcat(older, kept + [sql], size);
    } else if |keys| + 1 > size {
      ShiftOne(o, keys, sql);
      TailOfConcat(o + [keys[0]], (keys + [sql])[1..], size);
    } else {
      assert o == [];
      ConcatAssoc([], keys, [sql]);
      TailOfConcat([], keys + [sql], size);
    }
  }

  lemma ConcatAssoc(a: seq<string>, b: seq<string>, c: seq<string>)
    ensures a + b + c == a + (b + c)
  {
  }

  lemma ShiftOne(o: seq<string>, keys: seq<string>, sql: string)
    requires keys != []
    ensures o + keys + [sql] == (o + [keys[0]]) + (keys + [sql])[1..]
  {
  }

  lemma {:induction false} RecentDistinct(uses: seq<Use>)
    ensures Distinct(Recent(uses))
  {
    if uses != [] {
      RecentDistinct(uses[..|uses| - 1]);
      WithoutDistinct(Recent(uses[..|uses| - 1]), uses[|uses| - 1].sql);
    }
  }

  /** Without finalize, the cache is the `size` texts that were prepared last, whatever its history. */
  lemma {:induction false} CacheIsLastTexts(uses: seq<Use>, size: nat)
    requires size >= 1 && forall i :: 0 <= i < |uses| ==> uses[i].Use?
    ensures Cached(uses, size) == Tail(Recent(uses), size)
  {
    if uses != [] {
      CacheIsLastTexts(uses[..|uses| - 1], size);
      RecentDistinct(uses[..|uses| - 1]);
      TailPrepared(Recent(uses[..|uses| - 1]), uses[|uses| - 1].sql, size);
    }
  }

  lemma TailPrepared(all: seq<string>, sql: string, size: nat)
    requires Distinct(all) && size >= 1
    ensures Prepared(Tail(all, size), sql, size) == Tail(Without(all, sql) + [sql], size)
  {
    var keys := Tail(all, size);
    assert all == all[..|all| - |keys|] + keys;
    PreparedTail(all[..|all| - |keys|], keys, sql, size);
  }

  // ----- the cache itself -----

  class Statement {
    const sourceSQL: string
    var closed: bool

    constructor (sql: string)
      ensures sourceSQL == sql && !closed
    {
      sourceSQL, closed := sql, false;
    }
  }

  class ParaQL {
    const cacheSize: int

    // A JavaScript Map: its keys in order of insertion, and what they map to.
    var keys: seq<string>
    var cache: map<string, Statement>

    // All statements ever returned.
    ghost var made: set<Statement>

    // What callers did so far.
    ghost var uses: seq<Use>

    ghost predicate Valid()
      reads this, made
    {
      Consistent() && keys == Cached(uses, cacheSize)
    }

    /** The cache holds the open statements, all of them, each under its own text. */
    ghost predicate Consistent()
      reads this, made
    {
      && Distinct(keys) && (forall k :: k in keys <==> k in cache)
      && (forall k :: k in cache ==> cache[k] in made && cache[k].sourceSQL == k)
      && (forall s :: s in made ==> (!s.closed <==> s.sourceSQL in cache && cache[s.sourceSQL] == s))
    }

    constructor (cacheSize: int)
      ensures Valid() && uses == [] && keys == [] && made == {} && this.cacheSize == cacheSize
    {
      this.cacheSize := cacheSize;
      keys, cache, made, uses := [], map[], {}, [];
    }

    /** The Map is in the order in which its texts were last prepared, and never over its size. */
    lemma KeysByLastUse()
      requires Valid()
      ensures ByLastUse(keys, uses) && |keys| <= if cacheSize < 0 then 0 else cacheSize
    {
      RecencyOrder(uses, cacheSize);
    }

    method Delete(sql: string)
      requires Distinct(keys) && forall k :: k in keys <==> k in cache
      modifies this`keys, this`cache
      ensures keys == Without(old(keys), sql) && cache == old(cache) - {sql}
      ensures Distinct(keys) && forall k :: k in keys <==> k in cache
    {
      WithoutDistinct(keys, sql);
      keys := Without(keys, sql);
      cache := cache - {sql};
    }

    // close runs once: a closed statement is left alone.
    method CloseOnce(stmt: Statement)
      requires Consistent() && stmt in made
      modifies this`keys, this`cache, stmt`closed
      ensures Consistent() && stmt.closed
      ensures keys == if old(stmt.closed) then old(keys) else Without(old(keys), stmt.sourceSQL)
    {
      if !stmt.closed {
        stmt.closed := true;
        Delete(stmt.sourceSQL);
      }
    }

    // finalize of a statement, by its caller.
    method Finalize(stmt: Statement)
      requires Valid() && stmt in made
      modifies this`keys, this`cache, this`uses, stmt`closed
      ensures Valid() && stmt.closed
      ensures uses == old(uses) + if old(stmt.closed) then [] else [Drop(stmt.sourceSQL)]
    {
      if !stmt.closed {
        CloseOnce(stmt);
        Next(uses, Drop(stmt.sourceSQL), cacheSize);
        Note(Drop(stmt.sourceSQL));
      }
    }

    /**
     prepare: null if the text does not prepare.  The statement has the text that was asked
     for, and is open exactly if the cache may hold a statement at all.
     */
    method Prepare(sql: string, prepares: bool) returns (stmt: Statement?)
      requires Valid()
      modifies this`keys, this`cache, this`made, this`uses, made`closed
      ensures Valid()
      ensures stmt == null <==> sql !in old(keys) && !prepares
      ensures stmt == null ==> uses == old(uses) && made == old(made)
      ensures stmt != null ==>
        && uses == old(uses) + [Use(sql)] && made == old(made) + {stmt}
        && stmt.sourceSQL == sql && (!stmt.closed <==> cacheSize >= 1)
        && (if sql in old(keys) then stmt == old(cache)[sql] else fresh(stmt))
      ensures forall s :: s in old(made) ==> s.closed == (old(s.closed) || Evicts(old(keys), old(cache), sql, stmt, s))
    {
      KeysByLastUse();
      stmt := Fetch(sql, prepares);
      if stmt != null {
        Next(uses, Use(sql), cacheSize);
        Note(Use(sql));
      }
    }

    // The caller did one thing more, and the keys are what that leaves.
    ghost method Note(u: Use)
      requires Consistent() && keys == Cached(uses + [u], cacheSize)
      modifies this`uses
      ensures Valid() && uses == old(uses) + [u]
    {
      uses := uses + [u];
    }

    // prepare, on the Map.
    method Fetch(sql: string, prepares: bool) returns (stmt: Statement?)
      requires Consistent() && |keys| <= if cacheSize < 0 then 0 else cacheSize
      modifies this`keys, this`cache, this`made, made`closed
      ensures Consistent()
      ensures stmt == null <==> sql !in old(keys) && !prepares
      ensures stmt == null ==> keys == old(keys) && made == old(made)
      ensures stmt != null ==>
        && keys == Prepared(old(keys), sql, cacheSize) && made == old(made) + {stmt}
        && stmt.sourceSQL == sql && (!stmt.closed <==> cacheSize >= 1)
        && (if sql in old(keys) then stmt == old(cache)[sql] else fresh(stmt))
      ensures forall s :: s in old(made) ==> s.closed == (old(s.closed) || Evicts(old(keys), old(cache), sql, stmt, s))
    {
      if sql in cache {
        stmt := cache[sql];
        MoveToEnd(sql, stmt);
      } else if prepares {
        stmt := New(sql);
        if |keys| > cacheSize { EvictFirst(); }
      } else {
        stmt := null;
      }
    }

    // Whether returning stmt for sql pushes out s: it was the first, and there was no room.
    ghost predicate Evicts(before: seq<string>, cached: map<string, Statement>, sql: string, stmt: Statement?, s: Statement) {
      && stmt != null && sql !in before && |before| + 1 > cacheSize
      && before != [] && before[0] in cached && s == cached[before[0]]
    }

    method MoveToEnd(sql: string, stmt: Statement)
      requires Consistent() && sql in cache && cache[sql] == stmt
      modifies this`keys, this`cache
      ensures Consistent() && keys == Without(old(keys), sql) + [sql] && cache == old(cache) && |keys| == |old(keys)|
    {
      WithoutDistinct(keys, sql);
      Delete(sql);
      Insert(sql, stmt);
    }

    method New(sql: string) returns (stmt: Statement)
      requires Consistent() && sql !in cache
      modifies this`keys, this`cache, this`made
      ensures Consistent() && fresh(stmt) && made == old(made) + {stmt} && !stmt.closed && stmt.sourceSQL == sql
      ensures keys == old(keys) + [sql] && cache == old(cache)[sql := stmt]
    {
      stmt := new Statement(sql);
      made := made + {stmt};
      Insert(sql, stmt);
    }

    /** Eviction closes the statement of the first key, and no other. */
    method EvictFirst()
      requires Consistent() && keys != []
      modifies this`keys, this`cache, made`closed
      ensures Consistent() && keys == old(keys)[1..]
      ensures forall s :: s in made ==> s.closed == (old(s.closed) || s == old(cache)[old(keys)[0]])
    {
      assert keys[0] in keys;
      FirstWithout(keys);
      CloseOnce(cache[keys[0]]);
    }

    // Map.set of a key that is not there.
    method Insert(sql: string, stmt: Statement)
      requires Distinct(keys) && (forall k :: k in keys <==> k in cache) && sql !in keys
      modifies this`keys, this`cache
      ensures keys == old(keys) + [sql] && cache == old(cache)[sql := stmt]
      ensures Distinct(keys) && forall k :: k in keys <==> k in cache
    {
      keys := keys + [sql];
      cache := cache[sql := stmt];
    }

    // _close: the loop over the values closes every statement that is still open.
    method Close()
      requires Valid()
      modifies this`keys, this`cache, this`uses, made`closed
      ensures Valid() && keys == [] && forall s :: s in made ==> s.closed
    {
      while keys != []
        invariant Valid()
        decreases |keys|
      {
        WithoutLess(keys, keys[0]);
        Finalize(cache[keys[0]]);
      }
    }
  }

  lemma Next(uses: seq<Use>, u: Use, size: int)
    ensures Cached(uses + [u], size)
         == if u.Use? then Prepared(Cached(uses, size), u.sql, size) else Without(Cached(uses, size), u.sql)
  {
    assert (uses + [u])[..|uses|] == uses;
  }

  lemma FirstWithout(keys: seq<string>)
    requires keys != [] && Distinct(keys)
    ensures Without(keys, keys[0]) == keys[1..]
  {
    assert keys == [keys[0]] + keys[1..];
    WithoutConcat([keys[0]], keys[1..], keys[0]);
    WithoutLess(keys[1..], keys[0]);
    assert Without([keys[0]], keys[0]) == [];
  }
}

/**
 * What a shard holds, seen from its search index: one optional item per
 * search-index position (set for a position that nobody invalidated), the
 * key-value map those items make up, the restriction of that map to a
 * coordinate, and counting.
 */
module KeyMap {
  import opened Layout

  /** A key with its hashes, version and value, as one search-index entry and its record hold it. */
  datatype Item = Item(primaryHash: uint32, secondaryHash: uint32, key: seq<byte>,
                       version: uint64, value: seq<seq<byte>>)

  /** Lookups name a key by its primary hash and its bytes. */
  type Key = (uint32, seq<byte>)

  function KeyOf(x: Item): Key {
    (x.primaryHash, x.key)
  }

  predicate IsSome(o: Option<Item>) {
    o.Some?
  }

  /** The map a sequence of optional items describes; a later item for a key overrides an earlier one. */
  function ToMap(v: seq<Option<Item>>): map<Key, Item> {
    if v == [] then map[]
    else
      var m := ToMap(v[..|v| - 1]);
      match v[|v| - 1]
      case None => m
      case Some(x) => m[KeyOf(x) := x]
  }

  /** No key occurs twice among the items. */
  predicate UniqueKeys(v: seq<Option<Item>>) {
    forall i, j | 0 <= i < j < |v| && v[i].Some? && v[j].Some? :: KeyOf(v[i].value) != KeyOf(v[j].value)
  }

  /** Position j holds an item for key k. */
  predicate HoldsKey(v: seq<Option<Item>>, j: int, k: Key) {
    0 <= j < |v| && v[j].Some? && KeyOf(v[j].value) == k
  }

  lemma ToMapAppend(v: seq<Option<Item>>, o: Option<Item>)
    ensures ToMap(v + [o]) == if o.Some? then ToMap(v)[KeyOf(o.value) := o.value] else ToMap(v)
  {
    assert (v + [o])[..|v|] == v;
  }

  /** A key is in the map exactly when some position holds an item for it. */
  lemma {:induction false} ToMapDomain(v: seq<Option<Item>>, k: Key)
    ensures k in ToMap(v) <==> exists j :: HoldsKey(v, j, k)
  {
    if v != [] {
      var n := |v| - 1;
      var u := v[..n];
      assert v == u + [v[n]];
      ToMapAppend(u, v[n]);
      ToMapDomain(u, k);
      if k in ToMap(v) && !HoldsKey(v, n, k) {
        var j :| HoldsKey(u, j, k);
        assert HoldsKey(v, j, k);
      }
      if j :| HoldsKey(v, j, k) {
        if j < n {
          assert HoldsKey(u, j, k);
        }
      }
    }
  }

  /** With unique keys, the map sends each item's key to that item. */
  lemma {:induction false} ToMapAt(v: seq<Option<Item>>, j: nat)
    requires UniqueKeys(v) && j < |v| && v[j].Some?
    ensures KeyOf(v[j].value) in ToMap(v) && ToMap(v)[KeyOf(v[j].value)] == v[j].value
  {
    var n := |v| - 1;
    var u := v[..n];
    assert v == u + [v[n]];
    ToMapAppend(u, v[n]);
    if j < n {
      assert UniqueKeys(u);
      ToMapAt(u, j);
    }
  }

  /** Adding a binding for a key and removing that key again gives back a map without it. */
  lemma UpdateRemove(m: map<Key, Item>, k: Key, x: Item)
    requires k !in m
    ensures m[k := x] - {k} == m
  {
  }

  /** Removing one key and adding a binding for another commute. */
  lemma RemoveUpdate(m: map<Key, Item>, k: Key, k': Key, x: Item)
    requires k != k'
    ensures (m - {k})[k' := x] == m[k' := x] - {k}
  {
  }

  /** Invalidating the item at one position removes exactly its key from the map. */
  lemma {:induction false} ToMapClear(v: seq<Option<Item>>, j: nat)
    requires UniqueKeys(v) && j < |v| && v[j].Some?
    ensures ToMap(v[j := None]) == ToMap(v) - {KeyOf(v[j].value)}
  {
    var k := KeyOf(v[j].value);
    var n := |v| - 1;
    var u := v[..n];
    var w := v[j := None];
    assert v == u + [v[n]];
    ToMapAppend(u, v[n]);
    if j == n {
      assert w == u + [None];
      ToMapAppend(u, None);
      ToMapDomain(u, k);
      forall i | 0 <= i < |u| && u[i].Some?
        ensures KeyOf(u[i].value) != k
      {
        assert v[i] == u[i];
      }
      UpdateRemove(ToMap(u), k, v[j].value);
    } else {
      assert UniqueKeys(u);
      assert w == u[j := None] + [v[n]];
      ToMapAppend(u[j := None], v[n]);
      ToMapClear(u, j);
      if v[n].Some? {
        assert KeyOf(v[n].value) != k;
        RemoveUpdate(ToMap(u), k, KeyOf(v[n].value), v[n].value);
      }
    }
  }

  lemma UniqueKeysClear(v: seq<Option<Item>>, j: nat)
    requires UniqueKeys(v) && j < |v|
    ensures UniqueKeys(v[j := None])
  {
  }

  /** Appending an item whose key is not yet in the map keeps keys unique. */
  lemma UniqueKeysAppend(v: seq<Option<Item>>, x: Item)
    requires UniqueKeys(v) && KeyOf(x) !in ToMap(v)
    ensures UniqueKeys(v + [Some(x)])
  {
    forall i | 0 <= i < |v| && v[i].Some?
      ensures KeyOf(v[i].value) != KeyOf(x)
    {
      ToMapDomain(v, KeyOf(x));
      assert !HoldsKey(v, i, KeyOf(x));
    }
  }

  /**
   * Invalidating the item at one position and appending a new item for the
   * same key replaces that key's item in the map and keeps the item count.
   */
  lemma ReplaceItem(v: seq<Option<Item>>, j: nat, x: Item)
    requires UniqueKeys(v) && j < |v| && v[j].Some? && KeyOf(v[j].value) == KeyOf(x)
    ensures var w := v[j := None] + [Some(x)];
      && UniqueKeys(w)
      && ToMap(w) == ToMap(v)[KeyOf(x) := x]
      && CountWhere(w, IsSome) == CountWhere(v, IsSome)
  {
    ToMapClear(v, j);
    UniqueKeysClear(v, j);
    ToMapAppend(v[j := None], Some(x));
    UniqueKeysAppend(v[j := None], x);
    CountUpdate(v, j, None, IsSome);
    CountAppend(v[j := None], Some(x), IsSome);
  }

  // ---------------------------------------------------------------------
  // Restriction to a coordinate
  // ---------------------------------------------------------------------

  /** The items that match the coordinate c; the others count as invalidated. */
  function FilterView(v: seq<Option<Item>>, c: Item -> bool): seq<Option<Item>> {
    seq(|v|, i requires 0 <= i < |v| => if v[i].Some? && c(v[i].value) then v[i] else None)
  }

  /** The part of map m whose items match the coordinate c. */
  function FilterMap(m: map<Key, Item>, c: Item -> bool): map<Key, Item> {
    map k | k in m && c(m[k]) :: m[k]
  }

  lemma FilterViewPrefix(v: seq<Option<Item>>, c: Item -> bool, i: nat)
    requires i < |v|
    ensures FilterView(v[..i + 1], c) == FilterView(v[..i], c) + [FilterView(v, c)[i]]
  {
  }

  /** Restricting the items to a coordinate restricts their map to it. */
  lemma {:induction false} FilterToMap(v: seq<Option<Item>>, c: Item -> bool)
    requires UniqueKeys(v)
    ensures ToMap(FilterView(v, c)) == FilterMap(ToMap(v), c)
  {
    if v != [] {
      var n := |v| - 1;
      var u := v[..n];
      assert v == u + [v[n]];
      assert UniqueKeys(u);
      FilterToMap(u, c);
      assert FilterView(v, c) == FilterView(u, c) + [FilterView(v, c)[n]];
      ToMapAppend(u, v[n]);
      ToMapAppend(FilterView(u, c), FilterView(v, c)[n]);
      if v[n].Some? {
        var k := KeyOf(v[n].value);
        ToMapDomain(u, k);
        forall i | 0 <= i < |u| && u[i].Some?
          ensures KeyOf(u[i].value) != k
        {
          assert v[i] == u[i];
        }
      }
    }
  }

  // ---------------------------------------------------------------------
  // Counting
  // ---------------------------------------------------------------------

  /** The number of elements of s that satisfy p. */
  function CountWhere<T>(s: seq<T>, p: T -> bool): (n: nat)
    ensures n <= |s|
  {
    if s == [] then 0
    else CountWhere(s[..|s| - 1], p) + (if p(s[|s| - 1]) then 1 else 0)
  }

  lemma CountAppend<T>(s: seq<T>, x: T, p: T -> bool)
    ensures CountWhere(s + [x], p) == CountWhere(s, p) + (if p(x) then 1 else 0)
  {
    assert (s + [x])[..|s|] == s;
  }

  /** Replacing one element changes the count by what the two elements contribute. */
  lemma {:induction false} CountUpdate<T>(s: seq<T>, i: nat, x: T, p: T -> bool)
    requires i < |s|
    ensures CountWhere(s[i := x], p) + (if p(s[i]) then 1 else 0) == CountWhere(s, p) + (if p(x) then 1 else 0)
  {
    var n := |s| - 1;
    var u := s[..n];
    assert s == u + [s[n]];
    CountAppend(u, s[n], p);
    if i == n {
      assert s[i := x] == u + [x];
      CountAppend(u, x, p);
    } else {
      assert s[i := x] == u[i := x] + [s[n]];
      CountAppend(u[i := x], s[n], p);
      CountUpdate(u, i, x, p);
    }
  }

  /** A count below the length leaves an element that fails p. */
  lemma {:induction false} CountBelowLength<T>(s: seq<T>, p: T -> bool) returns (i: nat)
    requires CountWhere(s, p) < |s|
    ensures i < |s| && !p(s[i])
  {
    var n := |s| - 1;
    if p(s[n]) {
      i := CountBelowLength(s[..n], p);
    } else {
      i := n;
    }
  }

  /** No element satisfies p: the count is zero. */
  lemma {:induction false} CountNone<T>(s: seq<T>, p: T -> bool)
    requires forall i | 0 <= i < |s| :: !p(s[i])
    ensures CountWhere(s, p) == 0
  {
    if s != [] {
      CountNone(s[..|s| - 1], p);
    }
  }

  /** Every element satisfies p: the count is the length. */
  lemma {:induction false} CountAll<T>(s: seq<T>, p: T -> bool)
    requires forall i | 0 <= i < |s| :: p(s[i])
    ensures CountWhere(s, p) == |s|
  {
    if s != [] {
      CountAll(s[..|s| - 1], p);
    }
  }

  /** An element that fails p keeps the count below the length. */
  lemma {:induction false} CountMissing<T>(s: seq<T>, i: nat, p: T -> bool)
    requires i < |s| && !p(s[i])
    ensures CountWhere(s, p) < |s|
  {
    var n := |s| - 1;
    if i < n {
      assert s[..n][i] == s[i];
      CountMissing(s[..n], i, p);
    }
  }

  /** A prefix has at most the count of the whole sequence. */
  lemma {:induction false} CountPrefix<T>(s: seq<T>, i: nat, p: T -> bool)
    requires i <= |s|
    ensures CountWhere(s[..i], p) <= CountWhere(s, p)
  {
    if i < |s| {
      var n := |s| - 1;
      assert s[..n][..i] == s[..i];
      CountPrefix(s[..n], i, p);
    } else {
      assert s[..i] == s;
    }
  }

  /** Restriction to a coordinate never adds items. */
  lemma {:induction false} CountFilter(v: seq<Option<Item>>, c: Item -> bool)
    ensures CountWhere(FilterView(v, c), IsSome) <= CountWhere(v, IsSome)
  {
    if v != [] {
      var n := |v| - 1;
      CountFilter(v[..n], c);
      assert FilterView(v, c)[..n] == FilterView(v[..n], c);
    }
  }
}

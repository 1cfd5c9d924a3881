/** The cache of parsed source maps (internal/symbol/symbol.go): a size-bounded list in order of
    use, with an index beside it. Parsing is a parameter; a parsed map is known by what it was
    parsed from. */
module SourceMaps {
  import opened Common
  import opened Text
  import Blob

  type Bytes = seq<int>

  datatype Consumer = Consumer(filename: string, raw: Bytes)

  /** A cached answer; without a consumer it records that there is no usable map. */
  datatype Entry = Entry(key: string, consumer: Option<Consumer>, size: nat)

  const MAX_ENTRIES := 2048
  const MISSING_BYTES := 1024
  const DEFAULT_MAX_BYTES := 134217728

  // ----- Order of use -----

  function SizeOf(order: seq<Entry>): nat {
    if order == [] then 0 else SizeOf(order[..|order| - 1]) + order[|order| - 1].size
  }

  predicate DistinctKeys(order: seq<Entry>) {
    forall i, j :: 0 <= i < j < |order| ==> order[i].key != order[j].key
  }

  predicate Holds(order: seq<Entry>, key: string) {
    exists i :: 0 <= i < |order| && order[i].key == key
  }

  function Without(order: seq<Entry>, key: string): (r: seq<Entry>)
    ensures forall e :: e in r <==> e in order && e.key != key
  {
    if order == [] then [] else
      var n := |order| - 1;
      var rest := Without(order[..n], key);
      assert order == order[..n] + [order[n]];
      if order[n].key == key then rest else rest + [order[n]]
  }

  function WithoutPrefix(order: seq<Entry>, prefix: string): (r: seq<Entry>)
    ensures forall e :: e in r <==> e in order && !(prefix <= e.key)
  {
    if order == [] then [] else
      var n := |order| - 1;
      var rest := WithoutPrefix(order[..n], prefix);
      assert order == order[..n] + [order[n]];
      if prefix <= order[n].key then rest else rest + [order[n]]
  }

  predicate InBounds(order: seq<Entry>, maxBytes: int) {
    SizeOf(order) <= maxBytes && |order| <= MAX_ENTRIES
  }

  /** What eviction leaves: entries are dropped from the back while the bounds are exceeded and
      more than one is left. */
  function Evicted(order: seq<Entry>, maxBytes: int): seq<Entry> {
    if |order| > 1 && !InBounds(order, maxBytes) then Evicted(order[..|order| - 1], maxBytes) else order
  }

  /** The front entry is the one used last. */
  function Touched(order: seq<Entry>, e: Entry): seq<Entry> {
    [e] + Without(order, e.key)
  }

  function Inserted(order: seq<Entry>, e: Entry, maxBytes: int): seq<Entry> {
    Evicted([e] + order, maxBytes)
  }

  lemma {:induction false} SizeOfSum(a: seq<Entry>, b: seq<Entry>)
    ensures SizeOf(a + b) == SizeOf(a) + SizeOf(b)
  {
    if b == [] {
      assert a + b == a;
    } else {
      assert (a + b)[..|a + b| - 1] == a + b[..|b| - 1];
      SizeOfSum(a, b[..|b| - 1]);
    }
  }

  lemma {:induction false} SmallerPrefix(order: seq<Entry>, m: nat, maxBytes: int)
    requires m <= |order| && InBounds(order, maxBytes)
    ensures InBounds(order[..m], maxBytes)
  {
    SizeOfSum(order[..m], order[m..]);
    assert order[..m] + order[m..] == order;
  }

  /** Eviction keeps exactly the longest prefix of the order of use that meets both bounds, and
      never less than the front entry. */
  lemma {:induction false} EvictedIsLongestPrefix(order: seq<Entry>, maxBytes: int)
    ensures var k := |Evicted(order, maxBytes)|;
      && k <= |order| && Evicted(order, maxBytes) == order[..k]
      && (order != [] ==> k >= 1)
      && (k <= 1 || (SizeOf(order[..k]) <= maxBytes && k <= 2048))
      && (forall m :: k < m <= |order| ==> SizeOf(order[..m]) > maxBytes || m > 2048)
      && (k > 1 ==> forall m :: 0 <= m <= k ==> SizeOf(order[..m]) <= maxBytes)
  {
    var n := |order|;
    assert order[..n] == order;
    if n > 1 && !InBounds(order, maxBytes) {
      EvictedIsLongestPrefix(order[..n - 1], maxBytes);
      forall m | 0 <= m < n ensures order[..n - 1][..m] == order[..m] {}
    } else if InBounds(order, maxBytes) {
      forall m | 0 <= m <= n ensures InBounds(order[..m], maxBytes) { SmallerPrefix(order, m, maxBytes); }
    }
  }

  lemma SizeOfSnoc(order: seq<Entry>, e: Entry)
    ensures SizeOf(order + [e]) == SizeOf(order) + e.size
  {
    assert (order + [e])[..|order|] == order;
  }

  lemma SizeOfCons(e: Entry, order: seq<Entry>)
    ensures SizeOf([e] + order) == e.size + SizeOf(order)
  {
    SizeOfSum([e], order);
    SizeOfSnoc([], e);
    assert [] + [e] == [e];
  }

  lemma DistinctParts(order: seq<Entry>)
    requires DistinctKeys(order) && order != []
    ensures var n := |order| - 1;
      DistinctKeys(order[..n]) && forall e :: e in order[..n] ==> e.key != order[n].key
  {
  }

  lemma DistinctSnoc(order: seq<Entry>, x: Entry)
    requires DistinctKeys(order) && forall e :: e in order ==> e.key != x.key
    ensures DistinctKeys(order + [x])
  {
    forall i | 0 <= i < |order| ensures order[i].key != x.key {
      assert order[i] in order;
    }
  }

  lemma {:induction false} WithoutSizes(order: seq<Entry>, e: Entry)
    requires DistinctKeys(order) && e in order
    ensures SizeOf(Without(order, e.key)) == SizeOf(order) - e.size && |Without(order, e.key)| == |order| - 1
    ensures DistinctKeys(Without(order, e.key))
  {
    var n := |order| - 1;
    var head, last := order[..n], order[n];
    assert order == head + [last];
    DistinctParts(order);
    hide DistinctKeys;
    if last.key == e.key {
      assert last == e;
      WithoutAbsent(head, e.key);
    } else {
      WithoutSizes(head, e);
      SizeOfSnoc(Without(head, e.key), last);
      DistinctSnoc(Without(head, e.key), last);
    }
  }

  lemma InsideWhole(order: seq<Entry>)
    requires order != []
    ensures order[|order| - 1] in order && forall e :: e in order[..|order| - 1] ==> e in order
  {
  }

  lemma {:induction false} WithoutAbsent(order: seq<Entry>, key: string)
    requires forall e :: e in order ==> e.key != key
    ensures Without(order, key) == order
  {
    if order != [] {
      var n := |order| - 1;
      InsideWhole(order);
      WithoutAbsent(order[..n], key);
      assert order == order[..n] + [order[n]];
    }
  }

  lemma {:induction false} WithoutPrefixSizes(order: seq<Entry>, prefix: string)
    requires DistinctKeys(order)
    ensures DistinctKeys(WithoutPrefix(order, prefix)) && |WithoutPrefix(order, prefix)| <= |order|
    ensures SizeOf(WithoutPrefix(order, prefix)) <= SizeOf(order)
  {
    if order != [] {
      var n := |order| - 1;
      DistinctParts(order);
      hide DistinctKeys;
      WithoutPrefixSizes(order[..n], prefix);
      var rest := WithoutPrefix(order[..n], prefix);
      SizeOfSnoc(rest, order[n]);
      DistinctSnoc(rest, order[n]);
    }
  }

  /** Removing the keys with a prefix one at a time, in any order. */
  lemma {:induction false} WithoutPrefixStep(order: seq<Entry>, prefix: string, key: string)
    requires prefix <= key
    ensures WithoutPrefix(Without(order, key), prefix) == WithoutPrefix(order, prefix)
  {
    if order != [] {
      var n := |order| - 1;
      WithoutPrefixStep(order[..n], prefix, key);
      var rest := Without(order[..n], key);
      assert (rest + [order[n]])[..|rest|] == rest;
    }
  }

  lemma {:induction false} NothingWithPrefix(order: seq<Entry>, prefix: string)
    requires forall e :: e in order ==> !(prefix <= e.key)
    ensures WithoutPrefix(order, prefix) == order
  {
    if order != [] {
      var n := |order| - 1;
      InsideWhole(order);
      NothingWithPrefix(order[..n], prefix);
      assert order == order[..n] + [order[n]];
    }
  }

  // ----- Last use -----

  /** What is done to the cache: it is asked for a key, it gets what was loaded, it forgets. */
  datatype Use = Asked(key: string) | Loaded(e: Entry) | Forgot(prefix: string)

  predicate IsUseOf(u: Use, key: string) {
    (u.Asked? && u.key == key) || (u.Loaded? && u.e.key == key)
  }

  function Cached(order: seq<Entry>, key: string): Option<Entry> {
    if order == [] then None
    else if order[|order| - 1].key == key then Some(order[|order| - 1])
    else Cached(order[..|order| - 1], key)
  }

  function AfterUse(order: seq<Entry>, u: Use, maxBytes: int): seq<Entry> {
    match u
    case Asked(key) => var hit := Cached(order, key); if hit.Some? then Touched(order, hit.value) else order
    case Loaded(e) =>
      var there := Cached(order, e.key);
      if there.Some? then Touched(order, there.value) else Inserted(order, e, maxBytes)
    case Forgot(prefix) => WithoutPrefix(order, prefix)
  }

  /** The cache after a history that began with an empty one. */
  function After(uses: seq<Use>, maxBytes: int): seq<Entry> {
    if uses == [] then [] else AfterUse(After(uses[..|uses| - 1], maxBytes), uses[|uses| - 1], maxBytes)
  }

  /** When the key was used last; -1 for never. */
  function LastUse(uses: seq<Use>, key: string): (k: int)
    ensures -1 <= k < |uses|
    ensures k >= 0 ==> IsUseOf(uses[k], key)
    ensures forall j :: k < j < |uses| ==> !IsUseOf(uses[j], key)
  {
    if uses == [] then -1
    else if IsUseOf(uses[|uses| - 1], key) then |uses| - 1
    else LastUse(uses[..|uses| - 1], key)
  }

  /** What was used later stands further in front. */
  ghost predicate ByLastUse(order: seq<Entry>, uses: seq<Use>) {
    && (forall i :: 0 <= i < |order| ==> LastUse(uses, order[i].key) >= 0)
    && forall i, j :: 0 <= i < j < |order| ==> LastUse(uses, order[i].key) > LastUse(uses, order[j].key)
  }

  lemma {:induction false} CachedIsHeld(order: seq<Entry>, key: string)
    ensures Cached(order, key).Some? <==> Holds(order, key)
    ensures Cached(order, key).Some? ==> Cached(order, key).value in order && Cached(order, key).value.key == key
  {
    if order != [] {
      var n := |order| - 1;
      CachedIsHeld(order[..n], key);
      if Holds(order, key) && order[n].key != key {
        var i :| 0 <= i < |order| && order[i].key == key;
        assert order[..n][i].key == key;
      }
    }
  }

  lemma CachedIsOnly(order: seq<Entry>, e: Entry)
    requires DistinctKeys(order) && e in order
    ensures Cached(order, e.key) == Some(e)
  {
    CachedIsHeld(order, e.key);
    var i :| 0 <= i < |order| && order[i] == e;
    assert order[i].key == e.key;
  }

  lemma LastUseMore(uses: seq<Use>, u: Use, key: string)
    ensures LastUse(uses + [u], key) == if IsUseOf(u, key) then |uses| else LastUse(uses, key)
  {
    assert (uses + [u])[..|uses|] == uses;
  }

  /** Leaving entries out keeps the rest in order. */
  lemma {:induction false} WithoutStaysInOrder(order: seq<Entry>, key: string, uses: seq<Use>)
    requires ByLastUse(order, uses)
    ensures ByLastUse(Without(order, key), uses)
  {
    if order != [] {
      var n := |order| - 1;
      WithoutStaysInOrder(order[..n], key, uses);
      InFront(order, uses);
      InOrderSnoc(Without(order[..n], key), order[n], uses);
    }
  }

  lemma {:induction false} WithoutPrefixStaysInOrder(order: seq<Entry>, prefix: string, uses: seq<Use>)
    requires ByLastUse(order, uses)
    ensures ByLastUse(WithoutPrefix(order, prefix), uses)
  {
    if order != [] {
      var n := |order| - 1;
      WithoutPrefixStaysInOrder(order[..n], prefix, uses);
      InFront(order, uses);
      InOrderSnoc(WithoutPrefix(order[..n], prefix), order[n], uses);
    }
  }

  lemma InFront(order: seq<Entry>, uses: seq<Use>)
    requires ByLastUse(order, uses) && order != []
    ensures LastUse(uses, order[|order| - 1].key) >= 0
    ensures forall e :: e in order[..|order| - 1] ==> LastUse(uses, e.key) > LastUse(uses, order[|order| - 1].key)
  {
  }

  lemma InOrderSnoc(order: seq<Entry>, e: Entry, uses: seq<Use>)
    requires ByLastUse(order, uses) && LastUse(uses, e.key) >= 0
    requires forall x :: x in order ==> LastUse(uses, x.key) > LastUse(uses, e.key)
    ensures ByLastUse(order + [e], uses)
  {
    assert forall i :: 0 <= i < |order| ==> order[i] in order;
  }

  lemma InOrderCons(e: Entry, order: seq<Entry>, uses: seq<Use>)
    requires ByLastUse(order, uses) && LastUse(uses, e.key) >= 0
    requires forall x :: x in order ==> LastUse(uses, x.key) < LastUse(uses, e.key)
    ensures ByLastUse([e] + order, uses)
  {
    assert forall i :: 0 <= i < |order| ==> order[i] in order;
  }

  lemma InOrderPrefix(order: seq<Entry>, k: nat, uses: seq<Use>)
    requires ByLastUse(order, uses) && k <= |order|
    ensures ByLastUse(order[..k], uses)
  {
  }

  /** A use of other keys changes no order. */
  lemma InOrderLater(order: seq<Entry>, uses: seq<Use>, u: Use)
    requires ByLastUse(order, uses) && forall e :: e in order ==> !IsUseOf(u, e.key)
    ensures ByLastUse(order, uses + [u])
  {
    forall e | e in order ensures LastUse(uses + [u], e.key) == LastUse(uses, e.key) {
      LastUseMore(uses, u, e.key);
    }
    assert forall i :: 0 <= i < |order| ==> order[i] in order;
  }

  /** The entry used comes to the front. */
  lemma FrontIsLatest(e: Entry, rest: seq<Entry>, uses: seq<Use>, u: Use)
    requires ByLastUse(rest, uses) && IsUseOf(u, e.key) && forall x :: x in rest ==> !IsUseOf(u, x.key)
    ensures ByLastUse([e] + rest, uses + [u])
  {
    InOrderLater(rest, uses, u);
    LastUseMore(uses, u, e.key);
    forall x | x in rest ensures LastUse(uses + [u], x.key) < |uses| {
      LastUseMore(uses, u, x.key);
    }
    InOrderCons(e, rest, uses + [u]);
  }

  lemma UseKeepsOrder(order: seq<Entry>, uses: seq<Use>, u: Use, maxBytes: int)
    requires ByLastUse(order, uses)
    ensures ByLastUse(AfterUse(order, u, maxBytes), uses + [u])
  {
    hide ByLastUse, LastUse, Cached, Evicted;
    if u.Forgot? {
      WithoutPrefixStaysInOrder(order, u.prefix, uses);
      InOrderLater(WithoutPrefix(order, u.prefix), uses, u);
    } else {
      var key := if u.Asked? then u.key else u.e.key;
      CachedIsHeld(order, key);
      var there := Cached(order, key);
      if there.Some? {
        WithoutStaysInOrder(order, key, uses);
        FrontIsLatest(there.value, Without(order, key), uses, u);
      } else {
        assert forall i :: 0 <= i < |order| ==> order[i].key != key;
        if u.Asked? {
          InOrderLater(order, uses, u);
        } else {
          FrontIsLatest(u.e, order, uses, u);
          EvictedIsLongestPrefix([u.e] + order, maxBytes);
          InOrderPrefix([u.e] + order, |Evicted([u.e] + order, maxBytes)|, uses + [u]);
        }
      }
    }
  }

  /** Over every history the list is in order of last use, the latest in front. */
  lemma {:induction false} ListIsByLastUse(uses: seq<Use>, maxBytes: int)
    ensures ByLastUse(After(uses, maxBytes), uses)
  {
    if uses != [] {
      var n := |uses| - 1;
      ListIsByLastUse(uses[..n], maxBytes);
      UseKeepsOrder(After(uses[..n], maxBytes), uses[..n], uses[n], maxBytes);
      assert uses[..n] + [uses[n]] == uses;
    }
  }

  /** What an insert drops was used before everything that stays. */
  lemma LeastRecentlyUsedGoes(uses: seq<Use>, e: Entry, maxBytes: int, gone: Entry, kept: Entry)
    requires var before, after := After(uses, maxBytes), After(uses + [Loaded(e)], maxBytes);
      gone in before && gone !in after && kept in after
    ensures LastUse(uses, gone.key) < LastUse(uses + [Loaded(e)], kept.key)
    ensures kept.key != e.key ==> LastUse(uses, gone.key) < LastUse(uses, kept.key)
  {
    hide ByLastUse, LastUse, Evicted, After, AfterUse, IsUseOf;
    var before, u := After(uses, maxBytes), Loaded(e);
    AfterMore(uses, u, maxBytes);
    ListIsByLastUse(uses, maxBytes);
    LastUseMore(uses, u, kept.key);
    var n := KeptInFront(before, uses, e, maxBytes, gone);
    LoadedIsUse(e, kept.key);
    if kept.key == e.key {
      NotYetUsed(uses, gone.key);
    } else {
      KeptBeforeGone(before, uses, e, n, gone, kept);
    }
  }

  lemma AfterMore(uses: seq<Use>, u: Use, maxBytes: int)
    ensures After(uses + [u], maxBytes) == AfterUse(After(uses, maxBytes), u, maxBytes)
  {
    hide AfterUse;
    assert (uses + [u])[..|uses|] == uses;
  }

  lemma LoadedIsUse(e: Entry, key: string)
    ensures IsUseOf(Loaded(e), key) <==> key == e.key
  {
  }

  lemma NotYetUsed(uses: seq<Use>, key: string)
    ensures LastUse(uses, key) < |uses|
  {
  }

  /** An insert that drops something was of a new key, and keeps a prefix. */
  lemma KeptInFront(order: seq<Entry>, uses: seq<Use>, e: Entry, maxBytes: int, gone: Entry) returns (n: nat)
    requires ByLastUse(order, uses) && gone in order && gone !in AfterUse(order, Loaded(e), maxBytes)
    ensures n <= |order| + 1 && AfterUse(order, Loaded(e), maxBytes) == ([e] + order)[..n]
  {
    hide Cached, Evicted, LastUse;
    CachedIsHeld(order, e.key);
    if Cached(order, e.key).Some? {
      TouchingKeepsAll(order, uses, Cached(order, e.key).value);
      assert false;
    }
    EvictedIsLongestPrefix([e] + order, maxBytes);
    n := |Evicted([e] + order, maxBytes)|;
  }

  lemma KeptBeforeGone(order: seq<Entry>, uses: seq<Use>, e: Entry, n: nat, gone: Entry, kept: Entry)
    requires ByLastUse(order, uses) && n <= |order| + 1 && gone in order && gone !in ([e] + order)[..n]
    requires kept in ([e] + order)[..n] && kept.key != e.key
    ensures LastUse(uses, gone.key) < LastUse(uses, kept.key)
  {
    hide LastUse, ByLastUse;
    var all := [e] + order;
    var j :| 0 <= j < n && all[..n][j] == kept;
    var i :| 0 <= i < |order| && order[i] == gone;
    assert order[j - 1] == kept && all[i + 1] == gone;
    assert forall q :: 0 <= q < n ==> all[q] in all[..n];
    TwoInOrder(order, uses, j - 1, i);
  }

  lemma TouchingKeepsAll(order: seq<Entry>, uses: seq<Use>, e: Entry)
    requires ByLastUse(order, uses) && e in order
    ensures forall x :: x in order ==> x in Touched(order, e)
  {
    forall x | x in order ensures x in Touched(order, e) {
      if x.key == e.key {
        OnlyOnePerKey(order, uses, x, e);
      }
    }
  }

  lemma OnlyOnePerKey(order: seq<Entry>, uses: seq<Use>, a: Entry, b: Entry)
    requires ByLastUse(order, uses) && a in order && b in order && a.key == b.key
    ensures a == b
  {
  }

  lemma TwoInOrder(order: seq<Entry>, uses: seq<Use>, i: nat, j: nat)
    requires ByLastUse(order, uses) && i < j < |order|
    ensures LastUse(uses, order[j].key) < LastUse(uses, order[i].key)
  {
  }

  // ----- The cache -----

  ghost predicate Indexes(items: map<string, Entry>, order: seq<Entry>) {
    && (forall e :: e in order ==> e.key in items && items[e.key] == e)
    && (forall k :: k in items ==> items[k].key == k && items[k] in order)
  }

  lemma IndexWithoutLast(items: map<string, Entry>, head: seq<Entry>, last: Entry)
    requires Indexes(items, head + [last]) && forall e :: e in head ==> e.key != last.key
    ensures Indexes(items - {last.key}, head)
  {
    assert last in head + [last] && forall e :: e in head ==> e in head + [last];
  }

  class Cache {
    const maxBytes: int
    var bytes: int
    var order: seq<Entry>
    var items: map<string, Entry>

    /** Index and list hold the same distinct keys, and bytes is the sum of the sizes. */
    ghost predicate Valid()
      reads this
    {
      && DistinctKeys(order)
      && Indexes(items, order)
      && bytes == SizeOf(order)
    }

    /** What holds whenever the lock is free. */
    ghost predicate AtRest()
      reads this
    {
      Valid() && (InBounds(order, maxBytes) || |order| <= 1)
    }

    constructor (maxBytes: int)
      ensures AtRest() && order == []
      ensures this.maxBytes == if maxBytes <= 0 then DEFAULT_MAX_BYTES else maxBytes
    {
      this.maxBytes := if maxBytes <= 0 then DEFAULT_MAX_BYTES else maxBytes;
      bytes, order, items := 0, [], map[];
    }

    method MoveToFront(e: Entry)
      requires Valid() && e in order
      modifies this`order
      ensures Valid() && order == Touched(old(order), e) && |order| == |old(order)|
      ensures SizeOf(order) == SizeOf(old(order))
    {
      hide SizeOf, Without;
      WithoutSizes(order, e);
      SizeOfCons(e, Without(order, e.key));
      order := [e] + Without(order, e.key);
    }

    /** The first critical section: a hit moves to the front. */
    method Lookup(key: string) returns (hit: Option<Entry>)
      requires AtRest()
      modifies this
      ensures AtRest()
      ensures order == AfterUse(old(order), Asked(key), maxBytes)
      ensures hit.None? <==> !Holds(old(order), key)
      ensures hit.None? ==> order == old(order)
      ensures hit.Some? ==> hit.value in old(order) && hit.value.key == key && order[0] == hit.value
      ensures forall e :: e in order <==> e in old(order)
    {
      CachedIsHeld(order, key);
      if key in items {
        var e := items[key];
        var i :| 0 <= i < |order| && order[i] == e;
        CachedIsOnly(order, e);
        MoveToFront(e);
        return Some(e);
      }
      return None;
    }

    /** The second critical section, after the load: what is there already wins the race. */
    method Insert(e: Entry) returns (answer: Entry)
      requires AtRest()
      modifies this
      ensures AtRest() && answer in order && answer.key == e.key
      ensures order == AfterUse(old(order), Loaded(e), maxBytes)
      ensures order[0] == answer && (Holds(old(order), e.key) ==> answer in old(order))
      ensures !Holds(old(order), e.key) ==> answer == e && order == Evicted([e] + old(order), maxBytes)
    {
      CachedIsHeld(order, e.key);
      hide SizeOf, DistinctKeys, Without, Evicted;
      if e.key in items {
        var other := items[e.key];
        var i :| 0 <= i < |order| && order[i] == other;
        CachedIsOnly(order, other);
        MoveToFront(other);
        return other;
      }
      EvictedIsLongestPrefix([e] + order, maxBytes);
      PushFront(e);
      Evict();
      assert order[0] == e;
      return e;
    }

    method PushFront(e: Entry)
      requires Valid() && e.key !in items
      modifies this
      ensures Valid() && order == [e] + old(order)
    {
      hide SizeOf;
      SizeOfCons(e, order);
      items := items[e.key := e];
      order := [e] + order;
      bytes := bytes + e.size;
    }

    method Remove(key: string)
      requires Valid() && key in items
      modifies this
      ensures Valid() && order == Without(old(order), key) && items == old(items) - {key}
    {
      var e := items[key];
      WithoutSizes(order, e);
      order := Without(order, key);
      items := items - {key};
      bytes := bytes - e.size;
    }

    method Evict()
      requires Valid()
      modifies this
      ensures AtRest() && order == Evicted(old(order), maxBytes)
    {
      hide SizeOf, DistinctKeys;
      while (bytes > maxBytes || |order| > MAX_ENTRIES) && |order| > 1
        invariant Valid() && Evicted(old(order), maxBytes) == Evicted(order, maxBytes)
        decreases |order|
      {
        DropBack();
      }
    }

    method DropBack()
      requires Valid() && order != []
      modifies this
      ensures Valid() && order == old(order)[..|old(order)| - 1]
    {
      hide SizeOf, DistinctKeys, Indexes;
      var head, back := order[..|order| - 1], order[|order| - 1];
      assert order == head + [back];
      DistinctParts(order);
      SizeOfSnoc(head, back);
      IndexWithoutLast(items, head, back);
      order := head;
      items := items - {back.key};
      bytes := bytes - back.size;
    }

    /** Drops every cached map of one release. */
    method Forget(projectID: int, release: string)
      requires AtRest()
      modifies this
      ensures AtRest() && order == AfterUse(old(order), Forgot(CacheKey(projectID, release, "")), maxBytes)
      ensures forall e :: e in order <==> e in old(order) && !(CacheKey(projectID, release, "") <= e.key)
    {
      var prefix := CacheKey(projectID, release, "");
      hide SizeOf, DistinctKeys, WithoutPrefix, Without, CacheKey;
      var todo := items.Keys;
      WithoutPrefixSizes(order, prefix);
      while todo != {}
        invariant Valid() && WithoutPrefix(order, prefix) == WithoutPrefix(old(order), prefix)
        invariant forall k :: k in items && k !in todo ==> !(prefix <= k)
        invariant todo <= old(items).Keys
        decreases |todo|
      {
        var key :| key in todo;
        todo := todo - {key};
        if prefix <= key && key in items {
          WithoutPrefixStep(order, prefix, key);
          Remove(key);
        }
      }
      NothingWithPrefix(order, prefix);
    }
  }

  // ----- Keys -----

  predicate IsInt64(n: int) {
    MIN_INT64 <= n <= MAX_INT64
  }

  /** The source's itoa: decimal, except that negating the least number overflows back to itself
      and leaves only the sign. */
  function Itoa(n: int): string {
    if n == MIN_INT64 then "-" else Blob.FormatInt(n)
  }

  lemma Pow10Of19()
    ensures Pow10(19) == 10000000000000000000
  {
    assert Pow10(3) == 1000;
    assert Pow10(5) == 100000;
    assert Pow10(7) == 10000000;
    assert Pow10(9) == 1000000000;
    assert Pow10(11) == 100000000000;
    assert Pow10(13) == 10000000000000;
    assert Pow10(15) == 1000000000000000;
    assert Pow10(17) == 100000000000000000;
  }

  lemma DecimalStep(n: nat)
    ensures Blob.Decimal(n) == (if n / 10 > 0 then Blob.Decimal(n / 10) else "") + [Blob.DigitChar(n % 10)]
  {
  }

  /** The digit loop of itoa: writes them from the back of the buffer, which is large enough. */
  method FillDigits(b: array<char>, all: int) returns (i: int)
    requires b.Length == 20 && all <= MAX_INT64
    modifies b
    ensures 1 <= i <= 20 && b[i..] == if all > 0 then Blob.Decimal(all) else ""
  {
    hide Blob.Decimal;
    i := 20;
    var n := all;
    Pow10Of19();
    while n > 0
      invariant 1 <= i <= 20 && n < Pow10(i - 1) && n <= all
      invariant all > 0 ==> n >= 0 && Blob.Decimal(all) == (if n > 0 then Blob.Decimal(n) else "") + b[i..]
      invariant all <= 0 ==> i == 20
      decreases n
    {
      ghost var tail := b[i..];
      assert Pow10(i - 1) == 10 * Pow10(i - 2);
      DecimalStep(n);
      i := i - 1;
      b[i] := '0' + (n % 10) as char;
      assert b[i..] == [Blob.DigitChar(n % 10)] + tail;
      n := n / 10;
    }
  }

  /** itoa: a buffer of 20 bytes filled from the back. */
  method FormatId(id: int) returns (s: string)
    requires IsInt64(id)
    ensures s == Itoa(id)
  {
    if id == 0 {
      return "0";
    }
    var b := new char[20];
    var neg := id < 0;
    var n := if id == MIN_INT64 then id else if neg then -id else id;
    var i := FillDigits(b, n);
    if neg {
      ghost var tail := b[i..];
      i := i - 1;
      b[i] := '-';
      assert b[i..] == ['-'] + tail;
    }
    return b[i..];
  }

  predicate NulFree(s: string) {
    '\0' !in s
  }

  function CacheKey(project: int, release: string, filename: string): string {
    Itoa(project) + "\0" + release + "\0" + filename
  }

  lemma ItoaIsNulFree(n: int)
    ensures NulFree(Itoa(n))
  {
  }

  lemma ItoaIsInjective(m: int, n: int)
    requires IsInt64(m) && IsInt64(n) && Itoa(m) == Itoa(n)
    ensures m == n
  {
    if m != MIN_INT64 && n != MIN_INT64 {
      Blob.FormatIntIsInjective(m, n);
    }
  }

  lemma SplitAtNul(a: string, b: string, c: string, d: string)
    requires NulFree(a) && NulFree(c) && a + "\0" + b <= c + "\0" + d
    ensures a == c && b <= d
  {
    hide IndexByte;
    var s, t := a + "\0" + b, c + "\0" + d;
    var more := t[|s|..];
    assert t == s + more == a + ['\0'] + (b + more) == c + ['\0'] + d;
    IndexAfterFreePart(a, '\0', b + more);
    IndexAfterFreePart(c, '\0', d);
    assert a == t[..|a|] == c && d == t[|a| + 1..] == b + more;
  }

  /** The prefix Forget uses matches exactly the keys of that project and release. */
  lemma PrefixIsRelease(p: int, r: string, q: int, s: string, g: string)
    requires IsInt64(p) && IsInt64(q) && NulFree(r) && NulFree(s)
    ensures CacheKey(p, r, "") <= CacheKey(q, s, g) <==> p == q && r == s
  {
    hide Itoa;
    var k, l := CacheKey(p, r, ""), CacheKey(q, s, g);
    assert k == Itoa(p) + "\0" + (r + "\0" + "") && l == Itoa(q) + "\0" + (s + "\0" + g);
    if p == q && r == s {
      assert l == k + g;
    }
    if k <= l {
      ItoaIsNulFree(p);
      ItoaIsNulFree(q);
      SplitAtNul(Itoa(p), r + "\0" + "", Itoa(q), s + "\0" + g);
      SplitAtNul(r, "", s, g);
      ItoaIsInjective(p, q);
    }
  }

  /** Without NULs in releases, keys tell project, release and file apart. */
  lemma CacheKeyIsInjective(p: int, r: string, f: string, q: int, s: string, g: string)
    requires IsInt64(p) && IsInt64(q) && NulFree(r) && NulFree(s) && CacheKey(p, r, f) == CacheKey(q, s, g)
    ensures p == q && r == s && f == g
  {
    hide Itoa;
    assert CacheKey(p, r, f) == CacheKey(p, r, "") + f;
    PrefixIsRelease(p, r, q, s, g);
    assert CacheKey(q, s, g) == CacheKey(p, r, "") + g;
    assert f == CacheKey(p, r, f)[|CacheKey(p, r, "")|..] == g;
  }
}

/** The byte-bounded chunk cache and the recency list that it keeps. */
module Lru {
  import opened Bytes
  import opened Wrappers

  /** A key and its value; lists of them have the most recently used first. */
  type Entry = (string, seq<Byte>)

  function Total(list: seq<Entry>): nat {
    if list == [] then 0 else Total(list[..|list| - 1]) + |list[|list| - 1].1|
  }

  function Drop(list: seq<Entry>, key: string): seq<Entry> {
    if list == [] then [] else (if list[0].0 == key then [] else [list[0]]) + Drop(list[1..], key)
  }

  function Find(list: seq<Entry>, key: string): Option<seq<Byte>> {
    if list == [] then None else if list[0].0 == key then Some(list[0].1) else Find(list[1..], key)
  }

  /** Drops entries from the back until the rest fits. */
  function Fit(list: seq<Entry>, max: nat): seq<Entry> {
    if Total(list) <= max then list else Fit(list[..|list| - 1], max)
  }

  function Used(list: seq<Entry>, key: string): seq<Entry> {
    match Find(list, key)
    case Some(v) => [(key, v)] + Drop(list, key)
    case None => list
  }

  function Stored(list: seq<Entry>, key: string, value: seq<Byte>, max: nat): seq<Entry> {
    if |value| > max then list else Fit([(key, value)] + Drop(list, key), max)
  }

  ghost predicate UniqueKeys(list: seq<Entry>) {
    forall i, j | 0 <= i < j < |list| :: list[i].0 != list[j].0
  }

  // Laws of the list.

  lemma {:induction false} TotalConcat(a: seq<Entry>, b: seq<Entry>)
    ensures Total(a + b) == Total(a) + Total(b)
  {
    if b == [] {
      assert a + b == a;
    } else {
      var n := |b| - 1;
      assert (a + b)[..|a + b| - 1] == a + b[..n];
      TotalConcat(a, b[..n]);
    }
  }

  lemma TotalOne(e: Entry)
    ensures Total([e]) == |e.1|
  {
    assert Total([]) == 0;
  }

  lemma {:induction false} DropMembers(list: seq<Entry>, key: string)
    ensures forall e :: e in Drop(list, key) <==> e in list && e.0 != key
    ensures UniqueKeys(list) ==> UniqueKeys(Drop(list, key))
    ensures |Drop(list, key)| <= |list|
  {
    if list != [] {
      DropMembers(list[1..], key);
      var r := Drop(list[1..], key);
      if UniqueKeys(list) && list[0].0 != key {
        forall j | 0 <= j < |r| ensures r[j].0 != list[0].0 {
          assert r[j] in list[1..];
          var k :| 0 <= k < |list[1..]| && list[1..][k] == r[j];
          assert list[k + 1] == r[j];
        }
      }
    }
  }

  lemma {:induction false} DropAbsent(list: seq<Entry>, key: string)
    requires forall e | e in list :: e.0 != key
    ensures Drop(list, key) == list
  {
    if list != [] { DropAbsent(list[1..], key); }
  }

  lemma {:induction false} DropConcat(a: seq<Entry>, b: seq<Entry>, key: string)
    ensures Drop(a + b, key) == Drop(a, key) + Drop(b, key)
  {
    if a == [] {
      assert a + b == b;
    } else {
      assert (a + b)[1..] == a[1..] + b;
      DropConcat(a[1..], b, key);
    }
  }

  lemma DropAt(list: seq<Entry>, i: nat)
    requires UniqueKeys(list) && i < |list|
    ensures Drop(list, list[i].0) == list[..i] + list[i + 1..]
    ensures Find(list, list[i].0) == Some(list[i].1)
  {
    hide Drop; hide Find; hide UniqueKeys;
    var key := list[i].0;
    OthersDiffer(list, i);
    assert list == list[..i] + ([list[i]] + list[i + 1..]);
    DropConcat(list[..i], [list[i]] + list[i + 1..], key);
    DropConcat([list[i]], list[i + 1..], key);
    AbsentInParts(list[..i], list[i + 1..], key);
    DropOnly(list[i]);
    FindFirst(list, i);
  }

  lemma AbsentInParts(a: seq<Entry>, b: seq<Entry>, key: string)
    requires forall e | e in a + b :: e.0 != key
    ensures Drop(a, key) == a && Drop(b, key) == b
  {
    DropAbsent(a, key);
    DropAbsent(b, key);
  }

  lemma OthersDiffer(list: seq<Entry>, i: nat)
    requires UniqueKeys(list) && i < |list|
    ensures forall e | e in list[..i] + list[i + 1..] :: e.0 != list[i].0
    ensures forall j | 0 <= j < i :: list[j].0 != list[i].0
  {
    var rest := list[..i] + list[i + 1..];
    forall j | 0 <= j < |rest| ensures rest[j].0 != list[i].0 { assert rest[j] == list[if j < i then j else j + 1]; }
  }

  lemma DropOnly(e: Entry)
    ensures Drop([e], e.0) == []
  {}

  lemma TotalAt(list: seq<Entry>, i: nat)
    requires i < |list|
    ensures Total(list) == Total(list[..i] + list[i + 1..]) + |list[i].1|
  {
    hide Total;
    assert list == list[..i] + ([list[i]] + list[i + 1..]);
    TotalConcat(list[..i], [list[i]] + list[i + 1..]);
    TotalConcat([list[i]], list[i + 1..]);
    TotalConcat(list[..i], list[i + 1..]);
    TotalOne(list[i]);
  }

  lemma {:induction false} FindFirst(list: seq<Entry>, i: nat)
    requires i < |list| && forall j | 0 <= j < i :: list[j].0 != list[i].0
    ensures Find(list, list[i].0) == Some(list[i].1)
  {
    if i > 0 { FindFirst(list[1..], i - 1); }
  }

  lemma {:induction false} FindMeans(list: seq<Entry>, key: string)
    ensures Find(list, key) == None <==> forall e | e in list :: e.0 != key
    ensures Find(list, key).Some? ==> (key, Find(list, key).value) in list
  {
    if list != [] { FindMeans(list[1..], key); }
  }

  lemma {:induction false} TotalMonotone(list: seq<Entry>, n: nat)
    requires n <= |list|
    ensures Total(list[..n]) <= Total(list)
  {
    TotalConcat(list[..n], list[n..]);
    assert list == list[..n] + list[n..];
  }

  /** What stays after eviction is a prefix that fits, and no longer prefix does. */
  lemma {:induction false} FitLongest(list: seq<Entry>, max: nat)
    ensures Fit(list, max) <= list && Total(Fit(list, max)) <= max
    ensures forall n | |Fit(list, max)| < n <= |list| :: Total(list[..n]) > max
  {
    if Total(list) > max {
      var rest := list[..|list| - 1];
      FitLongest(rest, max);
      forall n | |Fit(list, max)| < n <= |list| ensures Total(list[..n]) > max {
        if n < |list| { assert list[..n] == rest[..n]; } else { assert list[..n] == list; }
      }
    }
  }

  /** A prefix that fits, such that the next longer one does not, is the eviction's result. */
  lemma FitUnique(list: seq<Entry>, max: nat, n: nat)
    requires n <= |list| && Total(list[..n]) <= max && (n < |list| ==> Total(list[..n + 1]) > max)
    ensures Fit(list, max) == list[..n]
  {
    FitLongest(list, max);
    hide Fit; hide Total;
    var m := |Fit(list, max)|;
    assert Fit(list, max) == list[..m];
    if m > n {
      assert list[..m][..n + 1] == list[..n + 1];
      TotalMonotone(list[..m], n + 1);
    }
  }

  /** An accepted value is in the cache at once, at the front. */
  lemma StoredIsFirst(list: seq<Entry>, key: string, value: seq<Byte>, max: nat)
    requires |value| <= max
    ensures var r := Stored(list, key, value, max); r != [] && r[0] == (key, value)
  {
    var all := [(key, value)] + Drop(list, key);
    FitLongest(all, max);
    assert all[..1] == [(key, value)];
    TotalOne((key, value));
    assert |Fit(all, max)| >= 1;
  }

  lemma StoredKeepsUnique(list: seq<Entry>, key: string, value: seq<Byte>, max: nat)
    requires UniqueKeys(list)
    ensures UniqueKeys(Stored(list, key, value, max))
  {
    DropMembers(list, key);
    var all := [(key, value)] + Drop(list, key);
    FitLongest(all, max);
    assert forall j | 0 < j < |all| :: all[j] in Drop(list, key);
  }

  // Runs of the cache.

  datatype Op = Put(key: string, value: seq<Byte>) | Get(key: string) | Remove(key: string) | Clear

  function Step(list: seq<Entry>, op: Op, max: nat): seq<Entry> {
    match op
    case Put(key, value) => Stored(list, key, value, max)
    case Get(key) => Used(list, key)
    case Remove(key) => Drop(list, key)
    case Clear => []
  }

  function Run(ops: seq<Op>, max: nat): seq<Entry> {
    if ops == [] then [] else Step(Run(ops[..|ops| - 1], max), ops[|ops| - 1], max)
  }

  /** The value of the last Put that the cache accepted for a key and no later Remove or Clear took away. */
  function LastAccepted(ops: seq<Op>, key: string, max: nat): Option<seq<Byte>> {
    if ops == [] then None
    else
      var earlier := LastAccepted(ops[..|ops| - 1], key, max);
      match ops[|ops| - 1]
      case Put(k, v) => if k == key && |v| <= max then Some(v) else earlier
      case Get(_) => earlier
      case Remove(k) => if k == key then None else earlier
      case Clear => None
  }

  lemma UsedMembers(list: seq<Entry>, key: string)
    requires UniqueKeys(list)
    ensures UniqueKeys(Used(list, key)) && Total(Used(list, key)) == Total(list)
    ensures forall e :: e in Used(list, key) <==> e in list
  {
    FindMeans(list, key);
    if Find(list, key).Some? {
      var i :| 0 <= i < |list| && list[i] == (key, Find(list, key).value);
      UsedAt(list, i);
    }
  }

  lemma UsedAt(list: seq<Entry>, i: nat)
    requires UniqueKeys(list) && i < |list|
    ensures var u := Used(list, list[i].0);
            && u == [list[i]] + (list[..i] + list[i + 1..])
            && UniqueKeys(u) && Total(u) == Total(list) && forall e :: e in u <==> e in list
  {
    hide Drop; hide Find; hide Total; hide UniqueKeys;
    var rest := list[..i] + list[i + 1..];
    DropAt(list, i);
    TotalAt(list, i);
    TotalConcat([list[i]], rest);
    TotalOne(list[i]);
    assert list == list[..i] + ([list[i]] + list[i + 1..]);
    DropMembers(list, list[i].0);
    ConsUnique(list[i], rest);
  }

  lemma ConsUnique(e: Entry, rest: seq<Entry>)
    requires UniqueKeys(rest) && forall x | x in rest :: x.0 != e.0
    ensures UniqueKeys([e] + rest)
  {
    forall j | 0 < j < |[e] + rest| ensures ([e] + rest)[j] in rest {}
  }

  /** In every run: each key once, never more bytes than allowed, and only the last accepted value of a key. */
  lemma {:induction false} RunIsCoherent(ops: seq<Op>, max: nat)
    ensures var list := Run(ops, max);
            && UniqueKeys(list) && Total(list) <= max
            && forall e | e in list :: LastAccepted(ops, e.0, max) == Some(e.1)
  {
    hide Total; hide Drop; hide Find; hide UniqueKeys; hide Fit; hide Used;
    if ops == [] {
      NothingIsUnique();
    } else {
      var before := Run(ops[..|ops| - 1], max);
      RunIsCoherent(ops[..|ops| - 1], max);
      match ops[|ops| - 1]
      case Put(key, value) =>
        StoredKeepsUnique(before, key, value, max);
        FitLongest([(key, value)] + Drop(before, key), max);
        DropMembers(before, key);
      case Get(key) => UsedMembers(before, key);
      case Remove(key) =>
        DropMembers(before, key);
        DropShrinks(before, key);
      case Clear => NothingIsUnique();
    }
  }

  lemma NothingIsUnique()
    ensures UniqueKeys([]) && Total([]) == 0
  {}

  lemma DropShrinks(list: seq<Entry>, key: string)
    requires UniqueKeys(list)
    ensures Total(Drop(list, key)) <= Total(list)
  {
    FindMeans(list, key);
    if Find(list, key).Some? {
      var i :| 0 <= i < |list| && list[i] == (key, Find(list, key).value);
      DropAt(list, i);
      TotalAt(list, i);
    } else {
      DropAbsent(list, key);
    }
  }

  /** A hit returns the value of the last accepted Put. */
  lemma HitIsLastAccepted(ops: seq<Op>, key: string, max: nat)
    ensures Find(Run(ops, max), key).Some? ==> Find(Run(ops, max), key) == LastAccepted(ops, key, max)
  {
    RunIsCoherent(ops, max);
    FindMeans(Run(ops, max), key);
  }

  // Reading through the cache.

  /** A read that puts what it missed into the cache. */
  function Access(list: seq<Entry>, key: string, value: seq<Byte>, max: nat): seq<Entry> {
    if Find(list, key).Some? then Used(list, key) else Stored(list, key, value, max)
  }

  function ReadThrough(keys: seq<string>, content: string -> seq<Byte>, max: nat): seq<Entry> {
    if keys == [] then []
    else Access(ReadThrough(keys[..|keys| - 1], content, max), keys[|keys| - 1], content(keys[|keys| - 1]), max)
  }

  /** Everything ever read that fits a cache of this size, the last read first. */
  function Recency(keys: seq<string>, content: string -> seq<Byte>, max: nat): seq<Entry> {
    if keys == [] then []
    else
      var key := keys[|keys| - 1];
      var rest := Recency(keys[..|keys| - 1], content, max);
      if |content(key)| > max then rest else [(key, content(key))] + Drop(rest, key)
  }

  lemma {:induction false} RecencyContents(keys: seq<string>, content: string -> seq<Byte>, max: nat)
    ensures UniqueKeys(Recency(keys, content, max))
    ensures forall e | e in Recency(keys, content, max) :: e.1 == content(e.0) && |e.1| <= max
  {
    if keys != [] {
      var key := keys[|keys| - 1];
      var rest := Recency(keys[..|keys| - 1], content, max);
      RecencyContents(keys[..|keys| - 1], content, max);
      DropMembers(rest, key);
      ConsUnique((key, content(key)), Drop(rest, key));
    }
  }

  lemma FitExtends(p: seq<Entry>, x: seq<Entry>, max: nat)
    requires x != [] ==> Total(p + [x[0]]) > max
    ensures Fit(p + x, max) == Fit(p, max)
  {
    hide Fit; hide Total;
    FitLongest(p, max);
    var n := |Fit(p, max)|;
    assert Fit(p, max) == p[..n] == (p + x)[..n];
    if n < |p| {
      assert (p + x)[..n + 1] == p[..n + 1];
    } else if x != [] {
      assert (p + x)[..n + 1] == p + [x[0]];
    }
    FitUnique(p + x, max, n);
  }

  lemma HitKeepsPrefix(r: seq<Entry>, max: nat, i: nat)
    requires UniqueKeys(r) && i < |Fit(r, max)|
    ensures |Fit(r, max)| <= |r| && Used(Fit(r, max), r[i].0) == Fit([r[i]] + Drop(r, r[i].0), max)
  {
    hide Fit; hide Total; hide Drop; hide Used; hide Find; hide UniqueKeys;
    FitLongest(r, max);
    var l := Fit(r, max);
    var n := |l|;
    assert l == r[..n] && l[i] == r[i];
    PrefixUnique(r, n);
    UsedAt(l, i);
    DropAt(r, i);
    var moved := [r[i]] + Drop(r, r[i].0);
    assert moved[..n] == [r[i]] + (l[..i] + l[i + 1..]);
    if n < |r| {
      PrefixUnique(r, n + 1);
      UsedAt(r[..n + 1], i);
      assert moved[..n + 1] == [r[i]] + (r[..n + 1][..i] + r[..n + 1][i + 1..]);
    }
    FitUnique(moved, max, n);
  }

  lemma PrefixUnique(r: seq<Entry>, n: nat)
    requires UniqueKeys(r) && n <= |r|
    ensures UniqueKeys(r[..n])
  {}

  lemma MissKeepsPrefix(r: seq<Entry>, max: nat, e: Entry)
    requires UniqueKeys(r) && (forall x | x in Fit(r, max) :: x.0 != e.0) && forall x | x in r && x.0 == e.0 :: x == e
    ensures Fit([e] + Drop(Fit(r, max), e.0), max) == Fit([e] + Drop(r, e.0), max)
  {
    hide Fit; hide Total; hide Drop; hide UniqueKeys;
    FitLongest(r, max);
    var l := Fit(r, max);
    var n := |l|;
    assert r == l + r[n..];
    DropAbsent(l, e.0);
    DropConcat(l, r[n..], e.0);
    var x := Drop(r[n..], e.0);
    assert [e] + Drop(r, e.0) == ([e] + l) + x;
    if n == |r| {
      DropAbsent(r[n..], e.0);
    } else if x != [] {
      assert r[n] in r;
      MissedNext(r, n, e, max);
    }
    FitExtends([e] + l, x, max);
  }

  lemma MissedNext(r: seq<Entry>, n: nat, e: Entry, max: nat)
    requires UniqueKeys(r) && n < |r| && Total(r[..n + 1]) > max && (r[n].0 == e.0 ==> r[n] == e)
    requires Drop(r[n..], e.0) != []
    ensures Total([e] + r[..n] + [Drop(r[n..], e.0)[0]]) > max
  {
    hide Total; hide UniqueKeys;
    var x := Drop(r[n..], e.0)[0];
    assert r[..n + 1] == r[..n] + [r[n]];
    TotalConcat(r[..n], [r[n]]);
    TotalConcat([e], r[..n]);
    TotalConcat([e] + r[..n], [x]);
    TotalOne(r[n]);
    TotalOne(e);
    TotalOne(x);
    assert r[n] != e ==> x == r[n];
  }

  /** A cache that is read through always holds the longest prefix of the recency list that fits. */
  lemma {:induction false} CacheIsFittingPrefix(keys: seq<string>, content: string -> seq<Byte>, max: nat)
    ensures ReadThrough(keys, content, max) == Fit(Recency(keys, content, max), max)
  {
    hide Fit; hide Drop; hide Find; hide UniqueKeys;
    if keys == [] {
      FitLongest([], max);
    } else {
      var key := keys[|keys| - 1];
      var r := Recency(keys[..|keys| - 1], content, max);
      CacheIsFittingPrefix(keys[..|keys| - 1], content, max);
      RecencyContents(keys[..|keys| - 1], content, max);
      FitLongest(r, max);
      FindMeans(Fit(r, max), key);
      if Find(Fit(r, max), key).Some? {
        var i :| 0 <= i < |Fit(r, max)| && Fit(r, max)[i] == (key, Find(Fit(r, max), key).value);
        assert r[i] in r && r[i] == (key, content(key));
        HitKeepsPrefix(r, max, i);
      } else if |content(key)| <= max {
        MissKeepsPrefix(r, max, (key, content(key)));
      }
    }
  }

  /** A larger cache holds all that a smaller one holds, in the same order, when every value fits the smaller one. */
  lemma LargerCacheHoldsMore(keys: seq<string>, content: string -> seq<Byte>, small: nat, large: nat)
    requires small <= large && forall key | key in keys :: |content(key)| <= small
    ensures ReadThrough(keys, content, small) <= ReadThrough(keys, content, large)
  {
    hide Fit; hide Recency; hide ReadThrough;
    var r := Recency(keys, content, small);
    SameRecency(keys, content, small, large);
    CacheIsFittingPrefix(keys, content, small);
    CacheIsFittingPrefix(keys, content, large);
    FitLongest(r, small);
    FitLongest(r, large);
    var n := |Fit(r, small)|;
    assert Fit(r, small) == r[..n];
    assert n <= |Fit(r, large)|;
  }

  lemma {:induction false} SameRecency(keys: seq<string>, content: string -> seq<Byte>, small: nat, large: nat)
    requires small <= large && forall key | key in keys :: |content(key)| <= small
    ensures Recency(keys, content, small) == Recency(keys, content, large)
  {
    if keys != [] {
      assert keys[|keys| - 1] in keys;
      SameRecency(keys[..|keys| - 1], content, small, large);
    }
  }

  class CacheItem {
    const key: string
    var value: seq<Byte>
    var size: nat

    constructor (k: string, v: seq<Byte>)
      ensures key == k && value == v && size == |v|
    {
      key, value, size := k, v, |v|;
    }
  }

  class ChunkCache {
    const maxBytes: nat
    var currentBytes: int
    var items: map<string, CacheItem>
    var evictList: seq<CacheItem>

    ghost function Elements(): set<CacheItem>
      reads this
    {
      set i | i in evictList
    }

    /** The entries, most recently used first. */
    ghost function Contents(): seq<Entry>
      reads this, Elements()
    {
      EntriesOf(evictList)
    }

    static ghost function EntriesOf(s: seq<CacheItem>): (list: seq<Entry>)
      reads set i | i in s
      ensures |list| == |s|
    {
      if s == [] then [] else [(s[0].key, s[0].value)] + EntriesOf(s[1..])
    }

    static lemma {:induction false} EntriesAt(s: seq<CacheItem>)
      ensures forall i | 0 <= i < |s| :: EntriesOf(s)[i] == (s[i].key, s[i].value)
    {
      if s != [] { EntriesAt(s[1..]); }
    }

    static lemma {:induction false} EntriesConcat(a: seq<CacheItem>, b: seq<CacheItem>)
      ensures EntriesOf(a + b) == EntriesOf(a) + EntriesOf(b)
    {
      if a == [] {
        assert a + b == b;
      } else {
        assert (a + b)[1..] == a[1..] + b;
        EntriesConcat(a[1..], b);
      }
    }

    static lemma EntriesOfOne(item: CacheItem)
      ensures EntriesOf([item]) == [(item.key, item.value)]
    {
      assert EntriesOf([]) == [];
    }

    /** The map and the list hold the same items, each once, under their keys. */
    static ghost predicate Indexed(m: map<string, CacheItem>, list: seq<CacheItem>) {
      && (forall k | k in m :: m[k] in list && m[k].key == k)
      && (forall i | i in list :: i.key in m && m[i.key] == i)
      && forall i, j | 0 <= i < j < |list| :: list[i] != list[j]
    }

    static ghost predicate Measured(list: seq<CacheItem>, bytes: int)
      reads set i | i in list
    {
      (forall i | i in list :: i.size == |i.value|) && bytes == Total(EntriesOf(list))
    }

    ghost predicate Linked()
      reads this, Elements()
    {
      Indexed(items, evictList) && Measured(evictList, currentBytes)
    }

    ghost predicate Valid()
      reads this, Elements()
    {
      Linked() && currentBytes <= maxBytes
    }

    constructor (max: int)
      ensures Valid() && Contents() == []
      ensures maxBytes == if max <= 0 then 64 * 1024 * 1024 else max
    {
      maxBytes := if max <= 0 then 64 * 1024 * 1024 else max;
      currentBytes, items, evictList := 0, map[], [];
    }

    static lemma KeysUnique(m: map<string, CacheItem>, list: seq<CacheItem>)
      requires Indexed(m, list)
      ensures UniqueKeys(EntriesOf(list))
    {
      EntriesAt(list);
      forall i, j | 0 <= i < j < |list| ensures list[i].key != list[j].key {
        assert list[i] in list && list[j] in list;
      }
    }

    static function Rest<T>(list: seq<T>, i: nat): seq<T>
      requires i < |list|
    {
      list[..i] + list[i + 1..]
    }

    static lemma RestMembers(list: seq<CacheItem>, i: nat)
      requires i < |list| && forall i, j | 0 <= i < j < |list| :: list[i] != list[j]
      ensures forall x :: x in Rest(list, i) <==> x in list && x != list[i]
      ensures forall i', j' | 0 <= i' < j' < |list| - 1 :: Rest(list, i)[i'] != Rest(list, i)[j']
    {
      assert list == list[..i] + [list[i]] + list[i + 1..];
    }

    static lemma IndexedWithout(m: map<string, CacheItem>, list: seq<CacheItem>, i: nat)
      requires Indexed(m, list) && i < |list|
      ensures Indexed(m - {list[i].key}, Rest(list, i))
      ensures Indexed(m, [list[i]] + Rest(list, i))
    {
      hide Rest;
      RestMembers(list, i);
      RestShorter(list, i);
      assert list[i] in list;
    }

    static lemma EntriesWithout(list: seq<CacheItem>, i: nat)
      requires i < |list|
      ensures EntriesOf(Rest(list, i)) == Rest(EntriesOf(list), i)
    {
      hide EntriesOf; hide Rest;
      var (a, b, c) := (list[..i], [list[i]], list[i + 1..]);
      assert list == a + (b + c);
      EntriesConcat(a, b + c);
      EntriesConcat(b, c);
      EntriesConcat(a, c);
      RestIs(list, i);
      RestOfMiddle(EntriesOf(a), EntriesOf(b), EntriesOf(c));
    }

    static lemma RestOfMiddle(a: seq<Entry>, b: seq<Entry>, c: seq<Entry>)
      requires |b| == 1
      ensures Rest(a + (b + c), |a|) == a + c
    {
      var s := a + (b + c);
      assert s[..|a|] == a && s[|a| + 1..] == c;
    }

    static lemma RestShorter<T>(list: seq<T>, i: nat)
      requires i < |list|
      ensures |Rest(list, i)| == |list| - 1 && forall x | x in Rest(list, i) :: x in list
    {}

    /** Where an item stands in the list. */
    method Position(elem: CacheItem) returns (i: nat)
      requires elem in evictList
      ensures i < |evictList| && evictList[i] == elem
    {
      var j: nat :| j < |evictList| && evictList[j] == elem;
      i := j;
    }

    lemma WithoutElement(i: nat)
      requires Linked() && i < |evictList|
      ensures EntriesOf(Rest(evictList, i)) == Drop(Contents(), evictList[i].key)
      ensures Measured(Rest(evictList, i), currentBytes - evictList[i].size)
    {
      hide Indexed; hide Total; hide Drop; hide UniqueKeys; hide EntriesOf;
      KeysUnique(items, evictList);
      EntriesAt(evictList);
      EntriesWithout(evictList, i);
      DropAt(Contents(), i);
      TotalAt(Contents(), i);
      assert evictList[i] in evictList;
    }

    method RemoveElement(elem: CacheItem)
      requires Linked() && elem in evictList
      modifies this
      ensures Linked() && Contents() == Drop(old(Contents()), elem.key)
      ensures Elements() <= old(Elements())
    {
      hide Indexed; hide Measured; hide Drop; hide EntriesOf; hide Rest;
      var i := Position(elem);
      WithoutElement(i);
      IndexedWithout(items, evictList, i);
      RestShorter(evictList, i);
      evictList := Rest(evictList, i);
      assert Measured(evictList, currentBytes - elem.size);
      items := items - {elem.key};
      currentBytes := currentBytes - elem.size;
    }

    lemma UniquelyKeyed()
      requires Linked()
      ensures UniqueKeys(Contents())
    {
      KeysUnique(items, evictList);
    }

    lemma BytesCounted()
      requires Linked()
      ensures currentBytes == Total(Contents())
    {}

    lemma LastDropped()
      requires Linked() && evictList != []
      ensures Drop(Contents(), evictList[|evictList| - 1].key) == Contents()[..|evictList| - 1]
    {
      hide Drop; hide Indexed;
      KeysUnique(items, evictList);
      EntriesAt(evictList);
      DropAt(Contents(), |evictList| - 1);
    }

    /** Evicts from the back until the rest fits. */
    method Evict()
      requires Linked()
      modifies this
      ensures Valid() && Contents() == Fit(old(Contents()), maxBytes)
      ensures Elements() <= old(Elements())
    {
      hide Linked; hide Total; hide Drop; hide EntriesOf;
      BytesCounted();
      while currentBytes > maxBytes && |evictList| > 0
        invariant Linked() && Fit(old(Contents()), maxBytes) == Fit(Contents(), maxBytes)
        invariant currentBytes == Total(Contents()) && Elements() <= old(Elements())
        decreases |evictList|
      {
        LastDropped();
        RemoveElement(evictList[|evictList| - 1]);
        BytesCounted();
      }
      NothingIsUnique();
    }

    lemma Front(i: nat)
      requires Linked() && i < |evictList|
      ensures var moved := [evictList[i]] + Rest(evictList, i);
              && EntriesOf(moved) == Used(Contents(), evictList[i].key)
              && EntriesOf(moved) == [(evictList[i].key, evictList[i].value)] + Drop(Contents(), evictList[i].key)
              && Measured(moved, currentBytes)
              && Indexed(items, moved) && forall x :: x in moved <==> x in evictList
    {
      hide Total; hide Drop; hide Find; hide Used; hide UniqueKeys; hide EntriesOf; hide Indexed; hide Rest;
      KeysUnique(items, evictList);
      IndexedWithout(items, evictList, i);
      EntriesAt(evictList);
      EntriesWithout(evictList, i);
      EntriesConcat([evictList[i]], Rest(evictList, i));
      EntriesOfOne(evictList[i]);
      UsedAt(Contents(), i);
      DropAt(Contents(), i);
      FrontMembers(evictList, i);
      assert Rest(Contents(), i) == Contents()[..i] + Contents()[i + 1..] by { RestIs(Contents(), i); }
      var moved := [evictList[i]] + Rest(evictList, i);
      assert EntriesOf(moved) == [Contents()[i]] + EntriesOf(Rest(evictList, i));
    }

    static lemma RestIs<T>(list: seq<T>, i: nat)
      requires i < |list|
      ensures Rest(list, i) == list[..i] + list[i + 1..]
    {}

    static lemma FrontMembers(list: seq<CacheItem>, i: nat)
      requires i < |list|
      ensures forall x :: x in [list[i]] + Rest(list, i) <==> x in list
    {
      assert list == list[..i] + [list[i]] + list[i + 1..];
    }

    method MoveToFront(elem: CacheItem)
      requires Linked() && elem in evictList
      modifies this`evictList
      ensures Linked() && evictList != [] && evictList[0] == elem && Elements() == old(Elements())
      ensures Contents() == Used(old(Contents()), elem.key)
      ensures Contents() == [(elem.key, elem.value)] + Drop(old(Contents()), elem.key)
    {
      hide Indexed; hide Measured; hide Drop; hide Used; hide Rest; hide EntriesOf;
      var i := Position(elem);
      Front(i);
      evictList := [elem] + Rest(evictList, i);
      assert Measured(evictList, currentBytes);
    }

    /** Looks a key up, and makes it the most recently used one when it is there. */
    method Get(key: string) returns (r: Option<seq<Byte>>)
      requires Valid()
      modifies this`evictList
      ensures Valid() && Elements() == old(Elements())
      ensures r == Find(old(Contents()), key) && Contents() == Used(old(Contents()), key)
    {
      hide Used; hide Drop; hide Find; hide EntriesOf; hide Measured;
      LookedUp(key);
      if key in items {
        var item := items[key];
        MoveToFront(item);
        return Some(item.value);
      }
      return None;
    }

    lemma LookedUp(key: string)
      requires Linked()
      ensures Find(Contents(), key) == if key in items then Some(items[key].value) else None
      ensures key in items ==> items[key] in evictList && items[key].key == key
      ensures key !in items ==> Used(Contents(), key) == Contents() && Drop(Contents(), key) == Contents()
    {
      hide Drop; hide UniqueKeys; hide Total;
      KeysUnique(items, evictList);
      EntriesAt(evictList);
      FindMeans(Contents(), key);
      if key in items {
        var i: nat :| i < |evictList| && evictList[i] == items[key];
        DropAt(Contents(), i);
      } else {
        forall e | e in Contents() ensures e.0 != key {
          var i: nat :| i < |evictList| && Contents()[i] == e;
          assert evictList[i] in evictList;
        }
        DropAbsent(Contents(), key);
      }
    }

    static lemma FrontAndRest(list: seq<CacheItem>, bytes: int)
      requires list != []
      ensures var (item, rest) := (list[0], list[1..]);
              && EntriesOf(list) == [(item.key, item.value)] + EntriesOf(rest)
              && (Measured(list, bytes) <==> item.size == |item.value| && Measured(rest, bytes - |item.value|))
    {
      hide EntriesOf; hide Total;
      var (item, rest) := (list[0], list[1..]);
      assert list == [item] + rest;
      EntriesConcat([item], rest);
      EntriesOfOne(item);
      TotalConcat([(item.key, item.value)], EntriesOf(rest));
      TotalOne((item.key, item.value));
    }

    /** Gives the front item, and no other, a new value. */
    method Overwrite(item: CacheItem, value: seq<Byte>)
      requires Linked() && evictList != [] && evictList[0] == item
      modifies this`currentBytes, item
      ensures Linked() && Contents() == [(item.key, value)] + old(Contents())[1..]
    {
      hide EntriesOf; hide Measured;
      ghost var rest := evictList[1..];
      FrontAndRest(evictList, currentBytes);
      assert item !in rest by { assert evictList == [item] + rest; }
      assert Contents()[1..] == EntriesOf(rest);
      currentBytes := currentBytes + |value| - item.size;
      item.value := value;
      item.size := |value|;
      FrontAndRest(evictList, currentBytes);
    }

    static lemma IndexedAdded(m: map<string, CacheItem>, list: seq<CacheItem>, item: CacheItem)
      requires Indexed(m, list) && item.key !in m
      ensures Indexed(m[item.key := item], [item] + list)
    {}

    method PushFront(key: string, value: seq<Byte>)
      requires Linked() && key !in items
      modifies this
      ensures Linked() && Contents() == [(key, value)] + old(Contents())
      ensures fresh(Elements() - old(Elements()))
    {
      hide EntriesOf; hide Measured; hide Indexed;
      var item := new CacheItem(key, value);
      IndexedAdded(items, evictList, item);
      evictList := [item] + evictList;
      items := items[key := item];
      currentBytes := currentBytes + |value|;
      assert evictList[1..] == old(evictList);
      FrontAndRest(evictList, currentBytes);
    }

    /** Inserts or replaces a value, then evicts; a value larger than the cache is ignored. */
    method Put(key: string, value: seq<Byte>)
      requires Valid()
      modifies this, Elements()
      ensures Valid() && fresh(Elements() - old(Elements()))
      ensures Contents() == Stored(old(Contents()), key, value, maxBytes)
    {
      hide Drop; hide Used; hide Find; hide Fit; hide Indexed; hide Measured; hide EntriesOf;
      if |value| > maxBytes { return; }
      LookedUp(key);
      if key in items {
        var item := items[key];
        MoveToFront(item);
        Overwrite(item, value);
      } else {
        PushFront(key, value);
      }
      assert Contents() == [(key, value)] + Drop(old(Contents()), key);
      Evict();
    }

    method Remove(key: string)
      requires Valid()
      modifies this
      ensures Valid() && Elements() <= old(Elements())
      ensures Contents() == Drop(old(Contents()), key)
    {
      hide Drop; hide Find; hide EntriesOf; hide Measured;
      LookedUp(key);
      BytesCounted();
      if key in items {
        KeysUnique(items, evictList);
        DropShrinks(Contents(), key);
        RemoveElement(items[key]);
        BytesCounted();
      }
    }

    method Clear()
      modifies this
      ensures Valid() && Contents() == []
    {
      items, evictList, currentBytes := map[], [], 0;
    }

    lemma SameCount()
      requires Linked()
      ensures |items| == |evictList|
    {
      hide EntriesOf; hide Total;
      var list := Contents();
      KeysUnique(items, evictList);
      EntriesAt(evictList);
      KeyCount(list);
      assert items.Keys == (set e | e in list :: e.0) by {
        forall k ensures k in items <==> k in (set e | e in list :: e.0) {
          if k in items {
            var i: nat :| i < |evictList| && evictList[i] == items[k];
            assert list[i] in list && list[i].0 == k;
          }
          if e :| e in list && e.0 == k {
            var i: nat :| i < |list| && list[i] == e;
            assert evictList[i] in evictList;
          }
        }
      }
    }

    static lemma {:induction false} KeyCount(list: seq<Entry>)
      requires UniqueKeys(list)
      ensures |set e | e in list :: e.0| == |list|
    {
      if list != [] {
        var n := |list| - 1;
        var keys := set e | e in list[..n] :: e.0;
        KeyCount(list[..n]);
        assert list == list[..n] + [list[n]];
        assert (set e | e in list :: e.0) == keys + {list[n].0};
        assert list[n].0 !in keys;
      }
    }

    method Stats() returns (bytes: int, count: nat)
      requires Valid()
      ensures bytes == Total(Contents()) && count == |Contents()|
    {
      SameCount();
      return currentBytes, |items|;
    }
  }
}

// The worker's LRU cache of test data: a list of entries, most recently used
// first, with an index from keys to list elements and a one-hour lifetime.
module LruCache {
  import opened Text

  datatype Item<V> = Item(key: string, value: V, expires: int)

  const TTL := 3_600_000_000_000 // one hour in nanoseconds

  // ---- The cache as a plain sequence ----

  ghost function Keys<V>(l: seq<Item<V>>): set<string> { set i | 0 <= i < |l| :: l[i].key }

  ghost predicate Distinct<V>(l: seq<Item<V>>) {
    forall i, j :: 0 <= i < j < |l| ==> l[i].key != l[j].key
  }

  function Lookup<V>(l: seq<Item<V>>, k: string): Option<Item<V>> {
    if l == [] then None else if l[0].key == k then Some(l[0]) else Lookup(l[1..], k)
  }

  function Without<V>(l: seq<Item<V>>, k: string): seq<Item<V>> {
    if l == [] then []
    else if l[0].key == k then Without(l[1..], k)
    else [l[0]] + Without(l[1..], k)
  }

  function GetResult<V>(l: seq<Item<V>>, k: string, now: int): Option<V> {
    match Lookup(l, k)
    case None => None
    case Some(it) => if now > it.expires then None else Some(it.value)
  }

  function AfterGet<V>(l: seq<Item<V>>, k: string, now: int): seq<Item<V>> {
    match Lookup(l, k)
    case None => l
    case Some(it) => if now > it.expires then Without(l, k) else [it] + Without(l, k)
  }

  function AfterSet<V>(l: seq<Item<V>>, k: string, v: V, now: int, maxSize: int): seq<Item<V>> {
    var pushed := [Item(k, v, now + TTL)] + Without(l, k);
    if Lookup(l, k).None? && |pushed| > maxSize then pushed[..|pushed| - 1] else pushed
  }

  // ---- The code ----

  class CacheEntry<V> {
    const key: string
    var value: V
    var expires: int

    constructor (key: string, value: V, expires: int)
      ensures this.key == key && this.value == value && this.expires == expires
    {
      this.key, this.value, this.expires := key, value, expires;
    }
  }

  // list.Remove: the list without element e.
  function Unlink<V>(ll: seq<CacheEntry<V>>, e: CacheEntry<V>): (r: seq<CacheEntry<V>>)
    ensures forall x :: x in r ==> x in ll && x != e
    ensures forall x :: x in ll && x != e ==> x in r
  {
    if ll == [] then []
    else
      assert ll == [ll[0]] + ll[1..];
      if ll[0] == e then Unlink(ll[1..], e) else [ll[0]] + Unlink(ll[1..], e)
  }

  ghost function Items<V>(ll: seq<CacheEntry<V>>): (l: seq<Item<V>>)
    reads ll
    ensures |l| == |ll|
    ensures forall i :: 0 <= i < |ll| ==> l[i] == Item(ll[i].key, ll[i].value, ll[i].expires)
  {
    seq(|ll|, i requires 0 <= i < |ll| reads ll => Item(ll[i].key, ll[i].value, ll[i].expires))
  }

  lemma {:induction false} ItemsOfUnlink<V>(ll: seq<CacheEntry<V>>, e: CacheEntry<V>)
    requires forall x :: x in ll && x.key == e.key ==> x == e
    ensures Items(Unlink(ll, e)) == Without(Items(ll), e.key)
  {
    if ll != [] {
      ItemsOfUnlink(ll[1..], e);
      assert Items(ll)[1..] == Items(ll[1..]);
      assert ll[0] in ll;
      if ll[0] == e {
        assert Unlink(ll, e) == Unlink(ll[1..], e);
      } else {
        assert Unlink(ll, e) == [ll[0]] + Unlink(ll[1..], e);
        assert (Unlink(ll, e))[1..] == Unlink(ll[1..], e);
      }
    }
  }

  lemma {:induction false} LookupInItems<V>(ll: seq<CacheEntry<V>>, k: string)
    ensures Lookup(Items(ll), k).None? ==> forall e :: e in ll ==> e.key != k
    ensures forall e :: e in ll && e.key == k && (forall x :: x in ll && x.key == k ==> x == e) ==>
              Lookup(Items(ll), k) == Some(Item(k, e.value, e.expires))
  {
    if ll != [] {
      LookupInItems(ll[1..], k);
      assert Items(ll)[1..] == Items(ll[1..]);
      assert ll == [ll[0]] + ll[1..];
    }
  }

  lemma {:induction false} WithoutAbsent<V>(l: seq<Item<V>>, k: string)
    requires Lookup(l, k).None?
    ensures Without(l, k) == l
  {
    if l != [] {
      WithoutAbsent(l[1..], k);
    }
  }

  // Keys of the index and elements of the list correspond one to one.
  ghost predicate Indexed<V>(ll: seq<CacheEntry<V>>, entries: map<string, CacheEntry<V>>) {
    && (forall i, j :: 0 <= i < j < |ll| ==> ll[i].key != ll[j].key)
    && (forall k :: k in entries ==> entries[k] in ll && entries[k].key == k)
    && (forall i :: 0 <= i < |ll| ==> ll[i].key in entries && entries[ll[i].key] == ll[i])
  }

  class Lru<V> {
    const maxSize: int
    var ll: seq<CacheEntry<V>> // front first
    var entries: map<string, CacheEntry<V>>

    ghost predicate Valid()
      reads this
    {
      Indexed(ll, entries) && |ll| <= if maxSize < 0 then 0 else maxSize
    }

    ghost function Contents(): seq<Item<V>>
      reads this, ll
    {
      Items(ll)
    }

    constructor (maxSize: int)
      ensures Valid() && Contents() == [] && this.maxSize == maxSize
    {
      this.maxSize := maxSize;
      ll, entries := [], map[];
    }

    method Get(key: string, now: int) returns (r: Option<V>)
      requires Valid()
      modifies this
      ensures Valid() && forall e :: e in ll ==> e in old(ll)
      ensures r == GetResult(old(Contents()), key, now)
      ensures Contents() == AfterGet(old(Contents()), key, now)
    {
      IndexedLookup(ll, entries, key);
      if key !in entries {
        return None;
      }
      var elem := entries[key];
      if now > elem.expires {
        Remove(elem);
        return None;
      }
      MoveToFront(elem);
      return Some(elem.value);
    }

    method Remove(elem: CacheEntry<V>)
      requires Valid() && elem in ll
      modifies this
      ensures Valid() && forall e :: e in ll ==> e in old(ll)
      ensures Contents() == Without(old(Contents()), elem.key)
    {
      UnlinkIndexed(ll, entries, elem);
      ll := Unlink(ll, elem);
      entries := entries - {elem.key};
    }

    method MoveToFront(elem: CacheEntry<V>)
      requires Valid() && elem in ll
      modifies this
      ensures Valid() && forall e :: e in ll ==> e in old(ll)
      ensures Contents() == [Item(elem.key, elem.value, elem.expires)] + Without(old(Contents()), elem.key)
    {
      UnlinkIndexed(ll, entries, elem);
      ItemsOfCons(elem, Unlink(ll, elem));
      ll := [elem] + Unlink(ll, elem);
    }

    method Set(key: string, value: V, now: int)
      requires Valid()
      modifies this, ll
      ensures Valid() && forall e :: e in ll ==> e in old(ll) || fresh(e)
      ensures Contents() == AfterSet(old(Contents()), key, value, now, maxSize)
    {
      IndexedLookup(ll, entries, key);
      if key !in entries {
        WithoutAbsent(Items(ll), key);
      }
      if key in entries {
        Refresh(key, value, now);
      } else {
        Insert(key, value, now);
      }
    }

    // Set on a key that is present.
    method Refresh(key: string, value: V, now: int)
      requires Valid() && key in entries
      modifies this, ll
      ensures Valid() && forall e :: e in ll ==> e in old(ll)
      ensures Contents() == [Item(key, value, now + TTL)] + Without(old(Contents()), key)
    {
      var elem := entries[key];
      UnlinkIndexed(ll, entries, elem);
      var rest := Unlink(ll, elem);
      ll := [elem] + rest;
      elem.value := value;
      elem.expires := now + TTL;
      assert Items(rest) == old(Items(rest));
      ItemsOfCons(elem, rest);
    }

    // Set on a key that is absent.
    method Insert(key: string, value: V, now: int)
      requires Valid() && key !in entries
      modifies this
      ensures Valid() && forall e :: e in ll ==> e in old(ll) || fresh(e)
      ensures var pushed := [Item(key, value, now + TTL)] + old(Contents());
              Contents() == if |pushed| > maxSize then pushed[..|pushed| - 1] else pushed
    {
      var entry := new CacheEntry(key, value, now + TTL);
      PushIndexed(ll, entries, entry);
      assert Items(ll) == old(Items(ll));
      ItemsOfCons(entry, ll);
      ll := [entry] + ll;
      entries := entries[key := entry];
      if |ll| > maxSize {
        EvictOldest();
      }
    }

    method EvictOldest()
      requires Indexed(ll, entries)
      modifies this
      ensures Indexed(ll, entries)
      ensures old(ll) == [] ==> ll == [] && entries == old(entries)
      ensures old(ll) != [] ==> ll == old(ll)[..|old(ll)| - 1] && Items(ll) == old(Items(ll))[..|old(ll)| - 1]
      ensures old(ll) != [] ==> entries == old(entries) - {old(ll)[|old(ll)| - 1].key}
    {
      if ll == [] {
        return;
      }
      var elem := ll[|ll| - 1];
      PopIndexed(ll, entries);
      entries := entries - {elem.key};
      ll := ll[..|ll| - 1];
    }
  }

  lemma ItemsOfCons<V>(e: CacheEntry<V>, ll: seq<CacheEntry<V>>)
    ensures Items([e] + ll) == [Item(e.key, e.value, e.expires)] + Items(ll)
  {
    assert ([e] + ll)[1..] == ll;
  }

  lemma IndexedLookup<V>(ll: seq<CacheEntry<V>>, entries: map<string, CacheEntry<V>>, k: string)
    requires Indexed(ll, entries)
    ensures Lookup(Items(ll), k) ==
            if k in entries then Some(Item(k, entries[k].value, entries[k].expires)) else None
  {
    LookupInItems(ll, k);
    if k in entries {
      assert forall x :: x in ll && x.key == k ==> x == entries[k];
    } else {
      NoSuchKey(ll, k);
    }
  }

  lemma UnlinkIndexed<V>(ll: seq<CacheEntry<V>>, entries: map<string, CacheEntry<V>>, e: CacheEntry<V>)
    requires Indexed(ll, entries) && e in ll
    ensures Indexed(Unlink(ll, e), entries - {e.key}) && Indexed([e] + Unlink(ll, e), entries)
    ensures |Unlink(ll, e)| == |ll| - 1
    ensures Items(Unlink(ll, e)) == Without(Items(ll), e.key)
  {
    UnlinkFacts(ll, e);
    ItemsOfUnlink(ll, e);
    FrontIndexed(ll, Unlink(ll, e), entries, e);
  }

  lemma FrontIndexed<V>(ll: seq<CacheEntry<V>>, r: seq<CacheEntry<V>>, entries: map<string, CacheEntry<V>>, e: CacheEntry<V>)
    requires Indexed(ll, entries) && e in ll
    requires forall i, j :: 0 <= i < j < |r| ==> r[i].key != r[j].key
    requires forall x :: x in r ==> x in ll && x.key != e.key
    requires forall x :: x in ll && x != e ==> x in r
    ensures Indexed(r, entries - {e.key}) && Indexed([e] + r, entries)
  {
    forall i | 0 <= i < |r| ensures r[i].key in entries && entries[r[i].key] == r[i] && r[i].key != e.key {
      assert r[i] in r;
    }
    assert forall k :: k in entries && k != e.key ==> entries[k] in r;
    assert forall x :: x in [e] + r <==> x == e || x in r;
  }

  lemma PushIndexed<V>(ll: seq<CacheEntry<V>>, entries: map<string, CacheEntry<V>>, e: CacheEntry<V>)
    requires Indexed(ll, entries) && e.key !in entries
    ensures Indexed([e] + ll, entries[e.key := e])
  {
    assert e in [e] + ll;
    assert forall x :: x in ll ==> x in [e] + ll;
  }

  lemma PopIndexed<V>(ll: seq<CacheEntry<V>>, entries: map<string, CacheEntry<V>>)
    requires Indexed(ll, entries) && ll != []
    ensures Indexed(ll[..|ll| - 1], entries - {ll[|ll| - 1].key})
  {
    var n := |ll| - 1;
    var last := ll[n];
    forall k | k in entries && k != last.key ensures entries[k] in ll[..n] {
      var i :| 0 <= i < |ll| && ll[i] == entries[k];
      assert i < n;
      assert ll[..n][i] == entries[k];
    }
  }

  lemma NoSuchKey<V>(ll: seq<CacheEntry<V>>, k: string)
    requires forall e :: e in ll ==> e.key != k
    ensures Lookup(Items(ll), k).None?
  {
    if ll != [] {
      NoSuchKey(ll[1..], k);
      assert Items(ll)[1..] == Items(ll[1..]);
    }
  }

  lemma {:induction false} UnlinkFacts<V>(ll: seq<CacheEntry<V>>, e: CacheEntry<V>)
    requires e in ll && forall i, j :: 0 <= i < j < |ll| ==> ll[i].key != ll[j].key
    ensures var r := Unlink(ll, e);
            |r| == |ll| - 1 && (forall i, j :: 0 <= i < j < |r| ==> r[i].key != r[j].key)
            && forall x :: x in r ==> x.key != e.key
  {
    if ll[0] == e {
      UnlinkAbsent(ll[1..], e);
    } else {
      UnlinkFacts(ll[1..], e);
      var r := Unlink(ll[1..], e);
      assert forall i :: 0 <= i < |r| ==> r[i] in ll[1..];
    }
  }

  lemma {:induction false} UnlinkAbsent<V>(ll: seq<CacheEntry<V>>, e: CacheEntry<V>)
    requires e !in ll
    ensures Unlink(ll, e) == ll
  {
    if ll != [] {
      UnlinkAbsent(ll[1..], e);
    }
  }
}

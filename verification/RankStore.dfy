// The in-memory backend of the cache package, as far as contest ranking uses
// it: hashes, sorted sets and plain integer values, each under a string key.
module RankStore {
  import opened Text

  datatype ZMember = ZMember(member: string, score: int)

  datatype Store = Store(
    hashes: map<string, map<string, int>>,
    zsets: map<string, map<string, int>>,
    values: map<string, int>)

  const EMPTY := Store(map[], map[], map[])

  function HashAt(st: Store, key: string): map<string, int> {
    if key in st.hashes then st.hashes[key] else map[]
  }

  function ZsetAt(st: Store, key: string): map<string, int> {
    if key in st.zsets then st.zsets[key] else map[]
  }

  function Field(st: Store, key: string, field: string): Option<int> {
    var hash := HashAt(st, key);
    if field in hash then Some(hash[field]) else None
  }

  function Count(st: Store, key: string, field: string): int {
    match Field(st, key, field)
    case Some(v) => v
    case None => 0
  }

  function Score(st: Store, key: string, member: string): Option<int> {
    ScoreIn(ZsetAt(st, key), member)
  }

  function ScoreIn(zset: map<string, int>, member: string): Option<int> {
    if member in zset then Some(zset[member]) else None
  }

  function Value(st: Store, key: string): Option<int> {
    if key in st.values then Some(st.values[key]) else None
  }

  function HIncr(st: Store, key: string, field: string, incr: int): Store {
    st.(hashes := st.hashes[key := HashAt(st, key)[field := Count(st, key, field) + incr]])
  }

  function ZPut(st: Store, key: string, score: int, member: string): Store {
    st.(zsets := st.zsets[key := ZsetAt(st, key)[member := score]])
  }

  function Put(st: Store, key: string, value: int): Store {
    st.(values := st.values[key := value])
  }

  // The members of a sorted set with their scores.
  ghost function Items(zset: map<string, int>): set<ZMember> {
    set m | m in zset :: ZMember(m, zset[m])
  }

  // full lists every member exactly once, in some order.
  ghost predicate Enumerates(zset: map<string, int>, full: seq<ZMember>) {
    multiset(full) == multiset(Items(zset))
  }

  ghost predicate Descending(s: seq<ZMember>) {
    forall i, j :: 0 <= i < j < |s| ==> s[i].score >= s[j].score
  }

  // The index range that ZRevRangeWithScores cuts out of the sorted list.
  function Slice(full: seq<ZMember>, start: int, stop: int): seq<ZMember> {
    var lo := if start < 0 then 0 else start;
    var hi := if stop < 0 || stop >= |full| then |full| - 1 else stop;
    if lo > hi then [] else full[lo..hi + 1]
  }

  // result is that part of some descending list of all members.
  ghost predicate IsRange(zset: map<string, int>, start: int, stop: int, result: seq<ZMember>) {
    exists full :: Enumerates(zset, full) && Descending(full) && result == Slice(full, start, stop)
  }

  // The range holds the elements from max(0, start) to stop in order, to the
  // end if stop is negative or too large.
  lemma SliceExactly(full: seq<ZMember>, start: int, stop: int, i: nat)
    ensures var first := if start < 0 then 0 else start;
            && (i < |Slice(full, start, stop)| <==> first + i < |full| && (stop < 0 || first + i <= stop))
            && (i < |Slice(full, start, stop)| ==> Slice(full, start, stop)[i] == full[first + i])
  {
  }

  lemma WholeRange(zset: map<string, int>, result: seq<ZMember>)
    requires IsRange(zset, 0, -1, result)
    ensures Enumerates(zset, result)
  {
    var full :| Enumerates(zset, full) && Descending(full) && result == Slice(full, 0, -1);
    assert result == full;
  }

  lemma EnumerationFacts(zset: map<string, int>, full: seq<ZMember>)
    requires Enumerates(zset, full)
    ensures |full| == |zset|
    ensures forall z :: z in full <==> z.member in zset && zset[z.member] == z.score
    ensures forall i, j :: 0 <= i < j < |full| ==> full[i].member != full[j].member
  {
    forall z ensures z in full <==> z in Items(zset) {
      assert z in multiset(full) <==> z in multiset(Items(zset));
    }
    forall i, j | 0 <= i < j < |full| ensures full[i].member != full[j].member {
      TwoPlaces(full, i, j);
      assert full[i] in full && full[j] in full;
    }
    ItemCount(zset);
    assert |multiset(full)| == |Items(zset)|;
  }

  lemma TwoPlaces(s: seq<ZMember>, i: nat, j: nat)
    requires i < j < |s|
    ensures s[i] == s[j] ==> multiset(s)[s[i]] >= 2
  {
    assert s == s[..j] + s[j..];
    assert s[i] == s[..j][i] && s[j] == s[j..][0];
    assert s[i] in multiset(s[..j]) && s[j] in multiset(s[j..]);
  }

  lemma ItemsOfRest(zset: map<string, int>, done: map<string, int>, m: string)
    requires m in zset && m !in done && done.Keys <= zset.Keys
    requires forall k :: k in done ==> done[k] == zset[k]
    ensures Items(done[m := zset[m]]) == Items(done) + {ZMember(m, zset[m])}
    ensures ZMember(m, zset[m]) !in Items(done)
  {
    var bigger := done[m := zset[m]];
    forall z ensures z in Items(bigger) <==> z in Items(done) + {ZMember(m, zset[m])} {
      assert z in Items(bigger) <==> z.member in bigger && bigger[z.member] == z.score;
      assert z in Items(done) <==> z.member in done && done[z.member] == z.score;
    }
  }

  lemma {:induction false} ItemCount(zset: map<string, int>)
    ensures |Items(zset)| == |zset|
    decreases zset.Keys
  {
    if zset.Keys == {} {
      assert Items(zset) == {};
    } else {
      var m :| m in zset;
      var rest := map k | k in zset && k != m :: zset[k];
      assert rest[m := zset[m]] == zset;
      assert zset.Keys == rest.Keys + {m};
      ItemsOfRest(zset, rest, m);
      ItemCount(rest);
    }
  }

  function Insert(x: ZMember, s: seq<ZMember>): (r: seq<ZMember>)
    ensures multiset(r) == multiset(s) + multiset{x}
  {
    if s == [] || s[0].score <= x.score then [x] + s
    else
      assert s == [s[0]] + s[1..];
      [s[0]] + Insert(x, s[1..])
  }

  lemma {:induction false} InsertKeepsOrder(x: ZMember, s: seq<ZMember>)
    requires Descending(s)
    ensures Descending(Insert(x, s))
  {
    if s != [] && s[0].score > x.score {
      var rest := Insert(x, s[1..]);
      InsertKeepsOrder(x, s[1..]);
      forall k | 0 <= k < |rest| ensures rest[k].score <= s[0].score {
        assert rest[k] in multiset(s[1..]) + multiset{x};
        assert rest[k] in s[1..] || rest[k] == x;
      }
    }
  }

  // Stand-in for sort.Slice with the order "larger score first". The order of
  // equal scores is left open by the contract of ZRevRangeWithScores.
  function SortDescending(pairs: seq<ZMember>): (sorted: seq<ZMember>)
    ensures multiset(sorted) == multiset(pairs)
    ensures Descending(sorted)
  {
    if pairs == [] then []
    else
      assert pairs == [pairs[0]] + pairs[1..];
      var rest := SortDescending(pairs[1..]);
      InsertKeepsOrder(pairs[0], rest);
      Insert(pairs[0], rest)
  }

  class MemCache {
    var hashes: map<string, map<string, int>>
    var zsets: map<string, map<string, int>>
    var values: map<string, int>

    function Abs(): Store
      reads this
    {
      Store(hashes, zsets, values)
    }

    constructor ()
      ensures Abs() == EMPTY
    {
      hashes, zsets, values := map[], map[], map[];
    }

    method HIncrBy(key: string, field: string, incr: int) returns (v: int)
      modifies this
      ensures Abs() == HIncr(old(Abs()), key, field, incr)
      ensures v == old(Count(Abs(), key, field)) + incr
    {
      var hash := if key in hashes then hashes[key] else map[];
      v := (if field in hash then hash[field] else 0) + incr;
      hash := hash[field := v];
      hashes := hashes[key := hash];
    }

    method HGet(key: string, field: string) returns (r: Option<int>)
      ensures r == Field(Abs(), key, field)
    {
      if key !in hashes {
        return None;
      }
      var hash := hashes[key];
      if field in hash {
        return Some(hash[field]);
      }
      return None;
    }

    method Set(key: string, value: int)
      modifies this
      ensures Abs() == Put(old(Abs()), key, value)
    {
      values := values[key := value];
    }

    method Get(key: string) returns (r: Option<int>)
      ensures r == Value(Abs(), key)
    {
      r := if key in values then Some(values[key]) else None;
    }

    method ZAdd(key: string, score: int, member: string)
      modifies this
      ensures Abs() == ZPut(old(Abs()), key, score, member)
    {
      var zset := if key in zsets then zsets[key] else map[];
      zset := zset[member := score];
      zsets := zsets[key := zset];
    }

    method ZRevRangeWithScores(key: string, start: int, stop: int) returns (result: seq<ZMember>)
      ensures IsRange(ZsetAt(Abs(), key), start, stop, result)
    {
      if key !in zsets {
        assert Enumerates(map[], []) && Slice([], start, stop) == [];
        return [];
      }
      var pairs := Pairs(zsets[key]);
      var sorted := SortDescending(pairs);
      assert Enumerates(zsets[key], sorted);
      result := CopyRange(sorted, start, stop);
    }
  }

  method Pairs(zset: map<string, int>) returns (pairs: seq<ZMember>)
    ensures Enumerates(zset, pairs)
  {
    pairs := [];
    var todo := zset.Keys;
    ghost var done: map<string, int> := map[];
    while todo != {}
      invariant forall k :: k in zset <==> k in todo || k in done
      invariant forall k :: k in done ==> k !in todo && done[k] == zset[k]
      invariant multiset(pairs) == multiset(Items(done))
      decreases todo
    {
      var m :| m in todo;
      ItemsOfRest(zset, done, m);
      todo := todo - {m};
      done := done[m := zset[m]];
      pairs := pairs + [ZMember(m, zset[m])];
    }
    assert done == zset;
  }

  method CopyRange(sorted: seq<ZMember>, start: int, stop: int) returns (result: seq<ZMember>)
    ensures result == Slice(sorted, start, stop)
  {
    var lo := if start < 0 then 0 else start;
    var hi := if stop < 0 || stop >= |sorted| then |sorted| - 1 else stop;
    result := [];
    var i := lo;
    while i <= hi
      invariant lo <= i && (lo <= hi ==> i <= hi + 1)
      invariant result == if lo <= hi then sorted[lo..i] else []
    {
      result := result + [sorted[i]];
      i := i + 1;
    }
  }
}

// Whole runs of the LRU cache: recency, provenance of entries, and inclusion
// of a smaller cache in a larger one.
module LruRuns {
  import opened Text
  import opened LruCache

  datatype Op<V> = GetOp(key: string, now: int) | SetOp(key: string, value: V, now: int)

  function After<V>(l: seq<Item<V>>, op: Op<V>, maxSize: int): seq<Item<V>> {
    match op
    case GetOp(k, now) => AfterGet(l, k, now)
    case SetOp(k, v, now) => AfterSet(l, k, v, now, maxSize)
  }

  function Run<V>(ops: seq<Op<V>>, maxSize: int): seq<Item<V>> {
    if ops == [] then [] else After(Run(ops[..|ops| - 1], maxSize), ops[|ops| - 1], maxSize)
  }

  function Cap(maxSize: int): nat { if maxSize < 0 then 0 else maxSize }

  // ---- Filtering ----

  function Restrict<V>(l: seq<Item<V>>, ks: set<string>): seq<Item<V>> {
    if l == [] then []
    else if l[0].key in ks then [l[0]] + Restrict(l[1..], ks)
    else Restrict(l[1..], ks)
  }

  lemma {:induction false} InKeys<V>(l: seq<Item<V>>, k: string)
    ensures k in Keys(l) <==> Lookup(l, k).Some?
    ensures Lookup(l, k).Some? ==> Lookup(l, k).value.key == k
  {
    if l != [] {
      KeysOfCons(l[0], l[1..]);
      assert l == [l[0]] + l[1..];
      InKeys(l[1..], k);
    }
  }

  lemma KeysOfCons<V>(it: Item<V>, l: seq<Item<V>>)
    ensures Keys([it] + l) == {it.key} + Keys(l)
  {
    var all := [it] + l;
    assert all[0] == it;
    assert forall i :: 0 <= i < |l| ==> l[i] == all[i + 1];
  }

  lemma {:induction false} KeysOfWithout<V>(l: seq<Item<V>>, k: string)
    ensures Keys(Without(l, k)) == Keys(l) - {k}
  {
    if l != [] {
      KeysOfWithout(l[1..], k);
      KeysOfCons(l[0], l[1..]);
      assert l == [l[0]] + l[1..];
      KeysOfCons(l[0], Without(l[1..], k));
    }
  }

  lemma {:induction false} DistinctWithout<V>(l: seq<Item<V>>, k: string)
    requires Distinct(l)
    ensures Distinct(Without(l, k))
    ensures |Without(l, k)| == |l| - if Lookup(l, k).Some? then 1 else 0
  {
    if l != [] {
      DistinctWithout(l[1..], k);
      KeysOfWithout(l[1..], k);
      if l[0].key == k {
        InKeys(l[1..], k);
        assert forall i :: 0 <= i < |l[1..]| ==> l[1..][i].key != k;
        WithoutAbsent(l[1..], k);
      } else {
        ConsDistinct(l[0], Without(l[1..], k), l[1..]);
      }
    }
  }

  lemma ConsDistinct<V>(it: Item<V>, l: seq<Item<V>>, bigger: seq<Item<V>>)
    requires Distinct(l) && Keys(l) <= Keys(bigger) && it.key !in Keys(bigger)
    ensures Distinct([it] + l)
  {
    forall i | 0 <= i < |l| ensures l[i].key != it.key {
      assert l[i].key in Keys(l);
    }
  }

  lemma {:induction false} RestrictWithout<V>(l: seq<Item<V>>, ks: set<string>, k: string)
    ensures Restrict(Without(l, k), ks) == Without(Restrict(l, ks), k)
    ensures Restrict(l, ks - {k}) == Without(Restrict(l, ks), k)
  {
    if l != [] {
      RestrictWithout(l[1..], ks, k);
      var w := Without(l[1..], k);
      assert ([l[0]] + w)[1..] == w;
      var r := Restrict(l[1..], ks);
      assert ([l[0]] + r)[1..] == r;
    }
  }

  lemma {:induction false} RestrictLast<V>(l: seq<Item<V>>, it: Item<V>, ks: set<string>)
    ensures Restrict(l + [it], ks) == Restrict(l, ks) + if it.key in ks then [it] else []
  {
    if l == [] {
      assert l + [it] == [it];
    } else {
      assert (l + [it])[1..] == l[1..] + [it];
      RestrictLast(l[1..], it, ks);
    }
  }

  lemma {:induction false} RestrictToSuperset<V>(l: seq<Item<V>>, ks: set<string>, more: set<string>)
    requires Keys(l) * more <= ks && ks <= more
    ensures Restrict(l, ks) == Restrict(l, more)
  {
    if l != [] {
      assert l == [l[0]] + l[1..];
      KeysOfCons(l[0], l[1..]);
      RestrictToSuperset(l[1..], ks, more);
    }
  }

  lemma {:induction false} LookupInRestrict<V>(l: seq<Item<V>>, ks: set<string>, k: string)
    ensures Lookup(Restrict(l, ks), k) == if k in ks then Lookup(l, k) else None
  {
    if l != [] {
      LookupInRestrict(l[1..], ks, k);
    }
  }

  // Dropping the last item is removing its key.
  lemma {:induction false} WithoutLast<V>(l: seq<Item<V>>)
    requires l != [] && Distinct(l)
    ensures Without(l, l[|l| - 1].key) == l[..|l| - 1]
  {
    if |l| > 1 {
      WithoutLast(l[1..]);
      assert l[..|l| - 1] == [l[0]] + l[1..][..|l| - 2];
    }
  }

  // ---- Invariants of one cache ----

  lemma {:induction false} RunIsSound<V>(ops: seq<Op<V>>, maxSize: int)
    ensures Distinct(Run(ops, maxSize)) && |Run(ops, maxSize)| <= Cap(maxSize)
  {
    if ops != [] {
      RunIsSound(ops[..|ops| - 1], maxSize);
      var l, op := Run(ops[..|ops| - 1], maxSize), ops[|ops| - 1];
      InKeys(l, op.key);
      DistinctWithout(l, op.key);
      KeysOfWithout(l, op.key);
      if op.SetOp? {
        ConsDistinct(Item(op.key, op.value, op.now + TTL), Without(l, op.key), Without(l, op.key));
      } else if Lookup(l, op.key).Some? {
        ConsDistinct(Lookup(l, op.key).value, Without(l, op.key), Without(l, op.key));
      }
    }
  }

  // ---- Inclusion ----

  // The small cache is the large one cut down to the small one's keys, in the
  // same order, and the large one holds no more extra entries than it has
  // extra room.
  ghost predicate Nested<V>(small: seq<Item<V>>, large: seq<Item<V>>, n: int, m: int) {
    && Distinct(large) && Distinct(small)
    && small == Restrict(large, Keys(small))
    && |small| <= Cap(n) && |large| <= Cap(m)
    && |large| - |small| <= Cap(m) - Cap(n)
  }

  lemma NestedKeys<V>(small: seq<Item<V>>, large: seq<Item<V>>, k: string)
    requires small == Restrict(large, Keys(small))
    ensures Lookup(small, k).Some? ==> Lookup(large, k) == Lookup(small, k)
  {
    LookupInRestrict(large, Keys(small), k);
  }

  // Moving a key to the front of both lists.
  lemma FrontNested<V>(small: seq<Item<V>>, large: seq<Item<V>>, it: Item<V>)
    requires small == Restrict(large, Keys(small))
    ensures var s, l := [it] + Without(small, it.key), [it] + Without(large, it.key);
            s == Restrict(l, Keys(s))
  {
    var s := [it] + Without(small, it.key);
    KeysOfWithout(small, it.key);
    KeysOfWithout(large, it.key);
    KeysOfCons(it, Without(small, it.key));
    RestrictWithout(large, Keys(small), it.key);
    RestrictSame(Without(large, it.key), Keys(small), Keys(s), it.key);
    assert ([it] + Without(large, it.key))[1..] == Without(large, it.key);
  }

  // Two key sets that differ at most in a key the list does not have.
  lemma RestrictSame<V>(l: seq<Item<V>>, ks: set<string>, ks2: set<string>, k: string)
    requires k !in Keys(l) && ks - {k} == ks2 - {k}
    ensures Restrict(l, ks) == Restrict(l, ks2)
  {
    assert forall x :: x in ks2 ==> x == k || x in ks2 - {k};
    assert forall x :: x in ks ==> x == k || x in ks - {k};
    RestrictToSuperset(l, ks, ks + {k});
    RestrictToSuperset(l, ks2, ks + {k});
  }

  lemma RemoveNested<V>(small: seq<Item<V>>, large: seq<Item<V>>, k: string)
    requires small == Restrict(large, Keys(small))
    ensures Without(small, k) == Restrict(Without(large, k), Keys(Without(small, k)))
  {
    KeysOfWithout(small, k);
    KeysOfWithout(large, k);
    RestrictWithout(large, Keys(small), k);
    RestrictSame(Without(large, k), Keys(small), Keys(Without(small, k)), k);
  }

  // A hit that only the large cache has moves an entry the small one ignores.
  lemma LargeHitNested<V>(small: seq<Item<V>>, large: seq<Item<V>>, it: Item<V>)
    requires small == Restrict(large, Keys(small)) && it.key !in Keys(small)
    ensures small == Restrict([it] + Without(large, it.key), Keys(small))
  {
    InKeys(small, it.key);
    WithoutAbsent(small, it.key);
    RemoveNested(small, large, it.key);
    assert ([it] + Without(large, it.key))[1..] == Without(large, it.key);
  }

  lemma GetKeepsNested<V>(small: seq<Item<V>>, large: seq<Item<V>>, n: int, m: int, k: string, now: int)
    requires Nested(small, large, n, m)
    ensures Nested(AfterGet(small, k, now), AfterGet(large, k, now), n, m)
  {
    InKeys(small, k);
    InKeys(large, k);
    NestedKeys(small, large, k);
    DistinctWithout(small, k);
    DistinctWithout(large, k);
    KeysOfWithout(small, k);
    KeysOfWithout(large, k);
    if Lookup(large, k).Some? {
      var it := Lookup(large, k).value;
      ConsDistinct(it, Without(large, k), Without(large, k));
      ConsDistinct(it, Without(small, k), Without(small, k));
      RemoveNested(small, large, k);
      if Lookup(small, k).Some? {
        FrontNested(small, large, it);
      } else {
        WithoutAbsent(small, k);
        LargeHitNested(small, large, it);
      }
    }
  }

  // Evicting from the small cache only.
  lemma EvictSmallNested<V>(small: seq<Item<V>>, large: seq<Item<V>>)
    requires small != [] && Distinct(small) && small == Restrict(large, Keys(small))
    ensures var s := small[..|small| - 1];
            Distinct(s) && s == Restrict(large, Keys(s)) && Keys(s) == Keys(small) - {small[|small| - 1].key}
  {
    var x := small[|small| - 1];
    WithoutLast(small);
    KeysOfWithout(small, x.key);
    RestrictWithout(large, Keys(small), x.key);
  }

  // Evicting from both: the large cache's victim is no survivor of the small one.
  lemma EvictBothNested<V>(small: seq<Item<V>>, large: seq<Item<V>>)
    requires small != [] && large != [] && Distinct(small) && Distinct(large)
    requires small == Restrict(large, Keys(small))
    ensures var s, l := small[..|small| - 1], large[..|large| - 1];
            Distinct(s) && Distinct(l) && s == Restrict(l, Keys(s))
  {
    var s, l, y := small[..|small| - 1], large[..|large| - 1], large[|large| - 1];
    EvictSmallNested(small, large);
    assert large == l + [y];
    RestrictLast(l, y, Keys(small));
    RestrictLast(l, y, Keys(s));
  }

  lemma PushedSizes<V>(small: seq<Item<V>>, large: seq<Item<V>>, n: int, m: int, it: Item<V>)
    requires Nested(small, large, n, m)
    ensures var s, l := [it] + Without(small, it.key), [it] + Without(large, it.key);
            && s == Restrict(l, Keys(s)) && Distinct(s) && Distinct(l)
            && |s| == |small| + (if Lookup(small, it.key).Some? then 0 else 1)
            && |l| == |large| + (if Lookup(large, it.key).Some? then 0 else 1)
    ensures Lookup(small, it.key).Some? ==> Lookup(large, it.key).Some?
  {
    FrontNested(small, large, it);
    NestedKeys(small, large, it.key);
    DistinctWithout(small, it.key);
    DistinctWithout(large, it.key);
    KeysOfWithout(small, it.key);
    KeysOfWithout(large, it.key);
    ConsDistinct(it, Without(small, it.key), Without(small, it.key));
    ConsDistinct(it, Without(large, it.key), Without(large, it.key));
  }

  lemma SetKeepsNested<V>(small: seq<Item<V>>, large: seq<Item<V>>, n: int, m: int, k: string, v: V, now: int)
    requires n <= m && Nested(small, large, n, m)
    ensures Nested(AfterSet(small, k, v, now, n), AfterSet(large, k, v, now, m), n, m)
  {
    var it := Item(k, v, now + TTL);
    var s, l := [it] + Without(small, k), [it] + Without(large, k);
    PushedSizes(small, large, n, m, it);
    var evictSmall := Lookup(small, k).None? && |s| > n;
    var evictLarge := Lookup(large, k).None? && |l| > m;
    if evictSmall {
      EvictSmallNested(s, l);
      if evictLarge {
        EvictBothNested(s, l);
      }
    }
  }

  lemma {:induction false} RunsAreNested<V>(ops: seq<Op<V>>, n: int, m: int)
    requires n <= m
    ensures Nested(Run(ops, n), Run(ops, m), n, m)
  {
    if ops != [] {
      var init, op := ops[..|ops| - 1], ops[|ops| - 1];
      RunsAreNested(init, n, m);
      match op
      case GetOp(k, now) => GetKeepsNested(Run(init, n), Run(init, m), n, m, k, now);
      case SetOp(k, v, now) => SetKeepsNested(Run(init, n), Run(init, m), n, m, k, v, now);
    }
  }

  // Enlarging the cache never loses a hit: after any common history of Get and
  // Set at any clock values, every entry of the smaller cache is in the larger
  // one with the same value and expiry, and every Get that hits there hits here.
  lemma Inclusion<V>(ops: seq<Op<V>>, n: int, m: int, k: string, now: int)
    requires n <= m
    ensures Lookup(Run(ops, n), k).Some? ==> Lookup(Run(ops, m), k) == Lookup(Run(ops, n), k)
    ensures GetResult(Run(ops, n), k, now).Some? ==> GetResult(Run(ops, m), k, now) == GetResult(Run(ops, n), k, now)
  {
    RunsAreNested(ops, n, m);
    NestedKeys(Run(ops, n), Run(ops, m), k);
  }

  // ---- Recency and provenance, read off the history alone ----

  // The position of the last operation on k, -1 if there is none.
  function LastUse<V>(ops: seq<Op<V>>, k: string): int {
    if ops == [] then -1
    else if ops[|ops| - 1].key == k then |ops| - 1
    else LastUse(ops[..|ops| - 1], k)
  }

  function LastSet<V>(ops: seq<Op<V>>, k: string): Option<Item<V>> {
    if ops == [] then None
    else
      var op := ops[|ops| - 1];
      if op.SetOp? && op.key == k then Some(Item(k, op.value, op.now + TTL)) else LastSet(ops[..|ops| - 1], k)
  }

  ghost predicate Recent<V>(l: seq<Item<V>>, ops: seq<Op<V>>) {
    && (forall i :: 0 <= i < |l| ==> Some(l[i]) == LastSet(ops, l[i].key))
    && (forall i, j :: 0 <= i < j < |l| ==> LastUse(ops, l[i].key) > LastUse(ops, l[j].key))
  }

  lemma {:induction false} LastUseBound<V>(ops: seq<Op<V>>, k: string)
    ensures -1 <= LastUse(ops, k) < |ops|
  {
    if ops != [] {
      LastUseBound(ops[..|ops| - 1], k);
    }
  }

  // A sublist keeps its order.
  lemma {:induction false} WithoutKeepsRecent<V>(l: seq<Item<V>>, ops: seq<Op<V>>, k: string)
    requires Recent(l, ops)
    ensures Recent(Without(l, k), ops)
    ensures forall i :: 0 <= i < |Without(l, k)| ==> Without(l, k)[i].key != k && Without(l, k)[i] in l
  {
    if l != [] {
      var rest := l[1..];
      assert l == [l[0]] + rest;
      RecentTail(l, ops);
      WithoutKeepsRecent(rest, ops, k);
      FrontIsRecent(l[0], Without(rest, k), ops, LastUse(ops, l[0].key));
    }
  }

  lemma RecentTail<V>(l: seq<Item<V>>, ops: seq<Op<V>>)
    requires l != [] && Recent(l, ops)
    ensures Recent(l[1..], ops)
    ensures forall it :: it in l[1..] ==> LastUse(ops, it.key) < LastUse(ops, l[0].key)
  {
    forall it | it in l[1..] ensures LastUse(ops, it.key) < LastUse(ops, l[0].key) {
      var j :| 0 <= j < |l[1..]| && l[1..][j] == it;
      assert l[j + 1] == it;
    }
  }

  // An operation on k leaves the history of the other keys as it was.
  lemma OthersUnchanged<V>(l: seq<Item<V>>, ops: seq<Op<V>>, op: Op<V>)
    requires Recent(l, ops) && forall i :: 0 <= i < |l| ==> l[i].key != op.key
    ensures Recent(l, ops + [op])
    ensures forall i :: 0 <= i < |l| ==> LastUse(ops + [op], l[i].key) < |ops|
  {
    assert (ops + [op])[..|ops|] == ops;
    forall i | 0 <= i < |l|
      ensures LastUse(ops + [op], l[i].key) == LastUse(ops, l[i].key) < |ops|
      ensures LastSet(ops + [op], l[i].key) == LastSet(ops, l[i].key)
    {
      LastUseBound(ops, l[i].key);
    }
  }

  lemma FrontIsRecent<V>(it: Item<V>, l: seq<Item<V>>, h: seq<Op<V>>, now: int)
    requires Some(it) == LastSet(h, it.key) && LastUse(h, it.key) == now
    requires Recent(l, h) && forall i :: 0 <= i < |l| ==> LastUse(h, l[i].key) < now
    ensures Recent([it] + l, h)
  {
  }

  lemma {:induction false} LookupIsItem<V>(l: seq<Item<V>>, k: string)
    requires Lookup(l, k).Some?
    ensures exists i :: 0 <= i < |l| && l[i] == Lookup(l, k).value && l[i].key == k
  {
    if l[0].key != k {
      LookupIsItem(l[1..], k);
      var i :| 0 <= i < |l[1..]| && l[1..][i] == Lookup(l[1..], k).value && l[1..][i].key == k;
      assert l[i + 1] == l[1..][i];
    }
  }

  lemma {:induction false} LookupNoneMeans<V>(l: seq<Item<V>>, k: string)
    requires Lookup(l, k).None?
    ensures forall i :: 0 <= i < |l| ==> l[i].key != k
  {
    if l != [] {
      LookupNoneMeans(l[1..], k);
      assert forall i :: 1 <= i < |l| ==> l[i] == l[1..][i - 1];
    }
  }

  lemma StepKeepsRecent<V>(l: seq<Item<V>>, ops: seq<Op<V>>, op: Op<V>, maxSize: int)
    requires Recent(l, ops)
    ensures Recent(After(l, op, maxSize), ops + [op])
  {
    var k, rest := op.key, Without(l, op.key);
    assert (ops + [op])[..|ops|] == ops;
    WithoutKeepsRecent(l, ops, k);
    OthersUnchanged(rest, ops, op);
    if op.SetOp? {
      FrontIsRecent(Item(k, op.value, op.now + TTL), rest, ops + [op], |ops|);
    } else if Lookup(l, k).Some? {
      LookupIsItem(l, k);
      FrontIsRecent(Lookup(l, k).value, rest, ops + [op], |ops|);
    } else {
      LookupNoneMeans(l, k);
      OthersUnchanged(l, ops, op);
    }
  }

  // After every history the entries are the values last set for their keys,
  // ordered from the most to the least recently used key.
  lemma {:induction false} RunIsRecent<V>(ops: seq<Op<V>>, maxSize: int)
    ensures Recent(Run(ops, maxSize), ops)
  {
    if ops != [] {
      var init := ops[..|ops| - 1];
      RunIsRecent(init, maxSize);
      StepKeepsRecent(Run(init, maxSize), init, ops[|ops| - 1], maxSize);
      assert init + [ops[|ops| - 1]] == ops;
    }
  }

  // A Set that evicts loses one entry, the one whose key was used least
  // recently, and keeps all others in order behind the new one.
  lemma EvictsLeastRecent<V>(ops: seq<Op<V>>, k: string, v: V, now: int, maxSize: int)
    requires Lookup(Run(ops, maxSize), k).None? && |Run(ops, maxSize)| >= maxSize >= 1
    ensures var l := Run(ops, maxSize);
            && l != []
            && AfterSet(l, k, v, now, maxSize) == [Item(k, v, now + TTL)] + l[..|l| - 1]
            && forall i :: 0 <= i < |l| - 1 ==> LastUse(ops, l[i].key) > LastUse(ops, l[|l| - 1].key)
  {
    RunIsRecent(ops, maxSize);
    WithoutAbsent(Run(ops, maxSize), k);
  }

  // ---- Which keys a step keeps, and what a Get returns ----

  ghost predicate Holds<V>(l: seq<Item<V>>, it: Item<V>) {
    exists i :: 0 <= i < |l| && l[i] == it
  }

  lemma {:induction false} LookupExactly<V>(l: seq<Item<V>>, it: Item<V>)
    requires Distinct(l)
    ensures Lookup(l, it.key) == Some(it) <==> Holds(l, it)
  {
    if l != [] {
      var rest := l[1..];
      assert l == [l[0]] + rest;
      LookupExactly(rest, it);
      if Holds(rest, it) {
        var i :| 0 <= i < |rest| && rest[i] == it;
        assert l[i + 1] == it;
      }
      if Holds(l, it) && l[0] != it {
        var i :| 0 <= i < |l| && l[i] == it;
        assert rest[i - 1] == it;
      }
    }
  }

  // After every history a Get returns v exactly when the cache holds the key
  // with that value and its lifetime is not over.
  lemma HitExactlyWhen<V>(ops: seq<Op<V>>, maxSize: int, k: string, now: int, v: V)
    ensures GetResult(Run(ops, maxSize), k, now) == Some(v) <==>
            exists expires :: now <= expires && Holds(Run(ops, maxSize), Item(k, v, expires))
  {
    var l := Run(ops, maxSize);
    RunIsSound(ops, maxSize);
    if Lookup(l, k).Some? {
      var it := Lookup(l, k).value;
      InKeys(l, k);
      LookupExactly(l, it);
      assert it == Item(k, it.value, it.expires);
    }
    forall expires | Holds(l, Item(k, v, expires)) ensures Lookup(l, k) == Some(Item(k, v, expires)) {
      LookupExactly(l, Item(k, v, expires));
    }
  }

  // The step sets a key that the cache does not hold, at full capacity.
  predicate Overflows<V>(l: seq<Item<V>>, op: Op<V>, maxSize: int) {
    op.SetOp? && Lookup(l, op.key).None? && |l| >= maxSize
  }

  // After every history, a step loses a key that was held exactly when it is a
  // Get that finds the key's lifetime over, or a Set of a new key on a full
  // cache of which the key is the least recently used; and the only key that it
  // brings in is the one that it sets.
  lemma KeysAfterStep<V>(ops: seq<Op<V>>, op: Op<V>, maxSize: int, k: string)
    requires maxSize >= 1
    ensures var l := Run(ops, maxSize);
            var after := After(l, op, maxSize);
            && (Lookup(l, k).Some? ==>
                  (Lookup(after, k).None? <==>
                     (op.GetOp? && op.key == k && op.now > Lookup(l, k).value.expires) ||
                     (Overflows(l, op, maxSize) && l[|l| - 1].key == k)))
            && (Lookup(l, k).None? ==> (Lookup(after, k).Some? <==> op.SetOp? && op.key == k))
  {
    var l := Run(ops, maxSize);
    RunIsSound(ops, maxSize);
    InKeys(l, k);
    KeysOfWithout(l, op.key);
    InKeys(Without(l, op.key), k);
    match op
    case GetOp(key, now) =>
      InKeys(l, key);
      if Lookup(l, key).Some? {
        var it := Lookup(l, key).value;
        KeysOfCons(it, Without(l, key));
        InKeys([it] + Without(l, key), k);
      }
    case SetOp(key, v, now) => SetKeepsKeys(l, key, v, now, maxSize, k);
  }

  lemma SetKeepsKeys<V>(l: seq<Item<V>>, key: string, v: V, now: int, maxSize: int, k: string)
    requires Distinct(l) && maxSize >= 1 && |l| <= maxSize
    ensures var after := AfterSet(l, key, v, now, maxSize);
            Lookup(after, k).Some? <==>
            k == key || (Lookup(l, k).Some? && !(Lookup(l, key).None? && |l| >= maxSize && l[|l| - 1].key == k))
  {
    var it := Item(key, v, now + TTL);
    InKeys(l, key);
    DistinctWithout(l, key);
    if Lookup(l, key).None? && |l| >= maxSize {
      WithoutAbsent(l, key);
      assert ([it] + l)[..|l|] == [it] + l[..|l| - 1];
      PushedWithoutLast(l, it, k);
    } else {
      PushedKeys(l, it, k);
    }
  }

  lemma PushedKeys<V>(l: seq<Item<V>>, it: Item<V>, k: string)
    ensures Lookup([it] + Without(l, it.key), k).Some? <==> k == it.key || Lookup(l, k).Some?
  {
    KeysOfWithout(l, it.key);
    KeysOfCons(it, Without(l, it.key));
    InKeys(l, k);
    InKeys([it] + Without(l, it.key), k);
  }

  lemma PushedWithoutLast<V>(l: seq<Item<V>>, it: Item<V>, k: string)
    requires l != [] && Distinct(l)
    ensures Lookup([it] + l[..|l| - 1], k).Some? <==> k == it.key || (Lookup(l, k).Some? && k != l[|l| - 1].key)
  {
    WithoutLast(l);
    KeysOfWithout(l, l[|l| - 1].key);
    KeysOfCons(it, l[..|l| - 1]);
    InKeys(l, k);
    InKeys([it] + l[..|l| - 1], k);
  }

  // After every history an entry comes from the latest Set of its key and lives
  // for an hour from then.
  lemma {:induction false} LastSetIs<V>(ops: seq<Op<V>>, k: string)
    requires LastSet(ops, k).Some?
    ensures exists j :: 0 <= j < |ops| && IsLastSet(ops, k, j)
                        && LastSet(ops, k).value == Item(k, ops[j].value, ops[j].now + 3_600_000_000_000)
  {
    var n := |ops| - 1;
    if ops[n].SetOp? && ops[n].key == k {
      assert IsLastSet(ops, k, n);
    } else {
      LastSetIs(ops[..n], k);
      var j :| 0 <= j < n && IsLastSet(ops[..n], k, j)
               && LastSet(ops[..n], k).value == Item(k, ops[..n][j].value, ops[..n][j].now + 3_600_000_000_000);
      assert IsLastSet(ops, k, j);
    }
  }

  ghost predicate IsLastSet<V>(ops: seq<Op<V>>, k: string, j: int) {
    0 <= j < |ops| && ops[j].SetOp? && ops[j].key == k && forall i :: j < i < |ops| ==> !(ops[i].SetOp? && ops[i].key == k)
  }
}

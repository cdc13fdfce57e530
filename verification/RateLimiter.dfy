// The fixed-window rate limiter: IncrWithTTL and memGC of the in-memory cache,
// and the admission rule of the rate-limit middlewares on top of them.
module RateLimiter {
  import opened Text

  // A counter with its expiry instant.
  datatype Item = Item(count: nat, expire: int)

  type Store = map<string, Item>

  // IncrWithTTL reads the clock twice, at now and, for a new window, at later.
  function AfterIncr(mem: Store, key: string, ttl: int, now: int, later: int): Store {
    if key !in mem || now > mem[key].expire then mem[key := Item(1, later + ttl)]
    else mem[key := mem[key].(count := mem[key].count + 1)]
  }

  function Returned(mem: Store, key: string, now: int): nat {
    if key !in mem || now > mem[key].expire then 1 else mem[key].count + 1
  }

  function AfterGC(mem: Store, now: int): Store {
    map k | k in mem && now <= mem[k].expire :: mem[k]
  }

  class MemCache {
    var mem: Store

    constructor ()
      ensures mem == map[]
    {
      mem := map[];
    }

    method IncrWithTTL(key: string, ttl: int, now: int, later: int) returns (count: nat)
      modifies this
      ensures mem == AfterIncr(old(mem), key, ttl, now, later)
      ensures count == Returned(old(mem), key, now)
    {
      if key !in mem || now > mem[key].expire {
        mem := mem[key := Item(1, later + ttl)];
        return 1;
      }
      var item := mem[key];
      count := item.count + 1;
      item := item.(count := count);
      mem := mem[key := item];
    }

    // One pass of the background collector.
    method MemGC(now: int)
      modifies this
      ensures mem == AfterGC(old(mem), now)
    {
      var keys := mem.Keys;
      while keys != {}
        invariant keys <= old(mem).Keys
        invariant forall k :: k in mem <==> k in old(mem) && (k in keys || now <= old(mem)[k].expire)
        invariant forall k :: k in mem ==> mem[k] == old(mem)[k]
        decreases keys
      {
        var k :| k in keys;
        keys := keys - {k};
        if k in mem && now > mem[k].expire {
          mem := mem - {k};
        }
      }
    }

    // The middlewares: reject when the new count exceeds the limit.
    method RateLimit(key: string, limit: int, window: int, now: int, later: int) returns (admitted: bool)
      modifies this
      ensures mem == AfterIncr(old(mem), key, window, now, later)
      ensures admitted == (Returned(old(mem), key, now) <= limit)
    {
      var count := IncrWithTTL(key, window, now, later);
      admitted := !(count > limit);
    }
  }

  // ---- Runs ----

  datatype Op = Incr(key: string, now: int, later: int) | GC(now: int, later: int)

  // ttl gives each key its one fixed window.
  function After(mem: Store, op: Op, ttl: string -> int): Store {
    match op
    case Incr(key, now, later) => AfterIncr(mem, key, ttl(key), now, later)
    case GC(now, _) => AfterGC(mem, now)
  }

  function Run(ops: seq<Op>, ttl: string -> int): Store {
    if ops == [] then map[] else After(Run(ops[..|ops| - 1], ttl), ops[|ops| - 1], ttl)
  }

  // The clock never goes back, within an operation or from one to the next.
  ghost predicate Monotone(ops: seq<Op>) {
    && (forall i :: 0 <= i < |ops| ==> ops[i].now <= ops[i].later)
    && (forall i, j :: 0 <= i < j < |ops| ==> ops[i].later <= ops[j].now)
  }

  // The count that operation n returned.
  function CountAt(ops: seq<Op>, n: nat, ttl: string -> int): nat
    requires n < |ops| && ops[n].Incr?
  {
    Returned(Run(ops[..n], ttl), ops[n].key, ops[n].now)
  }

  // ---- Collection is invisible ----

  function OnlyIncrs(ops: seq<Op>): seq<Op> {
    if ops == [] then []
    else OnlyIncrs(ops[..|ops| - 1]) + if ops[|ops| - 1].GC? then [] else [ops[|ops| - 1]]
  }

  // swept may lack items of full that have expired by now.
  ghost predicate SameAlive(swept: Store, full: Store, now: int) {
    && (forall k :: k in swept ==> k in full && swept[k] == full[k])
    && (forall k :: k in full && k !in swept ==> full[k].expire < now)
  }

  lemma {:induction false} GCInvisible(ops: seq<Op>, now: int, ttl: string -> int)
    requires Monotone(ops) && forall i :: 0 <= i < |ops| ==> ops[i].later <= now
    ensures SameAlive(Run(ops, ttl), Run(OnlyIncrs(ops), ttl), now)
  {
    if ops != [] {
      var init, op := ops[..|ops| - 1], ops[|ops| - 1];
      GCInvisible(init, op.now, ttl);
      if op.Incr? {
        assert OnlyIncrs(ops)[..|OnlyIncrs(ops)| - 1] == OnlyIncrs(init);
      } else {
        assert OnlyIncrs(ops) == OnlyIncrs(init);
      }
    }
  }

  // Interleaving collector passes anywhere leaves every returned count as it
  // would be without them.
  lemma CountsIgnoreGC(ops: seq<Op>, n: nat, ttl: string -> int)
    requires Monotone(ops) && n < |ops| && ops[n].Incr?
    ensures CountAt(ops, n, ttl) == Returned(Run(OnlyIncrs(ops[..n]), ttl), ops[n].key, ops[n].now)
  {
    GCInvisible(ops[..n], ops[n].now, ttl);
  }

  // A collector pass leaves exactly the counters that are alive in the store as
  // it would be had nothing ever been collected.
  lemma PassLeavesExactlyAlive(ops: seq<Op>, now: int, later: int, ttl: string -> int, key: string)
    requires Monotone(ops) && forall i :: 0 <= i < |ops| ==> ops[i].later <= now
    ensures var swept, full := Run(ops + [GC(now, later)], ttl), Run(OnlyIncrs(ops), ttl);
            && (key in swept <==> key in full && now <= full[key].expire)
            && (key in swept ==> swept[key] == full[key])
  {
    assert (ops + [GC(now, later)])[..|ops|] == ops;
    GCInvisible(ops, now, ttl);
  }

  // ---- How many requests get through ----

  predicate AdmittedOp(mem: Store, op: Op, key: string, limit: int) {
    op.Incr? && op.key == key && Returned(mem, key, op.now) <= limit
  }

  // Admitted requests of key with lo <= time <= hi.
  function Admitted(ops: seq<Op>, ttl: string -> int, key: string, limit: int, lo: int, hi: int): nat {
    if ops == [] then 0
    else
      var init, op := ops[..|ops| - 1], ops[|ops| - 1];
      Admitted(init, ttl, key, limit, lo, hi) +
      if AdmittedOp(Run(init, ttl), op, key, limit) && lo <= op.now <= hi then 1 else 0
  }

  // When the latest window of key opened, None before the first request.
  function Opened(ops: seq<Op>, ttl: string -> int, key: string): Option<int> {
    if ops == [] then None
    else
      var init, op := ops[..|ops| - 1], ops[|ops| - 1];
      var mem := Run(init, ttl);
      if op.Incr? && op.key == key && (key !in mem || op.now > mem[key].expire) then Some(op.now)
      else Opened(init, ttl, key)
  }

  // The item of a key agrees with its latest window; once it is collected the
  // window is over.
  lemma {:induction false} ItemOfWindow(ops: seq<Op>, ttl: string -> int, key: string, now: int)
    requires Monotone(ops) && forall i :: 0 <= i < |ops| ==> ops[i].later <= now
    ensures var mem := Run(ops, ttl);
            match Opened(ops, ttl, key)
            case None => key !in mem
            case Some(t) => t <= now && (key in mem ==> mem[key].expire >= t + ttl(key) && mem[key].count >= 1)
                            && (key !in mem ==> t + ttl(key) < now)
  {
    if ops != [] {
      ItemOfWindow(ops[..|ops| - 1], ttl, key, ops[|ops| - 1].now);
    }
  }

  // Requests admitted in the current window so far.
  function CountIn(mem: Store, key: string, limit: int): nat {
    if key in mem && mem[key].count <= limit then mem[key].count else if limit < 0 then 0 else limit
  }

  function Max(a: int, b: int): int { if a >= b then a else b }

  // The bound on an interval [lo, lo + ttl], by where the latest window opened.
  function Bound(since: Option<int>, inWindow: nat, limit: int, lo: int, hi: int): int {
    match since
    case None => 0
    case Some(t) =>
      if t < lo then Max(0, inWindow - 1)
      else if t <= hi then Max(0, limit - 1) + inWindow
      else Max(0, 2 * limit - 1)
  }

  lemma {:induction false} NoneBefore(ops: seq<Op>, ttl: string -> int, key: string, limit: int, lo: int, hi: int)
    requires forall i :: 0 <= i < |ops| ==> ops[i].now < lo
    ensures Admitted(ops, ttl, key, limit, lo, hi) == 0
  {
    if ops != [] {
      NoneBefore(ops[..|ops| - 1], ttl, key, limit, lo, hi);
    }
  }

  // One operation at or after lo keeps the bound.
  lemma StepKeepsBound(mem: Store, op: Op, ttl: string -> int, key: string, limit: int, lo: int, since: Option<int>, n: nat)
    requires op.now <= op.later && lo <= op.now
    requires match since
      case None => key !in mem
      case Some(t) => t <= op.now && (key in mem ==> mem[key].expire >= t + ttl(key) && mem[key].count >= 1)
                      && (key !in mem ==> t + ttl(key) < op.now)
    requires n <= Bound(since, CountIn(mem, key, limit), limit, lo, lo + ttl(key))
    ensures var opens := op.Incr? && op.key == key && (key !in mem || op.now > mem[key].expire);
            n + (if AdmittedOp(mem, op, key, limit) && lo <= op.now <= lo + ttl(key) then 1 else 0) <=
            Bound(if opens then Some(op.now) else since, CountIn(After(mem, op, ttl), key, limit), limit, lo, lo + ttl(key))
  {
  }

  lemma {:induction false} AdmittedBound(ops: seq<Op>, ttl: string -> int, key: string, limit: int, lo: int)
    requires Monotone(ops)
    ensures var hi := lo + ttl(key);
            Admitted(ops, ttl, key, limit, lo, hi) <=
            Bound(Opened(ops, ttl, key), CountIn(Run(ops, ttl), key, limit), limit, lo, hi)
  {
    if ops != [] {
      var init, op := ops[..|ops| - 1], ops[|ops| - 1];
      if op.now < lo {
        NoneBefore(ops, ttl, key, limit, lo, lo + ttl(key));
      } else {
        AdmittedBound(init, ttl, key, limit, lo);
        ItemOfWindow(init, ttl, key, op.now);
        StepKeepsBound(Run(init, ttl), op, ttl, key, limit, lo, Opened(init, ttl, key),
                       Admitted(init, ttl, key, limit, lo, lo + ttl(key)));
      }
    }
  }

  // Requests of a key never come after its item's expiry.
  lemma {:induction false} RequestsBeforeExpiry(ops: seq<Op>, ttl: string -> int, key: string, now: int, i: nat)
    requires Monotone(ops) && ttl(key) >= 0 && forall j :: 0 <= j < |ops| ==> ops[j].later <= now
    requires i < |ops| && ops[i].Incr? && ops[i].key == key
    ensures var mem := Run(ops, ttl);
            (key in mem ==> ops[i].now <= mem[key].expire) && (key !in mem ==> ops[i].now < now)
  {
    var n := |ops| - 1;
    if i < n {
      assert ops[..n][i] == ops[i];
      RequestsBeforeExpiry(ops[..n], ttl, key, ops[n].now, i);
    }
  }

  // A request that opens a window comes after all requests of the one before.
  lemma {:induction false} NoneSince(ops: seq<Op>, ttl: string -> int, key: string, limit: int, lo: int, hi: int)
    requires forall i :: 0 <= i < |ops| && ops[i].Incr? && ops[i].key == key ==> ops[i].now < lo
    ensures Admitted(ops, ttl, key, limit, lo, hi) == 0
  {
    if ops != [] {
      NoneSince(ops[..|ops| - 1], ttl, key, limit, lo, hi);
    }
  }

  // Within one window at most limit requests get through, and exactly the first
  // limit ones while the window lasts.
  lemma {:induction false} AdmittedInWindow(ops: seq<Op>, ttl: string -> int, key: string, limit: int, hi: int)
    requires Monotone(ops) && ttl(key) >= 0 && Opened(ops, ttl, key).Some?
    requires forall i :: 0 <= i < |ops| ==> ops[i].later <= hi
    ensures var mem := Run(ops, ttl);
            var n := Admitted(ops, ttl, key, limit, Opened(ops, ttl, key).value, hi);
            && n <= Max(0, limit)
            && (key in mem ==> n == if mem[key].count <= limit then mem[key].count else Max(0, limit))
  {
    var init, op := ops[..|ops| - 1], ops[|ops| - 1];
    var mem := Run(init, ttl);
    ItemOfWindow(init, ttl, key, op.now);
    if op.Incr? && op.key == key && (key !in mem || op.now > mem[key].expire) {
      forall i | 0 <= i < |init| && init[i].Incr? && init[i].key == key ensures init[i].now < op.now {
        RequestsBeforeExpiry(init, ttl, key, op.now, i);
      }
      NoneSince(init, ttl, key, limit, op.now, hi);
    } else {
      AdmittedInWindow(init, ttl, key, limit, hi);
    }
  }

  // At most 2 * limit - 1 requests of a key get through in any closed interval
  // of its window length, for every run with a non-decreasing clock.
  lemma AdmittedInAnyInterval(ops: seq<Op>, ttl: string -> int, key: string, limit: int, lo: int)
    requires Monotone(ops)
    ensures Admitted(ops, ttl, key, limit, lo, lo + ttl(key)) <= Max(0, 2 * limit - 1)
  {
    AdmittedBound(ops, ttl, key, limit, lo);
  }

  // ---- Routes with different limits on one key ----

  // limits[i] is the limit of the route that operation i comes from. Admitted
  // requests of key with lo <= time <= hi on routes with a limit up to top.
  function AdmittedMixed(ops: seq<Op>, limits: seq<int>, ttl: string -> int, key: string, top: int, lo: int, hi: int): nat
    requires |limits| == |ops|
  {
    if ops == [] then 0
    else
      var n := |ops| - 1;
      AdmittedMixed(ops[..n], limits[..n], ttl, key, top, lo, hi) +
      if limits[n] <= top && AdmittedOp(Run(ops[..n], ttl), ops[n], key, limits[n]) && lo <= ops[n].now <= hi then 1 else 0
  }

  lemma {:induction false} MixedWithinTop(ops: seq<Op>, limits: seq<int>, ttl: string -> int, key: string, top: int, lo: int, hi: int)
    requires |limits| == |ops|
    ensures AdmittedMixed(ops, limits, ttl, key, top, lo, hi) <= Admitted(ops, ttl, key, top, lo, hi)
  {
    if ops != [] {
      MixedWithinTop(ops[..|ops| - 1], limits[..|ops| - 1], ttl, key, top, lo, hi);
    }
  }

  // When routes with different limits share the counter of a key, those with a
  // limit up to top together admit at most 2 * top - 1 requests of it in any
  // closed interval of window length.
  lemma MixedLimitsInAnyInterval(ops: seq<Op>, limits: seq<int>, ttl: string -> int, key: string, top: int, lo: int)
    requires Monotone(ops) && |limits| == |ops|
    ensures AdmittedMixed(ops, limits, ttl, key, top, lo, lo + ttl(key)) <= Max(0, 2 * top - 1)
  {
    MixedWithinTop(ops, limits, ttl, key, top, lo, lo + ttl(key));
    AdmittedInAnyInterval(ops, ttl, key, top, lo);
  }

  // ---- The bound is attained ----

  lemma OneMore(ops: seq<Op>, op: Op, ttl: string -> int, key: string, limit: int, lo: int, hi: int)
    ensures Run(ops + [op], ttl) == After(Run(ops, ttl), op, ttl)
    ensures Admitted(ops + [op], ttl, key, limit, lo, hi) == Admitted(ops, ttl, key, limit, lo, hi) +
            if AdmittedOp(Run(ops, ttl), op, key, limit) && lo <= op.now <= hi then 1 else 0
  {
    assert (ops + [op])[..|ops|] == ops;
  }

  lemma OneMoreMonotone(ops: seq<Op>, op: Op)
    requires Monotone(ops) && op.now <= op.later && forall i :: 0 <= i < |ops| ==> ops[i].later <= op.now
    ensures Monotone(ops + [op])
  {
  }

  // After one request at 0, a more at the window's last instant and b just after it.
  ghost predicate BurstDone(ops: seq<Op>, key: string, ttl: string -> int, limit: int, a: nat, b: nat) {
    var w := ttl(key);
    && Monotone(ops)
    && (forall i :: 0 <= i < |ops| ==> ops[i].later <= if b > 0 then w + 1 else w)
    && Run(ops, ttl) == map[key := if b > 0 then Item(b, 2 * w + 1) else Item(a + 1, w)]
    && Admitted(ops, ttl, key, limit, w, 2 * w) == a + b
  }

  lemma LateRequest(ops: seq<Op>, key: string, ttl: string -> int, limit: int, a: nat, b: nat)
    requires ttl(key) >= 1 && b < limit && BurstDone(ops, key, ttl, limit, a, b)
    ensures BurstDone(ops + [Incr(key, ttl(key) + 1, ttl(key) + 1)], key, ttl, limit, a, b + 1)
  {
    var op := Incr(key, ttl(key) + 1, ttl(key) + 1);
    OneMore(ops, op, ttl, key, limit, ttl(key), 2 * ttl(key));
    OneMoreMonotone(ops, op);
  }

  // A request at the last instant of the open window.
  lemma EarlyStep(key: string, ttl: string -> int, limit: int, a: nat)
    requires ttl(key) >= 1 && a + 1 < limit
    ensures var mem, op := map[key := Item(a + 1, ttl(key))], Incr(key, ttl(key), ttl(key));
            After(mem, op, ttl) == map[key := Item(a + 2, ttl(key))] && AdmittedOp(mem, op, key, limit)
  {
  }

  lemma EarlyRequest(ops: seq<Op>, key: string, ttl: string -> int, limit: int, a: nat)
    requires ttl(key) >= 1 && a + 1 < limit && BurstDone(ops, key, ttl, limit, a, 0)
    ensures BurstDone(ops + [Incr(key, ttl(key), ttl(key))], key, ttl, limit, a + 1, 0)
  {
    var op := Incr(key, ttl(key), ttl(key));
    EarlyStep(key, ttl, limit, a);
    OneMore(ops, op, ttl, key, limit, ttl(key), 2 * ttl(key));
    OneMoreMonotone(ops, op);
  }

  lemma FirstRequest(key: string, ttl: string -> int, limit: int)
    requires ttl(key) >= 1
    ensures BurstDone([Incr(key, 0, 0)], key, ttl, limit, 0, 0)
  {
    OneMore([], Incr(key, 0, 0), ttl, key, limit, ttl(key), 2 * ttl(key));
    assert [] + [Incr(key, 0, 0)] == [Incr(key, 0, 0)];
  }

  lemma {:induction false} BurstIsAdmitted(key: string, ttl: string -> int, limit: int, a: nat, b: nat) returns (ops: seq<Op>)
    requires ttl(key) >= 1 && a < limit && b <= limit
    ensures BurstDone(ops, key, ttl, limit, a, b)
  {
    if b > 0 {
      var early := BurstIsAdmitted(key, ttl, limit, a, b - 1);
      LateRequest(early, key, ttl, limit, a, b - 1);
      ops := early + [Incr(key, ttl(key) + 1, ttl(key) + 1)];
    } else if a > 0 {
      var early := BurstIsAdmitted(key, ttl, limit, a - 1, 0);
      EarlyRequest(early, key, ttl, limit, a - 1);
      ops := early + [Incr(key, ttl(key), ttl(key))];
    } else {
      FirstRequest(key, ttl, limit);
      ops := [Incr(key, 0, 0)];
    }
  }

  // No smaller bound holds: some run admits 2 * limit - 1 requests within one
  // window length.
  lemma BoundIsTight(key: string, ttl: string -> int, limit: int) returns (ops: seq<Op>, lo: int)
    requires ttl(key) >= 1 && limit >= 1
    ensures Monotone(ops) && Admitted(ops, ttl, key, limit, lo, lo + ttl(key)) == 2 * limit - 1
  {
    ops := BurstIsAdmitted(key, ttl, limit, limit - 1, limit);
    lo := ttl(key);
  }
}

// cache.Do: concurrent callers of one key share one execution of fn. The
// critical sections under sfMu, the return of fn, wg.Done and wg.Wait are the
// atomic steps; callers whose fn returns interleave in any order.
module Singleflight {
  import opened Text

  // Where a caller of Do stands; c is the index of the sfCall it uses.
  datatype Caller<R> =
    | Before(key: string)
    | Running(key: string, c: nat)   // the leader, inside fn
    | Stored(key: string, c: nat)    // c.val, c.err are set
    | Released(key: string, c: nat)  // wg.Done has run, the entry is not deleted
    | Waiting(key: string, c: nat)   // in wg.Wait
    | Done(key: string, c: nat, result: R)

  // sfCall; pending says that its wait group is still at one.
  datatype Call<R> = Call(key: string, leader: nat, val: Option<R>, pending: bool)

  datatype State<R> = State(callers: seq<Caller<R>>, calls: seq<Call<R>>, table: map<string, nat>)

  datatype Action<R> = Enter(i: nat) | FnReturns(i: nat, r: R) | WgDone(i: nat) | Delete(i: nat) | Wake(i: nat)

  predicate Enabled<R>(s: State<R>, a: Action<R>) {
    a.i < |s.callers| &&
    var caller := s.callers[a.i];
    match a
    case Enter(_) => caller.Before?
    case FnReturns(_, _) => caller.Running? && caller.c < |s.calls|
    case WgDone(_) => caller.Stored? && caller.c < |s.calls|
    case Delete(_) => caller.Released? && caller.c < |s.calls| && s.calls[caller.c].val.Some?
    case Wake(_) => caller.Waiting? && caller.c < |s.calls| && !s.calls[caller.c].pending && s.calls[caller.c].val.Some?
  }

  function Do<R>(s: State<R>, a: Action<R>): State<R>
    requires Enabled(s, a)
  {
    var i, caller := a.i, s.callers[a.i];
    match a
    case Enter(_) =>
      var k := caller.key;
      if k in s.table then s.(callers := s.callers[i := Waiting(k, s.table[k])])
      else
        var c := |s.calls|;
        State(s.callers[i := Running(k, c)], s.calls + [Call(k, i, None, true)], s.table[k := c])
    case FnReturns(_, r) =>
      s.(callers := s.callers[i := Stored(caller.key, caller.c)],
         calls := s.calls[caller.c := s.calls[caller.c].(val := Some(r))])
    case WgDone(_) =>
      s.(callers := s.callers[i := Released(caller.key, caller.c)],
         calls := s.calls[caller.c := s.calls[caller.c].(pending := false)])
    case Delete(_) =>
      s.(callers := s.callers[i := Done(caller.key, caller.c, s.calls[caller.c].val.value)],
         table := s.table - {caller.key})
    case Wake(_) =>
      s.(callers := s.callers[i := Done(caller.key, caller.c, s.calls[caller.c].val.value)])
  }

  function Init<R>(keys: seq<string>): State<R> {
    State(seq(|keys|, i requires 0 <= i < |keys| => Before(keys[i])), [], map[])
  }

  function Run<R>(keys: seq<string>, actions: seq<Action<R>>): Option<State<R>> {
    if actions == [] then Some(Init(keys))
    else
      match Run(keys, actions[..|actions| - 1])
      case None => None
      case Some(s) =>
        var a := actions[|actions| - 1];
        if Enabled(s, a) then Some(Do(s, a)) else None
  }

  // ---- Invariant ----

  ghost predicate Leads<R>(caller: Caller<R>, k: string, c: nat) {
    caller == Running(k, c) || caller == Stored(k, c) || caller == Released(k, c)
  }

  ghost predicate CallerOk<R>(s: State<R>, i: nat)
    requires i < |s.callers|
  {
    var caller := s.callers[i];
    caller.Before? ||
    (caller.c < |s.calls| &&
     var call := s.calls[caller.c];
     && call.key == caller.key
     && (Leads(caller, caller.key, caller.c) ==>
           call.leader == i && caller.key in s.table && s.table[caller.key] == caller.c)
     && (caller.Running? ==> call.val.None? && call.pending)
     && (caller.Stored? ==> call.val.Some? && call.pending)
     && (caller.Released? ==> call.val.Some? && !call.pending)
     && (caller.Done? ==> call.val == Some(caller.result) && !call.pending))
  }

  ghost predicate CallOk<R>(s: State<R>, c: nat)
    requires c < |s.calls|
  {
    var call := s.calls[c];
    && call.leader < |s.callers|
    && (call.pending ==> s.callers[call.leader] == Running(call.key, c) || s.callers[call.leader] == Stored(call.key, c))
    && (!call.pending ==>
          && call.val.Some?
          && (s.callers[call.leader] == Released(call.key, c) || s.callers[call.leader] == Done(call.key, c, call.val.value)))
  }

  ghost predicate EntryOk<R>(s: State<R>, k: string)
    requires k in s.table
  {
    var c := s.table[k];
    c < |s.calls| && s.calls[c].key == k && s.calls[c].leader < |s.callers| && Leads(s.callers[s.calls[c].leader], k, c)
  }

  ghost predicate Inv<R>(s: State<R>) {
    && (forall i :: 0 <= i < |s.callers| ==> CallerOk(s, i))
    && (forall c :: 0 <= c < |s.calls| ==> CallOk(s, c))
    && (forall k :: k in s.table ==> EntryOk(s, k))
  }

  lemma DoKeepsCallers<R>(s: State<R>, a: Action<R>)
    requires Inv(s) && Enabled(s, a)
    ensures forall i :: 0 <= i < |Do(s, a).callers| ==> CallerOk(Do(s, a), i)
  {
    var t := Do(s, a);
    assert CallerOk(s, a.i);
    forall i | 0 <= i < |t.callers| ensures CallerOk(t, i) {
      assert CallerOk(s, i);
      if a.Enter? && s.callers[a.i].key in s.table {
        assert EntryOk(s, s.callers[a.i].key);
      }
    }
  }

  lemma DoKeepsCalls<R>(s: State<R>, a: Action<R>)
    requires Inv(s) && Enabled(s, a)
    ensures forall c :: 0 <= c < |Do(s, a).calls| ==> CallOk(Do(s, a), c)
    ensures forall k :: k in Do(s, a).table ==> EntryOk(Do(s, a), k)
  {
    var t := Do(s, a);
    assert CallerOk(s, a.i);
    forall c | 0 <= c < |t.calls| ensures CallOk(t, c) {
      if c < |s.calls| {
        assert CallOk(s, c);
      }
    }
    forall k | k in t.table ensures EntryOk(t, k) {
      if k in s.table {
        assert EntryOk(s, k);
      }
    }
  }

  lemma {:induction false} RunKeepsInv<R>(keys: seq<string>, actions: seq<Action<R>>)
    requires Run(keys, actions).Some?
    ensures Inv(Run(keys, actions).value) && |Run(keys, actions).value.callers| == |keys|
  {
    if actions != [] {
      var init := actions[..|actions| - 1];
      RunKeepsInv(keys, init);
      DoKeepsCallers(Run(keys, init).value, actions[|actions| - 1]);
      DoKeepsCalls(Run(keys, init).value, actions[|actions| - 1]);
    }
  }

  // ---- Safety ----

  // At most one execution per key at a time.
  lemma SingleExecution<R>(keys: seq<string>, actions: seq<Action<R>>, i: nat, j: nat)
    requires Run(keys, actions).Some? && i < |keys| && j < |keys|
    ensures var s := Run(keys, actions).value;
            |s.callers| == |keys| &&
            (s.callers[i].Running? && s.callers[j].Running? && s.callers[i].key == s.callers[j].key ==> i == j)
  {
    RunKeepsInv(keys, actions);
    var s := Run(keys, actions).value;
    assert CallerOk(s, i) && CallerOk(s, j);
  }

  // A leader's delete always finds its own entry in the table.
  lemma DeleteRemovesOwnEntry<R>(keys: seq<string>, actions: seq<Action<R>>, i: nat)
    requires Run(keys, actions).Some? && Enabled(Run(keys, actions).value, Delete(i))
    ensures var s := Run(keys, actions).value;
            var k := s.callers[i].key;
            k in s.table && s.table[k] == s.callers[i].c && s.calls[s.table[k]].leader == i
  {
    RunKeepsInv(keys, actions);
    assert CallerOk(Run(keys, actions).value, i);
  }

  // A call's value comes from its own leader's fn and never changes.
  ghost predicate FromLeader<R>(s: State<R>, actions: seq<Action<R>>) {
    forall c :: 0 <= c < |s.calls| && s.calls[c].val.Some? ==>
      FnReturns(s.calls[c].leader, s.calls[c].val.value) in actions
  }

  lemma {:induction false} ValuesFromLeaders<R>(keys: seq<string>, actions: seq<Action<R>>)
    requires Run(keys, actions).Some?
    ensures FromLeader(Run(keys, actions).value, actions)
  {
    if actions != [] {
      var init, a := actions[..|actions| - 1], actions[|actions| - 1];
      ValuesFromLeaders(keys, init);
      RunKeepsInv(keys, init);
      var s := Run(keys, init).value;
      assert CallerOk(s, a.i);
      assert actions == init + [a];
      forall c | 0 <= c < |Do(s, a).calls| && Do(s, a).calls[c].val.Some?
        ensures FnReturns(Do(s, a).calls[c].leader, Do(s, a).calls[c].val.value) in actions
      {
        if c < |s.calls| && s.calls[c].val.Some? {
          assert FnReturns(s.calls[c].leader, s.calls[c].val.value) in init;
        }
      }
    }
  }

  // fn returns at most once per caller: whoever it has returned for is past it.
  lemma {:induction false} PastFn<R>(keys: seq<string>, actions: seq<Action<R>>, x: nat)
    requires Run(keys, actions).Some? && x < |actions| && actions[x].FnReturns?
    ensures var s := Run(keys, actions).value;
            actions[x].i < |s.callers| && (s.callers[actions[x].i].Stored? || s.callers[actions[x].i].Released? || s.callers[actions[x].i].Done?)
  {
    if x < |actions| - 1 {
      PastFn(keys, actions[..|actions| - 1], x);
    }
  }

  lemma {:induction false} FnReturnsOnce<R>(keys: seq<string>, actions: seq<Action<R>>, x: nat, y: nat)
    requires Run(keys, actions).Some? && x < y < |actions| && actions[x].FnReturns? && actions[y].FnReturns?
    ensures actions[x].i != actions[y].i
  {
    var init := actions[..|actions| - 1];
    if y < |actions| - 1 {
      FnReturnsOnce(keys, init, x, y);
    } else {
      PastFn(keys, init, x);
    }
  }

  // Whatever a caller returns is what the fn of its call's leader returned,
  // and the leader itself has returned the same or is about to.
  lemma ResultIsLeaders<R>(keys: seq<string>, actions: seq<Action<R>>, i: nat)
    requires Run(keys, actions).Some? && i < |Run(keys, actions).value.callers| && Run(keys, actions).value.callers[i].Done?
    ensures var s := Run(keys, actions).value;
            var Done(k, c, result) := s.callers[i];
            && c < |s.calls| && s.calls[c].key == k
            && FnReturns(s.calls[c].leader, result) in actions
            && s.calls[c].leader < |s.callers|
            && (s.callers[s.calls[c].leader] == Done(k, c, result) || s.callers[s.calls[c].leader] == Released(k, c))
  {
    RunKeepsInv(keys, actions);
    ValuesFromLeaders(keys, actions);
    var s := Run(keys, actions).value;
    assert CallerOk(s, i);
    assert CallOk(s, s.callers[i].c);
    assert CallerOk(s, s.calls[s.callers[i].c].leader);
  }

  // ---- Progress ----

  function Rank<R>(caller: Caller<R>): nat {
    match caller
    case Before(_) => 5
    case Running(_, _) => 4
    case Stored(_, _) => 3
    case Released(_, _) => 2
    case Waiting(_, _) => 1
    case Done(_, _, _) => 0
  }

  function Work<R>(callers: seq<Caller<R>>): nat {
    if callers == [] then 0 else Rank(callers[0]) + Work(callers[1..])
  }

  lemma {:induction false} WorkAfterUpdate<R>(callers: seq<Caller<R>>, i: nat, caller: Caller<R>)
    requires i < |callers|
    ensures Work(callers[i := caller]) == Work(callers) - Rank(callers[i]) + Rank(caller)
  {
    if i == 0 {
      assert callers[0 := caller][1..] == callers[1..];
    } else {
      assert callers[i := caller][1..] == callers[1..][i - 1 := caller];
      WorkAfterUpdate(callers[1..], i - 1, caller);
    }
  }

  lemma {:induction false} InitialWork<R>(callers: seq<Caller<R>>)
    requires forall i :: 0 <= i < |callers| ==> callers[i].Before?
    ensures Work(callers) == 5 * |callers|
  {
    if callers != [] {
      InitialWork(callers[1..]);
    }
  }

  lemma StepUsesWork<R>(s: State<R>, a: Action<R>)
    requires Enabled(s, a)
    ensures Work(Do(s, a).callers) < Work(s.callers)
  {
    WorkAfterUpdate(s.callers, a.i, Do(s, a).callers[a.i]);
  }

  // Every step uses up work, so no run takes more than five steps per caller.
  lemma {:induction false} RunsAreShort<R>(keys: seq<string>, actions: seq<Action<R>>)
    requires Run(keys, actions).Some?
    ensures |actions| + Work(Run(keys, actions).value.callers) <= 5 * |keys|
  {
    if actions == [] {
      InitialWork<R>(Init(keys).callers);
    } else {
      var init := actions[..|actions| - 1];
      RunsAreShort(keys, init);
      StepUsesWork(Run(keys, init).value, actions[|actions| - 1]);
    }
  }

  // No reachable state is stuck: while some caller has not returned, a step is
  // enabled (r is any value that a running fn may return).
  lemma NeverStuck<R>(keys: seq<string>, actions: seq<Action<R>>, i: nat, r: R) returns (a: Action<R>)
    requires Run(keys, actions).Some? && i < |keys|
    requires |Run(keys, actions).value.callers| == |keys| && !Run(keys, actions).value.callers[i].Done?
    ensures Enabled(Run(keys, actions).value, a)
  {
    RunKeepsInv(keys, actions);
    var s := Run(keys, actions).value;
    a := NextOf(s, i, r);
    if s.callers[i].Waiting? && s.calls[s.callers[i].c].pending {
      var c := s.callers[i].c;
      assert CallerOk(s, i) && CallOk(s, c);
      assert CallerOk(s, s.calls[c].leader);
      a := NextOf(s, s.calls[c].leader, r);
    }
  }

  // The own next step of a caller, enabled unless it waits for a pending call.
  lemma NextOf<R>(s: State<R>, i: nat, r: R) returns (a: Action<R>)
    requires Inv(s) && i < |s.callers| && !s.callers[i].Done?
    ensures s.callers[i].Waiting? ==> s.callers[i].c < |s.calls|
    ensures (s.callers[i].Waiting? && s.calls[s.callers[i].c].pending) || Enabled(s, a)
  {
    assert CallerOk(s, i);
    match s.callers[i]
    case Before(_) => a := Enter(i);
    case Running(_, _) => a := FnReturns(i, r);
    case Stored(_, _) => a := WgDone(i);
    case Released(_, _) => a := Delete(i);
    case Waiting(_, c) =>
      assert CallOk(s, c);
      a := Wake(i);
  }

  // ---- How old a shared result can be ----

  // A caller that enters joins a call exactly when some caller leads one for its
  // key; otherwise it starts a new call.
  lemma StartsNewCallExactlyWhen<R>(keys: seq<string>, actions: seq<Action<R>>, i: nat)
    requires Run(keys, actions).Some? && Enabled(Run(keys, actions).value, Enter(i))
    ensures var s := Run(keys, actions).value;
            var k := s.callers[i].key;
            Do(s, Enter(i)).callers[i] == Running(k, |s.calls|) <==>
            forall j, c :: 0 <= j < |s.callers| ==> !Leads(s.callers[j], k, c)
  {
    RunKeepsInv(keys, actions);
    var s := Run(keys, actions).value;
    var k := s.callers[i].key;
    if k in s.table {
      assert EntryOk(s, k);
    } else {
      forall j, c | 0 <= j < |s.callers| ensures !Leads(s.callers[j], k, c) {
        assert CallerOk(s, j);
      }
    }
  }

  // In every reachable state a caller that joins a call gets a result that fn
  // has already returned exactly when the call's leader stands between the
  // return of fn and its delete.
  lemma JoinsFinishedExactlyWhen<R>(keys: seq<string>, actions: seq<Action<R>>, i: nat)
    requires Run(keys, actions).Some? && Enabled(Run(keys, actions).value, Enter(i))
    requires var s := Run(keys, actions).value; s.callers[i].key in s.table
    ensures var s := Run(keys, actions).value;
            var c := s.table[s.callers[i].key];
            && c < |s.calls| && s.calls[c].leader < |s.callers|
            && Do(s, Enter(i)).callers[i] == Waiting(s.callers[i].key, c)
            && (s.calls[c].val.Some? <==> s.callers[s.calls[c].leader].Stored? || s.callers[s.calls[c].leader].Released?)
  {
    RunKeepsInv(keys, actions);
    var s := Run(keys, actions).value;
    var k := s.callers[i].key;
    assert EntryOk(s, k);
    assert CallerOk(s, s.calls[s.table[k]].leader);
  }

  // Right after a leader's delete the next caller of its key starts a new call.
  lemma NewCallAfterDelete<R>(keys: seq<string>, actions: seq<Action<R>>, leader: nat, i: nat)
    requires Run(keys, actions).Some? && Enabled(Run(keys, actions).value, Delete(leader))
    requires var s := Run(keys, actions).value;
             i < |s.callers| && s.callers[i].Before? && s.callers[i].key == s.callers[leader].key
    ensures var t := Do(Run(keys, actions).value, Delete(leader));
            Enabled(t, Enter(i)) && Do(t, Enter(i)).callers[i] == Running(t.callers[i].key, |t.calls|)
  {
  }

  // A caller can join after fn has already returned: the entry is deleted in a
  // later critical section than wg.Done.
  lemma LateJoinerGetsFinishedResult<R>(k: string, r: R)
    ensures var run := [Enter(0), FnReturns(0, r), WgDone(0), Enter(1), Wake(1)];
            Run([k, k], run).Some? && Run([k, k], run).value.callers[1] == Done(k, 0, r)
  {
    var run := [Enter(0), FnReturns(0, r), WgDone(0), Enter(1), Wake(1)];
    var s0: State<R> := Init([k, k]);
    var s1, s3 := Do(s0, run[0]), Do(Do(Do(s0, run[0]), run[1]), run[2]);
    assert run[..4][..3] == run[..3] && run[..3][..2] == run[..2] && run[..2][..1] == run[..1] && run[..1][..0] == [];
    assert Run([k, k], run[..1]) == Some(s1);
    assert Run([k, k], run[..2]) == Some(Do(s1, run[1]));
    assert Run([k, k], run[..3]) == Some(s3);
    assert Run([k, k], run[..4]) == Some(Do(s3, run[3]));
  }
}

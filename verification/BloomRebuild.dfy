// The global Bloom filter while problems are created and the filter is rebuilt:
// rebuild scans the table into a new filter and swaps it in later, and a create
// inserts the row, then reads the current filter pointer, then adds to it.
module BloomRebuild {
  import opened Text

  datatype Phase =
    | Inserted                      // the row exists
    | Holding(filter: Option<nat>)  // AddProblemID has read the pointer
    | Finished                      // ... and added the id

  // filters are the filter objects by the ids added to them; current is bf.
  // building is the new filter of a rebuild between scan and swap.
  datatype State = State(
    table: set<nat>, creates: map<nat, Phase>, filters: seq<set<nat>>, current: Option<nat>, building: Option<set<nat>>)

  datatype Action = Insert(id: nat) | ReadPointer(id: nat) | AddTo(id: nat) | Remove(id: nat) | Scan | Swap

  predicate Enabled(s: State, a: Action) {
    match a
    case Insert(id) => id !in s.creates
    case ReadPointer(id) => id in s.creates && s.creates[id].Inserted?
    case AddTo(id) =>
      id in s.creates && s.creates[id].Holding? &&
      (s.creates[id].filter.Some? ==> s.creates[id].filter.value < |s.filters|)
    case Remove(id) => id in s.table
    case Scan => s.building.None?
    case Swap => s.building.Some?
  }

  function Do(s: State, a: Action): State
    requires Enabled(s, a)
  {
    match a
    case Insert(id) => s.(table := s.table + {id}, creates := s.creates[id := Inserted])
    case ReadPointer(id) => s.(creates := s.creates[id := Holding(s.current)])
    case AddTo(id) =>
      var t := s.(creates := s.creates[id := Finished]);
      (match s.creates[id].filter
       case None => t
       case Some(f) => t.(filters := s.filters[f := s.filters[f] + {id}]))
    case Remove(id) => s.(table := s.table - {id})
    case Scan => s.(building := Some(s.table))
    case Swap =>
      s.(filters := s.filters + [s.building.value], current := Some(|s.filters|), building := None)
  }

  const INIT := State({}, map[], [], None, None)

  function Run(actions: seq<Action>): Option<State> {
    if actions == [] then Some(INIT)
    else
      match Run(actions[..|actions| - 1])
      case None => None
      case Some(s) => if Enabled(s, actions[|actions| - 1]) then Some(Do(s, actions[|actions| - 1])) else None
  }

  // MightHaveProblem on the ids themselves; the filter proper may also pass
  // others. Without a filter everything passes.
  predicate Passes(s: State, id: nat) {
    match s.current
    case None => true
    case Some(c) => c < |s.filters| && id in s.filters[c]
  }

  // ---- Positions in the history ----

  // Where an action last happened, -1 if it never did.
  function Last(actions: seq<Action>, a: Action): int {
    if actions == [] then -1
    else if actions[|actions| - 1] == a then |actions| - 1
    else Last(actions[..|actions| - 1], a)
  }

  // The scan of the latest rebuild that has swapped.
  function ScanOfSwap(actions: seq<Action>): int {
    if actions == [] then -1
    else
      var init := actions[..|actions| - 1];
      if actions[|actions| - 1] == Swap then Last(init, Scan) else ScanOfSwap(init)
  }

  // The create of id inserted its row after the scan of the latest rebuild and
  // read the filter pointer before its swap.
  predicate Overlapped(actions: seq<Action>, id: nat) {
    ScanOfSwap(actions) < Last(actions, Insert(id)) < Last(actions, ReadPointer(id)) < Last(actions, Swap)
  }

  lemma {:induction false} LastBound(actions: seq<Action>, a: Action)
    ensures -1 <= Last(actions, a) < |actions|
    ensures Last(actions, a) >= 0 ==> actions[Last(actions, a)] == a
  {
    if actions != [] {
      LastBound(actions[..|actions| - 1], a);
    }
  }

  // ---- What the history says about one id ----

  ghost predicate Inv(actions: seq<Action>, s: State, id: nat) {
    var scan, swap := Last(actions, Scan), Last(actions, Swap);
    var insert, read := Last(actions, Insert(id)), Last(actions, ReadPointer(id));
    && (s.building.Some? <==> scan > swap)
    && (if swap < 0 then s.current.None? else s.current.Some? && s.current.value < |s.filters|)
    && (id in s.table || (s.building.Some? && id in s.building.value) ==> id in s.creates)
    && (if id in s.creates then insert >= 0 else insert < 0 && read < 0)
    && (id in s.creates ==> if s.creates[id].Inserted? then read < 0 else insert < read)
    && (id in s.creates && s.creates[id].Holding? && s.creates[id].filter.Some? ==>
          s.creates[id].filter.value < |s.filters|)
    && (id in s.table && s.building.Some? ==> (id in s.building.value <==> insert < scan))
    && (id in s.table && s.creates[id].Finished? ==> (Passes(s, id) <==> !Overlapped(actions, id)))
    && (id in s.table && s.creates[id].Holding? ==>
          if Overlapped(actions, id) then !Passes(s, id) && s.creates[id].filter != s.current
          else Passes(s, id) || s.creates[id].filter == s.current)
  }

  lemma RebuildStepKeepsInv(actions: seq<Action>, s: State, a: Action, id: nat)
    requires Inv(actions, s, id) && Enabled(s, a) && (a.Scan? || a.Swap?)
    ensures Inv(actions + [a], Do(s, a), id)
  {
    LastAfter(actions, a);
    LastBounds(actions, id);
  }

  // Inserts, pointer reads and deletions, of this id or another.
  lemma CreateStepKeepsInv(actions: seq<Action>, s: State, a: Action, id: nat)
    requires Inv(actions, s, id) && Enabled(s, a) && (a.Insert? || a.ReadPointer? || a.Remove?)
    ensures Inv(actions + [a], Do(s, a), id)
  {
    LastAfter(actions, a);
    LastBounds(actions, id);
  }

  lemma AddStepKeepsInv(actions: seq<Action>, s: State, other: nat, id: nat)
    requires Inv(actions, s, id) && Enabled(s, AddTo(other))
    ensures Inv(actions + [AddTo(other)], Do(s, AddTo(other)), id)
  {
    LastAfter(actions, AddTo(other));
    var t := Do(s, AddTo(other));
    assert Passes(t, id) <==> Passes(s, id) || (other == id && s.creates[id].filter == s.current);
  }

  lemma LastBounds(actions: seq<Action>, id: nat)
    ensures -1 <= Last(actions, Scan) < |actions| && -1 <= Last(actions, Swap) < |actions|
    ensures -1 <= Last(actions, Insert(id)) < |actions| && -1 <= Last(actions, ReadPointer(id)) < |actions|
    ensures Last(actions, Insert(id)) != Last(actions, Scan) || Last(actions, Scan) == -1
  {
    LastBound(actions, Scan);
    LastBound(actions, Swap);
    LastBound(actions, Insert(id));
    LastBound(actions, ReadPointer(id));
  }

  lemma LastAfter(actions: seq<Action>, a: Action)
    ensures forall b :: Last(actions + [a], b) == if a == b then |actions| else Last(actions, b)
    ensures ScanOfSwap(actions + [a]) == if a == Swap then Last(actions, Scan) else ScanOfSwap(actions)
  {
    assert (actions + [a])[..|actions|] == actions;
  }

  lemma {:induction false} RunKeepsInv(actions: seq<Action>, id: nat)
    requires Run(actions).Some?
    ensures Inv(actions, Run(actions).value, id)
  {
    if actions != [] {
      var init := actions[..|actions| - 1];
      RunKeepsInv(init, id);
      var s, a := Run(init).value, actions[|actions| - 1];
      assert init + [a] == actions;
      match a
      case Scan => RebuildStepKeepsInv(init, s, a, id);
      case Swap => RebuildStepKeepsInv(init, s, a, id);
      case AddTo(other) => AddStepKeepsInv(init, s, other, id);
      case _ => CreateStepKeepsInv(init, s, a, id);
    }
  }

  // In every reachable state a stored problem whose create has finished is
  // denied exactly when its create inserted the row after the scan of the
  // latest rebuild and read the filter pointer before its swap.
  lemma DeniedExactlyWhenOverlapped(actions: seq<Action>, id: nat)
    requires Run(actions).Some?
    requires id in Run(actions).value.table && id in Run(actions).value.creates && Run(actions).value.creates[id].Finished?
    ensures !Passes(Run(actions).value, id) <==>
            ScanOfSwap(actions) < Last(actions, Insert(id)) < Last(actions, ReadPointer(id)) < Last(actions, Swap)
  {
    RunKeepsInv(actions, id);
  }

  // No create inserts its row while a rebuild stands between scan and swap.
  ghost predicate Quiet(actions: seq<Action>) {
    forall k :: 0 <= k < |actions| && actions[k].Insert? ==> Last(actions[..k], Scan) <= Last(actions[..k], Swap)
  }

  lemma {:induction false} QuietNeverOverlaps(actions: seq<Action>, id: nat)
    requires Run(actions).Some? && Quiet(actions)
    ensures !(Last(actions, Swap) < Last(actions, Scan) < Last(actions, Insert(id)))
    ensures !(ScanOfSwap(actions) < Last(actions, Insert(id)) < Last(actions, Swap))
  {
    if actions != [] {
      var init, a := actions[..|actions| - 1], actions[|actions| - 1];
      assert actions == init + [a];
      forall k | 0 <= k < |init| && init[k].Insert? ensures Last(init[..k], Scan) <= Last(init[..k], Swap) {
        assert actions[k] == init[k] && actions[..k] == init[..k];
      }
      QuietNeverOverlaps(init, id);
      LastAfter(init, a);
      LastBounds(init, id);
      RunKeepsInv(init, id);
      assert actions[..|init|] == init;
    }
  }

  // So in every run without such an overlap each stored problem whose create
  // has finished is admitted.
  lemma QuietAdmitsAll(actions: seq<Action>, id: nat)
    requires Run(actions).Some? && Quiet(actions)
    requires id in Run(actions).value.table && id in Run(actions).value.creates && Run(actions).value.creates[id].Finished?
    ensures Passes(Run(actions).value, id)
  {
    RunKeepsInv(actions, id);
    QuietNeverOverlaps(actions, id);
  }

  // ---- Exactly which ids pass ----

  // The table after actions.
  function TableAfter(actions: seq<Action>): set<nat> {
    match Run(actions)
    case None => {}
    case Some(s) => s.table
  }

  // What the history says about the filters and one id: scanned is the table at
  // the latest scan, swapped the one at the scan of the latest swap.
  ghost predicate FilterInv(actions: seq<Action>, s: State, id: nat, scanned: set<nat>, swapped: set<nat>) {
    var swap, read, add := Last(actions, Swap), Last(actions, ReadPointer(id)), Last(actions, AddTo(id));
    && (s.building.Some? ==> s.building.value == scanned)
    && (if swap < 0 then s.current.None? && s.filters == [] else s.current == Some(|s.filters| - 1) && |s.filters| >= 1)
    && (if id in s.creates && s.creates[id].Finished? then read < add else add < 0)
    && (id in s.creates && s.creates[id].Holding? ==>
          && (s.creates[id].filter == s.current <==> swap < read)
          && (s.creates[id].filter.Some? ==> s.creates[id].filter.value < |s.filters|))
    && (swap >= 0 ==> (Passes(s, id) <==> id in swapped || swap < read < add))
  }

  lemma {:induction false} RunKeepsFilterInv(actions: seq<Action>, id: nat)
    requires Run(actions).Some?
    ensures -1 <= Last(actions, Scan) <= |actions| && -1 <= ScanOfSwap(actions) <= |actions|
    ensures Last(actions, Swap) >= 0 ==> ScanOfSwap(actions) >= 0
    ensures FilterInv(actions, Run(actions).value, id, ScannedTable(actions), SwappedTable(actions))
  {
    if actions != [] {
      var init, a := actions[..|actions| - 1], actions[|actions| - 1];
      var s := Run(init).value;
      RunKeepsFilterInv(init, id);
      RunKeepsInv(init, id);
      assert actions == init + [a];
      LastAfter(init, a);
      LastBounds(init, id);
      LastBounds(actions, id);
      FilterStep(init, s, a, id, ScannedTable(init), SwappedTable(init));
      TablesAfter(init, a);
    }
  }

  function ScannedTable(actions: seq<Action>): set<nat> {
    var k := Last(actions, Scan);
    if 0 <= k <= |actions| then TableAfter(actions[..k]) else {}
  }

  function SwappedTable(actions: seq<Action>): set<nat> {
    var k := ScanOfSwap(actions);
    if 0 <= k <= |actions| then TableAfter(actions[..k]) else {}
  }

  lemma TablesAfter(actions: seq<Action>, a: Action)
    requires -1 <= Last(actions, Scan) <= |actions| && -1 <= ScanOfSwap(actions) <= |actions|
    ensures ScannedTable(actions + [a]) == if a.Scan? then TableAfter(actions) else ScannedTable(actions)
    ensures SwappedTable(actions + [a]) == if a.Swap? then ScannedTable(actions) else SwappedTable(actions)
  {
    LastAfter(actions, a);
    assert (actions + [a])[..|actions|] == actions;
    assert forall k :: 0 <= k <= |actions| ==> (actions + [a])[..k] == actions[..k];
  }

  lemma FilterStep(actions: seq<Action>, s: State, a: Action, id: nat, scanned: set<nat>, swapped: set<nat>)
    requires Enabled(s, a) && FilterInv(actions, s, id, scanned, swapped) && Inv(actions, s, id)
    ensures FilterInv(actions + [a], Do(s, a), id, if a.Scan? then s.table else scanned, if a.Swap? then scanned else swapped)
  {
    LastAfter(actions, a);
    LastBounds(actions, id);
    LastBound(actions, AddTo(id));
    if a.AddTo? {
      AddStepPasses(s, a.id, id);
    }
  }

  lemma AddStepPasses(s: State, other: nat, id: nat)
    requires Enabled(s, AddTo(other))
    ensures Passes(Do(s, AddTo(other)), id) <==> Passes(s, id) || (other == id && s.creates[id].filter == s.current)
  {
  }

  // In every run after a rebuild, an id passes exactly when its row was there
  // at the scan of the latest rebuild, or its create read the filter pointer
  // behind that rebuild's swap and has added it.  So a deleted problem is denied
  // from the next rebuild on.
  lemma PassesExactlyWhen(actions: seq<Action>, id: nat)
    requires Run(actions).Some? && Last(actions, Swap) >= 0
    ensures 0 <= ScanOfSwap(actions) <= |actions|
    ensures Passes(Run(actions).value, id) <==>
            id in TableAfter(actions[..ScanOfSwap(actions)]) ||
            Last(actions, Swap) < Last(actions, ReadPointer(id)) < Last(actions, AddTo(id))
  {
    RunKeepsFilterInv(actions, id);
  }

  // With the overlap a problem can be denied until the next rebuild.
  lemma OverlapCanDeny(id: nat)
    ensures var run := [Scan, Insert(id), ReadPointer(id), AddTo(id), Swap];
            Run(run).Some? &&
            var s := Run(run).value;
            id in s.table && id in s.creates && s.creates[id].Finished? && !Passes(s, id)
  {
    var run := [Scan, Insert(id), ReadPointer(id), AddTo(id), Swap];
    assert run[..4][..3] == run[..3] && run[..3][..2] == run[..2] && run[..2][..1] == run[..1] && run[..1][..0] == [];
    var s1 := Do(INIT, Scan);
    var s2 := Do(s1, Insert(id));
    var s3 := Do(s2, ReadPointer(id));
    assert Run(run[..1]) == Some(s1);
    assert Run(run[..2]) == Some(s2);
    assert Run(run[..3]) == Some(s3);
    assert Run(run[..4]) == Some(Do(s3, AddTo(id)));
  }
}

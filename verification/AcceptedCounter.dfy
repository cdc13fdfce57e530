// The accepted_count column of a problem against the submissions it counts:
// the final transaction of JudgeTask and the resets of ReJudge.
module AcceptedCounter {
  import opened Text

  datatype Submission = Submission(user: nat, problem: nat, accepted: bool)

  datatype Tables = Tables(rows: map<nat, Submission>, counts: map<nat, nat>)

  datatype Action =
    | Submit(id: nat, user: nat, problem: nat)
    | Reset(id: nat)                    // ReJudge: status back to "pending"
    | Finish(id: nat, accepted: bool)   // a judging run writes its verdict

  function At(m: map<nat, nat>, k: nat): nat { if k in m then m[k] else 0 }

  const EMPTY := Tables(map[], map[])

  // Rows with status Accepted of one user for one problem, without row id.
  function Others(rows: map<nat, Submission>, user: nat, problem: nat, id: nat): set<nat> {
    set i | i in rows && rows[i] == Submission(user, problem, true) && i != id
  }

  // The users that hold an Accepted submission for the problem.
  function Holders(rows: map<nat, Submission>, problem: nat): set<nat> {
    set i | i in rows && rows[i].problem == problem && rows[i].accepted :: rows[i].user
  }

  predicate Enabled(s: Tables, a: Action) {
    match a
    case Submit(id, _, _) => id !in s.rows
    case Reset(id) => id in s.rows
    case Finish(id, _) => id in s.rows
  }

  // The row is the only one that makes its user a holder.
  predicate Sole(rows: map<nat, Submission>, id: nat)
    requires id in rows
  {
    rows[id].accepted && Others(rows, rows[id].user, rows[id].problem, id) == {}
  }

  function Written(s: Tables, id: nat, accepted: bool): Tables
    requires id in s.rows
  {
    var r := s.rows[id];
    Tables(
      s.rows[id := r.(accepted := accepted)],
      if accepted && Others(s.rows, r.user, r.problem, id) == {} then s.counts[r.problem := At(s.counts, r.problem) + 1] else s.counts)
  }

  function Do(s: Tables, a: Action): Tables
    requires Enabled(s, a)
  {
    match a
    case Submit(id, user, problem) => s.(rows := s.rows[id := Submission(user, problem, false)])
    case Reset(id) => Written(s, id, false)
    case Finish(id, accepted) => Written(s, id, accepted)
  }

  function Run(actions: seq<Action>): Option<Tables> {
    if actions == [] then Some(EMPTY)
    else
      match Run(actions[..|actions| - 1])
      case None => None
      case Some(s) => if Enabled(s, actions[|actions| - 1]) then Some(Do(s, actions[|actions| - 1])) else None
  }

  // The action writes over its user's only Accepted row for the problem.
  predicate Loses(s: Tables, a: Action, problem: nat) {
    !a.Submit? && a.id in s.rows && s.rows[a.id].problem == problem && Sole(s.rows, a.id)
  }

  // How many actions of a run did that.
  function Losses(actions: seq<Action>, problem: nat): nat
    requires Run(actions).Some?
  {
    if actions == [] then 0
    else
      var init := actions[..|actions| - 1];
      Losses(init, problem) + if Loses(Run(init).value, actions[|actions| - 1], problem) then 1 else 0
  }

  // The database as the judge worker and the rejudge handler change it.
  class Database {
    var rows: map<nat, Submission>
    var counts: map<nat, nat>

    ghost function State(): Tables
      reads this
    {
      Tables(rows, counts)
    }

    constructor ()
      ensures State() == EMPTY
    {
      rows, counts := map[], map[];
    }

    method Create(id: nat, user: nat, problem: nat)
      requires Enabled(State(), Submit(id, user, problem))
      modifies this
      ensures State() == Do(old(State()), Submit(id, user, problem))
    {
      rows := rows[id := Submission(user, problem, false)];
    }

    // The closing transaction of JudgeTask for a task made from row id.
    method FinishJudging(id: nat, accepted: bool)
      requires Enabled(State(), Finish(id, accepted))
      modifies this
      ensures State() == Do(old(State()), Finish(id, accepted))
    {
      var task := rows[id];
      rows := rows[id := task.(accepted := accepted)];
      if accepted {
        var existing := Others(rows, task.user, task.problem, id);
        assert existing == Others(old(rows), task.user, task.problem, id);
        if |existing| == 0 {
          counts := counts[task.problem := At(counts, task.problem) + 1];
        }
      }
    }

    method ReJudge(id: nat)
      requires Enabled(State(), Reset(id))
      modifies this
      ensures State() == Do(old(State()), Reset(id))
    {
      var task := rows[id];
      rows := rows[id := task.(accepted := false)];
    }
  }

  // ---- What the rows say ----

  // The verdict written last for a row; a reset writes none.
  function LastWritten(actions: seq<Action>, id: nat): bool {
    if actions == [] then false
    else
      match actions[|actions| - 1]
      case Submit(_, _, _) => LastWritten(actions[..|actions| - 1], id)
      case Reset(i) => if i == id then false else LastWritten(actions[..|actions| - 1], id)
      case Finish(i, accepted) => if i == id then accepted else LastWritten(actions[..|actions| - 1], id)
  }

  // After every run a row belongs to the submission of its id and is Accepted
  // exactly when the last judging since its last reset said so.
  lemma {:induction false} RowsSayLastVerdict(actions: seq<Action>, id: nat)
    requires Run(actions).Some?
    ensures var rows := Run(actions).value.rows;
            && (id in rows <==> exists u, p :: Submit(id, u, p) in actions)
            && (id in rows ==> rows[id].accepted == LastWritten(actions, id) && Submit(id, rows[id].user, rows[id].problem) in actions)
            && (id !in rows ==> !LastWritten(actions, id))
  {
    if actions != [] {
      var init, a := actions[..|actions| - 1], actions[|actions| - 1];
      assert actions == init + [a];
      RowsSayLastVerdict(init, id);
    }
  }

  // ---- The exact law ----

  // How far the counter runs ahead of the holders.
  ghost function Excess(s: Tables, problem: nat): int {
    At(s.counts, problem) - |Holders(s.rows, problem)|
  }

  lemma HolderExactlyWhen(rows: map<nat, Submission>, id: nat)
    requires id in rows
    ensures rows[id].user in Holders(rows, rows[id].problem) <==>
            rows[id].accepted || Others(rows, rows[id].user, rows[id].problem, id) != {}
  {
    var r := rows[id];
    var others := Others(rows, r.user, r.problem, id);
    if i :| i in others {
      assert rows[i].user in Holders(rows, r.problem);
    }
    if r.user in Holders(rows, r.problem) && !r.accepted {
      var i :| i in rows && rows[i].problem == r.problem && rows[i].accepted && rows[i].user == r.user;
      assert i in others;
    }
  }

  // Overwriting a row changes only whether its own user is a holder.
  lemma OtherHoldersStay(rows: map<nat, Submission>, id: nat, accepted: bool, problem: nat)
    requires id in rows
    ensures var next := rows[id := rows[id].(accepted := accepted)];
            && Holders(next, problem) - {rows[id].user} == Holders(rows, problem) - {rows[id].user}
            && (rows[id].problem != problem ==> Holders(next, problem) == Holders(rows, problem))
            && Others(next, rows[id].user, rows[id].problem, id) == Others(rows, rows[id].user, rows[id].problem, id)
  {
    var next := rows[id := rows[id].(accepted := accepted)];
    forall u | u in Holders(rows, problem) && (u != rows[id].user || rows[id].problem != problem)
      ensures u in Holders(next, problem)
    {
      var i :| i in rows && rows[i].problem == problem && rows[i].accepted && rows[i].user == u;
      assert next[i] == rows[i];
    }
    forall u | u in Holders(next, problem) && (u != rows[id].user || rows[id].problem != problem)
      ensures u in Holders(rows, problem)
    {
      var i :| i in next && next[i].problem == problem && next[i].accepted && next[i].user == u;
      assert next[i] == rows[i];
    }
  }

  lemma SizeWithin(a: set<nat>, u: nat)
    ensures |a| == |a - {u}| + if u in a then 1 else 0
  {
    if u in a {
      assert a == (a - {u}) + {u};
    } else {
      assert a == a - {u};
    }
  }

  lemma WriteExcess(s: Tables, id: nat, accepted: bool, problem: nat)
    requires id in s.rows
    ensures Excess(Written(s, id, accepted), problem) ==
            Excess(s, problem) + if s.rows[id].problem == problem && Sole(s.rows, id) then 1 else 0
  {
    var r, next := s.rows[id], s.rows[id := s.rows[id].(accepted := accepted)];
    OtherHoldersStay(s.rows, id, accepted, problem);
    if r.problem == problem {
      HolderExactlyWhen(s.rows, id);
      HolderExactlyWhen(next, id);
      SizeWithin(Holders(s.rows, problem), r.user);
      SizeWithin(Holders(next, problem), r.user);
    }
  }

  lemma SubmitKeepsHolders(s: Tables, id: nat, user: nat, problem: nat, p: nat)
    requires id !in s.rows
    ensures Holders(s.rows[id := Submission(user, problem, false)], p) == Holders(s.rows, p)
  {
    var next := s.rows[id := Submission(user, problem, false)];
    forall u | u in Holders(s.rows, p) ensures u in Holders(next, p) {
      var i :| i in s.rows && s.rows[i].problem == p && s.rows[i].accepted && s.rows[i].user == u;
      assert next[i] == s.rows[i];
    }
  }

  // Every step moves the excess by one when it writes over a user's only
  // Accepted row, and not at all otherwise.
  lemma StepExcess(s: Tables, a: Action, problem: nat)
    requires Enabled(s, a)
    ensures Excess(Do(s, a), problem) == Excess(s, problem) + if Loses(s, a, problem) then 1 else 0
  {
    match a
    case Submit(id, user, p) => SubmitKeepsHolders(s, id, user, p, problem);
    case Reset(id) => WriteExcess(s, id, false, problem);
    case Finish(id, accepted) => WriteExcess(s, id, accepted, problem);
  }

  // After every run the counter is the number of distinct accepted users plus
  // the number of times a user's only Accepted submission was written over.
  lemma {:induction false} CountIsHoldersPlusLosses(actions: seq<Action>, problem: nat)
    requires Run(actions).Some?
    ensures var t := Run(actions).value;
            At(t.counts, problem) == |Holders(t.rows, problem)| + Losses(actions, problem)
  {
    if actions == [] {
      assert Holders(EMPTY.rows, problem) == {};
    } else {
      var init := actions[..|actions| - 1];
      CountIsHoldersPlusLosses(init, problem);
      StepExcess(Run(init).value, actions[|actions| - 1], problem);
    }
  }

  // No action writes over its user's only Accepted row for the problem.
  ghost predicate NothingLost(actions: seq<Action>, problem: nat) {
    forall k :: 0 <= k < |actions| && Run(actions[..k]).Some? ==> !Loses(Run(actions[..k]).value, actions[k], problem)
  }

  lemma {:induction false} NoLossesExactlyWhen(actions: seq<Action>, problem: nat)
    requires Run(actions).Some?
    ensures Losses(actions, problem) == 0 <==> NothingLost(actions, problem)
  {
    if actions != [] {
      var n := |actions| - 1;
      var init := actions[..n];
      NoLossesExactlyWhen(init, problem);
      assert forall k :: 0 <= k < n ==> init[..k] == actions[..k] && init[k] == actions[k];
      assert NothingLost(actions, problem) <==>
             NothingLost(init, problem) && !Loses(Run(init).value, actions[n], problem);
    }
  }

  // The counter never undercounts, and is exact if and only if no step of the
  // run wrote over a user's only Accepted row for the problem.
  lemma NeverBelow(actions: seq<Action>, problem: nat)
    requires Run(actions).Some?
    ensures var t := Run(actions).value;
            && At(t.counts, problem) >= |Holders(t.rows, problem)|
            && (At(t.counts, problem) == |Holders(t.rows, problem)| <==> NothingLost(actions, problem))
  {
    CountIsHoldersPlusLosses(actions, problem);
    NoLossesExactlyWhen(actions, problem);
  }

  // ---- Runs that write every submission at most once ----

  predicate Writes(a: Action, id: nat) { !a.Submit? && a.id == id }

  ghost predicate WrittenOnce(actions: seq<Action>) {
    forall i, j :: 0 <= i < j < |actions| && !actions[i].Submit? ==> !Writes(actions[j], actions[i].id)
  }

  // A row that was never written is not Accepted.
  lemma {:induction false} UnwrittenIsPending(actions: seq<Action>, id: nat)
    requires Run(actions).Some? && forall i :: 0 <= i < |actions| ==> !Writes(actions[i], id)
    ensures id in Run(actions).value.rows ==> !Run(actions).value.rows[id].accepted
  {
    if actions != [] {
      UnwrittenIsPending(actions[..|actions| - 1], id);
    }
  }

  // Without rejudging, accepted_count is the number of distinct accepted users.
  lemma JudgedOnceCountsUsers(actions: seq<Action>, problem: nat)
    requires Run(actions).Some? && WrittenOnce(actions)
    ensures var t := Run(actions).value; At(t.counts, problem) == |Holders(t.rows, problem)|
  {
    forall k | 0 <= k < |actions| && Run(actions[..k]).Some?
      ensures !Loses(Run(actions[..k]).value, actions[k], problem)
    {
      if !actions[k].Submit? {
        assert forall i :: 0 <= i < k && Writes(actions[i], actions[k].id) ==> Writes(actions[k], actions[i].id);
        UnwrittenIsPending(actions[..k], actions[k].id);
      }
    }
    NeverBelow(actions, problem);
  }

  // One user, one submission, judged, rejudged and accepted again: counted twice.
  lemma RejudgeCountsTwice()
    ensures var actions := [Submit(3, 7, 1), Finish(3, true), Reset(3), Finish(3, true)];
            && Run(actions).Some?
            && Holders(Run(actions).value.rows, 1) == {7} && At(Run(actions).value.counts, 1) == 2
  {
    var actions := [Submit(3, 7, 1), Finish(3, true), Reset(3), Finish(3, true)];
    assert actions[..3][..2] == actions[..2] && actions[..2][..1] == actions[..1] && actions[..1][..0] == [];
    var one := Do(EMPTY, actions[0]);
    var two := Do(one, actions[1]);
    var three := Do(two, actions[2]);
    assert Run(actions[..1]) == Some(one);
    assert Run(actions[..2]) == Some(two);
    assert Run(actions[..3]) == Some(three);
    assert Do(three, actions[3]).rows == map[3 := Submission(7, 1, true)];
  }
}

// IOI contest ranking: best passed count and its running time per problem,
// summed over the contest's problems into total passed * 10,000,000 - total time.
module IoiRanking {
  import opened Text
  import opened RankStore
  import opened AcmRanking

  // The latest submission row of a (user, problem, contest) when it is judged.
  datatype Row = Row(contest: nat, user: nat, problem: nat, passed: nat, total: nat, timeUsed: nat)

  // Contest -> the problem column of its contest_problems rows.
  type Problems = nat -> seq<nat>

  const WEIGHT := 10_000_000

  // ---- Reference ----

  predicate Counts(e: Row, c: nat, u: nat, p: nat) {
    e.contest == c && e.user == u && e.problem == p && e.total != 0
  }

  predicate Attempted(h: seq<Row>, c: nat, u: nat, p: nat) {
    exists e :: e in h && Counts(e, c, u, p)
  }

  function Best(h: seq<Row>, c: nat, u: nat, p: nat): nat {
    if h == [] then 0
    else
      var prev, e := Best(h[..|h| - 1], c, u, p), h[|h| - 1];
      if Counts(e, c, u, p) && e.passed > prev then e.passed else prev
  }

  lemma {:induction false} BestIsMaximum(h: seq<Row>, c: nat, u: nat, p: nat)
    ensures forall e :: e in h && Counts(e, c, u, p) ==> e.passed <= Best(h, c, u, p)
    ensures Best(h, c, u, p) > 0 ==> exists e :: e in h && Counts(e, c, u, p) && e.passed == Best(h, c, u, p)
  {
    if h != [] {
      assert h == h[..|h| - 1] + [h[|h| - 1]];
      BestIsMaximum(h[..|h| - 1], c, u, p);
    }
  }

  function BestTime(h: seq<Row>, c: nat, u: nat, p: nat): nat {
    if h == [] then 0
    else
      var before, e := h[..|h| - 1], h[|h| - 1];
      if Counts(e, c, u, p) && (e.passed > Best(before, c, u, p) || Best(before, c, u, p) == 0)
      then e.timeUsed else BestTime(before, c, u, p)
  }

  function TotalPassed(h: seq<Row>, c: nat, u: nat, ps: seq<nat>): nat {
    if ps == [] then 0 else TotalPassed(h, c, u, ps[..|ps| - 1]) + Best(h, c, u, ps[|ps| - 1])
  }

  function TotalTime(h: seq<Row>, c: nat, u: nat, ps: seq<nat>): nat {
    if ps == [] then 0 else TotalTime(h, c, u, ps[..|ps| - 1]) + BestTime(h, c, u, ps[|ps| - 1])
  }

  function Composite(h: seq<Row>, c: nat, u: nat, ps: seq<nat>): Option<int> {
    if TotalPassed(h, c, u, ps) > 0
    then Some(TotalPassed(h, c, u, ps) * WEIGHT - TotalTime(h, c, u, ps)) else None
  }

  // With a positive best, the recorded time is that of the first row to reach
  // it; with best zero it is that of the latest row, although nothing passed.
  lemma {:induction false} BestTimeMeaning(h: seq<Row>, c: nat, u: nat, p: nat)
    requires Attempted(h, c, u, p)
    ensures Best(h, c, u, p) > 0 ==>
              exists i :: 0 <= i < |h| && Counts(h[i], c, u, p) && h[i].passed == Best(h, c, u, p)
                          && h[i].timeUsed == BestTime(h, c, u, p)
                          && forall j :: 0 <= j < i && Counts(h[j], c, u, p) ==> h[j].passed < h[i].passed
    ensures Best(h, c, u, p) == 0 ==>
              exists i :: 0 <= i < |h| && Counts(h[i], c, u, p) && h[i].timeUsed == BestTime(h, c, u, p)
                          && forall j :: i < j < |h| ==> !Counts(h[j], c, u, p)
  {
    var n := |h| - 1;
    var before, e := h[..n], h[n];
    assert h == before + [e];
    var prev := Best(before, c, u, p);
    BestIsMaximum(before, c, u, p);
    assert forall j :: 0 <= j < n ==> h[j] == before[j] && h[j] in before;
    if Counts(e, c, u, p) && (e.passed > prev || prev == 0) {
      assert Counts(h[n], c, u, p) && h[n].timeUsed == BestTime(h, c, u, p);
    } else {
      assert Attempted(before, c, u, p);
      BestTimeMeaning(before, c, u, p);
      assert Best(h, c, u, p) == prev;
    }
  }

  // ---- The code ----

  function OrZero(v: Option<int>): int { match v case None => 0 case Some(x) => x }

  function SumPassed(st: Store, c: nat, u: nat, ps: seq<nat>): int {
    if ps == [] then 0
    else SumPassed(st, c, u, ps[..|ps| - 1]) + OrZero(Value(st, Render(ScoreKey(c, u, ps[|ps| - 1]))))
  }

  function SumTime(st: Store, c: nat, u: nat, ps: seq<nat>): int {
    if ps == [] then 0
    else SumTime(st, c, u, ps[..|ps| - 1]) + OrZero(Value(st, Render(TimeKey(c, u, ps[|ps| - 1]))))
  }

  function PutTotals(st: Store, rankKey: string, user: string, passed: int, time: int): Store {
    if passed > 0 then ZPut(st, rankKey, passed * WEIGHT - time, user) else st
  }

  function Recompute(st: Store, c: nat, u: nat, ps: seq<nat>): Store {
    PutTotals(st, Render(RankKey(c)), Decimal(u), SumPassed(st, c, u, ps), SumTime(st, c, u, ps))
  }

  function Record(st: Store, e: Row): Store {
    Put(Put(st, Render(ScoreKey(e.contest, e.user, e.problem)), e.passed),
        Render(TimeKey(e.contest, e.user, e.problem)), e.timeUsed)
  }

  predicate Improves(st: Store, e: Row) {
    var best := OrZero(Value(st, Render(ScoreKey(e.contest, e.user, e.problem))));
    e.total != 0 && (e.passed > best || best <= 0)
  }

  function Step(st: Store, e: Row, problems: Problems): Store {
    if Improves(st, e) then Recompute(Record(st, e), e.contest, e.user, problems(e.contest)) else st
  }

  function Run(h: seq<Row>, problems: Problems): Store {
    if h == [] then EMPTY else Step(Run(h[..|h| - 1], problems), h[|h| - 1], problems)
  }

  method UpdateIOIRanking(cache: MemCache, e: Row, problems: Problems)
    modifies cache
    ensures cache.Abs() == Step(old(cache.Abs()), e, problems)
  {
    var scoreKey := Render(ScoreKey(e.contest, e.user, e.problem));
    var timeKey := Render(TimeKey(e.contest, e.user, e.problem));
    if e.total == 0 {
      return;
    }
    var bestPassed := 0;
    var stored := cache.Get(scoreKey);
    if stored.Some? {
      bestPassed := stored.value;
    }
    if e.passed <= bestPassed && bestPassed > 0 {
      return;
    }
    cache.Set(scoreKey, e.passed);
    cache.Set(timeKey, e.timeUsed);
    RecomputeIOIRank(cache, e.contest, e.user, problems(e.contest));
  }

  method RecomputeIOIRank(cache: MemCache, c: nat, u: nat, cps: seq<nat>)
    modifies cache
    ensures cache.Abs() == Recompute(old(cache.Abs()), c, u, cps)
  {
    var totalPassed, totalTimeMs := SumStored(cache, c, u, cps);
    if totalPassed > 0 {
      cache.ZAdd(Render(RankKey(c)), totalPassed * 10000000 - totalTimeMs, Decimal(u));
    }
  }

  // The loop of recomputeIOIRank.
  method SumStored(cache: MemCache, c: nat, u: nat, cps: seq<nat>) returns (totalPassed: int, totalTimeMs: int)
    ensures totalPassed == SumPassed(cache.Abs(), c, u, cps)
    ensures totalTimeMs == SumTime(cache.Abs(), c, u, cps)
  {
    totalPassed, totalTimeMs := 0, 0;
    for i := 0 to |cps|
      invariant totalPassed == SumPassed(cache.Abs(), c, u, cps[..i])
      invariant totalTimeMs == SumTime(cache.Abs(), c, u, cps[..i])
    {
      assert cps[..i + 1][..i] == cps[..i];
      var passed := cache.Get(Render(ScoreKey(c, u, cps[i])));
      if passed.Some? {
        totalPassed := totalPassed + passed.value;
      }
      var t := cache.Get(Render(TimeKey(c, u, cps[i])));
      if t.Some? {
        totalTimeMs := totalTimeMs + t.value;
      }
    }
    assert cps[..|cps|] == cps;
  }

  // ---- The stored state is exact after every sequential run ----

  ghost predicate ValuesExact(st: Store, h: seq<Row>) {
    && (forall c: nat, u: nat, p: nat ::
          Value(st, Render(ScoreKey(c, u, p))) ==
          if Attempted(h, c, u, p) then Some(Best(h, c, u, p)) else None)
    && (forall c: nat, u: nat, p: nat ::
          Value(st, Render(TimeKey(c, u, p))) ==
          if Attempted(h, c, u, p) then Some(BestTime(h, c, u, p)) else None)
  }

  ghost predicate RankExact(st: Store, h: seq<Row>, problems: Problems) {
    forall c: nat, u: nat ::
      Score(st, Render(RankKey(c)), Decimal(u)) == Composite(h, c, u, problems(c))
  }

  ghost predicate MembersAreUsers(st: Store) {
    forall c: nat, m :: m in ZsetAt(st, Render(RankKey(c))) ==> exists u: nat :: m == Decimal(u)
  }

  ghost predicate Exact(st: Store, h: seq<Row>, problems: Problems) {
    ValuesExact(st, h) && RankExact(st, h, problems) && MembersAreUsers(st)
  }

  lemma NeverAttempted(h: seq<Row>, c: nat, u: nat, p: nat)
    ensures !Attempted(h, c, u, p) ==> Best(h, c, u, p) == 0 && BestTime(h, c, u, p) == 0
  {
    if !Attempted(h, c, u, p) && h != [] {
      var before := h[..|h| - 1];
      assert forall e :: e in before ==> e in h;
      assert h[|h| - 1] in h;
      NeverAttempted(before, c, u, p);
    }
  }

  // What one row does to the reference values of one problem.
  lemma AfterRow(h: seq<Row>, e: Row, c: nat, u: nat, p: nat)
    ensures var better := Counts(e, c, u, p) && (e.passed > Best(h, c, u, p) || Best(h, c, u, p) == 0);
            && Best(h + [e], c, u, p) == (if better then e.passed else Best(h, c, u, p))
            && BestTime(h + [e], c, u, p) == (if better then e.timeUsed else BestTime(h, c, u, p))
    ensures Attempted(h + [e], c, u, p) <==> Attempted(h, c, u, p) || Counts(e, c, u, p)
  {
    assert (h + [e])[..|h|] == h;
    assert forall x :: x in h + [e] <==> x in h || x == e;
  }

  lemma ImprovesMeans(st: Store, h: seq<Row>, e: Row)
    requires ValuesExact(st, h)
    ensures Improves(st, e) <==>
            e.total != 0 && (e.passed > Best(h, e.contest, e.user, e.problem) || Best(h, e.contest, e.user, e.problem) == 0)
  {
    NeverAttempted(h, e.contest, e.user, e.problem);
    assert Value(st, Render(ScoreKey(e.contest, e.user, e.problem))) ==
           if Attempted(h, e.contest, e.user, e.problem) then Some(Best(h, e.contest, e.user, e.problem)) else None;
  }

  lemma RecordedValues(st: Store, e: Row, c: nat, u: nat, p: nat)
    ensures var same := e.contest == c && e.user == u && e.problem == p;
            && Value(Record(st, e), Render(ScoreKey(c, u, p))) ==
               (if same then Some(e.passed) else Value(st, Render(ScoreKey(c, u, p))))
            && Value(Record(st, e), Render(TimeKey(c, u, p))) ==
               (if same then Some(e.timeUsed) else Value(st, Render(TimeKey(c, u, p))))
  {
    var mine, theirs := ScoreKey(c, u, p), ScoreKey(e.contest, e.user, e.problem);
    var mineT, theirsT := TimeKey(c, u, p), TimeKey(e.contest, e.user, e.problem);
    if Render(mine) == Render(theirs) { RenderInjective(mine, theirs); }
    if Render(mineT) == Render(theirsT) { RenderInjective(mineT, theirsT); }
    if Render(mine) == Render(theirsT) { RenderInjective(mine, theirsT); }
    if Render(mineT) == Render(theirs) { RenderInjective(mineT, theirs); }
    RecordAt(st, Render(theirs), e.passed, Render(theirsT), e.timeUsed, Render(mine));
    RecordAt(st, Render(theirs), e.passed, Render(theirsT), e.timeUsed, Render(mineT));
  }

  lemma RecordAt(st: Store, k1: string, v1: int, k2: string, v2: int, k: string)
    ensures Value(Put(Put(st, k1, v1), k2, v2), k) ==
            if k == k2 then Some(v2) else if k == k1 then Some(v1) else Value(st, k)
  {
  }

  lemma RecordKeepsValues(st: Store, h: seq<Row>, e: Row)
    requires ValuesExact(st, h) && Improves(st, e)
    ensures ValuesExact(Record(st, e), h + [e])
  {
    ImprovesMeans(st, h, e);
    var after := Record(st, e);
    forall c: nat, u: nat, p: nat
      ensures Value(after, Render(ScoreKey(c, u, p))) ==
              if Attempted(h + [e], c, u, p) then Some(Best(h + [e], c, u, p)) else None
      ensures Value(after, Render(TimeKey(c, u, p))) ==
              if Attempted(h + [e], c, u, p) then Some(BestTime(h + [e], c, u, p)) else None
    {
      AfterRow(h, e, c, u, p);
      NeverAttempted(h, c, u, p);
      RecordedValues(st, e, c, u, p);
      assert Value(st, Render(ScoreKey(c, u, p))) == if Attempted(h, c, u, p) then Some(Best(h, c, u, p)) else None;
      assert Value(st, Render(TimeKey(c, u, p))) == if Attempted(h, c, u, p) then Some(BestTime(h, c, u, p)) else None;
    }
  }

  lemma StepKeepsValues(st: Store, h: seq<Row>, e: Row, problems: Problems)
    requires ValuesExact(st, h)
    ensures ValuesExact(Step(st, e, problems), h + [e])
  {
    if Improves(st, e) {
      RecordKeepsValues(st, h, e);
      SameValues(Record(st, e), Step(st, e, problems), h + [e]);
    } else {
      IdleKeepsValues(st, h, e);
    }
  }

  lemma IdleKeepsValues(st: Store, h: seq<Row>, e: Row)
    requires ValuesExact(st, h) && !Improves(st, e)
    ensures ValuesExact(st, h + [e])
  {
    ImprovesMeans(st, h, e);
    forall c: nat, u: nat, p: nat
      ensures Attempted(h + [e], c, u, p) <==> Attempted(h, c, u, p)
      ensures Best(h + [e], c, u, p) == Best(h, c, u, p) && BestTime(h + [e], c, u, p) == BestTime(h, c, u, p)
    {
      AfterRow(h, e, c, u, p);
      NeverAttempted(h, c, u, p);
    }
  }

  lemma {:induction false} SumsExact(st: Store, h: seq<Row>, c: nat, u: nat, ps: seq<nat>)
    requires ValuesExact(st, h)
    ensures SumPassed(st, c, u, ps) == TotalPassed(h, c, u, ps)
    ensures SumTime(st, c, u, ps) == TotalTime(h, c, u, ps)
  {
    if ps != [] {
      var p := ps[|ps| - 1];
      SumsExact(st, h, c, u, ps[..|ps| - 1]);
      NeverAttempted(h, c, u, p);
      assert Value(st, Render(ScoreKey(c, u, p))) == if Attempted(h, c, u, p) then Some(Best(h, c, u, p)) else None;
      assert Value(st, Render(TimeKey(c, u, p))) == if Attempted(h, c, u, p) then Some(BestTime(h, c, u, p)) else None;
    }
  }

  // A row of another user or contest, or one that improves nothing, leaves the
  // totals alone; every row leaves the total passed count no smaller.
  lemma {:induction false} TotalsAfterRow(h: seq<Row>, e: Row, c: nat, u: nat, ps: seq<nat>)
    ensures TotalPassed(h + [e], c, u, ps) >= TotalPassed(h, c, u, ps)
    ensures (e.contest != c || e.user != u || e.total == 0 ||
             (e.passed <= Best(h, c, u, e.problem) && Best(h, c, u, e.problem) > 0)) ==>
              TotalPassed(h + [e], c, u, ps) == TotalPassed(h, c, u, ps) &&
              TotalTime(h + [e], c, u, ps) == TotalTime(h, c, u, ps)
  {
    if ps != [] {
      TotalsAfterRow(h, e, c, u, ps[..|ps| - 1]);
      AfterRow(h, e, c, u, ps[|ps| - 1]);
    }
  }

  lemma EntryAfterPut(st: Store, after: Store, k: string, m: string, passed: int, time: int, key: string, member: string)
    requires after.zsets == PutTotals(st, k, m, passed, time).zsets
    ensures Score(after, key, member) ==
            if passed > 0 && k == key && m == member then Some(passed * WEIGHT - time) else Score(st, key, member)
  {
  }

  lemma StepKeepsRank(st: Store, h: seq<Row>, e: Row, problems: Problems)
    requires ValuesExact(st, h) && RankExact(st, h, problems)
    ensures RankExact(Step(st, e, problems), h + [e], problems)
  {
    ImprovesMeans(st, h, e);
    if Improves(st, e) {
      RecomputedTotals(st, h, e, problems);
      PutKeepsRank(st, Step(st, e, problems), h, e, problems);
    } else {
      IdleKeepsRank(st, h, e, problems);
    }
  }

  lemma IdleKeepsRank(st: Store, h: seq<Row>, e: Row, problems: Problems)
    requires RankExact(st, h, problems)
    requires e.total == 0 ||
             (e.passed <= Best(h, e.contest, e.user, e.problem) && Best(h, e.contest, e.user, e.problem) > 0)
    ensures RankExact(st, h + [e], problems)
  {
    forall c: nat, u: nat
      ensures Score(st, Render(RankKey(c)), Decimal(u)) == Composite(h + [e], c, u, problems(c))
    {
      SameComposite(h, e, c, u, problems(c));
      assert Score(st, Render(RankKey(c)), Decimal(u)) == Composite(h, c, u, problems(c));
    }
  }

  lemma SameComposite(h: seq<Row>, e: Row, c: nat, u: nat, ps: seq<nat>)
    requires e.total == 0 ||
             (e.passed <= Best(h, e.contest, e.user, e.problem) && Best(h, e.contest, e.user, e.problem) > 0)
    ensures Composite(h + [e], c, u, ps) == Composite(h, c, u, ps)
  {
    TotalsAfterRow(h, e, c, u, ps);
  }

  lemma PutKeepsRank(st: Store, after: Store, h: seq<Row>, e: Row, problems: Problems)
    requires RankExact(st, h, problems)
    requires after.zsets == PutTotals(st, Render(RankKey(e.contest)), Decimal(e.user),
                                      TotalPassed(h + [e], e.contest, e.user, problems(e.contest)),
                                      TotalTime(h + [e], e.contest, e.user, problems(e.contest))).zsets
    ensures RankExact(after, h + [e], problems)
  {
    forall c: nat, u: nat
      ensures Score(after, Render(RankKey(c)), Decimal(u)) == Composite(h + [e], c, u, problems(c))
    {
      assert Score(st, Render(RankKey(c)), Decimal(u)) == Composite(h, c, u, problems(c));
      SameRankEntry(e.contest, e.user, c, u);
      EntryAfterRow(st, after, h, e, problems(e.contest), Render(RankKey(e.contest)), Decimal(e.user),
                    c, u, problems(c), Render(RankKey(c)), Decimal(u));
    }
  }

  lemma EntryAfterRow(st: Store, after: Store, h: seq<Row>, e: Row, ps: seq<nat>, k: string, m: string,
                      c: nat, u: nat, qs: seq<nat>, key: string, member: string)
    requires k == key && m == member <==> e.contest == c && e.user == u
    requires e.contest == c ==> ps == qs
    requires Score(st, key, member) == Composite(h, c, u, qs)
    requires after.zsets == PutTotals(st, k, m, TotalPassed(h + [e], e.contest, e.user, ps),
                                      TotalTime(h + [e], e.contest, e.user, ps)).zsets
    ensures Score(after, key, member) == Composite(h + [e], c, u, qs)
  {
    TotalsAfterRow(h, e, c, u, qs);
    EntryAfterPut(st, after, k, m, TotalPassed(h + [e], e.contest, e.user, ps),
                  TotalTime(h + [e], e.contest, e.user, ps), key, member);
  }

  lemma RecomputedTotals(st: Store, h: seq<Row>, e: Row, problems: Problems)
    requires ValuesExact(st, h) && Improves(st, e)
    ensures Step(st, e, problems).zsets ==
            PutTotals(st, Render(RankKey(e.contest)), Decimal(e.user),
                      TotalPassed(h + [e], e.contest, e.user, problems(e.contest)),
                      TotalTime(h + [e], e.contest, e.user, problems(e.contest))).zsets
  {
    RecordKeepsValues(st, h, e);
    RecomputedFrom(st, Record(st, e), h + [e], e.contest, e.user, problems(e.contest));
  }

  lemma RecomputedFrom(st: Store, recorded: Store, h: seq<Row>, c: nat, u: nat, ps: seq<nat>)
    requires ValuesExact(recorded, h) && recorded.zsets == st.zsets
    ensures Recompute(recorded, c, u, ps).zsets ==
            PutTotals(st, Render(RankKey(c)), Decimal(u), TotalPassed(h, c, u, ps), TotalTime(h, c, u, ps)).zsets
  {
    SumsExact(recorded, h, c, u, ps);
    SamePut(st, recorded, Render(RankKey(c)), Decimal(u), TotalPassed(h, c, u, ps), TotalTime(h, c, u, ps));
  }

  lemma SamePut(st: Store, st2: Store, key: string, member: string, passed: int, time: int)
    requires st.zsets == st2.zsets
    ensures PutTotals(st, key, member, passed, time).zsets == PutTotals(st2, key, member, passed, time).zsets
  {
  }

  lemma StepKeepsMembers(st: Store, e: Row, problems: Problems)
    requires MembersAreUsers(st)
    ensures MembersAreUsers(Step(st, e, problems))
  {
    var after := Step(st, e, problems);
    forall c: nat, m | m in ZsetAt(after, Render(RankKey(c)))
      ensures exists u: nat :: m == Decimal(u)
    {
      assert m in ZsetAt(st, Render(RankKey(c))) || m == Decimal(e.user);
    }
  }

  lemma SameValues(st: Store, st2: Store, h: seq<Row>)
    requires st.values == st2.values && ValuesExact(st, h)
    ensures ValuesExact(st2, h)
  {
    forall c: nat, u: nat, p: nat
      ensures Value(st2, Render(ScoreKey(c, u, p))) == Value(st, Render(ScoreKey(c, u, p)))
      ensures Value(st2, Render(TimeKey(c, u, p))) == Value(st, Render(TimeKey(c, u, p)))
    {}
  }

  lemma {:induction false} RunIsExact(h: seq<Row>, problems: Problems)
    ensures Exact(Run(h, problems), h, problems)
  {
    if h == [] {
      EmptyIsExact(problems);
    } else {
      var before, e := h[..|h| - 1], h[|h| - 1];
      assert h == before + [e];
      RunIsExact(before, problems);
      StepKeepsValues(Run(before, problems), before, e, problems);
      StepKeepsRank(Run(before, problems), before, e, problems);
      StepKeepsMembers(Run(before, problems), e, problems);
    }
  }

  lemma EmptyIsExact(problems: Problems)
    ensures Exact(EMPTY, [], problems)
  {
    forall c: nat, u: nat ensures Composite([], c, u, problems(c)) == None {
      EmptyTotals(c, u, problems(c));
    }
  }

  lemma {:induction false} EmptyTotals(c: nat, u: nat, ps: seq<nat>)
    ensures TotalPassed([], c, u, ps) == 0
  {
    if ps != [] {
      EmptyTotals(c, u, ps[..|ps| - 1]);
    }
  }

  // ---- Reading the composite back ----

  function ShownPassed(score: int): int { TruncDiv(score, WEIGHT) }

  function ShownTime(score: int): int {
    var r := TruncMod(score, WEIGHT);
    if r < 0 then 0 else r
  }

  // The display is right exactly when the total time is zero.
  lemma ShownExactlyWhen(passed: int, time: nat)
    requires passed >= 1
    ensures var score := passed * WEIGHT - time;
            ShownPassed(score) == passed && ShownTime(score) == time <==> time == 0
  {
    if time == 0 {
      assert passed * WEIGHT / WEIGHT == passed;
    }
  }

  // Rounding up, as the ACM branch does, would be right below 10,000,000.
  lemma CeilingExactlyWhen(passed: int, time: nat)
    requires passed >= 1
    ensures var score := passed * WEIGHT - time;
            var p := TruncDiv(score + (WEIGHT - 1), WEIGHT);
            p == passed && p * WEIGHT - score == time <==> time < WEIGHT
  {
    var shifted := passed * WEIGHT - time + (WEIGHT - 1);
    if time < WEIGHT {
      assert shifted / WEIGHT == passed;
    } else if shifted >= 0 {
      assert shifted / WEIGHT < passed;
    }
  }

  // For times in range the display shows one problem point too few and the
  // complement of the time.
  lemma ShownOtherwise(passed: int, time: int)
    requires passed >= 1 && 0 < time < WEIGHT
    ensures ShownPassed(passed * WEIGHT - time) == passed - 1
    ensures ShownTime(passed * WEIGHT - time) == WEIGHT - time
  {
    var score := passed * WEIGHT - time;
    assert score == (passed - 1) * WEIGHT + (WEIGHT - time);
    assert score / WEIGHT == passed - 1;
  }
}

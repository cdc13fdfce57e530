// ACM (ICPC) contest ranking. The cache keeps one composite number per user,
// solved * 1,000,000 - penalty, and every update decodes and re-encodes it.
module AcmRanking {
  import opened Text
  import opened RankStore

  // One judged submission. Instants are in nanoseconds.
  datatype Judged = Judged(contest: nat, user: nat, problem: nat, status: string, createdAt: int, startTime: int)

  const SECOND := 1_000_000_000
  const UNIT := 1_000_000
  const MAX_PENALTY := 999_999
  const REJECT_SECONDS := 20 * 60

  // Integer division and remainder of Go, which truncate toward zero.
  function TruncDiv(a: int, b: int): int
    requires b > 0
  {
    if a >= 0 then a / b else -((-a) / b)
  }

  function TruncMod(a: int, b: int): int
    requires b > 0
  {
    a - b * TruncDiv(a, b)
  }

  // ---- Reference: a fold over the submission history ----

  predicate Accepted(e: Judged) { e.status == "Accepted" }

  // The problems u has solved in contest c.
  function Solved(h: seq<Judged>, c: nat, u: nat): set<nat> {
    set e | e in h && e.contest == c && e.user == u && Accepted(e) :: e.problem
  }

  function Rejections(h: seq<Judged>, c: nat, u: nat, p: nat): nat {
    if h == [] then 0
    else
      var e := h[|h| - 1];
      Rejections(h[..|h| - 1], c, u, p) +
      if e.contest == c && e.user == u && e.problem == p && !Accepted(e) then 1 else 0
  }

  function Elapsed(e: Judged): nat {
    if e.createdAt <= e.startTime then 0 else (e.createdAt - e.startTime) / SECOND
  }

  // It is the number of whole seconds from the start to the submission, and
  // none for a submission before the start.
  lemma ElapsedIsWholeSeconds(e: Judged)
    ensures e.createdAt <= e.startTime ==> Elapsed(e) == 0
    ensures e.createdAt >= e.startTime ==>
              e.startTime + Elapsed(e) * 1_000_000_000 <= e.createdAt < e.startTime + (Elapsed(e) + 1) * 1_000_000_000
  {
  }

  // The first accepted submission of each problem costs its contest time plus
  // twenty minutes for every rejection of that problem before it.
  function Penalty(h: seq<Judged>, c: nat, u: nat): nat {
    if h == [] then 0
    else
      var before, e := h[..|h| - 1], h[|h| - 1];
      Penalty(before, c, u) +
      if e.contest == c && e.user == u && Accepted(e) && e.problem !in Solved(before, c, u)
      then Elapsed(e) + REJECT_SECONDS * Rejections(before, c, u, e.problem)
      else 0
  }

  // The users with at least one solved problem.
  function Ranked(h: seq<Judged>, c: nat): set<nat> {
    set e | e in h && e.contest == c && Accepted(e) :: e.user
  }

  // ---- The code ----

  function SolvedOf(score: int): int { TruncDiv(score + 999999, UNIT) }

  function PenaltyOf(score: int): int { SolvedOf(score) * UNIT - score }

  function Step(st: Store, e: Judged): Store {
    StepAt(st, e, Render(WrongKey(e.contest)), Render(SolvedKey(e.contest, e.user)), Render(RankKey(e.contest)))
  }

  function StepAt(st: Store, e: Judged, wrongKey: string, solvedKey: string, rankKey: string): Store {
    var wrongField, problem := PairKey(e.user, e.problem), Decimal(e.problem);
    if !Accepted(e) then HIncr(st, wrongKey, wrongField, 1)
    else if Field(st, solvedKey, problem).Some? then st
    else
      var marked := HIncr(st, solvedKey, problem, 1);
      var penalty := Elapsed(e) + Count(marked, wrongKey, wrongField) * 20 * 60;
      Credit(marked, rankKey, Decimal(e.user), penalty)
  }

  // One more solved problem with the given penalty for a ranking member.
  function Credit(st: Store, rankKey: string, user: string, penalty: int): Store {
    var score := match Score(st, rankKey, user)
      case None => UNIT - penalty
      case Some(prev) => (SolvedOf(prev) + 1) * UNIT - (PenaltyOf(prev) + penalty);
    ZPut(st, rankKey, score, user)
  }

  function Run(h: seq<Judged>): Store {
    if h == [] then EMPTY else Step(Run(h[..|h| - 1]), h[|h| - 1])
  }

  // The scan of the whole ranking for the user's own entry.
  method PreviousTotals(members: seq<ZMember>, userStr: string, ghost zset: map<string, int>)
    returns (prevSolved: int, prevPenalty: int)
    requires Enumerates(zset, members)
    ensures userStr !in zset ==> prevSolved == prevPenalty == 0
    ensures userStr in zset ==>
              prevSolved == SolvedOf(zset[userStr]) && prevPenalty == PenaltyOf(zset[userStr])
  {
    EnumerationFacts(zset, members);
    assert userStr in zset ==> ZMember(userStr, zset[userStr]) in members;
    prevSolved, prevPenalty := 0, 0;
    for i := 0 to |members|
      invariant forall j :: 0 <= j < i ==> members[j].member != userStr
      invariant prevSolved == prevPenalty == 0
    {
      if members[i].member == userStr {
        assert members[i] in members;
        prevSolved := TruncDiv(members[i].score + 999999, 1000000);
        prevPenalty := prevSolved * 1000000 - members[i].score;
        return;
      }
    }
  }

  method UpdateACMRanking(cache: MemCache, e: Judged)
    modifies cache
    ensures cache.Abs() == Step(old(cache.Abs()), e)
  {
    var wrongKey := Render(WrongKey(e.contest));
    var solvedKey := Render(SolvedKey(e.contest, e.user));
    var rankKey := Render(RankKey(e.contest));
    UpdateAt(cache, e, wrongKey, solvedKey, rankKey);
  }

  // The body of updateACMRanking under given keys.
  method UpdateAt(cache: MemCache, e: Judged, wrongKey: string, solvedKey: string, rankKey: string)
    modifies cache
    ensures cache.Abs() == StepAt(old(cache.Abs()), e, wrongKey, solvedKey, rankKey)
  {
    var wrongField := PairKey(e.user, e.problem);
    if e.status != "Accepted" {
      var _ := cache.HIncrBy(wrongKey, wrongField, 1);
      return;
    }

    var problemStr := Decimal(e.problem);
    var exists_ := cache.HGet(solvedKey, problemStr);
    if exists_.Some? {
      return;
    }
    var _ := cache.HIncrBy(solvedKey, problemStr, 1);

    var wrong := cache.HGet(wrongKey, wrongField);
    var wrongCount := if wrong.Some? then wrong.value else 0;
    var solveTime := TruncDiv(e.createdAt - e.startTime, SECOND);
    if solveTime < 0 {
      solveTime := 0;
    }
    var penalty := solveTime + wrongCount * 20 * 60;

    CreditUser(cache, rankKey, Decimal(e.user), penalty);
  }

  method CreditUser(cache: MemCache, rankKey: string, userStr: string, penalty: int)
    modifies cache
    ensures cache.Abs() == Credit(old(cache.Abs()), rankKey, userStr, penalty)
  {
    var members := cache.ZRevRangeWithScores(rankKey, 0, -1);
    WholeRange(ZsetAt(cache.Abs(), rankKey), members);
    var prevSolved, prevPenalty := PreviousTotals(members, userStr, ZsetAt(cache.Abs(), rankKey));
    var totalSolved := prevSolved + 1;
    var totalPenalty := prevPenalty + penalty;
    cache.ZAdd(rankKey, totalSolved * 1000000 - totalPenalty, userStr);
  }

  // ---- The stored state is exact after every history, without any bound ----

  ghost predicate WrongExact(st: Store, h: seq<Judged>) {
    forall c: nat, u: nat, p: nat ::
      Count(st, Render(WrongKey(c)), PairKey(u, p)) == Rejections(h, c, u, p)
  }

  ghost predicate SolvedExact(st: Store, h: seq<Judged>) {
    forall c: nat, u: nat, p: nat ::
      Field(st, Render(SolvedKey(c, u)), Decimal(p)).Some? <==> p in Solved(h, c, u)
  }

  function Composite(h: seq<Judged>, c: nat, u: nat): Option<int> {
    if Solved(h, c, u) == {} then None else Some(|Solved(h, c, u)| * UNIT - Penalty(h, c, u))
  }

  ghost predicate ScoreExact(st: Store, h: seq<Judged>) {
    forall c: nat, u: nat :: Score(st, Render(RankKey(c)), Decimal(u)) == Composite(h, c, u)
  }

  ghost predicate MembersAreUsers(st: Store, h: seq<Judged>) {
    forall c: nat, m :: m in ZsetAt(st, Render(RankKey(c))) ==>
      exists u :: u in Ranked(h, c) && m == Decimal(u)
  }

  ghost predicate Exact(st: Store, h: seq<Judged>) {
    WrongExact(st, h) && SolvedExact(st, h) && ScoreExact(st, h) && MembersAreUsers(st, h)
  }

  lemma SolvedAfter(h: seq<Judged>, e: Judged, c: nat, u: nat)
    ensures Solved(h + [e], c, u) ==
            Solved(h, c, u) + if e.contest == c && e.user == u && Accepted(e) then {e.problem} else {}
  {
    assert forall x :: x in h + [e] <==> x in h || x == e;
  }

  lemma RankedAfter(h: seq<Judged>, e: Judged, c: nat)
    ensures Ranked(h + [e], c) == Ranked(h, c) + if e.contest == c && Accepted(e) then {e.user} else {}
  {
    assert forall x :: x in h + [e] <==> x in h || x == e;
  }

  lemma StepKeepsWrong(st: Store, h: seq<Judged>, e: Judged)
    requires WrongExact(st, h)
    ensures WrongExact(Step(st, e), h + [e])
  {
    assert (h + [e])[..|h|] == h;
    forall c: nat, u: nat, p: nat
      ensures Count(Step(st, e), Render(WrongKey(c)), PairKey(u, p)) == Rejections(h + [e], c, u, p)
    {
      if Render(WrongKey(c)) == Render(WrongKey(e.contest)) {
        RenderInjective(WrongKey(c), WrongKey(e.contest));
        if PairKey(u, p) == PairKey(e.user, e.problem) {
          PairKeyInjective(u, p, e.user, e.problem);
        }
      }
      if Render(WrongKey(c)) == Render(SolvedKey(e.contest, e.user)) {
        RenderInjective(WrongKey(c), SolvedKey(e.contest, e.user));
      }
      assert Count(st, Render(WrongKey(c)), PairKey(u, p)) == Rejections(h, c, u, p);
    }
  }

  lemma StepKeepsSolved(st: Store, h: seq<Judged>, e: Judged)
    requires SolvedExact(st, h)
    ensures SolvedExact(Step(st, e), h + [e])
  {
    forall c: nat, u: nat, p: nat
      ensures Field(Step(st, e), Render(SolvedKey(c, u)), Decimal(p)).Some? <==> p in Solved(h + [e], c, u)
    {
      SolvedAfter(h, e, c, u);
      if Render(SolvedKey(c, u)) == Render(SolvedKey(e.contest, e.user)) {
        RenderInjective(SolvedKey(c, u), SolvedKey(e.contest, e.user));
        if Decimal(p) == Decimal(e.problem) {
          DecimalInjective(p, e.problem);
        }
      }
      if Render(SolvedKey(c, u)) == Render(WrongKey(e.contest)) {
        RenderInjective(SolvedKey(c, u), WrongKey(e.contest));
      }
      assert Field(st, Render(SolvedKey(c, u)), Decimal(p)).Some? <==> p in Solved(h, c, u);
      SolvedFieldAfter(st, e, Render(WrongKey(e.contest)), Render(SolvedKey(e.contest, e.user)), Render(RankKey(e.contest)),
                       Render(SolvedKey(c, u)), Decimal(p));
    }
  }

  lemma SolvedFieldAfter(st: Store, e: Judged, wrongKey: string, solvedKey: string, rankKey: string, key: string, field: string)
    requires key != wrongKey
    ensures Field(StepAt(st, e, wrongKey, solvedKey, rankKey), key, field).Some? <==>
            Field(st, key, field).Some? || (Accepted(e) && key == solvedKey && field == Decimal(e.problem))
  {
  }

  // The penalty that e adds, when e is the user's first accept of its problem.
  function Gain(h: seq<Judged>, e: Judged): Option<nat> {
    if Accepted(e) && e.problem !in Solved(h, e.contest, e.user)
    then Some(Elapsed(e) + REJECT_SECONDS * Rejections(h, e.contest, e.user, e.problem))
    else None
  }

  lemma StepRanks(st: Store, h: seq<Judged>, e: Judged)
    requires WrongExact(st, h) && SolvedExact(st, h)
    ensures Step(st, e).zsets == match Gain(h, e)
      case None => st.zsets
      case Some(cost) => Credit(st, Render(RankKey(e.contest)), Decimal(e.user), cost).zsets
  {
    var wrongKey, solvedKey := Render(WrongKey(e.contest)), Render(SolvedKey(e.contest, e.user));
    if wrongKey == solvedKey {
      RenderInjective(WrongKey(e.contest), SolvedKey(e.contest, e.user));
    }
    StepAtRanks(st, h, e, wrongKey, solvedKey, Render(RankKey(e.contest)));
  }

  lemma StepAtRanks(st: Store, h: seq<Judged>, e: Judged, wrongKey: string, solvedKey: string, rankKey: string)
    requires wrongKey != solvedKey
    requires Field(st, solvedKey, Decimal(e.problem)).Some? <==> e.problem in Solved(h, e.contest, e.user)
    requires Count(st, wrongKey, PairKey(e.user, e.problem)) == Rejections(h, e.contest, e.user, e.problem)
    ensures StepAt(st, e, wrongKey, solvedKey, rankKey).zsets == match Gain(h, e)
      case None => st.zsets
      case Some(cost) => Credit(st, rankKey, Decimal(e.user), cost).zsets
  {
  }

  function Base(score: Option<int>): int {
    match score case None => 0 case Some(prev) => prev
  }

  lemma StepKeepsScore(st: Store, h: seq<Judged>, e: Judged)
    requires Exact(st, h)
    ensures ScoreExact(Step(st, e), h + [e])
  {
    StepRanks(st, h, e);
    GainKeepsScore(st, Step(st, e), h, e);
  }

  lemma GainKeepsScore(st: Store, after: Store, h: seq<Judged>, e: Judged)
    requires ScoreExact(st, h)
    requires after.zsets == match Gain(h, e)
      case None => st.zsets
      case Some(cost) => Credit(st, Render(RankKey(e.contest)), Decimal(e.user), cost).zsets
    ensures ScoreExact(after, h + [e])
  {
    forall c: nat, u: nat
      ensures Score(after, Render(RankKey(c)), Decimal(u)) == Composite(h + [e], c, u)
    {
      CompositeAfter(h, e, c, u);
      SameRankEntry(c, u, e.contest, e.user);
      assert Score(st, Render(RankKey(c)), Decimal(u)) == Composite(h, c, u);
      assert Score(st, Render(RankKey(e.contest)), Decimal(e.user)) == Composite(h, e.contest, e.user);
      RankEntryAfter(st, after, Gain(h, e), Render(RankKey(e.contest)), Decimal(e.user), Render(RankKey(c)), Decimal(u));
    }
  }

  // The rounding in the decode cancels: whatever SolvedOf returns, re-encoding
  // moves the composite by one unit minus the new penalty.
  lemma RankEntryAfter(st: Store, after: Store, gain: Option<nat>, rankKey: string, user: string, key: string, member: string)
    requires after.zsets == match gain case None => st.zsets case Some(cost) => Credit(st, rankKey, user, cost).zsets
    ensures Score(after, key, member) ==
            if gain.Some? && key == rankKey && member == user
            then Some(Base(Score(st, rankKey, user)) + UNIT - gain.value)
            else Score(st, key, member)
  {
  }

  lemma SameRankEntry(c: nat, u: nat, d: nat, v: nat)
    ensures Render(RankKey(c)) == Render(RankKey(d)) && Decimal(u) == Decimal(v) <==> c == d && u == v
  {
    if Render(RankKey(c)) == Render(RankKey(d)) && Decimal(u) == Decimal(v) {
      RenderInjective(RankKey(c), RankKey(d));
      DecimalInjective(u, v);
    }
  }

  lemma PenaltyAfter(h: seq<Judged>, e: Judged, c: nat, u: nat)
    ensures Penalty(h + [e], c, u) == Penalty(h, c, u) +
            if e.contest == c && e.user == u && Gain(h, e).Some? then Gain(h, e).value else 0
  {
    assert (h + [e])[..|h|] == h;
  }

  lemma SolvedCountAfter(h: seq<Judged>, e: Judged, c: nat, u: nat)
    ensures |Solved(h + [e], c, u)| == |Solved(h, c, u)| +
            if e.contest == c && e.user == u && Gain(h, e).Some? then 1 else 0
  {
    var s, t := Solved(h, c, u), Solved(h + [e], c, u);
    SolvedAfter(h, e, c, u);
    if e.contest == c && e.user == u && Gain(h, e).Some? {
      assert t == s + {e.problem} && e.problem !in s;
    } else {
      assert t == s;
    }
  }

  // How one event moves the reference composite of a user.
  lemma CompositeAfter(h: seq<Judged>, e: Judged, c: nat, u: nat)
    ensures Composite(h + [e], c, u) ==
            if e.contest == c && e.user == u && Gain(h, e).Some?
            then Some(Base(Composite(h, c, u)) + UNIT - Gain(h, e).value)
            else Composite(h, c, u)
  {
    SolvedCountAfter(h, e, c, u);
    PenaltyAfter(h, e, c, u);
    assert forall s: set<nat> :: s == {} <==> |s| == 0;
    if Solved(h, c, u) == {} {
      NothingSolvedNoPenalty(h, c, u);
    }
  }

  lemma {:induction false} NothingSolvedNoPenalty(h: seq<Judged>, c: nat, u: nat)
    requires Solved(h, c, u) == {}
    ensures Penalty(h, c, u) == 0
  {
    if h != [] {
      var before, e := h[..|h| - 1], h[|h| - 1];
      assert h == before + [e];
      SolvedAfter(before, e, c, u);
      assert e.contest == c && e.user == u && Accepted(e) ==> e.problem in Solved(h, c, u);
      NothingSolvedNoPenalty(before, c, u);
    }
  }

  lemma StepKeepsMembers(st: Store, h: seq<Judged>, e: Judged)
    requires MembersAreUsers(st, h)
    ensures MembersAreUsers(Step(st, e), h + [e])
  {
    forall c: nat, m | m in ZsetAt(Step(st, e), Render(RankKey(c)))
      ensures exists u :: u in Ranked(h + [e], c) && m == Decimal(u)
    {
      RankedAfter(h, e, c);
      if m in ZsetAt(st, Render(RankKey(c))) {
        var u :| u in Ranked(h, c) && m == Decimal(u);
        assert u in Ranked(h + [e], c);
      } else {
        RenderInjective(RankKey(c), RankKey(e.contest));
        assert m == Decimal(e.user) && e.user in Ranked(h + [e], c);
      }
    }
  }

  lemma {:induction false} RunIsExact(h: seq<Judged>)
    ensures Exact(Run(h), h)
  {
    if h == [] {
      forall c: nat, u: nat ensures Solved(h, c, u) == {} {}
    } else {
      var before, e := h[..|h| - 1], h[|h| - 1];
      assert h == before + [e];
      RunIsExact(before);
      StepKeepsWrong(Run(before), before, e);
      StepKeepsSolved(Run(before), before, e);
      StepKeepsScore(Run(before), before, e);
      StepKeepsMembers(Run(before), before, e);
    }
  }

  // ---- When the composite can be read back ----

  // Ceiling decoding recovers the pair exactly up to 999,999 penalty seconds.
  lemma DecodeExactlyWhen(solved: int, penalty: nat)
    requires solved >= 1
    ensures var score := solved * UNIT - penalty;
            SolvedOf(score) == solved && PenaltyOf(score) == penalty <==> penalty <= MAX_PENALTY
  {
    var shifted := solved * UNIT - penalty + 999999;
    if penalty <= MAX_PENALTY {
      assert shifted / UNIT == solved;
    } else if shifted >= 0 {
      assert shifted / UNIT < solved;
    }
  }

  // The clamp "if penalty < 0" in the display never applies.
  lemma DecodedPenaltyNonNegative(score: int)
    ensures PenaltyOf(score) >= 0
  {
    var shifted := score + 999999;
    if shifted >= 0 {
      assert shifted / UNIT * UNIT >= shifted - 999999;
    } else {
      assert (-shifted) / UNIT * UNIT <= -shifted;
    }
  }

  // Within the bound, composites compare as (solved descending, penalty ascending).
  predicate NotWorse(s1: int, p1: int, s2: int, p2: int) {
    s1 > s2 || (s1 == s2 && p1 <= p2)
  }

  lemma CompositeOrder(s1: int, p1: nat, s2: int, p2: nat)
    requires p1 <= MAX_PENALTY && p2 <= MAX_PENALTY
    ensures s1 * UNIT - p1 >= s2 * UNIT - p2 <==> NotWorse(s1, p1, s2, p2)
  {
  }
}

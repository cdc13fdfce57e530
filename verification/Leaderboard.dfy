// The leaderboard endpoint: the top 50 members of the ranking, decoded.
module Leaderboard {
  import opened Text
  import opened RankStore
  import Acm = AcmRanking
  import Ioi = IoiRanking

  // main is the solved count (ACM) or the passed count (IOI).
  datatype Entry = Entry(rank: nat, user: nat, main: int, penalty: int)

  const SHOWN := 50

  function Decode(ioi: bool, rank: nat, user: nat, score: int): Entry {
    if ioi then Entry(rank, user, Ioi.ShownPassed(score), Ioi.ShownTime(score))
    else Entry(rank, user, Acm.SolvedOf(score), Acm.PenaltyOf(score))
  }

  // Members that are not numbers are skipped but still use up a rank.
  function Entries(members: seq<ZMember>, ioi: bool): seq<Entry> {
    if members == [] then []
    else
      var m := members[|members| - 1];
      Entries(members[..|members| - 1], ioi) +
      match ParseUint(m.member)
      case None => []
      case Some(user) => [Decode(ioi, |members|, user, m.score)]
  }

  // board is what the endpoint may answer for a sorted set.
  ghost predicate IsBoard(zset: map<string, int>, ioi: bool, board: seq<Entry>) {
    exists full :: Enumerates(zset, full) && Descending(full) && board == Entries(Slice(full, 0, 49), ioi)
  }

  method GetLeaderboard(cache: MemCache, contest: nat, ioi: bool) returns (board: seq<Entry>)
    ensures IsBoard(ZsetAt(cache.Abs(), Render(RankKey(contest))), ioi, board)
  {
    var entries := cache.ZRevRangeWithScores(Render(RankKey(contest)), 0, 49);
    board := [];
    for i := 0 to |entries|
      invariant board == Entries(entries[..i], ioi)
    {
      assert entries[..i + 1][..i] == entries[..i];
      var uid := ParseUint(entries[i].member);
      if uid.None? {
        continue;
      }
      var entry := Decoded(ioi, i + 1, uid.value, entries[i].score);
      board := board + [entry];
    }
    assert entries[..|entries|] == entries;
  }

  // The two branches that build one row.
  method Decoded(ioi: bool, rank: nat, user: nat, score: int) returns (entry: Entry)
    ensures entry == Decode(ioi, rank, user, score)
  {
    if ioi {
      var shown := Acm.TruncDiv(score, 10000000);
      var penalty := Acm.TruncMod(score, 10000000);
      if penalty < 0 {
        penalty := 0;
      }
      entry := Entry(rank, user, shown, penalty);
    } else {
      var solved := Acm.TruncDiv(score + 999999, 1000000);
      var penalty := solved * 1000000 - score;
      Acm.DecodedPenaltyNonNegative(score);
      if penalty < 0 {
        penalty := 0;
      }
      entry := Entry(rank, user, solved, penalty);
    }
  }

  // board shows the best min(50, |scores|) users, best score first, each once,
  // and no user left out has a better score than a listed one.
  ghost predicate TopOf(scores: map<nat, int>, ioi: bool, board: seq<Entry>) {
    && |board| == (if |scores| < SHOWN then |scores| else SHOWN)
    && Rows(scores, ioi, board)
    && (forall i, j :: 0 <= i < j < |board| ==> board[i].user != board[j].user)
    && (forall i, j :: 0 <= i < j < |board| ==> scores[board[i].user] >= scores[board[j].user])
    && (forall u, i :: u in scores && 0 <= i < |board| && (forall k :: 0 <= k < |board| ==> board[k].user != u)
          ==> scores[board[i].user] >= scores[u])
  }

  // Every row decodes its user's score, ranked by position.
  ghost predicate Rows(scores: map<nat, int>, ioi: bool, board: seq<Entry>) {
    forall i :: 0 <= i < |board| ==>
      board[i].user in scores && board[i] == Decode(ioi, i + 1, board[i].user, scores[board[i].user])
  }

  // The sorted set holds exactly these users under their decimal names.
  ghost predicate Holds(zset: map<string, int>, scores: map<nat, int>) {
    && (forall u :: u in scores ==> Decimal(u) in zset && zset[Decimal(u)] == scores[u])
    && (forall m :: m in zset ==> exists u :: u in scores && m == Decimal(u))
  }

  lemma {:induction false} NameCount(users: set<nat>, names: set<string>)
    requires names == set u | u in users :: Decimal(u)
    ensures |names| == |users|
  {
    if users != {} {
      var u :| u in users;
      var rest := users - {u};
      var restNames := set v | v in rest :: Decimal(v);
      assert Decimal(u) !in restNames by {
        forall v | v in rest && Decimal(v) == Decimal(u) ensures false { DecimalInjective(v, u); }
      }
      assert names == restNames + {Decimal(u)} by {
        assert forall v :: v in users <==> v in rest || v == u;
      }
      NameCount(rest, restNames);
    }
  }

  lemma HeldCount(zset: map<string, int>, scores: map<nat, int>)
    requires Holds(zset, scores)
    ensures |zset| == |scores|
  {
    assert zset.Keys == set u | u in scores.Keys :: Decimal(u);
    NameCount(scores.Keys, zset.Keys);
  }

  lemma {:induction false} EntriesDecode(members: seq<ZMember>, users: seq<nat>, ioi: bool)
    requires |users| == |members|
    requires forall i :: 0 <= i < |members| ==> members[i].member == Decimal(users[i])
    ensures |Entries(members, ioi)| == |members|
    ensures forall i :: 0 <= i < |members| ==>
              Entries(members, ioi)[i] == Decode(ioi, i + 1, users[i], members[i].score)
  {
    if members != [] {
      var n := |members| - 1;
      EntriesDecode(members[..n], users[..n], ioi);
      ParseOfDecimal(users[n]);
    }
  }

  // The users the listed members stand for.
  ghost function UsersOf(top: seq<ZMember>, scores: map<nat, int>): (users: seq<nat>)
    requires forall z :: z in top ==> exists u :: u in scores && z.member == Decimal(u)
    ensures |users| == |top|
    ensures forall i :: 0 <= i < |top| ==> users[i] in scores && top[i].member == Decimal(users[i])
  {
    if top == [] then []
    else
      assert top[0] in top;
      var u :| u in scores && top[0].member == Decimal(u);
      [u] + UsersOf(top[1..], scores)
  }

  // Whatever the order of equal scores, every possible board is a top 50.
  lemma BoardShowsTop(zset: map<string, int>, scores: map<nat, int>, ioi: bool, board: seq<Entry>)
    requires Holds(zset, scores) && IsBoard(zset, ioi, board)
    ensures TopOf(scores, ioi, board)
  {
    var full :| Enumerates(zset, full) && Descending(full) && board == Entries(Slice(full, 0, 49), ioi);
    ListShowsTop(zset, scores, full, ioi);
  }

  lemma ListShowsTop(zset: map<string, int>, scores: map<nat, int>, full: seq<ZMember>, ioi: bool)
    requires Holds(zset, scores)
    requires Enumerates(zset, full) && Descending(full)
    ensures TopOf(scores, ioi, Entries(Slice(full, 0, 49), ioi))
  {
    EnumerationFacts(zset, full);
    HeldCount(zset, scores);
    var top := Slice(full, 0, 49);
    TopOfFull(full);
    forall z | z in top ensures exists u :: u in scores && z.member == Decimal(u) {
      assert z in full && z.member in zset;
    }
    var users := UsersOf(top, scores);
    EntriesDecode(top, users, ioi);
    ListedAreTop(zset, scores, full, top, users, Entries(top, ioi), ioi);
  }

  lemma TopOfFull(full: seq<ZMember>)
    ensures var top := Slice(full, 0, 49);
            && |top| == (if |full| < SHOWN then |full| else SHOWN)
            && forall i :: 0 <= i < |top| ==> top[i] == full[i] && full[i] in full
  {
  }

  lemma ListedAreTop(zset: map<string, int>, scores: map<nat, int>, full: seq<ZMember>,
                     top: seq<ZMember>, users: seq<nat>, board: seq<Entry>, ioi: bool)
    requires Holds(zset, scores) && |full| == |scores|
    requires forall z :: z in full <==> z.member in zset && zset[z.member] == z.score
    requires forall i, j :: 0 <= i < j < |full| ==> full[i].member != full[j].member
    requires Descending(full)
    requires |top| == |users| == |board| == if |full| < SHOWN then |full| else SHOWN
    requires forall i :: 0 <= i < |top| ==> top[i] == full[i] && full[i] in full
    requires forall i :: 0 <= i < |top| ==> users[i] in scores && top[i].member == Decimal(users[i])
    requires forall i :: 0 <= i < |top| ==> board[i] == Decode(ioi, i + 1, users[i], top[i].score)
    ensures TopOf(scores, ioi, board)
  {
    forall i | 0 <= i < |users| ensures full[i].member == Decimal(users[i]) && full[i].score == scores[users[i]] {
      assert top[i] == full[i] && top[i] in full;
    }
    forall u | u in scores && u !in users ensures exists k :: |users| <= k < |full| && full[k].score == scores[u] {
      assert forall i :: 0 <= i < |users| ==> users[i] in users;
      OmittedIsLater(zset, scores, full, users, u);
    }
    forall i | 0 <= i < |board| ensures board[i].user == users[i] {
      DecodeUser(ioi, i + 1, users[i], top[i].score);
    }
    UsersAreTop(scores, full, users);
    ListedUsersAreTop(scores, users, board, ioi);
  }

  lemma DecodeUser(ioi: bool, rank: nat, user: nat, score: int)
    ensures Decode(ioi, rank, user, score).user == user
  {
  }

  lemma ListedUsersAreTop(scores: map<nat, int>, users: seq<nat>, board: seq<Entry>, ioi: bool)
    requires |users| == |board| == if |scores| < SHOWN then |scores| else SHOWN
    requires forall i :: 0 <= i < |users| ==> users[i] in scores
    requires forall i, j :: 0 <= i < j < |users| ==> users[i] != users[j] && scores[users[i]] >= scores[users[j]]
    requires forall u, i :: u in scores && u !in users && 0 <= i < |users| ==> scores[users[i]] >= scores[u]
    requires Rows(scores, ioi, board) && forall i :: 0 <= i < |users| ==> board[i].user == users[i]
    ensures TopOf(scores, ioi, board)
  {
    forall u, i | u in scores && 0 <= i < |board| && (forall k :: 0 <= k < |board| ==> board[k].user != u)
      ensures scores[board[i].user] >= scores[u]
    {
      assert forall k :: 0 <= k < |users| ==> users[k] == board[k].user != u;
      assert u !in users;
    }
  }

  lemma UsersAreTop(scores: map<nat, int>, full: seq<ZMember>, users: seq<nat>)
    requires Descending(full) && |users| <= |full|
    requires forall i, j :: 0 <= i < j < |full| ==> full[i].member != full[j].member
    requires forall i :: 0 <= i < |users| ==>
               users[i] in scores && full[i].member == Decimal(users[i]) && full[i].score == scores[users[i]]
    requires forall u :: u in scores && u !in users ==> exists k :: |users| <= k < |full| && full[k].score == scores[u]
    ensures forall i, j :: 0 <= i < j < |users| ==> users[i] != users[j] && scores[users[i]] >= scores[users[j]]
    ensures forall u, i :: u in scores && u !in users && 0 <= i < |users| ==> scores[users[i]] >= scores[u]
  {
    forall i, j | 0 <= i < j < |users| ensures users[i] != users[j] && scores[users[i]] >= scores[users[j]] {
      assert full[i].member != full[j].member && full[i].score >= full[j].score;
    }
    forall u, i | u in scores && u !in users && 0 <= i < |users| ensures scores[users[i]] >= scores[u] {
      var k :| |users| <= k < |full| && full[k].score == scores[u];
      assert full[i].score >= full[k].score;
    }
  }

  lemma OmittedIsLater(zset: map<string, int>, scores: map<nat, int>, full: seq<ZMember>, users: seq<nat>, u: nat)
    requires u in scores && Decimal(u) in zset && zset[Decimal(u)] == scores[u]
    requires forall z :: z in full <==> z.member in zset && zset[z.member] == z.score
    requires |users| <= |full|
    requires forall i :: 0 <= i < |users| ==> users[i] != u && full[i].member == Decimal(users[i])
    ensures exists k :: |users| <= k < |full| && full[k].score == scores[u]
  {
    var z := ZMember(Decimal(u), scores[u]);
    assert z in full;
    var k :| 0 <= k < |full| && full[k] == z;
    if k < |users| {
      DecimalInjective(u, users[k]);
    }
  }

  // ---- The fields of a row ----

  // The positions of the members that are numbers.
  function Numeric(members: seq<ZMember>): seq<nat> {
    if members == [] then []
    else
      var n := |members| - 1;
      if ParseUint(members[n].member).Some? then Numeric(members[..n]) + [n] else Numeric(members[..n])
  }

  lemma {:induction false} NumericIs(members: seq<ZMember>)
    ensures forall i, j :: 0 <= i < j < |Numeric(members)| ==> Numeric(members)[i] < Numeric(members)[j]
    ensures forall k :: k in Numeric(members) <==> 0 <= k < |members| && ParseUint(members[k].member).Some?
  {
    if members != [] {
      var before := Numeric(members[..|members| - 1]);
      NumericIs(members[..|members| - 1]);
      assert forall i :: 0 <= i < |before| ==> before[i] in before;
    }
  }

  // The rows of any member list: one for each member that is a number, in
  // order, ranked by the member's own position and showing its user.
  lemma {:induction false} RowsOfMembers(members: seq<ZMember>, ioi: bool)
    ensures |Entries(members, ioi)| == |Numeric(members)|
    ensures forall i :: 0 <= i < |Numeric(members)| ==> RowShows(Entries(members, ioi)[i], members, Numeric(members)[i])
  {
    if members != [] {
      var n := |members| - 1;
      var rows, before := Entries(members[..n], ioi), Numeric(members[..n]);
      RowsOfMembers(members[..n], ioi);
      forall i | 0 <= i < |before| ensures RowShows(rows[i], members, before[i]) {
        assert RowShows(rows[i], members[..n], before[i]);
      }
    }
  }

  predicate RowShows(row: Entry, members: seq<ZMember>, k: nat) {
    k < |members| && row.rank == k + 1 && ParseUint(members[k].member) == Some(row.user)
  }

  // Every board of a set of users ranks its rows 1, 2, 3, ...; the numbers of a
  // row make up the user's score: an ACM row always, with a penalty below
  // 1,000,000 unless the score is far below zero, and an IOI row as quotient and
  // remainder unless the score is negative.
  lemma RowsMakeUpScores(scores: map<nat, int>, ioi: bool, board: seq<Entry>)
    requires TopOf(scores, ioi, board)
    ensures forall i :: 0 <= i < |board| ==>
              && board[i].rank == i + 1
              && (if ioi then IoiNumbers(board[i], scores[board[i].user]) else AcmNumbers(board[i], scores[board[i].user]))
  {
    forall i | 0 <= i < |board|
      ensures board[i].rank == i + 1
      ensures if ioi then IoiNumbers(board[i], scores[board[i].user]) else AcmNumbers(board[i], scores[board[i].user])
    {
      DecodedNumbers(ioi, i + 1, board[i].user, scores[board[i].user]);
    }
  }

  predicate AcmNumbers(e: Entry, score: int) {
    e.main * 1_000_000 - e.penalty == score && 0 <= e.penalty && (score > -1_000_000 ==> e.penalty < 1_000_000)
  }

  predicate IoiNumbers(e: Entry, score: int) {
    score >= 0 ==> e.main * 10_000_000 + e.penalty == score && 0 <= e.penalty < 10_000_000
  }

  lemma DecodedNumbers(ioi: bool, rank: nat, user: nat, score: int)
    ensures var e := Decode(ioi, rank, user, score);
            e.rank == rank && if ioi then IoiNumbers(e, score) else AcmNumbers(e, score)
  {
    if !ioi {
      Acm.DecodedPenaltyNonNegative(score);
      var shifted := score + 999_999;
      assert shifted >= 0 ==> shifted / Acm.UNIT * Acm.UNIT <= shifted;
    }
  }

  // ---- ACM ----

  ghost function AcmScores(h: seq<Acm.Judged>, c: nat): map<nat, int> {
    map u | u in Acm.Ranked(h, c) :: AcmScore(h, c, u)
  }

  function AcmScore(h: seq<Acm.Judged>, c: nat, u: nat): int {
    |Acm.Solved(h, c, u)| * Acm.UNIT - Acm.Penalty(h, c, u)
  }

  lemma AcmHolds(h: seq<Acm.Judged>, c: nat)
    ensures Holds(ZsetAt(Acm.Run(h), Render(RankKey(c))), AcmScores(h, c))
  {
    Acm.RunIsExact(h);
    AcmHoldsIn(Acm.Run(h), h, c, Render(RankKey(c)));
  }

  lemma AcmHoldsIn(st: Store, h: seq<Acm.Judged>, c: nat, key: string)
    requires Acm.ScoreExact(st, h) && Acm.MembersAreUsers(st, h) && key == Render(RankKey(c))
    ensures Holds(ZsetAt(st, key), AcmScores(h, c))
  {
    var zset := ZsetAt(st, key);
    forall u | u in Acm.Ranked(h, c) ensures Decimal(u) in zset && zset[Decimal(u)] == AcmScore(h, c, u) {
      AcmEntry(st, h, c, u, key);
    }
  }

  lemma AcmEntry(st: Store, h: seq<Acm.Judged>, c: nat, u: nat, key: string)
    requires Acm.ScoreExact(st, h) && u in Acm.Ranked(h, c) && key == Render(RankKey(c))
    ensures ScoreIn(ZsetAt(st, key), Decimal(u)) == Some(AcmScore(h, c, u))
  {
    SolvedCountPositive(h, c, u);
    assert Score(st, key, Decimal(u)) == Acm.Composite(h, c, u);
  }

  // For every history, the ACM board lists the top 50 by exact composite; an
  // entry shows the true solved count and penalty exactly when that penalty is
  // at most 999,999; and when that holds of all ranked users the board is the
  // top 50 by solved count descending, then penalty ascending.
  lemma AcmLeaderboard(h: seq<Acm.Judged>, c: nat, board: seq<Entry>)
    requires IsBoard(ZsetAt(Acm.Run(h), Render(RankKey(c))), false, board)
    ensures TopOf(AcmScores(h, c), false, board)
    ensures forall i :: 0 <= i < |board| ==>
              (board[i].main == |Acm.Solved(h, c, board[i].user)| && board[i].penalty == Acm.Penalty(h, c, board[i].user)
               <==> Acm.Penalty(h, c, board[i].user) <= Acm.MAX_PENALTY)
    ensures (forall u :: u in Acm.Ranked(h, c) ==> Acm.Penalty(h, c, u) <= Acm.MAX_PENALTY) ==>
              && (forall i, j :: 0 <= i < j < |board| ==>
                    Acm.NotWorse(board[i].main, board[i].penalty, board[j].main, board[j].penalty))
              && (forall u, i :: u in Acm.Ranked(h, c) && 0 <= i < |board| && (forall k :: 0 <= k < |board| ==> board[k].user != u)
                    ==> Acm.NotWorse(board[i].main, board[i].penalty, |Acm.Solved(h, c, u)|, Acm.Penalty(h, c, u)))
  {
    AcmHolds(h, c);
    BoardShowsTop(ZsetAt(Acm.Run(h), Render(RankKey(c))), AcmScores(h, c), false, board);
    AcmBoardIsRight(h, c, board);
  }

  lemma AcmBoardIsRight(h: seq<Acm.Judged>, c: nat, board: seq<Entry>)
    requires TopOf(AcmScores(h, c), false, board)
    ensures forall i :: 0 <= i < |board| ==>
              (board[i].main == |Acm.Solved(h, c, board[i].user)| && board[i].penalty == Acm.Penalty(h, c, board[i].user)
               <==> Acm.Penalty(h, c, board[i].user) <= Acm.MAX_PENALTY)
    ensures (forall u :: u in Acm.Ranked(h, c) ==> Acm.Penalty(h, c, u) <= Acm.MAX_PENALTY) ==>
              && (forall i, j :: 0 <= i < j < |board| ==>
                    Acm.NotWorse(board[i].main, board[i].penalty, board[j].main, board[j].penalty))
              && (forall u, i :: u in Acm.Ranked(h, c) && 0 <= i < |board| && (forall k :: 0 <= k < |board| ==> board[k].user != u)
                    ==> Acm.NotWorse(board[i].main, board[i].penalty, |Acm.Solved(h, c, u)|, Acm.Penalty(h, c, u)))
  {
    AcmBoardDecodes(h, c, board);
    if forall u :: u in Acm.Ranked(h, c) ==> Acm.Penalty(h, c, u) <= Acm.MAX_PENALTY {
      AcmBoardOrder(h, c, board);
    }
  }

  lemma AcmBoardDecodes(h: seq<Acm.Judged>, c: nat, board: seq<Entry>)
    requires TopOf(AcmScores(h, c), false, board)
    ensures forall i :: 0 <= i < |board| ==>
              (board[i].main == |Acm.Solved(h, c, board[i].user)| && board[i].penalty == Acm.Penalty(h, c, board[i].user)
               <==> Acm.Penalty(h, c, board[i].user) <= Acm.MAX_PENALTY)
  {
    forall i | 0 <= i < |board|
      ensures board[i].main == |Acm.Solved(h, c, board[i].user)| && board[i].penalty == Acm.Penalty(h, c, board[i].user)
              <==> Acm.Penalty(h, c, board[i].user) <= Acm.MAX_PENALTY
    {
      var u := board[i].user;
      SolvedCountPositive(h, c, u);
      Acm.DecodeExactlyWhen(|Acm.Solved(h, c, u)|, Acm.Penalty(h, c, u));
    }
  }

  lemma SolvedCountPositive(h: seq<Acm.Judged>, c: nat, u: nat)
    requires u in Acm.Ranked(h, c)
    ensures |Acm.Solved(h, c, u)| >= 1
  {
    var e :| e in h && e.contest == c && Acm.Accepted(e) && e.user == u;
    assert e.problem in Acm.Solved(h, c, u);
  }

  lemma AcmBoardOrder(h: seq<Acm.Judged>, c: nat, board: seq<Entry>)
    requires TopOf(AcmScores(h, c), false, board)
    requires forall u :: u in Acm.Ranked(h, c) ==> Acm.Penalty(h, c, u) <= Acm.MAX_PENALTY
    requires forall i :: 0 <= i < |board| ==>
              board[i].main == |Acm.Solved(h, c, board[i].user)| && board[i].penalty == Acm.Penalty(h, c, board[i].user)
    ensures forall i, j :: 0 <= i < j < |board| ==>
              Acm.NotWorse(board[i].main, board[i].penalty, board[j].main, board[j].penalty)
    ensures forall u, i :: u in Acm.Ranked(h, c) && 0 <= i < |board| && (forall k :: 0 <= k < |board| ==> board[k].user != u)
              ==> Acm.NotWorse(board[i].main, board[i].penalty, |Acm.Solved(h, c, u)|, Acm.Penalty(h, c, u))
  {
    var scores := AcmScores(h, c);
    forall i, j | 0 <= i < j < |board|
      ensures Acm.NotWorse(board[i].main, board[i].penalty, board[j].main, board[j].penalty)
    {
      assert scores[board[i].user] >= scores[board[j].user];
    }
    forall u, i | u in Acm.Ranked(h, c) && 0 <= i < |board| && (forall k :: 0 <= k < |board| ==> board[k].user != u)
      ensures Acm.NotWorse(board[i].main, board[i].penalty, |Acm.Solved(h, c, u)|, Acm.Penalty(h, c, u))
    {
      assert u in scores && scores[board[i].user] >= scores[u];
    }
  }

  // ---- IOI ----

  ghost function IoiScores(h: seq<Ioi.Row>, c: nat, ps: seq<nat>): map<nat, int> {
    map e | e in h && Ioi.TotalPassed(h, c, e.user, ps) > 0 ::
      e.user := Ioi.TotalPassed(h, c, e.user, ps) * Ioi.WEIGHT - Ioi.TotalTime(h, c, e.user, ps)
  }

  lemma {:induction false} PassedMeansRow(h: seq<Ioi.Row>, c: nat, u: nat, ps: seq<nat>)
    requires Ioi.TotalPassed(h, c, u, ps) > 0
    ensures exists e :: e in h && e.user == u
  {
    var p := ps[|ps| - 1];
    Ioi.BestIsMaximum(h, c, u, p);
    if Ioi.Best(h, c, u, p) == 0 {
      PassedMeansRow(h, c, u, ps[..|ps| - 1]);
    }
  }

  lemma IoiHolds(h: seq<Ioi.Row>, c: nat, problems: Ioi.Problems)
    ensures Holds(ZsetAt(Ioi.Run(h, problems), Render(RankKey(c))), IoiScores(h, c, problems(c)))
  {
    Ioi.RunIsExact(h, problems);
    var zset := ZsetAt(Ioi.Run(h, problems), Render(RankKey(c)));
    forall u: nat ensures ScoreIn(zset, Decimal(u)) == Ioi.Composite(h, c, u, problems(c)) {
      IoiEntry(Ioi.Run(h, problems), h, problems, c, u);
    }
    IoiHoldsIn(zset, h, c, problems(c));
  }

  lemma IoiEntry(st: Store, h: seq<Ioi.Row>, problems: Ioi.Problems, c: nat, u: nat)
    requires Ioi.RankExact(st, h, problems)
    ensures ScoreIn(ZsetAt(st, Render(RankKey(c))), Decimal(u)) == Ioi.Composite(h, c, u, problems(c))
  {
    assert Score(st, Render(RankKey(c)), Decimal(u)) == Ioi.Composite(h, c, u, problems(c));
  }

  lemma IoiHoldsIn(zset: map<string, int>, h: seq<Ioi.Row>, c: nat, ps: seq<nat>)
    requires forall u: nat :: ScoreIn(zset, Decimal(u)) == Ioi.Composite(h, c, u, ps)
    requires forall m :: m in zset ==> exists u: nat :: m == Decimal(u)
    ensures Holds(zset, IoiScores(h, c, ps))
  {
    var scores := IoiScores(h, c, ps);
    forall u | u in scores ensures Decimal(u) in zset && zset[Decimal(u)] == scores[u] {
      assert ScoreIn(zset, Decimal(u)) == Ioi.Composite(h, c, u, ps);
    }
    forall m | m in zset ensures exists u :: u in scores && m == Decimal(u) {
      var u: nat :| m == Decimal(u);
      assert ScoreIn(zset, Decimal(u)) == Ioi.Composite(h, c, u, ps);
      PassedMeansRow(h, c, u, ps);
      assert u in scores;
    }
  }

  // For every sequential run, the IOI board lists the top 50 by exact
  // composite, but shows the true pair exactly for a total time of zero; and
  // when every ranked user's total time is below 10,000,000, its order is that
  // of total passed descending, then total time ascending.
  lemma IoiLeaderboard(h: seq<Ioi.Row>, c: nat, problems: Ioi.Problems, board: seq<Entry>)
    requires IsBoard(ZsetAt(Ioi.Run(h, problems), Render(RankKey(c))), true, board)
    ensures TopOf(IoiScores(h, c, problems(c)), true, board)
    ensures forall i :: 0 <= i < |board| ==>
              (board[i].main == Ioi.TotalPassed(h, c, board[i].user, problems(c)) &&
               board[i].penalty == Ioi.TotalTime(h, c, board[i].user, problems(c))
               <==> Ioi.TotalTime(h, c, board[i].user, problems(c)) == 0)
    ensures TimesInRange(h, c, problems(c)) ==> IoiOrdered(h, c, problems(c), board)
  {
    IoiHolds(h, c, problems);
    BoardShowsTop(ZsetAt(Ioi.Run(h, problems), Render(RankKey(c))), IoiScores(h, c, problems(c)), true, board);
    IoiBoardDecodes(h, c, problems(c), board);
    if TimesInRange(h, c, problems(c)) {
      IoiBoardOrder(h, c, problems(c), board);
    }
  }

  ghost predicate TimesInRange(h: seq<Ioi.Row>, c: nat, ps: seq<nat>) {
    forall u :: u in IoiScores(h, c, ps) ==> Ioi.TotalTime(h, c, u, ps) < Ioi.WEIGHT
  }

  // u has passed more than v, or as much in no more time.
  ghost predicate IoiNotWorse(h: seq<Ioi.Row>, c: nat, ps: seq<nat>, u: nat, v: nat) {
    Acm.NotWorse(Ioi.TotalPassed(h, c, u, ps), Ioi.TotalTime(h, c, u, ps),
                 Ioi.TotalPassed(h, c, v, ps), Ioi.TotalTime(h, c, v, ps))
  }

  // The rows stand in that order, and no ranked user left out beats a row.
  ghost predicate IoiOrdered(h: seq<Ioi.Row>, c: nat, ps: seq<nat>, board: seq<Entry>) {
    && (forall i, j :: 0 <= i < j < |board| ==> IoiNotWorse(h, c, ps, board[i].user, board[j].user))
    && (forall u, i :: u in IoiScores(h, c, ps) && 0 <= i < |board| && (forall k :: 0 <= k < |board| ==> board[k].user != u)
          ==> IoiNotWorse(h, c, ps, board[i].user, u))
  }

  lemma IoiScoreOrder(h: seq<Ioi.Row>, c: nat, ps: seq<nat>, u: nat, v: nat)
    requires var scores := IoiScores(h, c, ps); u in scores && v in scores && scores[u] >= scores[v]
    requires TimesInRange(h, c, ps)
    ensures IoiNotWorse(h, c, ps, u, v)
  {
  }

  lemma IoiBoardOrder(h: seq<Ioi.Row>, c: nat, ps: seq<nat>, board: seq<Entry>)
    requires TopOf(IoiScores(h, c, ps), true, board) && TimesInRange(h, c, ps)
    ensures IoiOrdered(h, c, ps, board)
  {
    forall i, j | 0 <= i < j < |board| ensures IoiNotWorse(h, c, ps, board[i].user, board[j].user) {
      IoiScoreOrder(h, c, ps, board[i].user, board[j].user);
    }
    forall u, i | u in IoiScores(h, c, ps) && 0 <= i < |board| && (forall k :: 0 <= k < |board| ==> board[k].user != u)
      ensures IoiNotWorse(h, c, ps, board[i].user, u)
    {
      IoiScoreOrder(h, c, ps, board[i].user, u);
    }
  }

  lemma IoiBoardDecodes(h: seq<Ioi.Row>, c: nat, ps: seq<nat>, board: seq<Entry>)
    requires TopOf(IoiScores(h, c, ps), true, board)
    ensures forall i :: 0 <= i < |board| ==>
              (board[i].main == Ioi.TotalPassed(h, c, board[i].user, ps) &&
               board[i].penalty == Ioi.TotalTime(h, c, board[i].user, ps)
               <==> Ioi.TotalTime(h, c, board[i].user, ps) == 0)
  {
    forall i | 0 <= i < |board|
      ensures board[i].main == Ioi.TotalPassed(h, c, board[i].user, ps) &&
              board[i].penalty == Ioi.TotalTime(h, c, board[i].user, ps)
              <==> Ioi.TotalTime(h, c, board[i].user, ps) == 0
    {
      var u := board[i].user;
      Ioi.ShownExactlyWhen(Ioi.TotalPassed(h, c, u, ps), Ioi.TotalTime(h, c, u, ps));
    }
  }
}

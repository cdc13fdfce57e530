// Splitting and joining text, decimal numerals, and the composite keys built
// from them ("%d:%d", "contest:%d:solved:%d", ...).
module Text {

  datatype Option<+T> = None | Some(value: T)

  ghost predicate Free(s: string, sep: char) {
    forall i :: 0 <= i < |s| ==> s[i] != sep
  }

  ghost predicate AllFree(parts: seq<string>, sep: char) {
    forall i :: 0 <= i < |parts| ==> Free(parts[i], sep)
  }

  // strings.Split / String.split with a one-character separator.
  function Split(s: string, sep: char): (parts: seq<string>)
    ensures |parts| >= 1
    ensures AllFree(parts, sep)
  {
    if s == "" then [""]
    else
      var rest := Split(s[1..], sep);
      if s[0] == sep then [""] + rest else [[s[0]] + rest[0]] + rest[1..]
  }

  // strings.Join with a one-character separator.
  function Join(parts: seq<string>, sep: char): string {
    if parts == [] then ""
    else if |parts| == 1 then parts[0]
    else parts[0] + [sep] + Join(parts[1..], sep)
  }

  lemma {:induction false} JoinOfSplit(s: string, sep: char)
    ensures Join(Split(s, sep), sep) == s
  {
    if s == "" {
    } else {
      JoinOfSplit(s[1..], sep);
      var rest := Split(s[1..], sep);
      if s[0] == sep {
        assert ([""] + rest)[1..] == rest;
        assert Join([""] + rest, sep) == [sep] + s[1..];
      } else {
        var parts := [[s[0]] + rest[0]] + rest[1..];
        assert parts[1..] == rest[1..];
        assert Join(parts, sep) == [s[0]] + Join(rest, sep);
      }
    }
  }

  // A separator-free prefix only lengthens the first part.
  lemma {:induction false} SplitPrefix(p: string, s: string, sep: char)
    requires Free(p, sep)
    ensures Split(p + s, sep) == [p + Split(s, sep)[0]] + Split(s, sep)[1..]
  {
    if p == "" {
      assert p + s == s;
      assert p + Split(s, sep)[0] == Split(s, sep)[0];
    } else {
      assert (p + s)[1..] == p[1..] + s;
      assert forall i :: 0 <= i < |p[1..]| ==> p[1..][i] == p[i + 1];
      SplitPrefix(p[1..], s, sep);
      assert [p[0]] + (p[1..] + Split(s, sep)[0]) == p + Split(s, sep)[0];
    }
  }

  lemma {:induction false} SplitOfJoin(parts: seq<string>, sep: char)
    requires parts != [] && AllFree(parts, sep)
    ensures Split(Join(parts, sep), sep) == parts
  {
    if |parts| == 1 {
      SplitPrefix(parts[0], "", sep);
      assert parts[0] + "" == parts[0];
    } else {
      var tail := Join(parts[1..], sep);
      SplitOfJoin(parts[1..], sep);
      assert Split([sep] + tail, sep) == [""] + parts[1..] by {
        assert ([sep] + tail)[1..] == tail;
      }
      SplitPrefix(parts[0], [sep] + tail, sep);
      assert parts[0] + ([sep] + tail) == parts[0] + [sep] + tail;
      assert ([""] + parts[1..])[1..] == parts[1..];
      assert parts[0] + "" == parts[0];
      assert [parts[0]] + parts[1..] == parts;
    }
  }

  lemma {:induction false} JoinConcat(xs: seq<string>, ys: seq<string>, sep: char)
    requires xs != [] && ys != []
    ensures Join(xs + ys, sep) == Join(xs, sep) + [sep] + Join(ys, sep)
  {
    assert (xs + ys)[1..] == xs[1..] + ys;
    if |xs| > 1 {
      JoinConcat(xs[1..], ys, sep);
    }
  }

  // Splitting distributes over a separator.
  lemma SplitAtSeparator(a: string, b: string, sep: char)
    ensures Split(a + [sep] + b, sep) == Split(a, sep) + Split(b, sep)
  {
    JoinOfSplit(a, sep);
    JoinOfSplit(b, sep);
    JoinConcat(Split(a, sep), Split(b, sep), sep);
    SplitOfJoin(Split(a, sep) + Split(b, sep), sep);
  }

  // ---- Trimming the characters that satisfy p ----

  function TrimLeft(s: string, p: char -> bool): string {
    if s != "" && p(s[0]) then TrimLeft(s[1..], p) else s
  }

  function TrimRight(s: string, p: char -> bool): string {
    if s != "" && p(s[|s| - 1]) then TrimRight(s[..|s| - 1], p) else s
  }

  function Trim(s: string, p: char -> bool): string { TrimRight(TrimLeft(s, p), p) }

  predicate Trimmed(s: string, p: char -> bool) {
    s == "" || (!p(s[0]) && !p(s[|s| - 1]))
  }

  lemma {:induction false} TrimLeftFacts(s: string, p: char -> bool)
    ensures |TrimLeft(s, p)| <= |s| && TrimLeft(s, p) == s[|s| - |TrimLeft(s, p)|..]
    ensures TrimLeft(s, p) != "" ==> !p(TrimLeft(s, p)[0])
    ensures s != "" && !p(s[0]) ==> TrimLeft(s, p) == s
  {
    if s != "" && p(s[0]) {
      TrimLeftFacts(s[1..], p);
    }
  }

  lemma {:induction false} TrimRightFacts(s: string, p: char -> bool)
    ensures |TrimRight(s, p)| <= |s| && TrimRight(s, p) == s[..|TrimRight(s, p)|]
    ensures TrimRight(s, p) != "" ==> !p(TrimRight(s, p)[|TrimRight(s, p)| - 1])
    ensures s != "" && !p(s[|s| - 1]) ==> TrimRight(s, p) == s
  {
    if s != "" && p(s[|s| - 1]) {
      TrimRightFacts(s[..|s| - 1], p);
    }
  }

  lemma TrimFacts(s: string, p: char -> bool)
    ensures Trimmed(Trim(s, p), p)
    ensures Trimmed(s, p) <==> Trim(s, p) == s
    ensures forall c :: Free(s, c) ==> Free(Trim(s, p), c)
  {
    TrimLeftFacts(s, p);
    TrimRightFacts(TrimLeft(s, p), p);
  }

  // ---- Numbers and keys ----

  function Digit(d: nat): char
    requires d < 10
  {
    ['0', '1', '2', '3', '4', '5', '6', '7', '8', '9'][d]
  }

  // strconv.FormatUint(n, 10) and the %d verb on an unsigned number.
  function Decimal(n: nat): (s: string)
    ensures |s| >= 1
    ensures Free(s, ':')
  {
    if n < 10 then [Digit(n)] else Decimal(n / 10) + [Digit(n % 10)]
  }

  lemma {:induction false} DecimalInjective(a: nat, b: nat)
    requires Decimal(a) == Decimal(b)
    ensures a == b
  {
    var s := Decimal(a);
    if a >= 10 && b >= 10 {
      assert Decimal(a / 10) == s[..|s| - 1] == Decimal(b / 10);
      DecimalInjective(a / 10, b / 10);
    }
  }

  // strconv.ParseUint(s, 10, 64), without its upper bound.
  function ParseUint(s: string): Option<nat> {
    if s == "" then None
    else
      var d := s[|s| - 1];
      if d < '0' || d > '9' then None
      else
        var low := d as int - '0' as int;
        if |s| == 1 then Some(low)
        else
          match ParseUint(s[..|s| - 1])
          case None => None
          case Some(high) => Some(10 * high + low)
  }

  lemma {:induction false} ParseOfDecimal(n: nat)
    ensures ParseUint(Decimal(n)) == Some(n)
  {
    assert forall d: nat :: d < 10 ==> Digit(d) as int - '0' as int == d;
    if n >= 10 {
      ParseOfDecimal(n / 10);
      assert Decimal(n)[..|Decimal(n)| - 1] == Decimal(n / 10);
    }
  }

  // Fields joined by ':' determine the fields.
  lemma ColonKeyInjective(xs: seq<string>, ys: seq<string>)
    requires xs != [] && ys != [] && AllFree(xs, ':') && AllFree(ys, ':')
    requires Join(xs, ':') == Join(ys, ':')
    ensures xs == ys
  {
    SplitOfJoin(xs, ':');
    SplitOfJoin(ys, ':');
  }

  // fmt.Sprintf("%d:%d", a, b)
  function PairKey(a: nat, b: nat): string {
    Decimal(a) + ":" + Decimal(b)
  }

  lemma PairKeyInjective(a: nat, b: nat, c: nat, d: nat)
    requires PairKey(a, b) == PairKey(c, d)
    ensures a == c && b == d
  {
    var xs, ys := [Decimal(a), Decimal(b)], [Decimal(c), Decimal(d)];
    assert Join(xs, ':') == PairKey(a, b) by {
      assert xs[1..] == [Decimal(b)];
    }
    assert Join(ys, ':') == PairKey(c, d) by {
      assert ys[1..] == [Decimal(d)];
    }
    ColonKeyInjective(xs, ys);
    assert xs[0] == ys[0] && xs[1] == ys[1];
    DecimalInjective(a, c);
    DecimalInjective(b, d);
  }

  // The cache keys of one contest: "contest:<id>:<kind>" with further numbers.
  datatype ContestKey =
    | RankKey(contest: nat)
    | WrongKey(contest: nat)
    | SolvedKey(contest: nat, user: nat)
    | ScoreKey(contest: nat, user: nat, problem: nat)
    | TimeKey(contest: nat, user: nat, problem: nat)

  function Kind(k: ContestKey): string {
    match k
    case RankKey(_) => "rank"
    case WrongKey(_) => "wrong"
    case SolvedKey(_, _) => "solved"
    case ScoreKey(_, _, _) => "score"
    case TimeKey(_, _, _) => "time"
  }

  function Numbers(k: ContestKey): seq<nat> {
    match k
    case RankKey(c) => [c]
    case WrongKey(c) => [c]
    case SolvedKey(c, u) => [c, u]
    case ScoreKey(c, u, p) => [c, u, p]
    case TimeKey(c, u, p) => [c, u, p]
  }

  function Decimals(ns: seq<nat>): (parts: seq<string>)
    ensures |parts| == |ns| && AllFree(parts, ':')
    ensures forall i :: 0 <= i < |ns| ==> parts[i] == Decimal(ns[i])
  {
    seq(|ns|, i requires 0 <= i < |ns| => Decimal(ns[i]))
  }

  // "contest:%d:<kind>" followed by the remaining numbers.
  function Render(k: ContestKey): string {
    var ds := Decimals(Numbers(k));
    Join(["contest", ds[0], Kind(k)] + ds[1..], ':')
  }

  // Distinct structured keys never share a rendered key, so the models of the
  // ranking store may use the structured form.
  lemma RenderInjective(k: ContestKey, l: ContestKey)
    requires Render(k) == Render(l)
    ensures k == l
  {
    var ds, es := Decimals(Numbers(k)), Decimals(Numbers(l));
    var xs, ys := ["contest", ds[0], Kind(k)] + ds[1..], ["contest", es[0], Kind(l)] + es[1..];
    ColonKeyInjective(xs, ys);
    assert xs[1] == ys[1] && xs[2] == ys[2] && xs[3..] == ds[1..] && ys[3..] == es[1..];
    KindDeterminesShape(k, l);
    forall i | 0 <= i < |ds| ensures Numbers(k)[i] == Numbers(l)[i] {
      assert i > 0 ==> ds[i] == ds[1..][i - 1] && es[i] == es[1..][i - 1];
      DecimalInjective(Numbers(k)[i], Numbers(l)[i]);
    }
    var ms, ns := Numbers(k), Numbers(l);
    assert |ms| == |ns| && ms[0] == ns[0];
    assert |ms| >= 2 ==> ms[1] == ns[1];
    assert |ms| >= 3 ==> ms[2] == ns[2];
  }

  lemma KindDeterminesShape(k: ContestKey, l: ContestKey)
    requires Kind(k) == Kind(l)
    ensures k.RankKey? == l.RankKey? && k.WrongKey? == l.WrongKey? && k.SolvedKey? == l.SolvedKey?
    ensures k.ScoreKey? == l.ScoreKey? && k.TimeKey? == l.TimeKey?
  {
    assert |"rank"| == 4 && |"wrong"| == 5 && |"solved"| == 6 && |"score"| == 5 && |"time"| == 4;
    assert "rank"[0] == 'r' && "wrong"[0] == 'w' && "score"[0] == 's' && "time"[0] == 't';
  }
}

// Output comparison of the judge: NormalizeOutput and CompareOutput.
module OutputCompare {
  import opened Text

  // unicode.IsSpace, which strings.TrimSpace uses.
  predicate IsSpace(c: char) {
    '\t' <= c <= '\r' || c == ' ' || c == '\U{0085}' || c == '\U{00A0}' || c == '\U{1680}' ||
    '\U{2000}' <= c <= '\U{200A}' || c == '\U{2028}' || c == '\U{2029}' || c == '\U{202F}' || c == '\U{205F}' ||
    c == '\U{3000}'
  }

  // The cutset " \t\r".
  predicate IsBlank(c: char) { c == ' ' || c == '\t' || c == '\r' }

  function TrimLines(lines: seq<string>): (r: seq<string>)
    ensures |r| == |lines|
  {
    if lines == [] then [] else [TrimRight(lines[0], IsBlank)] + TrimLines(lines[1..])
  }

  function DropEmptyTail(lines: seq<string>): seq<string> {
    if lines != [] && lines[|lines| - 1] == "" then DropEmptyTail(lines[..|lines| - 1]) else lines
  }

  function Normalize(s: string): string {
    Join(DropEmptyTail(TrimLines(Split(Trim(s, IsSpace), '\n'))), '\n')
  }

  method NormalizeOutput(s: string) returns (r: string)
    ensures r == Normalize(s)
  {
    var lines := Split(Trim(s, IsSpace), '\n');
    lines := TrimEachLine(lines);
    lines := WithoutEmptyTail(lines);
    r := Join(lines, '\n');
  }

  // The first loop of NormalizeOutput.
  method TrimEachLine(all: seq<string>) returns (lines: seq<string>)
    ensures lines == TrimLines(all)
  {
    lines := all;
    for i := 0 to |lines|
      invariant |lines| == |all| && lines[..i] == TrimLines(all[..i]) && lines[i..] == all[i..]
    {
      TrimOneMore(all, i);
      assert lines[i] == lines[i..][0] == all[i..][0] == all[i];
      lines := lines[..i] + [TrimRight(lines[i], IsBlank)] + lines[i + 1..];
    }
    assert all[..|all|] == all && lines[..|all|] == lines;
  }

  // The second loop of NormalizeOutput.
  method WithoutEmptyTail(all: seq<string>) returns (lines: seq<string>)
    ensures lines == DropEmptyTail(all)
  {
    lines := all;
    while |lines| > 0 && lines[|lines| - 1] == ""
      invariant DropEmptyTail(lines) == DropEmptyTail(all)
      decreases |lines|
    {
      lines := lines[..|lines| - 1];
    }
  }

  lemma {:induction false} TrimOneMore(lines: seq<string>, i: nat)
    requires i < |lines|
    ensures TrimLines(lines[..i + 1]) == TrimLines(lines[..i]) + [TrimRight(lines[i], IsBlank)]
  {
    if i == 0 {
      assert lines[..1] == [lines[0]] && lines[..0] == [];
    } else {
      TrimOneMore(lines[1..], i - 1);
      assert lines[..i + 1][1..] == lines[1..][..i] && lines[..i][1..] == lines[1..][..i - 1];
    }
  }

  // None when the outputs agree, else the two texts of the mismatch message.
  method CompareOutput(expected: string, actual: string) returns (mismatch: Option<(string, string)>)
    ensures mismatch.None? <==> Normalize(expected) == Normalize(actual)
    ensures mismatch.Some? ==> mismatch.value == (Normalize(expected), Normalize(actual))
  {
    var exp := NormalizeOutput(expected);
    var act := NormalizeOutput(actual);
    return if exp != act then Some((exp, act)) else None;
  }

  // ---- Removing line-end blanks, character by character ----

  function StripLines(s: string): string { Join(TrimLines(Split(s, '\n')), '\n') }

  lemma {:induction false} JoinCons(line: string, rest: seq<string>)
    ensures Join([line] + rest, '\n') == if rest == [] then line else line + "\n" + Join(rest, '\n')
  {
    assert ([line] + rest)[1..] == rest;
  }

  // Trimming a line from its front character on.
  lemma {:induction false} TrimRightCons(c: char, s: string)
    ensures TrimRight([c] + s, IsBlank) ==
            if TrimRight(s, IsBlank) == "" && IsBlank(c) then "" else [c] + TrimRight(s, IsBlank)
  {
    if s == "" {
      assert [c] + s == [c];
      assert [c][..0] == "";
    } else if IsBlank(s[|s| - 1]) {
      assert ([c] + s)[..|s|] == [c] + s[..|s| - 1];
      TrimRightCons(c, s[..|s| - 1]);
    }
  }

  lemma TrimmedLineFree(s: string)
    requires Free(s, '\n')
    ensures Free(TrimRight(s, IsBlank), '\n')
  {
    TrimRightFacts(s, IsBlank);
  }

  lemma TrimLinesCons(line: string, rest: seq<string>)
    ensures TrimLines([line] + rest) == [TrimRight(line, IsBlank)] + TrimLines(rest)
  {
    assert ([line] + rest)[1..] == rest;
  }

  lemma ConsAssociates(c: char, first: string, tail: string)
    ensures [c] + (first + tail) == [c] + first + tail
  {
  }

  // A character put before the first line.
  lemma JoinFirst(c: char, first: string, rest: seq<string>)
    requires Free(first, '\n')
    ensures var j := Join([first] + rest, '\n');
            (first == "" <==> j == "" || j[0] == '\n') && Join([[c] + first] + rest, '\n') == [c] + j
  {
    JoinCons(first, rest);
    JoinCons([c] + first, rest);
    if rest != [] {
      var tail := "\n" + Join(rest, '\n');
      assert first + "\n" + Join(rest, '\n') == first + tail;
      assert [c] + first + "\n" + Join(rest, '\n') == [c] + first + tail;
      ConsAssociates(c, first, tail);
    }
  }

  lemma StripNewline(v: string)
    ensures StripLines("\n" + v) == "\n" + StripLines(v)
  {
    var lines := Split(v, '\n');
    assert ("\n" + v)[1..] == v;
    TrimLinesCons("", lines);
    JoinCons("", TrimLines(lines));
  }

  // A character is dropped exactly when it is a blank and only line-end blanks
  // follow on its line.
  lemma StripCons(c: char, v: string)
    ensures StripLines([c] + v) ==
            if IsBlank(c) && (StripLines(v) == "" || StripLines(v)[0] == '\n') then StripLines(v)
            else [c] + StripLines(v)
  {
    if c == '\n' {
      StripNewline(v);
    } else {
      var line, rest := Split(v, '\n')[0], Split(v, '\n')[1..];
      assert ([c] + v)[1..] == v;
      assert Split(v, '\n') == [line] + rest;
      StripInLine(c, line, rest);
    }
  }

  lemma StripInLine(c: char, line: string, rest: seq<string>)
    requires Free(line, '\n')
    ensures var j := Join(TrimLines([line] + rest), '\n');
            Join(TrimLines([[c] + line] + rest), '\n') == if IsBlank(c) && (j == "" || j[0] == '\n') then j else [c] + j
  {
    TrimLinesCons(line, rest);
    TrimLinesCons([c] + line, rest);
    TrimRightCons(c, line);
    TrimmedLineFree(line);
    JoinFirst(c, TrimRight(line, IsBlank), TrimLines(rest));
  }

  lemma StripEmpty()
    ensures StripLines("") == ""
  {
    assert TrimLines([""])[..] == [""];
  }

  lemma {:induction false} StripPrefix(p: string, v: string, w: string)
    requires StripLines(v) == StripLines(w)
    ensures StripLines(p + v) == StripLines(p + w)
  {
    if p == "" {
      assert p + v == v && p + w == w;
    } else {
      StripPrefix(p[1..], v, w);
      assert p + v == [p[0]] + (p[1..] + v) && p + w == [p[0]] + (p[1..] + w);
      StripCons(p[0], p[1..] + v);
      StripCons(p[0], p[1..] + w);
    }
  }

  // A text that ends in a non-blank keeps that end, and one that starts with a
  // non-blank keeps that start.
  lemma {:induction false} StripEnds(s: string)
    requires s != "" && !IsBlank(s[|s| - 1])
    ensures StripLines(s) != "" && StripLines(s)[|StripLines(s)| - 1] == s[|s| - 1]
    ensures !IsBlank(s[0]) ==> StripLines(s)[0] == s[0]
  {
    StripCons(s[0], s[1..]);
    assert s == [s[0]] + s[1..];
    if |s| == 1 {
      StripEmpty();
    } else {
      StripEnds(s[1..]);
    }
  }

  lemma {:induction false} TrimLinesFacts(lines: seq<string>)
    requires AllFree(lines, '\n')
    ensures AllFree(TrimLines(lines), '\n') && TrimLines(TrimLines(lines)) == TrimLines(lines)
  {
    if lines != [] {
      TrimLinesFacts(lines[1..]);
      TrimRightFacts(lines[0], IsBlank);
      TrimRightFacts(TrimRight(lines[0], IsBlank), IsBlank);
      var rest := TrimLines(lines[1..]);
      assert ([TrimRight(lines[0], IsBlank)] + rest)[1..] == rest;
    }
  }

  lemma StripIdempotent(s: string)
    ensures StripLines(StripLines(s)) == StripLines(s)
  {
    var lines := TrimLines(Split(s, '\n'));
    TrimLinesFacts(Split(s, '\n'));
    SplitOfJoin(lines, '\n');
  }

  // ---- The trailing-empty-line loop never removes a line ----

  lemma {:induction false} LastLine(s: string)
    requires s != "" && s[|s| - 1] != '\n'
    ensures var last := Split(s, '\n')[|Split(s, '\n')| - 1];
            last != "" && last[|last| - 1] == s[|s| - 1]
  {
    if |s| == 1 {
      assert s[1..] == "";
    } else {
      LastLine(s[1..]);
    }
  }

  lemma {:induction false} LastOfTrimLines(lines: seq<string>)
    requires lines != []
    ensures TrimLines(lines)[|lines| - 1] == TrimRight(lines[|lines| - 1], IsBlank)
  {
    if |lines| > 1 {
      LastOfTrimLines(lines[1..]);
    }
  }

  // On input that is not all white space there is no empty line to drop.
  lemma NothingToDrop(s: string)
    requires Trim(s, IsSpace) != ""
    ensures var lines := TrimLines(Split(Trim(s, IsSpace), '\n'));
            lines[|lines| - 1] != "" && DropEmptyTail(lines) == lines
  {
    var t := Trim(s, IsSpace);
    TrimFacts(s, IsSpace);
    LastLine(t);
    LastOfTrimLines(Split(t, '\n'));
    TrimRightFacts(Split(t, '\n')[|Split(t, '\n')| - 1], IsBlank);
  }

  lemma NormalizeIsStrip(s: string)
    ensures Normalize(s) == StripLines(Trim(s, IsSpace))
  {
    if Trim(s, IsSpace) == "" {
      assert Split("", '\n') == [""];
      assert TrimLines([""]) == [""];
      assert [""][..0] == [];
      StripEmpty();
    } else {
      NothingToDrop(s);
    }
  }

  lemma NormalizeIdempotent(s: string)
    ensures Normalize(Normalize(s)) == Normalize(s)
  {
    var t := Trim(s, IsSpace);
    NormalizeIsStrip(s);
    NormalizeIsStrip(Normalize(s));
    TrimFacts(s, IsSpace);
    StripEmpty();
    if t != "" {
      StripEnds(t);
    }
    TrimFacts(Normalize(s), IsSpace);
    StripIdempotent(t);
  }

  // ---- What the comparison ignores, and that it ignores nothing else ----

  // a with its i-th character removed.
  function Cut(a: string, i: nat): string
    requires i < |a|
  {
    a[..i] + a[i + 1..]
  }

  // One insignificant character: white space at either end of the output, or a
  // blank right before a line feed.
  predicate Insignificant(a: string, i: nat) {
    i < |a| && (((i == 0 || i == |a| - 1) && IsSpace(a[i])) || (i + 1 < |a| && IsBlank(a[i]) && a[i + 1] == '\n'))
  }

  ghost predicate Reduces(a: string, b: string) {
    exists i: nat :: Insignificant(a, i) && b == Cut(a, i)
  }

  // Outputs connected by inserting and removing insignificant characters.
  ghost predicate Connected(a: string, b: string, chain: seq<string>) {
    && chain != [] && chain[0] == a && chain[|chain| - 1] == b
    && forall i :: 0 <= i < |chain| - 1 ==> Reduces(chain[i], chain[i + 1]) || Reduces(chain[i + 1], chain[i])
  }

  lemma {:induction false} TrimLeftConcat(x: string, z: string)
    ensures TrimLeft(x + z, IsSpace) == if TrimLeft(x, IsSpace) == "" then TrimLeft(z, IsSpace) else TrimLeft(x, IsSpace) + z
  {
    if x == "" {
      assert x + z == z;
    } else if IsSpace(x[0]) {
      assert (x + z)[1..] == x[1..] + z;
      TrimLeftConcat(x[1..], z);
    }
  }

  lemma {:induction false} TrimRightConcat(x: string, z: string)
    ensures TrimRight(x + z, IsSpace) == if TrimRight(z, IsSpace) == "" then TrimRight(x, IsSpace) else x + TrimRight(z, IsSpace)
  {
    if z == "" {
      assert x + z == x;
    } else if IsSpace(z[|z| - 1]) {
      assert (x + z)[..|x + z| - 1] == x + z[..|z| - 1];
      TrimRightConcat(x, z[..|z| - 1]);
    }
  }

  lemma TrimFirst(c: char, s: string)
    requires IsSpace(c)
    ensures TrimLeft([c] + s, IsSpace) == TrimLeft(s, IsSpace)
  {
    assert ([c] + s)[1..] == s;
  }

  lemma TrimLast(s: string, c: char)
    requires IsSpace(c)
    ensures Trim(s + [c], IsSpace) == Trim(s, IsSpace)
  {
    TrimLeftConcat(s, [c]);
    assert [c][1..] == "" && (TrimLeft(s, IsSpace) + [c])[..|TrimLeft(s, IsSpace)|] == TrimLeft(s, IsSpace);
    assert "" == TrimRight("", IsSpace);
  }

  lemma TrimRightBlanks(p: string, b: char)
    requires IsSpace(b)
    ensures TrimRight(p + [b], IsSpace) == TrimRight(p, IsSpace)
  {
    assert (p + [b])[..|p|] == p;
  }

  lemma OnlyBlanksAfter(x: string, b: char)
    requires IsSpace(b)
    ensures TrimRight(x + [b, '\n'], IsSpace) == TrimRight(x, IsSpace) == TrimRight(x + "\n", IsSpace)
  {
    assert x + [b, '\n'] == (x + [b]) + ['\n'];
    TrimRightBlanks(x + [b], '\n');
    TrimRightBlanks(x, b);
    TrimRightBlanks(x, '\n');
  }

  lemma StripInnerBlank(x: string, b: char, z: string)
    requires IsBlank(b)
    ensures StripLines(x + [b, '\n'] + z) == StripLines(x + "\n" + z)
  {
    BlankIsStripped(b, z);
    StripPrefix(x, [b] + ("\n" + z), "\n" + z);
    Regrouped(x, b, z);
  }

  lemma BlankIsStripped(b: char, z: string)
    requires IsBlank(b)
    ensures StripLines([b] + ("\n" + z)) == StripLines("\n" + z)
  {
    StripNewline(z);
    StripCons(b, "\n" + z);
  }

  lemma Regrouped(x: string, b: char, z: string)
    ensures x + [b, '\n'] + z == x + ([b] + ("\n" + z)) && x + "\n" + z == x + ("\n" + z)
  {
  }

  lemma StripBlankBeforeNewline(x: string, b: char, y: string)
    requires IsBlank(b)
    ensures StripLines(TrimRight(x + [b, '\n'] + y, IsSpace)) == StripLines(TrimRight(x + "\n" + y, IsSpace))
  {
    TrimRightConcat(x + [b, '\n'], y);
    TrimRightConcat(x + "\n", y);
    if TrimRight(y, IsSpace) == "" {
      OnlyBlanksAfter(x, b);
    } else {
      StripInnerBlank(x, b, TrimRight(y, IsSpace));
    }
  }

  // A blank before a line feed makes no difference.
  lemma BlankBeforeNewline(x: string, b: char, y: string)
    requires IsBlank(b)
    ensures Normalize(x + [b, '\n'] + y) == Normalize(x + "\n" + y)
  {
    NormalizeIsStrip(x + [b, '\n'] + y);
    NormalizeIsStrip(x + "\n" + y);
    TrimBlankBeforeNewline(x, b, y);
  }

  lemma TrimBlankBeforeNewline(x: string, b: char, y: string)
    requires IsBlank(b)
    ensures StripLines(Trim(x + [b, '\n'] + y, IsSpace)) == StripLines(Trim(x + "\n" + y, IsSpace))
  {
    var left := TrimLeft(x, IsSpace);
    TrimLeftConcat(x, [b, '\n'] + y);
    TrimLeftConcat(x, "\n" + y);
    assert x + [b, '\n'] + y == x + ([b, '\n'] + y) && x + "\n" + y == x + ("\n" + y);
    if left == "" {
      TrimFirst(b, "\n" + y);
      assert [b] + ("\n" + y) == [b, '\n'] + y;
    } else {
      StripBlankBeforeNewline(left, b, y);
      assert left + [b, '\n'] + y == left + ([b, '\n'] + y) && left + "\n" + y == left + ("\n" + y);
    }
  }

  lemma ReduceKeepsNormal(a: string, b: string)
    requires Reduces(a, b)
    ensures Normalize(a) == Normalize(b)
  {
    var i: nat :| Insignificant(a, i) && b == Cut(a, i);
    if i + 1 < |a| && IsBlank(a[i]) && a[i + 1] == '\n' {
      CutBlank(a, i);
    } else {
      CutEnd(a, i);
      NormalizeIsStrip(a);
      NormalizeIsStrip(b);
    }
  }

  lemma CutBlank(a: string, i: nat)
    requires i + 1 < |a| && IsBlank(a[i]) && a[i + 1] == '\n'
    ensures Normalize(a) == Normalize(Cut(a, i))
  {
    var x, y := a[..i], a[i + 2..];
    assert a == x + [a[i], '\n'] + y && Cut(a, i) == x + "\n" + y;
    BlankBeforeNewline(x, a[i], y);
  }

  lemma CutEnd(a: string, i: nat)
    requires i < |a| && (i == 0 || i == |a| - 1) && IsSpace(a[i])
    ensures Trim(Cut(a, i), IsSpace) == Trim(a, IsSpace)
  {
    if i == 0 {
      assert a == [a[0]] + Cut(a, 0);
      TrimFirst(a[0], Cut(a, 0));
    } else {
      assert a == Cut(a, i) + [a[i]];
      TrimLast(Cut(a, i), a[i]);
    }
  }

  lemma {:induction false} ConnectedKeepsNormal(a: string, b: string, chain: seq<string>)
    requires Connected(a, b, chain)
    ensures Normalize(a) == Normalize(b)
    decreases |chain|
  {
    if |chain| > 1 {
      if Reduces(a, chain[1]) {
        ReduceKeepsNormal(a, chain[1]);
      } else {
        ReduceKeepsNormal(chain[1], a);
      }
      assert Connected(chain[1], b, chain[1..]);
      ConnectedKeepsNormal(chain[1], b, chain[1..]);
    }
  }

  // ---- Every output is connected to its normal form ----

  lemma Link(a: string, b: string, c: string, chain: seq<string>) returns (longer: seq<string>)
    requires Reduces(a, b) && Connected(b, c, chain)
    ensures Connected(a, c, longer)
  {
    longer := [a] + chain;
  }

  lemma Append(a: string, b: string, c: string, first: seq<string>, second: seq<string>) returns (chain: seq<string>)
    requires Connected(a, b, first) && Connected(b, c, second)
    ensures Connected(a, c, chain)
  {
    chain := first + second[1..];
    forall i | 0 <= i < |chain| - 1 ensures Reduces(chain[i], chain[i + 1]) || Reduces(chain[i + 1], chain[i]) {
      if i >= |first| - 1 {
        var k := i - (|first| - 1);
        assert chain[i] == second[k] && chain[i + 1] == second[k + 1];
      }
    }
  }

  lemma Reverse(a: string, b: string, chain: seq<string>) returns (back: seq<string>)
    requires Connected(a, b, chain)
    ensures Connected(b, a, back)
  {
    var n := |chain|;
    back := seq(n, i requires 0 <= i < n => chain[n - 1 - i]);
    forall i | 0 <= i < n - 1 ensures Reduces(back[i], back[i + 1]) || Reduces(back[i + 1], back[i]) {
      var k := n - 2 - i;
      assert back[i] == chain[k + 1] && back[i + 1] == chain[k];
    }
  }

  lemma {:induction false} TrimConnected(s: string) returns (chain: seq<string>)
    ensures Connected(s, Trim(s, IsSpace), chain)
    decreases |s|
  {
    if s != "" && IsSpace(s[0]) {
      chain := TrimConnected(s[1..]);
      assert Insignificant(s, 0) && Cut(s, 0) == s[1..];
      assert Reduces(s, s[1..]);
      chain := Link(s, s[1..], Trim(s, IsSpace), chain);
    } else if s != "" && IsSpace(s[|s| - 1]) {
      var n := |s| - 1;
      TrimLeftFacts(s, IsSpace);
      TrimLeftFacts(s[..n], IsSpace);
      chain := TrimConnected(s[..n]);
      assert Insignificant(s, n) && Cut(s, n) == s[..n];
      assert Reduces(s, s[..n]);
      assert Trim(s, IsSpace) == TrimRight(s[..n], IsSpace) == Trim(s[..n], IsSpace);
      chain := Link(s, s[..n], Trim(s, IsSpace), chain);
    } else {
      chain := [s];
      TrimFacts(s, IsSpace);
    }
  }

  // In a text with a non-blank end, only blanks before a line feed go.
  lemma StripOfCons(c: char, v: string)
    requires !IsBlank(([c] + v)[|v|])
    ensures StripLines([c] + v) ==
            if IsBlank(c) && StripLines(v) != "" && StripLines(v)[0] == '\n' then StripLines(v) else [c] + StripLines(v)
  {
    StripCons(c, v);
    if v == "" {
      StripEmpty();
    } else {
      assert ([c] + v)[|v|] == v[|v| - 1];
      StripEnds(v);
    }
  }

  lemma {:induction false} StripConnected(p: string, u: string) returns (chain: seq<string>)
    requires u == "" || !IsBlank(u[|u| - 1])
    ensures Connected(p + u, p + StripLines(u), chain)
    decreases |u|
  {
    if u == "" {
      StripEmpty();
      chain := [p + u];
    } else {
      var c, v := u[0], u[1..];
      chain := StripConnected(p + [c], v);
      assert u == [c] + v && p + [c] + v == p + u;
      StripOfCons(c, v);
      var w := StripLines(v);
      if IsBlank(c) && w != "" && w[0] == '\n' {
        chain := BlankConnected(p + u, p, c, w, chain);
      } else {
        assert p + [c] + w == p + ([c] + w);
      }
    }
  }

  // A chain to a blank before a line feed goes on to the text without it.
  lemma BlankConnected(s: string, p: string, c: char, w: string, chain: seq<string>) returns (longer: seq<string>)
    requires IsBlank(c) && w != "" && w[0] == '\n' && Connected(s, p + [c] + w, chain)
    ensures Connected(s, p + w, longer)
  {
    var a := p + [c] + w;
    assert a[|p|] == c && a[|p| + 1] == '\n';
    assert Insignificant(a, |p|) && Cut(a, |p|) == p + w;
    assert Reduces(a, p + w);
    assert Connected(a, p + w, [a, p + w]);
    longer := Append(s, a, p + w, chain, [a, p + w]);
  }

  lemma NormalConnected(s: string) returns (chain: seq<string>)
    ensures Connected(s, Normalize(s), chain)
  {
    var t := Trim(s, IsSpace);
    TrimFacts(s, IsSpace);
    NormalizeIsStrip(s);
    var first := TrimConnected(s);
    var second := StripConnected("", t);
    assert "" + t == t && "" + StripLines(t) == StripLines(t);
    chain := Append(s, t, Normalize(s), first, second);
  }

  // Two outputs compare equal exactly when one becomes the other by inserting
  // and removing white space at the ends and blanks before line feeds.
  lemma EqualExactlyWhenConnected(a: string, b: string)
    ensures Normalize(a) == Normalize(b) <==> exists chain :: Connected(a, b, chain)
  {
    if Normalize(a) == Normalize(b) {
      var there := NormalConnected(a);
      var from := NormalConnected(b);
      var back := Reverse(b, Normalize(b), from);
      var chain := Append(a, Normalize(a), b, there, back);
      assert Connected(a, b, chain);
    }
    if chain :| Connected(a, b, chain) {
      ConnectedKeepsNormal(a, b, chain);
    }
  }

  function ToCrLf(s: string): string {
    if s == "" then "" else (if s[0] == '\n' then "\r\n" else [s[0]]) + ToCrLf(s[1..])
  }

  lemma {:induction false} CrLfBehind(p: string, s: string)
    ensures Normalize(p + ToCrLf(s)) == Normalize(p + s)
    decreases |s|
  {
    if s != "" {
      CrLfBehind(p + [s[0]], s[1..]);
      assert p + [s[0]] + s[1..] == p + s;
      if s[0] == '\n' {
        BlankBeforeNewline(p, '\r', ToCrLf(s[1..]));
        assert p + ToCrLf(s) == p + ['\r', '\n'] + ToCrLf(s[1..]);
        assert p + "\n" + ToCrLf(s[1..]) == p + [s[0]] + ToCrLf(s[1..]);
      } else {
        assert p + ToCrLf(s) == p + [s[0]] + ToCrLf(s[1..]);
      }
    }
  }

  // CRLF and LF outputs compare equal.
  lemma CrLfIgnored(s: string)
    ensures Normalize(ToCrLf(s)) == Normalize(s)
  {
    CrLfBehind("", s);
    assert "" + ToCrLf(s) == ToCrLf(s) && "" + s == s;
  }
}

// The bracket checker of the code editor: checkCommon.
module BracketScanner {
  import opened Text

  // A bracket at a line and column, both counted from 1.
  datatype Mark = Mark(ch: char, line: nat, col: nat)

  datatype Problem =
    | UnmatchedClosing(at: Mark)
    | Unclosed(at: Mark)
    | UnterminatedString(line: nat)
    | UnterminatedComment(line: nat)

  predicate IsOpener(c: char) { c == '{' || c == '[' || c == '(' }

  predicate IsCloser(c: char) { c == '}' || c == ']' || c == ')' }

  predicate Pair(o: char, c: char) { (o == '{' && c == '}') || (o == '[' && c == ']') || (o == '(' && c == ')') }

  // ---- Which brackets are code ----

  datatype Mode = Code | LineComment | BlockComment | Quoted(delim: char)

  datatype Scan = Scan(marks: seq<Mark>, end: Mode)

  // The brackets of s outside strings and comments, and the mode at its end,
  // when the scan stands at line and col, in mode, behind the character prev.
  function Lex(prev: char, s: string, mode: Mode, line: nat, col: nat): Scan
    decreases |s|
  {
    if s == "" then Scan([], mode)
    else
      var c, next := s[0], if |s| > 1 then s[1] else '\n';
      if c == '\n' then Lex(c, s[1..], if mode.LineComment? then Code else mode, line + 1, 1)
      else
        match mode
        case Quoted(d) => Lex(c, s[1..], if c == d && prev != '\\' then Code else mode, line, col + 1)
        case BlockComment =>
          if c == '*' && next == '/' then Lex('/', s[2..], Code, line, col + 2)
          else Lex(c, s[1..], mode, line, col + 1)
        case LineComment => Lex(c, s[1..], mode, line, col + 1)
        case Code =>
          if c == '/' && next == '*' then Lex('*', s[2..], BlockComment, line, col + 2)
          else if c == '/' && next == '/' then Lex(c, s[1..], LineComment, line, col + 1)
          else if c == '"' || c == '\'' then Lex(c, s[1..], Quoted(c), line, col + 1)
          else if IsOpener(c) || IsCloser(c) then
            var r := Lex(c, s[1..], mode, line, col + 1);
            Scan([Mark(c, line, col)] + r.marks, r.end)
          else Lex(c, s[1..], mode, line, col + 1)
  }

  function Visible(code: string): Scan { Lex('\n', code, Code, 1, 1) }

  // ---- Matching them with a stack ----

  // The stack and the complaints after a word of brackets.
  function Match(marks: seq<Mark>, stack: seq<Mark>, errors: seq<Problem>): (seq<Mark>, seq<Problem>)
    decreases |marks|
  {
    if marks == [] then (stack, errors)
    else
      var m := marks[0];
      if IsOpener(m.ch) then Match(marks[1..], stack + [m], errors)
      else if stack != [] && Pair(stack[|stack| - 1].ch, m.ch) then Match(marks[1..], stack[..|stack| - 1], errors)
      else Match(marks[1..], stack, errors + [UnmatchedClosing(m)])
  }

  function Leftover(stack: seq<Mark>): seq<Problem> {
    seq(|stack|, i requires 0 <= i < |stack| => Unclosed(stack[i]))
  }

  function Report(code: string): seq<Problem> {
    var r := Match(Visible(code).marks, [], []);
    var last := |Split(code, '\n')|;
    r.1 + Leftover(r.0)
    + (if Visible(code).end.Quoted? then [UnterminatedString(last)] else [])
    + (if Visible(code).end.BlockComment? then [UnterminatedComment(last)] else [])
  }

  // ---- The two nested loops ----

  function ModeOf(stringDelim: Option<char>, inBlockComment: bool, inLineComment: bool): Mode {
    if stringDelim.Some? then Quoted(stringDelim.value)
    else if inBlockComment then BlockComment
    else if inLineComment then LineComment
    else Code
  }

  predicate OneMode(stringDelim: Option<char>, inBlockComment: bool, inLineComment: bool) {
    !(stringDelim.Some? && (inBlockComment || inLineComment)) && !(inBlockComment && inLineComment)
  }

  // The outcome of the whole text when the scan still has to read s.
  function Outcome(prev: char, s: string, mode: Mode, line: nat, col: nat, stack: seq<Mark>, errors: seq<Problem>):
    ((seq<Mark>, seq<Problem>), Mode)
  {
    var r := Lex(prev, s, mode, line, col);
    (Match(r.marks, stack, errors), r.end)
  }

  method CheckCommon(code: string) returns (errors: seq<Problem>)
    ensures errors == Report(code)
  {
    errors := [];
    var lines := Split(code, '\n');
    var stack: seq<Mark> := [];
    var inBlockComment, stringDelim, inLineComment := false, None, false;
    ghost var goal := Outcome('\n', code, Code, 1, 1, [], []);
    JoinOfSplit(code, '\n');
    assert lines[0..] == lines;
    for lineIdx := 0 to |lines|
      invariant OneMode(stringDelim, inBlockComment, inLineComment)
      invariant lineIdx < |lines| ==>
          goal == Outcome('\n', Join(lines[lineIdx..], '\n'), ModeOf(stringDelim, inBlockComment, false), lineIdx + 1, 1, stack, errors)
      invariant lineIdx == |lines| ==> goal == ((stack, errors), ModeOf(stringDelim, inBlockComment, inLineComment))
    {
      ghost var tail := if lineIdx + 1 < |lines| then ['\n'] + Join(lines[lineIdx + 1..], '\n') else "";
      assert Join(lines[lineIdx..], '\n') == lines[lineIdx] + tail by {
        assert lines[lineIdx..][1..] == lines[lineIdx + 1..];
      }
      ghost var last;
      stack, errors, stringDelim, inBlockComment, inLineComment, last :=
        CheckLine(lines[lineIdx], lineIdx, stack, errors, stringDelim, inBlockComment, tail, goal);
      if tail != "" {
        assert tail[1..] == Join(lines[lineIdx + 1..], '\n');
      }
    }
    errors := errors + Leftover(stack);
    if stringDelim.Some? {
      errors := errors + [UnterminatedString(|lines|)];
    }
    if inBlockComment {
      errors := errors + [UnterminatedComment(|lines|)];
    }
  }

  lemma MatchCons(m: Mark, marks: seq<Mark>, stack: seq<Mark>, errors: seq<Problem>)
    ensures Match([m] + marks, stack, errors) ==
            if IsOpener(m.ch) then Match(marks, stack + [m], errors)
            else if stack != [] && Pair(stack[|stack| - 1].ch, m.ch) then Match(marks, stack[..|stack| - 1], errors)
            else Match(marks, stack, errors + [UnmatchedClosing(m)])
  {
    assert ([m] + marks)[1..] == marks;
  }

  lemma RestAt(line: string, tail: string, k: nat)
    requires k < |line|
    ensures var rest := line[k..] + tail;
            && rest[0] == line[k] && rest[1..] == line[k + 1..] + tail
            && (k + 1 < |line| ==> rest[1] == line[k + 1] && rest[2..] == line[k + 2..] + tail)
            && (k + 1 == |line| && |rest| > 1 ==> rest[1] == tail[0])
  {
  }

  // The inner loop, over one line; tail is the text behind the line.
  method CheckLine(line: string, lineIdx: nat, stack0: seq<Mark>, errors0: seq<Problem>, delim0: Option<char>, block0: bool,
                   ghost tail: string, ghost goal: ((seq<Mark>, seq<Problem>), Mode))
    returns (stack: seq<Mark>, errors: seq<Problem>, stringDelim: Option<char>, inBlockComment: bool, inLineComment: bool,
             ghost last: char)
    requires Free(line, '\n') && (tail == "" || tail[0] == '\n') && OneMode(delim0, block0, false)
    requires goal == Outcome('\n', line + tail, ModeOf(delim0, block0, false), lineIdx + 1, 1, stack0, errors0)
    ensures OneMode(stringDelim, inBlockComment, inLineComment)
    ensures goal == Outcome(last, tail, ModeOf(stringDelim, inBlockComment, inLineComment), lineIdx + 1, |line| + 1, stack, errors)
  {
    stack, errors, stringDelim, inBlockComment, inLineComment := stack0, errors0, delim0, block0, false;
    last := '\n';
    var colIdx := 0;
    assert line[0..] == line;
    while colIdx < |line|
      invariant colIdx <= |line|
      invariant last == if colIdx > 0 then line[colIdx - 1] else '\n'
      invariant OneMode(stringDelim, inBlockComment, inLineComment)
      invariant goal == Outcome(last, line[colIdx..] + tail, ModeOf(stringDelim, inBlockComment, inLineComment),
                                lineIdx + 1, colIdx + 1, stack, errors)
      decreases |line| - colIdx
    {
      var ch := line[colIdx];
      var next := if colIdx + 1 < |line| then Some(line[colIdx + 1]) else None;
      var prev := if colIdx > 0 then Some(line[colIdx - 1]) else None;
      ghost var rest := line[colIdx..] + tail;
      RestAt(line, tail, colIdx);
      last := ch;
      colIdx := colIdx + 1;
      if stringDelim.Some? && prev == Some('\\') {
        continue;
      }
      if stringDelim.Some? {
        if Some(ch) == stringDelim {
          stringDelim := None;
        }
        continue;
      }
      if inBlockComment {
        if ch == '*' && next == Some('/') {
          inBlockComment := false;
          colIdx := colIdx + 1;
          last := '/';
        }
        continue;
      }
      if inLineComment {
        continue;
      }
      if ch == '/' && next == Some('/') {
        inLineComment := true;
        continue;
      }
      if ch == '/' && next == Some('*') {
        inBlockComment := true;
        colIdx := colIdx + 1;
        last := '*';
        continue;
      }
      if ch == '"' || ch == '\'' {
        stringDelim := Some(ch);
        continue;
      }
      ghost var m := Mark(ch, lineIdx + 1, colIdx);
      MatchCons(m, Lex(ch, rest[1..], Code, lineIdx + 1, colIdx + 1).marks, stack, errors);
      if IsOpener(ch) {
        stack := stack + [Mark(ch, lineIdx + 1, colIdx)];
      } else if IsCloser(ch) {
        if |stack| == 0 || !Pair(stack[|stack| - 1].ch, ch) {
          errors := errors + [UnmatchedClosing(Mark(ch, lineIdx + 1, colIdx))];
        } else {
          stack := stack[..|stack| - 1];
        }
      }
    }
    assert line[colIdx..] + tail == tail;
  }

  // ---- No complaint means a balanced word ----

  function Word(marks: seq<Mark>): string {
    seq(|marks|, i requires 0 <= i < |marks| => marks[i].ch)
  }

  // Balanced words: empty, or an opener, a balanced word, its closer and
  // another balanced word.
  ghost predicate Balanced(w: string)
    decreases |w|
  {
    w == "" || exists k :: 0 < k < |w| && Pair(w[0], w[k]) && Balanced(w[1..k]) && Balanced(w[k + 1..])
  }

  // w closes the openers on the stack and everything it opens itself.
  ghost predicate Closes(w: string, stack: string)
    decreases |w|
  {
    if w == "" then stack == ""
    else if IsOpener(w[0]) then Closes(w[1..], stack + [w[0]])
    else stack != "" && Pair(stack[|stack| - 1], w[0]) && Closes(w[1..], stack[..|stack| - 1])
  }

  lemma {:induction false} MatchGrows(marks: seq<Mark>, stack: seq<Mark>, errors: seq<Problem>)
    ensures |Match(marks, stack, errors).1| >= |errors|
    decreases |marks|
  {
    if marks != [] {
      var m := marks[0];
      if IsOpener(m.ch) {
        MatchGrows(marks[1..], stack + [m], errors);
      } else if stack != [] && Pair(stack[|stack| - 1].ch, m.ch) {
        MatchGrows(marks[1..], stack[..|stack| - 1], errors);
      } else {
        MatchGrows(marks[1..], stack, errors + [UnmatchedClosing(m)]);
      }
    }
  }

  lemma {:induction false} MatchIsCloses(marks: seq<Mark>, stack: seq<Mark>)
    ensures Match(marks, stack, []) == ([], []) <==> Closes(Word(marks), Word(stack))
    decreases |marks|
  {
    if marks != [] {
      var m, w := marks[0], Word(marks);
      assert w[1..] == Word(marks[1..]);
      assert stack != [] ==> Word(stack)[|stack| - 1] == stack[|stack| - 1].ch;
      if IsOpener(m.ch) {
        assert Word(stack + [m]) == Word(stack) + [m.ch];
        MatchIsCloses(marks[1..], stack + [m]);
      } else if stack != [] && Pair(stack[|stack| - 1].ch, m.ch) {
        assert Word(stack[..|stack| - 1]) == Word(stack)[..|stack| - 1];
        MatchIsCloses(marks[1..], stack[..|stack| - 1]);
      } else {
        MatchGrows(marks[1..], stack, [] + [UnmatchedClosing(m)]);
      }
    }
  }

  lemma BalancedCons(o: char, u: string, c: char, v: string)
    requires Pair(o, c) && Balanced(u) && Balanced(v)
    ensures Balanced([o] + u + [c] + v)
  {
    ConsParts(o, u, c, v);
    var w, k := [o] + u + [c] + v, |u| + 1;
    assert Pair(w[0], w[k]) && Balanced(w[1..k]) && Balanced(w[k + 1..]);
  }

  lemma ConsParts(o: char, u: string, c: char, v: string)
    ensures var w, k := [o] + u + [c] + v, |u| + 1;
            w[0] == o && w[k] == c && w[1..k] == u && w[k + 1..] == v
  {
  }

  lemma Regroup(a: char, u: string, b: char, v: string, c: char, w: string)
    ensures [a] + (u + [b] + (v + [c] + w)) == ([a] + u + [b] + v) + [c] + w
  {
  }

  lemma Regroup2(a: char, u: string, b: char, v: string, w: string)
    ensures [a] + u + [b] + v + w == [a] + (u + ([b] + (v + w)))
  {
  }

  lemma ClosesOpener(c: char, w: string, stack: string)
    requires IsOpener(c)
    ensures Closes([c] + w, stack) == Closes(w, stack + [c])
  {
    assert ([c] + w)[1..] == w;
  }

  lemma ClosesCloser(c: char, w: string, stack: string, o: char)
    requires !IsOpener(c)
    ensures Closes([c] + w, stack + [o]) == (Pair(o, c) && Closes(w, stack))
  {
    assert ([c] + w)[1..] == w && (stack + [o])[..|stack|] == stack;
  }

  // A word that closes an opener splits at its closer.
  lemma {:induction false} ClosesSplits(w: string, o: char, stack: string) returns (u: string, c: char, v: string)
    requires Closes(w, stack + [o])
    ensures w == u + [c] + v && Pair(o, c) && Balanced(u) && Closes(v, stack)
    decreases |w|
  {
    var a, rest := w[0], w[1..];
    assert w == [a] + rest;
    if IsOpener(a) {
      ClosesOpener(a, rest, stack + [o]);
      var u1, c1, v1 := ClosesSplits(rest, a, stack + [o]);
      var u2, c2, v2 := ClosesSplits(v1, o, stack);
      BalancedCons(a, u1, c1, u2);
      u, c, v := [a] + u1 + [c1] + u2, c2, v2;
      Regroup(a, u1, c1, u2, c2, v2);
    } else {
      ClosesCloser(a, rest, stack, o);
      u, c, v := "", a, rest;
      assert u + [a] + rest == w;
    }
  }

  lemma BalancedSplits(w: string) returns (o: char, u: string, c: char, v: string)
    requires Balanced(w) && w != ""
    ensures w == [o] + u + [c] + v && Pair(o, c) && Balanced(u) && Balanced(v) && |u| + |v| < |w|
  {
    var k :| 0 < k < |w| && Pair(w[0], w[k]) && Balanced(w[1..k]) && Balanced(w[k + 1..]);
    o, u, c, v := w[0], w[1..k], w[k], w[k + 1..];
    CutAround(w, k);
  }

  lemma CutAround(w: string, k: nat)
    requires 0 < k < |w|
    ensures w == [w[0]] + w[1..k] + [w[k]] + w[k + 1..]
  {
  }

  lemma {:induction false} BalancedLeavesStack(w: string, rest: string, stack: string)
    requires Balanced(w)
    ensures Closes(w + rest, stack) == Closes(rest, stack)
    decreases |w|
  {
    if w == "" {
      assert w + rest == rest;
    } else {
      var o, u, c, v := BalancedSplits(w);
      Regroup2(o, u, c, v, rest);
      ClosesOpener(o, u + ([c] + (v + rest)), stack);
      BalancedLeavesStack(u, [c] + (v + rest), stack + [o]);
      ClosesCloser(c, v + rest, stack, o);
      BalancedLeavesStack(v, rest, stack);
    }
  }

  lemma {:induction false} ClosesIsBalanced(w: string)
    requires Closes(w, "")
    ensures Balanced(w)
    decreases |w|
  {
    if w != "" {
      assert w == [w[0]] + w[1..];
      ClosesOpener(w[0], w[1..], "");
      var u, c, v := ClosesSplits(w[1..], w[0], "");
      ClosesIsBalanced(v);
      BalancedCons(w[0], u, c, v);
      Regroup3(w, u, c, v);
    }
  }

  lemma Regroup3(w: string, u: string, c: char, v: string)
    requires w != "" && w[1..] == u + [c] + v
    ensures w == [w[0]] + u + [c] + v
  {
  }

  lemma ClosesExactlyWhenBalanced(w: string)
    ensures Closes(w, "") <==> Balanced(w)
  {
    if Balanced(w) {
      BalancedLeavesStack(w, "", "");
      assert w + "" == w;
    }
    if Closes(w, "") {
      ClosesIsBalanced(w);
    }
  }

  // checkCommon is silent exactly when the visible brackets are balanced and
  // the text ends outside strings and block comments.
  lemma SilentExactlyWhen(code: string)
    ensures Report(code) == [] <==>
            Balanced(Word(Visible(code).marks)) && Visible(code).end in {Code, LineComment}
  {
    MatchIsCloses(Visible(code).marks, []);
    assert Word([]) == "";
    ClosesExactlyWhenBalanced(Word(Visible(code).marks));
  }

  // ---- Counting ----

  function Openers(marks: seq<Mark>): nat {
    if marks == [] then 0 else (if IsOpener(marks[0].ch) then 1 else 0) + Openers(marks[1..])
  }

  function Pops(marks: seq<Mark>, stack: seq<Mark>): nat
    decreases |marks|
  {
    if marks == [] then 0
    else if IsOpener(marks[0].ch) then Pops(marks[1..], stack + [marks[0]])
    else if stack != [] && Pair(stack[|stack| - 1].ch, marks[0].ch) then 1 + Pops(marks[1..], stack[..|stack| - 1])
    else Pops(marks[1..], stack)
  }

  // After any brackets seen so far: openers = pops + stack height and
  // closers = pops + mismatches.
  lemma {:induction false} CountsAgree(marks: seq<Mark>, stack: seq<Mark>, errors: seq<Problem>)
    ensures var r := Match(marks, stack, errors);
            && |stack| + Openers(marks) == Pops(marks, stack) + |r.0|
            && |errors| + |marks| - Openers(marks) == Pops(marks, stack) + |r.1|
    decreases |marks|
  {
    if marks != [] {
      var m := marks[0];
      if IsOpener(m.ch) {
        CountsAgree(marks[1..], stack + [m], errors);
      } else if stack != [] && Pair(stack[|stack| - 1].ch, m.ch) {
        CountsAgree(marks[1..], stack[..|stack| - 1], errors);
      } else {
        CountsAgree(marks[1..], stack, errors + [UnmatchedClosing(m)]);
      }
    }
  }

  // Each bracket is either half of a popped pair or reported once.
  lemma ReportCounts(code: string)
    ensures var scan := Visible(code);
            |Report(code)| == |scan.marks| - 2 * Pops(scan.marks, []) + if scan.end.Quoted? || scan.end.BlockComment? then 1 else 0
  {
    CountsAgree(Visible(code).marks, [], []);
  }

  // ---- What strings and comments hide ----

  // Line and column behind s.
  function Behind(s: string, line: nat, col: nat): (nat, nat) {
    if s == "" then (line, col)
    else if s[0] == '\n' then Behind(s[1..], line + 1, 1)
    else Behind(s[1..], line, col + 1)
  }

  lemma {:induction false} LineCommentHides(prev: char, body: string, rest: string, line: nat, col: nat)
    requires Free(body, '\n')
    ensures Lex(prev, body + (['\n'] + rest), LineComment, line, col) == Lex('\n', rest, Code, line + 1, 1)
    decreases |body|
  {
    if body == "" {
      assert body + (['\n'] + rest) == ['\n'] + rest;
      assert (['\n'] + rest)[1..] == rest;
    } else {
      assert (body + (['\n'] + rest))[1..] == body[1..] + (['\n'] + rest);
      LineCommentHides(body[0], body[1..], rest, line, col + 1);
    }
  }

  // body holds no "*/" and the one that follows it is the first.
  ghost predicate FirstEnd(body: string) {
    forall i :: 0 <= i < |body| && body[i] == '*' ==> i + 1 == |body| || body[i + 1] != '/'
  }

  lemma {:induction false} BlockCommentHides(prev: char, body: string, rest: string, line: nat, col: nat)
    requires FirstEnd(body)
    ensures Lex(prev, body + (['*', '/'] + rest), BlockComment, line, col) ==
            Lex('/', rest, Code, Behind(body, line, col).0, Behind(body, line, col).1 + 2)
    decreases |body|
  {
    var end := ['*', '/'] + rest;
    if body == "" {
      assert body + end == end && end[2..] == rest;
    } else {
      var l, c := if body[0] == '\n' then line + 1 else line, if body[0] == '\n' then 1 else col + 1;
      BlockCommentGoesOn(prev, body, end, line, col);
      FirstEndTail(body);
      BlockCommentHides(body[0], body[1..], rest, l, c);
    }
  }

  lemma FirstEndTail(body: string)
    requires FirstEnd(body) && body != ""
    ensures FirstEnd(body[1..])
  {
    forall i | 0 <= i < |body[1..]| && body[1..][i] == '*' ensures i + 1 == |body[1..]| || body[1..][i + 1] != '/' {
      assert body[i + 1] == '*';
    }
  }

  lemma BlockCommentGoesOn(prev: char, body: string, end: string, line: nat, col: nat)
    requires FirstEnd(body) && body != "" && end != "" && end[0] == '*'
    ensures Lex(prev, body + end, BlockComment, line, col) ==
            Lex(body[0], body[1..] + end, BlockComment, if body[0] == '\n' then line + 1 else line,
                if body[0] == '\n' then 1 else col + 1)
  {
    assert (body + end)[1..] == body[1..] + end;
    assert |body| > 1 ==> (body + end)[1] == body[1];
    assert |body| == 1 ==> (body + end)[1] == '*';
  }

  // The character before position i of a string body that follows prev.
  function Before(prev: char, body: string, i: nat): char
    requires i <= |body|
  {
    if i == 0 then prev else body[i - 1]
  }

  // Every delimiter in the body stands behind a backslash.
  ghost predicate Escaped(prev: char, body: string, delim: char) {
    forall i :: 0 <= i < |body| && body[i] == delim ==> Before(prev, body, i) == '\\'
  }

  // A string hides its body and ends at its first delimiter that does not
  // stand behind a backslash; without one it never ends.
  lemma {:induction false} StringHides(prev: char, body: string, delim: char, rest: string, line: nat, col: nat)
    requires delim != '\n' && Escaped(prev, body, delim)
    ensures Before(prev, body, |body|) != '\\' ==>
            Lex(prev, body + ([delim] + rest), Quoted(delim), line, col) ==
            Lex(delim, rest, Code, Behind(body, line, col).0, Behind(body, line, col).1 + 1)
    ensures Lex(prev, body, Quoted(delim), line, col) == Scan([], Quoted(delim))
    decreases |body|
  {
    var end := [delim] + rest;
    if body == "" {
      assert body + end == end && end[1..] == rest;
    } else {
      var l, c := if body[0] == '\n' then line + 1 else line, if body[0] == '\n' then 1 else col + 1;
      assert (body + end)[1..] == body[1..] + end;
      assert Before(prev, body, 0) == prev;
      forall i | 0 <= i < |body| - 1 && body[1..][i] == delim ensures Before(body[0], body[1..], i) == '\\' {
        assert Before(prev, body, i + 1) == '\\';
      }
      StringHides(body[0], body[1..], delim, rest, l, c);
    }
  }

  // ---- Escapes come in pairs, but not for the scanner ----

  // Backslashes at the end of the body.
  function TrailingBackslashes(body: string): nat {
    if body != "" && body[|body| - 1] == '\\' then 1 + TrailingBackslashes(body[..|body| - 1]) else 0
  }

  // Reading the body as C and Python do, a backslash taking the next
  // character with it: does the body end outside an escape?
  predicate EndsUnescaped(body: string) {
    if body == "" then true
    else if body[0] == '\\' then |body| >= 2 && EndsUnescaped(body[2..])
    else EndsUnescaped(body[1..])
  }

  lemma {:induction false} TrailingBackslashesOfTail(body: string, n: nat)
    requires n <= |body|
    ensures TrailingBackslashes(body[n..]) == if TrailingBackslashes(body) < |body| - n then TrailingBackslashes(body) else |body| - n
    decreases |body|
  {
    if n < |body| && body[|body| - 1] == '\\' {
      TrailingBackslashesOfTail(body[..|body| - 1], n);
      assert body[n..][..|body| - n - 1] == body[..|body| - 1][n..];
    }
  }

  lemma {:induction false} BackslashRunsBound(body: string)
    ensures TrailingBackslashes(body) <= |body|
    ensures TrailingBackslashes(body) == |body| > 0 ==> body[0] == '\\'
    ensures TrailingBackslashes(body) < |body| ==> body[|body| - 1 - TrailingBackslashes(body)] != '\\'
  {
    if body != "" && body[|body| - 1] == '\\' {
      BackslashRunsBound(body[..|body| - 1]);
    }
  }

  lemma {:induction false} PairsExactlyWhenEven(body: string)
    ensures EndsUnescaped(body) <==> TrailingBackslashes(body) % 2 == 0
    decreases |body|
  {
    BackslashRunsBound(body);
    if body == "" {
    } else if body[0] != '\\' {
      PairsExactlyWhenEven(body[1..]);
      TrailingBackslashesOfTail(body, 1);
    } else if |body| == 1 {
      assert body[..0] == "";
    } else {
      PairsExactlyWhenEven(body[2..]);
      TrailingBackslashesOfTail(body, 2);
    }
  }

  // The scanner ends a string at the delimiter behind body when no backslash
  // precedes it, a compiler when the backslashes before it pair up.  They agree
  // exactly when body ends in no backslash or an odd number of them; the
  // delimiters inside body are those neither of the two has ended the string at.
  lemma ClosingQuoteAgreesExactlyWhen(body: string, delim: char, line: nat, col: nat)
    requires Escaped(delim, body, delim) && (delim == '"' || delim == '\'')
    ensures var n := TrailingBackslashes(body);
            (Lex(delim, body + [delim], Quoted(delim), line, col).end == Code) == EndsUnescaped(body) <==> n == 0 || n % 2 == 1
  {
    PairsExactlyWhenEven(body);
    assert TrailingBackslashes(body) == 0 <==> Before(delim, body, |body|) != '\\';
    if TrailingBackslashes(body) == 0 {
      StringHides(delim, body, delim, "", line, col);
      assert body + ([delim] + "") == body + [delim];
    } else {
      var all := body + [delim];
      forall i | 0 <= i < |all| && all[i] == delim ensures Before(delim, all, i) == '\\' {
        assert Before(delim, all, i) == Before(delim, body, i);
      }
      StringHides(delim, all, delim, "", line, col);
    }
  }

  // ---- Where whole strings end ----

  // Reading s behind an opening delimiter as C and Python do: the position of
  // the closing one, |s| if there is none.
  function CompilerEnd(s: string, delim: char): nat {
    if s == "" || s[0] == delim then 0
    else if s[0] == '\\' && |s| >= 2 then 2 + CompilerEnd(s[2..], delim)
    else 1 + CompilerEnd(s[1..], delim)
  }

  // The same for the scanner, behind the character prev.
  function ScannerEnd(prev: char, s: string, delim: char): nat
    decreases |s|
  {
    if s == "" || (s[0] == delim && prev != '\\') then 0 else 1 + ScannerEnd(s[0], s[1..], delim)
  }

  // It is the first delimiter that no escape covers.
  lemma {:induction false} CompilerEndIs(s: string, delim: char)
    requires delim != '\\'
    ensures var e := CompilerEnd(s, delim);
            && e <= |s|
            && (e < |s| ==> s[e] == delim && EndsUnescaped(s[..e]))
            && forall k :: 0 <= k < e && s[k] == delim ==> !EndsUnescaped(s[..k])
    decreases |s|
  {
    if s == "" || s[0] == delim {
    } else if s[0] == '\\' && |s| >= 2 {
      CompilerEndIs(s[2..], delim);
      SkipKeepsEnd(s, delim, 2);
    } else {
      CompilerEndIs(s[1..], delim);
      SkipKeepsEnd(s, delim, 1);
    }
  }

  // The claim about the rest of s carries over one character or escape.
  lemma SkipKeepsEnd(s: string, delim: char, n: nat)
    requires delim != '\\' && s != "" && s[0] != delim && n <= |s|
    requires n == if s[0] == '\\' && |s| >= 2 then 2 else 1
    requires var t, e := s[n..], CompilerEnd(s[n..], delim);
             && e <= |t|
             && (e < |t| ==> t[e] == delim && EndsUnescaped(t[..e]))
             && forall k :: 0 <= k < e && t[k] == delim ==> !EndsUnescaped(t[..k])
    ensures var e := CompilerEnd(s, delim);
            && e <= |s|
            && (e < |s| ==> s[e] == delim && EndsUnescaped(s[..e]))
            && forall k :: 0 <= k < e && s[k] == delim ==> !EndsUnescaped(s[..k])
  {
    forall k | n <= k < |s| ensures EndsUnescaped(s[..k]) == EndsUnescaped(s[n..][..k - n]) {
      assert s[..k][n..] == s[n..][..k - n];
    }
    assert forall k :: n <= k < |s| ==> s[n..][k - n] == s[k];
  }

  // It is the first delimiter that no backslash precedes.
  lemma {:induction false} ScannerEndIs(prev: char, s: string, delim: char)
    ensures var e := ScannerEnd(prev, s, delim);
            && e <= |s|
            && (e < |s| ==> s[e] == delim && Before(prev, s, e) != '\\')
            && Escaped(prev, s[..e], delim)
    decreases |s|
  {
    if s != "" && !(s[0] == delim && prev != '\\') {
      ScannerEndIs(s[0], s[1..], delim);
      var e := ScannerEnd(s[0], s[1..], delim);
      forall i | 0 <= i < e + 1 && s[i] == delim ensures Before(prev, s, i) == '\\' {
        if i > 0 {
          assert s[1..][..e][i - 1] == s[i];
          assert Before(s[0], s[1..][..e], i - 1) == s[i - 1];
        }
      }
    }
  }

  lemma BackslashBefore(delim: char, s: string, k: nat)
    requires k <= |s| && delim != '\\'
    ensures Before(delim, s, k) != '\\' <==> TrailingBackslashes(s[..k]) == 0
  {
  }

  // The scan resumes in code behind the scanner's end, or never.
  lemma ScanResumes(s: string, delim: char, line: nat, col: nat)
    requires delim != '\n'
    ensures var i := ScannerEnd(delim, s, delim);
            && i <= |s|
            && Lex(delim, s, Quoted(delim), line, col) ==
               if i == |s| then Scan([], Quoted(delim))
               else Lex(delim, s[i + 1..], Code, Behind(s[..i], line, col).0, Behind(s[..i], line, col).1 + 1)
  {
    var i := ScannerEnd(delim, s, delim);
    ScannerEndIs(delim, s, delim);
    if i < |s| {
      var body, rest := s[..i], s[i + 1..];
      assert s == body + ([delim] + rest);
      assert Before(delim, body, i) == Before(delim, s, i);
      StringHides(delim, body, delim, rest, line, col);
    } else {
      assert s[..i] == s;
      StringHides(delim, s, delim, "", line, col);
    }
  }

  lemma EndsCompare(s: string, delim: char)
    requires delim == '"' || delim == '\''
    ensures var i, j := ScannerEnd(delim, s, delim), CompilerEnd(s, delim);
            j <= i <= |s| && (i == j <==> j == |s| || TrailingBackslashes(s[..j]) == 0)
  {
    var i, j := ScannerEnd(delim, s, delim), CompilerEnd(s, delim);
    ScannerEndIs(delim, s, delim);
    CompilerEndIs(s, delim);
    if i < |s| {
      BackslashBefore(delim, s, i);
      PairsExactlyWhenEven(s[..i]);
    }
    if j < |s| {
      BackslashBefore(delim, s, j);
      if j < i {
        assert s[..i][j] == delim && Before(delim, s[..i], j) == Before(delim, s, j);
      }
    }
  }

  // For every text behind an opening quote: the scanner resumes behind its own
  // end, never before a compiler does, and at the same place if and only if the
  // compiler's closing quote has no backslash before it or does not exist.
  lemma StringEndsAgreeExactlyWhen(s: string, delim: char, line: nat, col: nat)
    requires delim == '"' || delim == '\''
    ensures var i, j := ScannerEnd(delim, s, delim), CompilerEnd(s, delim);
            && j <= i <= |s|
            && (i == j <==> j == |s| || TrailingBackslashes(s[..j]) == 0)
            && Lex(delim, s, Quoted(delim), line, col) ==
               if i == |s| then Scan([], Quoted(delim))
               else Lex(delim, s[i + 1..], Code, Behind(s[..i], line, col).0, Behind(s[..i], line, col).1 + 1)
  {
    EndsCompare(s, delim);
    ScanResumes(s, delim, line, col);
  }

  // A text that opens a string which never closes for the scanner.
  lemma OpenStringReported(body: string)
    requires Escaped('"', body, '"') && Free(body, '\n')
    ensures Report(['"'] + body) == [UnterminatedString(1)]
  {
    var code := ['"'] + body;
    assert code[1..] == body;
    StringHides('"', body, '"', "", 1, 2);
    SplitOfJoin([code], '\n');
    assert Visible(code) == Scan([], Quoted('"'));
  }

  // A complete string that holds one escaped backslash is reported as open.
  lemma EscapedBackslashIsReported()
    ensures CompilerEnd("\\\\\"", '"') == 2
    ensures Report("\"\\\\\"") == [UnterminatedString(1)]
  {
    var body := "\\\\\"";
    assert body[2..] == "\"";
    OpenStringReported(body);
    assert ['"'] + body == "\"\\\\\"";
  }

  // ---- What is code, read off the text alone ----

  // The position of the line feed that ends the line of position i, |s| if none.
  function LineEnd(s: string, i: nat): nat
    decreases |s| - i
  {
    if i >= |s| then |s| else if s[i] == '\n' then i else LineEnd(s, i + 1)
  }

  // The position behind the first "*/" from i on.
  function CommentEnd(s: string, i: nat): Option<nat>
    decreases |s| - i
  {
    if i + 1 >= |s| then None
    else if s[i] == '*' && s[i + 1] == '/' then Some(i + 2)
    else CommentEnd(s, i + 1)
  }

  // The position behind the first delim from i on with no backslash before it.
  function StringEnd(s: string, i: nat, delim: char): Option<nat>
    requires i >= 1
    decreases |s| - i
  {
    if i >= |s| then None
    else if s[i] == delim && s[i - 1] != '\\' then Some(i + 1)
    else StringEnd(s, i + 1, delim)
  }

  lemma {:induction false} LineEndIs(s: string, i: nat)
    requires i <= |s|
    ensures i <= LineEnd(s, i) <= |s| && Free(s[i..LineEnd(s, i)], '\n')
    ensures LineEnd(s, i) < |s| ==> s[LineEnd(s, i)] == '\n'
    decreases |s| - i
  {
    if i < |s| && s[i] != '\n' {
      LineEndIs(s, i + 1);
      var e := LineEnd(s, i);
      assert s[i..e] == [s[i]] + s[i + 1..e];
    }
  }

  // body holds no "*/".
  ghost predicate NoEnd(body: string) {
    forall k :: 0 <= k < |body| - 1 ==> !(body[k] == '*' && body[k + 1] == '/')
  }

  lemma NoEndCons(c: char, body: string)
    ensures NoEnd([c] + body) <==> NoEnd(body) && !(c == '*' && body != "" && body[0] == '/')
  {
    var all := [c] + body;
    assert body != "" ==> all[0] == c && all[1] == body[0];
    if NoEnd(all) {
      forall k | 0 <= k < |body| - 1 ensures !(body[k] == '*' && body[k + 1] == '/') {
        assert !(all[k + 1] == '*' && all[k + 2] == '/');
      }
    }
    if NoEnd(body) && !(c == '*' && body != "" && body[0] == '/') {
      forall k | 0 <= k < |all| - 1 ensures !(all[k] == '*' && all[k + 1] == '/') {
        assert k > 0 ==> all[k] == body[k - 1] && all[k + 1] == body[k];
      }
    }
  }

  lemma FirstEndCons(c: char, body: string)
    requires FirstEnd(body) && !(c == '*' && body != "" && body[0] == '/')
    ensures FirstEnd([c] + body)
  {
    var all := [c] + body;
    forall k | 0 <= k < |all| && all[k] == '*' ensures k + 1 == |all| || all[k + 1] != '/' {
      if k > 0 {
        assert body[k - 1] == '*';
      }
    }
  }

  lemma {:induction false} CommentEndIs(s: string, i: nat)
    requires i <= |s|
    ensures match CommentEnd(s, i)
            case Some(e) => i + 2 <= e <= |s| && s[e - 2] == '*' && s[e - 1] == '/' && FirstEnd(s[i..e - 2])
            case None => NoEnd(s[i..])
    decreases |s| - i
  {
    if i + 1 < |s| && !(s[i] == '*' && s[i + 1] == '/') {
      CommentEndIs(s, i + 1);
      match CommentEnd(s, i)
      case None =>
        assert s[i..] == [s[i]] + s[i + 1..];
        NoEndCons(s[i], s[i + 1..]);
      case Some(e) =>
        assert s[i..e - 2] == [s[i]] + s[i + 1..e - 2];
        FirstEndCons(s[i], s[i + 1..e - 2]);
    }
  }

  // The same place as the scanner's.
  lemma {:induction false} StringEndIs(s: string, i: nat, delim: char)
    requires 1 <= i <= |s|
    ensures var e := ScannerEnd(s[i - 1], s[i..], delim);
            e <= |s| - i && StringEnd(s, i, delim) == if e == |s| - i then None else Some(i + e + 1)
    decreases |s| - i
  {
    if i < |s| && !(s[i] == delim && s[i - 1] != '\\') {
      StringEndIs(s, i + 1, delim);
      assert s[i..][1..] == s[i + 1..];
    }
  }

  // The positions of code, and the mode at the end of the text.
  datatype Reading = Reading(code: seq<nat>, end: Mode)

  predicate Starts(s: string, i: nat, first: char, second: char) {
    i + 1 < |s| && s[i] == first && s[i + 1] == second
  }

  // From position i, which is code, on: comments and strings are skipped whole.
  function Read(s: string, i: nat): Reading
    decreases |s| - i
  {
    if i >= |s| then Reading([], Code)
    else if Starts(s, i, '/', '/') then
      var e := LineEnd(s, i + 2);
      if i < e < |s| then Read(s, e) else Reading([], LineComment)
    else if Starts(s, i, '/', '*') then
      match CommentEnd(s, i + 2)
      case None => Reading([], BlockComment)
      case Some(e) => if i < e <= |s| then Read(s, e) else Reading([], Code)
    else if s[i] == '"' || s[i] == '\'' then
      match StringEnd(s, i + 1, s[i])
      case None => Reading([], Quoted(s[i]))
      case Some(e) => if i < e <= |s| then Read(s, e) else Reading([], Code)
    else
      var r := Read(s, i + 1);
      Reading([i] + r.code, r.end)
  }

  // The brackets among some positions of the text, at their lines and columns.
  function BracketsAt(s: string, positions: seq<nat>): seq<Mark> {
    if positions == [] then []
    else
      var i, rest := positions[0], BracketsAt(s, positions[1..]);
      if i < |s| && (IsOpener(s[i]) || IsCloser(s[i])) then [Mark(s[i], Behind(s[..i], 1, 1).0, Behind(s[..i], 1, 1).1)] + rest
      else rest
  }

  lemma {:induction false} BehindConcat(s: string, t: string, line: nat, col: nat)
    ensures Behind(s + t, line, col) == Behind(t, Behind(s, line, col).0, Behind(s, line, col).1)
    decreases |s|
  {
    if s == "" {
      assert s + t == t;
    } else {
      assert (s + t)[1..] == s[1..] + t;
      if s[0] == '\n' {
        BehindConcat(s[1..], t, line + 1, 1);
      } else {
        BehindConcat(s[1..], t, line, col + 1);
      }
    }
  }

  function LineAt(s: string, i: nat): nat
    requires i <= |s|
  {
    Behind(s[..i], 1, 1).0
  }

  function ColAt(s: string, i: nat): nat
    requires i <= |s|
  {
    Behind(s[..i], 1, 1).1
  }

  lemma NextPlace(s: string, i: nat)
    requires i < |s|
    ensures LineAt(s, i + 1) == (if s[i] == '\n' then LineAt(s, i) + 1 else LineAt(s, i))
    ensures ColAt(s, i + 1) == (if s[i] == '\n' then 1 else ColAt(s, i) + 1)
  {
    assert s[..i + 1] == s[..i] + [s[i]];
    assert [s[i]][1..] == "";
    BehindConcat(s[..i], [s[i]], 1, 1);
  }

  // The scan from position i on, by positions instead of rests.
  function ScanAt(s: string, i: nat, mode: Mode): Scan
    requires i <= |s|
    decreases |s| - i
  {
    if i == |s| then Scan([], mode)
    else if s[i] == '\n' then ScanAt(s, i + 1, if mode.LineComment? then Code else mode)
    else
      match mode
      case Quoted(d) => ScanAt(s, i + 1, if s[i] == d && (i == 0 || s[i - 1] != '\\') then Code else mode)
      case BlockComment => if Starts(s, i, '*', '/') then ScanAt(s, i + 2, Code) else ScanAt(s, i + 1, mode)
      case LineComment => ScanAt(s, i + 1, mode)
      case Code =>
        if Starts(s, i, '/', '*') then ScanAt(s, i + 2, BlockComment)
        else if Starts(s, i, '/', '/') then ScanAt(s, i + 1, LineComment)
        else if s[i] == '"' || s[i] == '\'' then ScanAt(s, i + 1, Quoted(s[i]))
        else if IsOpener(s[i]) || IsCloser(s[i]) then
          var r := ScanAt(s, i + 1, mode);
          Scan([Mark(s[i], LineAt(s, i), ColAt(s, i))] + r.marks, r.end)
        else ScanAt(s, i + 1, mode)
  }

  predicate IsBefore(s: string, i: nat, prev: char)
    requires i <= |s|
  {
    prev == if i == 0 then '\n' else s[i - 1]
  }

  // Characters and rests at position i.
  lemma RestsAt(s: string, i: nat)
    requires i < |s|
    ensures s[i..] != "" && s[i..][0] == s[i] && s[i..][1..] == s[i + 1..]
    ensures i + 1 < |s| ==> s[i..][1] == s[i + 1] && s[i..][2..] == s[i + 2..]
  {
  }

  lemma {:induction false} LexIsScanAt(s: string, i: nat, mode: Mode, prev: char)
    requires i <= |s| && IsBefore(s, i, prev)
    ensures Lex(prev, s[i..], mode, LineAt(s, i), ColAt(s, i)) == ScanAt(s, i, mode)
    decreases |s| - i
  {
    if i == |s| {
      assert s[i..] == "";
    } else if Skips(s, i, mode) {
      var next := if mode.Code? then BlockComment else Code;
      LexSkips(s, i, mode, prev);
      LexIsScanAt(s, i + 2, next, s[i + 1]);
    } else {
      LexGoesOn(s, i, mode, prev);
      LexIsScanAt(s, i + 1, ModeBehind(s, i, mode), s[i]);
      ScanAtGoesOn(s, i, mode);
    }
  }

  lemma LexSkips(s: string, i: nat, mode: Mode, prev: char)
    requires i < |s| && Skips(s, i, mode)
    ensures i + 2 <= |s|
    ensures Lex(prev, s[i..], mode, LineAt(s, i), ColAt(s, i)) ==
            Lex(s[i + 1], s[i + 2..], if mode.Code? then BlockComment else Code, LineAt(s, i + 2), ColAt(s, i + 2))
  {
    RestsAt(s, i);
    NextPlace(s, i);
    NextPlace(s, i + 1);
  }

  // The bracket seen at position i, put before what is seen behind it.
  function Sees(s: string, i: nat, mode: Mode, after: Scan): Scan
    requires i < |s|
  {
    if mode.Code? && (IsOpener(s[i]) || IsCloser(s[i]))
    then Scan([Mark(s[i], LineAt(s, i), ColAt(s, i))] + after.marks, after.end) else after
  }

  lemma LexGoesOn(s: string, i: nat, mode: Mode, prev: char)
    requires i < |s| && IsBefore(s, i, prev) && !Skips(s, i, mode)
    ensures Lex(prev, s[i..], mode, LineAt(s, i), ColAt(s, i)) ==
            Sees(s, i, mode, Lex(s[i], s[i + 1..], ModeBehind(s, i, mode), LineAt(s, i + 1), ColAt(s, i + 1)))
  {
    NextPlace(s, i);
    RestsAt(s, i);
    if s[i] == '\n' {
      LexAtLineFeed(prev, s[i..], mode, LineAt(s, i), ColAt(s, i));
    } else if mode.Code? {
      LexInCode(prev, s[i..], LineAt(s, i), ColAt(s, i));
    } else {
      LexElsewhere(prev, s[i..], mode, LineAt(s, i), ColAt(s, i));
    }
  }

  lemma LexAtLineFeed(prev: char, s: string, mode: Mode, line: nat, col: nat)
    requires s != "" && s[0] == '\n'
    ensures Lex(prev, s, mode, line, col) == Lex('\n', s[1..], if mode.LineComment? then Code else mode, line + 1, 1)
  {
  }

  lemma LexInCode(prev: char, s: string, line: nat, col: nat)
    requires s != "" && s[0] != '\n' && !Starts(s, 0, '/', '*')
    ensures var next := ModeBehind(s, 0, Code);
            var r := Lex(s[0], s[1..], next, line, col + 1);
            Lex(prev, s, Code, line, col) ==
            if IsOpener(s[0]) || IsCloser(s[0]) then Scan([Mark(s[0], line, col)] + r.marks, r.end) else r
  {
  }

  lemma LexElsewhere(prev: char, s: string, mode: Mode, line: nat, col: nat)
    requires s != "" && s[0] != '\n' && !mode.Code? && !Skips(s, 0, mode)
    ensures Lex(prev, s, mode, line, col) ==
            Lex(s[0], s[1..], if mode.Quoted? && s[0] == mode.delim && prev != '\\' then Code else mode, line, col + 1)
  {
  }

  lemma ScanAtGoesOn(s: string, i: nat, mode: Mode)
    requires i < |s| && !Skips(s, i, mode)
    ensures ScanAt(s, i, mode) == Sees(s, i, mode, ScanAt(s, i + 1, ModeBehind(s, i, mode)))
  {
  }

  // The step from position i takes two characters.
  predicate Skips(s: string, i: nat, mode: Mode) {
    (mode.Code? && Starts(s, i, '/', '*')) || (mode.BlockComment? && Starts(s, i, '*', '/'))
  }

  // The mode behind a step of one character.
  function ModeBehind(s: string, i: nat, mode: Mode): Mode
    requires i < |s|
  {
    if s[i] == '\n' then if mode.LineComment? then Code else mode
    else
      match mode
      case Quoted(d) => if s[i] == d && (i == 0 || s[i - 1] != '\\') then Code else mode
      case BlockComment => mode
      case LineComment => mode
      case Code =>
        if Starts(s, i, '/', '/') then LineComment
        else if s[i] == '"' || s[i] == '\'' then Quoted(s[i])
        else Code
  }

  lemma {:induction false} InString(s: string, i: nat, delim: char)
    requires 1 <= i <= |s| && delim != '\n'
    ensures match StringEnd(s, i, delim)
            case None => ScanAt(s, i, Quoted(delim)) == Scan([], Quoted(delim))
            case Some(e) => i < e <= |s| && ScanAt(s, i, Quoted(delim)) == ScanAt(s, e, Code)
    decreases |s| - i
  {
    if i < |s| && !(s[i] == delim && s[i - 1] != '\\') {
      InString(s, i + 1, delim);
    }
  }

  lemma {:induction false} InBlockComment(s: string, i: nat)
    requires i <= |s|
    ensures match CommentEnd(s, i)
            case None => ScanAt(s, i, BlockComment) == Scan([], BlockComment)
            case Some(e) => i < e <= |s| && ScanAt(s, i, BlockComment) == ScanAt(s, e, Code)
    decreases |s| - i
  {
    if i < |s| && !Starts(s, i, '*', '/') {
      InBlockComment(s, i + 1);
    }
  }

  lemma {:induction false} InLineComment(s: string, i: nat)
    requires i <= |s|
    ensures var e := LineEnd(s, i);
            i <= e <= |s| && ScanAt(s, i, LineComment) == if e == |s| then Scan([], LineComment) else ScanAt(s, e, Code)
    decreases |s| - i
  {
    if i < |s| && s[i] != '\n' {
      InLineComment(s, i + 1);
    }
  }

  lemma {:induction false} ScanIsRead(s: string, i: nat)
    requires i <= |s|
    ensures ScanAt(s, i, Code) == Scan(BracketsAt(s, Read(s, i).code), Read(s, i).end)
    decreases |s| - i
  {
    if i == |s| {
    } else if Starts(s, i, '/', '/') {
      InLineComment(s, i + 2);
      if LineEnd(s, i + 2) < |s| {
        ScanIsRead(s, LineEnd(s, i + 2));
      }
    } else if Starts(s, i, '/', '*') {
      InBlockComment(s, i + 2);
      if CommentEnd(s, i + 2).Some? {
        ScanIsRead(s, CommentEnd(s, i + 2).value);
      }
    } else if s[i] == '"' || s[i] == '\'' {
      InString(s, i + 1, s[i]);
      if StringEnd(s, i + 1, s[i]).Some? {
        ScanIsRead(s, StringEnd(s, i + 1, s[i]).value);
      }
    } else {
      ScanIsRead(s, i + 1);
      var r := Read(s, i + 1);
      assert ([i] + r.code)[1..] == r.code;
    }
  }

  // For every text the scan sees exactly the brackets at the positions of code,
  // in order and at their lines and columns, and ends in the mode the text ends in.
  lemma VisibleExactly(code: string)
    ensures Visible(code) == Scan(BracketsAt(code, Read(code, 0).code), Read(code, 0).end)
  {
    assert code[0..] == code && code[..0] == "";
    LexIsScanAt(code, 0, Code, '\n');
    ScanIsRead(code, 0);
  }

  // So checkCommon is silent exactly when the brackets at the positions of code
  // form a balanced word and the text ends outside strings and block comments.
  lemma SilentByReading(code: string)
    ensures Report(code) == [] <==>
            Balanced(Word(BracketsAt(code, Read(code, 0).code))) && Read(code, 0).end in {Code, LineComment}
  {
    VisibleExactly(code);
    SilentExactlyWhen(code);
  }

  // Text without quotes and slashes is code throughout.
  lemma {:induction false} PlainTextIsCode(s: string, i: nat)
    requires i <= |s| && Free(s, '"') && Free(s, '\'') && Free(s, '/')
    ensures Read(s, i) == Reading(seq(|s| - i, k requires 0 <= k < |s| - i => i + k), Code)
    decreases |s| - i
  {
    if i < |s| {
      PlainTextIsCode(s, i + 1);
    }
  }

  // ---- Complaints point at the brackets they name ----

  ghost predicate InPlace(lines: seq<string>, m: Mark) {
    1 <= m.line <= |lines| && 1 <= m.col <= |lines[m.line - 1]| && lines[m.line - 1][m.col - 1] == m.ch
  }

  ghost predicate AllInPlace(lines: seq<string>, marks: seq<Mark>) {
    forall i :: 0 <= i < |marks| ==> InPlace(lines, marks[i])
  }

  function Tail(lines: seq<string>, l: nat): string
    requires 1 <= l <= |lines|
  {
    if l < |lines| then ['\n'] + Join(lines[l..], '\n') else ""
  }

  lemma JoinIsHeadAndTail(lines: seq<string>, l: nat)
    requires 1 <= l <= |lines|
    ensures Join(lines[l - 1..], '\n') == lines[l - 1][0..] + Tail(lines, l)
  {
    assert lines[l - 1..][1..] == lines[l..] && lines[l - 1][0..] == lines[l - 1];
  }

  // One step of the scan within a line moves over k characters.
  lemma LexStep(prev: char, s: string, mode: Mode, line: nat, col: nat) returns (k: nat, next: Mode)
    requires s != "" && s[0] != '\n'
    ensures 1 <= k <= |s| && k <= 2 && (k == 2 ==> s[1] != '\n')
    ensures var marks, after := Lex(prev, s, mode, line, col).marks, Lex(s[k - 1], s[k..], next, line, col + k).marks;
            marks == after || marks == [Mark(s[0], line, col)] + after
  {
    k, next := 1, mode;
    match mode
    case Quoted(d) =>
      if s[0] == d && prev != '\\' {
        next := Code;
      }
    case BlockComment =>
      if s[0] == '*' && |s| > 1 && s[1] == '/' {
        k, next := 2, Code;
      }
    case LineComment =>
    case Code =>
      if s[0] == '/' && |s| > 1 && s[1] == '*' {
        k, next := 2, BlockComment;
      } else if s[0] == '/' && |s| > 1 && s[1] == '/' {
        next := LineComment;
      } else if s[0] == '"' || s[0] == '\'' {
        next := Quoted(s[0]);
      }
  }

  lemma ConsInPlace(lines: seq<string>, m: Mark, marks: seq<Mark>)
    requires InPlace(lines, m) && AllInPlace(lines, marks)
    ensures AllInPlace(lines, [m] + marks)
  {
  }

  // Every bracket the scan sees from line l and column c on is where it says.
  lemma {:induction false} MarksInPlace(lines: seq<string>, prev: char, mode: Mode, l: nat, c: nat)
    requires AllFree(lines, '\n') && 1 <= l <= |lines| && 1 <= c <= |lines[l - 1]| + 1
    ensures AllInPlace(lines, Lex(prev, lines[l - 1][c - 1..] + Tail(lines, l), mode, l, c).marks)
    decreases |lines| - l, |lines[l - 1]| + 1 - c
  {
    var line, tail := lines[l - 1], Tail(lines, l);
    var rest := line[c - 1..] + tail;
    if c <= |line| {
      RestAt(line, tail, c - 1);
      var k, next := LexStep(prev, rest, mode, l, c);
      MarksInPlace(lines, rest[k - 1], next, l, c + k);
      ConsInPlace(lines, Mark(rest[0], l, c), Lex(rest[k - 1], rest[k..], next, l, c + k).marks);
    } else if l < |lines| {
      assert rest == tail && rest[1..] == Join(lines[l..], '\n');
      JoinIsHeadAndTail(lines, l + 1);
      MarksInPlace(lines, '\n', if mode.LineComment? then Code else mode, l + 1, 1);
    }
  }

  lemma {:induction false} MatchKeepsMarks(marks: seq<Mark>, stack: seq<Mark>, errors: seq<Problem>, all: set<Mark>)
    requires forall m :: m in marks || m in stack || UnmatchedClosing(m) in errors ==> m in all
    requires forall m :: m in stack ==> IsOpener(m.ch)
    requires forall p :: p in errors ==> p.UnmatchedClosing? && !IsOpener(p.at.ch)
    ensures var r := Match(marks, stack, errors);
            && (forall m :: m in r.0 ==> m in all && IsOpener(m.ch))
            && (forall p :: p in r.1 ==> p.UnmatchedClosing? && p.at in all && !IsOpener(p.at.ch))
    decreases |marks|
  {
    if marks == [] {
      forall p | p in errors ensures p.at in all {
        assert UnmatchedClosing(p.at) in errors;
      }
    } else {
      var m := marks[0];
      if IsOpener(m.ch) {
        MatchKeepsMarks(marks[1..], stack + [m], errors, all);
      } else if stack != [] && Pair(stack[|stack| - 1].ch, m.ch) {
        MatchKeepsMarks(marks[1..], stack[..|stack| - 1], errors, all);
      } else {
        MatchKeepsMarks(marks[1..], stack, errors + [UnmatchedClosing(m)], all);
      }
    }
  }

  // Every complaint about a bracket names one that stands at that line and
  // column of the text: a closer when unmatched, an opener when unclosed.
  lemma ReportPointsAtBrackets(code: string, p: Problem)
    requires p in Report(code)
    ensures var lines := Split(code, '\n');
            match p
            case UnmatchedClosing(m) => InPlace(lines, m) && !IsOpener(m.ch)
            case Unclosed(m) => InPlace(lines, m) && IsOpener(m.ch)
            case UnterminatedString(line) => line == |lines|
            case UnterminatedComment(line) => line == |lines|
  {
    var lines, marks := Split(code, '\n'), Visible(code).marks;
    JoinOfSplit(code, '\n');
    JoinIsHeadAndTail(lines, 1);
    assert lines[0..] == lines;
    MarksInPlace(lines, '\n', Code, 1, 1);
    MatchKeepsMarks(marks, [], [], set m | m in marks);
  }

  // ---- Complaints come in text order ----

  predicate Earlier(a: Mark, b: Mark) { a.line < b.line || (a.line == b.line && a.col < b.col) }

  ghost predicate InOrder(marks: seq<Mark>) {
    forall i, j :: 0 <= i < j < |marks| ==> Earlier(marks[i], marks[j])
  }

  ghost predicate NotBefore(marks: seq<Mark>, line: nat, col: nat) {
    forall i :: 0 <= i < |marks| ==> marks[i].line > line || (marks[i].line == line && marks[i].col >= col)
  }

  lemma {:induction false} LexInOrder(prev: char, s: string, mode: Mode, line: nat, col: nat)
    ensures InOrder(Lex(prev, s, mode, line, col).marks) && NotBefore(Lex(prev, s, mode, line, col).marks, line, col)
    decreases |s|
  {
    if s == "" {
    } else if s[0] == '\n' {
      LexAtLineFeed(prev, s, mode, line, col);
      LexInOrder('\n', s[1..], if mode.LineComment? then Code else mode, line + 1, 1);
    } else {
      var k, next := LexStep(prev, s, mode, line, col);
      LexInOrder(s[k - 1], s[k..], next, line, col + k);
      FirstInOrder(Mark(s[0], line, col), Lex(s[k - 1], s[k..], next, line, col + k).marks, line, col + k);
    }
  }

  lemma FirstInOrder(m: Mark, marks: seq<Mark>, line: nat, col: nat)
    requires InOrder(marks) && NotBefore(marks, line, col) && m.line == line && m.col < col
    ensures InOrder([m] + marks) && NotBefore([m] + marks, m.line, m.col) && NotBefore(marks, m.line, m.col)
  {
    var all := [m] + marks;
    assert forall i :: 0 < i < |all| ==> all[i] == marks[i - 1];
  }

  function Places(errors: seq<Problem>): seq<Mark>
    requires forall i :: 0 <= i < |errors| ==> errors[i].UnmatchedClosing?
  {
    seq(|errors|, i requires 0 <= i < |errors| => errors[i].at)
  }

  ghost predicate AllEarlier(some: seq<Mark>, marks: seq<Mark>) {
    forall i, j :: 0 <= i < |some| && 0 <= j < |marks| ==> Earlier(some[i], marks[j])
  }

  lemma AppendInOrder(some: seq<Mark>, m: Mark, marks: seq<Mark>)
    requires InOrder(some) && InOrder([m] + marks) && AllEarlier(some, [m] + marks)
    ensures InOrder(some + [m]) && AllEarlier(some + [m], marks) && AllEarlier(some, marks) && InOrder(marks)
  {
    var all := [m] + marks;
    assert all[0] == m && forall i :: 0 <= i < |marks| ==> all[i + 1] == marks[i];
  }

  lemma {:induction false} MatchInOrder(marks: seq<Mark>, stack: seq<Mark>, errors: seq<Problem>)
    requires forall i :: 0 <= i < |errors| ==> errors[i].UnmatchedClosing?
    requires InOrder(marks) && InOrder(stack) && InOrder(Places(errors))
    requires AllEarlier(stack, marks) && AllEarlier(Places(errors), marks)
    ensures var r := Match(marks, stack, errors);
            && (forall i :: 0 <= i < |r.1| ==> r.1[i].UnmatchedClosing?)
            && InOrder(r.0) && InOrder(Places(r.1))
    decreases |marks|
  {
    if marks != [] {
      var m, rest := marks[0], marks[1..];
      assert marks == [m] + rest;
      AppendInOrder(stack, m, rest);
      AppendInOrder(Places(errors), m, rest);
      if IsOpener(m.ch) {
        MatchInOrder(rest, stack + [m], errors);
      } else if stack != [] && Pair(stack[|stack| - 1].ch, m.ch) {
        MatchInOrder(rest, stack[..|stack| - 1], errors);
      } else {
        assert Places(errors + [UnmatchedClosing(m)]) == Places(errors) + [m];
        MatchInOrder(rest, stack, errors + [UnmatchedClosing(m)]);
      }
    }
  }

  // The report, part by part.
  lemma ReportParts(code: string, k: nat)
    requires k < |Report(code)|
    ensures var r := Match(Visible(code).marks, [], []);
            if k < |r.1| then Report(code)[k] == r.1[k]
            else if k < |r.1| + |r.0| then Report(code)[k] == Unclosed(r.0[k - |r.1|])
            else Report(code)[k].UnterminatedString? || Report(code)[k].UnterminatedComment?
  {
  }

  // Unmatched closers come first, then unclosed openers, each in text order and
  // so each at most once.
  lemma ReportInOrder(code: string, i: nat, j: nat)
    requires i < j < |Report(code)|
    ensures var a, b := Report(code)[i], Report(code)[j];
            && (a.UnmatchedClosing? && b.UnmatchedClosing? ==> Earlier(a.at, b.at))
            && (a.Unclosed? && b.Unclosed? ==> Earlier(a.at, b.at))
            && (b.UnmatchedClosing? ==> a.UnmatchedClosing?)
            && (b.Unclosed? ==> a.UnmatchedClosing? || a.Unclosed?)
  {
    LexInOrder('\n', code, Code, 1, 1);
    MatchInOrder(Visible(code).marks, [], []);
    ReportParts(code, i);
    ReportParts(code, j);
    var r := Match(Visible(code).marks, [], []);
    assert forall k :: 0 <= k < |r.1| ==> Places(r.1)[k] == r.1[k].at;
  }

  // A text that ends inside a string or a block comment is reported as such,
  // and no other text is.
  lemma EndComplaints(code: string, line: nat)
    ensures UnterminatedString(line) in Report(code) <==> Read(code, 0).end.Quoted? && line == |Split(code, '\n')|
    ensures UnterminatedComment(line) in Report(code) <==> Read(code, 0).end.BlockComment? && line == |Split(code, '\n')|
  {
    VisibleExactly(code);
    MatchKeepsMarks(Visible(code).marks, [], [], set m | m in Visible(code).marks);
    var r := Match(Visible(code).marks, [], []);
    assert Report(code) == r.1 + Leftover(r.0) + EndOf(code);
    assert forall p :: p in Leftover(r.0) ==> p.Unclosed?;
    assert forall p :: p in Report(code) <==> p in r.1 || p in Leftover(r.0) || p in EndOf(code);
  }

  function EndOf(code: string): seq<Problem> {
    (if Visible(code).end.Quoted? then [UnterminatedString(|Split(code, '\n')|)] else [])
    + (if Visible(code).end.BlockComment? then [UnterminatedComment(|Split(code, '\n')|)] else [])
  }

  // ---- Exactly which brackets are complained about ----

  // Some opener of w that pairs with c is followed by a balanced word only: it
  // is the innermost one still open.
  ghost predicate ClosesOpen(w: string, c: char) {
    exists i :: 0 <= i < |w| && Pair(w[i], c) && Balanced(w[i + 1..])
  }

  // The brackets that are left when every closer that closes nothing is taken
  // out, from the start of the text on.
  ghost function Kept(marks: seq<Mark>): seq<Mark> {
    if marks == [] then []
    else
      var kept, m := Kept(marks[..|marks| - 1]), marks[|marks| - 1];
      if IsOpener(m.ch) || ClosesOpen(Word(kept), m.ch) then kept + [m] else kept
  }

  ghost function TakenOut(marks: seq<Mark>): seq<Problem> {
    if marks == [] then []
    else
      var before, m := marks[..|marks| - 1], marks[|marks| - 1];
      if IsOpener(m.ch) || ClosesOpen(Word(Kept(before)), m.ch) then TakenOut(before)
      else TakenOut(before) + [UnmatchedClosing(m)]
  }

  // marks are the openers open, in order, with balanced words between them.
  ghost predicate Leaves(marks: seq<Mark>, unclosed: seq<Mark>)
    decreases |unclosed|
  {
    if unclosed == [] then Balanced(Word(marks))
    else exists i :: 0 <= i < |marks| && EndsOpen(marks, i, unclosed[|unclosed| - 1]) && Leaves(marks[..i], unclosed[..|unclosed| - 1])
  }

  ghost predicate EndsOpen(marks: seq<Mark>, i: nat, m: Mark)
    requires i < |marks|
  {
    marks[i] == m && IsOpener(m.ch) && Balanced(Word(marks[i + 1..]))
  }

  lemma MatchSnoc(marks: seq<Mark>, m: Mark, stack: seq<Mark>, errors: seq<Problem>)
    ensures var r := Match(marks, stack, errors);
            Match(marks + [m], stack, errors) ==
            if IsOpener(m.ch) then (r.0 + [m], r.1)
            else if r.0 != [] && Pair(r.0[|r.0| - 1].ch, m.ch) then (r.0[..|r.0| - 1], r.1)
            else (r.0, r.1 + [UnmatchedClosing(m)])
    decreases |marks|
  {
    if marks == [] {
      assert [] + [m] == [m] + [];
      MatchCons(m, [], stack, errors);
    } else {
      var f, rest := marks[0], marks[1..];
      assert marks == [f] + rest && marks + [m] == [f] + (rest + [m]);
      MatchCons(f, rest, stack, errors);
      MatchCons(f, rest + [m], stack, errors);
      if IsOpener(f.ch) {
        MatchSnoc(rest, m, stack + [f], errors);
      } else if stack != [] && Pair(stack[|stack| - 1].ch, f.ch) {
        MatchSnoc(rest, m, stack[..|stack| - 1], errors);
      } else {
        MatchSnoc(rest, m, stack, errors + [UnmatchedClosing(f)]);
      }
    }
  }

  lemma {:induction false} BalancedConcat(u: string, v: string)
    requires Balanced(u) && Balanced(v)
    ensures Balanced(u + v)
    decreases |u|
  {
    if u == "" {
      assert u + v == v;
    } else {
      var o, x, c, y := BalancedSplits(u);
      BalancedConcat(y, v);
      BalancedCons(o, x, c, y + v);
      LastRegrouped(o, x, c, y, v);
    }
  }

  lemma LastRegrouped(o: char, x: string, c: char, y: string, v: string)
    ensures [o] + x + [c] + (y + v) == [o] + x + [c] + y + v
  {
  }

  // A word that ends in an opener and a balanced word closes nothing fully.
  lemma {:induction false} OpenEndIsNotClosed(y: string, o: char, b: string, stack: string)
    requires IsOpener(o) && Balanced(b)
    ensures !Closes(y + ([o] + b), stack)
    decreases |y|
  {
    if y == "" {
      assert y + ([o] + b) == [o] + b;
      ClosesOpener(o, b, stack);
      BalancedLeavesStack(b, "", stack + [o]);
      assert b + "" == b;
    } else {
      var w := y + ([o] + b);
      assert w[0] == y[0] && w[1..] == y[1..] + ([o] + b);
      if IsOpener(w[0]) {
        OpenEndIsNotClosed(y[1..], o, b, stack + [w[0]]);
      } else if stack != "" {
        OpenEndIsNotClosed(y[1..], o, b, stack[..|stack| - 1]);
      }
    }
  }

  lemma OpenEndIsNotBalanced(w: string, i: nat)
    requires i < |w| && IsOpener(w[i]) && Balanced(w[i + 1..])
    ensures !Balanced(w)
  {
    assert w == w[..i] + ([w[i]] + w[i + 1..]);
    OpenEndIsNotClosed(w[..i], w[i], w[i + 1..], "");
    ClosesExactlyWhenBalanced(w);
  }

  // The innermost open opener is the last one left.
  lemma InnermostIsLast(marks: seq<Mark>, unclosed: seq<Mark>, i: nat)
    requires Leaves(marks, unclosed) && i < |marks| && IsOpener(marks[i].ch) && Balanced(Word(marks[i + 1..]))
    ensures unclosed != [] && marks[i] == unclosed[|unclosed| - 1]
  {
    var w := Word(marks);
    assert Word(marks[i + 1..]) == w[i + 1..];
    if unclosed == [] {
      OpenEndIsNotBalanced(w, i);
    } else {
      var k :| 0 <= k < |marks| && EndsOpen(marks, k, unclosed[|unclosed| - 1]) && Leaves(marks[..k], unclosed[..|unclosed| - 1]);
      assert Word(marks[k + 1..]) == w[k + 1..];
      OnlyOneInnermost(w, i, k);
    }
  }

  lemma OnlyOneInnermost(w: string, i: nat, k: nat)
    requires i < |w| && k < |w| && IsOpener(w[i]) && IsOpener(w[k]) && Balanced(w[i + 1..]) && Balanced(w[k + 1..])
    ensures i == k
  {
    if k < i {
      assert w[k + 1..][i - k - 1] == w[i] && w[k + 1..][i - k..] == w[i + 1..];
      OpenEndIsNotBalanced(w[k + 1..], i - k - 1);
    } else if i < k {
      assert w[i + 1..][k - i - 1] == w[k] && w[i + 1..][k - i..] == w[k + 1..];
      OpenEndIsNotBalanced(w[i + 1..], k - i - 1);
    }
  }

  lemma EndsOpenBehind(marks: seq<Mark>, k: nat, m: Mark, more: seq<Mark>)
    requires k < |marks| && EndsOpen(marks, k, m) && Balanced(Word(more))
    ensures EndsOpen(marks + more, k, m) && (marks + more)[..k] == marks[..k]
  {
    SlicesOfConcat(marks, more, k);
    BalancedConcat(Word(marks[k + 1..]), Word(more));
    WordConcat(marks[k + 1..], more);
  }

  lemma SlicesOfConcat(marks: seq<Mark>, more: seq<Mark>, k: nat)
    requires k < |marks|
    ensures (marks + more)[k + 1..] == marks[k + 1..] + more && (marks + more)[..k] == marks[..k]
  {
  }

  lemma WordConcat(a: seq<Mark>, b: seq<Mark>)
    ensures Word(a + b) == Word(a) + Word(b)
  {
  }

  lemma LeavesBehind(marks: seq<Mark>, unclosed: seq<Mark>, more: seq<Mark>)
    requires Leaves(marks, unclosed) && Balanced(Word(more))
    ensures Leaves(marks + more, unclosed)
  {
    if unclosed == [] {
      BalancedConcat(Word(marks), Word(more));
      WordConcat(marks, more);
    } else {
      var k :| 0 <= k < |marks| && EndsOpen(marks, k, unclosed[|unclosed| - 1]) && Leaves(marks[..k], unclosed[..|unclosed| - 1]);
      EndsOpenBehind(marks, k, unclosed[|unclosed| - 1], more);
    }
  }

  lemma LeavesOpener(marks: seq<Mark>, unclosed: seq<Mark>, m: Mark)
    requires Leaves(marks, unclosed) && IsOpener(m.ch)
    ensures Leaves(marks + [m], unclosed + [m])
  {
    var all := marks + [m];
    assert all[|marks| + 1..] == [] && Word([]) == "" && all[..|marks|] == marks;
    assert EndsOpen(all, |marks|, m);
    assert (unclosed + [m])[..|unclosed|] == unclosed;
  }

  // Where the last open opener stands.
  lemma LastOpen(marks: seq<Mark>, unclosed: seq<Mark>) returns (k: nat)
    requires Leaves(marks, unclosed) && unclosed != []
    ensures k < |marks| && marks[k] == unclosed[|unclosed| - 1]
    ensures EndsOpen(marks, k, marks[k]) && Leaves(marks[..k], unclosed[..|unclosed| - 1])
  {
    k :| 0 <= k < |marks| && EndsOpen(marks, k, unclosed[|unclosed| - 1]) && Leaves(marks[..k], unclosed[..|unclosed| - 1]);
  }

  lemma LeavesClosed(marks: seq<Mark>, unclosed: seq<Mark>, m: Mark)
    requires Leaves(marks, unclosed) && unclosed != [] && Pair(unclosed[|unclosed| - 1].ch, m.ch)
    ensures Leaves(marks + [m], unclosed[..|unclosed| - 1]) && ClosesOpen(Word(marks), m.ch)
  {
    var k := LastOpen(marks, unclosed);
    CloseLast(marks, k, unclosed[..|unclosed| - 1], m);
  }

  lemma CloseLast(marks: seq<Mark>, k: nat, before: seq<Mark>, m: Mark)
    requires k < |marks| && EndsOpen(marks, k, marks[k]) && Leaves(marks[..k], before) && Pair(marks[k].ch, m.ch)
    ensures Leaves(marks + [m], before) && ClosesOpen(Word(marks), m.ch)
  {
    PairIsBalanced(marks, k, m);
    LeavesBehind(marks[..k], before, marks[k..] + [m]);
    assert marks + [m] == marks[..k] + (marks[k..] + [m]);
  }

  lemma PairIsBalanced(marks: seq<Mark>, k: nat, m: Mark)
    requires k < |marks| && EndsOpen(marks, k, marks[k]) && Pair(marks[k].ch, m.ch)
    ensures Balanced(Word(marks[k..] + [m])) && ClosesOpen(Word(marks), m.ch)
  {
    var inner := marks[k + 1..];
    assert Word(marks)[k + 1..] == Word(inner) && Word(marks)[k] == marks[k].ch;
    BalancedCons(marks[k].ch, Word(inner), m.ch, "");
    assert marks[k..] == [marks[k]] + inner;
    WordOfPair(marks[k], inner, m);
  }

  lemma WordOfPair(o: Mark, inner: seq<Mark>, m: Mark)
    ensures Word([o] + inner + [m]) == [o.ch] + Word(inner) + [m.ch] + ""
  {
  }

  // A closer is reported exactly when no pairing opener is the innermost open
  // one among the brackets before it that were not reported; what stays on the
  // stack are the openers still open.
  lemma {:induction false} MatchExactly(marks: seq<Mark>)
    requires forall i :: 0 <= i < |marks| ==> IsOpener(marks[i].ch) || IsCloser(marks[i].ch)
    ensures var r := Match(marks, [], []);
            r.1 == TakenOut(marks) && Leaves(Kept(marks), r.0)
  {
    if marks == [] {
      assert Word([]) == "";
    } else {
      var before, m := marks[..|marks| - 1], marks[|marks| - 1];
      MatchExactly(before);
      assert marks == before + [m];
      MatchSnoc(before, m, [], []);
      MatchOne(Kept(before), Match(before, [], []).0, m);
    }
  }

  lemma MatchOne(kept: seq<Mark>, stack: seq<Mark>, m: Mark)
    requires Leaves(kept, stack)
    ensures IsOpener(m.ch) ==> Leaves(kept + [m], stack + [m])
    ensures !IsOpener(m.ch) && stack != [] && Pair(stack[|stack| - 1].ch, m.ch) ==>
              ClosesOpen(Word(kept), m.ch) && Leaves(kept + [m], stack[..|stack| - 1])
    ensures !IsOpener(m.ch) && !(stack != [] && Pair(stack[|stack| - 1].ch, m.ch)) ==> !ClosesOpen(Word(kept), m.ch)
  {
    if IsOpener(m.ch) {
      LeavesOpener(kept, stack, m);
    } else if stack != [] && Pair(stack[|stack| - 1].ch, m.ch) {
      LeavesClosed(kept, stack, m);
    } else {
      ClosesNothing(kept, stack, m);
    }
  }

  lemma ClosesNothing(kept: seq<Mark>, stack: seq<Mark>, m: Mark)
    requires Leaves(kept, stack) && !(stack != [] && Pair(stack[|stack| - 1].ch, m.ch))
    ensures !ClosesOpen(Word(kept), m.ch)
  {
    forall i | 0 <= i < |kept| && Balanced(Word(kept)[i + 1..]) ensures !Pair(Word(kept)[i], m.ch) {
      if IsOpener(kept[i].ch) {
        assert Word(kept[i + 1..]) == Word(kept)[i + 1..];
        InnermostIsLast(kept, stack, i);
      }
    }
  }
}

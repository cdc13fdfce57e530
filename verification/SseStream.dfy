// The event stream between the AI diagnosis handler and its browser client:
// the writer of one event and the incremental parser of a chunked stream.
module SseStream {
  import opened Text

  datatype Event = Event(name: string, data: string)

  // The characters that JavaScript's String.prototype.trim removes.
  predicate IsSpace(c: char) {
    '\t' <= c <= '\r' || c == ' ' || c == '\U{00A0}' || c == '\U{1680}' || '\U{2000}' <= c <= '\U{200A}' ||
    c == '\U{2028}' || c == '\U{2029}' || c == '\U{202F}' || c == '\U{205F}' || c == '\U{3000}' || c == '\U{FEFF}'
  }

  // String.prototype.trim
  function JsTrim(s: string): string { Trim(s, IsSpace) }

  // An event that the wire format can carry.
  ghost predicate Clean(e: Event) {
    Free(e.name, '\n') && Free(e.data, '\n') && Trimmed(e.name, IsSpace) && Trimmed(e.data, IsSpace)
  }

  // ---- The writer ----

  // writeSSE; the name line is left out for an unnamed event.
  function Write(e: Event): string {
    if e.name != "" then "event: " + e.name + "\ndata: " + e.data + "\n\n" else "data: " + e.data + "\n\n"
  }

  function WriteAll(events: seq<Event>): string {
    if events == [] then "" else Write(events[0]) + WriteAll(events[1..])
  }

  // ---- The client ----

  // buffer.split('\n\n'): leftmost, non-overlapping.
  function SplitBlank(s: string): (parts: seq<string>)
    ensures |parts| >= 1
  {
    if |s| < 2 then [s]
    else if s[0] == '\n' && s[1] == '\n' then [""] + SplitBlank(s[2..])
    else Prepend(s[0], SplitBlank(s[1..]))
  }

  function Prepend(c: char, parts: seq<string>): (r: seq<string>)
    requires |parts| >= 1
    ensures |r| == |parts|
  {
    [[c] + parts[0]] + parts[1..]
  }

  // The complete parts, and the remainder that stays in the buffer.
  function Complete(parts: seq<string>): seq<string>
    requires |parts| >= 1
  {
    parts[..|parts| - 1]
  }

  function Remainder(parts: seq<string>): string
    requires |parts| >= 1
  {
    parts[|parts| - 1]
  }

  predicate StartsWith(s: string, p: string) { |p| <= |s| && s[..|p|] == p }

  function ParseLine(e: Event, line: string): Event {
    if StartsWith(line, "event: ") then e.(name := JsTrim(line[7..]))
    else if StartsWith(line, "data: ") then e.(data := JsTrim(line[6..]))
    else e
  }

  // The loop over the lines of one part; the last line of each kind wins.
  function ParseLines(lines: seq<string>): Event {
    if lines == [] then Event("", "")
    else ParseLine(ParseLines(lines[..|lines| - 1]), lines[|lines| - 1])
  }

  function Parse(part: string): Event { ParseLines(Split(part, '\n')) }

  function ParseAll(parts: seq<string>): seq<Event> {
    if parts == [] then [] else ParseAll(parts[..|parts| - 1]) + [Parse(parts[|parts| - 1])]
  }

  // One pass of the read loop: the events handled and the buffer kept.
  function Feed(buffer: string, chunk: string): (seq<Event>, string) {
    var parts := SplitBlank(buffer + chunk);
    (ParseAll(Complete(parts)), Remainder(parts))
  }

  function FeedAll(buffer: string, chunks: seq<string>): (seq<Event>, string) {
    if chunks == [] then ([], buffer)
    else
      var (before, mid) := FeedAll(buffer, chunks[..|chunks| - 1]);
      var (now, rest) := Feed(mid, chunks[|chunks| - 1]);
      (before + now, rest)
  }

  function Concat(chunks: seq<string>): string {
    if chunks == [] then "" else Concat(chunks[..|chunks| - 1]) + chunks[|chunks| - 1]
  }

  // ---- What the page shows ----

  datatype Phase = Idle | Running | Finished | Failed

  datatype PageState = PageState(status: string, analysis: string, traceOutput: string, error: string, phase: Phase)

  // Results of JSON.parse that the page uses; None when it throws. An error
  // text is the payload's non-empty message field.
  datatype Json = Json(trace: string -> Option<string>, message: string -> Option<string>)

  function HandleEvent(s: PageState, e: Event, json: Json): PageState {
    if e.name == "status" then s.(status := e.data)
    else if e.name == "token" then s.(analysis := s.analysis + e.data)
    else if e.name == "trace" then
      s.(traceOutput := match json.trace(e.data) case Some(t) => t case None => e.data)
    else if e.name == "error" then
      s.(error := (match json.message(e.data) case Some(m) => m case None => e.data), phase := Failed)
    else if e.name == "done" then (if s.phase != Failed then s.(phase := Finished) else s)
    else s
  }

  function HandleAll(s: PageState, events: seq<Event>, json: Json): PageState {
    if events == [] then s
    else HandleEvent(HandleAll(s, events[..|events| - 1], json), events[|events| - 1], json)
  }

  class AiDiagnose {
    var buffer: string
    var state: PageState
    const json: Json

    constructor (json: Json)
      ensures buffer == "" && state == PageState("", "", "", "", Running) && this.json == json
    {
      this.json := json;
      buffer := "";
      state := PageState("", "", "", "", Running);
    }

    // The read loop; chunks are the decoded reads until the stream is done.
    method Start(chunks: seq<string>)
      modifies this
      ensures var (events, rest) := FeedAll(old(buffer), chunks);
              buffer == rest && state == HandleAll(old(state), events, json)
    {
      ghost var handled: seq<Event> := [];
      for i := 0 to |chunks|
        invariant FeedAll(old(buffer), chunks[..i]) == (handled, buffer)
        invariant state == HandleAll(old(state), handled, json)
      {
        assert chunks[..i + 1][..i] == chunks[..i];
        buffer := buffer + chunks[i];
        var parts := SplitBlank(buffer);
        buffer := Remainder(parts);
        parts := Complete(parts);
        ghost var before, events := state, ParseAll(parts);
        HandleParts(parts);
        HandleConcat(old(state), handled, events, json);
        handled := handled + events;
      }
      assert chunks[..|chunks|] == chunks;
    }

    method HandleParts(parts: seq<string>)
      modifies `state
      ensures state == HandleAll(old(state), ParseAll(parts), json)
    {
      for i := 0 to |parts|
        invariant state == HandleAll(old(state), ParseAll(parts[..i]), json)
      {
        assert parts[..i + 1][..i] == parts[..i];
        var e := ParsePart(parts[i]);
        ghost var events := ParseAll(parts[..i]);
        assert (events + [e])[..|events|] == events;
        state := HandleEvent(state, e, json);
      }
      assert parts[..|parts|] == parts;
    }
  }

  method ParsePart(part: string) returns (e: Event)
    ensures e == Parse(part)
  {
    var lines := Split(part, '\n');
    var eventType, eventData := "", "";
    for i := 0 to |lines|
      invariant Event(eventType, eventData) == ParseLines(lines[..i])
    {
      assert lines[..i + 1][..i] == lines[..i];
      if StartsWith(lines[i], "event: ") {
        eventType := JsTrim(lines[i][7..]);
      } else if StartsWith(lines[i], "data: ") {
        eventData := JsTrim(lines[i][6..]);
      }
    }
    assert lines[..|lines|] == lines;
    return Event(eventType, eventData);
  }

  lemma {:induction false} HandleConcat(s: PageState, xs: seq<Event>, ys: seq<Event>, json: Json)
    ensures HandleAll(s, xs + ys, json) == HandleAll(HandleAll(s, xs, json), ys, json)
  {
    if ys == [] {
      assert xs + ys == xs;
    } else {
      assert (xs + ys)[..|xs + ys| - 1] == xs + ys[..|ys| - 1];
      HandleConcat(s, xs, ys[..|ys| - 1], json);
    }
  }

  // ---- Chunking does not matter ----

  // Splitting s + t is splitting s, keeping its remainder, and splitting
  // remainder + t.
  lemma {:induction false} SplitIncremental(s: string, t: string)
    ensures SplitBlank(s + t) == Complete(SplitBlank(s)) + SplitBlank(Remainder(SplitBlank(s)) + t)
  {
    if |s| < 2 {
    } else if s[0] == '\n' && s[1] == '\n' {
      SplitIncremental(s[2..], t);
      IncrementalBreak(s, t);
    } else if |SplitBlank(s[1..])| == 1 {
      SingleSplit(s);
    } else {
      SplitIncremental(s[1..], t);
      IncrementalPrepend(s, t);
    }
  }

  lemma IncrementalBreak(s: string, t: string)
    requires |s| >= 2 && s[0] == '\n' && s[1] == '\n'
    requires SplitBlank(s[2..] + t) == Complete(SplitBlank(s[2..])) + SplitBlank(Remainder(SplitBlank(s[2..])) + t)
    ensures SplitBlank(s + t) == Complete(SplitBlank(s)) + SplitBlank(Remainder(SplitBlank(s)) + t)
  {
    assert (s + t)[2..] == s[2..] + t;
    CompleteOfCons(SplitBlank(s[2..]), SplitBlank(Remainder(SplitBlank(s[2..])) + t));
  }

  lemma IncrementalPrepend(s: string, t: string)
    requires |s| >= 2 && !(s[0] == '\n' && s[1] == '\n') && |SplitBlank(s[1..])| > 1
    requires SplitBlank(s[1..] + t) == Complete(SplitBlank(s[1..])) + SplitBlank(Remainder(SplitBlank(s[1..])) + t)
    ensures SplitBlank(s + t) == Complete(SplitBlank(s)) + SplitBlank(Remainder(SplitBlank(s)) + t)
  {
    assert (s + t)[1..] == s[1..] + t;
    SplitStep(s + t);
    SplitStep(s);
    CompleteOfPrepend(s[0], SplitBlank(s[1..]), SplitBlank(Remainder(SplitBlank(s[1..])) + t));
  }

  lemma SplitStep(s: string)
    requires |s| >= 2 && !(s[0] == '\n' && s[1] == '\n')
    ensures SplitBlank(s) == Prepend(s[0], SplitBlank(s[1..]))
  {
  }

  lemma CompleteOfCons(rest: seq<string>, more: seq<string>)
    requires |rest| >= 1
    ensures [""] + (Complete(rest) + more) == Complete([""] + rest) + more
    ensures Remainder([""] + rest) == Remainder(rest)
  {
  }

  lemma CompleteOfPrepend(c: char, rest: seq<string>, more: seq<string>)
    requires |rest| > 1
    ensures Prepend(c, Complete(rest) + more) == Complete(Prepend(c, rest)) + more
    ensures Remainder(Prepend(c, rest)) == Remainder(rest)
  {
  }

  lemma {:induction false} SingleSplit(s: string)
    requires |SplitBlank(s)| == 1
    ensures SplitBlank(s) == [s]
  {
    if |s| >= 2 {
      SingleSplit(s[1..]);
      assert [s[0]] + s[1..] == s;
    }
  }

  lemma {:induction false} ParseConcat(xs: seq<string>, ys: seq<string>)
    ensures ParseAll(xs + ys) == ParseAll(xs) + ParseAll(ys)
  {
    if ys == [] {
      assert xs + ys == xs;
    } else {
      assert (xs + ys)[..|xs + ys| - 1] == xs + ys[..|ys| - 1];
      ParseConcat(xs, ys[..|ys| - 1]);
    }
  }

  // Two reads act like one read of their concatenation.
  lemma FeedTwice(buffer: string, s: string, t: string)
    ensures var (first, mid) := Feed(buffer, s);
            var (second, rest) := Feed(mid, t);
            Feed(buffer, s + t) == (first + second, rest)
  {
    var first := SplitBlank(buffer + s);
    var more := SplitBlank(Remainder(first) + t);
    SplitIncremental(buffer + s, t);
    assert buffer + (s + t) == buffer + s + t;
    JoinedParts(first, more);
  }

  lemma JoinedParts(first: seq<string>, more: seq<string>)
    requires |first| >= 1 && |more| >= 1
    ensures ParseAll(Complete(Complete(first) + more)) == ParseAll(Complete(first)) + ParseAll(Complete(more))
    ensures Remainder(Complete(first) + more) == Remainder(more)
  {
    assert Complete(Complete(first) + more) == Complete(first) + Complete(more);
    ParseConcat(Complete(first), Complete(more));
  }

  // Any cutting of a stream gives the events and the buffer of the uncut stream.
  lemma {:induction false} ChunkingIrrelevant(buffer: string, chunks: seq<string>)
    requires SplitBlank(buffer) == [buffer]
    ensures FeedAll(buffer, chunks) == Feed(buffer, Concat(chunks))
  {
    if chunks == [] {
      assert buffer + "" == buffer;
    } else {
      var init, chunk := chunks[..|chunks| - 1], chunks[|chunks| - 1];
      ChunkingIrrelevant(buffer, init);
      FeedTwice(buffer, Concat(init), chunk);
    }
  }

  // ---- Writer and client undo each other ----

  ghost predicate NoBlankLine(s: string) {
    forall i :: 0 <= i < |s| - 1 ==> !(s[i] == '\n' && s[i + 1] == '\n')
  }

  // A block without a blank line, closed by one, is the first part.
  lemma {:induction false} SplitFirstBlock(block: string, t: string)
    requires block != "" && block[|block| - 1] != '\n' && NoBlankLine(block)
    ensures SplitBlank(block + "\n\n" + t) == [block] + SplitBlank(t)
  {
    var s := block + "\n\n" + t;
    if |block| == 1 {
      assert s[1..] == "\n\n" + t;
      assert s[1..][2..] == t;
      assert SplitBlank(s[1..]) == [""] + SplitBlank(t);
      assert [block[0]] + "" == block;
    } else {
      assert s[1..] == block[1..] + "\n\n" + t;
      assert s[0] == block[0] && s[1] == block[1];
      forall i | 0 <= i < |block[1..]| - 1 ensures !(block[1..][i] == '\n' && block[1..][i + 1] == '\n') {
        assert block[1..][i] == block[i + 1] && block[1..][i + 1] == block[i + 2];
      }
      SplitFirstBlock(block[1..], t);
      assert [block[0]] + block[1..] == block;
    }
  }

  function Block(e: Event): string {
    if e.name != "" then "event: " + e.name + "\n" + ("data: " + e.data) else "data: " + e.data
  }

  lemma ParseOfBlock(e: Event)
    requires Free(e.name, '\n') && Free(e.data, '\n')
    ensures Parse(Block(e)) == Event(JsTrim(e.name), JsTrim(e.data))
  {
    var dataLine := "data: " + e.data;
    SplitFree(dataLine);
    DataLine(e.data);
    if e.name != "" {
      var nameLine := "event: " + e.name;
      SplitFree(nameLine);
      SplitAtSeparator(nameLine, dataLine, '\n');
      assert nameLine + ['\n'] + dataLine == Block(e);
      assert Split(Block(e), '\n') == [nameLine, dataLine];
      assert nameLine[..7] == "event: " && nameLine[7..] == e.name;
      ParseTwo(nameLine, dataLine);
    } else {
      ParseOne(dataLine);
    }
  }

  lemma ParseOne(line: string)
    ensures ParseLines([line]) == ParseLine(Event("", ""), line)
  {
    assert [line][..0] == [];
  }

  lemma ParseTwo(a: string, b: string)
    ensures ParseLines([a, b]) == ParseLine(ParseLine(Event("", ""), a), b)
  {
    assert [a, b][..1] == [a];
    ParseOne(a);
  }

  lemma DataLine(data: string)
    ensures var line := "data: " + data;
            StartsWith(line, "data: ") && line[6..] == data && !StartsWith(line, "event: ")
  {
    var line := "data: " + data;
    assert line[..6] == "data: ";
    if |line| >= 7 {
      assert line[..7][0] == 'd' && "event: "[0] == 'e';
    }
  }

  lemma SplitFree(s: string)
    requires Free(s, '\n')
    ensures Split(s, '\n') == [s]
  {
    SplitOfJoin([s], '\n');
  }

  lemma WrittenBlock(e: Event)
    requires Free(e.name, '\n') && Free(e.data, '\n')
    ensures Write(e) == Block(e) + "\n\n"
    ensures Block(e) != "" && Block(e)[|Block(e)| - 1] != '\n' && NoBlankLine(Block(e))
  {
    var b := Block(e);
    var dataLine := "data: " + e.data;
    assert Free(dataLine, '\n');
    if e.name != "" {
      var nameLine := "event: " + e.name;
      assert Free(nameLine, '\n');
      assert b == nameLine + "\n" + dataLine;
      assert Write(e) == b + "\n\n";
      assert b[|b| - 1] == dataLine[|dataLine| - 1];
      forall i | 0 <= i < |b| - 1 ensures !(b[i] == '\n' && b[i + 1] == '\n') {
        if i < |nameLine| {
          assert b[i] == nameLine[i];
        } else if i + 1 > |nameLine| {
          assert b[i + 1] == dataLine[i - |nameLine|];
        }
      }
    }
  }

  function TrimEach(events: seq<Event>): seq<Event> {
    if events == [] then []
    else [Event(JsTrim(events[0].name), JsTrim(events[0].data))] + TrimEach(events[1..])
  }

  lemma {:induction false} WholeStream(events: seq<Event>)
    requires forall i :: 0 <= i < |events| ==> Free(events[i].name, '\n') && Free(events[i].data, '\n')
    ensures var parts := SplitBlank(WriteAll(events));
            ParseAll(Complete(parts)) == TrimEach(events) && Remainder(parts) == ""
  {
    if events != [] {
      var e, rest := events[0], WriteAll(events[1..]);
      WholeStream(events[1..]);
      WrittenBlock(e);
      assert WriteAll(events) == Block(e) + "\n\n" + rest;
      SplitFirstBlock(Block(e), rest);
      var tail := SplitBlank(rest);
      var parts := [Block(e)] + tail;
      assert Complete(parts) == [Block(e)] + Complete(tail);
      ParseConcat([Block(e)], Complete(tail));
      ParseOfBlock(e);
      assert [Block(e)][..0] == [];
      assert ParseAll([Block(e)]) == [Parse(Block(e))];
    }
  }

  // Newline-free events reach the client exactly once, in order, trimmed, and
  // nothing is left over, however the stream is cut.
  lemma StreamDelivers(events: seq<Event>, chunks: seq<string>)
    requires forall i :: 0 <= i < |events| ==> Free(events[i].name, '\n') && Free(events[i].data, '\n')
    requires Concat(chunks) == WriteAll(events)
    ensures FeedAll("", chunks) == (TrimEach(events), "")
  {
    ChunkingIrrelevant("", chunks);
    assert "" + Concat(chunks) == WriteAll(events);
    WholeStream(events);
  }

  // The lines on the wire, and the blank line behind them.
  lemma WrittenLines(e: Event)
    requires Free(e.name, '\n') && Free(e.data, '\n')
    ensures Split(Write(e), '\n') ==
            (if e.name != "" then ["event: " + e.name] else []) + ["data: " + e.data, "", ""]
  {
    var lines := (if e.name != "" then ["event: " + e.name] else []) + ["data: " + e.data, "", ""];
    var tail := ["data: " + e.data, "", ""];
    assert tail[1..] == ["", ""] && tail[1..][1..] == [""];
    assert Join(["", ""], '\n') == "\n";
    assert Join(tail, '\n') == "data: " + e.data + "\n\n";
    if e.name != "" {
      assert lines[1..] == tail;
      assert Join(lines, '\n') == Write(e);
    } else {
      assert lines == tail;
    }
    SplitOfJoin(lines, '\n');
  }

  // ---- Every event delivers its own parts ----

  // What the client handles for one written event, whatever its text holds.
  function Own(e: Event): seq<Event> { ParseAll(Complete(SplitBlank(Write(e)))) }

  function OwnAll(events: seq<Event>): seq<Event> {
    if events == [] then [] else Own(events[0]) + OwnAll(events[1..])
  }

  ghost predicate EndsBlank(s: string) {
    |s| >= 2 && s[|s| - 2] == '\n' && s[|s| - 1] == '\n'
  }

  // A text that ends in a blank line leaves at most one line feed.
  lemma {:induction false} BlankEndLeaves(s: string)
    requires EndsBlank(s)
    ensures |SplitBlank(s)| >= 2 && Remainder(SplitBlank(s)) in {"", "\n"}
  {
    if !(s[0] == '\n' && s[1] == '\n') {
      BlankEndLeaves(s[1..]);
      SplitStep(s);
      CompleteOfPrepend(s[0], SplitBlank(s[1..]), []);
    } else {
      CompleteOfCons(SplitBlank(s[2..]), []);
      if |s| == 2 {
        assert s[2..] == "";
      } else if |s| == 3 {
        assert s[2..] == "\n";
      } else {
        BlankEndLeaves(s[2..]);
      }
    }
  }

  lemma {:induction false} ParseLinesCons(line: string, lines: seq<string>)
    requires ParseLine(Event("", ""), line) == Event("", "")
    ensures ParseLines([line] + lines) == ParseLines(lines)
  {
    if lines == [] {
      assert [line] + lines == [line];
      ParseOne(line);
    } else {
      var init := lines[..|lines| - 1];
      assert ([line] + lines)[..|lines|] == [line] + init;
      ParseLinesCons(line, init);
    }
  }

  lemma LeadingLineFeed(part: string)
    ensures Parse("\n" + part) == Parse(part)
  {
    assert ("\n" + part)[1..] == part;
    assert Split("\n" + part, '\n') == [""] + Split(part, '\n');
    ParseLinesCons("", Split(part, '\n'));
  }

  // A line feed left over from the event before changes nothing.
  lemma LeftOverIsIgnored(r: string, t: string)
    requires r in {"", "\n"} && (t == "" || t[0] != '\n')
    ensures ParseAll(Complete(SplitBlank(r + t))) == ParseAll(Complete(SplitBlank(t)))
    ensures Remainder(SplitBlank(t)) in {"", "\n"} ==> Remainder(SplitBlank(r + t)) in {"", "\n"}
  {
    if r == "" {
      assert r + t == t;
    } else if t == "" {
      assert r + t == "\n";
    } else {
      var parts := SplitBlank(t);
      assert (r + t)[1..] == t;
      SplitStep(r + t);
      FirstPartWithLineFeed(parts);
    }
  }

  lemma FirstPartWithLineFeed(parts: seq<string>)
    requires |parts| >= 1
    ensures ParseAll(Complete(Prepend('\n', parts))) == ParseAll(Complete(parts))
    ensures |parts| > 1 ==> Remainder(Prepend('\n', parts)) == Remainder(parts)
    ensures |parts| == 1 ==> Remainder(Prepend('\n', parts)) == "\n" + parts[0]
  {
    if |parts| > 1 {
      var first, rest := parts[0], parts[1..|parts| - 1];
      assert Complete(parts) == [first] + rest;
      assert Complete(Prepend('\n', parts)) == ["\n" + first] + rest;
      ParseConcat([first], rest);
      ParseConcat(["\n" + first], rest);
      ParseSingle(first);
      ParseSingle("\n" + first);
      LeadingLineFeed(first);
    }
  }

  lemma ParseSingle(part: string)
    ensures ParseAll([part]) == [Parse(part)]
  {
    assert [part][..0] == [];
  }

  lemma WriteShape(e: Event)
    ensures EndsBlank(Write(e)) && Write(e)[0] != '\n'
  {
  }

  lemma {:induction false} WriteAllShape(events: seq<Event>)
    ensures WriteAll(events) == "" || WriteAll(events)[0] != '\n'
  {
    if events != [] {
      WriteShape(events[0]);
    }
  }

  lemma {:induction false} StreamIsOwnParts(events: seq<Event>)
    ensures var parts := SplitBlank(WriteAll(events));
            ParseAll(Complete(parts)) == OwnAll(events) && Remainder(parts) in {"", "\n"}
  {
    if events != [] {
      var w, t := Write(events[0]), WriteAll(events[1..]);
      StreamIsOwnParts(events[1..]);
      WriteShape(events[0]);
      WriteAllShape(events[1..]);
      BlankEndLeaves(w);
      OneEventThenRest(w, t);
    } else {
      assert SplitBlank("") == [""];
    }
  }

  lemma OneEventThenRest(w: string, t: string)
    requires Remainder(SplitBlank(w)) in {"", "\n"} && (t == "" || t[0] != '\n')
    requires Remainder(SplitBlank(t)) in {"", "\n"}
    ensures ParseAll(Complete(SplitBlank(w + t))) == ParseAll(Complete(SplitBlank(w))) + ParseAll(Complete(SplitBlank(t)))
    ensures Remainder(SplitBlank(w + t)) in {"", "\n"}
  {
    var first, r := SplitBlank(w), Remainder(SplitBlank(w));
    SplitIncremental(w, t);
    JoinedParts(first, SplitBlank(r + t));
    LeftOverIsIgnored(r, t);
  }

  // For arbitrary events, line feeds and blank lines anywhere, and every
  // cutting: each event delivers exactly what it delivers alone, in order, so
  // no event changes what its neighbours deliver.
  lemma EventsAreIndependent(events: seq<Event>, chunks: seq<string>)
    requires Concat(chunks) == WriteAll(events)
    ensures FeedAll("", chunks).0 == OwnAll(events) && FeedAll("", chunks).1 in {"", "\n"}
  {
    ChunkingIrrelevant("", chunks);
    assert "" + Concat(chunks) == WriteAll(events);
    StreamIsOwnParts(events);
  }

  // An event without line feeds delivers itself, trimmed.
  lemma OwnOfLine(e: Event)
    requires Free(e.name, '\n') && Free(e.data, '\n')
    ensures Own(e) == [Event(JsTrim(e.name), JsTrim(e.data))]
  {
    WholeStream([e]);
    assert WriteAll([e]) == Write(e) + "" == Write(e);
    assert TrimEach([e]) == [Event(JsTrim(e.name), JsTrim(e.data))];
  }

  // ---- Exactly which event lists survive ----

  lemma {:induction false} ParsedIsClean(lines: seq<string>)
    requires AllFree(lines, '\n')
    ensures Clean(ParseLines(lines))
  {
    if lines != [] {
      var line := lines[|lines| - 1];
      ParsedIsClean(lines[..|lines| - 1]);
      if StartsWith(line, "event: ") { TrimFacts(line[7..], IsSpace); }
      if StartsWith(line, "data: ") { TrimFacts(line[6..], IsSpace); }
    }
  }

  lemma {:induction false} HandledAreClean(parts: seq<string>)
    ensures forall e :: e in ParseAll(parts) ==> Clean(e)
  {
    if parts != [] {
      HandledAreClean(Complete(parts));
      ParsedIsClean(Split(parts[|parts| - 1], '\n'));
    }
  }

  lemma {:induction false} TrimEachClean(events: seq<Event>)
    requires forall i :: 0 <= i < |events| ==> Clean(events[i])
    ensures TrimEach(events) == events
  {
    if events != [] {
      TrimFacts(events[0].name, IsSpace);
      TrimFacts(events[0].data, IsSpace);
      TrimEachClean(events[1..]);
    }
  }

  // For every list of events and every cutting of its stream, the client
  // handles exactly what was written if and only if every event is clean.
  lemma RoundTripExactlyWhenClean(events: seq<Event>, chunks: seq<string>)
    requires Concat(chunks) == WriteAll(events)
    ensures FeedAll("", chunks).0 == events <==> forall i :: 0 <= i < |events| ==> Clean(events[i])
  {
    if forall i :: 0 <= i < |events| ==> Clean(events[i]) {
      StreamDelivers(events, chunks);
      TrimEachClean(events);
    }
    if FeedAll("", chunks).0 == events {
      OnlyCleanIsHandled(chunks);
      assert forall i :: 0 <= i < |events| ==> events[i] in events;
    }
  }

  lemma OnlyCleanIsHandled(chunks: seq<string>)
    ensures forall e :: e in FeedAll("", chunks).0 ==> Clean(e)
  {
    ChunkingIrrelevant("", chunks);
    HandledAreClean(Complete(SplitBlank("" + Concat(chunks))));
  }

  // ---- The page after a whole stream ----

  function Tokens(events: seq<Event>): string {
    if events == [] then ""
    else
      var e := events[|events| - 1];
      Tokens(events[..|events| - 1]) + if e.name == "token" then e.data else ""
  }

  lemma {:induction false} PageAnalysis(s: PageState, events: seq<Event>, json: Json)
    ensures HandleAll(s, events, json).analysis == s.analysis + Tokens(events)
  {
    if events == [] {
      assert s.analysis + "" == s.analysis;
    } else {
      var init, last := events[..|events| - 1], events[|events| - 1];
      PageAnalysis(s, init, json);
      var shown := if last.name == "token" then last.data else "";
      assert HandleAll(s, events, json).analysis == HandleAll(s, init, json).analysis + shown;
      assert s.analysis + (Tokens(init) + shown) == s.analysis + Tokens(init) + shown;
    }
  }

  predicate Names(events: seq<Event>, name: string) {
    exists e :: e in events && e.name == name
  }

  // An error is final; otherwise the page is done once a done event came.
  lemma {:induction false} PagePhase(s: PageState, events: seq<Event>, json: Json)
    requires s.phase == Running
    ensures HandleAll(s, events, json).phase ==
            if Names(events, "error") then Failed else if Names(events, "done") then Finished else Running
  {
    if events != [] {
      var init, last := events[..|events| - 1], events[|events| - 1];
      PagePhase(s, init, json);
      NamesAfter(init, last, "error");
      NamesAfter(init, last, "done");
      assert events == init + [last];
    }
  }

  lemma NamesAfter(events: seq<Event>, e: Event, name: string)
    ensures Names(events + [e], name) <==> Names(events, name) || e.name == name
  {
    assert e in events + [e];
    assert forall x :: x in events ==> x in events + [e];
  }

  // Event i is the last one of that name.
  ghost predicate IsLast(events: seq<Event>, name: string, i: int) {
    0 <= i < |events| && events[i].name == name && forall j :: i < j < |events| ==> events[j].name != name
  }

  // A field holds what the last event of a name put there, or what it held.
  ghost predicate ShowsLast(field: string, before: string, events: seq<Event>, name: string, show: string -> string) {
    && (!Names(events, name) ==> field == before)
    && (forall i :: IsLast(events, name, i) ==> field == show(events[i].data))
  }

  lemma LastAfter(events: seq<Event>, e: Event, name: string, i: int)
    requires IsLast(events + [e], name, i)
    ensures if e.name == name then i == |events| else IsLast(events, name, i)
  {
    var all := events + [e];
    assert all[|events|] == e;
    forall j | i < j < |events| ensures events[j].name != name {
      assert all[j] == events[j];
    }
  }

  lemma ShowsLastAfter(field: string, after: string, before: string, events: seq<Event>, e: Event, name: string, show: string -> string)
    requires ShowsLast(field, before, events, name, show)
    requires after == if e.name == name then show(e.data) else field
    ensures ShowsLast(after, before, events + [e], name, show)
  {
    NamesAfter(events, e, name);
    forall i | IsLast(events + [e], name, i) ensures after == show((events + [e])[i].data) {
      LastAfter(events, e, name, i);
    }
  }

  function Raw(data: string): string { data }

  function Parsed(parse: string -> Option<string>): string -> string {
    (data: string) => match parse(data) case Some(t) => t case None => data
  }

  // Status, trace and error text are those of the last events of their names:
  // the raw data, the parsed or raw data, the message or the raw data.
  lemma {:induction false} PageShowsLast(s: PageState, events: seq<Event>, json: Json)
    ensures var shown := HandleAll(s, events, json);
            && ShowsLast(shown.status, s.status, events, "status", Raw)
            && ShowsLast(shown.traceOutput, s.traceOutput, events, "trace", Parsed(json.trace))
            && ShowsLast(shown.error, s.error, events, "error", Parsed(json.message))
  {
    if events != [] {
      var init, last := events[..|events| - 1], events[|events| - 1];
      assert events == init + [last];
      PageShowsLast(s, init, json);
      var before, after := HandleAll(s, init, json), HandleAll(s, events, json);
      OneEvent(before, last, json);
      ShowsLastAfter(before.status, after.status, s.status, init, last, "status", Raw);
      ShowsLastAfter(before.traceOutput, after.traceOutput, s.traceOutput, init, last, "trace", Parsed(json.trace));
      ShowsLastAfter(before.error, after.error, s.error, init, last, "error", Parsed(json.message));
    }
  }

  lemma OneEvent(s: PageState, e: Event, json: Json)
    ensures var t := HandleEvent(s, e, json);
            && t.status == (if e.name == "status" then Raw(e.data) else s.status)
            && t.traceOutput == (if e.name == "trace" then Parsed(json.trace)(e.data) else s.traceOutput)
            && t.error == (if e.name == "error" then Parsed(json.message)(e.data) else s.error)
  {
  }

  // For arbitrary events and every cutting, the page shows the tokens that the
  // events deliver, in full and in order; status, trace and error text of the
  // last such events delivered; and a phase that tells errors from success.
  lemma PageAfterStream(events: seq<Event>, chunks: seq<string>, json: Json)
    requires Concat(chunks) == WriteAll(events)
    ensures var shown, got := HandleAll(PageState("", "", "", "", Running), FeedAll("", chunks).0, json), OwnAll(events);
            && shown.analysis == Tokens(got)
            && ShowsLast(shown.status, "", got, "status", Raw)
            && ShowsLast(shown.traceOutput, "", got, "trace", Parsed(json.trace))
            && ShowsLast(shown.error, "", got, "error", Parsed(json.message))
            && shown.phase == (if Names(got, "error") then Failed else if Names(got, "done") then Finished else Running)
  {
    EventsAreIndependent(events, chunks);
    PageAnalysis(PageState("", "", "", "", Running), OwnAll(events), json);
    PageShowsLast(PageState("", "", "", "", Running), OwnAll(events), json);
    PagePhase(PageState("", "", "", "", Running), OwnAll(events), json);
    assert "" + Tokens(OwnAll(events)) == Tokens(OwnAll(events));
  }

  // ---- What of the tokens the page shows ----

  lemma {:induction false} TokensConcat(xs: seq<Event>, ys: seq<Event>)
    ensures Tokens(xs + ys) == Tokens(xs) + Tokens(ys)
  {
    if ys == [] {
      assert xs + ys == xs;
    } else {
      assert (xs + ys)[..|xs + ys| - 1] == xs + ys[..|ys| - 1];
      TokensConcat(xs, ys[..|ys| - 1]);
    }
  }

  function Total(parts: seq<string>): nat {
    if parts == [] then 0 else |parts[0]| + Total(parts[1..])
  }

  lemma {:induction false} TotalSnoc(parts: seq<string>, part: string)
    ensures Total(parts + [part]) == Total(parts) + |part|
  {
    if parts == [] {
      assert [] + [part] == [part];
    } else {
      assert (parts + [part])[1..] == parts[1..] + [part];
      TotalSnoc(parts[1..], part);
    }
  }

  // Parts and the blank lines between them make up the text; the first part is
  // its beginning.
  lemma {:induction false} PartsMakeUp(s: string)
    ensures Total(SplitBlank(s)) + 2 * (|SplitBlank(s)| - 1) == |s|
    ensures |SplitBlank(s)[0]| <= |s| && SplitBlank(s)[0] == s[..|SplitBlank(s)[0]|]
  {
    if |s| >= 2 {
      if s[0] == '\n' && s[1] == '\n' {
        PartsMakeUp(s[2..]);
        assert ([""] + SplitBlank(s[2..]))[1..] == SplitBlank(s[2..]);
      } else {
        PartsMakeUp(s[1..]);
        var rest := SplitBlank(s[1..]);
        assert Prepend(s[0], rest)[1..] == rest[1..];
      }
    }
  }

  // A beginning without a blank line only lengthens the first part.
  lemma {:induction false} SplitBehind(h: string, z: string)
    requires h != "" && h[|h| - 1] != '\n' && NoBlankLine(h)
    ensures SplitBlank(h + z) == [h + SplitBlank(z)[0]] + SplitBlank(z)[1..]
  {
    var s := h + z;
    if |h| == 1 {
      assert s[1..] == z && [h[0]] == h;
      if z == "" {
        assert s == h && h + "" == h;
      } else {
        SplitStep(s);
      }
    } else {
      assert s[1..] == h[1..] + z && s[0] == h[0] && s[1] == h[1];
      forall i | 0 <= i < |h[1..]| - 1 ensures !(h[1..][i] == '\n' && h[1..][i + 1] == '\n') {
        assert h[1..][i] == h[i + 1] && h[1..][i + 1] == h[i + 2];
      }
      SplitBehind(h[1..], z);
      assert [h[0]] + (h[1..] + SplitBlank(z)[0]) == h + SplitBlank(z)[0];
    }
  }

  // The data of a part is the rest of one of its data lines, trimmed.
  lemma {:induction false} DataIsOfALine(lines: seq<string>)
    ensures var d := ParseLines(lines).data;
            d == "" || exists i :: 0 <= i < |lines| && StartsWith(lines[i], "data: ") && d == JsTrim(lines[i][6..])
  {
    if lines != [] {
      var n := |lines| - 1;
      DataIsOfALine(lines[..n]);
      if ParseLines(lines).data != "" && !StartsWith(lines[n], "data: ") {
        var i :| 0 <= i < n && StartsWith(lines[..n][i], "data: ") && ParseLines(lines[..n]).data == JsTrim(lines[..n][i][6..]);
        assert lines[i] == lines[..n][i];
      }
    }
  }

  lemma {:induction false} LineWithin(lines: seq<string>, i: nat)
    requires i < |lines|
    ensures |lines[i]| <= |Join(lines, '\n')|
  {
    if i > 0 {
      LineWithin(lines[1..], i - 1);
    }
  }

  lemma JsTrimShortens(s: string)
    ensures |JsTrim(s)| <= |s| && (|JsTrim(s)| == |s| ==> JsTrim(s) == s)
  {
    TrimLeftFacts(s, IsSpace);
    TrimRightFacts(TrimLeft(s, IsSpace), IsSpace);
  }

  lemma PartDataBound(part: string)
    ensures |Parse(part).data| <= |part|
  {
    var lines := Split(part, '\n');
    DataIsOfALine(lines);
    JoinOfSplit(part, '\n');
    if Parse(part).data != "" {
      var i :| 0 <= i < |lines| && StartsWith(lines[i], "data: ") && Parse(part).data == JsTrim(lines[i][6..]);
      JsTrimShortens(lines[i][6..]);
      LineWithin(lines, i);
    }
  }

  lemma {:induction false} TokensBound(parts: seq<string>)
    ensures |Tokens(ParseAll(parts))| <= Total(parts)
  {
    if parts != [] {
      var init, part := parts[..|parts| - 1], parts[|parts| - 1];
      TokensBound(init);
      PartDataBound(part);
      assert parts == init + [part];
      TotalSnoc(init, part);
      TokensConcat(ParseAll(init), [Parse(part)]);
      TokensOfOne(Parse(part));
    }
  }

  lemma TokensOfOne(e: Event)
    ensures Tokens([e]) == if e.name == "token" then e.data else ""
  {
    assert [e][..0] == [];
  }

  // The first part of a written event with data z up to its first blank line.
  lemma FirstPartLines(name: string, z: string)
    requires Free(name, '\n')
    ensures Split("event: " + name + "\ndata: " + z, '\n') ==
            ["event: " + name] + (["data: " + Split(z, '\n')[0]] + Split(z, '\n')[1..])
  {
    NameAndData(name, z);
    SplitAtSeparator("event: " + name, "data: " + z, '\n');
    SplitFree("event: " + name);
    SplitPrefix("data: ", z, '\n');
  }

  lemma NameAndData(name: string, z: string)
    ensures "event: " + name + "\ndata: " + z == ("event: " + name) + ['\n'] + ("data: " + z)
  {
  }

  // Its data is no longer than z, and as long only when it is z.
  lemma FirstPartData(name: string, z: string)
    requires Free(name, '\n')
    ensures var d := Parse("event: " + name + "\ndata: " + z).data;
            |d| <= |z| && (|d| == |z| ==> d == z)
  {
    var lines, of := Split("event: " + name + "\ndata: " + z, '\n'), Split(z, '\n');
    var d := ParseLines(lines).data;
    FirstPartLines(name, z);
    DataIsOfALine(lines);
    JoinOfSplit(z, '\n');
    if d != "" {
      var i :| 0 <= i < |lines| && StartsWith(lines[i], "data: ") && d == JsTrim(lines[i][6..]);
      JsTrimShortens(lines[i][6..]);
      NameLineIsNoData(name);
      if i == 1 {
        assert lines[1] == "data: " + of[0] && lines[1][6..] == of[0];
        LineWithin(of, 0);
        assert |of| > 1 ==> |Join(of, '\n')| > |of[0]|;
      } else {
        assert lines[i] == of[i - 1];
        LineWithin(of, i - 1);
      }
    }
  }

  lemma NameLineIsNoData(name: string)
    ensures !StartsWith("event: " + name, "data: ")
  {
    assert ("event: " + name)[..6][0] == 'e' && "data: "[0] == 'd';
  }

  // The parts of a written event.
  lemma WrittenParts(e: Event)
    requires Free(e.name, '\n') && e.name != ""
    ensures var z := SplitBlank(e.data + "\n\n");
            |z| >= 2 && Complete(SplitBlank(Write(e))) == [FirstPart(e, z[0])] + z[1..|z| - 1]
  {
    var h := "event: " + e.name + "\ndata: ";
    var tail := e.data + "\n\n";
    assert Write(e) == h + tail;
    BlankEndLeaves(tail);
    HeadIsSolid(e.name);
    SplitBehind(h, tail);
  }

  lemma HeadIsSolid(name: string)
    requires Free(name, '\n')
    ensures var h := "event: " + name + "\ndata: ";
            h[|h| - 1] != '\n' && NoBlankLine(h)
  {
    var nameLine, h := "event: " + name, "event: " + name + "\ndata: ";
    assert Free(nameLine, '\n');
    forall i | 0 <= i < |h| - 1 ensures !(h[i] == '\n' && h[i + 1] == '\n') {
      if i < |nameLine| {
        assert h[i] == nameLine[i];
      } else {
        assert h[i + 1] == "\ndata: "[i + 1 - |nameLine|];
      }
    }
  }

  // A token event never shows more than its data, and as much only when the
  // data is clean.
  lemma TokenShowsAtMost(e: Event)
    requires e.name == "token"
    ensures |Tokens(Own(e))| <= |e.data|
    ensures |Tokens(Own(e))| == |e.data| ==> Clean(e)
  {
    WrittenParts(e);
    var z := SplitBlank(e.data + "\n\n");
    OwnFromParts(e, z);
    PartsMakeUp(e.data + "\n\n");
    TotalsOf(z);
    if |Tokens(Own(e))| == |e.data| {
      assert z[0] == (e.data + "\n\n")[..|e.data|] == e.data;
      WholeDataIsClean(e);
    }
  }

  function FirstPart(e: Event, z: string): string { "event: " + e.name + "\ndata: " + z }

  lemma OwnFromParts(e: Event, z: seq<string>)
    requires e.name == "token" && |z| >= 2
    requires Complete(SplitBlank(Write(e))) == [FirstPart(e, z[0])] + z[1..|z| - 1]
    ensures |Tokens(Own(e))| <= |Parse(FirstPart(e, z[0])).data| + Total(z[1..|z| - 1])
    ensures |Parse(FirstPart(e, z[0])).data| <= |z[0]|
  {
    var first, mid := FirstPart(e, z[0]), z[1..|z| - 1];
    FirstPartData(e.name, z[0]);
    ParseConcat([first], mid);
    ParseSingle(first);
    TokensConcat([Parse(first)], ParseAll(mid));
    TokensOfOne(Parse(first));
    TokensBound(mid);
  }

  // When the first part holds all of the data and shows all of it.
  lemma WholeDataIsClean(e: Event)
    requires e.name == "token" && |Parse(FirstPart(e, e.data)).data| == |e.data|
    ensures Clean(e)
  {
    FirstPartData(e.name, e.data);
    ParsedIsClean(Split(FirstPart(e, e.data), '\n'));
    assert Parse(FirstPart(e, e.data)).data == e.data;
  }

  lemma TotalsOf(z: seq<string>)
    requires |z| >= 2
    ensures Total(z) == |z[0]| + Total(z[1..|z| - 1]) + |z[|z| - 1]|
  {
    assert z[1..] == z[1..|z| - 1] + [z[|z| - 1]];
    TotalSnoc(z[1..|z| - 1], z[|z| - 1]);
  }

  // Events as the handler writes them: names are plain words, and only tokens
  // carry text that may hold anything.
  ghost predicate PlainButTokens(e: Event) {
    Free(e.name, '\n') && Trimmed(e.name, IsSpace) && (e.name != "token" ==> Free(e.data, '\n'))
  }

  lemma OwnTokens(e: Event)
    requires PlainButTokens(e)
    ensures e.name != "token" ==> Tokens(Own(e)) == ""
    ensures e.name == "token" && Clean(e) ==> Tokens(Own(e)) == e.data
  {
    TrimFacts(e.name, IsSpace);
    TrimFacts(e.data, IsSpace);
    if e.name != "token" || Clean(e) {
      OwnOfLine(e);
      TokensOfOne(Event(JsTrim(e.name), JsTrim(e.data)));
    }
  }

  ghost predicate TokensAreClean(events: seq<Event>) {
    forall i :: 0 <= i < |events| && events[i].name == "token" ==> Clean(events[i])
  }

  function TokenText(e: Event): string { if e.name == "token" then e.data else "" }

  lemma OneEventShown(e: Event)
    requires PlainButTokens(e)
    ensures |Tokens(Own(e))| <= |TokenText(e)|
    ensures |Tokens(Own(e))| == |TokenText(e)| ==> (e.name == "token" ==> Clean(e))
    ensures (e.name == "token" ==> Clean(e)) ==> Tokens(Own(e)) == TokenText(e)
  {
    OwnTokens(e);
    if e.name == "token" {
      TokenShowsAtMost(e);
    }
  }

  lemma TokensCons(e: Event, rest: seq<Event>)
    ensures Tokens([e] + rest) == TokenText(e) + Tokens(rest)
    ensures Tokens(OwnAll([e] + rest)) == Tokens(Own(e)) + Tokens(OwnAll(rest))
  {
    TokensConcat([e], rest);
    TokensOfOne(e);
    TokensConcat(Own(e), OwnAll(rest));
    assert ([e] + rest)[1..] == rest;
  }

  lemma {:induction false} TokensShown(events: seq<Event>)
    requires forall i :: 0 <= i < |events| ==> PlainButTokens(events[i])
    ensures |Tokens(OwnAll(events))| <= |Tokens(events)|
    ensures |Tokens(OwnAll(events))| == |Tokens(events)| ==> TokensAreClean(events)
    ensures TokensAreClean(events) ==> Tokens(OwnAll(events)) == Tokens(events)
  {
    if events != [] {
      var e, rest := events[0], events[1..];
      TokensShown(rest);
      OneEventShown(e);
      TokensCons(e, rest);
      assert events == [e] + rest;
      CleanCons(e, rest);
    }
  }

  lemma CleanCons(e: Event, rest: seq<Event>)
    ensures TokensAreClean([e] + rest) <==> TokensAreClean(rest) && (e.name == "token" ==> Clean(e))
  {
    assert ([e] + rest)[0] == e && forall i :: 0 <= i < |rest| ==> ([e] + rest)[i + 1] == rest[i];
  }

  // Under every cutting, the page shows exactly the text of the tokens written
  // if and only if every token is free of line feeds and of white space at its
  // ends; otherwise it shows less.
  lemma TokensShownExactlyWhen(events: seq<Event>, chunks: seq<string>, json: Json)
    requires forall i :: 0 <= i < |events| ==> PlainButTokens(events[i])
    requires Concat(chunks) == WriteAll(events)
    ensures var shown := HandleAll(PageState("", "", "", "", Running), FeedAll("", chunks).0, json);
            && (shown.analysis == Tokens(events) <==> TokensAreClean(events))
            && (!TokensAreClean(events) ==> |shown.analysis| < |Tokens(events)|)
  {
    PageAfterStream(events, chunks, json);
    TokensShown(events);
  }

  lemma {:induction false} OwnOfLines(events: seq<Event>)
    requires forall i :: 0 <= i < |events| ==> Free(events[i].name, '\n') && Free(events[i].data, '\n')
    ensures OwnAll(events) == TrimEach(events)
  {
    if events != [] {
      OwnOfLine(events[0]);
      OwnOfLines(events[1..]);
    }
  }

  // Without line feeds the page shows the trimmed tokens run together.
  lemma LinesShowTrimmed(events: seq<Event>, chunks: seq<string>, json: Json)
    requires forall i :: 0 <= i < |events| ==> Free(events[i].name, '\n') && Free(events[i].data, '\n')
    requires Concat(chunks) == WriteAll(events)
    ensures HandleAll(PageState("", "", "", "", Running), FeedAll("", chunks).0, json).analysis == Tokens(TrimEach(events))
  {
    PageAfterStream(events, chunks, json);
    OwnOfLines(events);
  }

  lemma {:induction false} NamesOfTrimmed(events: seq<Event>, name: string)
    requires forall i :: 0 <= i < |events| ==> Trimmed(events[i].name, IsSpace)
    ensures Names(TrimEach(events), name) <==> Names(events, name)
  {
    if events != [] {
      var e, rest := events[0], events[1..];
      NamesOfTrimmed(rest, name);
      TrimFacts(e.name, IsSpace);
      assert events == [e] + rest;
      NamesCons(e, rest, name);
      NamesCons(Event(JsTrim(e.name), JsTrim(e.data)), TrimEach(rest), name);
    }
  }

  lemma NamesCons(e: Event, rest: seq<Event>, name: string)
    ensures Names([e] + rest, name) <==> e.name == name || Names(rest, name)
  {
    assert e in [e] + rest;
    assert forall x :: x in rest ==> x in [e] + rest;
  }

  // For events without line feeds whose names are plain, under every cutting:
  // the page shows the trimmed tokens, which are the tokens written if and only
  // if none starts or ends with white space, and the phase follows from the
  // error and done events written.
  lemma PageOfLines(events: seq<Event>, chunks: seq<string>, json: Json)
    requires forall i :: 0 <= i < |events| ==>
               Free(events[i].name, '\n') && Free(events[i].data, '\n') && Trimmed(events[i].name, IsSpace)
    requires Concat(chunks) == WriteAll(events)
    ensures var shown := HandleAll(PageState("", "", "", "", Running), FeedAll("", chunks).0, json);
            && shown.analysis == Tokens(TrimEach(events))
            && (shown.analysis == Tokens(events) <==>
                forall i :: 0 <= i < |events| && events[i].name == "token" ==> Trimmed(events[i].data, IsSpace))
            && shown.phase == (if Names(events, "error") then Failed else if Names(events, "done") then Finished else Running)
  {
    LinesShowTrimmed(events, chunks, json);
    TokensShownExactlyWhen(events, chunks, json);
    PageAfterStream(events, chunks, json);
    OwnOfLines(events);
    NamesOfTrimmed(events, "error");
    NamesOfTrimmed(events, "done");
  }

  lemma TwoTokens(a: string, b: string)
    ensures var events := [Event("token", a), Event("token", b)];
            Tokens(TrimEach(events)) == TokenText(Event(JsTrim("token"), JsTrim(a))) + TokenText(Event(JsTrim("token"), JsTrim(b)))
  {
    var events := [Event("token", a), Event("token", b)];
    var x, y := Event(JsTrim("token"), JsTrim(a)), Event(JsTrim("token"), JsTrim(b));
    assert events[1..] == [events[1]] && [events[1]][1..] == [];
    assert TrimEach([events[1]]) == [y] + [];
    assert TrimEach(events) == [x] + [y];
    TokensConcat([x], [y]);
    TokensOfOne(x);
    TokensOfOne(y);
  }

  const DELTAS := [Event("token", "Hello"), Event("token", " world")]

  lemma DeltasTrimmed()
    ensures Tokens(TrimEach(DELTAS)) == "Hello" + "world"
  {
    TwoTokens("Hello", " world");
    TrimWords();
  }

  // The deltas "Hello" and " world" are shown as "Helloworld".
  lemma WordsRunTogether(chunks: seq<string>, json: Json)
    requires Concat(chunks) == WriteAll(DELTAS)
    ensures HandleAll(PageState("", "", "", "", Running), FeedAll("", chunks).0, json).analysis == "Hello" + "world"
  {
    DeltasTrimmed();
    LinesShowTrimmed(DELTAS, chunks, json);
  }

  lemma TrimWords()
    ensures JsTrim("token") == "token" && JsTrim("Hello") == "Hello" && JsTrim(" world") == "world"
  {
    TrimFacts("token", IsSpace);
    TrimFacts("Hello", IsSpace);
    TrimFacts("world", IsSpace);
    assert " world"[1..] == "world";
    assert TrimLeft(" world", IsSpace) == TrimLeft("world", IsSpace) == "world";
  }
}

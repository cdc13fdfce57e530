// The verdict loop of JudgeTask under both contest rules.
module Verdict {
  import opened Text
  import opened OutputCompare

  datatype Status =
    | Accepted | WrongAnswer | TimeLimitExceeded | MemoryLimitExceeded | RuntimeError | CompileError | PartialScore

  datatype TestCase = TestCase(input: string, expected: string)

  datatype RunResult = RunResult(status: Status, timeUsed: int, memoryUsed: int, output: string, errorMsg: string)

  // What is written to the submission's row.
  datatype Row = Row(status: Status, timeUsed: int, memoryUsed: int, passed: nat, total: nat, message: string)

  // One test of the list with its run, and whether the outputs compared equal.
  datatype Tested = Tested(expected: string, result: RunResult, agrees: bool)

  predicate ComparedRight(t: Tested) {
    t.agrees == (Normalize(t.expected) == Normalize(t.result.output))
  }

  // The tests are the list's with one sandboxed run each, compared.
  ghost predicate TestsOf(runs: seq<RunResult>, tcs: seq<TestCase>, tests: seq<Tested>) {
    && |tests| == |tcs| == |runs|
    && (forall i :: 0 <= i < |tcs| ==> tests[i].expected == tcs[i].expected && tests[i].result == runs[i])
    && AllComparedRight(tests)
  }

  ghost predicate AllComparedRight(tests: seq<Tested>) {
    forall i {:trigger ComparedRight(tests[i])} :: 0 <= i < |tests| ==> ComparedRight(tests[i])
  }

  predicate Passes(t: Tested) { t.result.status == Accepted && t.agrees }

  function CaseMessage(passed: nat, expected: string, output: string): string {
    "Case " + Decimal(passed + 1) + ":\nExpected:\n" + expected + "\n\nGot:\n" + output
  }

  predicate OccursAt(s: string, words: string, i: int) {
    0 <= i <= |s| - |words| && s[i..i + |words|] == words
  }

  predicate Contains(s: string, words: string) {
    exists i :: 0 <= i <= |s| && OccursAt(s, words, i)
  }

  // ---- What each field of the row should be ----

  // The first n tests pass.
  predicate AllPass(tests: seq<Tested>, n: nat)
    requires n <= |tests|
  {
    forall i :: 0 <= i < n ==> Passes(tests[i])
  }

  predicate FirstFailure(tests: seq<Tested>, k: nat) {
    k < |tests| && AllPass(tests, k) && !Passes(tests[k])
  }

  // The passing tests among the first n.
  function Passing(tests: seq<Tested>, n: nat): (indices: set<nat>)
    requires n <= |tests|
  {
    set i: nat | i < n && Passes(tests[i])
  }

  // The largest of the measured values, starting from 0.
  ghost predicate IsPeak(peak: int, values: seq<int>) {
    && (peak == 0 || peak in values)
    && 0 <= peak
    && forall v :: v in values ==> v <= peak
  }

  function Times(tests: seq<Tested>, n: nat): seq<int>
    requires n <= |tests|
  {
    seq(n, i requires 0 <= i < n => tests[i].result.timeUsed)
  }

  function Memories(tests: seq<Tested>, n: nat): seq<int>
    requires n <= |tests|
  {
    seq(n, i requires 0 <= i < n => tests[i].result.memoryUsed)
  }

  // The message that test k leaves behind when no earlier one did.
  function MessageOf(tests: seq<Tested>, k: nat): string
    requires k < |tests|
  {
    Complaint(tests[k], |Passing(tests, k)|)
  }

  ghost predicate Silent(tests: seq<Tested>, n: nat)
    requires n <= |tests|
  {
    forall k :: 0 <= k < n ==> MessageOf(tests, k) == ""
  }

  // The first message among the first n tests that is not empty.
  ghost predicate IsFirstMessage(tests: seq<Tested>, n: nat, message: string)
    requires n <= |tests|
  {
    if message == "" then Silent(tests, n)
    else exists k: nat :: k < n && MessageOf(tests, k) == message && Silent(tests, k)
  }

  // The status of a judged test that failed.
  function FailureStatus(r: RunResult): Status {
    if r.status != Accepted then r.status else WrongAnswer
  }

  // The row that ACM rules write on a failure at test k.
  function FailureRow(tests: seq<Tested>, k: nat): Row
    requires k < |tests|
  {
    var r := tests[k].result;
    Row(FailureStatus(r), r.timeUsed, r.memoryUsed, k, |tests|,
        if r.status != Accepted then r.errorMsg else CaseMessage(k, tests[k].expected, r.output))
  }

  // The status that the words of a message name.
  function Named(message: string): Status {
    if Contains(message, "Time Limit") then TimeLimitExceeded
    else if Contains(message, "Memory Limit") then MemoryLimitExceeded
    else RuntimeError
  }

  function ClosingStatus(passed: nat, total: nat, isIOI: bool, message: string): Status {
    if passed == 0 then Named(message)
    else if passed < total && isIOI then PartialScore
    else Accepted
  }

  // The row written when the loop reached the end of the list.
  ghost predicate IsClosingRow(tests: seq<Tested>, isIOI: bool, row: Row) {
    Totals(tests, |tests|, row.timeUsed, row.memoryUsed, row.passed, row.message)
    && row.total == |tests|
    && row.status == ClosingStatus(row.passed, row.total, isIOI, row.message)
  }

  // The accumulators of the loop after n tests.
  ghost predicate Totals(tests: seq<Tested>, n: nat, time: int, mem: int, passed: nat, message: string)
    requires n <= |tests|
  {
    && IsPeak(time, Times(tests, n))
    && IsPeak(mem, Memories(tests, n))
    && passed == |Passing(tests, n)|
    && IsFirstMessage(tests, n, message)
  }

  ghost predicate IsVerdict(tests: seq<Tested>, isIOI: bool, row: Row) {
    if isIOI || AllPass(tests, |tests|) then IsClosingRow(tests, isIOI, row)
    else exists k :: FirstFailure(tests, k) && row == FailureRow(tests, k)
  }

  // ---- The loop ----

  // The accumulators of the loop.
  datatype Tally = Tally(time: int, mem: int, passed: nat, message: string)

  function Max(a: int, b: int): int { if b > a then b else a }

  // One more test.
  function Counted(t: Tally, test: Tested): Tally {
    var r := test.result;
    Tally(Max(t.time, r.timeUsed), Max(t.mem, r.memoryUsed), if Passes(test) then t.passed + 1 else t.passed,
          if t.message != "" then t.message else Complaint(test, t.passed))
  }

  // What a test leaves as message when passed tests passed before it.
  function Complaint(test: Tested, passed: nat): string {
    if test.result.status != Accepted then test.result.errorMsg
    else if !test.agrees then CaseMessage(passed, test.expected, test.result.output)
    else ""
  }

  // After n tests.
  function TallyOf(tests: seq<Tested>, n: nat): Tally
    requires n <= |tests|
  {
    if n == 0 then Tally(0, 0, 0, "") else Counted(TallyOf(tests, n - 1), tests[n - 1])
  }

  // runs[i] is what the sandbox answers for test i.
  method JudgeTask(runs: seq<RunResult>, tcs: seq<TestCase>, isIOI: bool) returns (row: Row)
    requires |runs| == |tcs|
    ensures forall tests :: TestsOf(runs, tcs, tests) ==> IsVerdict(tests, isIOI, row)
  {
    var maxTime, maxMem, passedCount, firstErrMsg := 0, 0, 0, "";
    ghost var tests := RunAll(runs, tcs);
    for i := 0 to |tcs|
      invariant TallyOf(tests, i) == Tally(maxTime, maxMem, passedCount, firstErrMsg)
      invariant isIOI || (AllPass(tests, i) && passedCount == i && firstErrMsg == "")
    {
      var tc := tcs[i];
      var result := runs[i];
      if result.timeUsed > maxTime {
        maxTime := result.timeUsed;
      }
      if result.memoryUsed > maxMem {
        maxMem := result.memoryUsed;
      }
      if result.status != Accepted {
        if firstErrMsg == "" {
          firstErrMsg := result.errorMsg;
        }
        if !isIOI {
          FailsAt(tests, i);
          OnlyTests(runs, tcs, tests, isIOI, FailureRow(tests, i));
          return Row(result.status, result.timeUsed, result.memoryUsed, passedCount, |tcs|, result.errorMsg);
        }
        continue;
      }
      var agrees := Compare(tests, i, tc.expected, result.output);
      if !agrees {
        if firstErrMsg == "" {
          firstErrMsg := CaseMessage(passedCount, tc.expected, result.output);
        }
        if !isIOI {
          FailsAt(tests, i);
          OnlyTests(runs, tcs, tests, isIOI, FailureRow(tests, i));
          return Row(WrongAnswer, result.timeUsed, result.memoryUsed, passedCount, |tcs|, firstErrMsg);
        }
        continue;
      }
      passedCount := passedCount + 1;
    }
    TallyMeaning(tests, |tcs|);
    var finalStatus := FinalStatus(passedCount, |tcs|, isIOI, firstErrMsg);
    row := Row(finalStatus, maxTime, maxMem, passedCount, |tcs|, firstErrMsg);
    OnlyTests(runs, tcs, tests, isIOI, row);
  }

  lemma FailsAt(tests: seq<Tested>, k: nat)
    requires FirstFailure(tests, k)
    ensures IsVerdict(tests, false, FailureRow(tests, k))
  {
  }

  lemma RunAll(runs: seq<RunResult>, tcs: seq<TestCase>) returns (tests: seq<Tested>)
    requires |runs| == |tcs|
    ensures TestsOf(runs, tcs, tests)
  {
    tests := seq(|tcs|, i requires 0 <= i < |tcs| =>
      var (e, r) := (tcs[i].expected, runs[i]);
      Tested(e, r, Normalize(e) == Normalize(r.output)));
  }

  // The list and the sandbox determine the tests.
  lemma OnlyTests(runs: seq<RunResult>, tcs: seq<TestCase>, tests: seq<Tested>, isIOI: bool, row: Row)
    requires TestsOf(runs, tcs, tests) && IsVerdict(tests, isIOI, row)
    ensures forall others :: TestsOf(runs, tcs, others) ==> IsVerdict(others, isIOI, row)
  {
    forall others | TestsOf(runs, tcs, others) ensures others == tests {
      SameTests(runs, tcs, others, tests);
    }
  }

  lemma SameTests(runs: seq<RunResult>, tcs: seq<TestCase>, a: seq<Tested>, b: seq<Tested>)
    requires TestsOf(runs, tcs, a) && TestsOf(runs, tcs, b)
    ensures a == b
  {
    forall i | 0 <= i < |a| ensures a[i] == b[i] {
      assert ComparedRight(a[i]) && ComparedRight(b[i]);
    }
  }

  // The call of CompareOutput for test i.
  method Compare(ghost tests: seq<Tested>, ghost i: nat, expected: string, output: string) returns (agrees: bool)
    requires AllComparedRight(tests) && i < |tests| && tests[i].expected == expected && tests[i].result.output == output
    ensures agrees == tests[i].agrees
  {
    var mismatch := CompareOutput(expected, output);
    assert ComparedRight(tests[i]);
    agrees := mismatch.None?;
  }

  // The final status block of JudgeTask.
  method FinalStatus(passedCount: nat, totalCases: nat, isIOI: bool, firstErrMsg: string) returns (finalStatus: Status)
    ensures finalStatus == ClosingStatus(passedCount, totalCases, isIOI, firstErrMsg)
  {
    finalStatus := Accepted;
    if passedCount == 0 {
      finalStatus := RuntimeError;
      if firstErrMsg != "" {
        var dbStatus := RuntimeError;
        if Contains(firstErrMsg, "Time Limit") {
          dbStatus := TimeLimitExceeded;
        } else if Contains(firstErrMsg, "Memory Limit") {
          dbStatus := MemoryLimitExceeded;
        }
        finalStatus := dbStatus;
      }
    } else if passedCount < totalCases && isIOI {
      finalStatus := PartialScore;
    }
  }

  lemma PeakOneMore(peak: int, values: seq<int>, v: int)
    requires IsPeak(peak, values)
    ensures IsPeak(if v > peak then v else peak, values + [v])
  {
    assert (values + [v])[|values|] == v;
  }

  lemma PassingOneMore(tests: seq<Tested>, i: nat)
    requires i < |tests|
    ensures |Passing(tests, i + 1)| == |Passing(tests, i)| + if Passes(tests[i]) then 1 else 0
  {
    if Passes(tests[i]) {
      assert Passing(tests, i + 1) == Passing(tests, i) + {i};
    } else {
      assert Passing(tests, i + 1) == Passing(tests, i);
    }
  }

  lemma {:induction false} TallyMeaning(tests: seq<Tested>, n: nat)
    requires n <= |tests|
    ensures var t := TallyOf(tests, n); Totals(tests, n, t.time, t.mem, t.passed, t.message)
  {
    if n == 0 {
      assert Passing(tests, 0) == {};
    } else {
      TallyMeaning(tests, n - 1);
      var t, r := TallyOf(tests, n - 1), tests[n - 1].result;
      PeakOneMore(t.time, Times(tests, n - 1), r.timeUsed);
      PeakOneMore(t.mem, Memories(tests, n - 1), r.memoryUsed);
      assert Times(tests, n) == Times(tests, n - 1) + [r.timeUsed];
      assert Memories(tests, n) == Memories(tests, n - 1) + [r.memoryUsed];
      PassingOneMore(tests, n - 1);
      MessageOneMore(tests, n - 1, t.message);
    }
  }

  lemma MessageOneMore(tests: seq<Tested>, i: nat, message: string)
    requires i < |tests| && IsFirstMessage(tests, i, message)
    ensures IsFirstMessage(tests, i + 1, if message == "" then MessageOf(tests, i) else message)
  {
    assert message == "" && MessageOf(tests, i) != "" ==> Silent(tests, i);
  }

  // ---- What the verdicts mean ----

  lemma NothingContainsIn(words: string)
    requires words != ""
    ensures !Contains("", words)
  {
  }

  lemma {:induction false} PassingBounds(tests: seq<Tested>, n: nat)
    requires n <= |tests|
    ensures |Passing(tests, n)| <= n
    ensures |Passing(tests, n)| == n <==> AllPass(tests, n)
  {
    if n == 0 {
      assert Passing(tests, 0) == {};
    } else {
      PassingBounds(tests, n - 1);
      PassingOneMore(tests, n - 1);
    }
  }

  // The tests determine every field of the row.
  lemma VerdictIsUnique(tests: seq<Tested>, isIOI: bool, a: Row, b: Row)
    requires IsVerdict(tests, isIOI, a) && IsVerdict(tests, isIOI, b)
    ensures a == b
  {
    if isIOI || AllPass(tests, |tests|) {
      FirstMessageIsUnique(tests, a.message, b.message);
    } else {
      var k: nat :| FirstFailure(tests, k) && a == FailureRow(tests, k);
      var l: nat :| FirstFailure(tests, l) && b == FailureRow(tests, l);
      assert !Passes(tests[k]) && !Passes(tests[l]);
    }
  }

  lemma FirstMessageIsUnique(tests: seq<Tested>, m: string, n: string)
    requires IsFirstMessage(tests, |tests|, m) && IsFirstMessage(tests, |tests|, n)
    ensures m == n
  {
    if m != "" && n != "" {
      var k: nat :| k < |tests| && MessageOf(tests, k) == m && Silent(tests, k);
      var l: nat :| l < |tests| && MessageOf(tests, l) == n && Silent(tests, l);
      assert k >= l && l >= k;
    }
  }

  // The two rules accept exactly the same outcomes: all tests pass.
  lemma AcceptedExactlyWhenAllPass(tests: seq<Tested>, isIOI: bool, row: Row)
    requires tests != [] && IsVerdict(tests, isIOI, row)
    ensures row.status == Accepted <==> AllPass(tests, |tests|)
    ensures row.total == |tests| && (row.passed == row.total <==> row.status == Accepted)
  {
    PassingBounds(tests, |tests|);
  }

  // Sandbox statuses are never the IOI-only one.
  ghost predicate Plain(tests: seq<Tested>) {
    forall i :: 0 <= i < |tests| ==> tests[i].result.status != PartialScore
  }

  lemma PartialExactlyWhenSomePass(tests: seq<Tested>, isIOI: bool, row: Row)
    requires Plain(tests) && IsVerdict(tests, isIOI, row)
    ensures row.status == PartialScore <==> isIOI && 0 < row.passed < row.total
    ensures isIOI ==> row.passed == |Passing(tests, |tests|)|
  {
    PassingBounds(tests, |tests|);
  }

  // ACM stops at the first failure; past the end of a non-empty list it can
  // only say Accepted.
  lemma AcmStopsAtFirstFailure(tests: seq<Tested>, row: Row)
    requires tests != [] && IsVerdict(tests, false, row)
    ensures (exists k :: FirstFailure(tests, k) && row == FailureRow(tests, k)) != (row.status == Accepted && IsClosingRow(tests, false, row))
    ensures row.passed < |tests| ==> FirstFailure(tests, row.passed)
  {
    PassingBounds(tests, |tests|);
    if !AllPass(tests, |tests|) {
      var k :| FirstFailure(tests, k) && row == FailureRow(tests, k);
      assert row.status != Accepted;
    }
  }

  // What the row of a first failure at test k says, field by field.
  lemma FailureRowSays(tests: seq<Tested>, k: nat, row: Row)
    requires FirstFailure(tests, k) && IsVerdict(tests, false, row)
    ensures var r := tests[k].result;
            && row.status == (if r.status != Accepted then r.status else WrongAnswer)
            && row.timeUsed == r.timeUsed && row.memoryUsed == r.memoryUsed
            && row.passed == k && row.total == |tests|
            && row.message == if r.status != Accepted then r.errorMsg
                              else "Case " + Decimal(k + 1) + ":\nExpected:\n" + tests[k].expected + "\n\nGot:\n" + r.output
  {
    assert !Passes(tests[k]);
    var l: nat :| FirstFailure(tests, l) && row == FailureRow(tests, l);
    assert !Passes(tests[l]);
    assert k == l;
  }

  // The row of a loop that reached the end of the list: largest time and memory
  // (at least 0), number of passing tests, and the first message left.
  lemma ClosingRowSays(tests: seq<Tested>, isIOI: bool, row: Row)
    requires (isIOI || AllPass(tests, |tests|)) && IsVerdict(tests, isIOI, row)
    ensures row.total == |tests| && row.passed == |Passing(tests, |tests|)|
    ensures forall i :: 0 <= i < |tests| ==> tests[i].result.timeUsed <= row.timeUsed && tests[i].result.memoryUsed <= row.memoryUsed
    ensures row.timeUsed == 0 || exists i :: 0 <= i < |tests| && tests[i].result.timeUsed == row.timeUsed
    ensures row.memoryUsed == 0 || exists i :: 0 <= i < |tests| && tests[i].result.memoryUsed == row.memoryUsed
    ensures row.passed == 0 ==>
            row.status == if Contains(row.message, "Time Limit") then TimeLimitExceeded
                          else if Contains(row.message, "Memory Limit") then MemoryLimitExceeded else RuntimeError
    ensures row.message != "" ==> exists k: nat :: k < |tests| && LeavesMessage(tests, k, row.message)
  {
    var times, memories := Times(tests, |tests|), Memories(tests, |tests|);
    forall i | 0 <= i < |tests| ensures tests[i].result.timeUsed <= row.timeUsed && tests[i].result.memoryUsed <= row.memoryUsed {
      assert times[i] in times && memories[i] in memories;
    }
    if row.message != "" {
      var k: nat :| k < |tests| && MessageOf(tests, k) == row.message;
      assert LeavesMessage(tests, k, row.message);
    }
  }

  // Test k failed and this is its error or mismatch text.
  ghost predicate LeavesMessage(tests: seq<Tested>, k: nat, message: string)
    requires k < |tests|
  {
    var r := tests[k].result;
    if r.status != Accepted then message == r.errorMsg
    else !tests[k].agrees &&
         message == "Case " + Decimal(|Passing(tests, k)| + 1) + ":\nExpected:\n" + tests[k].expected + "\n\nGot:\n" + r.output
  }

  // ACM's passed count never exceeds IOI's, and equals it exactly when nothing
  // passes after the first failure.
  lemma AcmPassesAtMostIoi(tests: seq<Tested>, acm: Row, ioi: Row)
    requires IsVerdict(tests, false, acm) && IsVerdict(tests, true, ioi)
    ensures acm.passed <= ioi.passed
    ensures acm.passed == ioi.passed <==> forall i :: acm.passed <= i < |tests| ==> !Passes(tests[i])
  {
    PassingBounds(tests, |tests|);
    if !AllPass(tests, |tests|) {
      var k :| FirstFailure(tests, k) && acm == FailureRow(tests, k);
      PassingBounds(tests, k);
      PassingFrom(tests, k);
    }
  }

  lemma PassingFrom(tests: seq<Tested>, k: nat)
    requires k <= |tests|
    ensures |Passing(tests, k)| <= |Passing(tests, |tests|)|
    ensures |Passing(tests, k)| == |Passing(tests, |tests|)| <==> forall i :: k <= i < |tests| ==> !Passes(tests[i])
  {
    var later := set i: nat | k <= i < |tests| && Passes(tests[i]);
    assert Passing(tests, |tests|) == Passing(tests, k) + later;
    assert Passing(tests, k) !! later;
    if i :| k <= i < |tests| && Passes(tests[i]) {
      assert i in later;
    }
  }

  lemma CaseMessageDetermines(a: nat, b: nat, expected: string, output: string)
    requires CaseMessage(a, expected, output) == CaseMessage(b, expected, output)
    ensures a == b
  {
    var rest := ":\nExpected:\n" + expected + "\n\nGot:\n" + output;
    CaseMessageParts(a, expected, output);
    CaseMessageParts(b, expected, output);
    SameMiddle("Case ", Decimal(a + 1), Decimal(b + 1), rest);
    DecimalInjective(a + 1, b + 1);
  }

  lemma CaseMessageParts(passed: nat, expected: string, output: string)
    ensures CaseMessage(passed, expected, output) ==
            "Case " + Decimal(passed + 1) + (":\nExpected:\n" + expected + "\n\nGot:\n" + output)
  {
  }

  lemma SameMiddle(front: string, a: string, b: string, back: string)
    requires front + a + back == front + b + back
    ensures a == b
  {
    var s, t := front + a + back, front + b + back;
    assert a == s[|front|..|s| - |back|] && b == t[|front|..|t| - |back|];
  }

  // The message of a mismatch numbers the test by its position exactly when
  // every earlier test passed.
  lemma CaseNumberExactlyWhen(tests: seq<Tested>, k: nat)
    requires k < |tests| && tests[k].result.status == Accepted && !tests[k].agrees
    ensures MessageOf(tests, k) == CaseMessage(k, tests[k].expected, tests[k].result.output) <==> AllPass(tests, k)
  {
    PassingBounds(tests, k);
    if MessageOf(tests, k) == CaseMessage(k, tests[k].expected, tests[k].result.output) {
      CaseMessageDetermines(|Passing(tests, k)|, k, tests[k].expected, tests[k].result.output);
    }
  }

  // ---- When the two rules give the same status ----

  lemma NothingPassesExactlyWhen(tests: seq<Tested>)
    ensures |Passing(tests, |tests|)| == 0 <==> forall i :: 0 <= i < |tests| ==> !Passes(tests[i])
  {
    assert Passing(tests, 0) == {};
    PassingFrom(tests, 0);
  }

  // The status under both rules is the same exactly when all tests pass, or
  // none does and the first test's verdict is what the words of the first
  // non-empty message name.
  lemma StatusesAgreeExactlyWhen(tests: seq<Tested>, acm: Row, ioi: Row)
    requires tests != [] && Plain(tests)
    requires IsVerdict(tests, false, acm) && IsVerdict(tests, true, ioi)
    ensures acm.status == ioi.status <==>
            AllPass(tests, |tests|) || (ioi.passed == 0 && FailureStatus(tests[0].result) == Named(ioi.message))
    ensures ioi.passed == 0 <==> forall i :: 0 <= i < |tests| ==> !Passes(tests[i])
    ensures IsFirstMessage(tests, |tests|, ioi.message)
  {
    PassingBounds(tests, |tests|);
    NothingPassesExactlyWhen(tests);
    if !AllPass(tests, |tests|) {
      var k: nat :| FirstFailure(tests, k) && acm == FailureRow(tests, k);
      assert k > 0 ==> Passes(tests[0]);
    }
  }

  // ---- IOI runs without a single pass ----

  // Results as sandboxResultToJudgeResult makes them: time-outs and memory
  // overruns carry no message.
  ghost predicate LimitsAreSilent(tests: seq<Tested>) {
    forall i :: 0 <= i < |tests| && tests[i].result.status in {TimeLimitExceeded, MemoryLimitExceeded} ==>
      tests[i].result.errorMsg == ""
  }

  // An IOI submission in which nothing passes is never called Wrong Answer or
  // Compile Error, and Time (Memory) Limit Exceeded comes only from the words
  // in a message, which no time-out (memory overrun) leaves.
  lemma NoPassMeansRuntimeError(tests: seq<Tested>, row: Row)
    requires LimitsAreSilent(tests) && IsVerdict(tests, true, row) && row.passed == 0
    ensures row.status in {RuntimeError, TimeLimitExceeded, MemoryLimitExceeded}
    ensures row.status != RuntimeError ==>
            exists k :: 0 <= k < |tests| && row.message == MessageOf(tests, k)
                        && tests[k].result.status !in {TimeLimitExceeded, MemoryLimitExceeded}
                        && (Contains(row.message, "Time Limit") || Contains(row.message, "Memory Limit"))
  {
    NothingContainsIn("Time Limit");
    NothingContainsIn("Memory Limit");
    if row.status != RuntimeError {
      var k :| 0 <= k < |tests| && MessageOf(tests, k) == row.message;
      assert row.message != "";
    }
  }

  // With silent limits, no pass at all and the same status under both rules,
  // the first test ended in a runtime error and the first message names neither
  // limit, or it hit a limit and a later test's message has that limit's words.
  lemma AgreementWithoutPass(tests: seq<Tested>, acm: Row, ioi: Row)
    requires tests != [] && Plain(tests) && LimitsAreSilent(tests)
    requires IsVerdict(tests, false, acm) && IsVerdict(tests, true, ioi) && ioi.passed == 0
    ensures acm.status == ioi.status <==>
            match FailureStatus(tests[0].result)
            case RuntimeError => Named(ioi.message) == RuntimeError
            case TimeLimitExceeded => Named(ioi.message) == TimeLimitExceeded && LaterMessage(tests, ioi.message)
            case MemoryLimitExceeded => Named(ioi.message) == MemoryLimitExceeded && LaterMessage(tests, ioi.message)
            case _ => false
  {
    StatusesAgreeExactlyWhen(tests, acm, ioi);
    NothingContainsIn("Time Limit");
    NothingContainsIn("Memory Limit");
    if ioi.message != "" {
      var k: nat :| k < |tests| && MessageOf(tests, k) == ioi.message && Silent(tests, k);
      assert k == 0 ==> tests[0].result.status !in {TimeLimitExceeded, MemoryLimitExceeded};
    }
  }

  // The message of a test behind the first that hit no limit itself.
  ghost predicate LaterMessage(tests: seq<Tested>, message: string) {
    exists k: nat :: 1 <= k < |tests| && MessageOf(tests, k) == message
                     && tests[k].result.status !in {TimeLimitExceeded, MemoryLimitExceeded}
  }

  // When every test hits a limit the rules never agree: IOI says Runtime Error.
  lemma OnlyLimitsNeverAgree(tests: seq<Tested>, acm: Row, ioi: Row)
    requires tests != [] && LimitsAreSilent(tests)
    requires forall i :: 0 <= i < |tests| ==> tests[i].result.status in {TimeLimitExceeded, MemoryLimitExceeded}
    requires IsVerdict(tests, false, acm) && IsVerdict(tests, true, ioi)
    ensures acm.status == tests[0].result.status && ioi.status == RuntimeError
  {
    assert forall i :: 0 <= i < |tests| ==> !Passes(tests[i]);
    NothingPassesExactlyWhen(tests);
    AcmStopsAtFirstFailure(tests, acm);
    NoPassMeansRuntimeError(tests, ioi);
  }

  // A program that times out on every test: Time Limit Exceeded under ACM,
  // Runtime Error under IOI.
  lemma AllTimeoutsDiffer(tests: seq<Tested>, acm: Row, ioi: Row)
    requires tests != [] && LimitsAreSilent(tests)
    requires forall i :: 0 <= i < |tests| ==> tests[i].result.status == TimeLimitExceeded
    requires IsVerdict(tests, false, acm) && IsVerdict(tests, true, ioi)
    ensures acm.status == TimeLimitExceeded && ioi.status == RuntimeError
  {
    OnlyLimitsNeverAgree(tests, acm, ioi);
  }
}

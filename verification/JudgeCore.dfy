/** Judging one submission (Judger/JudgeCore.cpp and the runner and matcher of Judger/Excuter.cpp).  What the operating
    system answers — how each run ends, whether the files can be read and removed — is given as data. */
module JudgeCore {
  import opened Wrappers
  import opened Matcher

  /** The result codes of the configuration file. */
  datatype Codes = Codes(accept: int, wrongAnswer: int, present: int, system: int,
                         timeLimited: int, memoryLimited: int, runtime: int)
  {
    /** No other verdict shares the code of acceptance. */
    predicate AcceptIsOwn() {
      accept !in {wrongAnswer, present, system, timeLimited, memoryLimited, runtime}
    }

    predicate AllDifferent() {
      && AcceptIsOwn()
      && wrongAnswer !in {present, system, timeLimited, memoryLimited, runtime}
      && present !in {system, timeLimited, memoryLimited, runtime}
      && system !in {timeLimited, memoryLimited, runtime}
      && timeLimited !in {memoryLimited, runtime}
      && memoryLimited != runtime
    }
  }

  /** How the watched process ended; `clean` is no error and exit code 0. */
  datatype Run = NotCreated | Ran(time: int, memory: int, memoryOut: bool, timeOut: bool, clean: bool)

  /** One test: its run, the contents of the two files to compare if they can be read, and whether the output file
      could be removed afterwards. */
  datatype Test = Test(run: Run, expected: Option<string>, actual: Option<string>, removed: bool)

  class Task {
    var result: int
    var runTime: int
    var runMemory: int
    var passRate: real
  }

  // ---------- What the record is to say ----------

  /** The run ended by itself and without an error, and its output file is gone. */
  predicate Fine(t: Test) {
    t.run.Ran? && !t.run.memoryOut && !t.run.timeOut && t.run.clean && t.removed
  }

  /** Test `i` is the last one that is run. */
  ghost predicate LastRun(tests: seq<Test>, i: nat) {
    i < |tests| && (forall j :: 0 <= j < i ==> Fine(tests[j])) && (i == |tests| - 1 || !Fine(tests[i]))
  }

  /** The code of a submission whose last test run is `t`, if the codes differ: which of them stands for what. */
  ghost predicate ResultMeans(codes: Codes, result: int, t: Test) {
    && (result == codes.memoryLimited <==> t.removed && t.run.Ran? && t.run.memoryOut)
    && (result == codes.timeLimited <==> t.removed && t.run.Ran? && !t.run.memoryOut && t.run.timeOut)
    && (result == codes.runtime <==> t.removed && t.run.Ran? && !t.run.memoryOut && !t.run.timeOut && !t.run.clean)
    && (result == codes.system <==> !t.removed || t.run.NotCreated? || (Fine(t) && (t.expected.None? || t.actual.None?)))
    && (result == codes.wrongAnswer <==>
          Fine(t) && t.expected.Some? && t.actual.Some? && Visible(t.expected.value) != Visible(t.actual.value))
    && (result == codes.present <==>
          Fine(t) && t.expected.Some? && t.actual.Some? && Visible(t.expected.value) == Visible(t.actual.value)
          && UnixLines(t.expected.value) != UnixLines(t.actual.value))
    && (result == codes.accept <==>
          Fine(t) && t.expected.Some? && t.actual.Some? && UnixLines(t.expected.value) == UnixLines(t.actual.value))
  }

  /** The recorded time and memory are the greatest of the runs, or 0 if those are negative; a field that the first run
      has not written counts as well. */
  ghost predicate PeaksMean(time: int, memory: int, run: seq<Test>) {
    && (forall j :: 0 <= j < |run| && run[j].run.Ran? ==> run[j].run.time <= time && run[j].run.memory <= memory)
    && (run != [] && run[0].run.Ran? ==>
          && (time == 0 || exists j :: 0 <= j < |run| && run[j].run.Ran? && run[j].run.time == time)
          && (memory == 0 || exists j :: 0 <= j < |run| && run[j].run.Ran? && run[j].run.memory == memory))
  }

  // ---------- Specification ----------

  predicate Clean(run: Run) {
    run.Ran? && !run.memoryOut && !run.timeOut && run.clean
  }

  function RunCode(codes: Codes, run: Run): int
    requires !Clean(run)
  {
    if run.NotCreated? then codes.system
    else if run.memoryOut then codes.memoryLimited
    else if run.timeOut then codes.timeLimited
    else codes.runtime
  }

  predicate Accepted(t: Test) {
    Clean(t.run) && t.expected.Some? && t.actual.Some? && Verdict(t.expected.value, t.actual.value) == MATCHER_ACCEPT
  }

  function MatchCode(codes: Codes, t: Test): int {
    if t.expected.None? || t.actual.None? then codes.system
    else
      var v := Verdict(t.expected.value, t.actual.value);
      if v == MATCHER_ACCEPT then codes.accept
      else if v == MATCHER_WRONG_ANSWER then codes.wrongAnswer
      else codes.present
  }

  /** A test after which no other is run. */
  predicate Stops(t: Test) {
    !Clean(t.run) || !t.removed
  }

  ghost predicate NoneStops(tests: seq<Test>, n: nat)
    requires n <= |tests|
  {
    forall i :: 0 <= i < n ==> !Stops(tests[i])
  }

  /** How many tests are run: up to the first that stops, or all. */
  function Executed(tests: seq<Test>): (n: nat)
    ensures n <= |tests| && (tests != [] ==> n > 0)
    ensures n > 0 ==> LastRun(tests, n - 1)
  {
    if tests == [] then 0
    else if Stops(tests[0]) then 1
    else 1 + Executed(tests[1..])
  }

  function Passed(tests: seq<Test>): (n: nat)
    ensures n <= |tests|
  {
    if tests == [] then 0
    else Passed(tests[..|tests| - 1]) + if Accepted(tests[|tests| - 1]) then 1 else 0
  }

  function LastCode(codes: Codes, t: Test): int {
    if !t.removed then codes.system
    else if !Clean(t.run) then RunCode(codes, t.run)
    else MatchCode(codes, t)
  }

  function FinalResult(codes: Codes, tests: seq<Test>): int {
    if tests == [] then codes.system else LastCode(codes, tests[Executed(tests) - 1])
  }

  function Share(part: nat, whole: nat): real
    requires whole > 0
  {
    part as real / whole as real
  }

  function PassRate(tests: seq<Test>): real
    requires tests != []
  {
    Share(Passed(tests[..Executed(tests)]), |tests|)
  }

  /** The greatest of 0 and the `n` values. */
  ghost predicate IsPeak(peak: int, values: seq<int>) {
    && peak >= 0
    && (forall i :: 0 <= i < |values| ==> values[i] <= peak)
    && (peak == 0 || peak in values)
  }

  function LastOr(s: seq<int>, other: int): int {
    if s == [] then other else s[|s| - 1]
  }

  /** What the time field holds after each of the tests: a run that was not created leaves what was there. */
  function Times(tests: seq<Test>, before: int): (s: seq<int>)
    ensures |s| == |tests|
  {
    if tests == [] then []
    else
      var init, last := Times(tests[..|tests| - 1], before), tests[|tests| - 1].run;
      init + [if last.Ran? then last.time else LastOr(init, before)]
  }

  function Memories(tests: seq<Test>, before: int): (s: seq<int>)
    ensures |s| == |tests|
  {
    if tests == [] then []
    else
      var init, last := Memories(tests[..|tests| - 1], before), tests[|tests| - 1].run;
      init + [if last.Ran? then last.memory else LastOr(init, before)]
  }

  // ---------- The methods ----------

  method ExcRunner(task: Task, codes: Codes, run: Run) returns (ok: bool)
    modifies task
    ensures ok == Clean(run)
    ensures task.result == if ok then old(task.result) else RunCode(codes, run)
    ensures task.runTime == if run.Ran? then run.time else old(task.runTime)
    ensures task.runMemory == if run.Ran? then run.memory else old(task.runMemory)
    ensures task.passRate == old(task.passRate)
  {
    if run.NotCreated? {
      task.result := codes.system;
      return false;
    }
    task.runTime := run.time;
    task.runMemory := run.memory;
    if run.memoryOut {
      task.result := codes.memoryLimited;
      return false;
    }
    if run.timeOut {
      task.result := codes.timeLimited;
      return false;
    }
    if !run.clean {
      task.result := codes.runtime;
      return false;
    }
    return true;
  }

  method ExcMatcher(task: Task, codes: Codes, t: Test) returns (ok: bool)
    requires Clean(t.run)
    modifies task`result
    ensures ok == Accepted(t)
    ensures task.result == MatchCode(codes, t)
  {
    var result;
    if t.expected.None? {
      result := MATCHER_NOT_EXIST_SRC;
    } else if t.actual.None? {
      result := MATCHER_NOT_EXIST_DEST;
    } else {
      result := Compare(t.expected.value, t.actual.value);
    }
    if result == MATCHER_ACCEPT {
      task.result := codes.accept;
    } else if result == MATCHER_WRONG_ANSWER {
      task.result := codes.wrongAnswer;
    } else if result == MATCHER_PRESENT_ERROR {
      task.result := codes.present;
    } else {
      task.result := codes.system;
    }
    ok := result == MATCHER_ACCEPT;
  }

  /** One test before its output is removed: run, and match if the run was clean. */
  method RunAndMatch(task: Task, codes: Codes, t: Test) returns (result: bool, matched: bool)
    modifies task
    ensures result == Clean(t.run) && matched == Accepted(t)
    ensures task.result == if result then MatchCode(codes, t) else RunCode(codes, t.run)
    ensures Fields(task.runTime, task.runMemory) == FieldsAfter(t.run, old(Fields(task.runTime, task.runMemory)))
    ensures task.passRate == old(task.passRate)
  {
    matched := false;
    result := ExcRunner(task, codes, t.run);
    if result {
      matched := ExcMatcher(task, codes, t);
    }
  }

  /** `compileError` is the code that a failing compiler leaves. */
  method DoJudge(task: Task, codes: Codes, compileError: Option<int>, tests: seq<Test>) returns (ok: bool)
    modifies task
    ensures ok <==> compileError.None? && tests != [] && tests[Executed(tests) - 1].removed
    ensures task.result == if compileError.Some? then compileError.value else FinalResult(codes, tests)
    ensures task.passRate == if ok then PassRate(tests) else old(task.passRate)
    ensures compileError.None? && tests == [] ==> task.result == codes.system
    ensures compileError.None? && codes.AllDifferent() ==>
      forall i: nat :: LastRun(tests, i) ==> ResultMeans(codes, task.result, tests[i])
    ensures ok ==> forall i: nat :: LastRun(tests, i) ==> PeaksMean(task.runTime, task.runMemory, tests[..i + 1])
    ensures ok ==> IsPeak(task.runTime, Times(tests[..Executed(tests)], old(task.runTime)))
    ensures ok ==> IsPeak(task.runMemory, Memories(tests[..Executed(tests)], old(task.runMemory)))
    ensures !ok ==> var before := old(Fields(task.runTime, task.runMemory));
      Fields(task.runTime, task.runMemory) == if compileError.None? then Totals(tests[..Executed(tests)], before).1 else before
  {
    if compileError.Some? {
      task.result := compileError.value;
      return false;
    }
    if |tests| == 0 {
      task.result := codes.system;
      return false;
    }
    ghost var before := Fields(task.runTime, task.runMemory);
    var accepted, maxTime, maxMemory;
    ok, accepted, maxTime, maxMemory := RunTests(task, codes, tests);
    FinalResultMeans(codes, tests);
    if ok {
      FinalPeaksMean(tests, before, maxTime, maxMemory);
      TotalsAre(tests[..Executed(tests)], before);
      task.passRate := Share(accepted, |tests|);
      task.runTime := maxTime;
      task.runMemory := maxMemory;
    }
  }

  /** The loop over the tests; it is left early without success if an output file stays. */
  method RunTests(task: Task, codes: Codes, tests: seq<Test>) returns (ok: bool, accepted: nat, maxTime: int, maxMemory: int)
    requires tests != []
    modifies task
    ensures ok == tests[Executed(tests) - 1].removed
    ensures task.result == FinalResult(codes, tests)
    ensures task.passRate == old(task.passRate)
    ensures !ok ==> Fields(task.runTime, task.runMemory)
                    == Totals(tests[..Executed(tests)], old(Fields(task.runTime, task.runMemory))).1
    ensures ok ==> (Totals(tests[..Executed(tests)], old(Fields(task.runTime, task.runMemory)))
                    == (Counts(accepted, maxTime, maxMemory), Fields(task.runTime, task.runMemory)))
  {
    var i := 0;
    accepted, maxTime, maxMemory := 0, 0, 0;
    ghost var before := Fields(task.runTime, task.runMemory);
    while i < |tests|
      invariant i <= |tests| && NoneStops(tests, i)
      invariant i > 0 ==> task.result == LastCode(codes, tests[i - 1])
      invariant Totals(tests[..i], before) == (Counts(accepted, maxTime, maxMemory), Fields(task.runTime, task.runMemory))
      invariant task.passRate == old(task.passRate)
    {
      var t := tests[i];
      assert tests[..i + 1][..i] == tests[..i];
      var result, matched := RunAndMatch(task, codes, t);
      if matched {
        accepted := accepted + 1;
      }
      if !t.removed {
        task.result := codes.system;
        ExecutedIs(tests, i);
        return false, accepted, maxTime, maxMemory;
      }
      if maxTime < task.runTime {
        maxTime := task.runTime;
      }
      if maxMemory < task.runMemory {
        maxMemory := task.runMemory;
      }
      i := i + 1;
      if !result {
        break;
      }
    }
    ExecutedIs(tests, i - 1);
    ok := true;
  }

  lemma OneLastRun(tests: seq<Test>, i: nat)
    requires LastRun(tests, i)
    ensures i + 1 == Executed(tests)
  {
    ExecutedIs(tests, i);
  }

  lemma LastCodeMeans(codes: Codes, t: Test)
    requires codes.AllDifferent()
    ensures ResultMeans(codes, LastCode(codes, t), t)
  {
    if t.expected.Some? && t.actual.Some? {
      AcceptIff(t.expected.value, t.actual.value);
    }
  }

  lemma FinalResultMeans(codes: Codes, tests: seq<Test>)
    ensures codes.AllDifferent() ==>
      forall i: nat :: LastRun(tests, i) ==> ResultMeans(codes, FinalResult(codes, tests), tests[i])
  {
    if codes.AllDifferent() {
      forall i: nat | LastRun(tests, i)
        ensures ResultMeans(codes, FinalResult(codes, tests), tests[i])
      {
        OneLastRun(tests, i);
        LastCodeMeans(codes, tests[i]);
      }
    }
  }

  lemma FinalPeaksMean(tests: seq<Test>, before: Fields, maxTime: int, maxMemory: int)
    requires tests != []
    requires var counts := Totals(tests[..Executed(tests)], before).0; counts.maxTime == maxTime && counts.maxMemory == maxMemory
    ensures forall i: nat :: LastRun(tests, i) ==> PeaksMean(maxTime, maxMemory, tests[..i + 1])
  {
    var run := tests[..Executed(tests)];
    TotalsAre(run, before);
    forall i: nat | LastRun(tests, i)
      ensures PeaksMean(maxTime, maxMemory, tests[..i + 1])
    {
      OneLastRun(tests, i);
      PeaksOf(run, before, maxTime, maxMemory);
    }
  }

  lemma PeaksOf(run: seq<Test>, before: Fields, maxTime: int, maxMemory: int)
    requires forall j :: 0 <= j < |run| - 1 ==> run[j].run.Ran?
    requires IsPeak(maxTime, Times(run, before.time)) && IsPeak(maxMemory, Memories(run, before.memory))
    ensures PeaksMean(maxTime, maxMemory, run)
  {
    var times, memories := Times(run, before.time), Memories(run, before.memory);
    forall j | 0 <= j < |run| && run[j].run.Ran?
      ensures run[j].run.time <= maxTime && run[j].run.memory <= maxMemory
    {
      RecordedAt(run, before.time, before.memory, j);
    }
    if run != [] && run[0].run.Ran? {
      if maxTime != 0 {
        var j :| 0 <= j < |times| && times[j] == maxTime;
        var q := RanBy(run, before.time, before.memory, j);
      }
      if maxMemory != 0 {
        var j :| 0 <= j < |memories| && memories[j] == maxMemory;
        var q := RanBy(run, before.time, before.memory, j);
      }
    }
  }

  /** What the fields hold after a test is what some test that ran took. */
  lemma RanBy(run: seq<Test>, time: int, memory: int, j: nat) returns (q: nat)
    requires j < |run| && run[0].run.Ran? && forall i :: 0 <= i < |run| - 1 ==> run[i].run.Ran?
    ensures q < |run| && run[q].run.Ran?
    ensures Times(run, time)[j] == run[q].run.time && Memories(run, memory)[j] == run[q].run.memory
  {
    RecordedAt(run, time, memory, j);
    q := j;
    if !run[j].run.Ran? {
      RecordedAt(run, time, memory, j - 1);
      q := j - 1;
    }
  }

  /** The fields hold what a test that ran took, and otherwise what they held before. */
  lemma {:induction false} RecordedAt(run: seq<Test>, time: int, memory: int, j: nat)
    requires j < |run|
    ensures run[j].run.Ran? ==>
      Times(run, time)[j] == run[j].run.time && Memories(run, memory)[j] == run[j].run.memory
    ensures !run[j].run.Ran? && j > 0 ==>
      Times(run, time)[j] == Times(run, time)[j - 1] && Memories(run, memory)[j] == Memories(run, memory)[j - 1]
    decreases |run|
  {
    var k := |run| - 1;
    if j < k {
      RecordedAt(run[..k], time, memory, j);
    }
  }

  // ---------- The state of the loop ----------

  datatype Fields = Fields(time: int, memory: int)

  datatype Counts = Counts(accepted: nat, maxTime: int, maxMemory: int)

  function FieldsAfter(run: Run, now: Fields): Fields {
    if run.Ran? then Fields(run.time, run.memory) else now
  }

  function CountsAfter(t: Test, counts: Counts, now: Fields): Counts {
    Counts(counts.accepted + if Accepted(t) then 1 else 0,
           if counts.maxTime < now.time then now.time else counts.maxTime,
           if counts.maxMemory < now.memory then now.memory else counts.maxMemory)
  }

  /** The counts and the fields of the Task after the tests `done`. */
  function Totals(done: seq<Test>, before: Fields): (r: (Counts, Fields)) {
    if done == [] then (Counts(0, 0, 0), before)
    else
      var t := done[|done| - 1];
      var (counts, now) := Totals(done[..|done| - 1], before);
      (CountsAfter(t, counts, FieldsAfter(t.run, now)), FieldsAfter(t.run, now))
  }

  /** They are the number of accepted answers and the peaks of what the fields held. */
  lemma {:induction false} TotalsAre(done: seq<Test>, before: Fields)
    ensures var (counts, now) := Totals(done, before);
      var times, memories := Times(done, before.time), Memories(done, before.memory);
      && counts.accepted == Passed(done)
      && IsPeak(counts.maxTime, times) && IsPeak(counts.maxMemory, memories)
      && now == Fields(LastOr(times, before.time), LastOr(memories, before.memory))
  {
    if done != [] {
      TotalsAre(done[..|done| - 1], before);
    }
  }

  lemma {:induction false} ExecutedIs(tests: seq<Test>, i: nat)
    requires i < |tests| && NoneStops(tests, i)
    requires Stops(tests[i]) || i == |tests| - 1
    ensures Executed(tests) == i + 1
  {
    if i > 0 {
      ExecutedIs(tests[1..], i - 1);
    }
  }

  // ---------- What a verdict says about the tests ----------

  ghost predicate AllAccepted(tests: seq<Test>) {
    forall i :: 0 <= i < |tests| ==> Accepted(tests[i])
  }

  /** The recorded verdict is that of the last test run: it is acceptance exactly when no test stopped the loop and
      the last one matched, whatever the answers before it were. */
  lemma AcceptedIsTheLastTest(codes: Codes, tests: seq<Test>)
    requires codes.AcceptIsOwn() && tests != []
    ensures FinalResult(codes, tests) == codes.accept <==> NoneStops(tests, |tests|) && Accepted(tests[|tests| - 1])
  {
    var n := Executed(tests);
    if NoneStops(tests, |tests|) {
      ExecutedIs(tests, |tests| - 1);
    }
    if FinalResult(codes, tests) == codes.accept {
      assert !Stops(tests[n - 1]);
    }
  }

  lemma {:induction false} PassedAll(tests: seq<Test>)
    ensures Passed(tests) == |tests| <==> AllAccepted(tests)
  {
    if tests != [] {
      var init := tests[..|tests| - 1];
      PassedAll(init);
      assert AllAccepted(tests) <==> AllAccepted(init) && Accepted(tests[|tests| - 1]);
    }
  }

  /** The pass rate tells: it is 1 exactly when every test was run and accepted. */
  lemma FullPassRateIff(tests: seq<Test>)
    requires tests != []
    ensures PassRate(tests) <= 1.0
    ensures PassRate(tests) == 1.0 <==> AllAccepted(tests) && forall i :: 0 <= i < |tests| - 1 ==> tests[i].removed
  {
    var n := Executed(tests);
    ShareIsOneIff(Passed(tests[..n]), |tests|);
    PassedAll(tests[..n]);
    if PassRate(tests) == 1.0 {
      assert n == |tests| && tests[..n] == tests;
      assert forall i :: 0 <= i < |tests| - 1 ==> !Stops(tests[i]);
    }
    if AllAccepted(tests) && forall i :: 0 <= i < |tests| - 1 ==> tests[i].removed {
      assert NoneStops(tests, |tests| - 1);
      ExecutedIs(tests, |tests| - 1);
      assert tests[..n] == tests;
    }
  }

  ghost function AcceptedIn(tests: seq<Test>): set<nat> {
    set i: nat | i < |tests| && Accepted(tests[i])
  }

  /** In general it is the share of the tests that were run and accepted. */
  lemma PassRateCounts(tests: seq<Test>)
    requires tests != []
    ensures PassRate(tests) == Share(|AcceptedIn(tests[..Executed(tests)])|, |tests|)
  {
    PassedCounts(tests[..Executed(tests)]);
  }

  lemma ShareTimesWhole(part: nat, whole: nat)
    requires whole > 0
    ensures Share(part, whole) * whole as real == part as real
  {
  }

  lemma {:induction false} PassedCounts(tests: seq<Test>)
    ensures Passed(tests) == |AcceptedIn(tests)|
  {
    if tests != [] {
      var k := |tests| - 1;
      var init := tests[..k];
      PassedCounts(init);
      OneTestMore(init, tests[k]);
      assert init + [tests[k]] == tests;
    }
  }

  lemma OneTestMore(init: seq<Test>, t: Test)
    ensures AcceptedIn(init + [t]) == AcceptedIn(init) + (if Accepted(t) then {|init|} else {})
    ensures |init| !in AcceptedIn(init)
  {
    var tests := init + [t];
    assert forall i: nat :: i < |init| ==> tests[i] == init[i];
  }

  lemma ShareIsOneIff(part: nat, whole: nat)
    requires part <= whole && whole > 0
    ensures Share(part, whole) <= 1.0
    ensures Share(part, whole) == 1.0 <==> part == whole
  {
    var r := Share(part, whole);
    assert (r - 1.0) * whole as real == part as real - whole as real;
  }

  /** "Accepted" is given if all tests pass, and only then. */
  ghost predicate VerdictIsRight(codes: Codes, tests: seq<Test>) {
    FinalResult(codes, tests) == codes.accept <==> AllAccepted(tests)
  }

  ghost predicate AllRemoved(tests: seq<Test>) {
    forall i :: 0 <= i < |tests| ==> tests[i].removed
  }

  /** Of one course of events: the verdict is wrong exactly when a last answer that matches covers an earlier one that
      does not, or when all answers match and an output file stays. */
  lemma AcceptedIsRightIff(codes: Codes, tests: seq<Test>)
    requires codes.AcceptIsOwn() && tests != []
    ensures VerdictIsRight(codes, tests)
       <==> && !(NoneStops(tests, |tests|) && Accepted(tests[|tests| - 1]) && !AllAccepted(tests[..|tests| - 1]))
            && !(AllAccepted(tests) && !AllRemoved(tests))
  {
    AcceptedIsTheLastTest(codes, tests);
    var init := tests[..|tests| - 1];
    assert AllAccepted(tests) <==> AllAccepted(init) && Accepted(tests[|tests| - 1]);
    if AllAccepted(tests) {
      assert NoneStops(tests, |tests|) <==> AllRemoved(tests);
    }
  }

  // ---------- What can be known before judging ----------

  /** The verdict is right whatever happens to `n` tests; `removable` says that output files can always be removed. */
  ghost predicate RightWhateverHappens(codes: Codes, n: nat, removable: bool) {
    forall tests :: |tests| == n && (removable ==> AllRemoved(tests)) ==> VerdictIsRight(codes, tests)
  }

  /** It is so if and only if there is one test, its output can be removed, and no other verdict has the code of
      acceptance. */
  lemma RightWhateverHappensIff(codes: Codes, n: nat, removable: bool)
    requires n > 0
    ensures RightWhateverHappens(codes, n, removable) <==> n == 1 && removable && codes.AcceptIsOwn()
  {
    if !codes.AcceptIsOwn() {
      SharedCodeIsWrong(codes, n);
    } else if !removable {
      KeptOutputIsWrong(codes, n);
    } else if n > 1 {
      CoveredMistakeIsWrong(codes, n);
    } else {
      forall tests | |tests| == 1 && AllRemoved(tests)
        ensures VerdictIsRight(codes, tests)
      {
        AcceptedIsRightIff(codes, tests);
        assert AllAccepted(tests[..0]);
      }
    }
  }

  /** A clean run whose output is removed, with the answer `actual` where "1" is expected. */
  function Answer(actual: string): Test {
    Test(Ran(1, 1, false, false, true), Some("1"), Some(actual), true)
  }

  lemma AnswerIsAccepted(actual: string)
    requires actual in {"1", "2", "1 "}
    ensures Accepted(Answer(actual)) <==> actual == "1"
    ensures Verdict("1", actual)
         == if actual == "1" then MATCHER_ACCEPT else if actual == "2" then MATCHER_WRONG_ANSWER else MATCHER_PRESENT_ERROR
  {
    assert Visible("1") == ['1'] + Visible("1"[1..]) && "1"[1..] == [];
    if actual == "2" {
      assert Visible("2") == ['2'] + Visible("2"[1..]) && "2"[1..] == [];
      assert Visible("1")[0] != Visible("2")[0];
    } else if actual == "1 " {
      assert "1 "[1..] == " " && " "[1..] == [];
      assert Visible("1 ") == ['1'] + Visible(" ");
      assert UnixLines("1 ") == ['1'] + UnixLines(" ") && UnixLines("1") == ['1'] + UnixLines("1"[1..]);
      assert |UnixLines(" ")| == 1;
    }
  }

  /** Tests that all end like `t`, none of them accepted. */
  lemma AllLike(codes: Codes, t: Test, n: nat)
    requires n > 0 && t.removed && !Accepted(t) && LastCode(codes, t) == codes.accept
    ensures var tests := seq(n, _ => t); AllRemoved(tests) && !VerdictIsRight(codes, tests)
  {
    var tests := seq(n, _ => t);
    assert tests[Executed(tests) - 1] == t;
    assert !Accepted(tests[0]);
  }

  lemma SharedCodeIsWrong(codes: Codes, n: nat)
    requires n > 0 && !codes.AcceptIsOwn()
    ensures exists tests :: |tests| == n && AllRemoved(tests) && !VerdictIsRight(codes, tests)
  {
    AnswerIsAccepted("2");
    AnswerIsAccepted("1 ");
    var t := if codes.accept == codes.wrongAnswer then Answer("2")
             else if codes.accept == codes.present then Answer("1 ")
             else Answer("1").(run := if codes.accept == codes.system then NotCreated
                                      else Ran(1, 1, codes.accept == codes.memoryLimited, codes.accept == codes.timeLimited, false));
    AllLike(codes, t, n);
  }

  /** All answers match, and the last output file stays. */
  lemma KeptOutputIsWrong(codes: Codes, n: nat)
    requires n > 0 && codes.AcceptIsOwn()
    ensures exists tests :: |tests| == n && !VerdictIsRight(codes, tests)
  {
    var tests := seq(n, _ => Answer("1").(removed := false));
    AnswerIsAccepted("1");
    assert AllAccepted(tests) && !tests[0].removed;
    AcceptedIsRightIff(codes, tests);
  }

  /** A wrong first answer, and right ones after it. */
  lemma CoveredMistakeIsWrong(codes: Codes, n: nat)
    requires n > 1 && codes.AcceptIsOwn()
    ensures exists tests :: |tests| == n && AllRemoved(tests) && !VerdictIsRight(codes, tests)
  {
    var tests := [Answer("2")] + seq(n - 1, _ => Answer("1"));
    AnswerIsAccepted("1");
    AnswerIsAccepted("2");
    assert NoneStops(tests, n) && Accepted(tests[n - 1]) && !Accepted(tests[..n - 1][0]);
    AcceptedIsRightIff(codes, tests);
    assert AllRemoved(tests);
  }

  /** A wrong first answer and a right second one: "accepted", with half of the tests passed. */
  lemma WrongThenRightIsAccepted(codes: Codes)
    ensures var tests := [Answer("2"), Answer("1")];
      FinalResult(codes, tests) == codes.accept && !AllAccepted(tests) && PassRate(tests) == 0.5
  {
    var wrong := Answer("2");
    var tests := [wrong, Answer("1")];
    AnswerIsAccepted("1");
    AnswerIsAccepted("2");
    assert !Accepted(tests[0]) && Accepted(tests[1]);
    assert NoneStops(tests, 2);
    ExecutedIs(tests, 1);
    assert tests[..2] == tests && tests[..1] == [wrong] && [wrong][..0] == [];
    assert Passed([wrong]) == 0 && Passed(tests) == 1;
  }

  /** Both fields together are a sound and complete record. */
  lemma AcceptedWithFullRateIff(codes: Codes, tests: seq<Test>)
    requires codes.AcceptIsOwn() && tests != []
    ensures FinalResult(codes, tests) == codes.accept && PassRate(tests) == 1.0
       <==> AllAccepted(tests) && forall t :: t in tests ==> t.removed
  {
    AcceptedIsTheLastTest(codes, tests);
    FullPassRateIff(tests);
    if AllAccepted(tests) && forall t :: t in tests ==> t.removed {
      assert NoneStops(tests, |tests|);
    }
  }
}

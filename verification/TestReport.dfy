// Turning test results into a report, from script/json2xunit.py.
module TestReport {
  import opened Common

  datatype Iteration = Iteration(status: string, snippet: string)

  datatype Test = Test(fullname: string, iterations: seq<Iteration>)

  // Python's \w
  type WordClass = char -> bool

  // ------------------------------------------------------- the iteration

  const SUCCESS := "SUCCESS"
  const MARKERS := ["Stack Trace:", "Expected:", "Actual:"]

  predicate OccursAt(s: string, part: string, i: int) {
    0 <= i <= |s| - |part| && s[i..i + |part|] == part
  }

  predicate Contains(s: string, part: string) {
    exists i :: 0 <= i <= |s| && OccursAt(s, part, i)
  }

  const RUN := "[ RUN      ] "

  // The pattern: RUN, then any of \w / # and dot, then the case and a newline.
  predicate StartsThisTest(isWord: WordClass, testCase: string, snippet: string) {
    RUN <= snippet &&
    exists i :: |RUN| <= i <= |snippet| && InName(isWord, snippet[|RUN|..i]) && OccursAt(snippet, testCase + "\n", i)
  }

  predicate InName(isWord: WordClass, s: string) {
    forall c :: c in s ==> isWord(c) || c in "/#."
  }

  // What the content of a snippet is worth beside its length.
  function Bonus(isWord: WordClass, testCase: string, snippet: string): nat {
    (if StartsThisTest(isWord, testCase, snippet) then 7500 else 0)
    + (if Contains(snippet, MARKERS[0]) then 2500 else 0)
    + (if Contains(snippet, MARKERS[1]) then 2500 else 0)
    + (if Contains(snippet, MARKERS[2]) then 2500 else 0)
  }

  function Score(isWord: WordClass, testCase: string, it: Iteration): nat {
    (if it.status == SUCCESS then 1_000_000 else 0) + |it.snippet| + Bonus(isWord, testCase, it.snippet)
  }

  lemma NotContained(s: string, part: string)
    requires part != "" && part[0] !in s
    ensures !Contains(s, part)
  {
    assert forall i :: 0 <= i < |s| ==> s[i] in s;
  }

  lemma ContainsItself(s: string)
    ensures Contains(s, s)
  {
    assert OccursAt(s, s, 0);
  }

  lemma StartsWithBracket(isWord: WordClass, testCase: string, snippet: string)
    requires snippet != "" && snippet[0] != '['
    ensures !StartsThisTest(isWord, testCase, snippet)
  {
    assert RUN[0] == '[';
  }

  // Each of the four bonuses on its own.
  lemma StackTraceBonus(isWord: WordClass, testCase: string)
    ensures Bonus(isWord, testCase, "Stack Trace:") == 2500
  {
    var s := "Stack Trace:";
    StartsWithBracket(isWord, testCase, s);
    ContainsItself(s);
    NotContained(s, "Expected:");
    NotContained(s, "Actual:");
    hide Contains, StartsThisTest;
  }

  lemma ExpectedBonus(isWord: WordClass, testCase: string)
    ensures Bonus(isWord, testCase, "Expected:") == 2500
  {
    var s := "Expected:";
    StartsWithBracket(isWord, testCase, s);
    ContainsItself(s);
    NotContained(s, "Stack Trace:");
    NotContained(s, "Actual:");
    hide Contains, StartsThisTest;
  }

  lemma ActualBonus(isWord: WordClass, testCase: string)
    ensures Bonus(isWord, testCase, "Actual:") == 2500
  {
    var s := "Actual:";
    StartsWithBracket(isWord, testCase, s);
    ContainsItself(s);
    NotContained(s, "Stack Trace:");
    NotContained(s, "Expected:");
    hide Contains, StartsThisTest;
  }

  lemma RunLineBonus(isWord: WordClass, testCase: string)
    requires 'S' !in testCase && 'E' !in testCase && 'A' !in testCase
    ensures Bonus(isWord, testCase, "[ RUN      ] " + testCase + "\n") == 7500
  {
    var s := RUN + testCase + "\n";
    RunLineStarts(isWord, testCase, "");
    assert s + "" == s;
    hide Contains, StartsThisTest;
    NotContained(s, "Stack Trace:");
    NotContained(s, "Expected:");
    NotContained(s, "Actual:");
  }

  // The pattern, as a way to cut the snippet.
  ghost predicate IsCut(isWord: WordClass, testCase: string, snippet: string, name: string, rest: string) {
    && snippet == "[ RUN      ] " + name + testCase + "\n" + rest
    && forall c :: c in name ==> isWord(c) || c == '/' || c == '#' || c == '.'
  }

  lemma CutStarts(isWord: WordClass, testCase: string, snippet: string, name: string, rest: string)
    requires IsCut(isWord, testCase, snippet, name, rest)
    ensures StartsThisTest(isWord, testCase, snippet)
  {
    var i := |RUN| + |name|;
    assert snippet == RUN + name + (testCase + "\n") + rest;
    assert snippet[|RUN|..i] == name;
    assert OccursAt(snippet, testCase + "\n", i);
  }

  lemma StartIsCut(isWord: WordClass, testCase: string, snippet: string) returns (name: string, rest: string)
    requires StartsThisTest(isWord, testCase, snippet)
    ensures IsCut(isWord, testCase, snippet, name, rest)
  {
    var i :| |RUN| <= i <= |snippet| && InName(isWord, snippet[|RUN|..i]) && OccursAt(snippet, testCase + "\n", i);
    name, rest := snippet[|RUN|..i], snippet[i + |testCase| + 1..];
    assert snippet[..i] == RUN + name;
    assert snippet[i..] == testCase + "\n" + rest;
    assert snippet == snippet[..i] + snippet[i..];
  }

  lemma StartsIff(isWord: WordClass, testCase: string, snippet: string)
    ensures StartsThisTest(isWord, testCase, snippet) <==>
      exists name: string, rest: string :: IsCut(isWord, testCase, snippet, name, rest)
  {
    hide StartsThisTest, IsCut;
    if StartsThisTest(isWord, testCase, snippet) {
      var name, rest := StartIsCut(isWord, testCase, snippet);
    }
    if name: string, rest: string :| IsCut(isWord, testCase, snippet, name, rest) {
      CutStarts(isWord, testCase, snippet, name, rest);
    }
  }

  // sorted(iterations, key=score, reverse=True): highest first, ties in the
  // order they came.
  function Sorted(isWord: WordClass, testCase: string, its: seq<Iteration>): (r: seq<Iteration>)
    ensures |r| == |its|
  {
    if its == [] then [] else Place(isWord, testCase, its[0], Sorted(isWord, testCase, its[1..]))
  }

  function Place(isWord: WordClass, testCase: string, it: Iteration, rest: seq<Iteration>): (r: seq<Iteration>)
    ensures |r| == |rest| + 1
  {
    if rest == [] || Score(isWord, testCase, it) >= Score(isWord, testCase, rest[0]) then [it] + rest
    else [rest[0]] + Place(isWord, testCase, it, rest[1..])
  }

  // None is the IndexError of a test without iterations.
  function PickIteration(isWord: WordClass, testCase: string, its: seq<Iteration>): Option<Iteration> {
    var sorted := Sorted(isWord, testCase, its);
    if sorted == [] then None else Some(sorted[0])
  }

  // The pick is the first of the iterations with the highest score.
  lemma {:induction false} PickIsFirstBest(isWord: WordClass, testCase: string, its: seq<Iteration>) returns (k: nat)
    requires its != []
    ensures k < |its| && PickIteration(isWord, testCase, its) == Some(its[k])
    ensures forall j :: 0 <= j < |its| ==> Score(isWord, testCase, its[j]) <= Score(isWord, testCase, its[k])
    ensures forall j :: 0 <= j < k ==> Score(isWord, testCase, its[j]) < Score(isWord, testCase, its[k])
  {
    if |its| == 1 {
      k := 0;
    } else {
      var rest := its[1..];
      var k' := PickIsFirstBest(isWord, testCase, rest);
      hide Score;
      assert rest[k'] == its[k' + 1];
      k := if Score(isWord, testCase, its[0]) >= Score(isWord, testCase, rest[k']) then 0 else k' + 1;
      forall j | 0 <= j < |its| ensures Score(isWord, testCase, its[j]) <= Score(isWord, testCase, its[k]) {
        if j > 0 {
          assert its[j] == rest[j - 1];
        }
      }
      forall j | 0 <= j < k ensures Score(isWord, testCase, its[j]) < Score(isWord, testCase, its[k]) {
        if j > 0 {
          assert its[j] == rest[j - 1];
        }
      }
    }
  }

  // The success at k beats every failing iteration: none has a higher score, and
  // none in front of it has the same.
  ghost predicate Beats(isWord: WordClass, testCase: string, its: seq<Iteration>, k: int) {
    && 0 <= k < |its| && its[k].status == SUCCESS
    && forall j :: 0 <= j < |its| && its[j].status != SUCCESS ==>
      var failing, success := Score(isWord, testCase, its[j]), Score(isWord, testCase, its[k]);
      failing < success || (failing == success && k < j)
  }

  // Exactly when a success is picked.
  lemma SuccessIsPickedIff(isWord: WordClass, testCase: string, its: seq<Iteration>)
    requires its != []
    ensures PickIteration(isWord, testCase, its).value.status == SUCCESS <==>
      exists k :: Beats(isWord, testCase, its, k)
  {
    var best := PickIsFirstBest(isWord, testCase, its);
    hide Score;
    if its[best].status == SUCCESS {
      assert Beats(isWord, testCase, its, best);
    }
  }

  // The same for one failing iteration and a success behind it: the success is
  // worth a million characters of output.
  lemma SuccessOfTwo(isWord: WordClass, testCase: string, f: Iteration, g: Iteration)
    requires f.status != SUCCESS && g.status == SUCCESS
    ensures PickIteration(isWord, testCase, [f, g]).value.status == SUCCESS <==>
      |f.snippet| + Bonus(isWord, testCase, f.snippet) < 1_000_000 + |g.snippet| + Bonus(isWord, testCase, g.snippet)
  {
    var its := [f, g];
    SuccessIsPickedIff(isWord, testCase, its);
    hide Bonus, PickIteration;
    if Score(isWord, testCase, f) < Score(isWord, testCase, g) {
      assert Beats(isWord, testCase, its, 1);
    } else {
      assert its[0] == f;
    }
  }

  const MARGIN := 984_999

  // So a success is picked if there is one, whatever the failing output
  // contains, while it stays within the margin.
  lemma SuccessIsPicked(isWord: WordClass, testCase: string, its: seq<Iteration>, k: nat)
    requires k < |its| && its[k].status == SUCCESS
    requires forall it :: it in its && it.status != SUCCESS ==> |it.snippet| <= MARGIN
    ensures PickIteration(isWord, testCase, its).value.status == SUCCESS
  {
    forall j | 0 <= j < |its| && its[j].status != SUCCESS
      ensures Score(isWord, testCase, its[j]) < Score(isWord, testCase, its[k])
    {
      assert its[j] in its;
    }
    assert Beats(isWord, testCase, its, k);
    SuccessIsPickedIff(isWord, testCase, its);
  }

  lemma RunLineStarts(isWord: WordClass, testCase: string, rest: string)
    ensures StartsThisTest(isWord, testCase, RUN + testCase + "\n" + rest)
  {
    var snippet := RUN + testCase + "\n" + rest;
    assert InName(isWord, snippet[|RUN|..|RUN|]);
    assert OccursAt(snippet, testCase + "\n", |RUN|);
  }

  lemma Occurs(before: string, part: string, after: string)
    ensures Contains(before + part + after, part)
  {
    assert OccursAt(before + part + after, part, |before|);
  }

  // The line of the run, all markers and a filler.
  function LoudSnippet(testCase: string, filler: string): string {
    RUN + testCase + "\n" + MARKERS[0] + MARKERS[1] + MARKERS[2] + filler
  }

  lemma LoudSnippetLength(testCase: string, filler: string)
    ensures |LoudSnippet(testCase, filler)| == |testCase| + 42 + |filler|
  {}

  lemma LoudSnippetStarts(isWord: WordClass, testCase: string, filler: string)
    ensures StartsThisTest(isWord, testCase, LoudSnippet(testCase, filler))
  {
    var rest := MARKERS[0] + MARKERS[1] + MARKERS[2] + filler;
    RunLineStarts(isWord, testCase, rest);
    hide StartsThisTest;
    assert LoudSnippet(testCase, filler) == RUN + testCase + "\n" + rest;
  }

  lemma LoudSnippetContains(testCase: string, filler: string, k: nat)
    requires k < 3
    ensures Contains(LoudSnippet(testCase, filler), MARKERS[k])
  {
    var line := RUN + testCase + "\n";
    var before := if k == 0 then line else if k == 1 then line + MARKERS[0] else line + MARKERS[0] + MARKERS[1];
    var after := if k == 0 then MARKERS[1] + MARKERS[2] + filler else if k == 1 then MARKERS[2] + filler else filler;
    Occurs(before, MARKERS[k], after);
    hide Contains;
    assert LoudSnippet(testCase, filler) == before + MARKERS[k] + after;
  }

  // Such output gets every bonus.
  lemma LoudBonus(isWord: WordClass, testCase: string, filler: string)
    ensures Bonus(isWord, testCase, LoudSnippet(testCase, filler)) == 15_000
  {
    hide Contains, StartsThisTest, LoudSnippet;
    LoudSnippetStarts(isWord, testCase, filler);
    LoudSnippetContains(testCase, filler, 0);
    LoudSnippetContains(testCase, filler, 1);
    LoudSnippetContains(testCase, filler, 2);
  }

  lemma NoBonus(isWord: WordClass, testCase: string)
    ensures Bonus(isWord, testCase, "") == 0
  {}

  // Beyond the margin, at every length that has room for the line of the run
  // and the markers, a failure can be picked instead.
  lemma MarginIsTight(length: nat, testCase: string, isWord: WordClass) returns (its: seq<Iteration>)
    requires length > MARGIN && |testCase| + 42 <= length
    ensures |its| == 2 && its[0].status != SUCCESS && its[1].status == SUCCESS
    ensures |its[0].snippet| == length
    ensures PickIteration(isWord, testCase, its) == Some(its[0])
  {
    var filler := seq(length - |testCase| - 42, _ => '.');
    its := [Iteration("FAILURE", LoudSnippet(testCase, filler)), Iteration(SUCCESS, "")];
    LoudSnippetLength(testCase, filler);
    LoudBonus(isWord, testCase, filler);
    NoBonus(isWord, testCase);
    hide Bonus, LoudSnippet, PickIteration;
    SuccessOfTwo(isWord, testCase, its[0], its[1]);
    var k := PickIsFirstBest(isWord, testCase, its);
  }

  // --------------------------------------------------------- the suites

  // str.rsplit(delim, maxsplit=1) into two parts, if the delimiter occurs.
  function SplitLast(s: string, delim: char): (r: Option<(string, string)>)
    ensures r.None? <==> delim !in s
    ensures r.Some? ==> r.value.0 + [delim] + r.value.1 == s && delim !in r.value.1
  {
    if s == "" then None
    else
      var n := |s| - 1;
      if s[n] == delim then Some((s[..n], ""))
      else match SplitLast(s[..n], delim)
        case None => None
        case Some((suite, rest)) => Some((suite, rest + [s[n]]))
  }

  // Suite and case of a full test name; None is the ValueError of a name
  // without a delimiter.
  function SplitName(fullname: string): Option<(string, string)> {
    SplitLast(fullname, if '#' in fullname then '#' else if '/' in fullname then '/' else '.')
  }

  // Characters of Python's string.printable.
  predicate Printable(c: char) {
    ' ' <= c <= '~' || '\t' <= c <= '\r'
  }

  function Sanitized(s: string): (r: string)
    ensures forall c :: c in r ==> c in s && Printable(c)
  {
    if s == "" then "" else (if Printable(s[0]) then [s[0]] else "") + Sanitized(s[1..])
  }

  lemma {:induction false} SanitizedConcat(a: string, b: string)
    ensures Sanitized(a + b) == Sanitized(a) + Sanitized(b)
  {
    if a == "" {
      assert a + b == b;
    } else {
      assert (a + b)[1..] == a[1..] + b;
      SanitizedConcat(a[1..], b);
    }
  }

  // Exactly the characters that are not printable are dropped: ASCII from space
  // to tilde, and the whitespace from tab to carriage return, are kept.
  lemma SanitizedDropsUnprintable(a: string, c: char, b: string)
    ensures var code := c as int;
      Sanitized(a + [c] + b) ==
        Sanitized(a) + (if 32 <= code <= 126 || 9 <= code <= 13 then [c] else "") + Sanitized(b)
  {
    SanitizedConcat(a + [c], b);
    SanitizedConcat(a, [c]);
    assert Sanitized([c]) == if Printable(c) then [c] else "";
  }

  // One testcase element of a suite.
  datatype Case = Case(name: string, failed: bool, output: string)

  datatype Suite = Suite(cases: seq<Case>, testCount: nat, failureCount: nat)

  // A dictionary with its insertion order.
  datatype Output = Output(names: seq<string>, suites: map<string, Suite>)

  datatype Failure = NoDelimiter(fullname: string) | NoIterations(fullname: string)

  // What one test adds to the report: its suite and its testcase element.
  function Reported(isWord: WordClass, test: Test): Result<(string, Case), Failure> {
    match SplitName(test.fullname)
    case None => Err(NoDelimiter(test.fullname))
    case Some((suite, testCase)) =>
      match PickIteration(isWord, testCase, test.iterations)
      case None => Err(NoIterations(test.fullname))
      case Some(it) => Ok((suite, Case(testCase, it.status != SUCCESS, Sanitized(it.snippet))))
  }

  // The name splits, at the last '#' if it has one, else at the last '/', else
  // at the last dot.
  ghost predicate IsDelimiter(fullname: string, delim: char) {
    if '#' in fullname then delim == '#' else if '/' in fullname then delim == '/' else delim == '.'
  }

  lemma SplitNameAt(fullname: string, suite: string, delim: char, rest: string)
    requires fullname == suite + [delim] + rest && delim !in rest && IsDelimiter(fullname, delim)
    ensures SplitName(fullname) == Some((suite, rest))
  {
    assert delim in fullname;
    var r := SplitLast(fullname, delim).value;
    LastIsUnique(suite, rest, r.0, r.1, delim);
  }

  lemma LastIsUnique(a: string, b: string, c: string, d: string, delim: char)
    requires a + [delim] + b == c + [delim] + d && delim !in b && delim !in d
    ensures a == c && b == d
  {
    var s, t := a + [delim] + b, c + [delim] + d;
    assert s[|a|] == delim && t[|c|] == delim;
    assert a == s[..|a|] && c == t[..|c|];
    assert b == s[|a| + 1..] && d == t[|c| + 1..];
  }

  // The picked iteration is one that did not succeed.
  predicate Failed(isWord: WordClass, test: Test) {
    match SplitName(test.fullname)
    case None => false
    case Some((_, testCase)) =>
      var picked := PickIteration(isWord, testCase, test.iterations);
      picked.Some? && picked.value.status != "SUCCESS"
  }

  // What is reported of a test: its two names, the output of an iteration with
  // the highest score, and as failed exactly if that one did not succeed.
  lemma ReportedIs(isWord: WordClass, test: Test) returns (delim: char, k: nat)
    requires Reported(isWord, test).Ok?
    ensures
      var (suite, c) := Reported(isWord, test).value;
      && IsDelimiter(test.fullname, delim)
      && test.fullname == suite + [delim] + c.name && delim !in c.name
      && k < |test.iterations|
      && (forall j :: 0 <= j < |test.iterations| ==>
            Score(isWord, c.name, test.iterations[j]) <= Score(isWord, c.name, test.iterations[k]))
      && c.failed == (test.iterations[k].status != "SUCCESS")
      && c.output == Sanitized(test.iterations[k].snippet)
  {
    delim := if '#' in test.fullname then '#' else if '/' in test.fullname then '/' else '.';
    var testCase := SplitName(test.fullname).value.1;
    assert test.iterations != [];
    k := PickIsFirstBest(isWord, testCase, test.iterations);
    hide Score, Sanitized, PickIteration;
  }

  lemma ReportedAsFailed(isWord: WordClass, test: Test)
    ensures Reported(isWord, test).Ok? && Reported(isWord, test).value.1.failed <==> Failed(isWord, test)
  {
    hide Sanitized, PickIteration;
  }

  // Exactly when a test cannot be reported, and which error it is.
  lemma NotReported(isWord: WordClass, test: Test)
    ensures Reported(isWord, test).Err? <==>
      ('#' !in test.fullname && '/' !in test.fullname && '.' !in test.fullname) || test.iterations == []
    ensures Reported(isWord, test).Err? ==>
      Reported(isWord, test).error ==
        (if '#' !in test.fullname && '/' !in test.fullname && '.' !in test.fullname then NoDelimiter(test.fullname)
         else NoIterations(test.fullname))
  {
    hide Score, Sanitized;
  }

  // The testcase elements of a suite, in the order of the tests.
  function CasesOf(isWord: WordClass, tests: seq<Test>, suite: string): seq<Case> {
    if tests == [] then []
    else
      var last := Reported(isWord, tests[|tests| - 1]);
      CasesOf(isWord, tests[..|tests| - 1], suite) +
        if last.Ok? && last.value.0 == suite then [last.value.1] else []
  }

  function Failures(cases: seq<Case>): nat {
    if cases == [] then 0 else Failures(cases[..|cases| - 1]) + if cases[|cases| - 1].failed then 1 else 0
  }

  // Tests whose picked iteration is not a success.
  function FailedTests(isWord: WordClass, tests: seq<Test>): nat {
    if tests == [] then 0
    else
      var last := Reported(isWord, tests[|tests| - 1]);
      FailedTests(isWord, tests[..|tests| - 1]) + if last.Ok? && last.value.1.failed then 1 else 0
  }

  // The tests of a list come one after the other in their suites.
  lemma {:induction false} CasesInOrder(isWord: WordClass, a: seq<Test>, b: seq<Test>, suite: string)
    ensures CasesOf(isWord, a + b, suite) == CasesOf(isWord, a, suite) + CasesOf(isWord, b, suite)
  {
    if b == [] {
      assert a + b == a;
    } else {
      var n := |b| - 1;
      assert (a + b)[..|a + b| - 1] == a + b[..n];
      CasesInOrder(isWord, a, b[..n], suite);
      hide Reported;
    }
  }

  ghost function FailedAt(isWord: WordClass, tests: seq<Test>): set<nat> {
    set i: nat | i < |tests| && Failed(isWord, tests[i])
  }

  lemma FailedAtNext(isWord: WordClass, tests: seq<Test>)
    requires tests != []
    ensures var n := |tests| - 1;
      FailedAt(isWord, tests) == FailedAt(isWord, tests[..n]) + if Failed(isWord, tests[n]) then {n} else {}
  {
    hide Failed;
  }

  // The failures counted are the failed tests themselves.
  lemma {:induction false} FailedTestsAre(isWord: WordClass, tests: seq<Test>)
    ensures FailedTests(isWord, tests) == |FailedAt(isWord, tests)|
  {
    if tests != [] {
      var n := |tests| - 1;
      FailedTestsAre(isWord, tests[..n]);
      ReportedAsFailed(isWord, tests[n]);
      FailedAtNext(isWord, tests);
      assert n !in FailedAt(isWord, tests[..n]);
      hide Reported, Failed, FailedAt;
    }
  }

  // The suites, each where its first test comes.
  function SuitesOf(isWord: WordClass, tests: seq<Test>): seq<string> {
    if tests == [] then []
    else
      var before, last := SuitesOf(isWord, tests[..|tests| - 1]), Reported(isWord, tests[|tests| - 1]);
      if last.Ok? && last.value.0 !in before then before + [last.value.0] else before
  }

  lemma {:induction false} SuitesInOrder(isWord: WordClass, a: seq<Test>, b: seq<Test>)
    ensures SuitesOf(isWord, a) <= SuitesOf(isWord, a + b)
  {
    if b == [] {
      assert a + b == a;
    } else {
      var n := |b| - 1;
      assert (a + b)[..|a + b| - 1] == a + b[..n];
      SuitesInOrder(isWord, a, b[..n]);
      hide Reported;
    }
  }

  function TotalTests(names: seq<string>, suites: map<string, Suite>): nat
    requires forall name :: name in names ==> name in suites
  {
    if names == [] then 0
    else TotalTests(names[..|names| - 1], suites) + suites[names[|names| - 1]].testCount
  }

  function TotalFailures(names: seq<string>, suites: map<string, Suite>): nat
    requires forall name :: name in names ==> name in suites
  {
    if names == [] then 0
    else TotalFailures(names[..|names| - 1], suites) + suites[names[|names| - 1]].failureCount
  }

  ghost predicate Distinct(names: seq<string>) {
    forall i, j :: 0 <= i < j < |names| ==> names[i] != names[j]
  }

  // The names are the keys, each once.
  ghost predicate Valid(o: Output) {
    Distinct(o.names) && forall name :: name in o.names <==> name in o.suites
  }

  // The output holds each test once, in its suite and in order, and counts it.
  ghost predicate Reports(isWord: WordClass, tests: seq<Test>, o: Output) {
    Valid(o) && o.names == SuitesOf(isWord, tests) && forall suite :: SuiteReported(isWord, tests, o, suite)
  }

  ghost predicate SuiteReported(isWord: WordClass, tests: seq<Test>, o: Output, suite: string) {
    SuiteIs(o, suite, CasesOf(isWord, tests, suite))
  }

  predicate SuiteIs(o: Output, suite: string, cases: seq<Case>) {
    if suite in o.suites then o.suites[suite] == Suite(cases, |cases|, Failures(cases)) && cases != []
    else cases == []
  }

  // output[suite], with the default of the defaultdict
  function Entry(o: Output, suite: string): Suite {
    if suite in o.suites then o.suites[suite] else Suite([], 0, 0)
  }

  function Put(o: Output, suite: string, value: Suite): Output {
    Output(if suite in o.suites then o.names else o.names + [suite], o.suites[suite := value])
  }

  lemma {:induction false} TotalsOfPut(names: seq<string>, suites: map<string, Suite>, suite: string, value: Suite)
    requires Distinct(names) && forall name :: name in names ==> name in suites
    ensures TotalTests(names, suites[suite := value]) ==
      TotalTests(names, suites) + if suite in names then value.testCount - suites[suite].testCount else 0
    ensures TotalFailures(names, suites[suite := value]) ==
      TotalFailures(names, suites) + if suite in names then value.failureCount - suites[suite].failureCount else 0
  {
    if names != [] {
      var n := |names| - 1;
      TotalsOfPut(names[..n], suites, suite, value);
      assert names == names[..n] + [names[n]];
    }
  }

  lemma TotalsOfEntry(o: Output, suite: string, value: Suite)
    requires Valid(o)
    ensures Valid(Put(o, suite, value))
    ensures var o' := Put(o, suite, value);
      && TotalTests(o'.names, o'.suites) == TotalTests(o.names, o.suites) + value.testCount - Entry(o, suite).testCount
      && TotalFailures(o'.names, o'.suites) ==
         TotalFailures(o.names, o.suites) + value.failureCount - Entry(o, suite).failureCount
  {
    TotalsOfPut(o.names, o.suites, suite, value);
    if suite !in o.suites {
      assert (o.names + [suite])[..|o.names|] == o.names;
    }
  }

  // The first test that cannot be reported, and why.
  ghost predicate FirstFailure(isWord: WordClass, tests: seq<Test>, i: int, failure: Failure) {
    && 0 <= i < |tests| && Reported(isWord, tests[i]) == Err(failure)
    && forall j :: 0 <= j < i ==> Reported(isWord, tests[j]).Ok?
  }

  lemma NothingReported(isWord: WordClass)
    ensures Reports(isWord, [], Output([], map[])) && FailedTests(isWord, []) == 0
    ensures TotalTests([], map[]) == 0 == TotalFailures([], map[])
  {}

  method Transform(isWord: WordClass, tests: seq<Test>) returns (result: Result<Output, Failure>)
    ensures result.Ok? <==> forall test :: test in tests ==> Reported(isWord, test).Ok?
    ensures result.Ok? ==> Reports(isWord, tests, result.value)
    ensures result.Ok? ==>
      var o := result.value;
      && TotalTests(o.names, o.suites) == |tests|
      && TotalFailures(o.names, o.suites) == FailedTests(isWord, tests)
    ensures result.Err? ==> exists i :: FirstFailure(isWord, tests, i, result.error)
  {
    hide CasesOf, FailedTests, Reports, Sanitized, TotalTests, TotalFailures, PickIteration, SplitName, Put, Entry;
    var output := Output([], map[]);
    NothingReported(isWord);
    assert tests[..0] == [];
    for i := 0 to |tests|
      invariant forall j :: 0 <= j < i ==> Reported(isWord, tests[j]).Ok?
      invariant Valid(output) && Reports(isWord, tests[..i], output)
      invariant TotalTests(output.names, output.suites) == i
      invariant TotalFailures(output.names, output.suites) == FailedTests(isWord, tests[..i])
    {
      var split := SplitName(tests[i].fullname);
      if split.None? {
        assert tests[i] in tests && FirstFailure(isWord, tests, i, NoDelimiter(tests[i].fullname));
        return Err(NoDelimiter(tests[i].fullname));
      }
      var (testSuite, testCase) := split.value;
      var iteration := PickIteration(isWord, testCase, tests[i].iterations);
      if iteration.None? {
        assert tests[i] in tests && FirstFailure(isWord, tests, i, NoIterations(tests[i].fullname));
        return Err(NoIterations(tests[i].fullname));
      }
      var entry := Entry(output, testSuite);
      entry := entry.(testCount := entry.testCount + 1);
      if iteration.value.status == SUCCESS {
        entry := entry.(cases := entry.cases + [Case(testCase, false, Sanitized(iteration.value.snippet))]);
      } else {
        entry := entry.(failureCount := entry.failureCount + 1);
        entry := entry.(cases := entry.cases + [Case(testCase, true, Sanitized(iteration.value.snippet))]);
      }
      ReportsNext(isWord, tests, i, output, testSuite,
        Case(testCase, iteration.value.status != SUCCESS, Sanitized(iteration.value.snippet)));
      TotalsOfEntry(output, testSuite, entry);
      output := Put(output, testSuite, entry);
    }
    assert tests[..|tests|] == tests;
    return Ok(output);
  }

  // A dictionary entry that takes in one more testcase.
  function Extended(entry: Suite, c: Case): Suite {
    Suite(entry.cases + [c], entry.testCount + 1, entry.failureCount + if c.failed then 1 else 0)
  }

  lemma PutExtends(o: Output, suite: string, c: Case, name: string, cases: seq<Case>)
    requires SuiteIs(o, name, cases)
    ensures SuiteIs(Put(o, suite, Extended(Entry(o, suite), c)), name, cases + if name == suite then [c] else [])
  {
    if name == suite {
      FailuresOfNext(cases, c);
      NoFailures();
    } else {
      assert cases + [] == cases;
    }
    hide Failures;
  }

  lemma NoFailures()
    ensures Failures([]) == 0
  {}

  lemma ReportsNext(isWord: WordClass, tests: seq<Test>, i: nat, o: Output, suite: string, c: Case)
    requires i < |tests| && Reported(isWord, tests[i]) == Ok((suite, c)) && Reports(isWord, tests[..i], o)
    ensures Reports(isWord, tests[..i + 1], Put(o, suite, Extended(Entry(o, suite), c)))
    ensures FailedTests(isWord, tests[..i + 1]) == FailedTests(isWord, tests[..i]) + if c.failed then 1 else 0
  {
    var next, o' := tests[..i + 1], Put(o, suite, Extended(Entry(o, suite), c));
    assert next[..i] == tests[..i];
    assert Valid(o') && o'.names == SuitesOf(isWord, next);
    forall name ensures SuiteReported(isWord, next, o', name) {
      assert SuiteReported(isWord, tests[..i], o, name);
      CasesOfNext(isWord, tests, i, name);
      PutExtends(o, suite, c, name, CasesOf(isWord, tests[..i], name));
    }
  }

  lemma CasesOfNext(isWord: WordClass, tests: seq<Test>, i: nat, suite: string)
    requires i < |tests|
    ensures var last := Reported(isWord, tests[i]);
      CasesOf(isWord, tests[..i + 1], suite) ==
        CasesOf(isWord, tests[..i], suite) + if last.Ok? && last.value.0 == suite then [last.value.1] else []
  {
    assert tests[..i + 1][..i] == tests[..i];
  }

  lemma FailuresOfNext(cases: seq<Case>, c: Case)
    ensures Failures(cases + [c]) == Failures(cases) + if c.failed then 1 else 0
  {
    assert (cases + [c])[..|cases|] == cases;
  }

  // The totals that main prints.
  method Totals(o: Output) returns (testCount: nat, failureCount: nat)
    requires Valid(o)
    ensures testCount == TotalTests(o.names, o.suites) && failureCount == TotalFailures(o.names, o.suites)
  {
    testCount, failureCount := 0, 0;
    for i := 0 to |o.names|
      invariant testCount == TotalTests(o.names[..i], o.suites)
      invariant failureCount == TotalFailures(o.names[..i], o.suites)
    {
      assert o.names[..i + 1][..i] == o.names[..i];
      testCount := testCount + o.suites[o.names[i]].testCount;
      failureCount := failureCount + o.suites[o.names[i]].failureCount;
    }
    assert o.names[..|o.names|] == o.names;
  }

  // main: the printed totals count every test, and every test whose picked
  // iteration is not a success.
  method Report(isWord: WordClass, tests: seq<Test>)
    returns (result: Result<Output, Failure>, testCount: nat, failureCount: nat)
    ensures result.Ok? <==> forall test :: test in tests ==> Reported(isWord, test).Ok?
    ensures result.Ok? ==> Reports(isWord, tests, result.value)
    ensures result.Ok? ==>
      testCount == |tests| && failureCount == |set i: nat | i < |tests| && Failed(isWord, tests[i])|
  {
    hide Failed, Reported, SuitesOf;
    testCount, failureCount := 0, 0;
    result := Transform(isWord, tests);
    FailedTestsAre(isWord, tests);
    if result.Ok? {
      testCount, failureCount := Totals(result.value);
    }
  }
}

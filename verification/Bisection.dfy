// The release bisection of script/build-bisect.py.
//
// Installing a version and asking whether it works is an oracle on tags.
module Bisection {
  import opened Common

  type Oracle = string -> bool

  datatype Failure =
    | NotEnoughVersions
    | ExpectedToWork(tag: string)
    | ExpectedToFail(tag: string)
    | TestIndexUnassigned       // the return statement reads a name never bound

  datatype Found = Found(tag: string, attempts: int)

  // floor(log2(n))
  function Log2(n: nat): nat
    requires n >= 1
  {
    if n == 1 then 0 else 1 + Log2(n / 2)
  }

  lemma {:induction false} Log2Monotone(m: nat, n: nat)
    requires 1 <= m <= n
    ensures Log2(m) <= Log2(n)
  {
    if m > 1 {
      Log2Monotone(m / 2, n / 2);
    }
  }

  // ------------------------------------------------------------ the search

  // Index i is broken and the version before it works, or is the version that
  // the search was told works.
  ghost predicate Boundary(tags: seq<string>, works: Oracle, left: int, i: int)
    requires 0 <= left < i < |tags|
  {
    !works(tags[i]) && (i - 1 == left || works(tags[i - 1]))
  }

  // Every index the search can end at, whatever the oracle answers: a boundary,
  // the last interior index although it works, or a left end that is broken.
  ghost predicate Outcome(tags: seq<string>, works: Oracle, left: int, right: int, i: int)
    requires 0 <= left < right < |tags|
  {
    || (left < i < right && Boundary(tags, works, left, i))
    || (i == right - 1 && works(tags[i]))
    || (i == left && !works(tags[i]))
  }

  // The four running bounds of the search.
  datatype Bounds = Bounds(leftIndex: int, rightIndex: int, worksFrom: int, failsAt: int)

  // How a search ends: the index it answers, the versions it tried, and whether
  // it stopped on an interval of one version or fell through its loop.
  datatype Ending = Ending(index: int, probes: nat, stopped: bool)

  // Each search bound sits on the bound that is known, or just inside it.
  predicate InRange(tags: seq<string>, b: Bounds) {
    && 0 <= b.worksFrom <= b.failsAt < |tags|
    && b.worksFrom <= b.leftIndex <= b.worksFrom + 1
    && b.failsAt - 1 <= b.rightIndex <= b.failsAt
  }

  // The version that is tried next.
  function Middle(b: Bounds): int {
    (b.leftIndex + b.rightIndex) / 2
  }

  // The bounds after a version between them was tried.
  function Narrowed(b: Bounds, test: int, worked: bool): Bounds {
    if worked then b.(worksFrom := test, leftIndex := test + 1) else b.(failsAt := test, rightIndex := test - 1)
  }

  function Bisect(tags: seq<string>, works: Oracle, b: Bounds, last: int, probes: nat): (e: Ending)
    requires InRange(tags, b) && 0 <= last < |tags|
    ensures 0 <= e.index < |tags|
    decreases b.rightIndex - b.leftIndex + 1
  {
    if b.failsAt - b.worksFrom <= 1 then Ending(last, probes, false)
    else
      var test := Middle(b);
      if b.leftIndex == b.rightIndex then Ending(if works(tags[test]) then b.failsAt else test, probes + 1, true)
      else Bisect(tags, works, Narrowed(b, test, works(tags[test])), test, probes + 1)
  }

  function EndingOf(tags: seq<string>, works: Oracle, left: int, right: int): (e: Ending)
    requires 0 <= left <= right < |tags|
    ensures 0 <= e.index < |tags|
  {
    Bisect(tags, works, Bounds(left, right, left, right), left, 0)
  }

  // With these bounds, and this last probe, the search is on its way.
  ghost predicate Reached(
    tags: seq<string>, works: Oracle, left: int, right: int, b: Bounds, last: int, probes: nat)
    requires 0 <= left < |tags| && 0 <= right < |tags|
  {
    if right - left <= 1 then b == Bounds(left, right, left, right) && probes == 0
    else
      && InRange(tags, b) && 0 <= last < |tags| && (probes == 0 ==> b.failsAt - b.worksFrom > 1)
      && Bisect(tags, works, b, last, probes) == EndingOf(tags, works, left, right)
  }

  lemma StartReached(tags: seq<string>, works: Oracle, left: int, right: int)
    requires 0 <= left < |tags| && 0 <= right < |tags|
    ensures Reached(tags, works, left, right, Bounds(left, right, left, right), left, 0)
  {}

  // The version that is tried lies between the bounds, and narrows them.
  lemma Midpoint(tags: seq<string>, b: Bounds, worked: bool)
    requires InRange(tags, b) && b.failsAt - b.worksFrom > 1
    ensures b.leftIndex <= b.rightIndex && 0 <= b.failsAt < |tags|
    ensures Middle(b) == (b.leftIndex + b.rightIndex) / 2
    ensures var test := Middle(b);
      && 0 <= test < |tags| && b.worksFrom <= test <= b.failsAt
      && b.leftIndex <= test <= b.rightIndex
      && (b.leftIndex != b.rightIndex ==> InRange(tags, Narrowed(b, test, worked)))
  {}

  // One iteration of the loop.
  lemma BisectStep(tags: seq<string>, works: Oracle, b: Bounds, last: int, probes: nat)
    requires InRange(tags, b) && 0 <= last < |tags| && b.failsAt - b.worksFrom > 1
    ensures var test := Middle(b);
      && 0 <= test < |tags|
      && var e := Bisect(tags, works, b, last, probes);
      var next := Narrowed(b, test, works(tags[test]));
      if b.leftIndex == b.rightIndex then e == Ending(if works(tags[test]) then b.failsAt else test, probes + 1, true)
      else InRange(tags, next) && e == Bisect(tags, works, next, test, probes + 1)
  {
    Midpoint(tags, b, true);
    Midpoint(tags, b, false);
    hide Middle, InRange, Narrowed;
  }

  lemma NextReached(tags: seq<string>, works: Oracle, left: int, right: int, b: Bounds, last: int, probes: nat)
    requires 0 <= left < |tags| && 0 <= right < |tags|
    requires Reached(tags, works, left, right, b, last, probes) && b.failsAt - b.worksFrom > 1
    ensures right - left > 1 && InRange(tags, b)
    ensures var test := Middle(b);
      && 0 <= test < |tags|
      && if b.leftIndex == b.rightIndex then
           EndingOf(tags, works, left, right) ==
           Ending(if works(tags[test]) then b.failsAt else test, probes + 1, true)
         else Reached(tags, works, left, right, Narrowed(b, test, works(tags[test])), test, probes + 1)
  {
    hide EndingOf, Narrowed, Middle, Bisect, InRange;
    BisectStep(tags, works, b, last, probes);
  }

  lemma EndReached(tags: seq<string>, works: Oracle, left: int, right: int, b: Bounds, last: int, probes: nat)
    requires 0 <= left < |tags| && 0 <= right < |tags|
    requires Reached(tags, works, left, right, b, last, probes) && b.failsAt - b.worksFrom <= 1
    ensures if probes == 0 then right - left <= 1
            else right - left > 1 && EndingOf(tags, works, left, right) == Ending(last, probes, false)
  {}

  // The bounds that moved are known to work, or to be broken.
  ghost predicate Sound(tags: seq<string>, works: Oracle, left: int, right: int, b: Bounds) {
    && InRange(tags, b) && 0 <= left <= b.worksFrom && b.failsAt <= right < |tags|
    && (b.leftIndex == b.worksFrom == left || (b.leftIndex == b.worksFrom + 1 && works(tags[b.worksFrom])))
    && (b.rightIndex == b.failsAt == right ||
        (b.rightIndex == b.failsAt - 1 && b.failsAt < right && !works(tags[b.failsAt])))
  }

  // The last version tried is one of the bounds.
  ghost predicate LastProbe(left: int, right: int, b: Bounds, last: int, probes: nat) {
    if probes == 0 then b == Bounds(left, right, left, right) && right - left > 1
    else (last == b.worksFrom && b.leftIndex == b.worksFrom + 1 <= b.rightIndex) ||
         (last == b.failsAt && b.rightIndex == b.failsAt - 1)
  }

  lemma {:induction false} BisectOutcome(
    tags: seq<string>, works: Oracle, left: int, right: int, b: Bounds, last: int, probes: nat)
    requires Sound(tags, works, left, right, b) && left < right && 0 <= last < |tags|
    requires LastProbe(left, right, b, last, probes)
    ensures Outcome(tags, works, left, right, Bisect(tags, works, b, last, probes).index)
    decreases b.rightIndex - b.leftIndex + 1
  {
    if b.failsAt - b.worksFrom > 1 && b.leftIndex != b.rightIndex {
      var test := Middle(b);
      BisectOutcome(tags, works, left, right, Narrowed(b, test, works(tags[test])), test, probes + 1);
    }
  }

  // Every probe halves what is left.
  lemma {:induction false} BisectProbes(tags: seq<string>, works: Oracle, b: Bounds, last: int, probes: nat)
    requires InRange(tags, b) && 0 <= last < |tags|
    ensures var size := b.rightIndex - b.leftIndex + 1;
      var more := Bisect(tags, works, b, last, probes).probes - probes;
      0 <= more <= (if size >= 1 then Log2(size) + 1 else 0) && (b.failsAt - b.worksFrom > 1 ==> more >= 1)
    decreases b.rightIndex - b.leftIndex + 1
  {
    if b.failsAt - b.worksFrom > 1 && b.leftIndex != b.rightIndex {
      var test := Middle(b);
      var next := Narrowed(b, test, works(tags[test]));
      BisectProbes(tags, works, next, test, probes + 1);
      if next.leftIndex <= next.rightIndex {
        Log2Monotone(next.rightIndex - next.leftIndex + 1, (b.rightIndex - b.leftIndex + 1) / 2);
      }
    }
  }

  // For any oracle at all the search ends at one of three kinds of index, after
  // at most log2 + 1 probes.
  lemma EndingIsOutcome(tags: seq<string>, works: Oracle, left: int, right: int)
    requires 0 <= left < right < |tags| && right - left > 1
    ensures var e := EndingOf(tags, works, left, right);
      Outcome(tags, works, left, right, e.index) && 1 <= e.probes <= Log2(right - left + 1) + 1
  {
    BisectOutcome(tags, works, left, right, Bounds(left, right, left, right), left, 0);
    BisectProbes(tags, works, Bounds(left, right, left, right), left, 0);
  }

  // Attempts are the probes before and in the search, and one more if it fell
  // through its loop.
  method Search(tags: seq<string>, works: Oracle, left: int, right: int, attempt: int)
    returns (result: Result<Found, Failure>, ghost probes: nat)
    requires 0 <= left < |tags| && 0 <= right < |tags|
    ensures right - left <= 1 ==> result == Err(TestIndexUnassigned)
    ensures right - left > 1 ==>
      var e := EndingOf(tags, works, left, right);
      && Outcome(tags, works, left, right, e.index)
      && 1 <= e.probes <= Log2(right - left + 1) + 1
      && result == Ok(Found(tags[e.index], attempt + e.probes - if e.stopped then 1 else 0))
    ensures probes == if right - left <= 1 then 0 else EndingOf(tags, works, left, right).probes
  {
    var leftIndex, rightIndex := left, right;
    var worksFrom, failsAt := left, right;
    var attemptNumber := attempt;
    var testIndex: Option<int> := None;
    probes := 0;
    ghost var b := Bounds(left, right, left, right);
    ghost var last := left;
    if right - left > 1 {
      EndingIsOutcome(tags, works, left, right);
    }
    hide Outcome, Log2, EndingOf, Bisect, InRange, Reached, Middle;
    StartReached(tags, works, left, right);
    while failsAt - worksFrom > 1
      invariant b == Bounds(leftIndex, rightIndex, worksFrom, failsAt) && attemptNumber == attempt + probes
      invariant if probes == 0 then testIndex == None else testIndex == Some(last)
      invariant Reached(tags, works, left, right, b, last, probes)
      decreases rightIndex - leftIndex + 1
    {
      NextReached(tags, works, left, right, b, last, probes);
      Midpoint(tags, b, works(tags[Middle(b)]));
      testIndex := Some((leftIndex + rightIndex) / 2);
      var testTag := tags[testIndex.value];
      var worked := works(testTag);
      probes := probes + 1;

      if leftIndex == rightIndex {
        if worked {
          return Ok(Found(tags[failsAt], attemptNumber)), probes;
        }
        return Ok(Found(testTag, attemptNumber)), probes;
      }

      if worked {
        worksFrom := if testIndex.value > worksFrom then testIndex.value else worksFrom;
        leftIndex := testIndex.value + 1;
      } else {
        failsAt := if testIndex.value < failsAt then testIndex.value else failsAt;
        rightIndex := testIndex.value - 1;
      }
      attemptNumber := attemptNumber + 1;
      last := testIndex.value;
      b := Narrowed(b, last, worked);
    }
    EndReached(tags, works, left, right, b, last, probes);
    if testIndex.None? {
      return Err(TestIndexUnassigned), probes;
    }
    return Ok(Found(tags[testIndex.value], attemptNumber)), probes;
  }

  // All versions before `first` work and all others are broken.
  ghost predicate SingleBreak(tags: seq<string>, works: Oracle, first: int) {
    && 0 < first < |tags|
    && (forall k :: 0 <= k < first ==> works(tags[k]))
    && (forall k :: first <= k < |tags| ==> !works(tags[k]))
  }

  // With a single break at index `first`, the search names it, unless it is
  // the right end: then it names the version before it.
  lemma OutcomeIsFirstBroken(tags: seq<string>, works: Oracle, left: int, right: int, first: int, i: int)
    requires 0 <= left < first <= right < |tags|
    requires forall k :: left <= k < first ==> works(tags[k])
    requires forall k :: first <= k <= right ==> !works(tags[k])
    requires Outcome(tags, works, left, right, i)
    ensures i == if first < right then first else right - 1
    ensures i == first <==> !works(tags[right - 1])
  {}

  // If there is a single break between the two ends, then index i is the break
  // if and only if the version just before the right end is broken, and
  // otherwise the break is the right end and i the version before it.
  ghost predicate NamesTheBreak(tags: seq<string>, works: Oracle, left: int, right: int, i: int)
    requires 0 <= left < right < |tags|
  {
    forall first :: left < first <= right && SingleBreak(tags, works, first) ==>
      && (i == first <==> !works(tags[right - 1]))
      && (i != first ==> first == right && i == right - 1)
  }

  lemma OutcomeForEveryBreak(tags: seq<string>, works: Oracle, left: int, right: int, i: int)
    requires 0 <= left < right < |tags| && Outcome(tags, works, left, right, i)
    ensures NamesTheBreak(tags, works, left, right, i)
  {
    forall first | left < first <= right && SingleBreak(tags, works, first)
      ensures i == if first < right then first else right - 1
      ensures i == first <==> !works(tags[right - 1])
    {
      OutcomeIsFirstBroken(tags, works, left, right, first, i);
    }
  }

  // The search really can name a working version, and count an attempt too
  // many: of a, b and c only c is broken, it tries b and no other version, falls
  // through its loop and answers b.
  lemma WorkingVersionNamed()
    ensures SingleBreak(["a", "b", "c"], tag => tag != "c", 2)
    ensures EndingOf(["a", "b", "c"], tag => tag != "c", 0, 2) == Ending(1, 1, false)
  {}

  // For any oracle that works on the left end, also one that is not monotone:
  // if the version before the right end is broken, the result is broken and
  // its predecessor works.
  lemma OutcomeIsBoundary(tags: seq<string>, works: Oracle, left: int, right: int, i: int)
    requires 0 <= left < right < |tags|
    requires works(tags[left]) && !works(tags[right - 1])
    requires Outcome(tags, works, left, right, i)
    ensures left < i && !works(tags[i]) && works(tags[i - 1])
  {}

  // ------------------------------------------------- the search's two ends

  // list.index
  function IndexOf(tags: seq<string>, tag: string): (i: nat)
    ensures i <= |tags|
    ensures i < |tags| ==> tags[i] == tag
    ensures tag !in tags[..i]
    ensures i < |tags| <==> tag in tags
  {
    if tags == [] || tags[0] == tag then 0 else 1 + IndexOf(tags[1..], tag)
  }

  function WithPrefix(tags: seq<string>, prefix: string): (results: seq<string>)
    ensures forall tag :: tag in results <==> tag in tags && prefix <= tag
  {
    if tags == [] then []
    else (if prefix <= tags[0] then [tags[0]] else []) + WithPrefix(tags[1..], prefix)
  }

  datatype Pick = First | Last

  // "major.minor." of a three-part version
  function MinorPrefix(version: string): Option<string> {
    var parts := Split(version, '.');
    if |parts| != 3 then None else Some(parts[0] + "." + parts[1] + ".")
  }

  function GetNearestIndex(tags: seq<string>, version: string, pick: Pick, default: int): int {
    if version in tags then IndexOf(tags, version)
    else match MinorPrefix(version)
      case None => default
      case Some(prefix) =>
        var results := WithPrefix(tags, prefix);
        if |results| == 0 then default
        else IndexOf(tags, if pick.First? then results[0] else results[|results| - 1])
  }

  // Index i holds the first match, or is the first index of the last match.
  ghost predicate Nearest(tags: seq<string>, prefix: string, pick: Pick, i: int) {
    && 0 <= i < |tags| && prefix <= tags[i]
    && match pick
      case First => forall k :: 0 <= k < i ==> !(prefix <= tags[k])
      case Last => tags[i] !in tags[..i] && LastMatch(tags, prefix, tags[i])
  }

  ghost predicate LastMatch(tags: seq<string>, prefix: string, tag: string) {
    exists last :: 0 <= last < |tags| && tags[last] == tag && forall k :: last < k < |tags| ==> !(prefix <= tags[k])
  }

  lemma NearestIndex(tags: seq<string>, version: string, pick: Pick, default: int)
    ensures var i := GetNearestIndex(tags, version, pick, default);
      if version in tags then 0 <= i < |tags| && tags[i] == version && version !in tags[..i]
      else match MinorPrefix(version)
      case None => i == default
      case Some(prefix) =>
        if forall tag :: tag in tags ==> !(prefix <= tag) then i == default else Nearest(tags, prefix, pick, i)
  {
    if version !in tags && MinorPrefix(version).Some? {
      var prefix := MinorPrefix(version).value;
      var results := WithPrefix(tags, prefix);
      if |results| == 0 {
        assert forall tag :: tag in tags && prefix <= tag ==> tag in results;
      } else {
        assert results[0] in tags && prefix <= results[0];
        assert results[|results| - 1] in tags && prefix <= results[|results| - 1];
        FirstResult(tags, prefix);
        LastResult(tags, prefix);
      }
    }
  }

  lemma {:induction false} FirstResult(tags: seq<string>, prefix: string)
    requires WithPrefix(tags, prefix) != []
    ensures var i := IndexOf(tags, WithPrefix(tags, prefix)[0]);
      && i < |tags| && prefix <= tags[i]
      && forall k :: 0 <= k < i ==> !(prefix <= tags[k])
  {
    var result := WithPrefix(tags, prefix)[0];
    assert result in WithPrefix(tags, prefix);
    if !(prefix <= tags[0]) {
      FirstResult(tags[1..], prefix);
      var j := IndexOf(tags[1..], result);
      forall k | 0 <= k < j + 1 ensures !(prefix <= tags[k]) {
        if k > 0 { assert tags[k] == tags[1..][k - 1]; }
      }
    }
  }

  lemma LastMatchBehind(tags: seq<string>, prefix: string, tag: string)
    requires tags != [] && LastMatch(tags[1..], prefix, tag)
    ensures LastMatch(tags, prefix, tag)
  {
    var last :| 0 <= last < |tags[1..]| && tags[1..][last] == tag &&
      forall k :: last < k < |tags[1..]| ==> !(prefix <= tags[1..][k]);
    forall k | last + 1 < k < |tags| ensures !(prefix <= tags[k]) {
      assert tags[k] == tags[1..][k - 1];
    }
    assert tags[last + 1] == tag;
  }

  lemma {:induction false} LastResult(tags: seq<string>, prefix: string)
    requires WithPrefix(tags, prefix) != []
    ensures var results := WithPrefix(tags, prefix);
      LastMatch(tags, prefix, results[|results| - 1])
  {
    var rest := WithPrefix(tags[1..], prefix);
    if rest == [] {
      forall k | 0 < k < |tags| ensures !(prefix <= tags[k]) {
        assert tags[k] in tags[1..];
      }
      assert tags[0] == WithPrefix(tags, prefix)[0];
    } else {
      LastResult(tags[1..], prefix);
      LastMatchBehind(tags, prefix, rest[|rest| - 1]);
      hide LastMatch;
    }
  }

  // An option that was given; Python treats an empty string as absent.
  predicate Given(version: Option<string>) {
    version.Some? && version.value != ""
  }

  function LeftEnd(tags: seq<string>, good: Option<string>): int {
    if Given(good) then GetNearestIndex(tags, good.value, First, 0) else 0
  }

  function RightEnd(tags: seq<string>, bad: Option<string>): int {
    if Given(bad) then GetNearestIndex(tags, bad.value, Last, |tags| - 1) else |tags| - 1
  }

  lemma EndsInRange(tags: seq<string>, good: Option<string>, bad: Option<string>)
    requires |tags| > 0
    ensures 0 <= LeftEnd(tags, good) < |tags| && 0 <= RightEnd(tags, bad) < |tags|
  {
    if Given(good) {
      NearestIndex(tags, good.value, First, 0);
    }
    if Given(bad) {
      NearestIndex(tags, bad.value, Last, |tags| - 1);
    }
  }

  // The parts of a version that is not listed, and of which series it is.
  lemma {:induction false} SplitPart(a: string, separator: char, rest: string)
    requires separator !in a
    ensures Split(a + [separator] + rest, separator) == [a] + Split(rest, separator)
  {
    var s := a + [separator] + rest;
    if a == "" {
      assert s == [separator] + rest;
    } else {
      assert s[1..] == a[1..] + [separator] + rest;
      SplitPart(a[1..], separator, rest);
      assert [a[0]] + a[1..] == a;
    }
  }

  lemma {:induction false} SplitWhole(a: string, separator: char)
    requires separator !in a
    ensures Split(a, separator) == [a]
  {
    if a != "" {
      SplitWhole(a[1..], separator);
      assert [a[0]] + a[1..] == a;
    }
  }

  lemma SeriesOf(major: string, minor: string, patch: string)
    requires '.' !in major && '.' !in minor && '.' !in patch
    ensures MinorPrefix(major + "." + minor + "." + patch) == Some(major + "." + minor + ".")
  {
    var version := major + "." + minor + "." + patch;
    assert version == major + "." + (minor + "." + patch);
    SplitPart(major, '.', minor + "." + patch);
    SplitPart(minor, '.', patch);
    SplitWhole(patch, '.');
  }

  // The search starts at the first version of the good one's series, or at the
  // first of all.
  lemma LeftEndIsFirst(tags: seq<string>, good: Option<string>)
    ensures var left := LeftEnd(tags, good);
      if good == None || good == Some("") then left == 0
      else if good.value in tags then 0 <= left < |tags| && tags[left] == good.value && good.value !in tags[..left]
      else match MinorPrefix(good.value)
      case None => left == 0
      case Some(prefix) =>
        && (forall k :: 0 <= k < |tags| && prefix <= tags[k] ==> 0 <= left <= k && prefix <= tags[left])
        && ((forall k :: 0 <= k < |tags| ==> !(prefix <= tags[k])) ==> left == 0)
  {
    if Given(good) {
      NearestIndex(tags, good.value, First, 0);
      hide GetNearestIndex;
      forall k | 0 <= k < |tags| ensures tags[k] in tags {}
    }
  }

  // The search ends at the last version of the bad one's series, or at the last
  // of all; if tags repeat, at the first place of that version.
  lemma RightEndIsLast(tags: seq<string>, bad: Option<string>)
    ensures var right := RightEnd(tags, bad);
      if bad == None || bad == Some("") then right == |tags| - 1
      else if bad.value in tags then 0 <= right < |tags| && tags[right] == bad.value && bad.value !in tags[..right]
      else match MinorPrefix(bad.value)
      case None => right == |tags| - 1
      case Some(prefix) =>
        && (forall k :: 0 <= k < |tags| && prefix <= tags[k] ==>
              0 <= right < |tags| && prefix <= tags[right] && tags[right] !in tags[..right] &&
              (exists last :: k <= last < |tags| && tags[last] == tags[right]))
        && ((forall k :: 0 <= k < |tags| ==> !(prefix <= tags[k])) ==> right == |tags| - 1)
  {
    if Given(bad) {
      NearestIndex(tags, bad.value, Last, |tags| - 1);
      hide GetNearestIndex;
      forall k | 0 <= k < |tags| ensures tags[k] in tags {}
      if bad.value !in tags && MinorPrefix(bad.value).Some? {
        var prefix := MinorPrefix(bad.value).value;
        forall k | 0 <= k < |tags| && prefix <= tags[k]
          ensures exists last :: k <= last < |tags| && tags[last] == tags[RightEnd(tags, bad)]
        {
          assert LastMatch(tags, prefix, tags[RightEnd(tags, bad)]);
        }
      }
    }
  }

  // The failure that find_first_broken_version raises, if it raises one.
  function FailureOf(tags: seq<string>, works: Oracle, good: Option<string>, bad: Option<string>): Option<Failure> {
    if |tags| < 2 then Some(NotEnoughVersions)
    else
      EndsInRange(tags, good, bad);
      var left, right := LeftEnd(tags, good), RightEnd(tags, bad);
      // an end is only tried if it is the end of the whole list
      if left == 0 && !works(tags[left]) then Some(ExpectedToWork(tags[left]))
      else if right == |tags| - 1 && works(tags[right]) then Some(ExpectedToFail(tags[right]))
      else if right - left <= 1 then Some(TestIndexUnassigned)
      else None
  }

  // What goes wrong without any options.
  lemma FailureWithoutOptions(tags: seq<string>, works: Oracle)
    ensures FailureOf(tags, works, None, None) ==
      if |tags| <= 1 then Some(NotEnoughVersions)
      else if !works(tags[0]) then Some(ExpectedToWork(tags[0]))
      else if works(tags[|tags| - 1]) then Some(ExpectedToFail(tags[|tags| - 1]))
      else if |tags| == 2 then Some(TestIndexUnassigned)
      else None
  {}

  // Ends inside the list are taken on trust: nothing can then go wrong, and with
  // any options a single break strictly between the ends is named.
  lemma BreakIsNamed(tags: seq<string>, works: Oracle, good: Option<string>, bad: Option<string>, first: int)
    requires LeftEnd(tags, good) < first < RightEnd(tags, bad) && SingleBreak(tags, works, first)
    ensures FailureOf(tags, works, good, bad) == None
    ensures
      var (left, right) := (LeftEnd(tags, good), RightEnd(tags, bad));
      0 <= left < right < |tags| && EndingOf(tags, works, left, right).index == first
  {
    EndsInRange(tags, good, bad);
    var left, right := LeftEnd(tags, good), RightEnd(tags, bad);
    hide LeftEnd, RightEnd, EndingOf;
    EndingIsOutcome(tags, works, left, right);
    OutcomeIsFirstBroken(tags, works, left, right, first, EndingOf(tags, works, left, right).index);
  }

  lemma InnerEndsAreTrusted(tags: seq<string>, works: Oracle, good: Option<string>, bad: Option<string>)
    requires 0 < LeftEnd(tags, good) && RightEnd(tags, bad) < |tags| - 1
    requires RightEnd(tags, bad) - LeftEnd(tags, good) > 1
    ensures FailureOf(tags, works, good, bad) == None
  {
    EndsInRange(tags, good, bad);
  }

  // How many of the two ends are tried before the search.
  function EndsTried(tags: seq<string>, left: int, right: int): nat {
    (if left == 0 then 1 else 0) + (if right == |tags| - 1 then 1 else 0)
  }

  method FindFirstBrokenVersion(tags: seq<string>, works: Oracle, good: Option<string>, bad: Option<string>)
    returns (result: Result<Found, Failure>, ghost probes: nat)
    ensures result.Err? <==> FailureOf(tags, works, good, bad).Some?
    ensures result.Err? ==> result.error == FailureOf(tags, works, good, bad).value
    ensures result.Ok? ==>
      var left, right := LeftEnd(tags, good), RightEnd(tags, bad);
      && 0 <= left < right < |tags|
      && var e := EndingOf(tags, works, left, right);
      && Outcome(tags, works, left, right, e.index) && NamesTheBreak(tags, works, left, right, e.index)
      && e.probes <= Log2(right - left + 1) + 1
      && result.value == Found(tags[e.index], EndsTried(tags, left, right) + e.probes + if e.stopped then 0 else 1)
    ensures result.Ok? ==>
      var left, right := LeftEnd(tags, good), RightEnd(tags, bad);
      probes == EndsTried(tags, left, right) + EndingOf(tags, works, left, right).probes
  {
    hide GetNearestIndex, Outcome, SingleBreak, NamesTheBreak, Log2, EndingOf;
    probes := 0;
    var leftIndex, rightIndex := 0, |tags| - 1;
    var args: (Option<string>, Option<string>) := (good, bad);
    if leftIndex >= rightIndex {
      return Err(NotEnoughVersions), probes;
    }
    EndsInRange(tags, good, bad);
    if Given(args.0) {
      leftIndex := GetNearestIndex(tags, args.0.value, First, leftIndex);
      if leftIndex == 0 {
        args := (None, args.1);
      }
    }
    if Given(args.1) {
      rightIndex := GetNearestIndex(tags, args.1.value, Last, rightIndex);
      if rightIndex == |tags| - 1 {
        args := (args.0, None);
      }
    }

    var attemptNumber := 1;
    if !Given(args.0) {
      var leftTag := tags[leftIndex];
      var worked := works(leftTag);
      probes := probes + 1;
      attemptNumber := attemptNumber + 1;
      if !worked {
        return Err(ExpectedToWork(leftTag)), probes;
      }
    }
    if !Given(args.1) {
      var rightTag := tags[rightIndex];
      var worked := works(rightTag);
      probes := probes + 1;
      attemptNumber := attemptNumber + 1;
      if worked {
        return Err(ExpectedToFail(rightTag)), probes;
      }
    }
    ghost var searchProbes;
    result, searchProbes := Search(tags, works, leftIndex, rightIndex, attemptNumber);
    probes := probes + searchProbes;
    if result.Ok? {
      OutcomeForEveryBreak(tags, works, leftIndex, rightIndex, EndingOf(tags, works, leftIndex, rightIndex).index);
    }
  }
}

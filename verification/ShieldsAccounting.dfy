// Blocked-resource accounting and scripts allowed once, from
// browser/brave_shields/brave_shields_web_contents_observer.cc.
module ShieldsAccounting {
  import opened Common

  const UINT64 := 0x1_0000_0000_0000_0000
  type UInt64 = n: nat | n < UINT64

  // Counters are 64 bits wide.
  function Wrapped(n: nat): UInt64 { n % UINT64 }

  type Origins = seq<string>
  type Frame = nat     // a RenderFrameHost
  type Tab = nat       // a WebContents with its observer
  type Profile = nat   // an original profile, which owns the counters
  type Prefs = map<string, UInt64>

  datatype Reload = NoReload | NormalReload | BypassingCache

  // The counter that a block type increments, if it is one of the four.
  function CounterOf(blockType: string): Option<string> {
    if blockType == "shieldsAds" then Some("brave.stats.ads_blocked")
    else if blockType == "httpUpgradableResources" then Some("brave.stats.https_upgrades")
    else if blockType == "javascript" then Some("brave.stats.javascript_blocked")
    else if blockType == "fingerprintingV2" then Some("brave.stats.fingerprinting_blocked")
    else None
  }

  function GetUint64(prefs: Prefs, key: string): UInt64 {
    if key in prefs then prefs[key] else 0
  }

  function Incremented(prefs: Prefs, key: string): Prefs {
    prefs[key := Wrapped(GetUint64(prefs, key) + 1)]
  }

  // One observer: what it remembers, the frames of its tab, and for each frame
  // with a bound remote the origin lists sent through it, oldest first.
  datatype Page = Page(
    blocked: set<string>, allowed: Origins,
    frames: set<Frame>, remotes: map<Frame, seq<Origins>>)

  predicate WellFormed(p: Page) {
    p.remotes.Keys <= p.frames
  }

  // The list a frame goes by: the last one it was sent.
  function Told(p: Page, f: Frame): Origins {
    if f in p.remotes && p.remotes[f] != [] then p.remotes[f][|p.remotes[f]| - 1] else []
  }

  function Bind(p: Page, f: Frame): Page {
    if f in p.remotes then p else p.(remotes := p.remotes[f := []])
  }

  // The lists sent to a frame, and the one the observer holds now.
  function SentWithNow(p: Page, f: Frame): seq<Origins> {
    (if f in p.remotes then p.remotes[f] else []) + [p.allowed]
  }

  // SetAllowScriptsFromOriginsOnce through the frame's remote.
  function Tell(p: Page, f: Frame): Page {
    p.(remotes := p.remotes[f := SentWithNow(p, f)])
  }

  // -------------------------------------------------------- page events

  // A navigation that starts a new epoch of blocked URLs.
  predicate Resets(mainFrame: bool, sameDocument: bool, reload: Reload) {
    mainFrame && !sameDocument && !reload.BypassingCache?
  }

  // A new load, as opposed to a reload.
  predicate NewLoad(mainFrame: bool, sameDocument: bool, reload: Reload) {
    mainFrame && !sameDocument && reload.NoReload?
  }

  function TellSome(p: Page, frames: set<Frame>): Page {
    p.(remotes := map f | f in frames + p.remotes.Keys ::
         if f in frames then SentWithNow(p, f) else p.remotes[f])
  }

  function TellAll(p: Page): Page {
    TellSome(p, p.frames)
  }

  lemma TellOneMore(p: Page, frames: set<Frame>, f: Frame)
    requires f !in frames
    ensures Tell(TellSome(p, frames), f) == TellSome(p, frames + {f})
  {
    var q, r := Tell(TellSome(p, frames), f), TellSome(p, frames + {f});
    assert q.remotes.Keys == r.remotes.Keys;
    assert forall g :: g in q.remotes ==> q.remotes[g] == r.remotes[g];
  }

  // The loop over all frames: one step, its start and its end.
  lemma TellNext(p: Page, unvisited: set<Frame>, f: Frame)
    requires f in unvisited && unvisited <= p.frames
    ensures Tell(TellSome(p, p.frames - unvisited), f) == TellSome(p, p.frames - (unvisited - {f}))
  {
    TellOneMore(p, p.frames - unvisited, f);
    assert p.frames - unvisited + {f} == p.frames - (unvisited - {f});
  }

  lemma TellNobodyAndAll(p: Page)
    ensures TellSome(p, p.frames - p.frames) == p
    ensures TellSome(p, p.frames - {}) == TellAll(p)
  {
    assert TellSome(p, p.frames - p.frames).remotes == p.remotes;
    assert p.frames - {} == p.frames;
  }

  function Navigated(p: Page, mainFrame: bool, sameDocument: bool, reload: Reload): Page {
    TellAll(p.(
      allowed := if NewLoad(mainFrame, sameDocument, reload) then [] else p.allowed,
      blocked := if Resets(mainFrame, sameDocument, reload) then {} else p.blocked))
  }

  function FrameCreated(p: Page, f: Frame): Page {
    var p' := p.(frames := p.frames + {f});
    if p.allowed != [] then Tell(p', f) else Bind(p', f)
  }

  function FrameDeleted(p: Page, f: Frame): Page {
    p.(frames := p.frames - {f}, remotes := p.remotes - {f})
  }

  // ------------------------------------------------------------- tabs

  datatype World = World(pages: map<Tab, Page>, profile: map<Tab, Profile>, prefs: map<Profile, Prefs>) {
    predicate Valid() {
      && pages.Keys == profile.Keys
      && (forall t :: t in profile ==> profile[t] in prefs)
      && (forall t :: t in pages ==> WellFormed(pages[t]))
    }
  }

  datatype Event =
    | Blocked(tab: Tab, url: string, blockType: string)
    | Navigation(tab: Tab, mainFrame: bool, sameDocument: bool, reload: Reload)
    | AllowScriptsOnce(tab: Tab, origins: Origins)
    | RenderFrameCreated(tab: Tab, frame: Frame)
    | RenderFrameDeleted(tab: Tab, frame: Frame)

  // DispatchBlockedEvent, on the counters of the tab's profile.
  function Dispatched(p: Page, prefs: Prefs, url: string, blockType: string): Prefs {
    if url in p.blocked then prefs
    else
      match CounterOf(blockType)
      case None => prefs
      case Some(counter) => Incremented(prefs, counter)
  }

  // What an event makes of the tab it goes to, and of the tab's counters.
  function PageAfter(p: Page, e: Event): Page {
    match e
    case Blocked(_, url, _) => p.(blocked := p.blocked + {url})
    case Navigation(_, main, same, reload) => Navigated(p, main, same, reload)
    case AllowScriptsOnce(_, origins) => p.(allowed := origins)
    case RenderFrameCreated(_, f) => FrameCreated(p, f)
    case RenderFrameDeleted(_, f) => FrameDeleted(p, f)
  }

  function PrefsAfter(p: Page, prefs: Prefs, e: Event): Prefs {
    match e
    case Blocked(_, url, blockType) => Dispatched(p, prefs, url, blockType)
    case _ => prefs
  }

  // An event on an unknown tab has no observer to go to.
  function Apply(w: World, e: Event): (w': World)
    requires w.Valid()
    ensures w'.Valid()
    ensures w'.pages.Keys == w.pages.Keys && w'.profile == w.profile && w'.prefs.Keys == w.prefs.Keys
  {
    if e.tab !in w.pages then w
    else
      var p, profile := w.pages[e.tab], w.profile[e.tab];
      World(w.pages[e.tab := PageAfter(p, e)], w.profile, w.prefs[profile := PrefsAfter(p, w.prefs[profile], e)])
  }

  function Run(start: World, log: seq<Event>): (w: World)
    requires start.Valid()
    ensures w.Valid()
    ensures w.pages.Keys == start.pages.Keys && w.profile == start.profile && w.prefs.Keys == start.prefs.Keys
  {
    if log == [] then start
    else Apply(Run(start, log[..|log| - 1]), log[|log| - 1])
  }

  // ----------------------------------------------- what should be counted

  // A new load, or a normal reload, of the main frame.
  predicate ResetsTab(e: Event, tab: Tab) {
    e == Navigation(tab, true, false, NoReload) || e == Navigation(tab, true, false, NormalReload)
  }

  // Which page of the tab is shown after a log.
  function Epoch(log: seq<Event>, tab: Tab): nat {
    if log == [] then 0
    else
      var n := |log| - 1;
      Epoch(log[..n], tab) + if ResetsTab(log[n], tab) then 1 else 0
  }

  // Event j blocks the URL on the tab during the given epoch.
  ghost predicate Blocks(log: seq<Event>, j: nat, tab: Tab, epoch: nat, url: string)
    requires j < |log|
  {
    log[j].Blocked? && log[j].tab == tab && log[j].url == url && Epoch(log[..j], tab) == epoch
  }

  ghost predicate IsFirst(log: seq<Event>, i: nat)
    requires i < |log| && log[i].Blocked?
  {
    forall j :: 0 <= j < i ==> !Blocks(log, j, log[i].tab, Epoch(log[..i], log[i].tab), log[i].url)
  }

  // Event i is the first block of its URL on its page and has a type that goes
  // to the given counter of the given profile.
  ghost predicate CountsFor(start: World, log: seq<Event>, i: nat, profile: Profile, counter: string)
    requires i < |log|
  {
    && log[i].Blocked? && log[i].tab in start.profile && start.profile[log[i].tab] == profile
    && CounterOf(log[i].blockType) == Some(counter)
    && IsFirst(log, i)
  }

  ghost function Triple(log: seq<Event>, i: nat): (Tab, nat, string)
    requires i < |log| && log[i].Blocked?
  {
    (log[i].tab, Epoch(log[..i], log[i].tab), log[i].url)
  }

  // The (tab, page, URL) triples that a counter should have counted.
  ghost function Counted(start: World, log: seq<Event>, profile: Profile, counter: string): set<(Tab, nat, string)> {
    set i | 0 <= i < |log| && CountsFor(start, log, i, profile, counter) :: Triple(log, i)
  }

  // Nothing has been blocked yet.
  ghost predicate Fresh(w: World) {
    w.Valid() && forall t :: t in w.pages ==> w.pages[t].blocked == {}
  }

  lemma PrefixAt(log: seq<Event>, n: nat, a: nat)
    requires a <= n <= |log|
    ensures log[..n][..a] == log[..a]
  {}

  lemma BlocksInPrefix(log: seq<Event>, n: nat, j: nat, tab: Tab, epoch: nat, url: string)
    requires j < n <= |log|
    ensures Blocks(log[..n], j, tab, epoch, url) <==> Blocks(log, j, tab, epoch, url)
  {
    PrefixAt(log, n, j);
  }

  lemma {:induction false} EpochGrows(log: seq<Event>, j: nat, tab: Tab)
    requires j <= |log|
    ensures Epoch(log[..j], tab) <= Epoch(log, tab)
  {
    if j == |log| {
      assert log[..j] == log;
    } else {
      var n := |log| - 1;
      PrefixAt(log, n, j);
      EpochGrows(log[..n], j, tab);
    }
  }

  // The URL was blocked on the page of the tab that is shown.
  ghost predicate Seen(log: seq<Event>, tab: Tab, url: string) {
    exists j :: 0 <= j < |log| && Blocks(log, j, tab, Epoch(log, tab), url)
  }

  predicate BlocksNow(e: Event, tab: Tab, url: string) {
    e.Blocked? && e.tab == tab && e.url == url
  }

  lemma SeenAfter(log: seq<Event>, tab: Tab, url: string)
    requires log != []
    ensures var n := |log| - 1;
      Seen(log, tab, url) <==> !ResetsTab(log[n], tab) && (Seen(log[..n], tab, url) || BlocksNow(log[n], tab, url))
  {
    var n := |log| - 1;
    PrefixAt(log, n, n);
    if ResetsTab(log[n], tab) {
      forall j | 0 <= j < |log| ensures !Blocks(log, j, tab, Epoch(log, tab), url) {
        PrefixAt(log, n, j);
        EpochGrows(log[..n], j, tab);
      }
    } else {
      var epoch := Epoch(log, tab);
      assert epoch == Epoch(log[..n], tab);
      if Seen(log, tab, url) {
        var j :| 0 <= j < |log| && Blocks(log, j, tab, epoch, url);
        if j < n {
          BlocksInPrefix(log, n, j, tab, epoch, url);
        }
      }
      if Seen(log[..n], tab, url) {
        var j :| 0 <= j < n && Blocks(log[..n], j, tab, epoch, url);
        BlocksInPrefix(log, n, j, tab, epoch, url);
      }
      assert BlocksNow(log[n], tab, url) ==> Blocks(log, n, tab, epoch, url);
    }
  }

  lemma BlockedAfter(w: World, e: Event, tab: Tab, url: string)
    requires w.Valid() && tab in w.pages
    ensures url in Apply(w, e).pages[tab].blocked <==>
      !ResetsTab(e, tab) && (url in w.pages[tab].blocked || BlocksNow(e, tab, url))
  {}

  // Both resets, by the kind of navigation.
  lemma BlockedAfterNavigation(w: World, tab: Tab, mainFrame: bool, sameDocument: bool, reload: Reload)
    requires w.Valid() && tab in w.pages
    ensures Apply(w, Navigation(tab, mainFrame, sameDocument, reload)).pages[tab].blocked ==
      if mainFrame && !sameDocument && (reload == NoReload || reload == NormalReload) then {}
      else w.pages[tab].blocked
  {}

  // The set of blocked URLs is what was blocked on the page that is shown.
  lemma {:induction false} BlockedSetIsPage(start: World, log: seq<Event>, tab: Tab, url: string)
    requires Fresh(start) && tab in start.pages
    ensures url in Run(start, log).pages[tab].blocked <==> Seen(log, tab, url)
  {
    if log != [] {
      var n := |log| - 1;
      BlockedSetIsPage(start, log[..n], tab, url);
      SeenAfter(log, tab, url);
      BlockedAfter(Run(start, log[..n]), log[n], tab, url);
    }
  }

  // ------------------------------------------------------- conservation

  lemma CountsInPrefix(start: World, log: seq<Event>, n: nat, i: nat, profile: Profile, counter: string)
    requires i < n <= |log|
    ensures CountsFor(start, log[..n], i, profile, counter) <==> CountsFor(start, log, i, profile, counter)
    ensures log[i].Blocked? ==> Triple(log[..n], i) == Triple(log, i)
  {
    PrefixAt(log, n, i);
    if log[i].Blocked? {
      var epoch := Epoch(log[..i], log[i].tab);
      forall j | 0 <= j < i
        ensures Blocks(log[..n], j, log[i].tab, epoch, log[i].url) <==> Blocks(log, j, log[i].tab, epoch, log[i].url)
      {
        BlocksInPrefix(log, n, j, log[i].tab, epoch, log[i].url);
      }
    }
  }

  // The first block of a URL on a page has a triple of its own.
  lemma FirstIsNew(log: seq<Event>, i: nat, j: nat)
    requires i < j < |log| && log[i].Blocked? && log[j].Blocked? && IsFirst(log, j)
    ensures Triple(log, i) != Triple(log, j)
  {
    assert !Blocks(log, i, log[j].tab, Epoch(log[..j], log[j].tab), log[j].url);
  }

  lemma InCounted(start: World, log: seq<Event>, profile: Profile, counter: string, x: (Tab, nat, string))
    requires log != []
    ensures var n := |log| - 1;
      x in Counted(start, log, profile, counter) <==>
        || x in Counted(start, log[..n], profile, counter)
        || (CountsFor(start, log, n, profile, counter) && x == Triple(log, n))
  {
    var n := |log| - 1;
    if x in Counted(start, log, profile, counter) {
      var i :| 0 <= i < |log| && CountsFor(start, log, i, profile, counter) && x == Triple(log, i);
      if i < n {
        CountsInPrefix(start, log, n, i, profile, counter);
      }
    }
    if x in Counted(start, log[..n], profile, counter) {
      var i :| 0 <= i < n && CountsFor(start, log[..n], i, profile, counter) && x == Triple(log[..n], i);
      CountsInPrefix(start, log, n, i, profile, counter);
    }
  }

  lemma LastIsNew(start: World, log: seq<Event>, profile: Profile, counter: string)
    requires log != [] && CountsFor(start, log, |log| - 1, profile, counter)
    ensures Triple(log, |log| - 1) !in Counted(start, log[..|log| - 1], profile, counter)
  {
    var n := |log| - 1;
    if Triple(log, n) in Counted(start, log[..n], profile, counter) {
      var i :| 0 <= i < n && CountsFor(start, log[..n], i, profile, counter) && Triple(log, n) == Triple(log[..n], i);
      CountsInPrefix(start, log, n, i, profile, counter);
      FirstIsNew(log, i, n);
    }
  }

  // One more event adds its own triple, which is new, or nothing.
  lemma CountedAfter(start: World, log: seq<Event>, profile: Profile, counter: string)
    requires log != []
    ensures var n := |log| - 1;
      |Counted(start, log, profile, counter)| ==
        |Counted(start, log[..n], profile, counter)| + if CountsFor(start, log, n, profile, counter) then 1 else 0
  {
    var n := |log| - 1;
    var before, after := Counted(start, log[..n], profile, counter), Counted(start, log, profile, counter);
    var counts := CountsFor(start, log, n, profile, counter);
    forall x ensures x in after <==> x in before || (counts && x == Triple(log, n)) {
      InCounted(start, log, profile, counter, x);
    }
    if counts {
      LastIsNew(start, log, profile, counter);
      var triple := Triple(log, n);
      hide Counted, Triple, CountsFor;
      assert after == before + {triple};
    } else {
      hide Counted, Triple, CountsFor;
      assert after == before;
    }
  }

  lemma FirstIffUnseen(log: seq<Event>, i: nat)
    requires i < |log| && log[i].Blocked?
    ensures IsFirst(log, i) <==> !Seen(log[..i], log[i].tab, log[i].url)
  {
    var tab, epoch, url := log[i].tab, Epoch(log[..i], log[i].tab), log[i].url;
    forall j | 0 <= j < i ensures Blocks(log[..i], j, tab, epoch, url) <==> Blocks(log, j, tab, epoch, url) {
      BlocksInPrefix(log, i, j, tab, epoch, url);
    }
  }

  // The code's own test of whether an event increments a counter.
  predicate Increments(w: World, e: Event, profile: Profile, counter: string)
    requires w.Valid()
  {
    && e.Blocked? && e.tab in w.pages && w.profile[e.tab] == profile
    && CounterOf(e.blockType) == Some(counter) && e.url !in w.pages[e.tab].blocked
  }

  lemma CounterAfter(w: World, e: Event, profile: Profile, counter: string)
    requires w.Valid() && profile in w.prefs
    ensures GetUint64(Apply(w, e).prefs[profile], counter) ==
      Wrapped(GetUint64(w.prefs[profile], counter) + if Increments(w, e, profile, counter) then 1 else 0)
  {}

  // The counters by name: the first block of a URL adds one to the counter of
  // its type and leaves the others, and any other type adds nothing.
  lemma FirstBlockCounts(w: World, tab: Tab, url: string, blockType: string, profile: Profile, counter: string)
    requires w.Valid() && tab in w.pages && url !in w.pages[tab].blocked && profile in w.prefs
    ensures GetUint64(Apply(w, Blocked(tab, url, blockType)).prefs[profile], counter) ==
      Wrapped(GetUint64(w.prefs[profile], counter) +
        if w.profile[tab] == profile && (blockType, counter) in
             {("shieldsAds", "brave.stats.ads_blocked"),
              ("httpUpgradableResources", "brave.stats.https_upgrades"),
              ("javascript", "brave.stats.javascript_blocked"),
              ("fingerprintingV2", "brave.stats.fingerprinting_blocked")}
        then 1 else 0)
  {
    CounterAfter(w, Blocked(tab, url, blockType), profile, counter);
    hide Apply, GetUint64;
  }

  lemma IncrementsIffCounts(start: World, log: seq<Event>, n: nat, profile: Profile, counter: string)
    requires Fresh(start) && n < |log|
    ensures Increments(Run(start, log[..n]), log[n], profile, counter) <==> CountsFor(start, log, n, profile, counter)
  {
    if log[n].Blocked? && log[n].tab in start.pages {
      BlockedSetIsPage(start, log[..n], log[n].tab, log[n].url);
      FirstIffUnseen(log, n);
    }
  }

  ghost function CounterOfRun(start: World, log: seq<Event>, profile: Profile, counter: string): UInt64
    requires start.Valid() && profile in start.prefs
  {
    GetUint64(Run(start, log).prefs[profile], counter)
  }

  lemma CounterStep(start: World, log: seq<Event>, profile: Profile, counter: string)
    requires Fresh(start) && profile in start.prefs && log != []
    ensures var n := |log| - 1;
      CounterOfRun(start, log, profile, counter) ==
        Wrapped(CounterOfRun(start, log[..n], profile, counter) +
                if CountsFor(start, log, n, profile, counter) then 1 else 0)
  {
    var n := |log| - 1;
    CounterAfter(Run(start, log[..n]), log[n], profile, counter);
    IncrementsIffCounts(start, log, n, profile, counter);
    hide CountsFor, Increments, GetUint64, Apply;
  }

  lemma Wraps(a: nat, b: nat, c: nat, x: nat, y: nat, z: nat)
    requires x == Wrapped(a + b) && y == Wrapped(x + c) && z == b + c
    ensures y == Wrapped(a + z)
  {}

  lemma NothingCounted(start: World, profile: Profile, counter: string, x: UInt64)
    ensures Wrapped(x + |Counted(start, [], profile, counter)|) == x
  {
    assert Counted(start, [], profile, counter) == {};
  }

  // Over any run of any number of tabs, a counter of a profile grows by the
  // number of (tab, page, URL) triples whose first block event on that page had
  // a type that goes to the counter.
  lemma {:induction false} Conservation(start: World, log: seq<Event>, profile: Profile, counter: string)
    requires Fresh(start) && profile in start.prefs
    ensures CounterOfRun(start, log, profile, counter) ==
      Wrapped(CounterOfRun(start, [], profile, counter) + |Counted(start, log, profile, counter)|)
  {
    hide CounterOfRun, CountsFor, Counted, Wrapped;
    if log == [] {
      NothingCounted(start, profile, counter, CounterOfRun(start, log, profile, counter));
    } else {
      var n := |log| - 1;
      Conservation(start, log[..n], profile, counter);
      CountedAfter(start, log, profile, counter);
      CounterStep(start, log, profile, counter);
      var counts: nat := if CountsFor(start, log, n, profile, counter) then 1 else 0;
      Wraps(CounterOfRun(start, [], profile, counter), |Counted(start, log[..n], profile, counter)|, counts,
            CounterOfRun(start, log[..n], profile, counter), CounterOfRun(start, log, profile, counter),
            |Counted(start, log, profile, counter)|);
    }
  }

  // ------------------------------------------------ scripts allowed once

  // The list that a run leaves: what was allowed last, or nothing if a new load
  // came later.
  ghost function LastAllowed(start: Origins, log: seq<Event>, tab: Tab): Origins {
    if log == [] then start
    else
      var n := |log| - 1;
      if log[n].AllowScriptsOnce? && log[n].tab == tab then log[n].origins
      else if log[n] == Navigation(tab, true, false, NoReload) then []
      else LastAllowed(start, log[..n], tab)
  }

  lemma {:induction false} AllowedIsLast(start: World, log: seq<Event>, tab: Tab)
    requires start.Valid() && tab in start.pages
    ensures Run(start, log).pages[tab].allowed == LastAllowed(start.pages[tab].allowed, log, tab)
  {
    if log != [] {
      var n := |log| - 1;
      AllowedIsLast(start, log[..n], tab);
      AllowedAfter(Run(start, log[..n]), log[n], tab);
    }
  }

  predicate ChangesAllowed(e: Event, tab: Tab) {
    (e.AllowScriptsOnce? && e.tab == tab) || e == Navigation(tab, true, false, NoReload)
  }

  // Reloads of any kind, subframe navigations and same-document navigations
  // keep what was allowed.
  lemma {:induction false} AllowedUntilNewLoad(start: World, log: seq<Event>, tab: Tab)
    requires start.Valid() && tab in start.pages
    requires forall k :: 0 <= k < |log| ==> !ChangesAllowed(log[k], tab)
    ensures Run(start, log).pages[tab].allowed == start.pages[tab].allowed
  {
    if log != [] {
      var n := |log| - 1;
      assert forall k :: 0 <= k < n ==> log[..n][k] == log[k];
      AllowedUntilNewLoad(start, log[..n], tab);
      AllowedAfter(Run(start, log[..n]), log[n], tab);
    }
  }

  lemma AllowedAfter(w: World, e: Event, tab: Tab)
    requires w.Valid() && tab in w.pages
    ensures !ChangesAllowed(e, tab) ==> Apply(w, e).pages[tab].allowed == w.pages[tab].allowed
    ensures e == Navigation(tab, true, false, NoReload) ==> Apply(w, e).pages[tab].allowed == []
    ensures e.AllowScriptsOnce? && e.tab == tab ==> Apply(w, e).pages[tab].allowed == e.origins
  {}

  // The frames of the tab are those created and not deleted since.
  ghost predicate Present(start: set<Frame>, log: seq<Event>, tab: Tab, f: Frame) {
    if log == [] then f in start
    else
      var n := |log| - 1;
      || log[n] == RenderFrameCreated(tab, f)
      || (log[n] != RenderFrameDeleted(tab, f) && Present(start, log[..n], tab, f))
  }

  lemma {:induction false} FramesArePresent(start: World, log: seq<Event>, tab: Tab, f: Frame)
    requires start.Valid() && tab in start.pages
    ensures f in Run(start, log).pages[tab].frames <==> Present(start.pages[tab].frames, log, tab, f)
  {
    if log != [] {
      var n := |log| - 1;
      FramesArePresent(start, log[..n], tab, f);
      FramesAfter(Run(start, log[..n]), log[n], tab, f);
    }
  }

  lemma FramesAfter(w: World, e: Event, tab: Tab, f: Frame)
    requires w.Valid() && tab in w.pages
    ensures f in Apply(w, e).pages[tab].frames <==>
      e == RenderFrameCreated(tab, f) || (e != RenderFrameDeleted(tab, f) && f in w.pages[tab].frames)
  {}

  // Every frame goes by the list the observer holds.
  ghost predicate AllTold(p: Page) {
    forall f :: f in p.frames ==> Told(p, f) == p.allowed
  }

  // What the frames are sent: on a navigation, of any kind, each frame one
  // message with the list that is then in force.
  lemma NavigationSends(p: Page, mainFrame: bool, sameDocument: bool, reload: Reload, f: Frame)
    requires WellFormed(p) && f in p.frames
    ensures var p' := Navigated(p, mainFrame, sameDocument, reload);
      f in p'.remotes && p'.remotes[f] == (if f in p.remotes then p.remotes[f] else []) + [p'.allowed]
  {}

  // When a frame is created, one message if there is something to allow, and
  // none, but a bound remote, if there is not.
  lemma CreatedFrameIsSent(p: Page, f: Frame)
    requires WellFormed(p)
    ensures var p' := FrameCreated(p, f);
      && p'.allowed == p.allowed && f in p'.remotes
      && p'.remotes[f] ==
         (if f in p.remotes then p.remotes[f] else []) + (if p.allowed == [] then [] else [p.allowed])
      && p'.remotes - {f} == p.remotes - {f}
  {}

  lemma NavigationTellsAll(p: Page, mainFrame: bool, sameDocument: bool, reload: Reload)
    ensures AllTold(Navigated(p, mainFrame, sameDocument, reload))
  {}

  lemma CreatedFrameIsTold(p: Page, f: Frame)
    requires WellFormed(p) && AllTold(p)
    ensures AllTold(FrameCreated(p, f))
  {}

  lemma DeletedFrameIsGone(p: Page, f: Frame)
    requires AllTold(p)
    ensures AllTold(FrameDeleted(p, f))
  {}

  // Frames that come and go, and all events but AllowScriptsOnce, keep the
  // frames and the observer in agreement.
  lemma ToldAfter(w: World, e: Event, tab: Tab)
    requires w.Valid() && tab in w.pages && AllTold(w.pages[tab])
    requires !(e.AllowScriptsOnce? && e.tab == tab)
    ensures AllTold(Apply(w, e).pages[tab])
  {
    if e.tab == tab {
      var p := w.pages[tab];
      match e
      case Navigation(_, main, same, reload) => NavigationTellsAll(p, main, same, reload);
      case RenderFrameCreated(_, f) => CreatedFrameIsTold(p, f);
      case RenderFrameDeleted(_, f) => DeletedFrameIsGone(p, f);
      case _ =>
    }
  }

  // From a navigation on, until scripts are allowed again, every frame of the
  // tab has been sent the current list, whenever it was created.
  lemma {:induction false} FramesAreTold(start: World, log: seq<Event>, tab: Tab, n: nat)
    requires start.Valid() && tab in start.pages
    requires n < |log| && log[n].Navigation? && log[n].tab == tab
    requires forall k :: n < k < |log| ==> !(log[k].AllowScriptsOnce? && log[k].tab == tab)
    ensures AllTold(Run(start, log).pages[tab])
  {
    var last := |log| - 1;
    var w := Run(start, log[..last]);
    if n == last {
      NavigationTellsAll(w.pages[tab], log[n].mainFrame, log[n].sameDocument, log[n].reload);
    } else {
      assert forall k :: 0 <= k < last ==> log[..last][k] == log[k];
      FramesAreTold(start, log[..last], tab, n);
      ToldAfter(w, log[last], tab);
    }
  }

  // After a new load nothing is allowed and every frame has been told so, until
  // scripts are allowed again.
  lemma {:induction false} NewLoadForgets(start: World, log: seq<Event>, tab: Tab, n: nat)
    requires start.Valid() && tab in start.pages
    requires n < |log| && log[n] == Navigation(tab, true, false, NoReload)
    requires forall k :: n < k < |log| ==> !(log[k].AllowScriptsOnce? && log[k].tab == tab)
    ensures var p := Run(start, log).pages[tab];
      p.allowed == [] && forall f :: f in p.frames ==> Told(p, f) == []
  {
    FramesAreTold(start, log, tab, n);
    var last := |log| - 1;
    AllowedAfter(Run(start, log[..last]), log[last], tab);
    if n < last {
      assert forall k :: 0 <= k < last ==> log[..last][k] == log[k];
      NewLoadForgets(start, log[..last], tab, n);
    }
  }

  // ------------------------------------------------------------ the class

  class PrefService {
    var values: Prefs

    constructor (values: Prefs)
      ensures this.values == values
    {
      this.values := values;
    }

    method SetUint64(key: string, value: UInt64)
      modifies this
      ensures values == old(values)[key := value]
    {
      values := values[key := value];
    }
  }

  class BraveShieldsWebContentsObserver {
    const prefs: PrefService   // of the original profile, shared between tabs
    var blockedUrlPaths: set<string>
    var allowedScriptOrigins: Origins
    var frames: set<Frame>
    var braveShieldsRemotes: map<Frame, seq<Origins>>

    ghost function State(): Page
      reads this
    {
      Page(blockedUrlPaths, allowedScriptOrigins, frames, braveShieldsRemotes)
    }

    constructor (prefs: PrefService)
      ensures this.prefs == prefs && State() == Page({}, [], {}, map[])
    {
      this.prefs := prefs;
      blockedUrlPaths, allowedScriptOrigins, frames, braveShieldsRemotes := {}, [], {}, map[];
    }

    static method DispatchBlockedEvent(
      observer: BraveShieldsWebContentsObserver?, subresource: string, blockType: string)
      modifies if observer == null then {} else {observer, observer.prefs}
      ensures observer != null ==>
        && observer.State() == old(observer.State()).(blocked := old(observer.blockedUrlPaths) + {subresource})
        && observer.prefs.values ==
           Dispatched(old(observer.State()), old(observer.prefs.values), subresource, blockType)
    {
      if observer != null && subresource !in observer.blockedUrlPaths {
        observer.blockedUrlPaths := observer.blockedUrlPaths + {subresource};
        if blockType == "shieldsAds" {
          Increment(observer.prefs, "brave.stats.ads_blocked");
        } else if blockType == "httpUpgradableResources" {
          Increment(observer.prefs, "brave.stats.https_upgrades");
        } else if blockType == "javascript" {
          Increment(observer.prefs, "brave.stats.javascript_blocked");
        } else if blockType == "fingerprintingV2" {
          Increment(observer.prefs, "brave.stats.fingerprinting_blocked");
        }
      }
    }

    static method Increment(prefs: PrefService, key: string)
      modifies prefs
      ensures prefs.values == Incremented(old(prefs.values), key)
    {
      prefs.SetUint64(key, Wrapped(GetUint64(prefs.values, key) + 1));
    }

    // Binds a remote the first time a frame is talked to.
    method GetBraveShieldsRemote(rfh: Frame)
      modifies this`braveShieldsRemotes
      ensures State() == Bind(old(State()), rfh)
    {
      if rfh !in braveShieldsRemotes {
        braveShieldsRemotes := braveShieldsRemotes[rfh := []];
      }
    }

    method SetAllowScriptsFromOriginsOnce(rfh: Frame)
      modifies this`braveShieldsRemotes
      ensures State() == Tell(old(State()), rfh)
    {
      GetBraveShieldsRemote(rfh);
      braveShieldsRemotes := braveShieldsRemotes[rfh := braveShieldsRemotes[rfh] + [allowedScriptOrigins]];
    }

    method ReadyToCommitNavigation(mainFrame: bool, sameDocument: bool, reloadType: Reload)
      modifies this
      ensures State() == Navigated(old(State()), mainFrame, sameDocument, reloadType)
    {
      if mainFrame && !sameDocument {
        if reloadType == NoReload {
          allowedScriptOrigins := [];
          blockedUrlPaths := {};
        } else if reloadType == NormalReload {
          blockedUrlPaths := {};
        }
      }
      TellEveryFrame();
    }

    // ForEachRenderFrameHost
    method TellEveryFrame()
      modifies this`braveShieldsRemotes
      ensures State() == TellAll(old(State()))
    {
      ghost var before := State();
      var unvisited := frames;
      TellNobodyAndAll(before);
      hide Tell, TellSome, TellAll;
      while unvisited != {}
        invariant unvisited <= frames == before.frames
        invariant State() == TellSome(before, before.frames - unvisited)
      {
        var rfh :| rfh in unvisited;
        TellNext(before, unvisited, rfh);
        SetAllowScriptsFromOriginsOnce(rfh);
        unvisited := unvisited - {rfh};
      }
    }

    method AllowScriptsOnce(origins: Origins)
      modifies this
      ensures State() == old(State()).(allowed := origins)
    {
      allowedScriptOrigins := origins;
    }

    method RenderFrameCreated(rfh: Frame)
      modifies this
      ensures State() == FrameCreated(old(State()), rfh)
    {
      frames := frames + {rfh};
      if |allowedScriptOrigins| > 0 {
        SetAllowScriptsFromOriginsOnce(rfh);
      }
      GetBraveShieldsRemote(rfh);   // for SetReduceLanguageEnabled
    }

    method RenderFrameDeleted(rfh: Frame)
      modifies this
      ensures State() == FrameDeleted(old(State()), rfh)
    {
      frames := frames - {rfh};
      braveShieldsRemotes := braveShieldsRemotes - {rfh};
    }

    method RenderFrameHostChanged(oldHost: Option<Frame>, newHost: Option<Frame>)
      modifies this
      ensures var deleted := if oldHost.Some? then FrameDeleted(old(State()), oldHost.value) else old(State());
        State() == if newHost.Some? then FrameCreated(deleted, newHost.value) else deleted
    {
      if oldHost.Some? {
        RenderFrameDeleted(oldHost.value);
      }
      if newHost.Some? {
        RenderFrameCreated(newHost.value);
      }
    }
  }

  // All tabs of all profiles; tabs of one profile share its counters.
  class Browser {
    const observers: map<Tab, BraveShieldsWebContentsObserver>
    const profile: map<Tab, Profile>
    const prefs: map<Profile, PrefService>

    ghost function Objects(): set<object> {
      (set t | t in observers :: observers[t]) + (set p | p in prefs :: prefs[p])
    }

    ghost predicate Valid()
      reads Objects()
    {
      && observers.Keys == profile.Keys
      && (forall t :: t in profile ==> profile[t] in prefs)
      && (forall t :: t in observers ==> observers[t].prefs == prefs[profile[t]] && WellFormed(observers[t].State()))
      && (forall t, t' :: t in observers && t' in observers && t != t' ==> observers[t] != observers[t'])
      && (forall p, p' :: p in prefs && p' in prefs && p != p' ==> prefs[p] != prefs[p'])
    }

    ghost function State(): World
      reads Objects()
    {
      World(map t | t in observers :: observers[t].State(), profile, map p | p in prefs :: prefs[p].values)
    }

    constructor (
      observers: map<Tab, BraveShieldsWebContentsObserver>, profile: map<Tab, Profile>,
      prefs: map<Profile, PrefService>)
      ensures this.observers == observers && this.profile == profile && this.prefs == prefs
    {
      this.observers, this.profile, this.prefs := observers, profile, prefs;
    }

    // What an event that goes to one tab, and to its profile, leaves.
    twostate lemma OneTabChanged(tab: Tab)
      requires old(Valid()) && tab in observers
      requires forall t :: t in observers && t != tab ==> observers[t].State() == old(observers[t].State())
      requires forall p :: p in prefs && p != profile[tab] ==> prefs[p].values == old(prefs[p].values)
      ensures State().pages == old(State()).pages[tab := observers[tab].State()]
      ensures State().prefs == old(State()).prefs[profile[tab] := prefs[profile[tab]].values]
      ensures State().profile == old(State()).profile
    {
      hide WellFormed;
      assert State().pages.Keys == old(State()).pages.Keys == observers.Keys;
      assert State().prefs.Keys == old(State()).prefs.Keys == prefs.Keys;
    }

    twostate lemma Delivered(e: Event)
      requires old(Valid()) && e.tab in observers
      requires forall t :: t in observers && t != e.tab ==> observers[t].State() == old(observers[t].State())
      requires forall p :: p in prefs && p != profile[e.tab] ==> prefs[p].values == old(prefs[p].values)
      requires observers[e.tab].State() == PageAfter(old(observers[e.tab].State()), e)
      requires prefs[profile[e.tab]].values ==
        PrefsAfter(old(observers[e.tab].State()), old(prefs[profile[e.tab]].values), e)
      ensures Valid() && State() == Apply(old(State()), e)
    {
      hide PageAfter, PrefsAfter, WellFormed;
      OneTabChanged(e.tab);
      assert old(State()).Valid();
      var w := Apply(old(State()), e);
      assert State() == w;
      forall t | t in observers ensures WellFormed(observers[t].State()) {
        assert State().pages[t] == observers[t].State();
      }
    }

    lemma StateIsValid()
      requires Valid()
      ensures State().Valid() && State().pages.Keys == observers.Keys
    {}

    method Handle(e: Event)
      requires Valid()
      modifies Objects()
      ensures Valid() && State() == Apply(old(State()), e)
    {
      StateIsValid();
      if e.tab !in observers {
        return;
      }
      hide PageAfter, PrefsAfter, WellFormed, Apply;
      Deliver(observers[e.tab], e);
      Delivered(e);
    }

    static method Deliver(observer: BraveShieldsWebContentsObserver, e: Event)
      modifies observer, observer.prefs
      ensures observer.State() == PageAfter(old(observer.State()), e)
      ensures observer.prefs.values == PrefsAfter(old(observer.State()), old(observer.prefs.values), e)
    {
      hide Dispatched, Navigated, FrameCreated, FrameDeleted;
      match e {
        case Blocked(_, url, blockType) =>
          BraveShieldsWebContentsObserver.DispatchBlockedEvent(observer, url, blockType);
        case Navigation(_, mainFrame, sameDocument, reload) =>
          observer.ReadyToCommitNavigation(mainFrame, sameDocument, reload);
        case AllowScriptsOnce(_, origins) =>
          observer.AllowScriptsOnce(origins);
        case RenderFrameCreated(_, frame) =>
          observer.RenderFrameCreated(frame);
        case RenderFrameDeleted(_, frame) =>
          observer.RenderFrameDeleted(frame);
      }
    }

    // A counter as it stands in the preferences of a profile.
    ghost function Counter(p: Profile, counter: string): UInt64
      requires p in prefs
      reads prefs[p]
    {
      GetUint64(prefs[p].values, counter)
    }

    twostate lemma CountersConserved(log: seq<Event>)
      requires old(Valid()) && old(Fresh(State())) && State() == Run(old(State()), log)
      ensures forall p, counter :: p in prefs ==>
        Counter(p, counter) == Wrapped(old(Counter(p, counter)) + |Counted(old(State()), log, p, counter)|)
    {
      hide Wrapped, Counted, GetUint64, Valid;
      forall p, counter | p in prefs
        ensures Counter(p, counter) == Wrapped(old(Counter(p, counter)) + |Counted(old(State()), log, p, counter)|)
      {
        assert State().prefs[p] == prefs[p].values && old(State()).prefs[p] == old(prefs[p].values);
        Conservation(old(State()), log, p, counter);
      }
    }

    method HandleAll(log: seq<Event>)
      requires Valid()
      modifies Objects()
      ensures Valid() && State() == Run(old(State()), log)
      ensures old(Fresh(State())) ==> forall p, counter :: p in prefs ==>
        Counter(p, counter) == Wrapped(old(Counter(p, counter)) + |Counted(old(State()), log, p, counter)|)
    {
      hide Counter, Wrapped, Counted, Fresh, Apply;
      StateIsValid();
      for i := 0 to |log|
        invariant Valid() && State() == Run(old(State()), log[..i])
      {
        Handle(log[i]);
        assert log[..i + 1][..i] == log[..i];
      }
      assert log[..|log|] == log;
      if old(Fresh(State())) {
        CountersConserved(log);
      }
    }
  }
}

// Feed discovery on a tab, from browser/brave_news/brave_news_tab_helper.cc.
//
// The helper reacts to events of the tab, and to replies that arrive whenever
// the network likes. A callback bound to a weak pointer is modelled by the
// generation of weak pointers it was made in.
module FeedDiscovery {
  import opened Common

  type Url = string

  datatype Feed = Feed(url: Url, title: string)

  // The default publisher's feed of a site, if it has one.
  type Publishers = Url -> Option<Feed>

  // A reply that is being waited for: the links of a page, or the feeds found
  // behind one link. The ticket is the number of the event that asked for it.
  datatype Callback = Callback(generation: nat, site: Url, link: Option<Url>, ticket: nat)

  datatype Tab = Tab(
    url: Url,                   // last committed URL
    publishers: Publishers,
    generation: nat,            // of weak pointers
    feeds: seq<Feed>,           // rss_page_feeds_
    inFlight: seq<Callback>,
    step: nat,                  // events so far; only labels callbacks
    broadcasts: seq<seq<Feed>>) // what observers were sent, oldest first

  datatype Event =
    | SameDocumentNavigation(url: Url)
    | PrimaryPageChanged(url: Url)
    | DOMContentLoaded(primaryMainFrame: bool)
    | ReceivedRssUrls(k: nat, urls: seq<Url>)      // the reply to inFlight[k]
    | FoundFeeds(k: nat, found: seq<Feed>)         // the reply to inFlight[k]
    | PublishersUpdated(publishers: Publishers)

  // ------------------------------------------------------ available feeds

  function Urls(feeds: seq<Feed>): set<Url> {
    set f | f in feeds :: f.url
  }

  // Feeds whose URL did not occur before.
  function FirstOccurrences(feeds: seq<Feed>): seq<Feed> {
    if feeds == [] then []
    else
      var before, last := feeds[..|feeds| - 1], feeds[|feeds| - 1];
      FirstOccurrences(before) + if last.url in Urls(before) then [] else [last]
  }

  function DefaultFeed(t: Tab): seq<Feed> {
    match t.publishers(t.url)
    case None => []
    case Some(feed) => [feed]
  }

  function AvailableFeeds(t: Tab): seq<Feed> {
    FirstOccurrences(DefaultFeed(t) + t.feeds)
  }

  // r is the subsequence of feeds at the strictly rising positions `at`, and
  // each of its feeds is the first one for its URL.
  ghost predicate FirstAt(feeds: seq<Feed>, r: seq<Feed>, at: seq<nat>) {
    && |at| == |r|
    && (forall i :: 0 <= i < |r| ==> at[i] < |feeds| && r[i] == feeds[at[i]])
    && (forall i, j :: 0 <= i < j < |r| ==> at[i] < at[j])
    && (forall i, k :: 0 <= i < |r| && 0 <= k < at[i] ==> feeds[k].url != r[i].url)
  }

  ghost predicate NoRepeats(feeds: seq<Feed>) {
    forall i, j :: 0 <= i < j < |feeds| ==> feeds[i].url != feeds[j].url
  }

  ghost predicate LastIsNew(feeds: seq<Feed>)
    requires feeds != []
  {
    forall k :: 0 <= k < |feeds| - 1 ==> feeds[k].url != feeds[|feeds| - 1].url
  }

  lemma FirstAtExtends(feeds: seq<Feed>, r: seq<Feed>, at: seq<nat>)
    requires feeds != [] && FirstAt(feeds[..|feeds| - 1], r, at) && NoRepeats(r)
    ensures FirstAt(feeds, r, at)
    ensures var n := |feeds| - 1;
      LastIsNew(feeds) ==> FirstAt(feeds, r + [feeds[n]], at + [n]) && NoRepeats(r + [feeds[n]])
  {
    var n := |feeds| - 1;
    assert forall k :: 0 <= k < n ==> feeds[..n][k] == feeds[k];
  }

  // FirstOccurrences keeps exactly the first feed for each URL, in order.
  lemma {:induction false} FirstOccurrencesExact(feeds: seq<Feed>) returns (at: seq<nat>)
    ensures FirstAt(feeds, FirstOccurrences(feeds), at)
    ensures NoRepeats(FirstOccurrences(feeds))
    ensures Urls(FirstOccurrences(feeds)) == Urls(feeds)
  {
    if feeds == [] {
      at := [];
    } else {
      hide FirstOccurrences, Urls, FirstAt, NoRepeats, LastIsNew;
      var n := |feeds| - 1;
      at := FirstOccurrencesExact(feeds[..n]);
      var r := FirstOccurrences(feeds[..n]);
      UrlsOfLast(feeds);
      FirstAtExtends(feeds, r, at);
      UrlsOfAppended(r, feeds[n]);
      FirstOccurrencesStep(feeds);
      assert r + [] == r;
      if LastIsNew(feeds) {
        at := at + [n];
      }
    }
  }

  lemma FirstOccurrencesStep(feeds: seq<Feed>)
    requires feeds != []
    ensures var n := |feeds| - 1;
      FirstOccurrences(feeds) == FirstOccurrences(feeds[..n]) + if LastIsNew(feeds) then [feeds[n]] else []
  {
    UrlsOfLast(feeds);
  }

  lemma FirstOccurrencesOfAppended(feeds: seq<Feed>, f: Feed)
    ensures FirstOccurrences(feeds + [f]) == FirstOccurrences(feeds) + if f.url in Urls(feeds) then [] else [f]
    ensures Urls(feeds + [f]) == Urls(feeds) + {f.url}
  {
    assert (feeds + [f])[..|feeds|] == feeds;
  }

  // The loop over the page's feeds: one step.
  lemma NextFeed(default: seq<Feed>, feeds: seq<Feed>, i: nat)
    requires i < |feeds|
    ensures var before, after := default + feeds[..i], default + feeds[..i + 1];
      && FirstOccurrences(after) == FirstOccurrences(before) + (if feeds[i].url in Urls(before) then [] else [feeds[i]])
      && Urls(after) == Urls(before) + {feeds[i].url}
  {
    FirstOccurrencesOfAppended(default + feeds[..i], feeds[i]);
    assert default + feeds[..i + 1] == default + feeds[..i] + [feeds[i]];
  }

  lemma AtMostOneFeed(feeds: seq<Feed>)
    requires |feeds| <= 1
    ensures FirstOccurrences(feeds) == feeds
    ensures Urls(feeds) == if feeds == [] then {} else {feeds[0].url}
  {}

  lemma UrlsOfAppended(r: seq<Feed>, f: Feed)
    ensures Urls(r + [f]) == Urls(r) + {f.url}
  {}

  lemma UrlsOfLast(feeds: seq<Feed>)
    requires feeds != []
    ensures var n := |feeds| - 1;
      && Urls(feeds) == Urls(feeds[..n]) + {feeds[n].url}
      && (feeds[n].url !in Urls(feeds[..n]) <==> LastIsNew(feeds))
  {
    var n := |feeds| - 1;
    assert feeds == feeds[..n] + [feeds[n]];
    assert forall k :: 0 <= k < n ==> feeds[k] in feeds[..n];
  }

  // --------------------------------------------------------- the machine

  function Broadcast(t: Tab): Tab {
    t.(broadcasts := t.broadcasts + [AvailableFeeds(t)])
  }

  // FindFeeds for every link of the page.
  function Search(t: Tab, site: Url, links: seq<Url>): seq<Callback> {
    seq(|links|, i requires 0 <= i < |links| => Callback(t.generation, site, Some(links[i]), t.step))
  }

  // OnReceivedRssUrls
  function ReceivedLinks(t: Tab, site: Url, links: seq<Url>): Tab {
    if site != t.url then t
    else t.(inFlight := t.inFlight + Search(t, site, links))
  }

  // OnFoundFeeds
  function Found(t: Tab, site: Url, found: seq<Feed>): Tab {
    if site != t.url then t
    else Broadcast(t.(feeds := t.feeds + found))
  }

  function Without<T>(s: seq<T>, k: nat): seq<T>
    requires k < |s|
  {
    s[..k] + s[k + 1..]
  }

  // An event on the tab; a reply nobody waits for does not happen.
  function React(t: Tab, e: Event): Tab {
    match e
    case SameDocumentNavigation(url) => t.(url := url)
    case PrimaryPageChanged(url) =>
      Broadcast(t.(url := url, generation := t.generation + 1, feeds := []))
    case DOMContentLoaded(primary) =>
      if !primary then t
      else t.(inFlight := t.inFlight + [Callback(t.generation, t.url, None, t.step)])
    case ReceivedRssUrls(k, urls) =>
      if k >= |t.inFlight| || t.inFlight[k].link.Some? then t
      else
        var t' := t.(inFlight := Without(t.inFlight, k));
        if t.inFlight[k].generation != t.generation then t' else ReceivedLinks(t', t.inFlight[k].site, urls)
    case FoundFeeds(k, found) =>
      if k >= |t.inFlight| || t.inFlight[k].link.None? then t
      else
        var t' := t.(inFlight := Without(t.inFlight, k));
        if t.inFlight[k].generation != t.generation then t' else Found(t', t.inFlight[k].site, found)
    case PublishersUpdated(publishers) => Broadcast(t.(publishers := publishers))
  }

  function Apply(t: Tab, e: Event): Tab {
    React(t, e).(step := t.step + 1)
  }

  function Start(url: Url, publishers: Publishers): Tab {
    Tab(url, publishers, 0, [], [], 0, [])
  }

  function Run(start: Tab, log: seq<Event>): Tab {
    if log == [] then start
    else Apply(Run(start, log[..|log| - 1]), log[|log| - 1])
  }

  // ------------------------------------------- where the feeds come from

  ghost predicate Fresh(t: Tab) {
    t.generation == 0 && t.feeds == [] && t.inFlight == [] && t.step == 0 && t.broadcasts == []
  }

  // No page change at event a or later.
  ghost predicate SamePage(log: seq<Event>, a: nat) {
    forall k :: a <= k < |log| ==> !log[k].PrimaryPageChanged?
  }

  // Event a asked for callback cb, on the URL the callback names.
  ghost predicate AskedAt(start: Tab, log: seq<Event>, cb: Callback, a: nat) {
    && a < |log|
    && Run(start, log[..a]).url == cb.site
    && if cb.link.None? then log[a] == DOMContentLoaded(true)
       else log[a].ReceivedRssUrls? && cb.link.value in log[a].urls && Delivered(start, log, a)
  }

  // Event b is a reply to a callback that was asked for on the page that is
  // still shown, with the URL that is committed now.
  ghost predicate Delivered(start: Tab, log: seq<Event>, b: nat) {
    && b < |log|
    && (log[b].ReceivedRssUrls? || log[b].FoundFeeds?)
    && var t := Run(start, log[..b]);
    && log[b].k < |t.inFlight|
    && (t.inFlight[log[b].k].link.None? <==> log[b].ReceivedRssUrls?)
    && t.inFlight[log[b].k].site == t.url
    && t.inFlight[log[b].k].ticket < b
    && SamePage(log[..b], t.inFlight[log[b].k].ticket)
  }

  // Weak pointers and tickets agree: a callback is alive exactly if the page
  // it was asked on is still shown.
  ghost predicate CallbackOk(start: Tab, log: seq<Event>, cb: Callback) {
    && cb.generation <= Run(start, log).generation
    && AskedAt(start, log, cb, cb.ticket)
    && (cb.generation == Run(start, log).generation <==> SamePage(log, cb.ticket))
  }

  lemma {:induction false} CallbacksOk(start: Tab, log: seq<Event>)
    requires Fresh(start)
    ensures Run(start, log).step == |log|
    ensures forall cb :: cb in Run(start, log).inFlight ==> CallbackOk(start, log, cb)
  {
    if log != [] {
      var n := |log| - 1;
      var before := log[..n];
      CallbacksOk(start, before);
      var t, t' := Run(start, before), Run(start, log);
      forall cb | cb in t'.inFlight ensures CallbackOk(start, log, cb) {
        if cb in t.inFlight {
          OldCallback(start, log, cb);
        } else {
          NewCallback(start, log, cb);
        }
      }
    }
  }

  lemma PrefixAt(log: seq<Event>, n: nat, a: nat)
    requires a <= n <= |log|
    ensures log[..n][..a] == log[..a]
  {}

  lemma OldCallback(start: Tab, log: seq<Event>, cb: Callback)
    requires log != [] && CallbackOk(start, log[..|log| - 1], cb)
    ensures CallbackOk(start, log, cb)
  {
    var n := |log| - 1;
    PrefixAt(log, n, cb.ticket);
    assert log[cb.ticket] == log[..n][cb.ticket];
    if SamePage(log[..n], cb.ticket) && !log[n].PrimaryPageChanged? {
      assert SamePage(log, cb.ticket);
    }
    if SamePage(log, cb.ticket) {
      assert forall k :: cb.ticket <= k < n ==> log[..n][k] == log[k];
    }
  }

  // What can be in flight after an event that was not before.
  lemma Asked(t: Tab, e: Event, cb: Callback)
    requires cb in Apply(t, e).inFlight && cb !in t.inFlight
    ensures cb.generation == t.generation == Apply(t, e).generation && cb.site == t.url && cb.ticket == t.step
    ensures if cb.link.None? then e == DOMContentLoaded(true)
      else e.ReceivedRssUrls? && cb.link.value in e.urls && e.k < |t.inFlight| &&
           t.inFlight[e.k].link.None? && t.inFlight[e.k].generation == t.generation && t.inFlight[e.k].site == t.url
  {
    if e.FoundFeeds? || e.ReceivedRssUrls? {
      assert e.k < |t.inFlight|;
      assert forall c :: c in Without(t.inFlight, e.k) ==> c in t.inFlight;
    }
  }

  lemma NewCallback(start: Tab, log: seq<Event>, cb: Callback)
    requires log != []
    requires var t := Run(start, log[..|log| - 1]);
      && t.step == |log| - 1
      && cb !in t.inFlight && cb in Run(start, log).inFlight
      && forall c :: c in t.inFlight ==> CallbackOk(start, log[..|log| - 1], c)
    ensures CallbackOk(start, log, cb)
  {
    hide Apply;
    var n := |log| - 1;
    var t := Run(start, log[..n]);
    assert Run(start, log) == Apply(t, log[n]);
    hide Run;
    Asked(t, log[n], cb);
    if log[n].ReceivedRssUrls? {
      assert t.inFlight[log[n].k] in t.inFlight;
      assert CallbackOk(start, log[..n], t.inFlight[log[n].k]);
    }
    assert SamePage(log, n);
  }

  // ------------------------------------------------ no request is lost

  // How often an event asks for a callback: once for the links of a loaded page,
  // and once for every link in a reply that is accepted.
  ghost function Asks(t: Tab, e: Event, cb: Callback): nat {
    if cb.generation != t.generation || cb.site != t.url || cb.ticket != t.step then 0
    else
      match e
      case DOMContentLoaded(primary) => if primary && cb.link == None then 1 else 0
      case ReceivedRssUrls(k, urls) =>
        if cb.link.Some? && AcceptsLinks(t, e) then multiset(urls)[cb.link.value] else 0
      case _ => 0
  }

  ghost predicate AcceptsLinks(t: Tab, e: Event) {
    && e.ReceivedRssUrls? && e.k < |t.inFlight| && t.inFlight[e.k].link.None?
    && t.inFlight[e.k].generation == t.generation && t.inFlight[e.k].site == t.url
  }

  // The event is the reply to this callback.
  ghost predicate Answers(t: Tab, e: Event, cb: Callback) {
    && (e.ReceivedRssUrls? || e.FoundFeeds?) && e.k < |t.inFlight| && t.inFlight[e.k] == cb
    && (cb.link.None? <==> e.ReceivedRssUrls?)
  }

  lemma {:induction false} SearchedFor(t: Tab, site: Url, links: seq<Url>, cb: Callback)
    ensures multiset(Search(t, site, links))[cb] ==
      if cb.link.Some? && cb == Callback(t.generation, site, cb.link, t.step) then multiset(links)[cb.link.value] else 0
  {
    if links != [] {
      var n := |links| - 1;
      SearchedFor(t, site, links[..n], cb);
      assert links == links[..n] + [links[n]];
      assert Search(t, site, links) ==
        Search(t, site, links[..n]) + [Callback(t.generation, site, Some(links[n]), t.step)];
    }
  }

  lemma WithoutOne<T>(s: seq<T>, k: nat)
    requires k < |s|
    ensures multiset(Without(s, k)) == multiset(s) - multiset{s[k]}
  {
    assert s == s[..k] + [s[k]] + s[k + 1..];
  }

  // What stays in flight, and what is put behind it.
  ghost function Kept(t: Tab, e: Event): seq<Callback> {
    if (e.ReceivedRssUrls? || e.FoundFeeds?) && e.k < |t.inFlight| && Answers(t, e, t.inFlight[e.k])
    then Without(t.inFlight, e.k) else t.inFlight
  }

  ghost function Requested(t: Tab, e: Event): seq<Callback> {
    if e == DOMContentLoaded(true) then [Callback(t.generation, t.url, None, t.step)]
    else if AcceptsLinks(t, e) then Search(t, t.url, e.urls)
    else []
  }

  lemma InFlightIs(t: Tab, e: Event)
    ensures Apply(t, e).inFlight == Kept(t, e) + Requested(t, e)
  {
    if AcceptsLinks(t, e) {
      var t' := t.(inFlight := Without(t.inFlight, e.k));
      assert Search(t', t.url, e.urls) == Search(t, t.url, e.urls);
    }
    hide Search, Without, AvailableFeeds;
  }

  lemma KeptCount(t: Tab, e: Event, cb: Callback)
    ensures multiset(Kept(t, e))[cb] + (if Answers(t, e, cb) then 1 else 0) == multiset(t.inFlight)[cb]
  {
    if (e.ReceivedRssUrls? || e.FoundFeeds?) && e.k < |t.inFlight| {
      WithoutOne(t.inFlight, e.k);
    }
    hide Without;
  }

  lemma RequestedCount(t: Tab, e: Event, cb: Callback)
    ensures multiset(Requested(t, e))[cb] == Asks(t, e, cb)
  {
    if e.ReceivedRssUrls? {
      SearchedFor(t, t.url, e.urls, cb);
    }
    hide Search;
  }

  lemma InFlightAfter(t: Tab, e: Event, cb: Callback)
    ensures multiset(Apply(t, e).inFlight)[cb] + (if Answers(t, e, cb) then 1 else 0) ==
      multiset(t.inFlight)[cb] + Asks(t, e, cb)
  {
    InFlightIs(t, e);
    KeptCount(t, e, cb);
    RequestedCount(t, e, cb);
    hide Apply, Kept, Requested, Answers, Asks;
  }

  ghost function TimesAsked(start: Tab, log: seq<Event>, cb: Callback): nat {
    if log == [] then 0
    else
      var n := |log| - 1;
      TimesAsked(start, log[..n], cb) + Asks(Run(start, log[..n]), log[n], cb)
  }

  ghost function TimesAnswered(start: Tab, log: seq<Event>, cb: Callback): nat {
    if log == [] then 0
    else
      var n := |log| - 1;
      TimesAnswered(start, log[..n], cb) + if Answers(Run(start, log[..n]), log[n], cb) then 1 else 0
  }

  // In every run each callback is in flight as often as it was asked for and
  // not yet answered.
  lemma {:induction false} CallbacksConserved(start: Tab, log: seq<Event>, cb: Callback)
    requires Fresh(start)
    ensures multiset(Run(start, log).inFlight)[cb] + TimesAnswered(start, log, cb) == TimesAsked(start, log, cb)
  {
    if log != [] {
      var n := |log| - 1;
      CallbacksConserved(start, log[..n], cb);
      InFlightAfter(Run(start, log[..n]), log[n], cb);
      hide Asks, Answers, Apply;
    }
  }

  // Loading a page sends one request for its links, and a delivered reply one
  // for the feeds behind each of them.
  lemma EveryRequestIsMade(start: Tab, log: seq<Event>, n: nat)
    requires Fresh(start) && n + 1 == |log|
    ensures log[n] == DOMContentLoaded(true) ==>
      exists cb :: cb in Run(start, log).inFlight && cb.link == None && cb.site == Run(start, log).url && cb.ticket == n
    ensures log[n].ReceivedRssUrls? && Delivered(start, log, n) ==>
      forall url :: url in log[n].urls ==>
        exists cb :: cb in Run(start, log).inFlight && cb.link == Some(url) &&
                     cb.site == Run(start, log).url && cb.ticket == n
  {
    var t := Run(start, log[..n]);
    CallbacksOk(start, log[..n]);
    hide Search, Without, AvailableFeeds;
    if log[n] == DOMContentLoaded(true) {
      var cb := Callback(t.generation, t.url, None, n);
      assert cb in Run(start, log).inFlight;
    }
    if log[n].ReceivedRssUrls? && Delivered(start, log, n) {
      assert t.inFlight[log[n].k] in t.inFlight;
      assert AcceptsLinks(t, log[n]);
      forall url | url in log[n].urls
        ensures exists cb :: cb in Run(start, log).inFlight && cb.link == Some(url) &&
                             cb.site == Run(start, log).url && cb.ticket == n
      {
        var cb := Callback(t.generation, t.url, Some(url), n);
        InFlightAfter(t, log[n], cb);
        assert cb in Run(start, log).inFlight;
      }
    }
  }

  // The URL that is committed is the one navigated to last.
  ghost function LastUrl(start: Tab, log: seq<Event>): Url {
    if log == [] then start.url
    else
      var n := |log| - 1;
      match log[n]
      case SameDocumentNavigation(url) => url
      case PrimaryPageChanged(url) => url
      case _ => LastUrl(start, log[..n])
  }

  ghost function LastPublishers(start: Tab, log: seq<Event>): Publishers {
    if log == [] then start.publishers
    else
      var n := |log| - 1;
      match log[n]
      case PublishersUpdated(publishers) => publishers
      case _ => LastPublishers(start, log[..n])
  }

  lemma {:induction false} Environment(start: Tab, log: seq<Event>)
    ensures Run(start, log).url == LastUrl(start, log)
    ensures Run(start, log).publishers == LastPublishers(start, log)
  {
    if log != [] {
      Environment(start, log[..|log| - 1]);
      hide AvailableFeeds, Search, Without;
    }
  }

  // --------------------------------------------------- the page's feeds

  // The page's feeds, said without weak pointers: everything found by replies
  // to requests of the page that is still shown.
  ghost function Expected(start: Tab, log: seq<Event>): seq<Feed> {
    if log == [] then []
    else
      var n := |log| - 1;
      match log[n]
      case PrimaryPageChanged(_) => []
      case FoundFeeds(_, found) => Expected(start, log[..n]) + if Delivered(start, log, n) then found else []
      case _ => Expected(start, log[..n])
  }

  // A reply with feeds that the code's guards let through.
  ghost predicate Accepts(t: Tab, e: Event) {
    && e.FoundFeeds? && e.k < |t.inFlight| && t.inFlight[e.k].link.Some?
    && t.inFlight[e.k].generation == t.generation && t.inFlight[e.k].site == t.url
  }

  // The code's guards accept a reply exactly if it was delivered on its page.
  lemma AcceptedIff(start: Tab, log: seq<Event>, b: nat)
    requires Fresh(start) && b < |log| && log[b].FoundFeeds?
    ensures Delivered(start, log, b) <==> Accepts(Run(start, log[..b]), log[b])
  {
    var t := Run(start, log[..b]);
    CallbacksOk(start, log[..b]);
    if log[b].k < |t.inFlight| {
      assert t.inFlight[log[b].k] in t.inFlight;
    }
  }

  lemma {:induction false} FeedsExactly(start: Tab, log: seq<Event>)
    requires Fresh(start)
    ensures Run(start, log).feeds == Expected(start, log)
  {
    if log != [] {
      var n := |log| - 1;
      FeedsExactly(start, log[..n]);
      if log[n].FoundFeeds? {
        AcceptedIff(start, log, n);
      }
      hide Delivered, AvailableFeeds;
    }
  }

  lemma DeliveredInPrefix(start: Tab, log: seq<Event>, n: nat, b: nat)
    requires b < n <= |log| && Delivered(start, log[..n], b)
    ensures Delivered(start, log, b)
  {
    PrefixAt(log, n, b);
  }

  // Event a loaded the page, b answered it with links, and c answered one of
  // these links with feeds, f among them; all with the same URL committed, and
  // the page has not changed since.
  ghost predicate Chain(start: Tab, log: seq<Event>, f: Feed, a: nat, b: nat, c: nat) {
    && a < b < c < |log| && SamePage(log, a)
    && log[a] == DOMContentLoaded(true)
    && log[b].ReceivedRssUrls? && Delivered(start, log, b)
    && log[c].FoundFeeds? && Delivered(start, log, c) && f in log[c].found
    && Run(start, log[..b]).inFlight[log[b].k].ticket == a
    && Run(start, log[..c]).inFlight[log[c].k].ticket == b
    && Run(start, log[..a]).url == Run(start, log[..b]).url == Run(start, log[..c]).url
  }

  lemma ChainExtends(start: Tab, log: seq<Event>, f: Feed, a: nat, b: nat, c: nat)
    requires log != [] && Chain(start, log[..|log| - 1], f, a, b, c)
    requires !log[|log| - 1].PrimaryPageChanged?
    ensures Chain(start, log, f, a, b, c)
  {
    var n := |log| - 1;
    PrefixAt(log, n, a);
    PrefixAt(log, n, b);
    PrefixAt(log, n, c);
    DeliveredInPrefix(start, log, n, b);
    DeliveredInPrefix(start, log, n, c);
    hide Run, Delivered;
    assert forall k :: 0 <= k < n ==> log[..n][k] == log[k];
  }

  // The request behind a delivered reply.
  lemma Request(start: Tab, log: seq<Event>, b: nat) returns (cb: Callback)
    requires Fresh(start) && Delivered(start, log, b)
    ensures cb == Run(start, log[..b]).inFlight[log[b].k]
    ensures cb.ticket < b && SamePage(log[..b], cb.ticket)
    ensures Run(start, log[..cb.ticket]).url == cb.site == Run(start, log[..b]).url
    ensures if log[b].ReceivedRssUrls? then log[cb.ticket] == DOMContentLoaded(true)
      else log[cb.ticket].ReceivedRssUrls? && Delivered(start, log, cb.ticket)
  {
    cb := Run(start, log[..b]).inFlight[log[b].k];
    CallbacksOk(start, log[..b]);
    assert cb in Run(start, log[..b]).inFlight;
    assert AskedAt(start, log[..b], cb, cb.ticket);
    PrefixAt(log, b, cb.ticket);
    if log[b].FoundFeeds? {
      DeliveredInPrefix(start, log, b, cb.ticket);
    }
  }

  lemma ChainBegins(start: Tab, log: seq<Event>, f: Feed) returns (a: nat, b: nat, c: nat)
    requires Fresh(start) && log != []
    requires var n := |log| - 1; log[n].FoundFeeds? && Delivered(start, log, n) && f in log[n].found
    ensures Chain(start, log, f, a, b, c)
  {
    c := |log| - 1;
    var found := Request(start, log, c);
    b := found.ticket;
    var links := Request(start, log, b);
    a := links.ticket;
    hide Run, Delivered;
    forall k | a <= k < |log| ensures !log[k].PrimaryPageChanged? {
      if k < b {
        assert log[k] == log[..b][k];
      } else if k < c {
        assert log[k] == log[..c][k];
      }
    }
  }

  // Every feed shown was found on the page that is still shown.
  lemma {:induction false} NoFeedSurvivesItsPage(start: Tab, log: seq<Event>, f: Feed) returns (a: nat, b: nat, c: nat)
    requires Fresh(start) && f in Run(start, log).feeds
    ensures Chain(start, log, f, a, b, c)
  {
    FeedsExactly(start, log);
    var n := |log| - 1;
    FeedsExactly(start, log[..n]);
    if f in Expected(start, log[..n]) && !log[n].PrimaryPageChanged? {
      a, b, c := NoFeedSurvivesItsPage(start, log[..n], f);
      ChainExtends(start, log, f, a, b, c);
    } else {
      hide Run, Delivered;
      a, b, c := ChainBegins(start, log, f);
    }
  }

  // -------------------------------------------------- what observers know

  // The list sent last is the list a call would return now.
  ghost predicate Current(t: Tab) {
    t.broadcasts != [] && t.broadcasts[|t.broadcasts| - 1] == AvailableFeeds(t)
  }

  // Event n made the helper notify its observers.
  ghost predicate Notifies(start: Tab, log: seq<Event>, n: nat)
    requires n < |log|
  {
    log[n].PrimaryPageChanged? || log[n].PublishersUpdated? || (log[n].FoundFeeds? && Delivered(start, log, n))
  }

  lemma BecomesCurrent(start: Tab, log: seq<Event>)
    requires Fresh(start) && log != [] && Notifies(start, log, |log| - 1)
    ensures Current(Run(start, log))
    ensures Run(start, log).broadcasts ==
      Run(start, log[..|log| - 1]).broadcasts + [AvailableFeeds(Run(start, log))]
  {
    var n := |log| - 1;
    if log[n].FoundFeeds? {
      AcceptedIff(start, log, n);
    }
    hide Delivered, FirstOccurrences;
  }

  lemma {:induction false} RepeatedHeadIsDropped(feeds: seq<Feed>)
    requires feeds != []
    ensures FirstOccurrences([feeds[0]] + feeds) == FirstOccurrences(feeds)
    ensures Urls([feeds[0]] + feeds) == Urls(feeds)
  {
    var n := |feeds| - 1;
    var head, before, last := [feeds[0]], feeds[..n], feeds[n];
    assert feeds == before + [last] && head + feeds == head + before + [last];
    FirstOccurrencesOfAppended(before, last);
    FirstOccurrencesOfAppended(head + before, last);
    AtMostOneFeed(head);
    if n == 0 {
      assert head + before == head == feeds;
    } else {
      RepeatedHeadIsDropped(before);
    }
  }

  lemma {:induction false} HeadIsKept(feeds: seq<Feed>)
    requires feeds != []
    ensures FirstOccurrences(feeds) != [] && FirstOccurrences(feeds)[0] == feeds[0]
  {
    var n := |feeds| - 1;
    assert feeds == feeds[..n] + [feeds[n]];
    FirstOccurrencesOfAppended(feeds[..n], feeds[n]);
    if n > 0 {
      HeadIsKept(feeds[..n]);
    }
  }

  // The list that is available at the tab's URL would be the same at another:
  // both have the same default feed, or one has none and the other's is the
  // first of the page's feeds.
  predicate KeepsList(t: Tab, url: Url) {
    var here, there := t.publishers(t.url), t.publishers(url);
    || here == there
    || (t.feeds != [] && here == None && there == Some(t.feeds[0]))
    || (t.feeds != [] && there == None && here == Some(t.feeds[0]))
  }

  lemma KeepsListIff(t: Tab, url: Url)
    ensures AvailableFeeds(t.(url := url)) == AvailableFeeds(t) <==> KeepsList(t, url)
  {
    var here, there := DefaultFeed(t) + t.feeds, DefaultFeed(t.(url := url)) + t.feeds;
    hide FirstOccurrences;
    if t.feeds != [] {
      RepeatedHeadIsDropped(t.feeds);
      assert [] + t.feeds == t.feeds;
    }
    AtMostOneFeed([]);
    if here != [] {
      HeadIsKept(here);
    }
    if there != [] {
      HeadIsKept(there);
    }
  }

  // Exactly when observers still know the available feeds after a navigation
  // within the document, which they are not told of.
  lemma CurrentAfterNavigation(t: Tab, url: Url)
    requires Current(t)
    ensures Current(Apply(t, SameDocumentNavigation(url))) <==> KeepsList(t, url)
  {
    KeepsListIff(t, url);
    hide FirstOccurrences, KeepsList;
  }

  lemma QuietEvent(t: Tab, e: Event)
    requires !e.PrimaryPageChanged? && !e.PublishersUpdated? && !Accepts(t, e)
    ensures var t' := Apply(t, e);
      && t'.feeds == t.feeds && t'.publishers == t.publishers && t'.broadcasts == t.broadcasts
      && (!e.SameDocumentNavigation? ==> t'.url == t.url)
  {
    hide AvailableFeeds, Search, Without;
  }

  // Without a notification only the URL, callbacks and the clock change.
  lemma Unnoticed(start: Tab, log: seq<Event>)
    requires Fresh(start) && log != [] && !Notifies(start, log, |log| - 1)
    ensures var t, t' := Run(start, log[..|log| - 1]), Run(start, log);
      && t'.feeds == t.feeds && t'.publishers == t.publishers && t'.broadcasts == t.broadcasts
      && (!log[|log| - 1].SameDocumentNavigation? ==> t'.url == t.url)
  {
    var n := |log| - 1;
    if log[n].FoundFeeds? {
      AcceptedIff(start, log, n);
    }
    hide Delivered, Apply;
    QuietEvent(Run(start, log[..n]), log[n]);
  }

  lemma NotifiesInPrefix(start: Tab, log: seq<Event>, n: nat, k: nat)
    requires k < n <= |log|
    ensures Notifies(start, log[..n], k) <==> Notifies(start, log, k)
  {
    PrefixAt(log, n, k);
    assert log[..n][k] == log[k];
  }

  // In every run, observers know the available feeds exactly if the URL of the
  // last notification has the same list; so they do if the URL has not changed
  // within the document since.
  lemma {:induction false} ObserversKnow(start: Tab, log: seq<Event>, some: nat) returns (n: nat)
    requires Fresh(start) && some < |log| && Notifies(start, log, some)
    ensures some <= n < |log| && Notifies(start, log, n)
    ensures forall k :: n < k < |log| ==> !Notifies(start, log, k)
    ensures Current(Run(start, log)) <==> KeepsList(Run(start, log), Run(start, log[..n + 1]).url)
    ensures (forall k :: n < k < |log| ==> !log[k].SameDocumentNavigation?) ==> Current(Run(start, log))
  {
    n := LastNotice(start, log, some);
    var sent, now := Run(start, log[..n + 1]), Run(start, log);
    SinceNotice(start, log, n);
    KeepsListIff(now, sent.url);
    hide FirstOccurrences, Run, Notifies;
  }

  lemma {:induction false} LastNotice(start: Tab, log: seq<Event>, some: nat) returns (n: nat)
    requires some < |log| && Notifies(start, log, some)
    ensures some <= n < |log| && Notifies(start, log, n)
    ensures forall k :: n < k < |log| ==> !Notifies(start, log, k)
    decreases |log| - some
  {
    if k :| some < k < |log| && Notifies(start, log, k) {
      n := LastNotice(start, log, k);
    } else {
      n := some;
    }
  }

  lemma {:induction false} SinceNotice(start: Tab, log: seq<Event>, n: nat)
    requires Fresh(start) && n < |log| && Notifies(start, log, n)
    requires forall k :: n < k < |log| ==> !Notifies(start, log, k)
    ensures var sent, now := Run(start, log[..n + 1]), Run(start, log);
      && Current(sent)
      && now.feeds == sent.feeds && now.publishers == sent.publishers && now.broadcasts == sent.broadcasts
      && ((forall k :: n < k < |log| ==> !log[k].SameDocumentNavigation?) ==> now.url == sent.url)
  {
    var last := |log| - 1;
    if n == last {
      assert log[..n + 1] == log;
      BecomesCurrent(start, log);
    } else {
      hide Notifies, Run;
      forall k | n <= k < last ensures Notifies(start, log[..last], k) <==> Notifies(start, log, k) {
        NotifiesInPrefix(start, log, last, k);
      }
      PrefixAt(log, last, n + 1);
      SinceNotice(start, log[..last], n);
      Unnoticed(start, log);
      assert forall k :: n < k < last ==> log[..last][k] == log[k];
    }
  }

  lemma TwoEvents(start: Tab, d: Event, e: Event)
    ensures Run(start, [d, e]) == Apply(Apply(start, d), e)
  {
    hide Apply;
    assert [d, e][..1] == [d] && [d][..0] == [];
    assert Run(start, [d]) == Apply(Run(start, []), d);
  }

  // A navigation within the document to a site with a default feed of its own:
  // observers were last sent an empty list, and it is empty no longer.
  lemma NavigationCanGoUnnoticed() returns (start: Tab, log: seq<Event>)
    ensures Fresh(start) && log == [PrimaryPageChanged("a"), SameDocumentNavigation("b")]
    ensures var t := Run(start, log);
      !Current(t) && t.broadcasts == [[]] && AvailableFeeds(t) == [Feed("b/feed", "b")]
  {
    start := Start("a", url => if url == "a" then None else Some(Feed("b/feed", "b")));
    log := [PrimaryPageChanged("a"), SameDocumentNavigation("b")];
    TwoEvents(start, log[0], log[1]);
    hide FirstOccurrences, Run, Search, Without;
    AtMostOneFeed([]);
    AtMostOneFeed([Feed("b/feed", "b")]);
  }

  // ------------------------------------------------------------ the class

  class PageFeedsObserver {
    var received: seq<seq<Feed>>

    constructor ()
      ensures received == []
    {
      received := [];
    }

    method OnAvailableFeedsChanged(feeds: seq<Feed>)
      modifies this
      ensures received == old(received) + [feeds]
    {
      received := received + [feeds];
    }
  }

  class BraveNewsTabHelper {
    var lastCommittedUrl: Url
    var publishers: Publishers
    var generation: nat
    var rssPageFeeds: seq<Feed>
    var inFlight: seq<Callback>
    var step: nat
    var observers: seq<PageFeedsObserver>
    ghost var broadcasts: seq<seq<Feed>>

    ghost function State(): Tab
      reads this
    {
      Tab(lastCommittedUrl, publishers, generation, rssPageFeeds, inFlight, step, broadcasts)
    }

    ghost predicate Valid()
      reads this
    {
      forall i, j :: 0 <= i < j < |observers| ==> observers[i] != observers[j]
    }

    constructor (url: Url, publishers: Publishers)
      ensures Valid() && State() == Start(url, publishers) && observers == []
    {
      lastCommittedUrl, this.publishers := url, publishers;
      generation, rssPageFeeds, inFlight, step := 0, [], [], 0;
      observers := [];
      broadcasts := [];
    }

    method GetAvailableFeeds() returns (feeds: seq<Feed>)
      ensures feeds == AvailableFeeds(State())
    {
      hide FirstOccurrences, Urls;
      feeds := [];
      var seenFeeds: set<Url> := {};
      var defaultPublisher := publishers(lastCommittedUrl);
      if defaultPublisher.Some? {
        seenFeeds := seenFeeds + {defaultPublisher.value.url};
        feeds := feeds + [defaultPublisher.value];
      }
      ghost var default := DefaultFeed(State());
      AtMostOneFeed(default);
      assert default + rssPageFeeds[..0] == default;
      for i := 0 to |rssPageFeeds|
        invariant feeds == FirstOccurrences(default + rssPageFeeds[..i])
        invariant seenFeeds == Urls(default + rssPageFeeds[..i])
      {
        NextFeed(default, rssPageFeeds, i);
        if rssPageFeeds[i].url in seenFeeds {
          continue;
        }
        seenFeeds := seenFeeds + {rssPageFeeds[i].url};
        feeds := feeds + [rssPageFeeds[i]];
      }
      assert rssPageFeeds[..|rssPageFeeds|] == rssPageFeeds;
    }

    // Every observer is sent what is available, once.
    method AvailableFeedsChanged()
      requires Valid()
      modifies this`broadcasts, observers
      ensures State() == Broadcast(old(State()))
      ensures forall o :: o in observers ==> o.received == old(o.received) + [AvailableFeeds(State())]
    {
      for i := 0 to |observers|
        invariant State() == old(State())
        invariant forall j :: 0 <= j < i ==>
          observers[j].received == old(observers[j].received) + [AvailableFeeds(State())]
        invariant forall j :: i <= j < |observers| ==> observers[j].received == old(observers[j].received)
      {
        var feeds := GetAvailableFeeds();
        observers[i].OnAvailableFeedsChanged(feeds);
      }
      broadcasts := broadcasts + [AvailableFeeds(State())];
    }

    method PrimaryPageChanged(url: Url)
      requires Valid()
      modifies this, observers
      ensures Valid() && observers == old(observers)
      ensures State() == Apply(old(State()), Event.PrimaryPageChanged(url))
      ensures forall o :: o in observers ==> o.received == old(o.received) + [AvailableFeeds(State())]
    {
      lastCommittedUrl := url;
      step := step + 1;
      generation := generation + 1;
      rssPageFeeds := [];
      AvailableFeedsChanged();
    }

    method SameDocumentNavigation(url: Url)
      modifies this
      ensures observers == old(observers)
      ensures State() == Apply(old(State()), Event.SameDocumentNavigation(url))
    {
      lastCommittedUrl := url;
      step := step + 1;
    }

    method DOMContentLoaded(primaryMainFrame: bool)
      modifies this
      ensures observers == old(observers)
      ensures State() == Apply(old(State()), Event.DOMContentLoaded(primaryMainFrame))
    {
      if primaryMainFrame {
        inFlight := inFlight + [Callback(generation, lastCommittedUrl, None, step)];
      }
      step := step + 1;
    }

    method OnPublishersUpdated(publishers: Publishers)
      requires Valid()
      modifies this, observers
      ensures Valid() && observers == old(observers)
      ensures State() == Apply(old(State()), PublishersUpdated(publishers))
      ensures forall o :: o in observers ==> o.received == old(o.received) + [AvailableFeeds(State())]
    {
      this.publishers := publishers;
      step := step + 1;
      AvailableFeedsChanged();
    }

    // The network answers the k-th request that is in flight.
    method RunRssUrlsCallback(k: nat, urls: seq<Url>)
      requires k < |inFlight| && inFlight[k].link.None?
      modifies this
      ensures observers == old(observers)
      ensures State() == Apply(old(State()), ReceivedRssUrls(k, urls))
    {
      var callback := inFlight[k];
      inFlight := Without(inFlight, k);
      if callback.generation == generation {
        OnReceivedRssUrls(callback.site, urls);
      }
      step := step + 1;
    }

    method OnReceivedRssUrls(siteUrl: Url, feedUrls: seq<Url>)
      modifies this`inFlight
      ensures State() == ReceivedLinks(old(State()), siteUrl, feedUrls)
    {
      if siteUrl != lastCommittedUrl {
        return;
      }
      for i := 0 to |feedUrls|
        invariant inFlight == old(inFlight) + Search(old(State()), siteUrl, feedUrls)[..i]
      {
        inFlight := inFlight + [Callback(generation, siteUrl, Some(feedUrls[i]), step)];
      }
    }

    method RunFindFeedsCallback(k: nat, found: seq<Feed>)
      requires Valid() && k < |inFlight| && inFlight[k].link.Some?
      modifies this, observers
      ensures Valid() && observers == old(observers)
      ensures State() == Apply(old(State()), FoundFeeds(k, found))
      ensures forall o :: o in observers ==> o.received == old(o.received) + broadcasts[|old(broadcasts)|..]
    {
      var callback := inFlight[k];
      inFlight := Without(inFlight, k);
      if callback.generation == generation {
        OnFoundFeeds(callback.site, found);
      }
      step := step + 1;
    }

    method OnFoundFeeds(siteUrl: Url, feeds: seq<Feed>)
      requires Valid()
      modifies this`rssPageFeeds, this`broadcasts, observers
      ensures State() == Found(old(State()), siteUrl, feeds)
      ensures forall o :: o in observers ==> o.received == old(o.received) + broadcasts[|old(broadcasts)|..]
    {
      if siteUrl != lastCommittedUrl {
        return;
      }
      for i := 0 to |feeds|
        invariant rssPageFeeds == old(rssPageFeeds) + feeds[..i]
        modifies this`rssPageFeeds
      {
        rssPageFeeds := rssPageFeeds + [Feed(feeds[i].url, feeds[i].title)];
      }
      assert feeds[..|feeds|] == feeds;
      AvailableFeedsChanged();
    }

    method AddObserver(observer: PageFeedsObserver)
      requires Valid()
      modifies this`observers
      ensures Valid() && observers == if observer in old(observers) then old(observers) else old(observers) + [observer]
    {
      if observer !in observers {
        observers := observers + [observer];
      }
    }
  }
}

# Verified models of the browser's self-contained logic

This project models the parts of the repository that hold arithmetic, search,
state and protocol of their own, and proves what they promise. Each file is one
module and follows one source file, or one concern of it:

| file | what it models |
|---|---|
| `UserChoiceHash.dfy` | the two-lane 32-bit hash of a wide string that Windows stores beside a protocol's default handler |
| `WindowsTime.dfy` | the Windows time types, down to minutes, seconds and milliseconds, and the two-word 64-bit FILETIME |
| `UserChoiceString.dfy` | the string that is hashed: names, a minute as two hexadecimal words, and a constant, lower-cased |
| `UserChoiceProtocol.dfy` | writing a UserChoice key before its hash expires, and re-checking it from its last write time |
| `Bisection.dfy` | the search for the first broken release, with its two pairs of bounds and three exits |
| `FeatureSwitches.dfy` | the two feature sets parsed from, merged with and printed back to a command line |
| `FeedDiscovery.dfy` | a tab's feed list, fed by replies that arrive after navigations, reloads and page changes |
| `ShieldsAccounting.dfy` | blocked-resource counters shared between tabs, and scripts allowed once |
| `ScopedOverrides.dfy` | nested overrides of names in a scope, under exceptions |
| `SysPath.dfy` | nested temporary entries of `sys.path`, under exceptions |
| `TestReport.dfy` | the choice of a test iteration and the totals of a report |
| `Common.dfy` | shared types and `Split` |

Objects that change are classes, loops are loops, and each of their methods is
tied by its contract to a value-level specification. The theorems over whole
runs are lemmas about these specifications: a run is a sequence of events, in
any order and of any length. `dafny verify dfyconfig.toml` checks the project.

Parameters stand for what the code only calls: MD5, the lower-casing of one code
unit and its folding in registry paths, the clock and the outcome of registry
calls, the oracle that says whether a release works, the publisher of a site, and
the characters that Python counts as parts of a word.

## Results worth knowing

* The two lanes of the UserChoice hash are different in kind. One changed DWORD
  always shows in h0 (`UserChoiceHash.OneChangedDWordShows`). At every place of
  every input there are two DWORDs that h1 and its sum cannot tell apart
  (`UserChoiceHash.SecondLaneHides`): scramble 1 is not injective for any odd
  multipliers, by counting halves.
* The bisection is right if and only if the version just before the right end is
  broken (`Bisection.OutcomeIsFirstBroken`). If the right end is the first broken
  version, the fall-through return names the version before it, which works. With a
  single interval between its ends the loop never runs and the return statement
  reads an unassigned name; the model returns `TestIndexUnassigned`. The attempts
  reported are the versions tried exactly if the search stopped on an interval of
  one version, and one more if it fell through its loop. `Bisection.WorkingVersionNamed`
  is a run with both faults.
* A new helper on the command line that `AppendFeatures` leaves has the same two
  sets if and only if every name survives printing and parsing
  (`FeatureSwitches.PrintedSwitches`). `AppendSwitchASCII` can break this; its
  contract says exactly when.
* `override_scope_function` does not put back a callable object that is falsy
  (`ScopedOverrides.FunctionRestoredIff`, `ScopedOverrides.FalsyCallableIsLost`).
  Only the overridden name's own value matters: with any other override the name
  reads as before, whatever else is in the scope (`ScopedOverrides.OverridesAreUndone`).
  A name that was inherited then has an attribute of its own, with the value it
  inherited, exactly if a block for it was left (`ScopedOverrides.InheritedBecomesOwn`).
* Blocks around `sys.path` are invisible while no body appends or removes a path that
  a block manages (`SysPath.BlocksLeaveNoTrace`). A body that does can be out of step
  (`SysPath.ManagedEntryIsTaken`), because the finally clause pops the last entry if it
  is the path, and removes the first copy otherwise. It is out of step exactly when
  the list ends with the path and another entry stands behind the path's first copy
  (`SysPath.BlockLeavesNoTraceIff`). For a body that removes nothing this is known
  before the block is entered (`SysPath.AppendingBlockIff`): it ends by appending the
  path, and it appends another entry too or the path was not put at the end. Programs
  whose blocks are all in step leave no trace, at any depth (`SysPath.CleanLeaveNoTrace`).
* Feeds survive a navigation within the document, and observers are not told
  that the default publisher may have changed (`FeedDiscovery.NavigationCanGoUnnoticed`).
  `FeedDiscovery.CurrentAfterNavigation` and `FeedDiscovery.ObserversKnow` say exactly
  when the list they were sent is still the right one.
* `script/json2xunit.py` promises to report a successful iteration if there is
  one. The model follows the code, which adds up scores, and keeps that promise
  exactly if some success outscores every failing iteration
  (`TestReport.SuccessIsPickedIff`): for two iterations, if the failing one's length
  and bonuses stay below a million plus the success's (`TestReport.SuccessOfTwo`). So
  failing output of 984999 characters never wins, and of any greater length it can, if
  there is room for the line of the run and three markers
  (`TestReport.SuccessIsPicked`, `TestReport.MarginIsTight`).

## Model

| member | source | states |
|---|---|---|
| UserChoiceHash.OddProductInjective | browser/default_protocol_handler_utils_win.cc:99-103 | multiplying by an odd DWORD loses nothing modulo 2^32 |
| UserChoiceHash.OddProductSurjective | browser/default_protocol_handler_utils_win.cc:99-103 | every DWORD is the product of some DWORD with a given odd one: odd multipliers have inverses |
| UserChoiceHash.WordSwapInvolution | browser/default_protocol_handler_utils_win.cc:47-49 | swapping the halves twice gives the word back |
| UserChoiceHash.Scramble0Injective | browser/default_protocol_handler_utils_win.cc:98-103 | scramble 0 with odd multipliers, however many stages of it, maps different words to different words |
| UserChoiceHash.Scramble0Surjective | browser/default_protocol_handler_utils_win.cc:98-103 | scramble 0 reaches every word, so it is a bijection on 32-bit words |
| UserChoiceHash.Step0Lossless | browser/default_protocol_handler_utils_win.cc:74-103 | for any digest and any position the whole step on h0 determines what was added into it; all multipliers in use are odd |
| UserChoiceHash.DifferentAfter | browser/default_protocol_handler_utils_win.cc:88-104 | lanes that differ once keep differing while the same DWORDs follow |
| UserChoiceHash.OneChangedDWordShows | browser/default_protocol_handler_utils_win.cc:81-104 | for fixed multipliers, two DWORD sequences that differ in exactly one place always end with different h0 |
| UserChoiceHash.AddAndScramble0 | browser/default_protocol_handler_utils_win.cc:97-103 | the updates of h0, in the order of the source, are the five-stage scramble of the sum |
| UserChoiceHash.Scramble1ByHalves | browser/default_protocol_handler_utils_win.cc:106-110 | scramble 1 is three linear maps of a word's low and high half modulo 2^32, one after the other |
| UserChoiceHash.HalvesCollide | browser/default_protocol_handler_utils_win.cc:106-110 | a map of the two halves by any two odd numbers sends some two different words to the same one |
| UserChoiceHash.Scramble1Collides | browser/default_protocol_handler_utils_win.cc:106-110 | unlike scramble 0, scramble 1 is not injective for any odd multipliers |
| UserChoiceHash.SecondLaneHides | browser/default_protocol_handler_utils_win.cc:88-113 | for any digest, at any place in any DWORDs, two different DWORDs end with the same h1 and the same sum of h1, and with different h0 |
| UserChoiceHash.AfterNext | browser/default_protocol_handler_utils_win.cc:88-113 | one inner iteration takes lanes and accumulators from n DWORDs to n + 1; the accumulators are the wrapping sums of the lane values after each DWORD |
| UserChoiceHash.HashString | browser/default_protocol_handler_utils_win.cc:51-121 | the loops compute the recursive specification over the DWORDs of all complete blocks, never read past them, and give an empty text exactly for fewer than three characters |
| UserChoiceHash.TextShowsWords | browser/default_protocol_handler_utils_win.cc:115-120 | the text decodes to eight bytes: first the DWORD h0 xor h1, then the DWORD of the two totals' xor |
| UserChoiceHash.XorBitsAt | browser/default_protocol_handler_utils_win.cc:115 | each bit of an exclusive or is set exactly if the two bits differ |
| UserChoiceHash.KnownWords | browser/default_protocol_handler_utils_win.cc:51-121 | L"abc" with its MD5: the exact values of h0, h1 and both totals, from all ten multipliers of both lanes, in the order they are encoded |
| UserChoiceHash.KnownText | browser/default_protocol_handler_utils_win.cc:115-120 | the text of eight given bytes |
| UserChoiceHash.DWordIsTwoUnits | browser/default_protocol_handler_utils_win.cc:93-95 | the k-th DWORD copied out of the bytes is two consecutive code units, low byte and low unit first, the terminating NUL included |
| UserChoiceHash.OneUnitIsOneDWord | browser/default_protocol_handler_utils_win.cc:52-59 | changing one code unit inside the complete blocks changes exactly one DWORD |
| UserChoiceHash.LittleEndianReadsBack | browser/default_protocol_handler_utils_win.cc:115-119 | the bytes that are encoded read back as the DWORD |
| UserChoiceHash.Base64ReadsBack | browser/default_protocol_handler_utils_win.cc:115-120 | decoding the text as RFC 4648 says gives the bytes back, at every length |
| UserChoiceHash.TextIsTheHash | browser/default_protocol_handler_utils_win.cc:115-120 | two hash texts are equal exactly if the two encoded DWORDs are |
| UserChoiceHash.OneSidedCollisionImpossible | browser/default_protocol_handler_utils_win.cc:51-121 | two strings that differ in one code unit end with different h0 under the same multipliers, and have equal texts only if h1 differs too: xor cannot hide a change of h0 alone |
| WindowsTime.AddMillisecondsToSystemTime | browser/default_protocol_handler_utils_win.cc:161-182 | the time is moved in the 64-bit tick count, or left alone when either conversion fails |
| WindowsTime.MinuteFits | browser/default_protocol_handler_utils_win.cc:186-202 | a minute fits exactly if its ticks of 100 ns stay below 2^63 |
| WindowsTime.DelayIsExact | browser/default_protocol_handler_utils_win.cc:171-180 | an increment below the FILETIME range does not wrap: the result is the timestamp that many milliseconds later |
| WindowsTime.CheckEqualMinutes | browser/default_protocol_handler_utils_win.cc:186-202 | true exactly if both times fit a FILETIME and fall in the same minute |
| UserChoiceString.HexReadsBack | browser/default_protocol_handler_utils_win.cc:144-152 | a number printed in zero-padded fixed-width hexadecimal reads back as itself |
| UserChoiceString.FieldsInOrder | browser/default_protocol_handler_utils_win.cc:131-158 | the whole string, slice by slice: the three names in their order, the high and the low word of the minute in ticks, and the constant text, all lowered |
| UserChoiceString.HexDigits | browser/default_protocol_handler_utils_win.cc:144-152 | the digits are 0-9 and lower-case a-f |
| UserChoiceString.StringShowsTime | browser/default_protocol_handler_utils_win.cc:144-158 | equal lowered strings for the same names contain the same high and low words |
| UserChoiceString.SameStringIffSameMinute | browser/default_protocol_handler_utils_win.cc:123-159 | for the same names, two timestamps give the same string exactly if they fall in the same minute or both fail to convert |
| UserChoiceString.GenerateUserChoiceHash | browser/default_protocol_handler_utils_win.cc:397-408 | the hash is a function of the names and the formatted timestamp |
| UserChoiceProtocol.KeyPathIs | browser/default_protocol_handler_utils_win.cc:204-217 | the key is below FileExts exactly if the name starts with a dot, otherwise below UrlAssociations, and ends with the name |
| UserChoiceProtocol.KeyPathsDistinct | browser/default_protocol_handler_utils_win.cc:204-217 | two protocols or extensions share a key exactly if they are the same C string up to the registry's case folding, so setting one leaves all others alone |
| UserChoiceProtocol.HashEmptyIff | browser/default_protocol_handler_utils_win.cc:397-408 | there is no hash exactly if the minute does not fit a FILETIME |
| UserChoiceProtocol.HashForWrite | browser/default_protocol_handler_utils_win.cc:219-247 | the hash is for the first clock reading, or after a sleep for the third; none exactly if a time does not fit |
| UserChoiceProtocol.SetUserChoice | browser/default_protocol_handler_utils_win.cc:219-288 | when it succeeds, what key it then leaves, and that a failure leaves the key alone, gone or without one of its values, and all other keys alone |
| UserChoiceProtocol.CheckUserChoiceHash | browser/default_protocol_handler_utils_win.cc:345-393 | accepts exactly a readable key whose stored hash is the one recomputed from its stored ProgID and last write time |
| UserChoiceProtocol.SleepsIff | browser/default_protocol_handler_utils_win.cc:228-240 | the call sleeps exactly if a minute of the clock ends between the first reading and 100 ms after the second |
| UserChoiceProtocol.InTimeIsSameMinute | browser/default_protocol_handler_utils_win.cc:228-247 | a write within 100 ms of the second reading, or after a sleep within 60 s of the first, falls in the hashed minute |
| UserChoiceProtocol.CheckAfterSet | browser/default_protocol_handler_utils_win.cc:345-393 | after a successful set the check accepts exactly if the hashes of the read and of the written minute agree |
| UserChoiceProtocol.SetThenCheck | browser/default_protocol_handler_utils_win.cc:228-247 | a key written in time is accepted by the later check, with and without the sleep |
| UserChoiceProtocol.LateWriteNeedsCollision | browser/default_protocol_handler_utils_win.cc:228-229 | a write outside the hashed minute is accepted only if two different strings collide |
| UserChoiceProtocol.SetAndCheck | browser/default_protocol_handler_utils_win.cc:219-288 | setting and then checking: a timely success is accepted, a failure that changed the registry is not |
| Bisection.Search | script/build-bisect.py:375-407 | for any oracle at all the loop ends, after at most log2 + 1 probes, at one of three kinds of index, as the recursive specification says; attempts are exact: the probes, and one more if the loop was fallen through; below an interval of two it fails |
| Bisection.EndingIsOutcome | script/build-bisect.py:375-407 | for any oracle the specified search ends at a boundary, the last interior version or a broken left end, with at most log2 + 1 probes |
| Bisection.OutcomeIsFirstBroken | script/build-bisect.py:375-407 | with a single break the index found is the first broken one exactly if the version before the right end is broken, and otherwise the one before the right end |
| Bisection.OutcomeIsBoundary | script/build-bisect.py:393-407 | for oracles that are not monotone: if the version before the right end is broken, the result is broken and its predecessor works |
| Bisection.WorkingVersionNamed | script/build-bisect.py:407 | a concrete search that names a working version after one probe, falling through its loop, so that it reports one attempt too many |
| Bisection.NearestIndex | script/build-bisect.py:305-323 | a listed version gives its first index; any other is replaced by the first, or the last, version of its minor series, else by the default |
| Bisection.SeriesOf | script/build-bisect.py:312-319 | the series of a version of three parts is its first two parts with their dots |
| Bisection.LeftEndIsFirst | script/build-bisect.py:337-342 | the search starts at the listed version, or else no later than any version of the good one's series, or at 0 without a match or the option |
| Bisection.RightEndIsLast | script/build-bisect.py:344-349 | the search ends at the listed version, or else at the version of the bad one's series behind which none of the series lies, or at the last version |
| Bisection.FailureWithoutOptions | script/build-bisect.py:326-373 | which failure is raised when, without options |
| Bisection.InnerEndsAreTrusted | script/build-bisect.py:353-373 | given ends inside the list are not tried: no failure for any oracle |
| Bisection.BreakIsNamed | script/build-bisect.py:326-407 | with any options, a single break strictly between the two ends is named |
| Bisection.FindFirstBrokenVersion | script/build-bisect.py:326-407 | which failure is raised when, what the answer is otherwise, which ends are tried besides the search, and attempts that equal the versions tried exactly if the search stopped on an interval of one, and are one more otherwise |
| FeatureSwitches.TrimLeft | app/brave_command_line_helper.cc:36-37 | only leading whitespace is dropped, and all of it |
| FeatureSwitches.WhitespaceIs | app/brave_command_line_helper.cc:36-37 | which six characters are trimmed |
| FeatureSwitches.TrimRight | app/brave_command_line_helper.cc:36-37 | only trailing whitespace is dropped, and all of it |
| FeatureSwitches.NamesWellFormed | app/brave_command_line_helper.cc:30-40 | parsing yields only trimmed, non-empty ASCII names without commas |
| FeatureSwitches.NamesOfJoin | app/brave_command_line_helper.cc:85-95 | parsing two texts joined by a comma gives the names of both |
| FeatureSwitches.PrintedNames | app/brave_command_line_helper.cc:85-95 | a set of names is parsed back from its printed form exactly if every name is well formed: trimmed, not empty, ASCII and without a comma |
| FeatureSwitches.ParsedOne | app/brave_command_line_helper.cc:42-57 | which switch enables and which disables, and that a name in both is disabled |
| FeatureSwitches.BraveCommandLineHelper.constructor | app/brave_command_line_helper.cc:15-18 | a new helper holds disjoint sets, those of its command line, where a value outside ASCII is read as empty |
| FeatureSwitches.BraveCommandLineHelper.Parse | app/brave_command_line_helper.cc:42-57 | the erasing loop removes exactly the enabled names that are also disabled, in any iteration order |
| FeatureSwitches.BraveCommandLineHelper.AppendSwitch | app/brave_command_line_helper.cc:59-62 | a switch is added at most once, and agreement with the command line is not affected |
| FeatureSwitches.BraveCommandLineHelper.AppendSwitchASCII | app/brave_command_line_helper.cc:97-101 | exactly when a new switch value puts the command line out of step with the helper |
| FeatureSwitches.BraveCommandLineHelper.AppendFeatures | app/brave_command_line_helper.cc:64-83 | the new sets, independent of iteration order; disjointness; the command line still tells the sets exactly if all names are well formed, also when a set is empty and not printed |
| FeatureSwitches.BraveCommandLineHelper.AppendCSV | app/brave_command_line_helper.cc:85-95 | whatever the iteration order, the printed value parses to the names of all elements |
| FeatureSwitches.PrintedSwitches | app/brave_command_line_helper.cc:79-82 | the command line after a call re-parses to the new sets if and only if all their names are well formed, stale and unprinted switches included |
| FeatureSwitches.FirstMentionWins | app/brave_command_line_helper.cc:64-78 | over any number of calls a name's state is what its first mention says: the user's switches first, disabled before enabled within one call |
| FeatureSwitches.AppendAllAndParseAgain | app/brave_command_line_helper.cc:15-83 | after any sequence of calls a second helper on the same command line has the same sets exactly if all names are well formed |
| FeedDiscovery.FirstOccurrencesExact | browser/brave_news/brave_news_tab_helper.cc:46-69 | the list has no repeated URL, has every URL, and keeps for each the first feed in order of first occurrence |
| FeedDiscovery.BraveNewsTabHelper.GetAvailableFeeds | browser/brave_news/brave_news_tab_helper.cc:46-69 | the loop with its seen-set returns the first occurrences of the default feed followed by the page's feeds |
| FeedDiscovery.BraveNewsTabHelper.AvailableFeedsChanged | browser/brave_news/brave_news_tab_helper.cc:144-147 | every observer is sent the available feeds once |
| FeedDiscovery.BraveNewsTabHelper.PrimaryPageChanged | browser/brave_news/brave_news_tab_helper.cc:149-154 | the page's feeds are cleared, older callbacks die, and every observer is sent the new list |
| FeedDiscovery.BraveNewsTabHelper.DOMContentLoaded | browser/brave_news/brave_news_tab_helper.cc:156-164 | only the primary main frame asks for links, for the committed URL |
| FeedDiscovery.BraveNewsTabHelper.RunRssUrlsCallback | browser/brave_news/brave_news_tab_helper.cc:156-164 | a reply with links is used once, and not at all after a page change |
| FeedDiscovery.BraveNewsTabHelper.OnReceivedRssUrls | browser/brave_news/brave_news_tab_helper.cc:111-121 | one search per link, in order, unless the URL has changed |
| FeedDiscovery.BraveNewsTabHelper.RunFindFeedsCallback | browser/brave_news/brave_news_tab_helper.cc:116-120 | a reply with feeds is used once, and not at all after a page change; observers hear of it exactly if it was used |
| FeedDiscovery.BraveNewsTabHelper.OnFoundFeeds | browser/brave_news/brave_news_tab_helper.cc:123-134 | the feeds are appended in order and observers notified, unless the URL has changed |
| FeedDiscovery.BraveNewsTabHelper.OnPublishersUpdated | browser/brave_news/brave_news_tab_helper.cc:166-170 | every observer is sent the list under the new publishers |
| FeedDiscovery.BraveNewsTabHelper.AddObserver | browser/brave_news/brave_news_tab_helper.cc:136-138 | observers stay distinct |
| FeedDiscovery.CallbacksOk | browser/brave_news/brave_news_tab_helper.cc:116-119 | in every run a callback in flight is alive exactly if no page change followed the event that asked for it, and it names the URL committed then |
| FeedDiscovery.EveryRequestIsMade | browser/brave_news/brave_news_tab_helper.cc:111-164 | loading the primary main frame puts a request for the page's links in flight, and every delivered reply a search for each of its links, with the committed URL |
| FeedDiscovery.CallbacksConserved | browser/brave_news/brave_news_tab_helper.cc:111-164 | in every run a callback is in flight exactly as often as it was asked for and not yet answered: none is lost, doubled or made up |
| FeedDiscovery.Environment | browser/brave_news/brave_news_tab_helper.cc:149-170 | URL and publishers are those of the last event that changed them |
| FeedDiscovery.BecomesCurrent | browser/brave_news/brave_news_tab_helper.cc:144-147 | every notification sends one list, the one that is then available |
| FeedDiscovery.AcceptedIff | browser/brave_news/brave_news_tab_helper.cc:123-127 | the weak pointer and the URL guard accept a reply exactly if its page is still shown with its URL |
| FeedDiscovery.FeedsExactly | browser/brave_news/brave_news_tab_helper.cc:123-134 | in every run the page's feeds are exactly those of the replies delivered on the page still shown, in order |
| FeedDiscovery.NoFeedSurvivesItsPage | browser/brave_news/brave_news_tab_helper.cc:111-164 | behind every feed stand a page load, a links reply and a feeds reply, all since the last page change and with the same URL, even after a reload to that URL |
| FeedDiscovery.KeepsListIff | browser/brave_news/brave_news_tab_helper.cc:46-69 | two URLs have the same list exactly if they have the same default feed, or one has none and the other's is the first of the page's feeds |
| FeedDiscovery.CurrentAfterNavigation | browser/brave_news/brave_news_tab_helper.cc:46-69 | observers that knew the list still know it after a navigation within the document exactly under that condition |
| FeedDiscovery.ObserversKnow | browser/brave_news/brave_news_tab_helper.cc:123-170 | at any moment of any run the list sent last is the available list exactly if the URL at the last page change, accepted reply or publisher update has the same list; always if the URL has not changed within the document since |
| FeedDiscovery.NavigationCanGoUnnoticed | browser/brave_news/brave_news_tab_helper.cc:149-154 | a concrete run that leaves observers with an empty list although there is a feed |
| ShieldsAccounting.BraveShieldsWebContentsObserver.DispatchBlockedEvent | browser/brave_shields/brave_shields_web_contents_observer.cc:121-157 | the first block of a URL is remembered and increments the counter of its type, if it has one; a repeat, or no observer, changes nothing |
| ShieldsAccounting.BraveShieldsWebContentsObserver.ReadyToCommitNavigation | browser/brave_shields/brave_shields_web_contents_observer.cc:198-227 | which navigation resets which part, and every frame is sent the resulting list |
| ShieldsAccounting.BraveShieldsWebContentsObserver.TellEveryFrame | browser/brave_shields/brave_shields_web_contents_observer.cc:216-226 | in any order, each frame gets one more message, with the current list |
| ShieldsAccounting.BraveShieldsWebContentsObserver.AllowScriptsOnce | browser/brave_shields/brave_shields_web_contents_observer.cc:229-233 | the list is replaced and no frame is told yet |
| ShieldsAccounting.BraveShieldsWebContentsObserver.RenderFrameCreated | browser/brave_shields/brave_shields_web_contents_observer.cc:59-72 | a new frame is told a list that is not empty |
| ShieldsAccounting.BraveShieldsWebContentsObserver.RenderFrameDeleted | browser/brave_shields/brave_shields_web_contents_observer.cc:74-76 | the frame's remote is dropped |
| ShieldsAccounting.BraveShieldsWebContentsObserver.RenderFrameHostChanged | browser/brave_shields/brave_shields_web_contents_observer.cc:78-87 | deletion of the old frame, then creation of the new one |
| ShieldsAccounting.BraveShieldsWebContentsObserver.GetBraveShieldsRemote | browser/brave_shields/brave_shields_web_contents_observer.cc:248-258 | a remote is bound on first use and kept |
| ShieldsAccounting.Browser.Handle | browser/brave_shields/brave_shields_web_contents_observer.cc:121-157 | whatever the event, all tabs and all counters, shared between the tabs of a profile, are as the specification of one event says |
| ShieldsAccounting.Browser.HandleAll | browser/brave_shields/brave_shields_web_contents_observer.cc:121-157 | any run of events takes the objects to the specified world, and each counter object has grown by the number of its triples |
| ShieldsAccounting.BlockedSetIsPage | browser/brave_shields/brave_shields_web_contents_observer.cc:198-214 | in every run the remembered URLs are those blocked since the tab's last reset |
| ShieldsAccounting.IncrementsIffCounts | browser/brave_shields/brave_shields_web_contents_observer.cc:132-153 | the code increments a counter exactly for the first block event of a URL on a page, by that event's type |
| ShieldsAccounting.CountedAfter | browser/brave_shields/brave_shields_web_contents_observer.cc:132-153 | an event adds one new triple to what a counter should count, or none |
| ShieldsAccounting.Conservation | browser/brave_shields/brave_shields_web_contents_observer.cc:121-157 | over any run of any number of tabs a counter of a profile grows, modulo 2^64, by the number of (tab, page, URL) triples whose first block event has its type |
| ShieldsAccounting.BlockedAfterNavigation | browser/brave_shields/brave_shields_web_contents_observer.cc:202-214 | new loads and normal reloads of the main frame forget the blocked URLs; reloads that bypass the cache, subframe and same-document navigations keep them |
| ShieldsAccounting.FirstBlockCounts | browser/brave_shields/brave_shields_web_contents_observer.cc:138-153 | by name, which block type adds one to which counter, that the other counters keep their values, and that any other type adds nothing |
| ShieldsAccounting.AllowedIsLast | browser/brave_shields/brave_shields_web_contents_observer.cc:198-233 | in every run the list is the one allowed last, or empty if a new load of the main frame, and no reload of either kind, came later |
| ShieldsAccounting.AllowedUntilNewLoad | browser/brave_shields/brave_shields_web_contents_observer.cc:198-214 | reloads of both kinds, subframe and same-document navigations keep what was allowed |
| ShieldsAccounting.FramesArePresent | browser/brave_shields/brave_shields_web_contents_observer.cc:59-87 | the frames of a tab are those created and not deleted since |
| ShieldsAccounting.NavigationSends | browser/brave_shields/brave_shields_web_contents_observer.cc:216-226 | any navigation sends each frame one message, with the list that is then in force |
| ShieldsAccounting.CreatedFrameIsSent | browser/brave_shields/brave_shields_web_contents_observer.cc:59-72 | a new frame is sent one message if something is allowed, none otherwise, and gets a remote either way |
| ShieldsAccounting.FramesAreTold | browser/brave_shields/brave_shields_web_contents_observer.cc:59-72 | from a navigation until scripts are next allowed, every frame present goes by the observer's list, whenever it was created |
| ShieldsAccounting.NewLoadForgets | browser/brave_shields/brave_shields_web_contents_observer.cc:202-226 | after a new main-frame load nothing is allowed and every frame present goes by the empty list |
| ScopedOverrides.Scope.Run | script/override_utils.py:71-129 | running a body with blocks, writes, deletions, exceptions and handlers is the specified effect on the scope |
| ScopedOverrides.Scope.OverrideScopeFunction | script/override_utils.py:71-103 | the block's effect on the scope and whether it raises, its finally clause included |
| ScopedOverrides.Scope.OverrideScopeVariable | script/override_utils.py:106-129 | the block's effect on the scope and whether it raises, its finally clause included |
| ScopedOverrides.FunctionBlockRaises | script/override_utils.py:71-103 | a missing or non-callable name makes a function block raise before its body, and nothing reads differently |
| ScopedOverrides.VariableBlockRaises | script/override_utils.py:106-119 | a missing name makes a variable block raise, if asked to, and changes nothing |
| ScopedOverrides.FunctionBodySees | script/override_utils.py:71-103 | the body of a function block runs with the wrapper in place of a callable, and of the scope itself if the block is switched off |
| ScopedOverrides.VariableBodySees | script/override_utils.py:106-129 | the body of a variable block runs with the value in place; a name that was missing has to be there still when the block is left |
| ScopedOverrides.OverriddenFunction | script/override_utils.py:13-39 | an override without a block wraps the original for good, or writes it back unwrapped if switched off |
| ScopedOverrides.OverridesAreUndone | script/override_utils.py:71-129 | for any tree of blocks, any scope and any exceptions, a name that is written only inside blocks for it, and did not hold a falsy callable, reads as before; if it is not inherited, it is an own attribute exactly if it was one |
| ScopedOverrides.InheritedBecomesOwn | script/override_utils.py:71-129 | an inherited name that reads as before has become an own attribute exactly if the run left a block that put its value back |
| ScopedOverrides.FunctionRestoredIff | script/override_utils.py:101-103 | a function block restores a callable, its own or inherited, if and only if the callable is truthy |
| ScopedOverrides.FalsyCallableIsLost | script/override_utils.py:101-103 | a falsy callable stays replaced, even around an empty body |
| ScopedOverrides.OtherNamesAreKept | script/override_utils.py:71-129 | a name that no block overrides is as the bodies' own writes, up to where they raised, left it |
| SysPath.InsertPlaces | script/import_inline.py:61-65 | where a position puts the path, negative ones and those beyond either end included |
| SysPath.LeaveRaisesIff | script/import_inline.py:68-73 | leaving a block fails exactly if its path is gone |
| SysPath.LeaveUndoesEnter | script/import_inline.py:58-73 | leaving removes exactly the entry that entering put in, at whatever position, and keeps what was appended |
| SysPath.ExtraIsKept | script/import_inline.py:58-73 | bodies do the same with and without a block's path in the list, while they remove no more copies than they find without it: the list has the path once more, in front of its other copies |
| SysPath.BlockLeavesNoTraceIff | script/import_inline.py:65-73 | a block around a body whose own blocks are in step leaves no trace exactly if, when it is left, the list does not end with its path or nothing else stands behind the path's first copy |
| SysPath.AppendingBlockIff | script/import_inline.py:58-73 | for bodies that remove nothing, a block leaves no trace exactly if the body does not end by appending the path, or appends nothing else while the path went to the end |
| SysPath.CleanLeaveNoTrace | script/import_inline.py:58-73 | any program whose blocks are all in step, bodies that append and remove managed paths included, leaves list and exceptions as if there were no blocks |
| SysPath.BlocksLeaveNoTrace | script/import_inline.py:58-73 | blocks whose paths no body appends or removes are always in step, at any depth and positions; so the list is restored exactly if the bodies are balanced |
| SysPath.AppendedSurvive | script/import_inline.py:58-73 | if the bodies remove nothing and all blocks are in step, what the bodies appended follows the list, in order |
| SysPath.ManagedEntryIsTaken | script/import_inline.py:68-73 | a concrete block that is out of step: its body appends the path, loses that copy, and the block's stays in front |
| SysPath.ManagedEntryIsMissed | script/import_inline.py:68-73 | a concrete body that removes the block's only copy and makes the block raise |
| SysPath.Interpreter.SysPathBlock | script/import_inline.py:58-73 | the block's effect on the list and whether it raises, its finally clause included |
| TestReport.PickIsFirstBest | script/json2xunit.py:26-39 | the pick is the first iteration with the highest score |
| TestReport.StartsIff | script/json2xunit.py:32-35 | the pattern matches exactly the snippets that begin with the run marker, a name of word characters, slashes, hashes and dots, the case and a newline |
| TestReport.StackTraceBonus | script/json2xunit.py:36-38 | this marker alone is worth 2500 |
| TestReport.ExpectedBonus | script/json2xunit.py:36-38 | this marker alone is worth 2500 |
| TestReport.ActualBonus | script/json2xunit.py:36-38 | this marker alone is worth 2500 |
| TestReport.RunLineBonus | script/json2xunit.py:32-36 | the line of the run alone is worth 7500 |
| TestReport.SuccessIsPickedIff | script/json2xunit.py:26-39 | for every list of iterations a success is picked exactly if some success has a higher score than every failing iteration, or the same and comes first |
| TestReport.SuccessOfTwo | script/json2xunit.py:29-39 | for a failing iteration followed by a success, the success is picked exactly if the failing output's length and bonuses are below a million plus the success's |
| TestReport.SuccessIsPicked | script/json2xunit.py:26-39 | hence a success is picked if there is one and failing output has at most 984999 characters, whatever it contains |
| TestReport.MarginIsTight | script/json2xunit.py:29-38 | for every test case and every greater length with room for the line of the run and the markers, some failing iteration beats a successful one |
| TestReport.SplitLast | script/json2xunit.py:49-50 | the name is split at the last delimiter, and cannot be split exactly if there is none |
| TestReport.SplitNameAt | script/json2xunit.py:49-50 | the last hash splits a name that has one, else the last slash, else the last dot, whatever else is in it |
| TestReport.SanitizedDropsUnprintable | script/json2xunit.py:58-64 | exactly the characters that are not printable are dropped from the output |
| TestReport.ReportedIs | script/json2xunit.py:49-65 | what is reported of a test: the two parts of its name, the printable output of an iteration with the highest score, and as failed exactly if that iteration's status is not SUCCESS |
| TestReport.ReportedAsFailed | script/json2xunit.py:56-65 | a test is reported as failed exactly if its pick is some iteration without status SUCCESS |
| TestReport.NotReported | script/json2xunit.py:39-50 | a test cannot be reported exactly if its name has no delimiter or it has no iterations, and which of the two it is |
| TestReport.CasesInOrder | script/json2xunit.py:47-65 | tests come one after the other in their suites |
| TestReport.SuitesInOrder | script/json2xunit.py:44-52 | suites come in the order of their first tests |
| TestReport.FailedTestsAre | script/json2xunit.py:64-65 | the failures counted are the tests whose pick is no success, each once |
| TestReport.Transform | script/json2xunit.py:42-68 | each suite, in order, holds exactly its tests in order with matching counts, the counts add up to all tests and all failed picks, and the first test that cannot be reported is the error |
| TestReport.Totals | script/json2xunit.py:75-77 | the sums over the suites |
| TestReport.Report | script/json2xunit.py:71-80 | the printed totals are the number of tests and of tests whose pick is not a success |

## Left out

- MD5, the Gregorian calendar, registry permissions and error codes: only called; a timestamp is rejected when it does not fit 63 bits of ticks, not by its year.
- HashString: a string of more than 2^30 characters, whose byte count no longer fits the source's `int`.
- SetUserChoice: a DeleteKey call that fails after removing part of the key.
- `CharLowerW` beyond one code unit: it is a map of code units that keeps NUL and the lower-case hexadecimal digits.
- `SetDefaultProtocolHandlerFor`, `GetBrowserProgId` and the COM query: guards around the protocol modelled here.
- `base::CommandLine` is not part of this model, only a map in which the latest value wins and a value outside ASCII reads as empty.
- `get_releases`, `filter_releases`, downloading and running a version: a filter in one loop, and calls to the outside.
- `IsSubscribed`, `ToggleSubscription` and `RemoveObserver` of the feed helper: single decisions, or decided in the controllers, which are not part of this model.
- SysPath.BlockLeavesNoTraceIff: does not decide bodies that remove the block's own copy of its path, or more copies than they would find without the block; the two runs then go on from different exceptions, and can end alike or not.
- Opening and closing tabs during a run: the tabs and profiles of `Browser`, which only passes events on, are fixed.
- Mojo binding, `SetReduceLanguageEnabled` (only its binding of a remote is kept), the shields panel and the perf predictor.
- `override_method` and `get_gn_arg`: an assignment without a bracket, and a cache. Properties and other descriptors, for which `setattr` is not a plain assignment.
- `get_src_dir` and the inlining functions of `script/import_inline.py`: a walk to the root, and `exec`.
- Report text: XML markup and elapsed times; a suite's elements are kept as values.

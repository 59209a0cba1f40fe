// Writing and re-checking a UserChoice key, from
// browser/default_protocol_handler_utils_win.cc.
module UserChoiceProtocol {
  import opened Common
  import opened UserChoiceHash
  import opened WindowsTime
  import opened UserChoiceString

  const WRITE_TIMING_THRESHOLD_MS := 100

  // A UserChoice key with its two values and its last write time.
  datatype UserChoiceKey = UserChoiceKey(progId: Option<Wide>, hash: Option<Wide>, lastWrite: nat)

  class Registry {
    // The association keys, and the UserChoice keys below them, by folded path.
    var associations: set<Wide>
    var userChoice: map<Wide, UserChoiceKey>

    constructor (associations: set<Wide>, userChoice: map<Wide, UserChoiceKey>)
      ensures this.associations == associations && this.userChoice == userChoice
    {
      this.associations, this.userChoice := associations, userChoice;
    }
  }

  function KeyPrefix(isExtension: bool): (prefix: Wide)
    ensures |prefix| > 27
  {
    if isExtension
    then Literal("SOFTWARE\\Microsoft\\Windows\\CurrentVersion\\Explorer\\FileExts\\")
    else Literal("SOFTWARE\\Microsoft\\Windows\\Shell\\Associations\\UrlAssociations\\")
  }

  function GetAssociationKeyPath(protocol: Wide): (path: Wide)
    requires protocol != []
    ensures path != []
  {
    KeyPrefix(protocol[0] == 46) + CStr(protocol)   // '.'
  }

  // Registry key names ignore case: a path names a key by its folded form.
  function RegistryKey(p: Platform, protocol: Wide): Wide
    requires protocol != []
  {
    Folded(p, GetAssociationKeyPath(protocol))
  }

  lemma PrefixesDiffer(isExtension: bool)
    ensures KeyPrefix(isExtension)[27] == if isExtension then 67 else 83
  {}

  lemma FoldedParts(p: Platform, a: Wide, b: Wide)
    ensures Folded(p, a + b) == Folded(p, a) + Folded(p, b)
  {}

  // Two protocols have one key exactly if they are the same up to case, so
  // setting one leaves all others.
  lemma KeyPathsDistinct(p: Platform, a: Wide, b: Wide)
    requires p.Valid() && a != [] && b != []
    ensures RegistryKey(p, a) == RegistryKey(p, b) <==> Folded(p, CStr(a)) == Folded(p, CStr(b))
  {
    var isA, isB := a[0] == 46, b[0] == 46;
    PrefixesDiffer(isA);
    PrefixesDiffer(isB);
    FoldedParts(p, KeyPrefix(isA), CStr(a));
    FoldedParts(p, KeyPrefix(isB), CStr(b));
    var j, k := Folded(p, CStr(a)), Folded(p, CStr(b));
    if j == k && j != [] {
      assert j[0] == p.fold(a[0]) && k[0] == p.fold(b[0]);
    }
    hide KeyPrefix, Folded;
    if RegistryKey(p, a) == RegistryKey(p, b) {
      assert RegistryKey(p, a)[27] == RegistryKey(p, b)[27];
      var n := |KeyPrefix(isA)|;
      assert j == RegistryKey(p, a)[n..] == RegistryKey(p, b)[n..] == k;
    }
  }

  // An extension has its key below FileExts, any other protocol below
  // UrlAssociations.
  lemma KeyPathIs(protocol: Wide)
    requires protocol != []
    ensures var path := GetAssociationKeyPath(protocol);
      var fileExts := Literal("SOFTWARE\\Microsoft\\Windows\\CurrentVersion\\Explorer\\FileExts\\");
      var urls := Literal("SOFTWARE\\Microsoft\\Windows\\Shell\\Associations\\UrlAssociations\\");
      && (protocol[0] == '.' as int <==> fileExts <= path)
      && (protocol[0] != '.' as int <==> urls <= path)
      && path[if protocol[0] == '.' as int then |fileExts| else |urls|..] == CStr(protocol)
  {
    PrefixesDiffer(true);
    PrefixesDiffer(false);
    hide Literal;
  }

  // What one SetUserChoice call sees of the world: the clock at its reads, the
  // time of its registry writes, and which registry calls succeed.
  datatype World = World(
    firstRead: nat, secondRead: nat, thirdRead: nat,
    createdAt: nat, progIdAt: nat, hashAt: nat,
    canOpen: bool, canDelete: bool, canCreate: bool, canWriteProgId: bool, canWriteHash: bool)
  {
    // The 100 ms after the second read leave the minute of the first one.
    predicate Sleeps() {
      var writeEnd := DelayedBy(SystemTimeAt(secondRead), WRITE_TIMING_THRESHOLD_MS);
      writeEnd.Some? && !CheckEqualMinutes(SystemTimeAt(firstRead), writeEnd.value)
    }

    // The clock reading that ends up in the hash.
    function HashedRead(): nat {
      if Sleeps() then thirdRead else firstRead
    }

    // The clock runs forward and Sleep lasts at least as long as asked.
    predicate ClockRunsForward() {
      && firstRead <= secondRead
      && (Sleeps() ==> secondRead + 2 * WRITE_TIMING_THRESHOLD_MS * TICKS_PER_MS <= thirdRead <= createdAt)
      && secondRead <= createdAt <= progIdAt <= hashAt
    }

    // The last write is soon enough: within 100 ms of the second read, or,
    // after a sleep, within a minute of the first read.
    predicate WritesInTime() {
      && hashAt < FILETIME_LIMIT
      && if Sleeps() then hashAt <= firstRead + MS_PER_MINUTE * TICKS_PER_MS
         else hashAt <= secondRead + WRITE_TIMING_THRESHOLD_MS * TICKS_PER_MS
    }

    predicate TimesFit() {
      && MinuteOf(SystemTimeAt(firstRead)).Some?
      && DelayedBy(SystemTimeAt(secondRead), WRITE_TIMING_THRESHOLD_MS).Some?
      && (Sleeps() ==> MinuteOf(SystemTimeAt(thirdRead)).Some?)
    }
  }

  // The key as a successful SetUserChoice leaves it.
  function WrittenKey(p: Platform, w: World, ext: Wide, sid: Wide, progId: Wide): UserChoiceKey {
    UserChoiceKey(
      Some(CStr(progId)),
      Some(CStr(UserChoiceHashOf(p, ext, sid, progId, SystemTimeAt(w.HashedRead())))),
      w.hashAt)
  }

  // The first half of SetUserChoice: a hash that should outlive the writes.
  method HashForWrite(p: Platform, w: World, ext: Wide, sid: Wide, progId: Wide) returns (hash: Wide)
    requires p.Valid()
    ensures hash == if w.TimesFit() then UserChoiceHashOf(p, ext, sid, progId, SystemTimeAt(w.HashedRead())) else []
    ensures hash != [] <==> w.TimesFit()
  {
    hide UserChoiceHashOf, SystemTimeAt, DelayedBy;
    var hashTimestamp := SystemTimeAt(w.firstRead);
    hash := GenerateUserChoiceHash(p, ext, sid, progId, hashTimestamp);
    HashEmptyIff(p, ext, sid, progId, hashTimestamp);
    if hash == [] {
      return [];
    }

    var writeEndTimestamp := SystemTimeAt(w.secondRead);
    var added;
    added, writeEndTimestamp := AddMillisecondsToSystemTime(writeEndTimestamp, WRITE_TIMING_THRESHOLD_MS);
    if !added {
      return [];
    }
    if !CheckEqualMinutes(hashTimestamp, writeEndTimestamp) {
      hashTimestamp := SystemTimeAt(w.thirdRead);
      hash := GenerateUserChoiceHash(p, ext, sid, progId, hashTimestamp);
      HashEmptyIff(p, ext, sid, progId, hashTimestamp);
    }
  }

  method SetUserChoice(reg: Registry, p: Platform, w: World, ext: Wide, sid: Wide, progId: Wide) returns (ok: bool)
    requires p.Valid() && ext != []
    modifies reg
    ensures ok <==>
      && w.TimesFit()
      && RegistryKey(p, ext) in reg.associations && w.canOpen
      && (RegistryKey(p, ext) in old(reg.userChoice) ==> w.canDelete)
      && w.canCreate && w.canWriteProgId && w.canWriteHash
    ensures var path := RegistryKey(p, ext);
      ok ==> reg.userChoice == old(reg.userChoice)[path := WrittenKey(p, w, ext, sid, progId)]
    // A failed call leaves the key alone, removes it, or leaves it without one
    // of its values, so that no later check accepts what it left.
    ensures var path := RegistryKey(p, ext);
      !ok ==>
        && reg.userChoice - {path} == old(reg.userChoice) - {path}
        && (reg.userChoice == old(reg.userChoice) || path !in reg.userChoice || Incomplete(reg.userChoice[path]))
    ensures reg.associations == old(reg.associations)
  {
    hide UserChoiceHashOf, CStr, RegistryKey, SystemTimeAt, DelayedBy;
    var hash := HashForWrite(p, w, ext, sid, progId);
    if hash == [] {
      return false;
    }
    var path := RegistryKey(p, ext);
    if path !in reg.associations || !w.canOpen {
      return false;
    }
    if path in reg.userChoice {
      if !w.canDelete {
        return false;
      }
      reg.userChoice := reg.userChoice - {path};
    }
    if !w.canCreate {
      return false;
    }
    reg.userChoice := reg.userChoice[path := UserChoiceKey(None, None, w.createdAt)];
    if !w.canWriteProgId {
      return false;
    }
    var key := reg.userChoice[path].(progId := Some(CStr(progId)), lastWrite := w.progIdAt);
    reg.userChoice := reg.userChoice[path := key];
    if !w.canWriteHash {
      return false;
    }
    key := reg.userChoice[path].(hash := Some(CStr(hash)), lastWrite := w.hashAt);
    reg.userChoice := reg.userChoice[path := key];
    return true;
  }

  predicate Incomplete(key: UserChoiceKey) {
    key.progId.None? || key.hash.None?
  }

  lemma HashEmptyIff(p: Platform, ext: Wide, sid: Wide, progId: Wide, st: SystemTime)
    requires p.Valid()
    ensures UserChoiceHashOf(p, ext, sid, progId, st) == [] <==> MinuteOf(st).None?
  {
    if MinuteOf(st).Some? {
      FormattedText(p, ext, sid, progId, st);
    }
  }

  // What CheckUserChoiceHash accepts.
  predicate Verifies(p: Platform, key: UserChoiceKey, protocol: Wide, sid: Wide) {
    && key.progId.Some? && key.hash.Some? && key.lastWrite < FILETIME_LIMIT
    && var computed := UserChoiceHashOf(p, protocol, sid, key.progId.value, SystemTimeAt(key.lastWrite));
    && computed != [] && CStr(computed) == CStr(key.hash.value)
  }

  lemma IncompleteIsRejected(p: Platform, key: UserChoiceKey, protocol: Wide, sid: Wide)
    ensures Incomplete(key) ==> !Verifies(p, key, protocol, sid)
  {}

  method CheckUserChoiceHash(reg: Registry, p: Platform, readable: bool, protocol: Wide, sid: Wide) returns (ok: bool)
    requires protocol != []
    ensures var path := RegistryKey(p, protocol);
      ok <==> readable && path in reg.associations && path in reg.userChoice &&
              Verifies(p, reg.userChoice[path], protocol, sid)
  {
    var keyPath := RegistryKey(p, protocol);
    if keyPath !in reg.associations || keyPath !in reg.userChoice || !readable {
      return false;
    }
    var key := reg.userChoice[keyPath];
    if key.lastWrite >= FILETIME_LIMIT {
      return false;
    }
    var lastWriteSystemTime := SystemTimeAt(key.lastWrite);
    if key.progId.None? {
      return false;
    }
    if key.hash.None? {
      return false;
    }
    var computed := GenerateUserChoiceHash(p, protocol, sid, key.progId.value, lastWriteSystemTime);
    if computed == [] {
      return false;
    }
    return CStr(computed) == CStr(key.hash.value);
  }

  // ---------------------------------------------------- set, then check

  lemma MinutesRunForward(s: nat, t: nat)
    requires s <= t
    ensures SystemTimeAt(s).minute <= SystemTimeAt(t).minute
  {}

  lemma NextMinute(t: nat)
    ensures SystemTimeAt(t + MS_PER_MINUTE * TICKS_PER_MS).minute == SystemTimeAt(t).minute + 1
  {
    assert (t + MS_PER_MINUTE * TICKS_PER_MS) / TICKS_PER_MS == t / TICKS_PER_MS + MS_PER_MINUTE;
  }

  // The timestamp 100 ms ahead of a clock reading is the clock 100 ms later.
  lemma WriteEnd(t: nat)
    ensures var end := DelayedBy(SystemTimeAt(t), WRITE_TIMING_THRESHOLD_MS);
      end.Some? ==>
        && end.value == SystemTimeAt(t + WRITE_TIMING_THRESHOLD_MS * TICKS_PER_MS)
        && MinuteOf(end.value).Some?
  {
    DelayIsExact(SystemTimeAt(t), WRITE_TIMING_THRESHOLD_MS);
    assert (t + WRITE_TIMING_THRESHOLD_MS * TICKS_PER_MS) / TICKS_PER_MS ==
      t / TICKS_PER_MS + WRITE_TIMING_THRESHOLD_MS;
  }

  lemma MinuteOfTicks(t: nat)
    ensures SystemTimeAt(t).minute == t / 600_000_000
  {
    assert t / 10_000 / 60_000 == t / 600_000_000;
  }

  // The call sleeps exactly if a minute of the clock ends between its first
  // reading and 100 ms after its second one.
  lemma SleepsIff(w: World)
    requires w.TimesFit()
    ensures w.Sleeps() <==> w.firstRead / 600_000_000 != (w.secondRead + 1_000_000) / 600_000_000
  {
    WriteEnd(w.secondRead);
    MinuteOfTicks(w.firstRead);
    MinuteOfTicks(w.secondRead + 1_000_000);
    hide SystemTimeAt, DelayedBy;
  }

  // Writing in time means writing in the minute that was hashed.
  lemma InTimeIsSameMinute(w: World)
    requires w.TimesFit() && w.ClockRunsForward() && w.WritesInTime()
    ensures SystemTimeAt(w.hashAt).minute == SystemTimeAt(w.HashedRead()).minute
  {
    var writeEnd := w.secondRead + WRITE_TIMING_THRESHOLD_MS * TICKS_PER_MS;
    WriteEnd(w.secondRead);
    MinutesRunForward(w.HashedRead(), w.hashAt);
    MinutesRunForward(w.firstRead, writeEnd);
    if w.Sleeps() {
      hide SystemTimeAt;
      MinutesRunForward(writeEnd, w.thirdRead);
      NextMinute(w.firstRead);
      MinutesRunForward(w.hashAt, w.firstRead + MS_PER_MINUTE * TICKS_PER_MS);
    } else {
      MinutesRunForward(w.hashAt, writeEnd);
    }
  }

  lemma {:induction false} Base64HasNoNul(bytes: seq<Byte>)
    ensures 0 !in Base64(bytes)
  {
    if |bytes| >= 3 {
      Base64HasNoNul(bytes[3..]);
    }
  }

  lemma HashHasNoNul(p: Platform, ext: Wide, sid: Wide, progId: Wide, st: SystemTime)
    ensures var hash := UserChoiceHashOf(p, ext, sid, progId, st);
      CStr(hash) == hash
  {
    var s := FormatUserChoiceString(p, ext, sid, progId, st);
    var (w0, w1) := HashWords(p.digest(InputBytes(s)), DWords(InputBytes(s)));
    Base64HasNoNul(LittleEndian(w0) + LittleEndian(w1));
  }

  // The stored ProgID hashes like the one that was passed in.
  lemma StoredProgIdHashesAlike(p: Platform, ext: Wide, sid: Wide, progId: Wide, st: SystemTime)
    ensures UserChoiceHashOf(p, ext, sid, CStr(progId), st) == UserChoiceHashOf(p, ext, sid, progId, st)
  {
    assert CStr(CStr(progId)) == CStr(progId);
  }

  // After a successful SetUserChoice the check accepts exactly if the hash for
  // the minute of the last write equals the hash for the minute that was read.
  lemma CheckAfterSet(p: Platform, w: World, ext: Wide, sid: Wide, progId: Wide)
    requires p.Valid() && w.TimesFit()
    ensures Verifies(p, WrittenKey(p, w, ext, sid, progId), ext, sid) <==>
      && w.hashAt < FILETIME_LIMIT
      && UserChoiceHashOf(p, ext, sid, progId, SystemTimeAt(w.HashedRead())) ==
         UserChoiceHashOf(p, ext, sid, progId, SystemTimeAt(w.hashAt))
  {
    hide UserChoiceHashOf, CStr, SystemTimeAt, DelayedBy, HashOf, FormatUserChoiceString;
    var read, write := SystemTimeAt(w.HashedRead()), SystemTimeAt(w.hashAt);
    HashHasNoNul(p, ext, sid, progId, read);
    HashHasNoNul(p, ext, sid, progId, write);
    StoredProgIdHashesAlike(p, ext, sid, progId, write);
    HashEmptyIff(p, ext, sid, progId, read);
  }

  lemma SetThenCheck(p: Platform, w: World, ext: Wide, sid: Wide, progId: Wide)
    requires p.Valid() && w.TimesFit() && w.ClockRunsForward() && w.WritesInTime()
    ensures Verifies(p, WrittenKey(p, w, ext, sid, progId), ext, sid)
  {
    hide HashOf, FormatUserChoiceString, SystemTimeAt, DelayedBy, Verifies, WrittenKey;
    InTimeIsSameMinute(w);
    SameStringIffSameMinute(p, ext, sid, progId, SystemTimeAt(w.HashedRead()), SystemTimeAt(w.hashAt));
    CheckAfterSet(p, w, ext, sid, progId);
  }

  // A write outside the hashed minute is accepted only if two different
  // strings have the same hash.
  lemma LateWriteNeedsCollision(p: Platform, w: World, ext: Wide, sid: Wide, progId: Wide)
    requires p.Valid() && w.TimesFit()
    ensures var s := FormatUserChoiceString(p, ext, sid, progId, SystemTimeAt(w.HashedRead()));
      var t := FormatUserChoiceString(p, ext, sid, progId, SystemTimeAt(w.hashAt));
      SystemTimeAt(w.hashAt).minute != SystemTimeAt(w.HashedRead()).minute &&
      Verifies(p, WrittenKey(p, w, ext, sid, progId), ext, sid) ==>
        s != t && HashOf(p.digest, s) == HashOf(p.digest, t)
  {
    hide HashOf, FormatUserChoiceString, SystemTimeAt, DelayedBy, Verifies, WrittenKey;
    CheckAfterSet(p, w, ext, sid, progId);
    SameStringIffSameMinute(p, ext, sid, progId, SystemTimeAt(w.HashedRead()), SystemTimeAt(w.hashAt));
  }

  // What a caller sees who sets a user choice and then checks it: a timely set
  // is accepted, and whatever a failed set may have left behind is not.
  method SetAndCheck(reg: Registry, p: Platform, w: World, ext: Wide, sid: Wide, progId: Wide)
    returns (wasSet: bool, accepted: bool)
    requires p.Valid() && ext != []
    modifies reg
    ensures wasSet && w.ClockRunsForward() && w.WritesInTime() ==> accepted
    ensures !wasSet && reg.userChoice != old(reg.userChoice) ==> !accepted
  {
    hide Verifies, WrittenKey, Incomplete, RegistryKey, UserChoiceHashOf, CStr, SystemTimeAt, DelayedBy;
    wasSet := SetUserChoice(reg, p, w, ext, sid, progId);
    accepted := CheckUserChoiceHash(reg, p, true, ext, sid);
    if wasSet && w.ClockRunsForward() && w.WritesInTime() {
      SetThenCheck(p, w, ext, sid, progId);
    }
    if RegistryKey(p, ext) in reg.userChoice {
      IncompleteIsRejected(p, reg.userChoice[RegistryKey(p, ext)], ext, sid);
    }
  }
}

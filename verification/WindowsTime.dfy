// The Windows time types of browser/default_protocol_handler_utils_win.cc.
//
// Time is a number of 100 ns ticks since the FILETIME epoch. The calendar is
// reduced to what the code looks at: whole minutes, wSecond and wMilliseconds.
module WindowsTime {
  import opened Common
  import opened UserChoiceHash

  const TICKS_PER_MS := 10_000
  const MS_PER_MINUTE := 60_000
  const FILETIME_LIMIT := 0x8000_0000_0000_0000
  const QUAD := 0x1_0000_0000_0000_0000

  datatype SystemTime = SystemTime(minute: nat, second: nat, millis: nat) {
    function Millis(): nat { minute * MS_PER_MINUTE + second * 1000 + millis }

    predicate WellFormed() { second < 60 && millis < 1000 }
  }

  datatype FileTime = FileTime(low: DWord, high: DWord) {
    function Ticks(): nat { high * DWORD + low }
  }

  function FileTimeOf(ticks: nat): (ft: FileTime)
    requires ticks < QUAD
    ensures ft.Ticks() == ticks
  {
    FileTime(ticks % DWORD, ticks / DWORD)
  }

  function SystemTimeToFileTime(st: SystemTime): Option<FileTime> {
    var ticks := st.Millis() * TICKS_PER_MS;
    if !st.WellFormed() || ticks >= FILETIME_LIMIT then None
    else Some(FileTimeOf(ticks))
  }

  function FromMillis(ms: nat): (st: SystemTime)
    ensures st.WellFormed() && st.Millis() == ms
  {
    var rest := ms % MS_PER_MINUTE;
    SystemTime(ms / MS_PER_MINUTE, rest / 1000, rest % 1000)
  }

  // What the clock shows at a given tick; ticks below a millisecond are lost.
  function SystemTimeAt(ticks: nat): SystemTime {
    FromMillis(ticks / TICKS_PER_MS)
  }

  function FileTimeToSystemTime(ft: FileTime): Option<SystemTime> {
    if ft.Ticks() >= FILETIME_LIMIT then None else Some(SystemTimeAt(ft.Ticks()))
  }

  // The minute of a timestamp, if it still fits a FILETIME.
  function MinuteOf(st: SystemTime): Option<nat> {
    if st.minute * MS_PER_MINUTE * TICKS_PER_MS < FILETIME_LIMIT then Some(st.minute) else None
  }

  lemma MinuteFits(st: SystemTime)
    ensures MinuteOf(st).Some? <==> st.minute * 600_000_000 < 0x8000_0000_0000_0000
    ensures MinuteOf(st).Some? ==> MinuteOf(st).value == st.minute
  {}

  // A timestamp moved by a number of milliseconds: QuadPart is 64 bits wide.
  function DelayedBy(st: SystemTime, increment: nat): Option<SystemTime> {
    var moved := (st.Millis() * TICKS_PER_MS + increment * TICKS_PER_MS) % QUAD;
    if SystemTimeToFileTime(st).None? || moved >= FILETIME_LIMIT then None
    else Some(SystemTimeAt(moved))
  }

  method AddMillisecondsToSystemTime(st: SystemTime, increment: nat) returns (ok: bool, updated: SystemTime)
    ensures ok == DelayedBy(st, increment).Some?
    ensures updated == if ok then DelayedBy(st, increment).value else st
  {
    updated := st;
    var fileTime := SystemTimeToFileTime(st);
    if fileTime.None? {
      return false, updated;
    }
    var quadPart := fileTime.value.Ticks();
    quadPart := (quadPart + increment * TICKS_PER_MS) % QUAD;
    var later := FileTimeToSystemTime(FileTimeOf(quadPart));
    if later.None? {
      return false, updated;
    }
    return true, later.value;
  }

  // An increment below the FILETIME range never wraps: the sum is exact.
  lemma DelayIsExact(st: SystemTime, increment: nat)
    requires increment * TICKS_PER_MS < FILETIME_LIMIT
    ensures DelayedBy(st, increment).Some? <==>
      st.WellFormed() && (st.Millis() + increment) * TICKS_PER_MS < FILETIME_LIMIT
    ensures DelayedBy(st, increment).Some? ==>
      DelayedBy(st, increment).value == FromMillis(st.Millis() + increment)
  {
    var ms := st.Millis() + increment;
    assert st.Millis() * TICKS_PER_MS + increment * TICKS_PER_MS == ms * TICKS_PER_MS;
    assert ms * TICKS_PER_MS / TICKS_PER_MS == ms;
    hide FromMillis;
  }

  function CheckEqualMinutes(st1: SystemTime, st2: SystemTime): (equal: bool)
    ensures equal <==> MinuteOf(st1).Some? && MinuteOf(st1) == MinuteOf(st2)
  {
    var ft1 := SystemTimeToFileTime(st1.(second := 0, millis := 0));
    var ft2 := SystemTimeToFileTime(st2.(second := 0, millis := 0));
    if ft1.None? || ft2.None? then false
    else ft1.value.low == ft2.value.low && ft1.value.high == ft2.value.high
  }
}

// The string that is hashed, from browser/default_protocol_handler_utils_win.cc.
module UserChoiceString {
  import opened Common
  import opened UserChoiceHash
  import opened WindowsTime

  const HEX_WIDTH := 8

  // CharLowerW on one code unit, how the registry folds one, and MD5.
  datatype Platform = Platform(lower: WChar -> WChar, fold: WChar -> WChar, digest: seq<Byte> -> Digest) {
    // What the code takes for granted: lowering keeps NUL and the lower-case
    // hexadecimal digits, and the registry tells C from S, and '.' from all else.
    ghost predicate Valid() {
      && fold(67) != fold(83)
      && (forall c: WChar :: fold(c) == fold(46) <==> c == 46)
      && (forall c: WChar :: lower(c) == 0 <==> c == 0)
      && (forall d: nat :: d < 16 ==> lower(HexDigit(d)) == HexDigit(d))
    }
  }

  // A wide string as a C function sees it: up to its first NUL.
  function CStr(s: Wide): (r: Wide)
    ensures 0 !in r && r <= s
    ensures |r| < |s| ==> s[|r|] == 0
    ensures 0 !in s ==> r == s
  {
    if s == [] || s[0] == 0 then [] else [s[0]] + CStr(s[1..])
  }

  function HexDigit(d: nat): WChar
    requires d < 16
  {
    if d < 10 then 48 + d else 97 + d - 10
  }

  // The last `width` digits of %0<width>lx.
  function Hex(n: nat, width: nat): (text: Wide)
    ensures |text| == width
    ensures forall c :: c in text ==> exists d: nat :: d < 16 && c == HexDigit(d)
  {
    if width == 0 then [] else Hex(n / 16, width - 1) + [HexDigit(n % 16)]
  }

  function Lower(p: Platform, s: Wide): (r: Wide)
    ensures |r| == |s|
    ensures forall k :: 0 <= k < |s| ==> r[k] == p.lower(s[k])
  {
    seq(|s|, k requires 0 <= k < |s| => p.lower(s[k]))
  }

  function Folded(p: Platform, s: Wide): (r: Wide)
    ensures |r| == |s|
    ensures forall k :: 0 <= k < |s| ==> r[k] == p.fold(s[k])
  {
    seq(|s|, k requires 0 <= k < |s| => p.fold(s[k]))
  }

  // A literal as code units; anything outside ASCII would become '?'.
  function Literal(s: string): (w: Wide)
    ensures |w| == |s| && 0 !in w
  {
    seq(|s|, k requires 0 <= k < |s| => var c := s[k] as int; if 0 < c < 128 then c else 63)
  }

  function UserExperience(): (w: Wide)
    ensures |w| >= 3 && 0 !in w
  {
    Literal("User Choice set via Windows User Experience {D18B6DD5-6124-4341-9318-804003BAFA0B}")
  }

  // The string before it is lowered.
  function RawUserChoice(ext: Wide, sid: Wide, progId: Wide, ft: FileTime): (s: Wide)
    ensures 0 !in s && |s| >= 3
  {
    HexHasNoNul(ft.high, HEX_WIDTH);
    HexHasNoNul(ft.low, HEX_WIDTH);
    CStr(ext) + CStr(sid) + CStr(progId) + Hex(ft.high, HEX_WIDTH) + Hex(ft.low, HEX_WIDTH) + UserExperience()
  }

  lemma HexHasNoNul(n: nat, width: nat)
    ensures 0 !in Hex(n, width)
  {}

  function FormatUserChoiceString(p: Platform, ext: Wide, sid: Wide, progId: Wide, timestamp: SystemTime): Wide {
    var fileTime := SystemTimeToFileTime(timestamp.(second := 0, millis := 0));
    if fileTime.None? then []
    else CStr(Lower(p, RawUserChoice(ext, sid, progId, fileTime.value)))
  }

  function UserChoiceHashOf(p: Platform, ext: Wide, sid: Wide, progId: Wide, timestamp: SystemTime): Wide {
    HashOf(p.digest, FormatUserChoiceString(p, ext, sid, progId, timestamp))
  }

  method GenerateUserChoiceHash(p: Platform, ext: Wide, sid: Wide, progId: Wide, timestamp: SystemTime)
    returns (hash: Wide)
    ensures hash == UserChoiceHashOf(p, ext, sid, progId, timestamp)
  {
    hide FormatUserChoiceString, Base64, HashWords;
    var userChoice := FormatUserChoiceString(p, ext, sid, progId, timestamp);
    if userChoice == [] {
      return [];
    }
    hash := HashString(p.digest, userChoice);
  }

  lemma FormattedText(p: Platform, ext: Wide, sid: Wide, progId: Wide, st: SystemTime)
    requires p.Valid() && MinuteOf(st).Some?
    ensures var ft := SystemTimeToFileTime(st.(second := 0, millis := 0));
      && ft.Some? && ft.value.Ticks() == st.minute * MS_PER_MINUTE * TICKS_PER_MS
      && FormatUserChoiceString(p, ext, sid, progId, st) == Lower(p, RawUserChoice(ext, sid, progId, ft.value))
  {}

  function DigitValue(c: WChar): nat {
    if 48 <= c <= 57 then c - 48 else if 97 <= c <= 102 then c - 97 + 10 else 0
  }

  // Reading a hexadecimal number.
  function HexValue(text: Wide): nat {
    if text == [] then 0
    else 16 * HexValue(text[..|text| - 1]) + DigitValue(text[|text| - 1])
  }

  lemma DigitReadsBack(d: nat)
    requires d < 16
    ensures DigitValue(HexDigit(d)) == d
  {}

  lemma Pow16(k: nat)
    ensures Pow2(k + 4) == 16 * Pow2(k)
  {
    assert Pow2(k + 1) == 2 * Pow2(k);
    assert Pow2(k + 2) == 2 * Pow2(k + 1);
    assert Pow2(k + 3) == 2 * Pow2(k + 2);
  }

  lemma {:induction false} HexReadsBack(n: nat, width: nat)
    requires n < Pow2(4 * width)
    ensures HexValue(Hex(n, width)) == n
  {
    if width > 0 {
      Pow16(4 * (width - 1));
      assert n / 16 < Pow2(4 * (width - 1));
      HexReadsBack(n / 16, width - 1);
      DigitReadsBack(n % 16);
      hide Pow2, HexDigit, DigitValue;
      assert Hex(n, width)[..width - 1] == Hex(n / 16, width - 1);
    }
  }

  lemma LowerKeepsHex(p: Platform, n: nat, width: nat)
    requires p.Valid()
    ensures Lower(p, Hex(n, width)) == Hex(n, width)
  {}

  lemma LowerSlice(p: Platform, s: Wide, i: nat, j: nat)
    requires i <= j <= |s|
    ensures Lower(p, s)[i..j] == Lower(p, s[i..j])
  {}

  lemma MiddleSlices(head: Wide, high: Wide, low: Wide, tail: Wide)
    requires |high| == HEX_WIDTH && |low| == HEX_WIDTH
    ensures var s := head + high + low + tail;
      && |s| >= |head| + 16
      && s[|head|..|head| + 8] == high && s[|head| + 8..|head| + 16] == low
  {}

  // Where the two FILETIME words stand in the lowered string.
  lemma LoweredWords(p: Platform, ext: Wide, sid: Wide, progId: Wide, ft: FileTime)
    requires p.Valid()
    ensures var at := |CStr(ext) + CStr(sid) + CStr(progId)|;
      var s := Lower(p, RawUserChoice(ext, sid, progId, ft));
      && |s| >= at + 16
      && s[at..at + 8] == Hex(ft.high, HEX_WIDTH) && s[at + 8..at + 16] == Hex(ft.low, HEX_WIDTH)
  {
    var head, high, low := CStr(ext) + CStr(sid) + CStr(progId), Hex(ft.high, HEX_WIDTH), Hex(ft.low, HEX_WIDTH);
    var raw := RawUserChoice(ext, sid, progId, ft);
    assert raw == head + high + low + UserExperience();
    LowerKeepsHex(p, ft.high, HEX_WIDTH);
    LowerKeepsHex(p, ft.low, HEX_WIDTH);
    hide CStr, Hex, UserExperience, RawUserChoice, Lower;
    MiddleSlices(head, high, low, UserExperience());
    LowerSlice(p, raw, |head|, |head| + 8);
    LowerSlice(p, raw, |head| + 8, |head| + 16);
  }

  // The string is these fields, one behind the other.
  ghost predicate HasFields(s: Wide, x: Wide, y: Wide, z: Wide, high: Wide, low: Wide, end: Wide) {
    var (a, b, c) := (|x|, |y|, |z|);
    && |high| == 8 && |low| == 8 && |s| == a + b + c + 16 + |end|
    && s[..a] == x && s[a..a + b] == y && s[a + b..a + b + c] == z
    && s[a + b + c..a + b + c + 8] == high && s[a + b + c + 8..a + b + c + 16] == low
    && s[a + b + c + 16..] == end
  }

  // The whole string, field by field: three names, the high and the low word of
  // the minute in ticks, and the constant; all in lower case.
  lemma FieldsInOrder(p: Platform, ext: Wide, sid: Wide, progId: Wide, st: SystemTime)
    requires p.Valid() && MinuteOf(st).Some?
    ensures
      var ticks := st.minute * 600_000_000;
      HasFields(
        FormatUserChoiceString(p, ext, sid, progId, st),
        Lower(p, CStr(ext)), Lower(p, CStr(sid)), Lower(p, CStr(progId)),
        Hex(ticks / 0x1_0000_0000, 8), Hex(ticks % 0x1_0000_0000, 8),
        Lower(p, Literal("User Choice set via Windows User Experience {D18B6DD5-6124-4341-9318-804003BAFA0B}")))
  {
    hide FormatUserChoiceString, CStr, Hex, Literal, Lower, HasFields;
    FormattedText(p, ext, sid, progId, st);
    var ft := SystemTimeToFileTime(st.(second := 0, millis := 0)).value;
    WordsOfTicks(ft, st.minute * 600_000_000);
    LoweredFields(p, CStr(ext), CStr(sid), CStr(progId), ft);
    SixParts(Lower(p, CStr(ext)), Lower(p, CStr(sid)), Lower(p, CStr(progId)),
             Hex(ft.high, HEX_WIDTH), Hex(ft.low, HEX_WIDTH), Lower(p, UserExperience()));
  }

  lemma WordsOfTicks(ft: FileTime, ticks: nat)
    requires ft.Ticks() == ticks
    ensures ft.high == ticks / 0x1_0000_0000 && ft.low == ticks % 0x1_0000_0000
  {}

  lemma LowerConcat(p: Platform, s: Wide, t: Wide)
    ensures Lower(p, s + t) == Lower(p, s) + Lower(p, t)
  {}

  lemma HexDigits()
    ensures forall d: nat :: d < 16 ==> HexDigit(d) == "0123456789abcdef"[d] as int
  {}

  lemma LoweredFields(p: Platform, x: Wide, y: Wide, z: Wide, ft: FileTime)
    requires p.Valid()
    ensures var (high, low) := (Hex(ft.high, HEX_WIDTH), Hex(ft.low, HEX_WIDTH));
      Lower(p, x + y + z + high + low + UserExperience()) ==
        Lower(p, x) + Lower(p, y) + Lower(p, z) + high + low + Lower(p, UserExperience())
  {
    var (high, low) := (Hex(ft.high, HEX_WIDTH), Hex(ft.low, HEX_WIDTH));
    LowerKeepsHex(p, ft.high, HEX_WIDTH);
    LowerKeepsHex(p, ft.low, HEX_WIDTH);
    hide Hex, Lower, UserExperience;
    LowerConcat(p, x, y);
    LowerConcat(p, x + y, z);
    LowerConcat(p, x + y + z, high);
    LowerConcat(p, x + y + z + high, low);
    LowerConcat(p, x + y + z + high + low, UserExperience());
  }

  lemma SixParts(x: Wide, y: Wide, z: Wide, high: Wide, low: Wide, end: Wide)
    requires |high| == 8 && |low| == 8
    ensures HasFields(x + y + z + high + low + end, x, y, z, high, low, end)
  {}

  // Equal strings carry the same two FILETIME words.
  lemma StringShowsTime(p: Platform, ext: Wide, sid: Wide, progId: Wide, f: FileTime, g: FileTime)
    requires p.Valid()
    requires Lower(p, RawUserChoice(ext, sid, progId, f)) == Lower(p, RawUserChoice(ext, sid, progId, g))
    ensures f == g
  {
    LoweredWords(p, ext, sid, progId, f);
    LoweredWords(p, ext, sid, progId, g);
    hide RawUserChoice, CStr, Hex;
    Pow2Of32();
    HexReadsBack(f.high, HEX_WIDTH);
    HexReadsBack(g.high, HEX_WIDTH);
    HexReadsBack(f.low, HEX_WIDTH);
    HexReadsBack(g.low, HEX_WIDTH);
  }

  // The string is a function of the minute, and shows the minute.
  lemma SameStringIffSameMinute(p: Platform, ext: Wide, sid: Wide, progId: Wide, st1: SystemTime, st2: SystemTime)
    requires p.Valid()
    ensures FormatUserChoiceString(p, ext, sid, progId, st1) == FormatUserChoiceString(p, ext, sid, progId, st2)
      <==> MinuteOf(st1) == MinuteOf(st2)
  {
    hide RawUserChoice, CStr, Lower;
    if MinuteOf(st1).Some? {
      FormattedText(p, ext, sid, progId, st1);
    }
    if MinuteOf(st2).Some? {
      FormattedText(p, ext, sid, progId, st2);
    }
    if MinuteOf(st1).Some? && MinuteOf(st2).Some? {
      var f := SystemTimeToFileTime(st1.(second := 0, millis := 0)).value;
      var g := SystemTimeToFileTime(st2.(second := 0, millis := 0)).value;
      if Lower(p, RawUserChoice(ext, sid, progId, f)) == Lower(p, RawUserChoice(ext, sid, progId, g)) {
        StringShowsTime(p, ext, sid, progId, f, g);
      }
    }
  }
}

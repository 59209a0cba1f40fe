// Feature switches on a command line, from app/brave_command_line_helper.cc.
module FeatureSwitches {
  import opened Common

  const ENABLE_FEATURES := "enable-features"
  const DISABLE_FEATURES := "disable-features"

  // ------------------------------------------------ names in a CSV value

  predicate IsWhitespace(c: char) {
    c == ' ' || '\t' <= c <= '\r'
  }

  // Tab, line feed, vertical tab, form feed, carriage return and space.
  lemma WhitespaceIs(c: char)
    ensures IsWhitespace(c) <==> (c as int) in {9, 10, 11, 12, 13, 32}
  {}

  function TrimLeft(s: string): (r: string)
    ensures |r| <= |s| && r == s[|s| - |r|..]
    ensures forall k :: 0 <= k < |s| - |r| ==> IsWhitespace(s[k])
    ensures r != "" ==> !IsWhitespace(r[0])
    ensures forall c :: c in r ==> c in s
  {
    if s != "" && IsWhitespace(s[0]) then TrimLeft(s[1..]) else s
  }

  function TrimRight(s: string): (r: string)
    ensures r <= s
    ensures forall k :: |r| <= k < |s| ==> IsWhitespace(s[k])
    ensures r != "" ==> !IsWhitespace(r[|r| - 1])
  {
    if s != "" && IsWhitespace(s[|s| - 1]) then TrimRight(s[..|s| - 1]) else s
  }

  function Trim(s: string): string {
    TrimRight(TrimLeft(s))
  }

  // base::SplitString with TRIM_WHITESPACE and SPLIT_WANT_NONEMPTY, as a set.
  function Names(value: string): set<string> {
    set piece | piece in Split(value, ',') && Trim(piece) != "" :: Trim(piece)
  }

  predicate IsStringASCII(s: string) {
    forall c :: c in s ==> (c as int) < 128
  }

  // A name that survives being printed and parsed.
  predicate WellFormed(name: string) {
    && name != "" && ',' !in name && IsStringASCII(name)
    && !IsWhitespace(name[0]) && !IsWhitespace(name[|name| - 1])
  }

  ghost predicate AllWellFormed(names: set<string>) {
    forall name :: name in names ==> WellFormed(name)
  }

  lemma TrimWellFormed(s: string)
    requires ',' !in s && IsStringASCII(s) && Trim(s) != ""
    ensures WellFormed(Trim(s))
  {
    var l := TrimLeft(s);
    var t := TrimRight(l);
    assert t[0] == l[0];
    assert forall c :: c in t ==> c in l;
  }

  lemma {:induction false} SplitKeepsCharacters(s: string, separator: char)
    ensures forall piece, c :: piece in Split(s, separator) && c in piece ==> c in s
  {
    if s != "" {
      SplitKeepsCharacters(s[1..], separator);
    }
  }

  lemma NamesWellFormed(value: string)
    requires IsStringASCII(value)
    ensures AllWellFormed(Names(value))
  {
    SplitKeepsCharacters(value, ',');
    forall piece | piece in Split(value, ',') && Trim(piece) != "" ensures WellFormed(Trim(piece)) {
      TrimWellFormed(piece);
    }
  }

  lemma {:induction false} SplitNothing(s: string, separator: char)
    requires separator !in s
    ensures Split(s, separator) == [s]
  {
    if s != "" {
      SplitNothing(s[1..], separator);
      assert s == [s[0]] + s[1..];
    }
  }

  lemma {:induction false} SplitAtSeparator(a: string, separator: char, b: string)
    ensures Split(a + [separator] + b, separator) == Split(a, separator) + Split(b, separator)
  {
    if a == "" {
      assert a + [separator] + b == [separator] + b;
    } else {
      assert (a + [separator] + b)[1..] == a[1..] + [separator] + b;
      SplitAtSeparator(a[1..], separator, b);
    }
  }

  // The names of a joined text are the names of its parts.
  lemma NamesOfJoin(a: string, b: string)
    ensures Names(a + "," + b) == Names(a) + Names(b)
  {
    SplitAtSeparator(a, ',', b);
  }

  lemma JoinIsASCII(a: string, b: string)
    ensures IsStringASCII(a + "," + b) <==> IsStringASCII(a) && IsStringASCII(b)
  {
    var s := a + "," + b;
    assert forall c :: c in a || c in b ==> c in s;
  }

  lemma NamesOfWellFormed(name: string)
    requires WellFormed(name)
    ensures Names(name) == {name}
  {
    SplitNothing(name, ',');
    assert Trim(name) == name;
    assert name in Split(name, ',');
  }

  lemma NamesOfEmpty()
    ensures Names("") == {}
  {
    assert forall piece :: piece in Split("", ',') ==> piece == "";
  }

  // The names that printing a set of names leaves on the command line.
  function NamesOf(values: set<string>): set<string> {
    set value, name | value in values && name in Names(value) :: name
  }

  ghost predicate AllASCII(values: set<string>) {
    forall value :: value in values ==> IsStringASCII(value)
  }

  // The names that are read back: a value outside ASCII is read as empty.
  ghost function ReadBack(values: set<string>): set<string> {
    if AllASCII(values) then NamesOf(values) else {}
  }

  lemma PrintedNames(values: set<string>)
    ensures AllWellFormed(ReadBack(values))
    ensures AllWellFormed(values) <==> ReadBack(values) == values
  {
    forall value | AllASCII(values) && value in values ensures AllWellFormed(Names(value)) {
      NamesWellFormed(value);
    }
    if AllWellFormed(values) {
      forall value | value in values ensures Names(value) == {value} {
        NamesOfWellFormed(value);
      }
      assert forall value :: value in values ==> value in Names(value);
    }
  }

  // -------------------------------------------------- the two sets

  datatype Features = Features(enabled: set<string>, disabled: set<string>)

  // The feature sets that a helper parses from a command line.
  function Parsed(switches: map<string, string>): Features {
    var disabled := Names(Value(switches, DISABLE_FEATURES));
    Features(Names(Value(switches, ENABLE_FEATURES)) - disabled, disabled)
  }

  // GetSwitchValueASCII: text outside ASCII is given up.
  function Value(switches: map<string, string>, key: string): (value: string)
    ensures IsStringASCII(value)
  {
    if key in switches then TextOf(switches[key]) else ""
  }

  function TextOf(value: string): (text: string)
    ensures IsStringASCII(text)
  {
    if IsStringASCII(value) then value else ""
  }

  // The two switches by name; a name in both counts as disabled.
  lemma ParsedOne(name: string)
    requires WellFormed(name)
    ensures Parsed(map["enable-features" := name]) == Features({name}, {})
    ensures Parsed(map["disable-features" := name]) == Features({}, {name})
    ensures Parsed(map["enable-features" := name, "disable-features" := name]) == Features({}, {name})
  {
    NamesOfWellFormed(name);
    NamesOfEmpty();
    hide Names;
    assert ENABLE_FEATURES != DISABLE_FEATURES by {
      assert ENABLE_FEATURES[0] != DISABLE_FEATURES[0];
    }
  }

  lemma NothingLeft(a: set<string>, b: set<string>)
    ensures a - b == {} <==> a <= b
  {
    assert a - b == {} ==> forall x :: x in a ==> x !in a - b;
  }

  class CommandLine {
    var switches: map<string, string>

    constructor (switches: map<string, string>)
      ensures this.switches == switches
    {
      this.switches := switches;
    }

    predicate HasSwitch(key: string)
      reads this
    {
      key in switches
    }

    // The latest value of a switch wins.
    method AppendSwitchASCII(key: string, value: string)
      modifies this
      ensures switches == old(switches)[key := value]
    {
      switches := switches[key := value];
    }
  }

  class BraveCommandLineHelper {
    const commandLine: CommandLine
    var enabledFeatures: set<string>
    var disabledFeatures: set<string>

    ghost function State(): Features
      reads this
    {
      Features(enabledFeatures, disabledFeatures)
    }

    // A new helper on the same command line would have the same two sets.
    ghost predicate InSync()
      reads this, commandLine
    {
      Parsed(commandLine.switches) == State()
    }

    ghost predicate Valid()
      reads this
    {
      enabledFeatures !! disabledFeatures
    }

    // The command line tells the helper's state exactly if every name in it
    // can be printed.
    ghost predicate Faithful()
      reads this, commandLine
    {
      InSync() <==> AllWellFormed(enabledFeatures + disabledFeatures)
    }

    constructor (commandLine: CommandLine)
      ensures this.commandLine == commandLine
      ensures Valid() && InSync() && Faithful()
    {
      this.commandLine := commandLine;
      enabledFeatures, disabledFeatures := {}, {};
      new;
      Parse();
      NamesWellFormed(Value(commandLine.switches, ENABLE_FEATURES));
      NamesWellFormed(Value(commandLine.switches, DISABLE_FEATURES));
    }

    method Parse()
      requires enabledFeatures == disabledFeatures == {}
      modifies this
      ensures State() == Parsed(commandLine.switches)
    {
      hide Names, Value;
      enabledFeatures := ParseCSV(Value(commandLine.switches, ENABLE_FEATURES), enabledFeatures);
      disabledFeatures := ParseCSV(Value(commandLine.switches, DISABLE_FEATURES), disabledFeatures);
      NamesOfEmpty();
      ghost var parsed := enabledFeatures;
      var unvisited := enabledFeatures;
      while unvisited != {}
        invariant unvisited <= enabledFeatures
        invariant disabledFeatures == Names(Value(commandLine.switches, DISABLE_FEATURES))
        invariant enabledFeatures == parsed - (disabledFeatures - unvisited)
      {
        var it :| it in unvisited;
        if it in disabledFeatures {
          enabledFeatures := enabledFeatures - {it};
        }
        unvisited := unvisited - {it};
      }
    }

    static function ParseCSV(value: string, dest: set<string>): set<string> {
      if value == "" then dest else dest + Names(value)
    }

    method AppendSwitch(key: string)
      modifies commandLine
      ensures commandLine.switches == if key in old(commandLine.switches) then old(commandLine.switches)
                                      else old(commandLine.switches)[key := ""]
      ensures InSync() <==> old(InSync())
    {
      if !commandLine.HasSwitch(key) {
        commandLine.AppendSwitchASCII(key, "");
      }
    }

    // Unlike AppendSwitch this can set one of the two feature switches behind
    // the helper's back.
    method AppendSwitchASCII(key: string, value: string)
      modifies commandLine
      ensures commandLine.switches == if key in old(commandLine.switches) then old(commandLine.switches)
                                      else old(commandLine.switches)[key := value]
      ensures old(InSync()) ==> (InSync() <==>
        || key in old(commandLine.switches)
        || ((key == ENABLE_FEATURES ==> Names(TextOf(value)) <= disabledFeatures) &&
            (key == DISABLE_FEATURES ==> Names(TextOf(value)) == {})))
    {
      NamesOfEmpty();
      if !commandLine.HasSwitch(key) {
        commandLine.AppendSwitchASCII(key, value);
        NothingLeft(Names(TextOf(value)), disabledFeatures);
      }
    }

    method AppendFeatures(enabled: set<string>, disabled: set<string>)
      requires Valid()
      modifies this, commandLine
      ensures Valid()
      ensures State() == Step(old(State()), Call(enabled, disabled))
      // Printing both sets repairs a command line that was out of step.
      ensures old(Faithful()) || (enabledFeatures != {} && disabledFeatures != {}) ==> Faithful()
      ensures commandLine.switches - {ENABLE_FEATURES, DISABLE_FEATURES} ==
        old(commandLine.switches) - {ENABLE_FEATURES, DISABLE_FEATURES}
    {
      hide Names, ReadBack, WellFormed;
      var unvisited := disabled;
      while unvisited != {}
        invariant unvisited <= disabled
        invariant enabledFeatures == old(enabledFeatures)
        invariant disabledFeatures == old(disabledFeatures) + (disabled - unvisited - enabledFeatures)
        invariant commandLine.switches == old(commandLine.switches)
      {
        var it :| it in unvisited;
        if it !in enabledFeatures {
          disabledFeatures := disabledFeatures + {it};
        }
        unvisited := unvisited - {it};
      }
      unvisited := enabled;
      while unvisited != {}
        invariant unvisited <= enabled
        invariant disabledFeatures == Step(old(State()), Call(enabled, disabled)).disabled
        invariant enabledFeatures == old(enabledFeatures) + (enabled - unvisited - disabledFeatures)
        invariant commandLine.switches == old(commandLine.switches)
      {
        var it :| it in unvisited;
        if it !in disabledFeatures {
          enabledFeatures := enabledFeatures + {it};
        }
        unvisited := unvisited - {it};
      }
      if enabledFeatures != {} {
        AppendCSV(ENABLE_FEATURES, enabledFeatures);
      }
      if disabledFeatures != {} {
        AppendCSV(DISABLE_FEATURES, disabledFeatures);
      }
      ghost var before, after := old(commandLine.switches), commandLine.switches;
      NamesWellFormed(Value(after, ENABLE_FEATURES));
      NamesWellFormed(Value(after, DISABLE_FEATURES));
      if old(Faithful()) || (enabledFeatures != {} && disabledFeatures != {}) {
        PrintedSwitches(
          Names(Value(before, ENABLE_FEATURES)), Names(Value(before, DISABLE_FEATURES)),
          Names(Value(after, ENABLE_FEATURES)), Names(Value(after, DISABLE_FEATURES)), old(State()), State());
      }
    }

    method AppendCSV(key: string, values: set<string>)
      modifies commandLine
      ensures key in commandLine.switches && Names(Value(commandLine.switches, key)) == ReadBack(values)
      ensures commandLine.switches == old(commandLine.switches)[key := commandLine.switches[key]]
    {
      var ss := "";
      var first := true;
      var unvisited := values;
      NamesOfEmpty();
      while unvisited != {}
        invariant unvisited <= values
        invariant first ==> unvisited == values && ss == ""
        invariant Names(ss) == NamesOf(values - unvisited)
        invariant IsStringASCII(ss) <==> AllASCII(values - unvisited)
        invariant commandLine.switches == old(commandLine.switches)
      {
        var it :| it in unvisited;
        ghost var before := ss;
        if !first {
          ss := ss + ",";
        }
        ss := ss + it;
        NamesOfJoin(before, it);
        JoinIsASCII(before, it);
        assert first ==> ss == it;
        assert values - (unvisited - {it}) == (values - unvisited) + {it};
        first := false;
        unvisited := unvisited - {it};
      }
      assert values - unvisited == values;
      commandLine.AppendSwitchASCII(key, ss);
    }
  }

  // The invariant of BraveCommandLineHelper over one AppendFeatures call; here
  // e and d are the names in the two switches before, e' and d' those after.
  lemma PrintedSwitches(e: set<string>, d: set<string>, e': set<string>, d': set<string>, f: Features, f': Features)
    requires f'.enabled !! f'.disabled && f.enabled <= f'.enabled && f.disabled <= f'.disabled
    requires AllWellFormed(e') && AllWellFormed(d')
    requires f'.enabled == {} || f'.disabled == {} ==> AllWellFormed(f.enabled + f.disabled) ==> Features(e - d, d) == f
    requires if f'.enabled == {} then e' == e else e' == ReadBack(f'.enabled)
    requires if f'.disabled == {} then d' == d else d' == ReadBack(f'.disabled)
    ensures Features(e' - d', d') == f' <==> AllWellFormed(f'.enabled + f'.disabled)
  {
    hide ReadBack, Names, WellFormed;
    if AllWellFormed(f'.enabled + f'.disabled) {
      PrintedNames(f'.enabled);
      PrintedNames(f'.disabled);
      assert AllWellFormed(f.enabled + f.disabled);
      assert d' == f'.disabled;
      assert e' - d' == f'.enabled;
    }
  }

  // ------------------------------------------------------- whole runs

  datatype Call = Call(enabled: set<string>, disabled: set<string>)

  // One AppendFeatures call on the two sets.
  function Step(f: Features, c: Call): Features {
    var disabled := f.disabled + (c.disabled - f.enabled);
    Features(f.enabled + (c.enabled - disabled), disabled)
  }

  function Run(f: Features, calls: seq<Call>): Features
    decreases |calls|
  {
    if calls == [] then f else Run(Step(f, calls[0]), calls[1..])
  }

  datatype Verdict = Unmentioned | Enabled | Disabled

  // What the first mention of a name says: the user's switches come before all
  // calls, and disabling comes first where one mention does both.
  function FirstMention(user: Features, calls: seq<Call>, name: string): Verdict
    decreases |calls|
  {
    if name in user.disabled then Disabled
    else if name in user.enabled then Enabled
    else if calls == [] then Unmentioned
    else FirstMention(Features(calls[0].enabled, calls[0].disabled), calls[1..], name)
  }

  lemma {:induction false} FirstMentionWins(user: Features, calls: seq<Call>, name: string)
    requires user.enabled !! user.disabled
    ensures name in Run(user, calls).enabled <==> FirstMention(user, calls, name) == Enabled
    ensures name in Run(user, calls).disabled <==> FirstMention(user, calls, name) == Disabled
    decreases |calls|
  {
    if calls != [] {
      var next := Step(user, calls[0]);
      FirstMentionWins(next, calls[1..], name);
      if name !in user.enabled + user.disabled + calls[0].enabled + calls[0].disabled && |calls| > 1 {
        assert FirstMention(next, calls[1..], name) == FirstMention(user, calls, name);
      }
    }
  }

  // A helper that has made any number of calls, and a new helper on the command
  // line it leaves, have the same two sets if all names can be printed, and
  // only then.
  method AppendAllAndParseAgain(commandLine: CommandLine, calls: seq<Call>)
    returns (helper: BraveCommandLineHelper, again: BraveCommandLineHelper)
    modifies commandLine
    ensures helper.commandLine == commandLine == again.commandLine
    ensures helper.State() == Run(Parsed(old(commandLine.switches)), calls)
    ensures again.State() == helper.State() <==> AllWellFormed(helper.enabledFeatures + helper.disabledFeatures)
  {
    helper := new BraveCommandLineHelper(commandLine);
    ghost var user := helper.State();
    for i := 0 to |calls|
      invariant helper.commandLine == commandLine && fresh(helper)
      invariant helper.Valid() && helper.Faithful()
      invariant Run(helper.State(), calls[i..]) == Run(user, calls)
    {
      helper.AppendFeatures(calls[i].enabled, calls[i].disabled);
      assert calls[i..][1..] == calls[i + 1..];
    }
    again := new BraveCommandLineHelper(commandLine);
  }
}

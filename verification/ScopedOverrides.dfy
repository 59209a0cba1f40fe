// Scoped overrides of names, from script/override_utils.py.
//
// The bodies of the `with` blocks are programs over the scope: they write and
// delete names, raise, catch, and open further blocks, to any depth.
module ScopedOverrides {
  import opened Common

  // A Python object, as far as the helpers look at it; bool(x) of a callable
  // can be false. A wrapper calls the replacement with the original.
  datatype Value =
    | Object(id: nat, isCallable: bool, isTruthy: bool)
    | Wrapper(replacement: Value, original: Value)
  {
    predicate Callable() { Wrapper? || isCallable }

    predicate Truthy() { Wrapper? || isTruthy }
  }

  type Attributes = map<string, Value>

  datatype Program =
    | Skip
    | Write(name: string, value: Value)
    | Delete(name: string)
    | Raise
    | Then(first: Program, second: Program)
    | Catch(body: Program)                         // try: body except: pass
    | Decorate(name: string, replacement: Value, condition: bool)            // override_function
    | WithFunction(name: string, replacement: Value, condition: bool, body: Program)
    | WithVariable(name: string, value: Value, failIfNotFound: bool, condition: bool, body: Program)

  // The scope's own attributes, whether an exception is on its way out, and the
  // names the bodies wrote (Some) or deleted (None) themselves, in order.
  datatype State = State(own: Attributes, raised: bool, writes: seq<(string, Option<Value>)>)

  // getattr: own attributes hide inherited ones.
  function Lookup(own: Attributes, inherited: Attributes, name: string): Option<Value> {
    if name in own then Some(own[name])
    else if name in inherited then Some(inherited[name])
    else None
  }

  predicate IsCallable(found: Option<Value>) {
    found.Some? && found.value.Callable()
  }

  // `if original_function:` where a missing name reads as None
  predicate IsTruthy(found: Option<Value>) {
    found.Some? && found.value.Truthy()
  }

  function Exec(p: Program, inherited: Attributes, s: State): State
    requires !s.raised
  {
    match p
    case Skip => s
    case Write(name, value) =>
      s.(own := s.own[name := value], writes := s.writes + [(name, Some(value))])
    case Delete(name) =>
      if name in s.own then s.(own := s.own - {name}, writes := s.writes + [(name, None)])
      else s.(raised := true)
    case Raise => s.(raised := true)
    case Then(first, second) =>
      var s' := Exec(first, inherited, s);
      if s'.raised then s' else Exec(second, inherited, s')
    case Catch(body) => Exec(body, inherited, s).(raised := false)
    case Decorate(name, replacement, condition) =>
      var original := Lookup(s.own, inherited, name);
      if !IsCallable(original) then s.(raised := true)
      else
        var value := if condition then Wrapper(replacement, original.value) else original.value;
        s.(own := s.own[name := value], writes := s.writes + [(name, Some(value))])
    case WithFunction(name, replacement, condition, body) =>
      if !condition then Exec(body, inherited, s)
      else
        var original := Lookup(s.own, inherited, name);
        var s' := if !IsCallable(original) then s.(raised := true)
                  else Exec(body, inherited, s.(own := s.own[name := Wrapper(replacement, original.value)]));
        if IsTruthy(original) then s'.(own := s'.own[name := original.value]) else s'
    case WithVariable(name, value, failIfNotFound, condition, body) =>
      if !condition then Exec(body, inherited, s)
      else
        var original := Lookup(s.own, inherited, name);
        if failIfNotFound && original.None? then s.(raised := true)
        else
          var s' := Exec(body, inherited, s.(own := s.own[name := value]));
          if original.Some? then s'.(own := s'.own[name := original.value])
          else if name in s'.own then s'.(own := s'.own - {name})
          else s'.(raised := true)
  }

  // ----------------------------------------------- what a block's body sees

  // Of a name that is missing or not callable no function can be overridden: the
  // body never runs, and every name reads as before.
  lemma FunctionBlockRaises(name: string, replacement: Value, body: Program, inherited: Attributes, s: State)
    requires !s.raised && !IsCallable(Lookup(s.own, inherited, name))
    ensures
      var after := Exec(WithFunction(name, replacement, true, body), inherited, s);
      && after.raised && after.writes == s.writes
      && forall other :: Lookup(after.own, inherited, other) == Lookup(s.own, inherited, other)
    ensures Exec(Decorate(name, replacement, false), inherited, s) == s.(raised := true)
    ensures Exec(Decorate(name, replacement, true), inherited, s) == s.(raised := true)
  {}

  // An override without a block stays; switched off, it writes what was read.
  lemma OverriddenFunction(name: string, replacement: Value, condition: bool, inherited: Attributes, s: State)
    requires !s.raised && IsCallable(Lookup(s.own, inherited, name))
    ensures
      var original := Lookup(s.own, inherited, name).value;
      var after := Exec(Decorate(name, replacement, condition), inherited, s);
      && !after.raised && name in after.own
      && (condition ==> after.own[name] == Wrapper(replacement, original))
      && (!condition ==> after.own[name] == original)
      && forall other :: other != name ==> SameAt(after.own, s.own, other)
  {}

  lemma VariableBlockRaises(name: string, value: Value, body: Program, inherited: Attributes, s: State)
    requires !s.raised && name !in s.own && name !in inherited
    ensures Exec(WithVariable(name, value, true, true, body), inherited, s) == s.(raised := true)
  {}

  // Otherwise the body runs with the name overridden: the block raises, writes
  // and leaves every other name as the body does.
  lemma FunctionBodySees(name: string, replacement: Value, body: Program, inherited: Attributes, s: State)
    requires !s.raised && IsCallable(Lookup(s.own, inherited, name))
    ensures
      var original := Lookup(s.own, inherited, name).value;
      var inside := Exec(body, inherited, s.(own := s.own[name := Wrapper(replacement, original)]));
      var after := Exec(WithFunction(name, replacement, true, body), inherited, s);
      && after.raised == inside.raised && after.writes == inside.writes
      && forall other :: other != name ==> SameAt(after.own, inside.own, other)
    ensures Exec(WithFunction(name, replacement, false, body), inherited, s) == Exec(body, inherited, s)
  {}

  // A variable that was missing has to be there still when the block is left.
  lemma VariableBodySees(
    name: string, value: Value, failIfNotFound: bool, body: Program, inherited: Attributes, s: State)
    requires !s.raised && (failIfNotFound ==> name in s.own || name in inherited)
    ensures
      var inside := Exec(body, inherited, s.(own := s.own[name := value]));
      var after := Exec(WithVariable(name, value, failIfNotFound, true, body), inherited, s);
      && after.raised == (inside.raised || (name !in s.own && name !in inherited && name !in inside.own))
      && after.writes == inside.writes
      && forall other :: other != name ==> SameAt(after.own, inside.own, other)
    ensures Exec(WithVariable(name, value, failIfNotFound, false, body), inherited, s) == Exec(body, inherited, s)
  {}

  // ------------------------------------------------------ what is restored

  // Names that a program writes outside all brackets for that name.
  function Touches(p: Program): set<string> {
    match p
    case Skip => {}
    case Write(name, _) => {name}
    case Delete(name) => {name}
    case Raise => {}
    case Then(first, second) => Touches(first) + Touches(second)
    case Catch(body) => Touches(body)
    case Decorate(name, _, _) => {name}
    case WithFunction(name, _, condition, body) => if condition then Touches(body) - {name} else Touches(body)
    case WithVariable(name, _, _, condition, body) => if condition then Touches(body) - {name} else Touches(body)
  }

  // override_scope_function does not put back a callable that is falsy.
  predicate Restorable(found: Option<Value>) {
    IsCallable(found) ==> IsTruthy(found)
  }

  // The name reads as before; and unless a class supplies it, it is an own
  // attribute exactly if it was one.
  ghost predicate Restored(inherited: Attributes, before: Attributes, after: Attributes, name: string) {
    && Lookup(after, inherited, name) == Lookup(before, inherited, name)
    && (name !in inherited ==> (name in after <==> name in before))
  }

  // Whatever the bodies do and wherever they raise, a name they do not touch
  // outside its brackets is as it was. Only the name's own value matters.
  lemma {:induction false} OverridesAreUndone(p: Program, inherited: Attributes, s: State, name: string)
    requires !s.raised && name !in Touches(p) && Restorable(Lookup(s.own, inherited, name))
    ensures Restored(inherited, s.own, Exec(p, inherited, s).own, name)
  {
    match p
    case Then(first, second) =>
      OverridesAreUndone(first, inherited, s, name);
      var s' := Exec(first, inherited, s);
      if !s'.raised {
        OverridesAreUndone(second, inherited, s', name);
      }
    case Catch(body) => OverridesAreUndone(body, inherited, s, name);
    case WithFunction(other, replacement, condition, body) =>
      if !condition {
        OverridesAreUndone(body, inherited, s, name);
      } else if IsCallable(Lookup(s.own, inherited, other)) && other != name {
        var inner := s.(own := s.own[other := Wrapper(replacement, Lookup(s.own, inherited, other).value)]);
        OverridesAreUndone(body, inherited, inner, name);
      }
    case WithVariable(other, value, failIfNotFound, condition, body) =>
      if !condition {
        OverridesAreUndone(body, inherited, s, name);
      } else if !(failIfNotFound && Lookup(s.own, inherited, other).None?) && other != name {
        OverridesAreUndone(body, inherited, s.(own := s.own[other := value]), name);
      }
    case _ =>
  }

  // The run gets to restoring the name: it leaves a bracket for it that has an
  // original to put back.
  predicate PutsBack(p: Program, inherited: Attributes, s: State, name: string)
    requires !s.raised
  {
    match p
    case Then(first, second) =>
      var s' := Exec(first, inherited, s);
      PutsBack(first, inherited, s, name) || (!s'.raised && PutsBack(second, inherited, s', name))
    case Catch(body) => PutsBack(body, inherited, s, name)
    case WithFunction(other, replacement, condition, body) =>
      var original := Lookup(s.own, inherited, other);
      if !condition then PutsBack(body, inherited, s, name)
      else if other == name then IsTruthy(original)
      else IsCallable(original) &&
           PutsBack(body, inherited, s.(own := s.own[other := Wrapper(replacement, original.value)]), name)
    case WithVariable(other, value, failIfNotFound, condition, body) =>
      var original := Lookup(s.own, inherited, other);
      if !condition then PutsBack(body, inherited, s, name)
      else if other == name then original.Some?
      else !(failIfNotFound && original.None?) &&
           PutsBack(body, inherited, s.(own := s.own[other := value]), name)
    case _ => false
  }

  // What restoring leaves behind: an inherited name becomes an own attribute
  // exactly if the run put its value back at least once.
  lemma {:induction false} InheritedBecomesOwn(p: Program, inherited: Attributes, s: State, name: string)
    requires !s.raised && name !in Touches(p) && Restorable(Lookup(s.own, inherited, name))
    requires name in inherited
    ensures name in Exec(p, inherited, s).own <==> name in s.own || PutsBack(p, inherited, s, name)
  {
    match p
    case Then(first, second) =>
      InheritedBecomesOwn(first, inherited, s, name);
      OverridesAreUndone(first, inherited, s, name);
      var s' := Exec(first, inherited, s);
      if !s'.raised {
        InheritedBecomesOwn(second, inherited, s', name);
      }
    case Catch(body) => InheritedBecomesOwn(body, inherited, s, name);
    case WithFunction(other, replacement, condition, body) =>
      if !condition {
        InheritedBecomesOwn(body, inherited, s, name);
      } else if IsCallable(Lookup(s.own, inherited, other)) && other != name {
        var inner := s.(own := s.own[other := Wrapper(replacement, Lookup(s.own, inherited, other).value)]);
        InheritedBecomesOwn(body, inherited, inner, name);
      }
    case WithVariable(other, value, failIfNotFound, condition, body) =>
      if !condition {
        InheritedBecomesOwn(body, inherited, s, name);
      } else if !(failIfNotFound && Lookup(s.own, inherited, other).None?) && other != name {
        InheritedBecomesOwn(body, inherited, s.(own := s.own[other := value]), name);
      }
    case _ =>
  }

  // The one exception: a block around a body that leaves the name alone puts a
  // callable back, its own or inherited, if and only if it is truthy.
  lemma FunctionRestoredIff(name: string, replacement: Value, body: Program, inherited: Attributes, s: State)
    requires !s.raised && IsCallable(Lookup(s.own, inherited, name)) && name !in Touches(body)
    ensures
      var after := Exec(WithFunction(name, replacement, true, body), inherited, s).own;
      Restored(inherited, s.own, after, name) <==> IsTruthy(Lookup(s.own, inherited, name))
  {
    var original := Lookup(s.own, inherited, name).value;
    OverridesAreUndone(body, inherited, s.(own := s.own[name := Wrapper(replacement, original)]), name);
  }

  // A falsy callable is not put back, even around an empty body.
  lemma FalsyCallableIsLost(replacement: Value)
    ensures
      var falsy := Object(1, true, false);
      var start := State(map["f" := falsy], false, []);
      var after := Exec(WithFunction("f", replacement, true, Skip), map[], start);
      !after.raised && after.own == map["f" := Wrapper(replacement, falsy)]
  {}

  // --------------------------------------------------- what is kept

  // Names for which the program opens a bracket.
  function Overrides(p: Program): set<string> {
    match p
    case Then(first, second) => Overrides(first) + Overrides(second)
    case Catch(body) => Overrides(body)
    case WithFunction(name, _, condition, body) => Overrides(body) + if condition then {name} else {}
    case WithVariable(name, _, _, condition, body) => Overrides(body) + if condition then {name} else {}
    case _ => {}
  }

  // The attributes after writing and deleting by hand.
  function Replay(own: Attributes, writes: seq<(string, Option<Value>)>): Attributes {
    if writes == [] then own
    else
      var before := Replay(own, writes[..|writes| - 1]);
      var (name, value) := writes[|writes| - 1];
      match value
      case Some(v) => before[name := v]
      case None => before - {name}
  }

  ghost predicate SameAt(a: Attributes, b: Attributes, name: string) {
    (name in a <==> name in b) && (name in a ==> a[name] == b[name])
  }

  lemma ReplayAppended(own: Attributes, writes: seq<(string, Option<Value>)>, name: string, value: Option<Value>)
    ensures Replay(own, writes + [(name, value)]) ==
      if value.Some? then Replay(own, writes)[name := value.value] else Replay(own, writes) - {name}
  {
    assert (writes + [(name, value)])[..|writes|] == writes;
  }

  // Names that are never overridden are as the bodies left them: as if the
  // bodies' own writes, up to where they raised, were all there is.
  lemma {:induction false} OtherNamesAreKept(
    p: Program, inherited: Attributes, s: State, start: Attributes, name: string)
    requires !s.raised && name !in Overrides(p)
    requires SameAt(s.own, Replay(start, s.writes), name)
    ensures SameAt(Exec(p, inherited, s).own, Replay(start, Exec(p, inherited, s).writes), name)
  {
    hide Replay;
    match p
    case Then(first, second) =>
      OtherNamesAreKept(first, inherited, s, start, name);
      var s' := Exec(first, inherited, s);
      if !s'.raised {
        OtherNamesAreKept(second, inherited, s', start, name);
      }
    case Catch(body) => OtherNamesAreKept(body, inherited, s, start, name);
    case WithFunction(other, replacement, condition, body) =>
      if !condition {
        OtherNamesAreKept(body, inherited, s, start, name);
      } else if IsCallable(Lookup(s.own, inherited, other)) {
        var inner := s.(own := s.own[other := Wrapper(replacement, Lookup(s.own, inherited, other).value)]);
        OtherNamesAreKept(body, inherited, inner, start, name);
      }
    case WithVariable(other, value, failIfNotFound, condition, body) =>
      if !condition {
        OtherNamesAreKept(body, inherited, s, start, name);
      } else if !(failIfNotFound && Lookup(s.own, inherited, other).None?) {
        OtherNamesAreKept(body, inherited, s.(own := s.own[other := value]), start, name);
      }
    case Write(other, value) => ReplayAppended(start, s.writes, other, Some(value));
    case Delete(other) => ReplayAppended(start, s.writes, other, None);
    case Decorate(other, replacement, condition) =>
      var original := Lookup(s.own, inherited, other);
      if IsCallable(original) {
        var value := if condition then Wrapper(replacement, original.value) else original.value;
        ReplayAppended(start, s.writes, other, Some(value));
      }
    case _ =>
  }

  // ------------------------------------------------------------ the class

  class Scope {
    const inherited: Attributes
    var own: Attributes
    ghost var writes: seq<(string, Option<Value>)>

    ghost function Now(raised: bool): State
      reads this
    {
      State(own, raised, writes)
    }

    constructor (inherited: Attributes, own: Attributes)
      ensures this.inherited == inherited && this.own == own && writes == []
    {
      this.inherited, this.own, writes := inherited, own, [];
    }

    // Runs a program and says whether it raised.
    method Run(p: Program) returns (raised: bool)
      modifies this
      ensures Now(raised) == Exec(p, inherited, old(Now(false)))
      decreases p, 1
    {
      raised := false;
      match p
      case Skip =>
      case Write(name, value) => SetByBody(name, value);
      case Delete(name) =>
        if name in own {
          own := own - {name};
          writes := writes + [(name, None)];
        } else {
          raised := true;
        }
      case Raise => raised := true;
      case Then(first, second) =>
        raised := Run(first);
        if !raised {
          raised := Run(second);
        }
      case Catch(body) =>
        var _ := Run(body);
      case Decorate(name, replacement, condition) =>
        var original := Lookup(own, inherited, name);
        if !IsCallable(original) {
          raised := true;
        } else {
          SetByBody(name, if condition then Wrapper(replacement, original.value) else original.value);
        }
      case WithFunction(name, replacement, condition, body) =>
        raised := OverrideScopeFunction(name, replacement, condition, body);
      case WithVariable(name, value, failIfNotFound, condition, body) =>
        raised := OverrideScopeVariable(name, value, failIfNotFound, condition, body);
    }

    method SetByBody(name: string, value: Value)
      modifies this
      ensures own == old(own)[name := value] && writes == old(writes) + [(name, Some(value))]
    {
      own := own[name := value];
      writes := writes + [(name, Some(value))];
    }

    method OverrideScopeFunction(name: string, replacement: Value, condition: bool, body: Program)
      returns (raised: bool)
      modifies this
      ensures Now(raised) == Exec(WithFunction(name, replacement, condition, body), inherited, old(Now(false)))
      decreases body, 2
    {
      if !condition {
        raised := Run(body);
        return;
      }
      var original := Lookup(own, inherited, name);
      if !IsCallable(original) {
        raised := true;
      } else {
        own := own[name := Wrapper(replacement, original.value)];
        raised := Run(body);
      }
      if IsTruthy(original) {   // finally
        own := own[name := original.value];
      }
    }

    method OverrideScopeVariable(name: string, value: Value, failIfNotFound: bool, condition: bool, body: Program)
      returns (raised: bool)
      modifies this
      ensures Now(raised) ==
        Exec(WithVariable(name, value, failIfNotFound, condition, body), inherited, old(Now(false)))
      decreases body, 2
    {
      if !condition {
        raised := Run(body);
        return;
      }
      var original := Lookup(own, inherited, name);
      if failIfNotFound && original.None? {
        return true;
      }
      own := own[name := value];
      raised := Run(body);
      if original.Some? {       // finally
        own := own[name := original.value];
      } else if name in own {
        own := own - {name};
      } else {
        raised := true;
      }
    }
  }
}

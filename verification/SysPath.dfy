// Temporary entries of sys.path, from script/import_inline.py.
module SysPath {
  import opened Common

  datatype Program =
    | Skip
    | Append(entry: string)
    | Remove(entry: string)       // raises if the entry is missing
    | Raise
    | Then(first: Program, second: Program)
    | Catch(body: Program)        // try: body except: pass
    | WithPath(path: string, position: Option<int>, body: Program)

  // The list, whether an exception is on its way out, and the entries that the
  // bodies appended themselves, in order.
  datatype State = State(path: seq<string>, raised: bool, appended: seq<string>)

  // Where list.insert puts an entry: a negative position counts from the end,
  // and both kinds are clamped.
  function InsertionPoint(length: nat, position: int): (at: nat)
    ensures at <= length
  {
    var from := if position < 0 then position + length else position;
    if from < 0 then 0 else if from > length then length else from
  }

  function Insert(s: seq<string>, position: int, entry: string): (r: seq<string>)
    ensures |r| == |s| + 1
  {
    var at := InsertionPoint(|s|, position);
    s[..at] + [entry] + s[at..]
  }

  // Where an entry lands: at the position, or that far from the end, or at
  // whichever end lies beyond.
  lemma InsertPlaces(s: seq<string>, position: int, entry: string)
    ensures
      var r := Insert(s, position, entry);
      if position > |s| then r == s + [entry]
      else if position >= 0 then r == s[..position] + [entry] + s[position..]
      else if position >= -|s| then r == s[..|s| + position] + [entry] + s[|s| + position..]
      else r == [entry] + s
  {}

  // list.remove
  function RemoveFirst(s: seq<string>, entry: string): seq<string> {
    if s == [] then []
    else if s[0] == entry then s[1..]
    else [s[0]] + RemoveFirst(s[1..], entry)
  }

  function Enter(s: seq<string>, path: string, position: Option<int>): seq<string> {
    if position.None? then s + [path] else Insert(s, position.value, path)
  }

  // Where a block puts its path.
  function EntryPoint(s: seq<string>, position: Option<int>): (at: nat)
    ensures at <= |s|
  {
    if position.None? then |s| else InsertionPoint(|s|, position.value)
  }

  // The finally clause for a path that was not there before; sys.path[-1] and
  // remove raise if there is nothing to find.
  function Leave(s: State, path: string): State {
    if s.path == [] then s.(raised := true)
    else if s.path[|s.path| - 1] == path then s.(path := s.path[..|s.path| - 1])
    else if path !in s.path then s.(raised := true)
    else s.(path := RemoveFirst(s.path, path))
  }

  function Exec(p: Program, s: State): State
    requires !s.raised
  {
    match p
    case Skip => s
    case Append(entry) => s.(path := s.path + [entry], appended := s.appended + [entry])
    case Remove(entry) => if entry in s.path then s.(path := RemoveFirst(s.path, entry)) else s.(raised := true)
    case Raise => s.(raised := true)
    case Then(first, second) =>
      var s' := Exec(first, s);
      if s'.raised then s' else Exec(second, s')
    case Catch(body) => Exec(body, s).(raised := false)
    case WithPath(path, position, body) =>
      if path in s.path then Exec(body, s)
      else Leave(Exec(body, s.(path := Enter(s.path, path, position))), path)
  }

  // The paths of all blocks.
  function Managed(p: Program): set<string> {
    match p
    case Then(first, second) => Managed(first) + Managed(second)
    case Catch(body) => Managed(body)
    case WithPath(path, _, body) => {path} + Managed(body)
    case _ => {}
  }

  // The program without its blocks: what the bodies do by themselves.
  function Bare(p: Program): Program {
    match p
    case Then(first, second) => Then(Bare(first), Bare(second))
    case Catch(body) => Catch(Bare(body))
    case WithPath(_, _, body) => Bare(body)
    case _ => p
  }

  // The entries that the bodies append or remove.
  function Mentions(p: Program): set<string> {
    match p
    case Append(entry) => {entry}
    case Remove(entry) => {entry}
    case Then(first, second) => Mentions(first) + Mentions(second)
    case Catch(body) => Mentions(body)
    case WithPath(_, _, body) => Mentions(body)
    case _ => {}
  }

  lemma {:induction false} RemoveFirstAt(before: seq<string>, entry: string, after: seq<string>)
    requires entry !in before
    ensures RemoveFirst(before + [entry] + after, entry) == before + after
  {
    if before == [] {
      assert before + [entry] + after == [entry] + after;
      assert before + after == after;
    } else {
      var s := before + [entry] + after;
      assert s[1..] == before[1..] + [entry] + after;
      RemoveFirstAt(before[1..], entry, after);
      assert s[0] == before[0];
      assert [before[0]] + (before[1..] + after) == before + after;
    }
  }

  lemma LeaveRemoves(s: State, head: seq<string>, path: string, tail: seq<string>)
    requires path !in head && path !in tail && s.path == head + [path] + tail
    ensures Leave(s, path) == s.(path := head + tail)
  {
    assert s.path[|head|] == path;
    if tail == [] {
      assert s.path[..|s.path| - 1] == head + tail;
    } else {
      assert s.path[|s.path| - 1] == tail[|tail| - 1];
      RemoveFirstAt(head, path, tail);
    }
  }

  // Leaving a block fails exactly if its path is gone.
  lemma LeaveRaisesIff(s: State, path: string)
    requires !s.raised
    ensures Leave(s, path).raised <==> path !in s.path
    ensures path !in s.path ==> Leave(s, path).path == s.path
  {}

  // Leaving undoes entering, wherever the path went, and keeps what came after.
  lemma LeaveUndoesEnter(list: seq<string>, path: string, position: Option<int>, added: seq<string>, s: State)
    requires path !in list && path !in added
    requires s.path == Enter(list, path, position) + added
    ensures Leave(s, path) == s.(path := list + added)
  {
    var head, tail := EnterSplits(list, path, position);
    hide Leave, Enter;
    assert s.path == head + [path] + (tail + added);
    assert head + (tail + added) == list + added;
    LeaveRemoves(s, head, path, tail + added);
  }

  // ------------------------------------- an extra copy in the list

  // An entry that is in the list splits it at its first place.
  lemma {:induction false} SplitFirst(s: seq<string>, entry: string) returns (head: seq<string>, tail: seq<string>)
    requires entry in s
    ensures s == head + [entry] + tail && entry !in head
  {
    if s[0] == entry {
      head, tail := [], s[1..];
    } else {
      head, tail := SplitFirst(s[1..], entry);
      head := [s[0]] + head;
    }
  }

  lemma EnterSplits(full: seq<string>, path: string, position: Option<int>)
    returns (head: seq<string>, tail: seq<string>)
    ensures full == head + tail && Enter(full, path, position) == head + [path] + tail
    ensures |head| == EntryPoint(full, position)
  {
    var at := EntryPoint(full, position);
    head, tail := full[..at], full[at..];
  }

  // In the bare run, every removal of the path finds one.
  predicate Finds(p: Program, s: State, path: string)
    requires !s.raised
  {
    match p
    case Remove(entry) => entry == path ==> path in s.path
    case Then(first, second) =>
      Finds(first, s, path) && (!Exec(Bare(first), s).raised ==> Finds(second, Exec(Bare(first), s), path))
    case Catch(body) => Finds(body, s, path)
    case WithPath(_, _, body) => Finds(body, s, path)
    case _ => true
  }

  lemma RemoveFirstAppended(s: seq<string>, entry: string, last: string)
    requires entry in s
    ensures RemoveFirst(s + [last], entry) == RemoveFirst(s, entry) + [last]
  {
    var head, tail := SplitFirst(s, entry);
    RemoveFirstAt(head, entry, tail);
    RemoveFirstAt(head, entry, tail + [last]);
    assert s + [last] == head + [entry] + (tail + [last]);
  }

  lemma {:induction false} RemovalsCommute(s: seq<string>, a: string, b: string)
    ensures RemoveFirst(RemoveFirst(s, a), b) == RemoveFirst(RemoveFirst(s, b), a)
  {
    if s != [] {
      RemovalsCommute(s[1..], a, b);
    }
  }

  lemma {:induction false} OthersStay(s: seq<string>, entry: string, other: string)
    requires other != entry
    ensures other in RemoveFirst(s, entry) <==> other in s
  {
    if s != [] {
      OthersStay(s[1..], entry, other);
    }
  }

  // One more copy of the path in the list, in front of all others.
  predicate HasExtra(full: seq<string>, bare: seq<string>, path: string) {
    path in full && RemoveFirst(full, path) == bare
  }

  // The bare run keeps an extra copy as long as removals find another: with a
  // block's path in front and without it, the bodies do the same.
  lemma {:induction false} ExtraIsKept(p: Program, full: State, bare: State, path: string)
    requires !full.raised && !bare.raised && full.appended == bare.appended
    requires HasExtra(full.path, bare.path, path) && Finds(p, bare, path)
    ensures var (full', bare') := (Exec(Bare(p), full), Exec(Bare(p), bare));
      HasExtra(full'.path, bare'.path, path) && full'.raised == bare'.raised && full'.appended == bare'.appended
  {
    match p
    case Append(entry) => RemoveFirstAppended(full.path, path, entry);
    case Remove(entry) =>
      RemovalsCommute(full.path, path, entry);
      if entry != path {
        OthersStay(full.path, path, entry);
        OthersStay(full.path, entry, path);
      }
    case Then(first, second) =>
      ExtraIsKept(first, full, bare, path);
      if !Exec(Bare(first), full).raised {
        ExtraIsKept(second, Exec(Bare(first), full), Exec(Bare(first), bare), path);
      }
    case Catch(body) => ExtraIsKept(body, full, bare, path);
    case WithPath(_, _, body) => ExtraIsKept(body, full, bare, path);
    case _ =>
  }

  // What stands behind the first copy of an entry.
  function Behind(s: seq<string>, entry: string): seq<string> {
    if s == [] then [] else if s[0] == entry then s[1..] else Behind(s[1..], entry)
  }

  lemma {:induction false} BehindFirst(head: seq<string>, entry: string, tail: seq<string>)
    requires entry !in head
    ensures Behind(head + [entry] + tail, entry) == tail
  {
    var s := head + [entry] + tail;
    if head == [] {
      assert s == [entry] + tail;
    } else {
      assert s[1..] == head[1..] + [entry] + tail;
      BehindFirst(head[1..], entry, tail);
    }
  }

  // Popping the last entry takes away as good as the first copy of the path.
  predicate InStep(behind: seq<string>, path: string) {
    || behind == [] || behind[|behind| - 1] != path
    || forall entry :: entry in behind ==> entry == path
  }

  // Moving an entry from one end to the other changes nothing exactly if there
  // is nothing else.
  lemma {:induction false} Rotated(s: seq<string>, entry: string)
    ensures [entry] + s == s + [entry] <==> forall x :: x in s ==> x == entry
  {
    if s != [] {
      var rest := s[1..];
      assert s == [s[0]] + rest;
      Rotated(rest, entry);
      assert ([entry] + s)[1..] == s && (s + [entry])[1..] == rest + [entry];
      if [entry] + s == s + [entry] {
        assert s[0] == ([entry] + s)[0] == entry;
        assert [entry] + rest == s == rest + [entry];
      }
      if forall x :: x in s ==> x == entry {
        assert s[0] in s && forall x :: x in rest ==> x in s;
        assert s + [entry] == [s[0]] + (rest + [entry]);
      }
    }
  }

  lemma SameTail(head: seq<string>, a: seq<string>, b: seq<string>)
    requires head + a == head + b
    ensures a == b
  {
    assert a == (head + a)[|head|..] == (head + b)[|head|..] == b;
  }

  // Popping against removing, where the list ends with the path.
  lemma PopIff(head: seq<string>, path: string, tail: seq<string>)
    requires tail != [] && tail[|tail| - 1] == path
    ensures var s := head + [path] + tail;
      s[..|s| - 1] == head + tail <==> forall entry :: entry in tail ==> entry == path
  {
    var s, rest := head + [path] + tail, tail[..|tail| - 1];
    assert tail == rest + [path];
    assert s[..|s| - 1] == head + ([path] + rest);
    Rotated(rest, path);
    if s[..|s| - 1] == head + tail {
      SameTail(head, [path] + rest, tail);
    }
    assert forall entry :: entry in tail <==> entry in rest || entry == path;
  }

  // The finally clause takes away an extra copy exactly if it is in step.
  lemma LeaveIffInStep(s: State, path: string)
    requires path in s.path
    ensures Leave(s, path) == s.(path := RemoveFirst(s.path, path)) <==> InStep(Behind(s.path, path), path)
  {
    var head, tail := SplitFirst(s.path, path);
    RemoveFirstAt(head, path, tail);
    BehindFirst(head, path, tail);
    hide Behind, RemoveFirst;
    if tail == [] {
      assert s.path[..|s.path| - 1] == head + tail;
    } else {
      assert s.path[|s.path| - 1] == tail[|tail| - 1];
      if tail[|tail| - 1] == path {
        PopIff(head, path, tail);
      }
    }
  }

  // ------------------------------------------ blocks that leave no trace

  function Entered(s: State, path: string, position: Option<int>): State {
    s.(path := Enter(s.path, path, position))
  }

  // Every block that puts its path in is in step when it is left, and its body
  // removes no more copies of the path than it has without the block. Only
  // runs without blocks are looked at.
  predicate Clean(p: Program, s: State)
    requires !s.raised
  {
    match p
    case Then(first, second) =>
      Clean(first, s) && (!Exec(Bare(first), s).raised ==> Clean(second, Exec(Bare(first), s)))
    case Catch(body) => Clean(body, s)
    case WithPath(path, position, body) =>
      if path in s.path then Clean(body, s)
      else
        && Clean(body, Entered(s, path, position)) && Finds(body, s, path)
        && InStep(Behind(Exec(Bare(body), Entered(s, path, position)).path, path), path)
    case _ => true
  }

  // Exactly when a block around a clean body leaves no trace: if what stands
  // behind the first copy of its path, when it is left, does not end with the
  // path, or is nothing but the path.
  lemma BlockLeavesNoTraceIff(path: string, position: Option<int>, body: Program, s: State)
    requires !s.raised && path !in s.path
    requires Clean(body, Entered(s, path, position)) && Finds(body, s, path)
    ensures
      var block := WithPath(path, position, body);
      var left := Exec(body, Entered(s, path, position));
      Exec(block, s) == Exec(Bare(block), s) <==> InStep(Behind(left.path, path), path)
    decreases body, 1
  {
    var inner := Entered(s, path, position);
    CleanLeaveNoTrace(body, inner);
    EnteredHasExtra(s, path, position);
    hide Leave, InStep, Behind, RemoveFirst, Enter, Clean;
    ExtraIsKept(body, inner, s, path);
    LeaveIffInStep(Exec(body, inner), path);
  }

  lemma EnteredHasExtra(s: State, path: string, position: Option<int>)
    requires path !in s.path
    ensures HasExtra(Entered(s, path, position).path, s.path, path)
  {
    var head, tail := EnterSplits(s.path, path, position);
    RemoveFirstAt(head, path, tail);
  }

  // Clean blocks, at any depth and positions, with bodies that append, remove,
  // raise and catch, leave list and exceptions as if they were not there.
  lemma {:induction false} CleanLeaveNoTrace(p: Program, s: State)
    requires !s.raised && Clean(p, s)
    ensures Exec(p, s) == Exec(Bare(p), s)
    decreases p, 0
  {
    hide Leave, InStep, Behind, Finds, Enter;
    match p
    case Then(first, second) =>
      CleanLeaveNoTrace(first, s);
      if !Exec(first, s).raised {
        CleanLeaveNoTrace(second, Exec(first, s));
      }
    case Catch(body) => CleanLeaveNoTrace(body, s);
    case WithPath(path, position, body) =>
      if path in s.path {
        CleanLeaveNoTrace(body, s);
      } else {
        CleanLeaveNoTrace(body, Entered(s, path, position));
        BlockLeavesNoTraceIff(path, position, body, s);
      }
    case _ =>
  }

  lemma {:induction false} Unmentioned(p: Program, s: State, path: string)
    requires !s.raised && path !in Mentions(p)
    ensures Finds(p, s, path)
    ensures path in Exec(Bare(p), s).path <==> path in s.path
  {
    match p
    case Remove(entry) => OthersStay(s.path, entry, path);
    case Then(first, second) =>
      Unmentioned(first, s, path);
      if !Exec(Bare(first), s).raised {
        Unmentioned(second, Exec(Bare(first), s), path);
      }
    case Catch(body) => Unmentioned(body, s, path);
    case WithPath(_, _, body) => Unmentioned(body, s, path);
    case _ =>
  }

  lemma OneCopyIsInStep(s: seq<string>, path: string)
    requires path in s && path !in RemoveFirst(s, path)
    ensures InStep(Behind(s, path), path)
  {
    var head, tail := SplitFirst(s, path);
    RemoveFirstAt(head, path, tail);
    BehindFirst(head, path, tail);
    assert forall entry :: entry in tail ==> entry in head + tail;
  }

  // Blocks whose paths no body mentions are clean.
  lemma {:induction false} UnmentionedIsClean(p: Program, s: State)
    requires !s.raised && Mentions(p) !! Managed(p)
    ensures Clean(p, s)
  {
    hide Behind, InStep, Enter, RemoveFirst;
    match p
    case Then(first, second) =>
      UnmentionedIsClean(first, s);
      if !Exec(Bare(first), s).raised {
        UnmentionedIsClean(second, Exec(Bare(first), s));
      }
    case Catch(body) => UnmentionedIsClean(body, s);
    case WithPath(path, position, body) =>
      if path in s.path {
        UnmentionedIsClean(body, s);
      } else {
        var inner := Entered(s, path, position);
        UnmentionedIsClean(body, inner);
        Unmentioned(body, s, path);
        EnteredHasExtra(s, path, position);
        ExtraIsKept(body, inner, s, path);
        OneCopyIsInStep(Exec(Bare(body), inner).path, path);
      }
    case _ =>
  }

  // So the list is restored exactly if the bodies by themselves are balanced.
  lemma BlocksLeaveNoTrace(p: Program, s: State)
    requires !s.raised && Mentions(p) !! Managed(p)
    ensures Exec(p, s) == Exec(Bare(p), s)
    ensures Exec(p, s).path == s.path <==> Exec(Bare(p), s).path == s.path
  {
    UnmentionedIsClean(p, s);
    CleanLeaveNoTrace(p, s);
  }

  // ------------------------------------------- bodies that remove nothing

  // The bodies remove nothing.
  predicate NeverRemoves(p: Program) {
    match p
    case Remove(_) => false
    case Then(first, second) => NeverRemoves(first) && NeverRemoves(second)
    case Catch(body) => NeverRemoves(body)
    case WithPath(_, _, body) => NeverRemoves(body)
    case _ => true
  }

  lemma {:induction false} BareAppends(p: Program, s: State) returns (added: seq<string>)
    requires !s.raised && NeverRemoves(p)
    ensures Exec(Bare(p), s).path == s.path + added && Exec(Bare(p), s).appended == s.appended + added
  {
    added := [];
    match p
    case Append(entry) => added := [entry];
    case Then(first, second) =>
      added := BareAppends(first, s);
      var s' := Exec(Bare(first), s);
      if !s'.raised {
        var more := BareAppends(second, s');
        assert s.path + added + more == s.path + (added + more);
        assert s.appended + added + more == s.appended + (added + more);
        added := added + more;
      }
    case Catch(body) => added := BareAppends(body, s);
    case WithPath(_, _, body) => added := BareAppends(body, s);
    case _ =>
  }

  // What the bodies appended survives behind the list, in order.
  lemma AppendedSurvive(p: Program, s: State) returns (added: seq<string>)
    requires !s.raised && NeverRemoves(p) && Clean(p, s)
    ensures Exec(p, s).path == s.path + added && Exec(p, s).appended == s.appended + added
    ensures Exec(p, s).path == s.path <==> added == []
  {
    CleanLeaveNoTrace(p, s);
    added := BareAppends(p, s);
  }

  lemma {:induction false} FindsWhatIsNeverRemoved(p: Program, s: State, path: string)
    requires !s.raised && NeverRemoves(p)
    ensures Finds(p, s, path)
  {
    match p
    case Then(first, second) =>
      FindsWhatIsNeverRemoved(first, s, path);
      if !Exec(Bare(first), s).raised {
        FindsWhatIsNeverRemoved(second, Exec(Bare(first), s), path);
      }
    case Catch(body) => FindsWhatIsNeverRemoved(body, s, path);
    case WithPath(_, _, body) => FindsWhatIsNeverRemoved(body, s, path);
    case _ =>
  }

  // The list when a block is left whose body removes nothing.
  lemma EndOfBody(path: string, position: Option<int>, body: Program, s: State)
    returns (added: seq<string>, head: seq<string>, tail: seq<string>)
    requires !s.raised && path !in s.path && NeverRemoves(body) && Clean(body, Entered(s, path, position))
    ensures s.path == head + tail && |head| == EntryPoint(s.path, position)
    ensures Exec(Bare(body), s).path == s.path + added
    ensures Exec(body, Entered(s, path, position)).path == head + [path] + (tail + added)
  {
    var inner := Entered(s, path, position);
    head, tail := EnterSplits(s.path, path, position);
    hide Enter, EntryPoint, RemoveFirst, Exec, Clean;
    FindsWhatIsNeverRemoved(body, s, path);
    EnteredHasExtra(s, path, position);
    ExtraIsKept(body, inner, s, path);
    CleanLeaveNoTrace(body, inner);
    added := BareAppends(body, s);
    var added' := BareAppends(body, inner);
    SameTail(s.appended, added, added');
    assert inner.path + added == head + [path] + (tail + added);
  }

  lemma InStepIff(tail: seq<string>, added: seq<string>, path: string)
    requires path !in tail
    ensures InStep(tail + added, path) <==>
      || added == [] || added[|added| - 1] != path
      || (tail == [] && forall entry :: entry in added ==> entry == path)
  {
    var behind := tail + added;
    assert forall entry :: entry in behind <==> entry in tail || entry in added;
    if behind != [] {
      assert behind[|behind| - 1] == if added == [] then tail[|tail| - 1] else added[|added| - 1];
    }
    assert tail != [] ==> tail[0] in tail;
  }

  // The same condition before the block is entered: its body does not end by
  // appending its path, or appends nothing else and the path went to the end.
  lemma AppendingBlockIff(path: string, position: Option<int>, body: Program, s: State) returns (added: seq<string>)
    requires !s.raised && path !in s.path && NeverRemoves(body) && Clean(body, Entered(s, path, position))
    ensures Exec(Bare(body), s).path == s.path + added
    ensures
      var block := WithPath(path, position, body);
      Exec(block, s) == Exec(Bare(block), s) <==>
        || added == [] || added[|added| - 1] != path
        || (EntryPoint(s.path, position) == |s.path| && forall entry :: entry in added ==> entry == path)
  {
    var head, tail;
    added, head, tail := EndOfBody(path, position, body, s);
    hide Exec, Enter, Behind, Clean, NeverRemoves, InStep, EntryPoint;
    FindsWhatIsNeverRemoved(body, s, path);
    BlockLeavesNoTraceIff(path, position, body, s);
    BehindFirst(head, path, tail + added);
    InStepIff(tail, added, path);
  }

  // A body that ends by appending its block's path can be out of step: of two
  // copies it is the body's that is taken away, and the other stays where the
  // block put it.
  lemma ManagedEntryIsTaken()
    ensures
      var p := WithPath("p", Some(0), Append("p"));
      var start := State(["a"], false, []);
      && Exec(p, start).path == ["p", "a"]
      && Exec(Bare(p), start).path == ["a", "p"]
  {
    assert Enter(["a"], "p", Some(0)) == ["p", "a"];
    assert ["p", "a", "p"][..2] == ["p", "a"];
  }

  // A body that removes the only copy takes the block's: without the block it
  // would have failed and gone on, and with it the block fails.
  lemma ManagedEntryIsMissed()
    ensures
      var p := WithPath("p", None, Catch(Remove("p")));
      var start := State(["a"], false, []);
      Exec(p, start) == start.(raised := true) && Exec(Bare(p), start) == start
  {
    assert Enter(["a"], "p", None) == ["a", "p"];
    RemoveFirstAt(["a"], "p", []);
  }

  class Interpreter {
    var path: seq<string>
    ghost var appended: seq<string>

    ghost function Now(raised: bool): State
      reads this
    {
      State(path, raised, appended)
    }

    constructor (path: seq<string>)
      ensures this.path == path && appended == []
    {
      this.path, appended := path, [];
    }

    method Run(p: Program) returns (raised: bool)
      modifies this
      ensures Now(raised) == Exec(p, old(Now(false)))
      decreases p, 1
    {
      raised := false;
      match p
      case Skip =>
      case Append(entry) =>
        path := path + [entry];
        appended := appended + [entry];
      case Remove(entry) =>
        if entry in path {
          path := RemoveFirst(path, entry);
        } else {
          raised := true;
        }
      case Raise => raised := true;
      case Then(first, second) =>
        raised := Run(first);
        if !raised {
          raised := Run(second);
        }
      case Catch(body) =>
        var _ := Run(body);
      case WithPath(entry, position, body) =>
        raised := SysPathBlock(entry, position, body);
    }

    // sys_path
    method SysPathBlock(entry: string, position: Option<int>, body: Program) returns (raised: bool)
      modifies this
      ensures Now(raised) == Exec(WithPath(entry, position, body), old(Now(false)))
      decreases body, 2
    {
      hide RemoveFirst, Insert;
      var pathExists := entry in path;
      if !pathExists {
        if position.None? {
          path := path + [entry];
        } else {
          path := Insert(path, position.value, entry);
        }
      }
      raised := Run(body);
      if !pathExists {              // finally
        if |path| == 0 {
          raised := true;
        } else if path[|path| - 1] == entry {
          path := path[..|path| - 1];
        } else if entry in path {
          path := RemoveFirst(path, entry);
        } else {
          raised := true;
        }
      }
    }
  }
}

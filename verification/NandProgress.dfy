/** A launcher that meets no error: it always has a next step, takes at most ten, and fails only for one
    of two reasons, whatever the other launchers do in between. */
module NandProgress {
  import opened Wrappers
  import opened SettingsKey
  import opened SettingsText
  import opened SettingsPrinter
  import opened NandSettings
  import opened NandInitialization

  /** A step without an error, on a name that nobody has taken. */
  predicate Calm(s: State, e: Event) {
    match e
    case Works => true
    case Candidate(_) => true
    case Name(directory) => directory !in s.scratch
    case _ => false
  }

  /** The clock gives no valid serial. */
  predicate NoClock(l: Launcher) { !IsSerial(GenerateSerial(l.now)) }

  /** The file found at the start holds no identity. */
  predicate BadFile(initial: Option<Bytes>) { initial.Some? && !IsIdentity(initial) }

  /** What is known of a launcher that has met no error. */
  predicate Undisturbed(initial: Option<Bytes>, s: State, l: Launcher) {
    match l.at
    case Inspecting => l.scratch.None?
    case ReadingExisting => s.file.Some? && l.scratch.None?
    case Encoding => initial.None? && l.scratch.None?
    case MakingDirectories => initial.None? && l.scratch.None?
    case Claiming(attempt) => initial.None? && l.scratch.None? && attempt == 0
    case Writing => initial.None? && l.scratch.Some?
    case Publishing => initial.None?
    case RemovingFile => initial.None? && s.file.Some? && l.scratch.Some?
    case RemovingDirectory => initial.None? && s.file.Some? && l.scratch.Some?
    case Confirming => initial.None? && s.file.Some? && l.scratch.None?
    case Returned(ok) =>
      && l.scratch.None?
      && if ok then IsIdentity(s.file) else BadFile(initial) || (initial.None? && NoClock(l))
    case Killed => false
  }

  /** A bound on the steps that are left. */
  function StepsLeft(at: At): nat {
    match at
    case Inspecting => 10
    case Encoding => 9
    case MakingDirectories => 8
    case Claiming(_) => 7
    case Writing => 6
    case Publishing => 5
    case RemovingFile => 4
    case RemovingDirectory => 3
    case ReadingExisting => 2
    case Confirming => 2
    case Returned(_) => 0
    case Killed => 0
  }

  /** Whatever file there is holds an identity, unless it was a bad one from the start. */
  lemma FileIsIdentity(initial: Option<Bytes>, s: State)
    requires Inv(initial, s) && s.file.Some?
    ensures IsIdentity(s.file) || BadFile(initial)
    ensures initial.None? ==> IsIdentity(s.file)
  {
    if initial.None? {
      var p :| 0 <= p < |s.launchers| && s.launchers[p].published;
      assert LauncherFits(s, s.launchers[p]);
      CandidateReadsBack(s.launchers[p].now, s.launchers[p].bytes);
    }
  }

  // ---- One step ----

  lemma ReaderGoesOn(initial: Option<Bytes>, s: State, l: Launcher, e: Event, t: State, m: Launcher)
    requires Undisturbed(initial, s, l) && Calm(s, e) && Moves(s, l, e, t, m)
    requires l.at.Inspecting? || l.at.ReadingExisting? || l.at.Confirming?
    requires s.file.Some? ==> IsIdentity(s.file) || BadFile(initial)
    requires initial.None? && s.file.Some? ==> IsIdentity(s.file)
    requires initial.Some? ==> s.file == initial
    ensures Undisturbed(initial, t, m) && StepsLeft(m.at) < StepsLeft(l.at)
  {
  }

  lemma WriterGoesOn(initial: Option<Bytes>, s: State, l: Launcher, e: Event, t: State, m: Launcher)
    requires Undisturbed(initial, s, l) && Calm(s, e) && Moves(s, l, e, t, m)
    requires l.at.Encoding? || l.at.MakingDirectories? || l.at.Claiming? || l.at.Writing?
    ensures Undisturbed(initial, t, m) && StepsLeft(m.at) < StepsLeft(l.at)
  {
  }

  lemma PublisherGoesOn(initial: Option<Bytes>, s: State, l: Launcher, e: Event, t: State, m: Launcher)
    requires LauncherFits(s, l) && Undisturbed(initial, s, l) && Calm(s, e) && Moves(s, l, e, t, m)
    requires l.at.Publishing? || l.at.RemovingFile? || l.at.RemovingDirectory?
    ensures Undisturbed(initial, t, m) && StepsLeft(m.at) < StepsLeft(l.at)
  {
  }

  /** Its own steps bring it nearer to the end. */
  lemma GoesOn(initial: Option<Bytes>, s: State, i: nat, e: Event, t: State)
    requires Inv(initial, s) && Steps(s, i, e, t) && Calm(s, e) && Undisturbed(initial, s, s.launchers[i])
    ensures Undisturbed(initial, t, t.launchers[i]) && StepsLeft(t.launchers[i].at) < StepsLeft(s.launchers[i].at)
  {
    var l, m := s.launchers[i], t.launchers[i];
    assert LauncherFits(s, l);
    if s.file.Some? {
      FileIsIdentity(initial, s);
    }
    match l.at {
      case Inspecting => ReaderGoesOn(initial, s, l, e, t, m);
      case ReadingExisting => ReaderGoesOn(initial, s, l, e, t, m);
      case Confirming => ReaderGoesOn(initial, s, l, e, t, m);
      case Encoding => WriterGoesOn(initial, s, l, e, t, m);
      case MakingDirectories => WriterGoesOn(initial, s, l, e, t, m);
      case Claiming(_) => WriterGoesOn(initial, s, l, e, t, m);
      case Writing => WriterGoesOn(initial, s, l, e, t, m);
      case Publishing => PublisherGoesOn(initial, s, l, e, t, m);
      case RemovingFile => PublisherGoesOn(initial, s, l, e, t, m);
      case RemovingDirectory => PublisherGoesOn(initial, s, l, e, t, m);
      case Returned(_) =>
    }
  }

  /** The steps of the others change nothing about it. */
  lemma OthersLeaveIt(initial: Option<Bytes>, s: State, j: nat, e: Event, t: State, i: nat)
    requires Inv(initial, s) && Steps(s, j, e, t) && i != j && i < |s.launchers|
    requires Undisturbed(initial, s, s.launchers[i])
    ensures Undisturbed(initial, t, t.launchers[i]) && t.launchers[i] == s.launchers[i]
  {
    FileAfterStep(initial, s, j, e, t);
  }

  // ---- There is a next step ----

  /** A name that is not taken. */
  lemma FreeName(taken: set<nat>) returns (name: nat)
    ensures name !in taken
  {
    name := 0;
    var below: set<nat> := {};
    while name in taken
      invariant below <= taken && |below| == name && forall n :: n in below ==> n < name
      decreases |taken| - |below|
    {
      below := below + {name};
      SmallerSet(below, taken);
      name := name + 1;
    }
  }

  lemma SmallerSet(a: set<nat>, b: set<nat>)
    requires a <= b
    ensures |a| <= |b|
  {
    assert b == a + (b - a);
  }

  lemma {:induction false} PrintedFits(lines: seq<string>, text: string)
    requires (forall i :: 0 <= i < |lines| ==> Ascii(lines[i])) && Ascii(text) && |text| <= SIZE
    requires Printed(lines, text).Some?
    ensures Ascii(Printed(lines, text).value) && |Printed(lines, text).value| <= SIZE
    decreases |lines|, SIZE - |text|
  {
    if lines == [] {
    } else if Clashes(lines[0], |text|) {
      PrintedFits(lines, text + "\n");
    } else {
      PrintedFits(lines[1..], text + lines[0]);
    }
  }

  /** A valid serial has a complete buffer. */
  lemma CandidateExists(now: int) returns (bytes: Bytes)
    requires IsSerial(GenerateSerial(now))
    ensures IsCandidate(now, bytes)
  {
    var serial := GenerateSerial(now);
    var feeds := EverySerialIsPrinted(serial);
    LinesAreAscii(serial);
    PrintedFits(Lines(serial), "");
    var text := Printed(Lines(serial), "").value;
    bytes := seq(SIZE, i requires 0 <= i < SIZE => if i < |text| then Xor(text[i] as int, KeyByte(i)) else 0);
    assert Encodes(bytes, text) && ZeroFrom(bytes, |text|);
  }

  /** The launcher's next step, without an error. */
  ghost predicate CanStep(s: State, i: nat) {
    exists e, t :: Calm(s, e) && Steps(s, i, e, t)
  }

  lemma StepMade(s: State, i: nat, e: Event, t: State, m: Launcher)
    requires i < |s.launchers| && t.launchers == s.launchers[i := m] && Calm(s, e)
    requires Moves(s, s.launchers[i], e, t, m)
    ensures CanStep(s, i)
  {
    assert Steps(s, i, e, t);
  }

  lemma EncoderCanStep(s: State, i: nat)
    requires i < |s.launchers| && s.launchers[i].at.Encoding?
    ensures CanStep(s, i)
  {
    var l := s.launchers[i];
    if NoClock(l) {
      var m := l.(at := Returned(false));
      StepMade(s, i, Works, s.(launchers := s.launchers[i := m]), m);
    } else {
      var bytes := CandidateExists(l.now);
      var m := l.(at := MakingDirectories, bytes := bytes);
      StepMade(s, i, Candidate(bytes), s.(launchers := s.launchers[i := m]), m);
    }
  }

  lemma ClaimerCanStep(s: State, i: nat)
    requires i < |s.launchers| && s.launchers[i].at == Claiming(0)
    ensures CanStep(s, i)
  {
    var name := FreeName(s.scratch.Keys);
    var m := s.launchers[i].(at := Writing, scratch := Some(name));
    var t := s.(scratch := s.scratch[name := None], launchers := s.launchers[i := m]);
    StepMade(s, i, Name(name), t, m);
  }

  lemma PublisherCanStep(s: State, i: nat)
    requires i < |s.launchers| && s.launchers[i].at.Publishing? && LauncherFits(s, s.launchers[i])
    ensures CanStep(s, i)
  {
    var l := s.launchers[i];
    if s.file.Some? {
      var m := l.(at := RemovingFile);
      StepMade(s, i, Works, s.(launchers := s.launchers[i := m]), m);
    } else {
      var m := l.(at := RemovingFile, published := true);
      StepMade(s, i, Works, s.(file := s.scratch[l.scratch.value], launchers := s.launchers[i := m]), m);
    }
  }

  lemma WriterCanStep(s: State, i: nat)
    requires i < |s.launchers| && s.launchers[i].scratch.Some?
    requires var at := s.launchers[i].at; at.Writing? || at.RemovingFile? || at.RemovingDirectory?
    ensures CanStep(s, i)
  {
    var l := s.launchers[i];
    var d := l.scratch.value;
    if l.at.Writing? {
      var m := l.(at := Publishing, written := true);
      var t := s.(scratch := s.scratch[d := Some(l.bytes)], launchers := s.launchers[i := m]);
      StepMade(s, i, Works, t, m);
    } else if l.at.RemovingFile? {
      var m := l.(at := RemovingDirectory);
      StepMade(s, i, Works, s.(scratch := s.scratch[d := None], launchers := s.launchers[i := m]), m);
    } else {
      var m := l.(at := Confirming, scratch := None);
      StepMade(s, i, Works, s.(scratch := s.scratch - {d}, launchers := s.launchers[i := m]), m);
    }
  }

  lemma ReaderCanStep(s: State, i: nat)
    requires i < |s.launchers|
    requires var at := s.launchers[i].at;
             at.Inspecting? || at.ReadingExisting? || at.Confirming? || at.MakingDirectories?
    ensures CanStep(s, i)
  {
    var l := s.launchers[i];
    var m := if l.at.Inspecting? then l.(at := if s.file.Some? then ReadingExisting else Encoding)
             else if l.at.MakingDirectories? then l.(at := Claiming(0))
             else Reads(l, s.file, true);
    StepMade(s, i, Works, s.(launchers := s.launchers[i := m]), m);
  }

  /** A launcher that has met no error and has not returned can take a step without one. */
  lemma AlwaysANextStep(initial: Option<Bytes>, s: State, i: nat)
    requires Inv(initial, s) && i < |s.launchers| && Undisturbed(initial, s, s.launchers[i])
    requires !s.launchers[i].at.Returned?
    ensures CanStep(s, i)
  {
    assert LauncherFits(s, s.launchers[i]);
    match s.launchers[i].at {
      case Encoding => EncoderCanStep(s, i);
      case Claiming(_) => ClaimerCanStep(s, i);
      case Publishing => PublisherCanStep(s, i);
      case Writing => WriterCanStep(s, i);
      case RemovingFile => WriterCanStep(s, i);
      case RemovingDirectory => WriterCanStep(s, i);
      case _ => ReaderCanStep(s, i);
    }
  }

  // ---- Whole runs ----

  /** A step of another launcher, or one of launcher i without an error. */
  ghost predicate SparedStep(s: State, t: State, i: nat) {
    exists j, e :: Steps(s, j, e, t) && (j == i ==> Calm(s, e))
  }

  ghost predicate SparedAt(states: seq<State>, k: nat, i: nat)
    requires 0 < k < |states|
  {
    SparedStep(states[k - 1], states[k], i)
  }

  /** A run in which launcher i meets no error; what the others meet does not matter. */
  ghost predicate Spared(states: seq<State>, i: nat) {
    forall k :: 0 < k < |states| ==> SparedAt(states, k, i)
  }

  lemma SparedStepKeeps(initial: Option<Bytes>, s: State, t: State, i: nat)
    requires Inv(initial, s) && SparedStep(s, t, i)
    requires i < |s.launchers| && Undisturbed(initial, s, s.launchers[i])
    ensures Inv(initial, t) && |t.launchers| == |s.launchers| && Undisturbed(initial, t, t.launchers[i])
  {
    var j, e :| Steps(s, j, e, t) && (j == i ==> Calm(s, e));
    StepKeepsInv(initial, s, j, e, t);
    if j == i {
      GoesOn(initial, s, i, e, t);
    } else {
      OthersLeaveIt(initial, s, j, e, t, i);
    }
  }

  lemma {:induction false} StaysUndisturbed(initial: Option<Bytes>, states: seq<State>, k: nat, i: nat)
    requires states != [] && Spared(states, i) && Starts(initial, states[0])
    requires k < |states| && i < |states[0].launchers|
    ensures |states[k].launchers| == |states[0].launchers|
    ensures Inv(initial, states[k]) && Undisturbed(initial, states[k], states[k].launchers[i])
  {
    if k == 0 {
    } else {
      StaysUndisturbed(initial, states, k - 1, i);
      assert SparedAt(states, k, i);
      SparedStepKeeps(initial, states[k - 1], states[k], i);
    }
  }

  /** In every run, a launcher that meets no error reports success with the identity on the NAND, unless a file
      without an identity was there from the start, or none was and its clock gives no serial. */
  lemma UndisturbedSucceeds(initial: Option<Bytes>, states: seq<State>, k: nat, i: nat)
    requires states != [] && Spared(states, i) && Starts(initial, states[0])
    requires k < |states| && i < |states[0].launchers|
    ensures |states[k].launchers| == |states[0].launchers|
    ensures states[k].launchers[i].at != Killed
    ensures states[k].launchers[i].at.Returned? ==> states[k].launchers[i].scratch.None?
    ensures states[k].launchers[i].at == Returned(true) ==> IsIdentity(states[k].file)
    ensures states[k].launchers[i].at == Returned(false) ==>
              BadFile(initial) || (initial.None? && NoClock(states[k].launchers[i]))
    ensures !states[k].launchers[i].at.Returned? ==> CanStep(states[k], i)
  {
    StaysUndisturbed(initial, states, k, i);
    if !states[k].launchers[i].at.Returned? {
      AlwaysANextStep(initial, states[k], i);
    }
  }

  /** Names that are taken are passed over; after 128 of them the launcher gives up. */
  lemma GivesUpExactly(s: State, l: Launcher, e: Event, t: State, m: Launcher)
    requires Moves(s, l, e, t, m) && l.at.Claiming? && e != Kill && e != Fails
    ensures m.at == Returned(false) <==> 128 <= l.at.attempt
    ensures l.at.attempt < 128 ==>
              if e.directory in s.scratch then m.at == Claiming(l.at.attempt + 1) && t.scratch == s.scratch
              else m.at == Writing && m.scratch == Some(e.directory) && t.scratch == s.scratch[e.directory := None]
  {
  }

  /** Where a launcher goes on after an error: before it has a scratch directory and when it confirms it returns
      a failure; in between it still cleans up and confirms. */
  function AfterError(at: At): At {
    match at
    case Writing => RemovingFile
    case Publishing => RemovingFile
    case RemovingFile => RemovingDirectory
    case RemovingDirectory => Confirming
    case _ => Returned(false)
  }

  /** An error changes neither the file nor a directory; being killed changes nothing but that. */
  lemma ErrorsChangeNothing(s: State, l: Launcher, e: Event, t: State, m: Launcher)
    requires Moves(s, l, e, t, m) && (e == Kill || (e == Fails && !l.at.Encoding?))
    ensures t.file == s.file && t.scratch == s.scratch
    ensures m == l.(at := if e == Kill then Killed else AfterError(l.at))
  {
  }
}

/** Several launchers creating the console's setting.txt at the same time. Each one prints its candidate
    into a scratch directory of its own and publishes it only where no file exists; every launcher then
    uses whatever the NAND holds. Any launcher may be killed between two steps. */
module NandInitialization {
  import opened MachineTypes
  import opened Wrappers
  import opened SettingsText
  import opened SettingsPrinter
  import opened NandSettings

  type Bytes = seq<Byte>

  datatype At =
    | Inspecting | ReadingExisting | Encoding | MakingDirectories
    | Claiming(attempt: nat) | Writing | Publishing | RemovingFile | RemovingDirectory | Confirming
    | Returned(ok: bool) | Killed

  datatype Launcher = Launcher(at: At, now: int, bytes: Bytes, scratch: Option<nat>,
                               written: bool, published: bool, seen: Settings)

  /** `scratch` maps each scratch directory to the temporary file inside it, if there is one. */
  datatype State = State(file: Option<Bytes>, scratch: map<nat, Option<Bytes>>, launchers: seq<Launcher>)

  const ATTEMPTS := 128

  /** A complete new buffer for the serial the clock gives. */
  predicate IsCandidate(now: int, bytes: Bytes) {
    var serial := GenerateSerial(now);
    && IsSerial(serial)
    && Printed(Lines(serial), "").Some?
    && Holds(bytes, Printed(Lines(serial), "").value)
  }

  function ReadSettings(file: Bytes): Option<Settings> {
    if |file| < SIZE then None else Some(Fields(Decoded(file[..SIZE], 0, "")))
  }

  predicate IsIdentity(file: Option<Bytes>) {
    file.Some? && ReadSettings(file.value).Some? && HasIdentity(ReadSettings(file.value).value)
  }

  /** What one step of a launcher meets: `Fails` is any error of the file system. */
  datatype Event = Works | Fails | Partly(prefix: Bytes) | Candidate(bytes: Bytes) | Name(directory: nat) | Kill

  function Reads(l: Launcher, file: Option<Bytes>, readable: bool): Launcher {
    if readable && IsIdentity(file)
    then l.(at := Returned(true), seen := ReadSettings(file.value).value)
    else l.(at := Returned(false))
  }

  predicate Steps(s: State, i: nat, e: Event, t: State) {
    && i < |s.launchers| == |t.launchers|
    && (forall j :: 0 <= j < |s.launchers| && j != i ==> t.launchers[j] == s.launchers[j])
    && Moves(s, s.launchers[i], e, t, t.launchers[i])
  }

  /** One step of `Ensure`, as the launcher, the file and the scratch directories see it. */
  predicate Moves(s: State, l: Launcher, e: Event, t: State, m: Launcher) {
    match l.at
    case Returned(_) => false
    case Killed => false
    case Inspecting =>
      && t.file == s.file && t.scratch == s.scratch
      && m == l.(at := if e == Kill then Killed else if e == Fails then Returned(false)
                       else if s.file.Some? then ReadingExisting else Encoding)
    case ReadingExisting =>
      && t.file == s.file && t.scratch == s.scratch
      && m == if e == Kill then l.(at := Killed) else Reads(l, s.file, e != Fails)
    case Encoding =>
      && t.file == s.file && t.scratch == s.scratch
      && (if e == Kill then m == l.(at := Killed)
          else if !IsSerial(GenerateSerial(l.now)) then m == l.(at := Returned(false))
          else e.Candidate? && IsCandidate(l.now, e.bytes) && m == l.(at := MakingDirectories, bytes := e.bytes))
    case MakingDirectories =>
      && t.file == s.file && t.scratch == s.scratch
      && m == l.(at := if e == Kill then Killed else if e == Fails then Returned(false) else Claiming(0))
    case Claiming(attempt) =>
      && t.file == s.file
      && (if e == Kill then m == l.(at := Killed) && t.scratch == s.scratch
          else if e == Fails || attempt >= ATTEMPTS then m == l.(at := Returned(false)) && t.scratch == s.scratch
          else
            && e.Name?
            && if e.directory in s.scratch then m == l.(at := Claiming(attempt + 1)) && t.scratch == s.scratch
               else m == l.(at := Writing, scratch := Some(e.directory)) &&
                    t.scratch == s.scratch[e.directory := None])
    case Writing =>
      && t.file == s.file && l.scratch.Some?
      && (match e
          case Kill => m == l.(at := Killed) && t.scratch == s.scratch
          case Partly(prefix) => m == l && t.scratch == s.scratch[l.scratch.value := Some(prefix)]
          case Fails => m == l.(at := RemovingFile) && t.scratch == s.scratch
          case _ => m == l.(at := Publishing, written := true) &&
                    t.scratch == s.scratch[l.scratch.value := Some(l.bytes)])
    case Publishing =>
      && t.scratch == s.scratch && l.scratch.Some?
      && (if e == Kill then m == l.(at := Killed) && t.file == s.file
          else if e == Fails || s.file.Some? then m == l.(at := RemovingFile) && t.file == s.file
          else
            && l.scratch.value in s.scratch
            && t.file == s.scratch[l.scratch.value]
            && m == l.(at := RemovingFile, published := true))
    case RemovingFile =>
      && t.file == s.file && l.scratch.Some?
      && (if e == Kill then m == l.(at := Killed) && t.scratch == s.scratch
          else m == l.(at := RemovingDirectory) &&
               t.scratch == if e == Fails then s.scratch else s.scratch[l.scratch.value := None])
    case RemovingDirectory =>
      && t.file == s.file && l.scratch.Some?
      && (if e == Kill then m == l.(at := Killed) && t.scratch == s.scratch
          else if e == Fails then m == l.(at := Confirming) && t.scratch == s.scratch
          else m == l.(at := Confirming, scratch := None) && t.scratch == s.scratch - {l.scratch.value})
    case Confirming =>
      && t.file == s.file && t.scratch == s.scratch
      && m == if e == Kill then l.(at := Killed) else Reads(l, s.file, e != Fails)
  }

  lemma CandidateReadsBack(now: int, bytes: Bytes)
    requires IsCandidate(now, bytes)
    ensures IsIdentity(Some(bytes)) && ReadSettings(bytes) == Some(Identity(GenerateSerial(now)))
  {
    assert bytes[..SIZE] == bytes;
    NewIdentityReadsBack(GenerateSerial(now), bytes);
  }

  // ---- What every step keeps ----

  predicate LauncherFits(s: State, l: Launcher) {
    && (l.scratch.Some? ==> l.scratch.value in s.scratch)
    && (l.at.Inspecting? || l.at.ReadingExisting? || l.at.Encoding? ==> !l.published)
    && (l.at.MakingDirectories? || l.at.Claiming? || l.at.Writing? ==> IsCandidate(l.now, l.bytes) && !l.published)
    && (l.at.Publishing? ==>
          && IsCandidate(l.now, l.bytes) && !l.published
          && l.scratch.Some? && s.scratch[l.scratch.value] == Some(l.bytes))
    && (l.published ==> IsCandidate(l.now, l.bytes) && s.file == Some(l.bytes))
    && (l.at == Returned(true) ==> IsIdentity(s.file) && ReadSettings(s.file.value) == Some(l.seen))
  }

  ghost predicate Inv(initial: Option<Bytes>, s: State) {
    && (forall i :: 0 <= i < |s.launchers| ==> LauncherFits(s, s.launchers[i]))
    && (forall i, j :: 0 <= i < j < |s.launchers| && s.launchers[i].scratch.Some? ==>
          s.launchers[i].scratch != s.launchers[j].scratch)
    && (forall i, j :: 0 <= i < j < |s.launchers| ==> !(s.launchers[i].published && s.launchers[j].published))
    && (initial.Some? ==> s.file == initial)
    && (initial.None? && s.file.Some? ==> exists i :: 0 <= i < |s.launchers| && s.launchers[i].published)
    && (forall i :: 0 <= i < |s.launchers| && s.launchers[i].published ==> initial.None?)
  }

  predicate Fresh(l: Launcher) { l.at.Inspecting? && l.scratch.None? && !l.published && !l.written }

  predicate Starts(initial: Option<Bytes>, s: State) {
    s.file == initial && forall i :: 0 <= i < |s.launchers| ==> Fresh(s.launchers[i])
  }

  lemma MoveTouchesFile(s: State, l: Launcher, e: Event, t: State, m: Launcher)
    requires LauncherFits(s, l) && Moves(s, l, e, t, m)
    ensures s.file.Some? ==> t.file == s.file
    ensures s.file.None? ==>
              if m.published then IsCandidate(l.now, l.bytes) && t.file == Some(l.bytes) else t.file.None?
  {
  }

  /** A file that exists is never touched, and a new one is the publisher's own complete candidate. */
  lemma FileAfterStep(initial: Option<Bytes>, s: State, i: nat, e: Event, t: State)
    requires Inv(initial, s) && Steps(s, i, e, t)
    ensures s.file.Some? ==> t.file == s.file
    ensures s.file.None? ==>
              if t.launchers[i].published then
                IsCandidate(s.launchers[i].now, s.launchers[i].bytes) && t.file == Some(s.launchers[i].bytes)
              else t.file.None?
  {
    assert LauncherFits(s, s.launchers[i]);
    MoveTouchesFile(s, s.launchers[i], e, t, t.launchers[i]);
  }

  lemma MoveSparesScratch(s: State, l: Launcher, e: Event, t: State, m: Launcher, d: nat)
    requires Moves(s, l, e, t, m) && d in s.scratch && l.scratch != Some(d)
    ensures d in t.scratch && t.scratch[d] == s.scratch[d] && m.scratch != Some(d)
  {
  }

  /** A step leaves every other launcher's scratch directory alone. */
  lemma OthersKeepScratch(initial: Option<Bytes>, s: State, i: nat, e: Event, t: State, j: nat)
    requires Inv(initial, s) && Steps(s, i, e, t)
    requires j < |s.launchers| && j != i && s.launchers[j].scratch.Some?
    ensures var d := s.launchers[j].scratch.value;
            d in s.scratch && d in t.scratch && t.scratch[d] == s.scratch[d] && t.launchers[i].scratch != Some(d)
  {
    assert LauncherFits(s, s.launchers[j]) && LauncherFits(s, s.launchers[i]);
    assert s.launchers[i].scratch != s.launchers[j].scratch;
    MoveSparesScratch(s, s.launchers[i], e, t, t.launchers[i], s.launchers[j].scratch.value);
  }

  lemma OtherFits(initial: Option<Bytes>, s: State, i: nat, e: Event, t: State, j: nat)
    requires Inv(initial, s) && Steps(s, i, e, t)
    requires j < |s.launchers| && j != i
    ensures LauncherFits(t, t.launchers[j])
  {
    FileAfterStep(initial, s, i, e, t);
    assert LauncherFits(s, s.launchers[j]);
    if s.launchers[j].scratch.Some? {
      OthersKeepScratch(initial, s, i, e, t, j);
    }
  }

  lemma ReaderFits(s: State, l: Launcher, e: Event, t: State, m: Launcher)
    requires LauncherFits(s, l) && Moves(s, l, e, t, m)
    requires l.at.Inspecting? || l.at.ReadingExisting? || l.at.Confirming?
    ensures LauncherFits(t, m)
  {
  }

  lemma EncoderFits(s: State, l: Launcher, e: Event, t: State, m: Launcher)
    requires LauncherFits(s, l) && Moves(s, l, e, t, m)
    requires l.at.Encoding? || l.at.MakingDirectories?
    ensures LauncherFits(t, m)
  {
  }

  lemma ClaimerFits(s: State, l: Launcher, e: Event, t: State, m: Launcher)
    requires LauncherFits(s, l) && Moves(s, l, e, t, m) && l.at.Claiming?
    ensures LauncherFits(t, m)
  {
  }

  lemma WriterFits(s: State, l: Launcher, e: Event, t: State, m: Launcher)
    requires LauncherFits(s, l) && Moves(s, l, e, t, m) && l.at.Writing?
    ensures LauncherFits(t, m)
  {
  }

  lemma PublisherFits(s: State, l: Launcher, e: Event, t: State, m: Launcher)
    requires LauncherFits(s, l) && Moves(s, l, e, t, m) && l.at.Publishing?
    ensures LauncherFits(t, m)
  {
  }

  lemma RemoverFits(s: State, l: Launcher, e: Event, t: State, m: Launcher)
    requires LauncherFits(s, l) && Moves(s, l, e, t, m)
    requires l.at.RemovingFile? || l.at.RemovingDirectory?
    ensures LauncherFits(t, m)
  {
  }

  lemma MoverFits(initial: Option<Bytes>, s: State, i: nat, e: Event, t: State)
    requires Inv(initial, s) && Steps(s, i, e, t)
    ensures LauncherFits(t, t.launchers[i])
  {
    var l, m := s.launchers[i], t.launchers[i];
    assert LauncherFits(s, l);
    match l.at {
      case Inspecting => ReaderFits(s, l, e, t, m);
      case ReadingExisting => ReaderFits(s, l, e, t, m);
      case Confirming => ReaderFits(s, l, e, t, m);
      case Encoding => EncoderFits(s, l, e, t, m);
      case MakingDirectories => EncoderFits(s, l, e, t, m);
      case Claiming(_) => ClaimerFits(s, l, e, t, m);
      case Writing => WriterFits(s, l, e, t, m);
      case Publishing => PublisherFits(s, l, e, t, m);
      case RemovingFile => RemoverFits(s, l, e, t, m);
      case RemovingDirectory => RemoverFits(s, l, e, t, m);
      case Returned(_) =>
      case Killed =>
    }
  }

  lemma MovePublishes(s: State, l: Launcher, e: Event, t: State, m: Launcher)
    requires LauncherFits(s, l) && Moves(s, l, e, t, m)
    ensures l.published ==> m.published
    ensures m.published && !l.published ==> s.file.None?
  {
  }

  /** A launcher that has published stays published, and only the first file makes one so. */
  lemma MoverPublishes(initial: Option<Bytes>, s: State, i: nat, e: Event, t: State)
    requires Inv(initial, s) && Steps(s, i, e, t)
    ensures s.launchers[i].published ==> t.launchers[i].published
    ensures t.launchers[i].published && !s.launchers[i].published ==> s.file.None? && initial.None?
  {
    assert LauncherFits(s, s.launchers[i]);
    MovePublishes(s, s.launchers[i], e, t, t.launchers[i]);
  }

  /** Every step of every launcher keeps the invariant. */
  lemma StepKeepsInv(initial: Option<Bytes>, s: State, i: nat, e: Event, t: State)
    requires Inv(initial, s) && Steps(s, i, e, t)
    ensures Inv(initial, t)
  {
    FileAfterStep(initial, s, i, e, t);
    MoverFits(initial, s, i, e, t);
    MoverPublishes(initial, s, i, e, t);
    forall j | 0 <= j < |t.launchers| ensures LauncherFits(t, t.launchers[j]) {
      if j != i {
        OtherFits(initial, s, i, e, t, j);
      }
    }
    StepKeepsApart(initial, s, i, e, t);
    if initial.None? && t.file.Some? && s.file.Some? {
      var p :| 0 <= p < |s.launchers| && s.launchers[p].published;
      assert t.launchers[p].published;
    }
  }

  lemma StepKeepsApart(initial: Option<Bytes>, s: State, i: nat, e: Event, t: State)
    requires Inv(initial, s) && Steps(s, i, e, t)
    ensures forall j, k :: 0 <= j < k < |t.launchers| && t.launchers[j].scratch.Some? ==>
              t.launchers[j].scratch != t.launchers[k].scratch
    ensures forall j, k :: 0 <= j < k < |t.launchers| ==> !(t.launchers[j].published && t.launchers[k].published)
  {
    MoverPublishes(initial, s, i, e, t);
    forall j | 0 <= j < |t.launchers| && j != i && t.launchers[j].scratch.Some?
      ensures t.launchers[j].scratch != t.launchers[i].scratch
    {
      OthersKeepScratch(initial, s, i, e, t, j);
    }
    forall j | 0 <= j < |t.launchers| && j != i ensures !(t.launchers[j].published && t.launchers[i].published) {
      assert LauncherFits(s, s.launchers[j]);
    }
  }

  // ---- Whole runs ----

  ghost predicate Linked(s: State, t: State) { exists i, e :: Steps(s, i, e, t) }

  ghost predicate LinkedAt(states: seq<State>, k: nat)
    requires 0 < k < |states|
  {
    Linked(states[k - 1], states[k])
  }

  ghost predicate IsRun(states: seq<State>) {
    states != [] && forall k :: 0 < k < |states| ==> LinkedAt(states, k)
  }

  lemma LinkKeepsInv(initial: Option<Bytes>, s: State, t: State)
    requires Inv(initial, s) && Linked(s, t)
    ensures Inv(initial, t)
    ensures s.file.Some? ==> t.file == s.file
  {
    var i, e :| Steps(s, i, e, t);
    StepKeepsInv(initial, s, i, e, t);
    FileAfterStep(initial, s, i, e, t);
  }

  lemma {:induction false} RunKeepsInv(initial: Option<Bytes>, states: seq<State>, k: nat)
    requires IsRun(states) && Starts(initial, states[0]) && k < |states|
    ensures Inv(initial, states[k])
  {
    if k == 0 {
    } else {
      RunKeepsInv(initial, states, k - 1);
      assert LinkedAt(states, k);
      LinkKeepsInv(initial, states[k - 1], states[k]);
    }
  }

  lemma FileKeptAt(initial: Option<Bytes>, states: seq<State>, k: nat)
    requires IsRun(states) && Starts(initial, states[0]) && 0 < k < |states| && states[k - 1].file.Some?
    ensures states[k].file == states[k - 1].file
  {
    RunKeepsInv(initial, states, k - 1);
    assert LinkedAt(states, k);
    LinkKeepsInv(initial, states[k - 1], states[k]);
  }

  /** Once a setting.txt exists it is the same file for the rest of the run. */
  lemma {:induction false} FileNeverReplaced(initial: Option<Bytes>, states: seq<State>, j: nat, k: nat)
    requires IsRun(states) && Starts(initial, states[0]) && j <= k < |states|
    requires states[j].file.Some?
    ensures states[k].file == states[j].file
    decreases k - j
  {
    if j == k {
    } else {
      FileNeverReplaced(initial, states, j, k - 1);
      FileKeptAt(initial, states, k);
    }
  }

  /** In every run, at most one launcher publishes, and none where a file was already there. */
  lemma AtMostOnePublishes(initial: Option<Bytes>, states: seq<State>, k: nat, i: nat, j: nat)
    requires IsRun(states) && Starts(initial, states[0]) && k < |states|
    requires i < |states[k].launchers| && j < |states[k].launchers|
    requires states[k].launchers[i].published
    ensures initial.None?
    ensures states[k].launchers[j].published ==> i == j
  {
    RunKeepsInv(initial, states, k);
  }

  /** All launchers that report success use one identity, whenever each of them returned: the one on the
      NAND, which is the existing file's or the one publisher's own. */
  lemma SuccessMeansOneIdentity(initial: Option<Bytes>, states: seq<State>, k: nat, i: nat, j: nat)
    requires IsRun(states) && Starts(initial, states[0]) && k < |states|
    requires i < |states[k].launchers| && j < |states[k].launchers|
    requires states[k].launchers[i].at == Returned(true) && states[k].launchers[j].at == Returned(true)
    ensures states[k].launchers[i].seen == states[k].launchers[j].seen
    ensures HasIdentity(states[k].launchers[i].seen)
    ensures initial.Some? ==> ReadSettings(initial.value) == Some(states[k].launchers[i].seen)
    ensures initial.None? ==>
              exists p :: 0 <= p < |states[k].launchers| && states[k].launchers[p].published &&
                          states[k].launchers[i].seen == Identity(GenerateSerial(states[k].launchers[p].now))
  {
    var s := states[k];
    RunKeepsInv(initial, states, k);
    assert LauncherFits(s, s.launchers[i]) && LauncherFits(s, s.launchers[j]);
    if initial.None? {
      var p :| 0 <= p < |s.launchers| && s.launchers[p].published;
      assert LauncherFits(s, s.launchers[p]);
      CandidateReadsBack(s.launchers[p].now, s.launchers[p].bytes);
    }
  }

  lemma ConfirmationReads(s: State, l: Launcher, t: State, m: Launcher)
    requires Moves(s, l, Works, t, m) && l.at.Confirming?
    ensures m.at == Returned(IsIdentity(s.file))
  {
  }

  /** A launcher that confirms without an error reports success exactly when the NAND holds an identity,
      and always after publishing. */
  lemma PublisherSucceeds(initial: Option<Bytes>, s: State, i: nat, t: State)
    requires Inv(initial, s) && Steps(s, i, Works, t) && s.launchers[i].at.Confirming?
    ensures t.launchers[i].at == Returned(IsIdentity(s.file))
    ensures s.launchers[i].published ==> t.launchers[i].at == Returned(true)
  {
    var l := s.launchers[i];
    assert LauncherFits(s, l);
    ConfirmationReads(s, l, t, t.launchers[i]);
    if l.published {
      CandidateReadsBack(l.now, l.bytes);
    }
  }
}

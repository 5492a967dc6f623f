/**
  The journal of an install transaction, the rules its entries obey, and what "recoverable" means
  for the volume it describes (InstallTransaction.cs).
 */
module TransactionJournal {
  import opened Paths
  import opened FileTree
  import opened Numerals

  datatype TransactionState = Prepared | Published | Committed | RolledBack

  datatype Request = Request(prepared: Path, destination: Path, kind: Kind)

  datatype Entry = Entry(prepared: Path, destination: Path, backup: Path, kind: Kind, originalExisted: bool)

  /** The runtime's Config.toml, or a snapshot of it. */
  datatype Config = NoConfig | Config(contents: Blob)

  datatype Journal = Journal(
    root: Path, id: string, workRoot: Path, state: TransactionState,
    entries: seq<Entry>, configMutationPlanned: bool, configPreimage: Config)

  /** The one journal file of an installation. */
  datatype Stored = NoJournal | Stored(journal: Journal)

  const MAX_ENTRIES := 64

  // ---------- names and paths ----------

  /** index.ToString("D4"): at least four digits, more when needed. */
  function IndexName(n: nat): (s: string)
    ensures forall i | 0 <= i < |s| :: '0' <= s[i] <= '9'
    ensures IsName(s)
  {
    var digits := Decimal(n);
    if |digits| < 4 then Zeros(4 - |digits|) + digits else digits
  }

  lemma IndexNameValue(n: nat)
    ensures Value(IndexName(n)) == n
  {
    DecimalValue(n);
    var digits := Decimal(n);
    if |digits| < 4 {
      LeadingZeros(4 - |digits|, digits);
    }
  }

  lemma IndexNameIsInjective(m: nat, n: nat)
    requires IndexName(m) == IndexName(n)
    ensures m == n
  {
    IndexNameValue(m);
    IndexNameValue(n);
  }

  function Parent(p: Path): Path
    requires 0 < |p|
  {
    p[..|p| - 1]
  }

  /** The transaction's own directory, beside the installation. The id is the whole name here. */
  function WorkRoot(root: Path, id: string): Path
    requires 0 < |root|
  {
    Parent(root) + [".mkwc-transaction-" + id]
  }

  function BackupPath(workRoot: Path, index: nat): Path {
    workRoot + ["backup", IndexName(index)]
  }

  // ---------- what Begin accepts ----------

  ghost predicate WellFormedRequests(root: Path, rs: seq<Request>) {
    && IsPath(root) && 1 < |root|
    && forall i | 0 <= i < |rs| :: IsPath(rs[i].prepared) && IsPath(rs[i].destination)
  }

  /** No prepared path is a drive root. */
  predicate BelowDrives(rs: seq<Request>) {
    forall i | 0 <= i < |rs| :: 1 < |rs[i].prepared|
  }

  predicate OtherKind(v: Volume, p: Path, kind: Kind) {
    p in v && KindOf(v[p]) != kind
  }

  predicate RequestAdmissible(v: Volume, root: Path, r: Request)
    requires 0 < |root| && 0 < |r.prepared| && 0 < |r.destination|
  {
    && PathContains(root, r.destination)
    && !PathsOverlap(r.prepared, r.destination)
    && Exists(v, r.prepared, r.kind)
    && !OtherKind(v, r.destination, r.kind)
  }

  predicate RequestsApart(r: Request, previous: Request)
    requires 0 < |r.prepared| && 0 < |r.destination|
    requires 0 < |previous.prepared| && 0 < |previous.destination|
  {
    && !PathsOverlap(r.destination, previous.destination)
    && !PathsOverlap(r.prepared, previous.prepared)
    && !PathsOverlap(r.prepared, previous.destination)
    && !PathsOverlap(r.destination, previous.prepared)
  }

  ghost predicate Admissible(v: Volume, root: Path, rs: seq<Request>)
    requires WellFormedRequests(root, rs)
  {
    && (forall i | 0 <= i < |rs| :: RequestAdmissible(v, root, rs[i]))
    && (forall i, j | 0 <= j < i < |rs| :: RequestsApart(rs[i], rs[j]))
  }

  function Normalized(v: Volume, workRoot: Path, rs: seq<Request>): seq<Entry> {
    seq(|rs|, i requires 0 <= i < |rs| =>
      Entry(rs[i].prepared, rs[i].destination, BackupPath(workRoot, i), rs[i].kind,
            Exists(v, rs[i].destination, rs[i].kind)))
  }

  // ---------- what recovery accepts ----------

  predicate ValidJournal(root: Path, j: Journal)
    requires IsPath(root)
  {
    && j.root == root
    && j.workRoot == WorkRoot(root, j.id)
    && 0 < |j.entries| <= MAX_ENTRIES
    && forall i | 0 <= i < |j.entries| ::
         && 0 < |j.entries[i].destination|
         && PathContains(root, j.entries[i].destination)
         && j.entries[i].backup == BackupPath(j.workRoot, i)
  }

  /**
    Which journals recovery acts on, whoever wrote them: journals of this installation with 1 to 64
    entries, whose destinations lie inside the installation and whose backups are the numbered ones
    in the transaction's own directory.
   */
  lemma ValidJournalExactly(root: Path, j: Journal)
    requires IsPath(root) && 1 < |root|
    requires forall i | 0 <= i < |j.entries| :: IsPath(j.entries[i].destination)
    ensures ValidJournal(root, j) <==>
              && j.root == root && j.workRoot == root[..|root| - 1] + [".mkwc-transaction-" + j.id]
              && 1 <= |j.entries| <= 64
              && forall i | 0 <= i < |j.entries| ::
                   && root <= j.entries[i].destination
                   && j.entries[i].backup == j.workRoot + ["backup", IndexName(i)]
  {
    forall i | 0 <= i < |j.entries|
      ensures PathContains(root, j.entries[i].destination) <==> root <= j.entries[i].destination
    {
      PathContainsExactly(root, j.entries[i].destination);
    }
  }

  // ---------- the meaning of a transaction ----------

  /** The entries of a transaction with what stood at each destination and what was to replace it. */
  datatype Plan = Plan(root: Path, id: string, entries: seq<Entry>,
                       originals: seq<Tree>, replacements: seq<Tree>, config: Config)

  /** What the volume holds at the three paths of an entry. */
  datatype Slot = Slot(backup: Tree, destination: Tree, prepared: Tree)

  /** What is prepared for a destination. A drive's root can never be moved in: what it holds does not matter. */
  ghost function PreparedTree(v: Volume, prepared: Path, kind: Kind): Tree {
    if |prepared| == 1 then Rooted(kind, map[]) else At(v, prepared)
  }

  ghost function SlotOf(v: Volume, e: Entry): Slot {
    Slot(At(v, e.backup), At(v, e.destination), PreparedTree(v, e.prepared, e.kind))
  }

  /** A prepared path keeps clear of another path, unless it is a drive's root. */
  ghost predicate ClearOf(prepared: Path, q: Path) {
    |prepared| == 1 || Disjoint(prepared, q)
  }

  ghost predicate Apart(e: Entry, f: Entry) {
    && Disjoint(e.destination, f.destination) && Disjoint(e.backup, f.backup)
    && Disjoint(e.destination, f.backup) && Disjoint(f.destination, e.backup)
    && ClearOf(e.prepared, f.destination) && ClearOf(e.prepared, f.backup)
    && ClearOf(f.prepared, e.destination) && ClearOf(f.prepared, e.backup)
    && (|f.prepared| == 1 || ClearOf(e.prepared, f.prepared))
  }

  ghost predicate SelfApart(e: Entry) {
    && 1 < |e.destination| && 0 < |e.prepared| && 1 < |e.backup|
    && Disjoint(e.destination, e.backup)
    && ClearOf(e.prepared, e.destination) && ClearOf(e.prepared, e.backup)
  }

  ghost predicate WellFormedPlan(p: Plan) {
    && IsPath(p.root) && 1 < |p.root|
    && |p.originals| == |p.replacements| == |p.entries|
    && 0 < |p.entries|
    && (forall i | 0 <= i < |p.entries| :: EntryOfPlan(p, i))
    && (forall i, j | 0 <= i < |p.entries| && 0 <= j < |p.entries| && i != j :: Apart(p.entries[i], p.entries[j]))
  }

  ghost predicate EntryOfPlan(p: Plan, i: nat)
    requires i < |p.entries| == |p.originals| == |p.replacements| && 0 < |p.root|
  {
    var e := p.entries[i];
    && SelfApart(e)
    && Disjoint(WorkRoot(p.root, p.id), e.destination)
    && PathContains(p.root, e.destination)
    && e.backup == BackupPath(WorkRoot(p.root, p.id), i)
    && (e.originalExisted <==> p.originals[i] != Nothing)
    && p.replacements[i] != Nothing
    && HasKind(p.originals[i], e.kind) && HasKind(p.replacements[i], e.kind)
  }

  ghost predicate JournalOf(p: Plan, j: Journal) {
    && 0 < |p.root|
    && j.root == p.root && j.id == p.id && j.workRoot == WorkRoot(p.root, p.id) && j.entries == p.entries
    && (j.configMutationPlanned ==> j.configPreimage == p.config)
  }

  /** Rollback can tell from the three paths alone how to bring the original back. */
  ghost predicate Restorable(s: Slot, original: Tree, kind: Kind) {
    && HasKind(s.destination, kind)
    && if original != Nothing
       then s.backup == original || (s.backup == Nothing && s.destination == original)
       else s.backup == Nothing && (s.destination == Nothing || s.prepared == Nothing)
  }

  ghost predicate AllRestorable(p: Plan, v: Volume)
    requires WellFormedPlan(p)
  {
    forall i | 0 <= i < |p.entries| ::
      && Restorable(SlotOf(v, p.entries[i]), p.originals[i], p.entries[i].kind)
      && (p.entries[i].originalExisted ==> ParentsFree(v, p.entries[i].destination))
  }

  ghost predicate DestinationsHold(p: Plan, v: Volume, trees: seq<Tree>)
    requires |trees| == |p.entries|
  {
    forall i | 0 <= i < |p.entries| :: At(v, p.entries[i].destination) == trees[i]
  }

  /** Every destination and the configuration are what they were before the transaction. */
  ghost predicate ExactlyOld(p: Plan, v: Volume, config: Config)
    requires WellFormedPlan(p)
  {
    DestinationsHold(p, v, p.originals) && config == p.config
  }

  /** Every destination is its replacement, and the configuration is the one that was committed. */
  ghost predicate ExactlyNew(p: Plan, v: Volume, config: Config, committed: Config)
    requires WellFormedPlan(p)
  {
    DestinationsHold(p, v, p.replacements) && config == committed
  }

  /** A crash here loses the update: the durable journal is not Committed, and the old state can be had. */
  ghost predicate RecoverableToOld(p: Plan, v: Volume, stored: Stored, config: Config) {
    && WellFormedPlan(p) && Closed(v)
    && match stored
       case NoJournal => ExactlyOld(p, v, config)
       case Stored(j) =>
         && JournalOf(p, j)
         && match j.state
            case RolledBack => ExactlyOld(p, v, config)
            case Committed => false
            case _ => AllRestorable(p, v) && (config == p.config || j.configMutationPlanned)
  }

  /** A crash here keeps the update: the durable journal is Committed, or was and is gone. */
  ghost predicate RecoverableToNew(p: Plan, v: Volume, stored: Stored, config: Config, committed: Config) {
    && WellFormedPlan(p) && Closed(v)
    && ExactlyNew(p, v, config, committed)
    && (stored.Stored? ==> JournalOf(p, stored.journal) && stored.journal.state == Committed)
  }

  // ---------- lemmas ----------

  lemma WorkRootIsApart(root: Path, id: string, q: Path)
    requires 0 < |root| && root <= q && root != WorkRoot(root, id)
    ensures Disjoint(WorkRoot(root, id), q)
  {
    var w := WorkRoot(root, id);
    assert q[..|root|] == root;
  }

  lemma BelowWorkRoot(workRoot: Path, index: nat, q: Path)
    requires Disjoint(workRoot, q)
    ensures Disjoint(BackupPath(workRoot, index), q)
  {
    var b := BackupPath(workRoot, index);
    assert workRoot <= b;
    if q <= b {
      SuffixPath(workRoot, q, ["backup", IndexName(index)]);
    }
  }

  lemma BackupsAreApart(workRoot: Path, i: nat, j: nat)
    requires i != j
    ensures Disjoint(BackupPath(workRoot, i), BackupPath(workRoot, j))
  {
    var a, b := BackupPath(workRoot, i), BackupPath(workRoot, j);
    if a <= b || b <= a {
      assert a == b && a[|workRoot| + 1] == IndexName(i) && b[|workRoot| + 1] == IndexName(j);
      IndexNameIsInjective(i, j);
    }
  }

  // A prepared path that exists cannot meet a work directory that does not exist yet: inside it
  // there is nothing, and above it lies the installation that holds the destination.
  lemma PreparedMissesWorkRoot(v: Volume, root: Path, id: string, prepared: Path, destination: Path)
    requires Closed(v) && 0 < |root| && WorkRoot(root, id) !in v && prepared in v
    requires root <= destination && Disjoint(prepared, destination)
    ensures Disjoint(WorkRoot(root, id), prepared)
  {
    var w := WorkRoot(root, id);
    if |w| <= |prepared| {
      assert prepared[..|prepared|] == prepared;
      assert prepared[..|w|] in v && prepared[..|w|] != w;
    }
    assert prepared <= w && prepared != w ==> prepared <= root;
    assert prepared <= root ==> prepared <= destination;
  }

  /** An accepted request keeps its two trees apart exactly when the prepared one is not the whole drive. */
  lemma AdmissibleIsDisjointExactly(v: Volume, root: Path, r: Request)
    requires IsPath(root) && 1 < |root| && IsPath(r.prepared) && IsPath(r.destination)
    requires RequestAdmissible(v, root, r)
    ensures Disjoint(r.prepared, r.destination) <==> r.prepared != [root[0]]
  {
    PathContainsExactly(root, r.destination);
    NoOverlapExactly(r.prepared, r.destination);
    assert r.destination[0] == root[0];
  }

  /** The whole drive is accepted as the replacement for a directory on it. */
  lemma DriveRootIsAccepted()
    ensures var v: Volume := map[["C:"] := Directory];
      && Closed(v)
      && RequestAdmissible(v, ["C:", "root"], Request(["C:"], ["C:", "root", "game"], DirectoryKind))
      && ["C:"] <= ["C:", "root", "game"]
  {
    var prepared, destination := ["C:"], ["C:", "root", "game"];
    assert destination[..2] == ["C:", "root"];
    PathContainsExactly(["C:", "root"], destination);
    NoOverlapExactly(prepared, destination);
  }

  lemma AdmissibleClearsWorkRoot(v: Volume, root: Path, id: string, rs: seq<Request>, i: nat)
    requires WellFormedRequests(root, rs) && Closed(v) && Admissible(v, root, rs) && i < |rs|
    requires WorkRoot(root, id) !in v && WorkRoot(root, id) != root
    ensures var w := WorkRoot(root, id);
      && Disjoint(w, rs[i].destination) && ClearOf(rs[i].prepared, w) && 1 < |rs[i].destination|
      && ClearOf(rs[i].prepared, rs[i].destination)
    ensures forall k: nat ::
      Disjoint(rs[i].destination, BackupPath(WorkRoot(root, id), k)) &&
      ClearOf(rs[i].prepared, BackupPath(WorkRoot(root, id), k))
  {
    var r, w := rs[i], WorkRoot(root, id);
    assert RequestAdmissible(v, root, r);
    PathContainsExactly(root, r.destination);
    NoOverlapExactly(r.prepared, r.destination);
    WorkRootIsApart(root, id, r.destination);
    if 1 < |r.prepared| {
      PreparedMissesWorkRoot(v, root, id, r.prepared, r.destination);
    }
    forall k: nat
      ensures Disjoint(r.destination, BackupPath(w, k)) && ClearOf(r.prepared, BackupPath(w, k))
    {
      BelowWorkRoot(w, k, r.destination);
      if 1 < |r.prepared| {
        BelowWorkRoot(w, k, r.prepared);
      }
    }
  }

  lemma AdmissibleEntriesApart(v: Volume, root: Path, id: string, rs: seq<Request>, i: nat, j: nat)
    requires WellFormedRequests(root, rs) && Closed(v) && Admissible(v, root, rs) && j < i < |rs|
    requires WorkRoot(root, id) !in v && WorkRoot(root, id) != root
    ensures var es := Normalized(v, WorkRoot(root, id), rs); Apart(es[i], es[j]) && Apart(es[j], es[i])
  {
    assert RequestsApart(rs[i], rs[j]);
    NoOverlapExactly(rs[i].destination, rs[j].destination);
    NoOverlapExactly(rs[i].prepared, rs[j].prepared);
    NoOverlapExactly(rs[i].prepared, rs[j].destination);
    NoOverlapExactly(rs[i].destination, rs[j].prepared);
    BackupsAreApart(WorkRoot(root, id), i, j);
    AdmissibleClearsWorkRoot(v, root, id, rs, i);
    AdmissibleClearsWorkRoot(v, root, id, rs, j);
  }

  /** What Begin accepts is a well-formed plan over the volume it looked at. */
  lemma AdmissibleGivesPlan(v: Volume, root: Path, id: string, rs: seq<Request>, config: Config)
    returns (p: Plan)
    requires WellFormedRequests(root, rs) && Closed(v) && 0 < |rs| && Admissible(v, root, rs)
    requires WorkRoot(root, id) !in v && WorkRoot(root, id) != root
    ensures WellFormedPlan(p) && p.root == root && p.id == id && p.config == config
    ensures p.entries == Normalized(v, WorkRoot(root, id), rs)
    ensures forall i | 0 <= i < |rs| ::
      && p.originals[i] == At(v, rs[i].destination)
      && p.replacements[i] == PreparedTree(v, rs[i].prepared, rs[i].kind)
  {
    var w := WorkRoot(root, id);
    var es := Normalized(v, w, rs);
    p := Plan(root, id, es,
              seq(|rs|, i requires 0 <= i < |rs| => At(v, rs[i].destination)),
              seq(|rs|, i requires 0 <= i < |rs| => PreparedTree(v, rs[i].prepared, rs[i].kind)),
              config);
    forall i | 0 <= i < |rs|
      ensures EntryOfPlan(p, i)
    {
      AdmissibleClearsWorkRoot(v, root, id, rs, i);
      assert RequestAdmissible(v, root, rs[i]);
    }
    forall i, j | 0 <= j < i < |rs|
      ensures Apart(es[i], es[j]) && Apart(es[j], es[i])
    {
      AdmissibleEntriesApart(v, root, id, rs, i, j);
    }
  }

  /** Recovery accepts the journal Begin writes exactly when it has at most 64 entries; Begin never asks. */
  lemma OwnJournalIsValidExactly(p: Plan, j: Journal)
    requires WellFormedPlan(p) && JournalOf(p, j)
    ensures ValidJournal(p.root, j) <==> |p.entries| <= 64
  {
    forall i | 0 <= i < |p.entries|
      ensures 0 < |j.entries[i].destination|
      ensures PathContains(p.root, j.entries[i].destination)
      ensures j.entries[i].backup == BackupPath(j.workRoot, i)
    {
      assert EntryOfPlan(p, i);
    }
  }

  /** A path of the entry that a move may start from or lead to. */
  ghost predicate PathOf(e: Entry, q: Path) {
    q == e.backup || q == e.destination || (q == e.prepared && |q| != 1)
  }

  /** A move between two paths of one entry leaves every other entry's paths alone. */
  lemma MoveWithinEntry(p: Plan, v: Volume, i: nat, source: Path, target: Path)
    requires WellFormedPlan(p) && i < |p.entries|
    requires PathOf(p.entries[i], source) && PathOf(p.entries[i], target)
    ensures forall k | 0 <= k < |p.entries| && k != i ::
      && SlotOf(Moved(v, source, target), p.entries[k]) == SlotOf(v, p.entries[k])
      && SlotOf(WithParents(v, target), p.entries[k]) == SlotOf(v, p.entries[k])
      && (ParentsFree(v, p.entries[k].destination) ==>
            ParentsFree(Moved(v, source, target), p.entries[k].destination)
            && ParentsFree(WithParents(v, target), p.entries[k].destination))
  {
    assert EntryOfPlan(p, i);
    forall k | 0 <= k < |p.entries| && k != i
      ensures SlotOf(Moved(v, source, target), p.entries[k]) == SlotOf(v, p.entries[k])
      ensures SlotOf(WithParents(v, target), p.entries[k]) == SlotOf(v, p.entries[k])
      ensures ParentsFree(v, p.entries[k].destination) ==>
                ParentsFree(Moved(v, source, target), p.entries[k].destination)
                && ParentsFree(WithParents(v, target), p.entries[k].destination)
    {
      var f := p.entries[k];
      assert Apart(p.entries[i], f);
      MoveSpares(v, source, target, f.backup);
      MoveSpares(v, source, target, f.destination);
      ParentsKeepTrees(v, target, f.backup);
      ParentsKeepTrees(v, target, f.destination);
      if |f.prepared| != 1 {
        MoveSpares(v, source, target, f.prepared);
        ParentsKeepTrees(v, target, f.prepared);
      }
      if ParentsFree(v, f.destination) {
        MoveKeepsParentsFree(v, source, target, f.destination);
      }
    }
  }

  lemma DeleteDestination(p: Plan, v: Volume, v': Volume, i: nat)
    requires WellFormedPlan(p) && i < |p.entries| && Closed(v)
    requires PartlyDeleted(v, v', p.entries[i].destination)
    ensures forall k | 0 <= k < |p.entries| && k != i :: SlotOf(v', p.entries[k]) == SlotOf(v, p.entries[k])
    ensures SlotOf(v', p.entries[i]).backup == SlotOf(v, p.entries[i]).backup
    ensures SlotOf(v', p.entries[i]).prepared == SlotOf(v, p.entries[i]).prepared
    ensures HasKind(SlotOf(v, p.entries[i]).destination, p.entries[i].kind) ==>
              HasKind(SlotOf(v', p.entries[i]).destination, p.entries[i].kind)
    ensures forall k | 0 <= k < |p.entries| && ParentsFree(v, p.entries[k].destination) ::
              ParentsFree(v', p.entries[k].destination)
  {
    var e := p.entries[i];
    assert EntryOfPlan(p, i);
    DeleteSpares(v, v', e.destination, e.backup);
    if |e.prepared| != 1 { DeleteSpares(v, v', e.destination, e.prepared); }
    forall k | 0 <= k < |p.entries| && k != i
      ensures SlotOf(v', p.entries[k]) == SlotOf(v, p.entries[k])
    {
      var f := p.entries[k];
      assert Apart(e, f);
      DeleteSpares(v, v', e.destination, f.backup);
      DeleteSpares(v, v', e.destination, f.destination);
      if |f.prepared| != 1 { DeleteSpares(v, v', e.destination, f.prepared); }
    }
  }

  lemma DeleteWorkRoot(p: Plan, v: Volume, v': Volume)
    requires WellFormedPlan(p)
    requires PartlyDeleted(v, v', WorkRoot(p.root, p.id))
    ensures forall k | 0 <= k < |p.entries| :: At(v', p.entries[k].destination) == At(v, p.entries[k].destination)
  {
    forall k | 0 <= k < |p.entries|
      ensures At(v', p.entries[k].destination) == At(v, p.entries[k].destination)
    {
      assert EntryOfPlan(p, k);
      DeleteSpares(v, v', WorkRoot(p.root, p.id), p.entries[k].destination);
    }
  }

  // Staged files 0000, 0001, ... and the places in the installation they are to go to.
  function StagedRequest(i: nat): Request {
    Request(["C:", "stage", IndexName(i)], ["C:", "root", IndexName(i)], FileKind)
  }

  function StagedVolume(n: nat): Volume {
    var files := set i | 0 <= i < n :: StagedRequest(i).prepared;
    (map k | k in files :: File([])) + map[["C:"] := Directory, ["C:", "stage"] := Directory]
  }

  lemma StagedRequestsApart(i: nat, j: nat)
    requires i != j
    ensures RequestsApart(StagedRequest(i), StagedRequest(j))
  {
    var r, q := StagedRequest(i), StagedRequest(j);
    if IndexName(i) == IndexName(j) {
      IndexNameIsInjective(i, j);
    }
    assert r.prepared[2] != q.prepared[2] && r.destination[2] != q.destination[2];
    assert r.prepared[1] != q.destination[1] && r.destination[1] != q.prepared[1];
    NoOverlapExactly(r.prepared, q.prepared);
    NoOverlapExactly(r.destination, q.destination);
    NoOverlapExactly(r.prepared, q.destination);
    NoOverlapExactly(r.destination, q.prepared);
  }

  lemma NothingStagedBelowRoot(n: nat, k: Path)
    requires k in StagedVolume(n) && |k| == 3
    ensures k[1] == "stage"
  {
  }

  lemma StagedFileExists(n: nat, i: nat)
    requires i < n
    ensures Exists(StagedVolume(n), StagedRequest(i).prepared, FileKind)
    ensures StagedRequest(i).destination !in StagedVolume(n)
  {
    assert StagedRequest(i).prepared in StagedVolume(n);
    if StagedRequest(i).destination in StagedVolume(n) {
      NothingStagedBelowRoot(n, StagedRequest(i).destination);
    }
  }

  lemma StagedFileGoesIn(i: nat)
    ensures PathContains(["C:", "root"], StagedRequest(i).destination)
    ensures !PathsOverlap(StagedRequest(i).prepared, StagedRequest(i).destination)
  {
    var r := StagedRequest(i);
    StagedPaths(i);
    assert r.destination[..2] == ["C:", "root"];
    assert r.prepared[1] != r.destination[1];
    PathContainsExactly(["C:", "root"], r.destination);
    NoOverlapExactly(r.prepared, r.destination);
  }

  lemma StagedRequestAdmissible(n: nat, i: nat)
    requires i < n
    ensures RequestAdmissible(StagedVolume(n), ["C:", "root"], StagedRequest(i))
  {
    StagedFileExists(n, i);
    StagedFileGoesIn(i);
  }

  lemma StagedVolumeClosed(n: nat)
    ensures Closed(StagedVolume(n))
    ensures forall k | k in StagedVolume(n) && |k| == 2 :: k == ["C:", "stage"]
  {
    var v := StagedVolume(n);
    forall k, j | k in v && 0 < j < |k|
      ensures k[..j] in v && v[k[..j]].Directory?
    {
      if |k| == 3 {
        assert k[..1] == ["C:"] && k[..2] == ["C:", "stage"];
      } else {
        assert k[..1] == ["C:"];
      }
    }
  }

  lemma StagedPaths(i: nat)
    ensures IsPath(StagedRequest(i).prepared) && IsPath(StagedRequest(i).destination)
  {
    assert IsName(IndexName(i)) && IsName("C:") && IsName("stage") && IsName("root");
  }

  /** Begin takes any number of entries. */
  lemma AnyNumberOfEntriesIsAccepted(n: nat) returns (v: Volume, root: Path, rs: seq<Request>)
    ensures v == StagedVolume(n) && root == ["C:", "root"]
    ensures WellFormedRequests(root, rs) && BelowDrives(rs) && |rs| == n && Admissible(v, root, rs)
  {
    v, root := StagedVolume(n), ["C:", "root"];
    rs := seq(n, i requires 0 <= i < n => StagedRequest(i));
    assert WellFormedRequests(root, rs) by {
      forall i | 0 <= i < n
        ensures IsPath(rs[i].prepared) && IsPath(rs[i].destination)
      {
        StagedPaths(i);
      }
    }
    assert forall i | 0 <= i < n :: |rs[i].prepared| == 3;
    forall i | 0 <= i < n
      ensures RequestAdmissible(v, root, rs[i])
    {
      StagedRequestAdmissible(n, i);
    }
    forall i, j | 0 <= j < i < n
      ensures RequestsApart(rs[i], rs[j])
    {
      StagedRequestsApart(i, j);
    }
  }

  lemma WorkRootIsNew(n: nat, id: string)
    ensures WorkRoot(["C:", "root"], id) !in StagedVolume(n) && WorkRoot(["C:", "root"], id) != ["C:", "root"]
  {
    var name := ".mkwc-transaction-" + id;
    assert Parent(["C:", "root"]) == ["C:"];
    assert WorkRoot(["C:", "root"], id) == ["C:", name];
    assert name[0] == '.' && "stage"[0] == 's' && "root"[0] == 'r';
    StagedVolumeClosed(n);
  }

  /** 64 admissible entries make a journal that Begin writes and that every recovery reads. */
  lemma SixtyFourEntriesCanBeRecovered(id: string)
    returns (v: Volume, root: Path, rs: seq<Request>)
    ensures |rs| == 64 && WellFormedRequests(root, rs) && Closed(v) && Admissible(v, root, rs)
    ensures WorkRoot(root, id) !in v && WorkRoot(root, id) != root
    ensures forall j: Journal |
      j.root == root && j.id == id && j.workRoot == WorkRoot(root, id)
      && j.entries == Normalized(v, WorkRoot(root, id), rs) && j.configMutationPlanned == false
      :: ValidJournal(root, j)
  {
    v, root, rs := AnyNumberOfEntriesIsAccepted(64);
    StagedVolumeClosed(64);
    WorkRootIsNew(64, id);
    var p := AdmissibleGivesPlan(v, root, id, rs, NoConfig);
    forall j: Journal | j.root == root && j.id == id && j.workRoot == WorkRoot(root, id)
      && j.entries == p.entries && j.configMutationPlanned == false
      ensures ValidJournal(root, j)
    {
      OwnJournalIsValidExactly(p, j);
    }
  }

  /**
    65 admissible entries make a journal that Begin writes and that no recovery will read, so an
    interrupted update of that size can be neither rolled back nor cleaned up.
   */
  lemma SixtyFiveEntriesCannotBeRecovered(id: string)
    returns (v: Volume, root: Path, rs: seq<Request>)
    ensures WellFormedRequests(root, rs) && BelowDrives(rs) && Closed(v) && Admissible(v, root, rs)
    ensures WorkRoot(root, id) !in v && WorkRoot(root, id) != root
    ensures forall j: Journal |
      j.root == root && j.id == id && j.workRoot == WorkRoot(root, id)
      && j.entries == Normalized(v, WorkRoot(root, id), rs) && j.configMutationPlanned == false
      :: !ValidJournal(root, j)
  {
    v, root, rs := AnyNumberOfEntriesIsAccepted(65);
    StagedVolumeClosed(65);
    WorkRootIsNew(65, id);
    var p := AdmissibleGivesPlan(v, root, id, rs, NoConfig);
    forall j: Journal | j.root == root && j.id == id && j.workRoot == WorkRoot(root, id)
      && j.entries == p.entries && j.configMutationPlanned == false
      ensures !ValidJournal(root, j)
    {
      OwnJournalIsValidExactly(p, j);
    }
  }
}

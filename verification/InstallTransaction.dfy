/**
  The install transaction itself (InstallTransaction.cs): a disk whose every operation may fail or be
  the last one before a crash, and the Begin / Publish / RecordRuntimeConfigurationMutation / Commit /
  Recover protocol over it.
 */
module InstallTransactions {
  import opened Paths
  import opened FileTree
  import opened TransactionJournal

  datatype Fault = WrongState | BadRequest | Unfinished | BadJournal | BackupMissing | Ambiguous | DiskFault

  /** How an operation ends. After Crashed no further code of the process runs. */
  datatype Outcome = Done | Failed(fault: Fault) | Crashed

  ghost predicate OnlyParents(v: Volume, v': Volume, path: Path) {
    ParentsFree(v, path) && v' == WithParents(v, path)
  }

  /**
    The durable state, and whether the process still runs. Each method is one step of the process: it
    may complete, fail, or be cut off by a crash before or after its effect, and a delete may be cut
    off anywhere. A healthy disk only fails where the file system refuses the request.
   */
  class Disk {
    var volume: Volume
    var stored: Stored
    var config: Config
    var running: bool
    const healthy: bool

    constructor (volume: Volume, config: Config, healthy: bool)
      ensures this.volume == volume && this.config == config && stored == NoJournal
      ensures this.healthy == healthy && running
    {
      this.volume, this.config, this.stored := volume, config, NoJournal;
      this.healthy, this.running := healthy, true;
    }

    /** Directory.CreateDirectory of the directory that is to hold path. */
    method CreateParents(path: Path) returns (o: Outcome)
      requires running && Closed(volume) && 0 < |path|
      modifies `volume, `running
      ensures o.Crashed? <==> !running
      ensures Closed(volume)
      ensures o.Done? ==> ParentsFree(old(volume), path) && volume == WithParents(old(volume), path)
      ensures o.Failed? ==> o.fault == DiskFault && volume == old(volume)
      ensures volume == old(volume) || OnlyParents(old(volume), volume, path)
      ensures healthy && ParentsFree(old(volume), path) ==> !o.Failed?
    {
      if * {
        running := false;
        return Crashed;
      }
      var before := volume;
      var free := forall n | 0 < n < |path| :: path[..n] in before ==> before[path[..n]].Directory?;
      if !free { return Failed(DiskFault); }
      if !healthy {
        if * { return Failed(DiskFault); }
      }
      ParentsKeepClosed(before, path);
      volume := WithParents(before, path);
      if * {
        running := false;
        return Crashed;
      }
      return Done;
    }

    method Move(source: Path, target: Path, kind: Kind) returns (o: Outcome)
      requires running && Closed(volume) && 0 < |source| && 0 < |target|
      modifies `volume, `running
      ensures o.Crashed? <==> !running
      ensures Closed(volume)
      ensures o.Done? ==> Movable(old(volume), source, target, kind) && volume == Moved(old(volume), source, target)
      ensures o.Failed? ==> volume == old(volume) || OnlyParents(old(volume), volume, target)
      ensures o.Crashed? ==>
        || volume == old(volume)
        || OnlyParents(old(volume), volume, target)
        || (Movable(old(volume), source, target, kind) && volume == Moved(old(volume), source, target))
      ensures o.Failed? ==> o.fault == DiskFault
      ensures healthy && Movable(old(volume), source, target, kind) ==> !o.Failed?
    {
      var before := volume;
      o := CreateParents(target);
      if !o.Done? { return; }
      if !Exists(before, source, kind) || |source| == 1 || target in before || source <= target || target <= source {
        return Failed(DiskFault);
      }
      if !healthy {
        if * { return Failed(DiskFault); }
      }
      MoveKeepsClosed(before, source, target);
      volume := Moved(before, source, target);
      if * {
        running := false;
        return Crashed;
      }
      return Done;
    }

    method Delete(path: Path) returns (o: Outcome)
      requires running && Closed(volume) && 0 < |path|
      modifies `volume, `running
      ensures o.Crashed? <==> !running
      ensures PartlyDeleted(old(volume), volume, path)
      ensures o.Done? ==> path !in volume
      ensures o.Failed? ==> o.fault == DiskFault && !healthy
    {
      var before := volume;
      if * {
        // Only part of the tree is gone; what stayed still lies in directories that stayed.
        var left: set<Path> := *;
        var partial := map k | k in before && (!(path <= k) || k in left) :: before[k];
        var closed := forall k | k in partial :: forall n | 0 < n < |k| :: k[..n] in partial;
        if closed {
          assert Closed(partial);
          volume := partial;
        }
        var failed := *;
        if failed && !healthy { return Failed(DiskFault); }
        running := false;
        return Crashed;
      }
      volume := Without(before, path);
      assert Closed(volume) by {
        forall k, n | k in volume && 0 < n < |k|
          ensures k[..n] in volume && volume[k[..n]].Directory?
        {
          assert k in before && !(path <= k[..n]);
        }
      }
      if * {
        running := false;
        return Crashed;
      }
      return Done;
    }

    method WriteJournal(j: Journal) returns (o: Outcome)
      requires running
      modifies `stored, `running
      ensures o.Crashed? <==> !running
      ensures o.Done? ==> stored == Stored(j)
      ensures o.Failed? ==> stored == old(stored) && o.fault == DiskFault && !healthy
      ensures o.Crashed? ==> stored == old(stored) || stored == Stored(j)
    {
      if * {
        running := false;
        return Crashed;
      }
      if !healthy {
        if * { return Failed(DiskFault); }
      }
      stored := Stored(j);
      if * {
        running := false;
        return Crashed;
      }
      return Done;
    }

    method DeleteJournal() returns (o: Outcome)
      requires running
      modifies `stored, `running
      ensures o.Crashed? <==> !running
      ensures o.Done? ==> stored == NoJournal
      ensures o.Failed? ==> stored == old(stored) && o.fault == DiskFault && !healthy
      ensures o.Crashed? ==> stored == old(stored) || stored == NoJournal
    {
      if * {
        running := false;
        return Crashed;
      }
      if !healthy {
        if * { return Failed(DiskFault); }
      }
      stored := NoJournal;
      if * {
        running := false;
        return Crashed;
      }
      return Done;
    }

    /** RuntimeConfiguration.Restore and the atomic config writer: old contents or new ones. */
    method WriteConfig(c: Config) returns (o: Outcome)
      requires running
      modifies `config, `running
      ensures o.Crashed? <==> !running
      ensures o.Done? ==> config == c
      ensures o.Failed? ==> config == old(config) && o.fault == DiskFault && !healthy
      ensures o.Crashed? ==> config == old(config) || config == c
    {
      if * {
        running := false;
        return Crashed;
      }
      if !healthy {
        if * { return Failed(DiskFault); }
      }
      config := c;
      if * {
        running := false;
        return Crashed;
      }
      return Done;
    }
  }

  /** A slot whose turn has not come, and one whose replacement is in place. */
  ghost predicate Untouched(p: Plan, v: Volume, i: nat)
    requires WellFormedPlan(p) && i < |p.entries|
  {
    SlotOf(v, p.entries[i]) == Slot(Nothing, p.originals[i], p.replacements[i])
  }

  ghost predicate Replaced(p: Plan, v: Volume, i: nat)
    requires WellFormedPlan(p) && i < |p.entries|
  {
    SlotOf(v, p.entries[i]) == Slot(p.originals[i], p.replacements[i], Nothing)
  }

  /** Only entry i's own paths may have changed. */
  ghost predicate OthersKept(p: Plan, v: Volume, v': Volume, i: nat) {
    forall k | 0 <= k < |p.entries| && k != i :: SlotOf(v', p.entries[k]) == SlotOf(v, p.entries[k])
  }

  ghost predicate VolumeRestorable(p: Plan, v: Volume) {
    WellFormedPlan(p) && Closed(v) && AllRestorable(p, v)
  }

  /** What the existence tests of RollBackEntry say about the trees. */
  ghost predicate ExistenceTells(v: Volume, e: Entry, original: Tree) {
    && 1 < |e.destination| && 1 < |e.backup|
    && (Exists(v, e.destination, e.kind) <==> e.destination in v)
    && (e.destination in v <==> At(v, e.destination) != Nothing)
    && (Exists(v, e.prepared, e.kind) ==> PreparedTree(v, e.prepared, e.kind) != Nothing)
    && (Exists(v, e.backup, e.kind) <==> At(v, e.backup) != Nothing)
    && (Exists(v, e.backup, e.kind) ==> e.originalExisted && At(v, e.backup) == original)
    && (e.originalExisted <==> original != Nothing)
    && Restorable(SlotOf(v, e), original, e.kind)
    && Disjoint(e.backup, e.destination)
  }

  lemma WhatExistsAt(v: Volume, e: Entry, original: Tree)
    requires Closed(v) && SelfApart(e) && Restorable(SlotOf(v, e), original, e.kind)
    requires HasKind(original, e.kind) && (e.originalExisted <==> original != Nothing)
    ensures ExistenceTells(v, e, original)
  {
  }

  lemma WhatExists(p: Plan, v: Volume, i: nat)
    requires VolumeRestorable(p, v) && i < |p.entries|
    ensures ExistenceTells(v, p.entries[i], p.originals[i])
    ensures p.entries[i].originalExisted ==> ParentsFree(v, p.entries[i].destination)
  {
    assert EntryOfPlan(p, i);
    WhatExistsAt(v, p.entries[i], p.originals[i]);
  }

  /** Changing one entry's paths keeps everything restorable when that entry stays restorable. */
  lemma OneEntryChanged(p: Plan, v: Volume, v': Volume, i: nat)
    requires WellFormedPlan(p) && AllRestorable(p, v) && i < |p.entries|
    requires forall k | 0 <= k < |p.entries| && k != i ::
      && SlotOf(v', p.entries[k]) == SlotOf(v, p.entries[k])
      && (ParentsFree(v, p.entries[k].destination) ==> ParentsFree(v', p.entries[k].destination))
    requires Restorable(SlotOf(v', p.entries[i]), p.originals[i], p.entries[i].kind)
    requires p.entries[i].originalExisted ==> ParentsFree(v', p.entries[i].destination)
    ensures AllRestorable(p, v')
  {
    forall k | 0 <= k < |p.entries|
      ensures Restorable(SlotOf(v', p.entries[k]), p.originals[k], p.entries[k].kind)
      ensures p.entries[k].originalExisted ==> ParentsFree(v', p.entries[k].destination)
    {
      if k != i {
        assert Restorable(SlotOf(v, p.entries[k]), p.originals[k], p.entries[k].kind);
      }
    }
  }

  /** The three trees of an entry when only directories above one of its paths were made. */
  lemma SlotParents(v: Volume, e: Entry, target: Path)
    requires Closed(v) && SelfApart(e) && PathOf(e, target) && target !in v && ParentsFree(v, target)
    ensures var w := WithParents(v, target);
      && Closed(w) && (ParentsFree(v, e.destination) ==> ParentsFree(w, e.destination)) && SlotOf(w, e) == SlotOf(v, e)
  {
    ParentsKeepClosed(v, target);
    ParentsKeepTrees(v, target, e.backup);
    ParentsKeepTrees(v, target, e.destination);
    if |e.prepared| != 1 { ParentsKeepTrees(v, target, e.prepared); }
    if target == e.destination {
      OwnParentsFree(v, target);
    } else if ParentsFree(v, e.destination) {
      MoveKeepsParentsFree(v, target, target, e.destination);
    }
  }

  lemma OwnParentsFree(v: Volume, q: Path)
    requires ParentsFree(v, q)
    ensures ParentsFree(WithParents(v, q), q)
  {
  }

  /** The three trees of an entry after a move from one of its paths to another. */
  lemma SlotMove(v: Volume, e: Entry, source: Path, target: Path)
    requires Closed(v) && SelfApart(e)
    requires PathOf(e, source) && PathOf(e, target) && source != target
    requires source in v && target !in v && ParentsFree(v, target)
    ensures var m := Moved(v, source, target);
      && Closed(m) && (ParentsFree(v, e.destination) ==> ParentsFree(m, e.destination))
      && At(m, source) == Nothing && At(m, target) == At(v, source)
      && (forall q | PathOf(e, q) && q != source && q != target :: At(m, q) == At(v, q))
  {
    var m := Moved(v, source, target);
    MoveKeepsClosed(v, source, target);
    MoveEmptiesSource(v, source, target);
    MoveFillsTarget(v, source, target);
    forall q | PathOf(e, q) && q != source && q != target
      ensures At(m, q) == At(v, q)
    {
      MoveSpares(v, source, target, q);
    }
    if target == e.destination {
      assert target in m;
    } else if ParentsFree(v, e.destination) {
      MoveKeepsParentsFree(v, source, target, e.destination);
    }
  }

  /** The missing directories above one of an entry's paths leave the plan as it is. */
  lemma ParentsMade(p: Plan, v: Volume, i: nat, target: Path)
    requires VolumeRestorable(p, v) && i < |p.entries| && PathOf(p.entries[i], target) && ParentsFree(v, target)
    requires target !in v
    ensures VolumeRestorable(p, WithParents(v, target)) && OthersKept(p, v, WithParents(v, target), i)
  {
    var e := p.entries[i];
    assert EntryOfPlan(p, i);
    SlotParents(v, e, target);
    MoveWithinEntry(p, v, i, target, target);
    assert Restorable(SlotOf(v, e), p.originals[i], e.kind);
    OneEntryChanged(p, v, WithParents(v, target), i);
  }

  /** What a move inside entry i leaves of the whole plan, before and after the rename itself. */
  lemma EntryMove(p: Plan, v: Volume, i: nat, source: Path, target: Path)
    requires VolumeRestorable(p, v) && i < |p.entries|
    requires PathOf(p.entries[i], source) && PathOf(p.entries[i], target) && source != target
    requires source in v && target !in v && ParentsFree(v, target)
    requires Restorable(SlotOf(Moved(v, source, target), p.entries[i]), p.originals[i], p.entries[i].kind)
    ensures VolumeRestorable(p, WithParents(v, target)) && OthersKept(p, v, WithParents(v, target), i)
    ensures VolumeRestorable(p, Moved(v, source, target)) && OthersKept(p, v, Moved(v, source, target), i)
  {
    var e := p.entries[i];
    assert EntryOfPlan(p, i);
    ParentsMade(p, v, i, target);
    SlotMove(v, e, source, target);
    MoveWithinEntry(p, v, i, source, target);
    OneEntryChanged(p, v, Moved(v, source, target), i);
  }

  lemma RestoreMove(p: Plan, v: Volume, i: nat)
    requires VolumeRestorable(p, v) && i < |p.entries|
    requires At(v, p.entries[i].backup) == p.originals[i] != Nothing
    requires p.entries[i].destination !in v
    ensures var w := WithParents(v, p.entries[i].destination);
      VolumeRestorable(p, w) && OthersKept(p, v, w, i)
    ensures var m := Moved(v, p.entries[i].backup, p.entries[i].destination);
      && VolumeRestorable(p, m) && OthersKept(p, v, m, i)
      && At(m, p.entries[i].destination) == p.originals[i]
  {
    var e := p.entries[i];
    assert EntryOfPlan(p, i);
    SlotMove(v, e, e.backup, e.destination);
    EntryMove(p, v, i, e.backup, e.destination);
  }

  /** Publish's first rename of an entry: the original is set aside. */
  lemma AsideMove(p: Plan, v: Volume, i: nat)
    requires VolumeRestorable(p, v) && i < |p.entries| && Untouched(p, v, i)
    requires p.originals[i] != Nothing && ParentsFree(v, p.entries[i].backup)
    ensures var w := WithParents(v, p.entries[i].backup);
      VolumeRestorable(p, w) && OthersKept(p, v, w, i)
    ensures var m := Moved(v, p.entries[i].destination, p.entries[i].backup);
      && VolumeRestorable(p, m) && OthersKept(p, v, m, i)
      && SlotOf(m, p.entries[i]) == Slot(p.originals[i], Nothing, p.replacements[i])
  {
    var e := p.entries[i];
    assert EntryOfPlan(p, i);
    SlotMove(v, e, e.destination, e.backup);
    EntryMove(p, v, i, e.destination, e.backup);
  }

  /** Publish's second rename of an entry: the prepared tree becomes the destination. */
  lemma ReplaceMove(p: Plan, v: Volume, i: nat)
    requires VolumeRestorable(p, v) && i < |p.entries|
    requires SlotOf(v, p.entries[i]) == Slot(p.originals[i], Nothing, p.replacements[i])
    requires |p.entries[i].prepared| != 1 && ParentsFree(v, p.entries[i].destination)
    ensures var w := WithParents(v, p.entries[i].destination);
      VolumeRestorable(p, w) && OthersKept(p, v, w, i)
    ensures var m := Moved(v, p.entries[i].prepared, p.entries[i].destination);
      && VolumeRestorable(p, m) && OthersKept(p, v, m, i) && Replaced(p, m, i)
  {
    var e := p.entries[i];
    assert EntryOfPlan(p, i);
    SlotMove(v, e, e.prepared, e.destination);
    EntryMove(p, v, i, e.prepared, e.destination);
  }

  lemma DeleteKeepsRestorable(p: Plan, v: Volume, v': Volume, i: nat)
    requires WellFormedPlan(p) && Closed(v) && AllRestorable(p, v) && i < |p.entries|
    requires PartlyDeleted(v, v', p.entries[i].destination)
    requires var s := SlotOf(v, p.entries[i]);
      if p.originals[i] != Nothing then s.backup == p.originals[i] else s.prepared == Nothing
    ensures VolumeRestorable(p, v') && OthersKept(p, v, v', i)
    ensures At(v', p.entries[i].backup) == At(v, p.entries[i].backup)
    ensures p.entries[i].destination !in v' ==> At(v', p.entries[i].destination) == Nothing
  {
    assert EntryOfPlan(p, i);
    DeleteDestination(p, v, v', i);
    assert Restorable(SlotOf(v, p.entries[i]), p.originals[i], p.entries[i].kind);
    OneEntryChanged(p, v, v', i);
  }

  /** The entries from i on can be moved: nothing but directories above their destinations and backups, and no
      drive's root among what is prepared. */
  ghost predicate RoomFrom(p: Plan, v: Volume, i: nat) {
    forall k | i <= k < |p.entries| ::
      && ParentsFree(v, p.entries[k].destination) && ParentsFree(v, p.entries[k].backup)
      && |p.entries[k].prepared| != 1
  }

  /** A move between paths of entry i leaves the others their room. */
  lemma MoveLeavesRoom(p: Plan, v: Volume, i: nat, source: Path, target: Path)
    requires WellFormedPlan(p) && i < |p.entries| && RoomFrom(p, v, i + 1)
    requires PathOf(p.entries[i], source) && (target == p.entries[i].backup || target == p.entries[i].destination)
    ensures RoomFrom(p, Moved(v, source, target), i + 1)
  {
    MoveWithinEntry(p, v, i, source, target);
    forall k | i + 1 <= k < |p.entries|
      ensures ParentsFree(Moved(v, source, target), p.entries[k].backup)
    {
      assert Apart(p.entries[i], p.entries[k]);
      MoveKeepsParentsFree(v, source, target, p.entries[k].backup);
    }
  }

  lemma KindAt(v: Volume, q: Path, tree: Tree, kind: Kind)
    requires At(v, q) == tree && HasKind(tree, kind)
    ensures tree != Nothing ==> Exists(v, q, kind)
    ensures tree == Nothing ==> q !in v
  {
  }

  /** An untouched entry with room can be set aside, and then still has room for its replacement. */
  lemma RoomToSetAside(p: Plan, v: Volume, i: nat)
    requires VolumeRestorable(p, v) && i < |p.entries| && Untouched(p, v, i)
    requires p.originals[i] != Nothing && ParentsFree(v, p.entries[i].backup)
    ensures var e := p.entries[i]; Movable(v, e.destination, e.backup, e.kind)
    ensures var e := p.entries[i]; var m := Moved(v, e.destination, e.backup);
      RoomFrom(p, v, i) ==> RoomFrom(p, m, i + 1) && ParentsFree(m, e.destination)
  {
    var e := p.entries[i];
    assert EntryOfPlan(p, i);
    KindAt(v, e.destination, p.originals[i], e.kind);
    KindAt(v, e.backup, Nothing, e.kind);
    SlotMove(v, e, e.destination, e.backup);
    if RoomFrom(p, v, i) {
      MoveLeavesRoom(p, v, i, e.destination, e.backup);
    }
  }

  /** With the destination clear the prepared tree can be moved in, and the later entries keep their room. */
  lemma RoomToReplace(p: Plan, v: Volume, i: nat)
    requires VolumeRestorable(p, v) && i < |p.entries|
    requires SlotOf(v, p.entries[i]) == Slot(p.originals[i], Nothing, p.replacements[i])
    requires |p.entries[i].prepared| != 1 && ParentsFree(v, p.entries[i].destination)
    ensures var e := p.entries[i]; Movable(v, e.prepared, e.destination, e.kind)
    ensures var e := p.entries[i];
      RoomFrom(p, v, i + 1) ==> RoomFrom(p, Moved(v, e.prepared, e.destination), i + 1)
  {
    var e := p.entries[i];
    assert EntryOfPlan(p, i);
    KindAt(v, e.prepared, p.replacements[i], e.kind);
    KindAt(v, e.destination, Nothing, e.kind);
    if RoomFrom(p, v, i + 1) {
      MoveLeavesRoom(p, v, i, e.prepared, e.destination);
    }
  }

  /** Deletes the work directory and then the journal of an operation whose outcome is settled. */
  method CleanUp(disk: Disk, journal: Journal, ghost p: Plan) returns (o: Outcome)
    requires disk.running && WellFormedPlan(p) && JournalOf(p, journal) && Closed(disk.volume)
    modifies disk`volume, disk`stored, disk`running
    ensures (o.Crashed? <==> !disk.running) && Closed(disk.volume)
    ensures forall k | 0 <= k < |p.entries| ::
              At(disk.volume, p.entries[k].destination) == At(old(disk.volume), p.entries[k].destination)
    ensures o.Done? ==> disk.stored == NoJournal && journal.workRoot !in disk.volume
    ensures disk.stored == old(disk.stored) || (disk.stored == NoJournal && journal.workRoot !in disk.volume)
    ensures o.Failed? ==> o.fault == DiskFault && !disk.healthy
  {
    ghost var v := disk.volume;
    o := disk.Delete(journal.workRoot);
    DeleteWorkRoot(p, v, disk.volume);
    if !o.Done? { return; }
    o := disk.DeleteJournal();
  }

  class InstallTransaction {
    const disk: Disk
    var journal: Journal
    var finished: bool
    ghost const plan: Plan

    constructor (disk: Disk, journal: Journal, ghost plan: Plan)
      ensures this.disk == disk && this.journal == journal && !finished && this.plan == plan
    {
      this.disk, this.journal, this.plan := disk, journal, plan;
      finished := false;
    }

    /** The journal in memory describes the plan, and the durable state can be taken back to old. */
    ghost predicate Valid()
      reads this, disk
    {
      && RecoverableToOld(plan, disk.volume, disk.stored, disk.config)
      && JournalOf(plan, journal)
      && (!finished ==> Pending())
    }

    /** The durable journal still asks for a rollback, and the one in memory knows no less. */
    ghost predicate Pending()
      reads this, disk
    {
      && disk.stored.Stored?
      && disk.stored.journal.state in {TransactionState.Prepared, TransactionState.Published}
      && (disk.stored.journal.configMutationPlanned ==> journal.configMutationPlanned)
    }

    /** Brings back one original, judging only by which of the three paths exist. */
    method RollBackEntry(i: nat) returns (o: Outcome)
      requires disk.running && VolumeRestorable(plan, disk.volume)
      requires i < |plan.entries| && journal.entries == plan.entries
      modifies disk`volume, disk`running
      ensures o.Crashed? <==> !disk.running
      ensures VolumeRestorable(plan, disk.volume)
      ensures OthersKept(plan, old(disk.volume), disk.volume, i)
      ensures o.Done? ==> At(disk.volume, plan.entries[i].destination) == plan.originals[i]
      ensures o.Failed? ==> o.fault == DiskFault && !disk.healthy
    {
      var e := journal.entries[i];
      ghost var v := disk.volume;
      WhatExists(plan, v, i);
      var destinationExists := Exists(disk.volume, e.destination, e.kind);
      if Exists(disk.volume, e.backup, e.kind) {
        if destinationExists {
          o := disk.Delete(e.destination);
          DeleteKeepsRestorable(plan, v, disk.volume, i);
          if !o.Done? { return; }
        }
        ghost var w := disk.volume;
        WhatExists(plan, w, i);
        RestoreMove(plan, w, i);
        o := disk.Move(e.backup, e.destination, e.kind);
        return;
      }
      if e.originalExisted {
        if !destinationExists { return Failed(BackupMissing); }
        return Done;
      }
      if destinationExists && Exists(disk.volume, e.prepared, e.kind) {
        return Failed(Ambiguous);
      }
      if destinationExists {
        o := disk.Delete(e.destination);
        DeleteKeepsRestorable(plan, v, disk.volume, i);
        return;
      }
      return Done;
    }

    method RollBack() returns (o: Outcome)
      requires disk.running && Valid()
      modifies this`journal, this`finished, disk
      ensures o.Crashed? <==> !disk.running
      ensures RecoverableToOld(plan, disk.volume, disk.stored, disk.config)
      ensures !o.Crashed? ==> Valid()
      ensures o.Done? && !old(finished) ==> disk.stored == NoJournal
      ensures disk.stored == NoJournal ==>
                old(disk.stored) == NoJournal || WorkRoot(plan.root, plan.id) !in disk.volume
      ensures o.Failed? && o.fault == BadJournal ==>
                disk.volume == old(disk.volume) && disk.stored == old(disk.stored) && disk.config == old(disk.config)
      ensures !old(finished) && 64 < |plan.entries| ==> o == Failed(BadJournal)
      ensures o.Failed? ==> o.fault == DiskFault || (o.fault == BadJournal && 64 < |plan.entries|)
      ensures o == Failed(DiskFault) ==> !disk.healthy
    {
      if finished { return Done; }
      OwnJournalIsValidExactly(plan, journal);
      if !ValidJournal(journal.root, journal) { return Failed(BadJournal); }
      var i := |journal.entries|;
      while 0 < i
        invariant 0 <= i <= |plan.entries| && disk.running && Valid() && !finished
        invariant disk.stored == old(disk.stored) && disk.config == old(disk.config) && journal == old(journal)
        invariant forall k | i <= k < |plan.entries| ::
                    At(disk.volume, plan.entries[k].destination) == plan.originals[k]
      {
        i := i - 1;
        o := RollBackEntry(i);
        if !o.Done? { return; }
      }
      if journal.configMutationPlanned {
        o := disk.WriteConfig(journal.configPreimage);
        if !o.Done? { return; }
      }
      assert ExactlyOld(plan, disk.volume, disk.config);
      journal := journal.(state := RolledBack);
      o := disk.WriteJournal(journal);
      if !o.Done? { return; }
      finished := true;
      o := CleanUp(disk, journal, plan);
    }

    /** Sets the original of an entry aside, if there is one. */
    method SetAside(i: nat) returns (o: Outcome)
      requires disk.running && VolumeRestorable(plan, disk.volume)
      requires i < |plan.entries| && journal.entries == plan.entries
      requires Untouched(plan, disk.volume, i)
      modifies disk`volume, disk`running
      ensures o.Crashed? <==> !disk.running
      ensures VolumeRestorable(plan, disk.volume) && OthersKept(plan, old(disk.volume), disk.volume, i)
      ensures o.Done? ==>
                SlotOf(disk.volume, plan.entries[i]) == Slot(plan.originals[i], Nothing, plan.replacements[i])
      ensures o.Failed? ==> o.fault == DiskFault
      ensures disk.healthy && old(RoomFrom(plan, disk.volume, i)) ==> !o.Failed?
      ensures o.Done? && old(RoomFrom(plan, disk.volume, i)) ==>
                RoomFrom(plan, disk.volume, i + 1) && ParentsFree(disk.volume, plan.entries[i].destination)
    {
      var e := journal.entries[i];
      assert EntryOfPlan(plan, i);
      if !e.originalExisted { return Done; }
      ghost var v := disk.volume;
      if ParentsFree(v, e.backup) {
        AsideMove(plan, v, i);
        RoomToSetAside(plan, v, i);
      }
      o := disk.Move(e.destination, e.backup, e.kind);
    }

    /** Moves the prepared tree of an entry in. */
    method MoveIn(i: nat) returns (o: Outcome)
      requires disk.running && VolumeRestorable(plan, disk.volume)
      requires i < |plan.entries| && journal.entries == plan.entries
      requires SlotOf(disk.volume, plan.entries[i]) == Slot(plan.originals[i], Nothing, plan.replacements[i])
      modifies disk`volume, disk`running
      ensures o.Crashed? <==> !disk.running
      ensures VolumeRestorable(plan, disk.volume) && OthersKept(plan, old(disk.volume), disk.volume, i)
      ensures o.Done? ==> Replaced(plan, disk.volume, i)
      ensures o.Failed? ==> o.fault == DiskFault
      ensures (disk.healthy && |plan.entries[i].prepared| != 1 &&
               ParentsFree(old(disk.volume), plan.entries[i].destination)) ==> !o.Failed?
      ensures o.Done? && RoomFrom(plan, old(disk.volume), i + 1) ==> RoomFrom(plan, disk.volume, i + 1)
    {
      var e := journal.entries[i];
      assert EntryOfPlan(plan, i);
      ghost var v := disk.volume;
      if ParentsFree(v, e.destination) {
        if |e.prepared| == 1 {
          ParentsMade(plan, v, i, e.destination);
        } else {
          ReplaceMove(plan, v, i);
          RoomToReplace(plan, v, i);
        }
      }
      o := disk.Move(e.prepared, e.destination, e.kind);
    }

    /** Moves one old destination aside and its replacement in. */
    method PublishEntry(i: nat) returns (o: Outcome)
      requires disk.running && VolumeRestorable(plan, disk.volume)
      requires i < |plan.entries| && journal.entries == plan.entries
      requires Untouched(plan, disk.volume, i)
      modifies disk`volume, disk`running
      ensures o.Crashed? <==> !disk.running
      ensures VolumeRestorable(plan, disk.volume)
      ensures OthersKept(plan, old(disk.volume), disk.volume, i)
      ensures o.Done? ==> Replaced(plan, disk.volume, i)
      ensures o.Failed? ==> o.fault == DiskFault
      ensures disk.healthy && old(RoomFrom(plan, disk.volume, i)) ==> !o.Failed?
      ensures o.Done? && old(RoomFrom(plan, disk.volume, i)) ==> RoomFrom(plan, disk.volume, i + 1)
    {
      o := SetAside(i);
      if !o.Done? { return; }
      o := MoveIn(i);
    }

    ghost predicate AllUntouched()
      requires WellFormedPlan(plan)
      reads disk
    {
      forall i | 0 <= i < |plan.entries| :: Untouched(plan, disk.volume, i)
    }

    ghost predicate AllReplaced()
      requires WellFormedPlan(plan)
      reads disk
    {
      forall i | 0 <= i < |plan.entries| :: Replaced(plan, disk.volume, i)
    }

    /** Moves every old destination aside and every prepared entry in, or rolls back. */
    method Publish() returns (o: Outcome)
      requires disk.running && Valid()
      requires !finished && journal.state == Prepared ==> AllUntouched()
      modifies this`journal, this`finished, disk
      ensures o.Crashed? <==> !disk.running
      ensures RecoverableToOld(plan, disk.volume, disk.stored, disk.config)
      ensures !o.Crashed? ==> Valid()
      ensures o.Done? ==> !finished && journal.state == Published && AllReplaced() && disk.config == old(disk.config)
      ensures old(finished || journal.state != Prepared) ==> o == Failed(WrongState)
      ensures old(!finished && journal.state == Prepared && RoomFrom(plan, disk.volume, 0)) && disk.healthy ==>
                !o.Failed?
    {
      if finished || journal.state != Prepared { return Failed(WrongState); }
      o := MoveAllIn();
      if o.Done? {
        journal := journal.(state := Published);
        o := disk.WriteJournal(journal);
      }
      if o.Failed? {
        var rollback := RollBack();
        if rollback.Crashed? { return Crashed; }
      }
    }

    method MoveAllIn() returns (o: Outcome)
      requires disk.running && Valid() && !finished && AllUntouched()
      modifies disk`volume, disk`running
      ensures o.Crashed? <==> !disk.running
      ensures Valid()
      ensures o.Done? ==> AllReplaced()
      ensures o.Failed? ==> o.fault == DiskFault
      ensures disk.healthy && old(RoomFrom(plan, disk.volume, 0)) ==> !o.Failed?
    {
      var i := 0;
      while i < |journal.entries|
        invariant 0 <= i <= |plan.entries| && disk.running && Valid()
        invariant old(RoomFrom(plan, disk.volume, 0)) ==> RoomFrom(plan, disk.volume, i)
        invariant forall k | 0 <= k < i :: Replaced(plan, disk.volume, k)
        invariant forall k | i <= k < |plan.entries| :: Untouched(plan, disk.volume, k)
      {
        ghost var v := disk.volume;
        o := PublishEntry(i);
        if !o.Done? { return; }
        OneMoreReplaced(plan, v, disk.volume, i);
        i := i + 1;
      }
      return Done;
    }

    /** Makes the configuration's preimage durable, before the caller may write the file. */
    method RecordRuntimeConfigurationMutation(snapshot: Config) returns (o: Outcome)
      requires disk.running && Valid() && snapshot == plan.config
      modifies this`journal, disk`stored, disk`running
      ensures o.Crashed? <==> !disk.running
      ensures RecoverableToOld(plan, disk.volume, disk.stored, disk.config)
      ensures !o.Crashed? ==> Valid()
      ensures finished == old(finished) && journal.state == old(journal.state)
      ensures o.Done? ==> disk.stored == Stored(journal) && journal.configMutationPlanned
      ensures old(!finished && journal.state == Published) && disk.healthy ==> !o.Failed?
      ensures old(finished || journal.state != Published) ==> o == Failed(WrongState)
    {
      if finished || journal.state != Published { return Failed(WrongState); }
      journal := journal.(configPreimage := snapshot, configMutationPlanned := true);
      o := disk.WriteJournal(journal);
    }

    /** Makes the published paths authoritative. Whatever cleanup fails is left to the next recovery. */
    method Commit() returns (o: Outcome)
      requires disk.running && Valid()
      requires !finished && journal.state == Published ==> AllReplaced()
      modifies this`journal, this`finished, disk`stored, disk`volume, disk`running
      ensures o.Crashed? <==> !disk.running
      ensures o.Done? ==> RecoverableToNew(plan, disk.volume, disk.stored, disk.config, disk.config)
      ensures o.Done? ==> finished
      ensures o.Failed? ==> Valid() && (!finished || o.fault == WrongState)
      ensures old(!finished && journal.state == Published) && disk.healthy ==> !o.Failed?
      ensures disk.stored == NoJournal ==>
                old(disk.stored) == NoJournal || WorkRoot(plan.root, plan.id) !in disk.volume
      ensures o.Crashed? ==>
        || RecoverableToOld(plan, disk.volume, disk.stored, disk.config)
        || RecoverableToNew(plan, disk.volume, disk.stored, disk.config, disk.config)
      ensures old(finished || journal.state != Published) ==> o == Failed(WrongState)
    {
      if finished || journal.state != Published { return Failed(WrongState); }
      assert DestinationsHold(plan, disk.volume, plan.replacements) by {
        forall i | 0 <= i < |plan.entries|
          ensures At(disk.volume, plan.entries[i].destination) == plan.replacements[i]
        {
          assert Replaced(plan, disk.volume, i);
        }
      }
      journal := journal.(state := Committed);
      o := disk.WriteJournal(journal);
      if !o.Done? {
        return;
      }
      finished := true;
      var cleaned := CleanUp(disk, journal, plan);
      return if cleaned.Crashed? then Crashed else Done;
    }

    /** Takes the transaction back unless it is finished. */
    method Dispose() returns (o: Outcome)
      requires disk.running && (finished || Valid())
      modifies this`journal, this`finished, disk
      ensures o.Crashed? <==> !disk.running
      ensures old(finished) ==>
                disk.volume == old(disk.volume) && disk.stored == old(disk.stored) && disk.config == old(disk.config)
      ensures old(Valid()) ==> RecoverableToOld(plan, disk.volume, disk.stored, disk.config)
    {
      if finished { return Done; }
      o := RollBack();
    }
  }

  method NormalizeEntries(v: Volume, root: Path, workRoot: Path, rs: seq<Request>)
    returns (ok: bool, entries: seq<Entry>)
    requires WellFormedRequests(root, rs)
    ensures ok <==> Admissible(v, root, rs)
    ensures ok ==> entries == Normalized(v, workRoot, rs)
  {
    entries := [];
    for index := 0 to |rs|
      invariant entries == Normalized(v, workRoot, rs[..index])
      invariant forall i | 0 <= i < index :: RequestAdmissible(v, root, rs[i])
      invariant forall i, j | 0 <= j < i < index :: RequestsApart(rs[i], rs[j])
    {
      var r := rs[index];
      if !RequestAdmissible(v, root, r) {
        return false, [];
      }
      var apart := ApartFromEarlier(root, rs, index);
      if !apart {
        return false, [];
      }
      NormalizedGrows(v, workRoot, rs, index);
      entries := entries + [Entry(r.prepared, r.destination, BackupPath(workRoot, index), r.kind,
                                  Exists(v, r.destination, r.kind))];
    }
    assert rs[..|rs|] == rs;
    return true, entries;
  }

  /** The inner loop of the check: one request against all before it. */
  method ApartFromEarlier(root: Path, rs: seq<Request>, index: nat) returns (apart: bool)
    requires WellFormedRequests(root, rs) && index < |rs|
    ensures apart <==> forall j | 0 <= j < index :: RequestsApart(rs[index], rs[j])
  {
    var apartFrom := (j: int) requires 0 <= j < index => RequestsApart(rs[index], rs[j]);
    assert forall j | 0 <= j < index :: apartFrom(j) <==> RequestsApart(rs[index], rs[j]);
    apart := HoldsForAll(index, apartFrom);
  }

  method HoldsForAll(n: nat, p: int --> bool) returns (all: bool)
    requires forall j | 0 <= j < n :: p.requires(j)
    ensures all <==> forall j | 0 <= j < n :: p(j)
  {
    for j := 0 to n
      invariant forall k | 0 <= k < j :: p(k)
    {
      if !p(j) {
        return false;
      }
    }
    return true;
  }

  lemma NormalizedGrows(v: Volume, workRoot: Path, rs: seq<Request>, n: nat)
    requires n < |rs|
    ensures Normalized(v, workRoot, rs[..n + 1]) ==
            Normalized(v, workRoot, rs[..n]) +
            [Entry(rs[n].prepared, rs[n].destination, BackupPath(workRoot, n), rs[n].kind,
                   Exists(v, rs[n].destination, rs[n].kind))]
  {
  }

  lemma OneMoreReplaced(p: Plan, v: Volume, v': Volume, i: nat)
    requires WellFormedPlan(p) && i < |p.entries| && OthersKept(p, v, v', i)
    requires forall k | 0 <= k < i :: Replaced(p, v, k)
    requires forall k | i <= k < |p.entries| :: Untouched(p, v, k)
    requires Replaced(p, v', i)
    ensures forall k | 0 <= k < i + 1 :: Replaced(p, v', k)
    ensures forall k | i + 1 <= k < |p.entries| :: Untouched(p, v', k)
  {
    forall k | 0 <= k < |p.entries| && k != i
      ensures k < i ==> Replaced(p, v', k)
      ensures k > i ==> Untouched(p, v', k)
    {
      assert SlotOf(v', p.entries[k]) == SlotOf(v, p.entries[k]);
      assert k < i ==> Replaced(p, v, k);
      assert k > i ==> Untouched(p, v, k);
    }
  }

  /** The directory for the backups touches no path of an entry. */
  lemma WorkDirectoryIsAside(p: Plan, v: Volume, i: nat)
    requires WellFormedPlan(p) && Closed(v) && WorkRoot(p.root, p.id) !in v && i < |p.entries|
    requires SlotOf(v, p.entries[i]).destination == p.originals[i]
    requires SlotOf(v, p.entries[i]).prepared == p.replacements[i]
    requires p.entries[i].originalExisted ==> ParentsFree(v, p.entries[i].destination)
    ensures var w := WithParents(v, BackupPath(WorkRoot(p.root, p.id), 0));
      && Untouched(p, v, i) && Untouched(p, w, i)
      && Restorable(SlotOf(v, p.entries[i]), p.originals[i], p.entries[i].kind)
      && (p.entries[i].originalExisted ==> ParentsFree(w, p.entries[i].destination))
  {
    var workRoot := WorkRoot(p.root, p.id);
    var first := BackupPath(workRoot, 0);
    var e := p.entries[i];
    assert EntryOfPlan(p, i) && EntryOfPlan(p, 0);
    assert e.backup[..|workRoot|] == workRoot;
    assert e.backup !in v;
    if i == 0 {
      assert first == e.backup;
    } else {
      assert Apart(p.entries[0], e);
    }
    ParentsKeepTrees(v, first, e.backup);
    ParentsKeepTrees(v, first, e.destination);
    if |e.prepared| != 1 { ParentsKeepTrees(v, first, e.prepared); }
    if e.originalExisted {
      MoveKeepsParentsFree(v, first, first, e.destination);
    }
  }

  /** Every destination and prepared path is as it was, and nothing stands at a backup. */
  ghost predicate NothingMoved(p: Plan, v: Volume)
    requires WellFormedPlan(p)
  {
    && (forall i | 0 <= i < |p.entries| :: Untouched(p, v, i))
    && AllRestorable(p, v)
    && DestinationsHold(p, v, p.originals)
  }

  lemma WorkDirectoryMovesNothing(p: Plan, v: Volume)
    requires WellFormedPlan(p) && Closed(v) && WorkRoot(p.root, p.id) !in v
    requires forall i | 0 <= i < |p.entries| ::
      && SlotOf(v, p.entries[i]).destination == p.originals[i]
      && SlotOf(v, p.entries[i]).prepared == p.replacements[i]
      && (p.entries[i].originalExisted ==> ParentsFree(v, p.entries[i].destination))
    ensures NothingMoved(p, v)
    ensures NothingMoved(p, WithParents(v, BackupPath(WorkRoot(p.root, p.id), 0)))
  {
    var w := WithParents(v, BackupPath(WorkRoot(p.root, p.id), 0));
    forall i | 0 <= i < |p.entries|
      ensures Untouched(p, v, i) && Untouched(p, w, i)
      ensures Restorable(SlotOf(v, p.entries[i]), p.originals[i], p.entries[i].kind)
      ensures p.entries[i].originalExisted ==> ParentsFree(w, p.entries[i].destination)
    {
      WorkDirectoryIsAside(p, v, i);
    }
  }

  /** Nothing has moved when Begin has only made the directory for the backups. */
  lemma NothingMovedYet(v: Volume, root: Path, id: string, requests: seq<Request>, p: Plan)
    requires WellFormedRequests(root, requests) && Closed(v) && Admissible(v, root, requests)
    requires WellFormedPlan(p) && p.root == root && p.id == id && WorkRoot(root, id) !in v
    requires p.entries == Normalized(v, WorkRoot(root, id), requests)
    requires forall i | 0 <= i < |requests| ::
      && p.originals[i] == At(v, requests[i].destination)
      && p.replacements[i] == PreparedTree(v, requests[i].prepared, requests[i].kind)
    ensures NothingMoved(p, v) && NothingMoved(p, WithParents(v, BackupPath(WorkRoot(root, id), 0)))
  {
    forall i | 0 <= i < |p.entries|
      ensures p.entries[i].originalExisted ==> ParentsFree(v, p.entries[i].destination)
    {
      assert RequestAdmissible(v, root, requests[i]);
      assert p.entries[i] == Normalized(v, WorkRoot(root, id), requests)[i];
    }
    WorkDirectoryMovesNothing(p, v);
  }

  /** What an accepted request does not say and the moves need: no file stands where a directory above a
      destination or the work directory is to be, and no drive's root is prepared. */
  ghost predicate Publishable(p: Plan, v: Volume)
    requires 0 < |p.root|
  {
    && ParentsFree(v, BackupPath(WorkRoot(p.root, p.id), 0))
    && forall k | 0 <= k < |p.entries| ::
         ParentsFree(v, p.entries[k].destination) && |p.entries[k].prepared| != 1
  }

  /** All backups stand in one directory. */
  lemma BackupsShareParents(v: Volume, workRoot: Path, i: nat, j: nat)
    requires ParentsFree(v, BackupPath(workRoot, i))
    ensures ParentsFree(v, BackupPath(workRoot, j))
  {
    var a, b := BackupPath(workRoot, i), BackupPath(workRoot, j);
    forall n | 0 < n < |b| && b[..n] in v
      ensures v[b[..n]].Directory?
    {
      assert b[..n] == a[..n];
    }
  }

  lemma WorkDirectoryGivesRoom(p: Plan, v: Volume)
    requires WellFormedPlan(p) && Publishable(p, v)
    ensures RoomFrom(p, WithParents(v, BackupPath(WorkRoot(p.root, p.id), 0)), 0)
  {
    var workRoot := WorkRoot(p.root, p.id);
    var first := BackupPath(workRoot, 0);
    OwnParentsFree(v, first);
    forall k | 0 <= k < |p.entries|
      ensures ParentsFree(WithParents(v, first), p.entries[k].destination)
      ensures ParentsFree(WithParents(v, first), p.entries[k].backup)
    {
      assert EntryOfPlan(p, k) && EntryOfPlan(p, 0);
      BelowWorkRoot(workRoot, 0, p.entries[k].destination);
      MoveKeepsParentsFree(v, first, first, p.entries[k].destination);
      BackupsShareParents(WithParents(v, first), workRoot, 0, k);
    }
  }

  /** The directory for the backups, then the first journal; nothing else changes. */
  method OpenJournal(disk: Disk, journal: Journal, ghost plan: Plan) returns (o: Outcome)
    requires WellFormedPlan(plan) && JournalOf(plan, journal) && journal.state == Prepared
    requires Closed(disk.volume) && disk.stored == NoJournal && disk.config == plan.config
    requires NothingMoved(plan, disk.volume)
    requires NothingMoved(plan, WithParents(disk.volume, BackupPath(journal.workRoot, 0)))
    requires disk.running
    modifies disk`volume, disk`stored, disk`running
    ensures o.Crashed? <==> !disk.running
    ensures RecoverableToOld(plan, disk.volume, disk.stored, disk.config)
    ensures o.Done? ==> disk.stored == Stored(journal) && NothingMoved(plan, disk.volume)
    ensures o.Failed? ==> o.fault == DiskFault
    ensures disk.healthy && ParentsFree(old(disk.volume), BackupPath(journal.workRoot, 0)) ==> !o.Failed?
    ensures o.Done? && Publishable(plan, old(disk.volume)) ==> RoomFrom(plan, disk.volume, 0)
  {
    o := disk.CreateParents(BackupPath(journal.workRoot, 0));
    assert NothingMoved(plan, disk.volume);
    if !o.Done? { return; }
    if Publishable(plan, old(disk.volume)) {
      WorkDirectoryGivesRoom(plan, old(disk.volume));
    }
    o := disk.WriteJournal(journal);
  }

  /** Journals every destination before the first move; no path of an entry has changed yet. */
  method Begin(disk: Disk, root: Path, id: string, requests: seq<Request>)
    returns (o: Outcome, t: InstallTransaction?, ghost plan: Plan)
    requires WellFormedRequests(root, requests) && Closed(disk.volume)
    requires WorkRoot(root, id) !in disk.volume && WorkRoot(root, id) != root  // the id is fresh
    requires disk.running
    modifies disk`volume, disk`stored, disk`running
    ensures (o.Done? <==> t != null) && (o.Crashed? <==> !disk.running)
    ensures t != null ==> fresh(t) && t.disk == disk && t.plan == plan && t.Valid() && !t.finished
    ensures t != null ==> t.journal.state == Prepared && t.AllUntouched()
    ensures o == Failed(Unfinished) <==> requests != [] && old(disk.stored).Stored?
    ensures o == Failed(BadRequest) <==>
              requests == [] || (old(disk.stored) == NoJournal && !Admissible(old(disk.volume), root, requests))
    ensures o == Failed(Unfinished) || o == Failed(BadRequest) ==>
              disk.volume == old(disk.volume) && disk.stored == old(disk.stored)
    ensures o.Failed? ==> o.fault in {Unfinished, BadRequest, DiskFault}
    ensures disk.healthy && ParentsFree(old(disk.volume), BackupPath(WorkRoot(root, id), 0)) ==> o != Failed(DiskFault)
    ensures t != null && Publishable(plan, old(disk.volume)) ==> RoomFrom(plan, disk.volume, 0)
    ensures o.Done? || o.Crashed? || o == Failed(DiskFault) ==>
              && PlanFor(plan, old(disk.volume), root, id, requests, old(disk.config))
              && RecoverableToOld(plan, disk.volume, disk.stored, disk.config)
  {
    t := null;
    plan := Plan(root, id, [], [], [], disk.config);
    if requests == [] { return Failed(BadRequest), null, plan; }
    if disk.stored.Stored? { return Failed(Unfinished), null, plan; }
    var workRoot := WorkRoot(root, id);
    var ok, entries := NormalizeEntries(disk.volume, root, workRoot, requests);
    if !ok { return Failed(BadRequest), null, plan; }
    ghost var v := disk.volume;
    plan := AdmissibleGivesPlan(v, root, id, requests, disk.config);
    NothingMovedYet(v, root, id, requests, plan);
    var journal := Journal(root, id, workRoot, Prepared, entries, false, NoConfig);
    o := OpenJournal(disk, journal, plan);
    if !o.Done? { return; }
    t := new InstallTransaction(disk, journal, plan);
  }

  ghost predicate PlanFor(p: Plan, v: Volume, root: Path, id: string, rs: seq<Request>, config: Config)
    requires 0 < |root|
  {
    && p.root == root && p.id == id && p.config == config
    && p.entries == Normalized(v, WorkRoot(root, id), rs)
    && |p.originals| == |p.replacements| == |rs|
    && forall i | 0 <= i < |rs| ::
         && p.originals[i] == At(v, rs[i].destination)
         && p.replacements[i] == PreparedTree(v, rs[i].prepared, rs[i].kind)
  }

  /** What InstallOperationLock.Acquire runs before anything else may use the installation. */
  method Recover(disk: Disk, root: Path, ghost plan: Plan, ghost committed: Config) returns (o: Outcome)
    requires disk.running && plan.root == root
    requires RecoverableToOld(plan, disk.volume, disk.stored, disk.config)
          || RecoverableToNew(plan, disk.volume, disk.stored, disk.config, committed)
    modifies disk
    ensures o.Crashed? <==> !disk.running
    ensures old(RecoverableToOld(plan, disk.volume, disk.stored, disk.config)) ==>
              RecoverableToOld(plan, disk.volume, disk.stored, disk.config)
    ensures old(RecoverableToNew(plan, disk.volume, disk.stored, disk.config, committed)) ==>
              RecoverableToNew(plan, disk.volume, disk.stored, disk.config, committed)
    ensures o.Done? ==> disk.stored == NoJournal
    // A recovery of up to 64 entries on a healthy disk is done unless it is cut off.
    ensures disk.healthy && |plan.entries| <= 64 ==> !o.Failed?
    ensures o.Failed? ==> o.fault == DiskFault || (o.fault == BadJournal && 64 < |plan.entries|)
    ensures o == Failed(DiskFault) ==> !disk.healthy
    ensures old(disk.stored).Stored? && 64 < |plan.entries| ==> o == Failed(BadJournal)
    ensures old(disk.stored) == NoJournal ==> disk.volume == old(disk.volume)
    ensures disk.stored == NoJournal ==>
              old(disk.stored) == NoJournal || WorkRoot(plan.root, plan.id) !in disk.volume
    ensures o == Failed(BadJournal) ==>
              disk.volume == old(disk.volume) && disk.stored == old(disk.stored) && disk.config == old(disk.config)
  {
    if disk.stored == NoJournal { return Done; }
    var journal := disk.stored.journal;
    OwnJournalIsValidExactly(plan, journal);
    if !ValidJournal(root, journal) { return Failed(BadJournal); }
    if journal.state == Committed || journal.state == RolledBack {
      o := CleanUp(disk, journal, plan);
      if o.Done? || o.Crashed? { return; }
      return if disk.stored.Stored? then Failed(DiskFault) else Done;
    }
    var t := new InstallTransaction(disk, journal, plan);
    o := t.RollBack();
  }

  /** A drive's root is never moved in, so a request for one can be journaled but not published. */
  lemma ReplacedIsBelowDrives(p: Plan, v: Volume)
    requires WellFormedPlan(p) && forall i | 0 <= i < |p.entries| :: Replaced(p, v, i)
    ensures forall i | 0 <= i < |p.entries| :: 1 < |p.entries[i].prepared|
  {
    forall i | 0 <= i < |p.entries|
      ensures 1 < |p.entries[i].prepared|
    {
      assert Replaced(p, v, i) && EntryOfPlan(p, i);
    }
  }

  datatype ConfigChange = Keep | Write(contents: Config)

  function Apply(change: ConfigChange, before: Config): Config {
    if change.Keep? then before else change.contents
  }

  /** The configuration is written only once its preimage is durable. */
  method ChangeConfiguration(t: InstallTransaction, change: ConfigChange) returns (o: Outcome)
    requires t.disk.running
    requires t.Valid() && !t.finished && t.journal.state == Published && t.disk.config == t.plan.config
    modifies t`journal, t.disk`stored, t.disk`config, t.disk`running
    ensures o.Crashed? <==> !t.disk.running
    ensures RecoverableToOld(t.plan, t.disk.volume, t.disk.stored, t.disk.config)
    ensures !o.Crashed? ==> t.Valid()
    ensures t.finished == old(t.finished) && t.journal.state == old(t.journal.state)
    ensures o.Done? ==> t.disk.config == Apply(change, old(t.disk.config))
    ensures t.disk.healthy ==> !o.Failed?
  {
    if change.Keep? { return Done; }
    o := t.RecordRuntimeConfigurationMutation(t.disk.config);
    if !o.Done? { return; }
    o := t.disk.WriteConfig(change.contents);
  }

  /** A begun transaction is published, committed, and disposed of if anything failed. */
  method Deliver(t: InstallTransaction, change: ConfigChange) returns (o: Outcome, ghost committed: bool)
    requires t.Valid() && !t.finished && t.journal.state == Prepared && t.AllUntouched()
    requires t.disk.running && t.disk.config == t.plan.config
    modifies t, t.disk
    ensures o.Crashed? <==> !t.disk.running
    ensures if committed
            then RecoverableToNew(t.plan, t.disk.volume, t.disk.stored, t.disk.config, Apply(change, t.plan.config))
            else RecoverableToOld(t.plan, t.disk.volume, t.disk.stored, t.disk.config)
    ensures o.Done? ==> committed
    ensures o.Failed? ==> !committed
    ensures t.disk.healthy && old(RoomFrom(t.plan, t.disk.volume, 0)) ==> !o.Failed?
    ensures committed ==> forall i | 0 <= i < |t.plan.entries| :: 1 < |t.plan.entries[i].prepared|
    ensures committed && t.disk.stored == NoJournal ==> WorkRoot(t.plan.root, t.plan.id) !in t.disk.volume
    ensures t.disk.stored.Stored? ==> (committed <==> t.disk.stored.journal.state == Committed)
  {
    committed := false;
    o := t.Publish();
    if o.Done? {
      ReplacedIsBelowDrives(t.plan, t.disk.volume);
      o := ChangeConfiguration(t, change);
    }
    if o.Done? {
      o := t.Commit();
      committed := o.Done? || (o.Crashed? && !RecoverableToOld(t.plan, t.disk.volume, t.disk.stored, t.disk.config));
    }
    if !o.Crashed? {
      var disposed := t.Dispose();
      if disposed.Crashed? { o := Crashed; }
    }
  }

  /**
    One update as its callers run it: everything prepared is published under a transaction, the
    configuration is written if need be, and whatever fails on the way is rolled back on disposal.
   */
  method Update(disk: Disk, root: Path, id: string, requests: seq<Request>, change: ConfigChange)
    returns (o: Outcome, ghost plan: Plan, ghost committed: bool)
    requires WellFormedRequests(root, requests) && Closed(disk.volume)
    requires disk.stored == NoJournal && requests != [] && Admissible(disk.volume, root, requests)
    requires disk.running && WorkRoot(root, id) !in disk.volume && WorkRoot(root, id) != root
    modifies disk
    ensures o.Crashed? <==> !disk.running
    ensures PlanFor(plan, old(disk.volume), root, id, requests, old(disk.config))
    ensures if committed
            then RecoverableToNew(plan, disk.volume, disk.stored, disk.config, Apply(change, old(disk.config)))
            else RecoverableToOld(plan, disk.volume, disk.stored, disk.config)
    ensures o.Done? ==> committed
    ensures o.Failed? ==> !committed
    ensures disk.healthy && Publishable(plan, old(disk.volume)) ==> !o.Failed?
    ensures committed ==> BelowDrives(requests)
    ensures committed && disk.stored == NoJournal ==> WorkRoot(root, id) !in disk.volume
    ensures disk.stored.Stored? ==> (committed <==> disk.stored.journal.state == Committed)
  {
    committed := false;
    var t;
    o, t, plan := Begin(disk, root, id, requests);
    if !o.Done? { return; }
    o, committed := Deliver(t, change);
    if committed {
      assert BelowDrives(requests) by {
        forall i | 0 <= i < |requests| ensures 1 < |requests[i].prepared| {
          assert plan.entries[i].prepared == requests[i].prepared;
        }
      }
    }
  }

  /**
    An update, cut off by a crash or a fault anywhere, then recovered as often as it takes: recovery
    may itself be cut off any number of times. The first recovery that completes leaves every
    destination and the configuration exactly new when the update had committed, and exactly old when
    it had not. It had committed exactly if the journal on the disk at the cut, if there was one, says
    so; an update that reported success had, and one that reported failure had not. With up to 64
    entries on a healthy disk every recovery that is not cut off completes; with more, none does once
    the journal stands. What a recovery completes leaves no work directory behind.
   */
  method UpdateThenRecover(disk: Disk, root: Path, id: string, requests: seq<Request>, change: ConfigChange,
                           restarts: nat)
    returns (updated: Outcome, recovered: bool, cutOff: nat, ghost plan: Plan, ghost committed: bool, ghost cut: Stored)
    requires WellFormedRequests(root, requests) && Closed(disk.volume)
    requires disk.stored == NoJournal && requests != [] && Admissible(disk.volume, root, requests)
    requires disk.running && WorkRoot(root, id) !in disk.volume && WorkRoot(root, id) != root
    modifies disk
    ensures PlanFor(plan, old(disk.volume), root, id, requests, old(disk.config)) && WellFormedPlan(plan)
    ensures updated.Done? ==> committed
    ensures updated.Failed? ==> !committed
    ensures disk.healthy && Publishable(plan, old(disk.volume)) ==> !updated.Failed?
    ensures committed ==> BelowDrives(requests)
    ensures cut.Stored? ==> (committed <==> cut.journal.state == Committed)
    ensures recovered && committed ==>
              ExactlyNew(plan, disk.volume, disk.config, Apply(change, old(disk.config)))
    ensures recovered && !committed ==> ExactlyOld(plan, disk.volume, disk.config)
    // The same in terms of the requests: each destination holds what was prepared for it, or what it held.
    ensures recovered && committed ==> disk.config == Apply(change, old(disk.config))
    ensures recovered && committed ==> forall k | 0 <= k < |requests| ::
              1 < |requests[k].prepared| &&
              At(disk.volume, requests[k].destination) == At(old(disk.volume), requests[k].prepared)
    ensures recovered && !committed ==> disk.config == old(disk.config) && forall k | 0 <= k < |requests| ::
              At(disk.volume, requests[k].destination) == At(old(disk.volume), requests[k].destination)
    ensures recovered ==> disk.stored == NoJournal
    ensures recovered && (committed || cut.Stored?) ==> WorkRoot(root, id) !in disk.volume
    ensures disk.healthy && |requests| <= 64 && cutOff < restarts ==> recovered
    ensures 64 < |requests| && cut.Stored? ==> !recovered
  {
    updated, plan, committed := Update(disk, root, id, requests, change);
    cut := disk.stored;
    ghost var target := Apply(change, old(disk.config));
    recovered, cutOff := false, 0;
    var n := 0;
    while n < restarts && !recovered
      invariant cutOff <= n <= restarts && (disk.healthy && |requests| <= 64 && !recovered ==> cutOff == n)
      invariant disk.stored == NoJournal && (committed || cut.Stored?) ==> WorkRoot(root, id) !in disk.volume
      invariant 64 < |requests| && cut.Stored? ==> disk.stored.Stored? && !recovered
      invariant if committed then RecoverableToNew(plan, disk.volume, disk.stored, disk.config, target)
                else RecoverableToOld(plan, disk.volume, disk.stored, disk.config)
      invariant recovered ==> disk.stored == NoJournal
    {
      disk.running := true;
      var o := Recover(disk, root, plan, target);
      recovered := o.Done?;
      cutOff := if disk.running then cutOff else cutOff + 1;
      n := n + 1;
    }
    assert forall k | 0 <= k < |requests| :: plan.entries[k].destination == requests[k].destination;
  }
}

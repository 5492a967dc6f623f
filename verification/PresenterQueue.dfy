/** The presenter's queue and the image pools behind it. The frame worker hands over groups of jobs and never
    waits; the presenter takes jobs one at a time. Each method is one critical section or one uninterrupted
    stretch of a single thread, so any order of calls is a run of the two threads. */
module PresenterQueue {
  const MAX_INTERPOLATED_FRAMES := 3

  datatype Image = Image(id: nat, width: nat, height: nat)

  datatype Job = Job(image: Image, logicalFrame: nat)

  predicate Holds(jobs: seq<Job>, id: nat) { exists n :: 0 <= n < |jobs| && jobs[n].image.id == id }

  function Bound(group: nat): nat {
    if 3 * group > 2 * (MAX_INTERPOLATED_FRAMES + 1) then 3 * group else 2 * (MAX_INTERPOLATED_FRAMES + 1)
  }

  predicate TakenFrom(taken: seq<Job>, places: seq<nat>, all: seq<Job>, n: nat)
    requires n < |taken| && n < |places|
  {
    places[n] < |all| && taken[n] == all[places[n]]
  }

  /** A sequence of jobs that were taken in order out of another one, at these places. */
  predicate InOrder(taken: seq<Job>, places: seq<nat>, all: seq<Job>) {
    && |places| == |taken|
    && (forall n :: 0 <= n < |places| ==> TakenFrom(taken, places, all, n))
    && (forall m, n :: 0 <= m < n < |places| ==> places[m] < places[n])
  }

  /** A job taken after another one is the very next, or the first of its group. */
  predicate NextOrFirst(previous: int, place: nat, starts: set<nat>) { place == previous + 1 || place in starts }

  function Before(places: seq<nat>, n: nat): int
    requires n <= |places|
  {
    if n == 0 then -1 else places[n - 1]
  }

  predicate EntersAt(places: seq<nat>, n: nat, starts: set<nat>)
    requires n < |places|
  {
    NextOrFirst(Before(places, n), places[n], starts)
  }

  predicate EntersAtStarts(places: seq<nat>, starts: set<nat>) {
    forall n :: 0 <= n < |places| ==> EntersAt(places, n, starts)
  }

  lemma StartsGrow(places: seq<nat>, starts: set<nat>, s: nat)
    requires EntersAtStarts(places, starts)
    ensures EntersAtStarts(places, starts + {s})
  {
    forall n | 0 <= n < |places| ensures EntersAt(places, n, starts + {s}) {
      assert EntersAt(places, n, starts);
    }
  }

  lemma PlaceTaken(places: seq<nat>, starts: set<nat>, place: nat)
    requires EntersAtStarts(places, starts) && NextOrFirst(Before(places, |places|), place, starts)
    ensures EntersAtStarts(places + [place], starts)
  {
    var more := places + [place];
    forall n | 0 <= n < |more| ensures EntersAt(more, n, starts) {
      if n < |places| {
        assert EntersAt(places, n, starts);
      }
    }
  }

  /** What happened to the queue so far: all jobs ever accepted, where among them a group begins, the jobs
      the presenter took, and where it took them. */
  datatype History = History(enqueued: seq<Job>, starts: set<nat>, taken: seq<Job>, places: seq<nat>)
  {
    function Joined(group: seq<Job>): History {
      History(enqueued + group, starts + {|enqueued|}, taken, places)
    }

    function Took(jobs: seq<Job>): History
      requires 0 < |jobs| <= |enqueued|
    {
      History(enqueued, starts, taken + [jobs[0]], places + [|enqueued| - |jobs|])
    }
  }

  predicate QueuedAt(jobs: seq<Job>, all: seq<Job>, n: nat)
    requires n < |jobs| <= |all|
  {
    jobs[n] == all[|all| - |jobs| + n]
  }

  predicate IsEndOf(jobs: seq<Job>, all: seq<Job>) {
    |jobs| <= |all| && forall n :: 0 <= n < |jobs| ==> QueuedAt(jobs, all, n)
  }

  lemma EndGrows(jobs: seq<Job>, all: seq<Job>, group: seq<Job>)
    requires IsEndOf(jobs, all)
    ensures IsEndOf(jobs + group, all + group)
  {
    forall n | 0 <= n < |jobs + group| ensures QueuedAt(jobs + group, all + group, n) {
      if n < |jobs| {
        assert QueuedAt(jobs, all, n);
      }
    }
  }

  lemma EndShrinks(jobs: seq<Job>, all: seq<Job>)
    requires IsEndOf(jobs, all) && jobs != []
    ensures IsEndOf(jobs[1..], all) && jobs[0] == all[|all| - |jobs|]
  {
    assert QueuedAt(jobs, all, 0);
    forall n | 0 <= n < |jobs[1..]| ensures QueuedAt(jobs[1..], all, n) {
      assert QueuedAt(jobs, all, n + 1);
    }
  }

  /** The queue is the end of everything ever accepted, and what was presented came out of the part before
      it, in order; whatever is skipped, the presenter goes on with the first job of a group. */
  predicate QueueOk(jobs: seq<Job>, h: History) {
    && IsEndOf(jobs, h.enqueued)
    && InOrder(h.taken, h.places, h.enqueued)
    && (forall n :: 0 <= n < |h.places| ==> h.places[n] < |h.enqueued| - |jobs|)
    && EntersAtStarts(h.places, h.starts)
    && (jobs != [] ==> NextOrFirst(Before(h.places, |h.places|), |h.enqueued| - |jobs|, h.starts))
  }

  predicate Known(jobs: seq<Job>, nextId: nat) { forall n :: 0 <= n < |jobs| ==> jobs[n].image.id < nextId }

  lemma NothingKnown(nextId: nat)
    ensures Known([], nextId) && QueueOk([], History([], {}, [], []))
  {
  }

  lemma KnownJoins(jobs: seq<Job>, group: seq<Job>, nextId: nat)
    requires Known(jobs, nextId) && Known(group, nextId)
    ensures Known(jobs + group, nextId)
  {
  }

  lemma MoreToTake(taken: seq<Job>, places: seq<nat>, all: seq<Job>, more: seq<Job>)
    requires InOrder(taken, places, all)
    ensures InOrder(taken, places, all + more)
  {
    forall n | 0 <= n < |places| ensures TakenFrom(taken, places, all + more, n) {
      assert TakenFrom(taken, places, all, n);
    }
  }

  lemma TakesNext(taken: seq<Job>, places: seq<nat>, all: seq<Job>, place: nat)
    requires InOrder(taken, places, all) && place < |all|
    requires forall n :: 0 <= n < |places| ==> places[n] < place
    ensures InOrder(taken + [all[place]], places + [place], all)
  {
    var jobs, more := taken + [all[place]], places + [place];
    forall n | 0 <= n < |more| ensures TakenFrom(jobs, more, all, n) {
      if n < |places| {
        assert TakenFrom(taken, places, all, n);
      }
    }
  }

  /** A group joins the queue, behind what is kept of it: all or nothing. */
  lemma GroupJoins(jobs: seq<Job>, h: History, group: seq<Job>, kept: seq<Job>)
    requires QueueOk(jobs, h) && kept in {jobs, []}
    ensures QueueOk(kept + group, h.Joined(group))
  {
    StartsGrow(h.places, h.starts, |h.enqueued|);
    MoreToTake(h.taken, h.places, h.enqueued, group);
    EndGrows(kept, h.enqueued, group);
  }

  lemma JobLeaves(jobs: seq<Job>, h: History)
    requires QueueOk(jobs, h) && jobs != []
    ensures QueueOk(jobs[1..], h.Took(jobs))
  {
    var head := |h.enqueued| - |jobs|;
    PlaceTaken(h.places, h.starts, head);
    TakesNext(h.taken, h.places, h.enqueued, head);
    EndShrinks(jobs, h.enqueued);
  }

  class Presenter {
    var jobs: seq<Job>
    var presenting: seq<Job>
    var stop: bool
    var building: seq<Job>
    var pools: seq<seq<Image>>
    var nextId: nat
    ghost var history: History

    constructor ()
      ensures Valid() && jobs == [] && presenting == [] && building == [] && !stop
      ensures history == History([], {}, [], [])
    {
      jobs, presenting, building, stop := [], [], [], false;
      pools, nextId := [[], [], [], []], 0;
      history := History([], {}, [], []);
      NothingKnown(0);
    }

    ghost predicate Valid()
      reads this
    {
      && QueueOk(jobs, history)
      && (presenting == [] || (history.taken != [] && presenting == [history.taken[|history.taken| - 1]]))
      && |pools| == MAX_INTERPOLATED_FRAMES + 1
      && ImagesValid()
    }

    ghost predicate ImagesValid()
      reads this
    {
      && (forall p, n :: 0 <= p < |pools| && 0 <= n < |pools[p]| ==> pools[p][n].id < nextId)
      && Known(jobs, nextId) && Known(presenting, nextId) && Known(building, nextId)
    }

    /** Some job that has not finished being presented reads the image; a use count above one. */
    predicate InUse(id: nat)
      reads this
    {
      Holds(jobs, id) || Holds(presenting, id) || Holds(building, id)
    }

    /** In use means that a queued, presenting or half-built job has the image. */
    lemma InUseExactly(id: nat)
      ensures InUse(id) <==> exists job :: job in jobs + presenting + building && job.image.id == id
    {
      var all := jobs + presenting + building;
      if InUse(id) {
        var n := if Holds(jobs, id) then (var k :| 0 <= k < |jobs| && jobs[k].image.id == id; k)
                 else if Holds(presenting, id)
                   then (var k :| 0 <= k < |presenting| && presenting[k].image.id == id; |jobs| + k)
                 else (var k :| 0 <= k < |building| && building[k].image.id == id; |jobs| + |presenting| + k);
        assert all[n].image.id == id;
      }
    }

    /** Looks for an idle image of the right size, dropping idle images of other sizes on the way. */
    method SearchPool(before: seq<Image>, width: nat, height: nat) returns (pool: seq<Image>, at: nat)
      ensures at <= |pool|
      ensures forall im :: im in pool ==> im in before
      ensures forall im :: im in before && im !in pool ==> !InUse(im.id) && (im.width != width || im.height != height)
      ensures at < |pool| ==> pool[at].width == width && pool[at].height == height && !InUse(pool[at].id)
      ensures at == |pool| ==> forall im :: im in pool ==> InUse(im.id)
    {
      pool, at := before, 0;
      while at < |pool|
        invariant at <= |pool|
        invariant forall im :: im in pool ==> im in before
        invariant forall im :: im in before && im !in pool ==>
                    !InUse(im.id) && (im.width != width || im.height != height)
        invariant forall k :: 0 <= k < at ==> InUse(pool[k].id)
        decreases |pool| - at
      {
        var found := pool[at];
        if found.width == width && found.height == height {
          if !InUse(found.id) {
            return;
          }
          at := at + 1;
          continue;
        }
        if !InUse(found.id) {
          Erased(pool, at);
          pool := pool[..at] + pool[at + 1..];
        } else {
          at := at + 1;
        }
      }
    }

    /** An image for one slot of the next group: an idle one of the right size, or a new one. Images in use
        are neither handed out nor dropped. */
    method AcquireImage(slot: nat, width: nat, height: nat) returns (image: Image)
      requires Valid() && slot < |pools|
      modifies this`pools, this`nextId
      ensures Valid()
      ensures forall job :: job in jobs + presenting + building ==> job.image.id != image.id
      ensures !InUse(image.id) && image.width == width && image.height == height
      ensures image in pools[slot] && image.id < nextId
      ensures |pools| == |old(pools)| && forall p :: 0 <= p < |pools| && p != slot ==> pools[p] == old(pools)[p]
      ensures forall im :: im in old(pools)[slot] && im !in pools[slot] ==>
                !InUse(im.id) && (im.width != width || im.height != height)
      ensures image !in old(pools)[slot] ==>
                forall im :: im in old(pools)[slot] && im.width == width && im.height == height ==> InUse(im.id)
    {
      var pool, at := SearchPool(pools[slot], width, height);
      KeepPool(pool, slot);
      if at < |pool| {
        image := pool[at];
        InUseExactly(image.id);
        pools := pools[slot := pool];
        return;
      }
      image := Image(nextId, width, height);
      NotInUse(nextId);
      InUseExactly(nextId);
      pools := pools[slot := pool + [image]];
      nextId := nextId + 1;
    }

    lemma NotInUse(id: nat)
      requires ImagesValid() && id >= nextId
      ensures !InUse(id)
    {
    }

    lemma KeepPool(pool: seq<Image>, slot: nat)
      requires Valid() && slot < |pools| && forall im :: im in pool ==> im in pools[slot]
      ensures forall n :: 0 <= n < |pool| ==> pool[n].id < nextId
    {
      forall n | 0 <= n < |pool| ensures pool[n].id < nextId {
        assert pool[n] in pools[slot];
      }
    }

    /** One encoded slot of the group under construction, on an image just acquired. */
    method AddSlot(image: Image, logicalFrame: nat)
      requires Valid() && image.id < nextId
      modifies this`building
      ensures Valid() && building == old(building) + [Job(image, logicalFrame)]
    {
      building := building + [Job(image, logicalFrame)];
    }

    /** Hands the built group over. When the queue would outgrow its bound everything still queued is
        dropped: the newest group always stays whole. */
    method EnqueuePresentations()
      requires Valid()
      modifies this
      ensures Valid() && building == [] && stop == old(stop)
      ensures pools == old(pools) && presenting == old(presenting)
      ensures old(stop) ==> jobs == old(jobs) && history == old(history)
      ensures !old(stop) ==>
                && history == old(history).Joined(old(building))
                && (|jobs| <= 8 || |jobs| <= 3 * |old(building)|)
                && var all := old(jobs) + old(building);
                jobs == if |all| <= 8 || |all| <= 3 * |old(building)| then all else old(building)
    {
      var group := building;
      building := [];
      if stop {
        return;
      }
      ghost var before := jobs;
      if |jobs| + |group| > Bound(|group|) {
        jobs := [];
      }
      GroupJoins(before, history, group, jobs);
      KnownJoins(jobs, group, nextId);
      jobs := jobs + group;
      history := history.Joined(group);
    }

    /** The presenter thread takes the oldest job; false when it is told to stop and nothing is left. */
    method TakeJob() returns (took: bool)
      requires Valid() && presenting == [] && (stop || jobs != [])
      modifies this
      ensures Valid() && stop == old(stop) && building == old(building) && pools == old(pools)
      ensures took <==> old(jobs) != []
      ensures took ==> presenting == [old(jobs)[0]] && jobs == old(jobs)[1..]
      ensures took ==> |old(jobs)| <= |old(history).enqueued| && history == old(history).Took(old(jobs))
      ensures !took ==> jobs == old(jobs) && history == old(history) && presenting == []
    {
      if stop && jobs == [] {
        return false;
      }
      JobLeaves(jobs, history);
      presenting := [jobs[0]];
      history := history.Took(jobs);
      jobs := jobs[1..];
      return true;
    }

    method FinishPresenting()
      requires Valid()
      modifies this`presenting
      ensures Valid() && presenting == []
    {
      presenting := [];
    }

    /** Presentation ends; jobs already queued are still taken, new groups are refused. */
    method Stop()
      requires Valid()
      modifies this`stop
      ensures Valid() && stop
    {
      stop := true;
    }
  }

  lemma Erased(pool: seq<Image>, n: nat)
    requires n < |pool|
    ensures var rest := pool[..n] + pool[n + 1..];
            && (forall im :: im in rest ==> im in pool)
            && (forall im :: im in pool && im !in rest ==> im == pool[n])
  {
    var rest := pool[..n] + pool[n + 1..];
    assert forall k :: 0 <= k < n ==> rest[k] == pool[k];
    assert forall k :: n < k < |pool| ==> rest[k - 1] == pool[k];
  }

  /** The first presented job past a position. */
  function FirstPast(places: seq<nat>, q: nat, n: nat): (m: nat)
    requires n < |places| && q < places[n]
    requires forall i, j :: 0 <= i < j < |places| ==> places[i] < places[j]
    ensures m <= n && q < places[m] && Before(places, m) <= q
  {
    if n == 0 || places[n - 1] <= q then n else FirstPast(places, q, n - 1)
  }

  /** Once one of a group's slots has been passed over, none of its later slots is presented: between a
      job that was dropped and any job presented from further back another group begins. */
  lemma DroppedGroupStaysDropped(jobs: seq<Job>, h: History, q: nat, n: nat)
    requires QueueOk(jobs, h) && n < |h.places| && q < h.places[n] && q !in h.places
    ensures exists s :: s in h.starts && q < s <= h.places[n]
  {
    var m := FirstPast(h.places, q, n);
    assert Before(h.places, m) != q;
    assert EntersAt(h.places, m, h.starts);
    assert m < n ==> h.places[m] < h.places[n];
  }
}

/** The pool's job cache: what one exclusive section of `broadcast_job` decides and stores. */
module JobCache {
  import opened Options

  /** `sequence` is the publication stamp; 0 means the job was never published. */
  datatype Job = Job(id: nat, signature: string, height: int, prevhash: string, sequence: nat)

  datatype Outcome = Published | Duplicate | StaleHeight | StalePrevhash

  /** The newest job, the cached jobs oldest first, and the number of publications so far. */
  datatype Cache = Cache(current: Option<Job>, recent: seq<Job>, counter: nat)

  const MAX_RECENT: nat := 24

  const EMPTY := Cache(None, [], 0)

  /** The publication decision, in the order the source tests it. */
  function Decide(c: Cache, job: Job, requireNewPrevhash: bool): Outcome
  {
    if c.current.Some? && c.current.value.signature == job.signature then Duplicate
    else if c.current.Some? && job.height < c.current.value.height then StaleHeight
    else if requireNewPrevhash && c.current.Some? && c.current.value.prevhash == job.prevhash then StalePrevhash
    else Published
  }

  /** The job as stamped by a publication. */
  function Stamped(c: Cache, job: Job): Job
  {
    job.(sequence := c.counter + 1)
  }

  function Newest(jobs: seq<Job>): seq<Job>
  {
    if |jobs| <= MAX_RECENT then jobs else jobs[|jobs| - MAX_RECENT..]
  }

  /** The cache after a publication was let through. */
  function Publish(c: Cache, job: Job): Cache
  {
    Cache(Some(Stamped(c, job)), Newest(c.recent + [Stamped(c, job)]), c.counter + 1)
  }

  // ---------- what the cache means: the tail of the publication history ----------

  ghost predicate Mirrors(c: Cache, history: seq<Job>)
  {
    && c.counter == |history|
    && c.current == (if history == [] then None else Some(history[|history| - 1]))
    && c.recent == Newest(history)
  }

  /** Later jobs carry other ids and no smaller height. */
  ghost predicate Rising(jobs: seq<Job>)
  {
    forall i, j :: 0 <= i < j < |jobs| ==> jobs[i].id != jobs[j].id && jobs[i].height <= jobs[j].height
  }

  /** Stamps count up from one, ids never repeat, heights never fall, and no work is repeated back to back. */
  ghost predicate Chronicle(history: seq<Job>)
  {
    && (forall i :: 0 <= i < |history| ==> history[i].sequence == i + 1)
    && Rising(history)
    && (forall i :: 0 < i < |history| ==> history[i - 1].signature != history[i].signature)
  }

  ghost predicate Fresh(jobs: seq<Job>, id: nat)
  {
    forall i :: 0 <= i < |jobs| ==> jobs[i].id != id
  }

  lemma RisingAppend(jobs: seq<Job>, job: Job)
    requires Rising(jobs) && Fresh(jobs, job.id)
    requires jobs == [] || jobs[|jobs| - 1].height <= job.height
    ensures Rising(jobs + [job])
  {
    var all := jobs + [job];
    forall i, j | 0 <= i < j < |all|
      ensures all[i].id != all[j].id && all[i].height <= all[j].height
    {
      if j == |jobs| && i < |jobs| - 1 {
        assert jobs[i].height <= jobs[|jobs| - 1].height;
      }
    }
  }

  /** Publishing appends to the history and keeps the cache its mirror. */
  lemma PublishMirrors(c: Cache, history: seq<Job>, job: Job, requireNewPrevhash: bool)
    requires Mirrors(c, history) && Chronicle(history) && Fresh(history, job.id)
    requires Decide(c, job, requireNewPrevhash) == Published
    ensures Chronicle(history + [Stamped(c, job)])
    ensures Mirrors(Publish(c, job), history + [Stamped(c, job)])
    ensures requireNewPrevhash && history != [] ==> history[|history| - 1].prevhash != job.prevhash
  {
    var stamped := Stamped(c, job);
    RisingAppend(history, stamped);
    assert Newest(Newest(history) + [stamped]) == Newest(history + [stamped]);
  }

  /** A mirror of a chronicle has at most 24 jobs, newest last, stamps rising and heights not falling. */
  lemma CacheShape(c: Cache, history: seq<Job>)
    requires Mirrors(c, history) && Chronicle(history)
    ensures |c.recent| <= 24
    ensures forall i, j :: 0 <= i < j < |c.recent| ==>
              && c.recent[i].sequence < c.recent[j].sequence
              && c.recent[i].height <= c.recent[j].height
              && c.recent[i].id != c.recent[j].id
    ensures c.current.Some? <==> c.counter > 0
    ensures c.current.Some? ==>
              && c.current.value.sequence == c.counter
              && |c.recent| > 0 && c.recent[|c.recent| - 1] == c.current.value
  {
    var k := |history| - |c.recent|;
    forall i, j | 0 <= i < j < |c.recent|
      ensures c.recent[i].sequence < c.recent[j].sequence
      ensures c.recent[i].height <= c.recent[j].height
      ensures c.recent[i].id != c.recent[j].id
    {
      assert c.recent[i] == history[i + k] && c.recent[j] == history[j + k];
    }
  }

  /** An order of ids beside a map, holding exactly the given jobs. */
  ghost predicate Stored(order: seq<nat>, jobs: map<nat, Job>, recent: seq<Job>)
  {
    && |order| == |recent|
    && (forall i :: 0 <= i < |recent| ==> order[i] == recent[i].id)
    && (forall i :: 0 <= i < |recent| ==> recent[i].id in jobs && jobs[recent[i].id] == recent[i])
    && (forall id :: id in jobs ==> id in order)
    && (forall i, j :: 0 <= i < j < |order| ==> order[i] != order[j])
  }

  lemma StoredAppend(order: seq<nat>, jobs: map<nat, Job>, recent: seq<Job>, job: Job)
    requires Stored(order, jobs, recent) && Fresh(recent, job.id)
    ensures Stored(order + [job.id], jobs[job.id := job], recent + [job])
  {
    var order', jobs', recent' := order + [job.id], jobs[job.id := job], recent + [job];
    forall i | 0 <= i < |recent'|
      ensures order'[i] == recent'[i].id
      ensures recent'[i].id in jobs' && jobs'[recent'[i].id] == recent'[i]
    {
      if i < |recent| {
        assert recent[i].id != job.id;
      }
    }
    forall id | id in jobs'
      ensures id in order'
    {
      if id != job.id {
        assert id in order;
      } else {
        assert order'[|order|] == id;
      }
    }
    assert forall i :: 0 <= i < |order| ==> order[i] != job.id;
  }

  lemma StoredDropFirst(order: seq<nat>, jobs: map<nat, Job>, recent: seq<Job>)
    requires Stored(order, jobs, recent) && order != []
    ensures Stored(order[1..], jobs - {order[0]}, recent[1..])
  {
    var order', jobs', recent' := order[1..], jobs - {order[0]}, recent[1..];
    forall i | 0 <= i < |recent'|
      ensures order'[i] == recent'[i].id
      ensures recent'[i].id in jobs' && jobs'[recent'[i].id] == recent'[i]
    {
      assert recent'[i] == recent[i + 1] && order'[i] == order[i + 1];
    }
    forall id | id in jobs'
      ensures id in order'
    {
      var i :| 0 <= i < |order| && order[i] == id;
      assert order'[i - 1] == id;
    }
    forall i, j | 0 <= i < j < |order'|
      ensures order'[i] != order'[j]
    {
      assert order'[i] == order[i + 1] && order'[j] == order[j + 1];
    }
  }

  /** The cache as the pool keeps it, changed in place under the exclusive lock. */
  class JobStore {
    var current: Option<Job>
    var order: seq<nat>
    var jobs: map<nat, Job>
    var counter: nat
    ghost var recent: seq<Job>

    ghost predicate Valid()
      reads this
    {
      |recent| <= MAX_RECENT && Stored(order, jobs, recent)
    }

    ghost function Contents(): Cache
      reads this
    {
      Cache(current, recent, counter)
    }

    constructor ()
      ensures Valid() && Contents() == EMPTY
    {
      current, order, jobs, counter := None, [], map[], 0;
      recent := [];
    }

    /** `recent_job`: the cached job with an id, if there is one. */
    method Find(id: nat) returns (found: Option<Job>)
      requires Valid()
      ensures found.Some? ==> found.value in recent && found.value.id == id
      ensures found.None? ==> Fresh(recent, id)
    {
      if id in jobs {
        found := Some(jobs[id]);
      } else {
        found := None;
      }
    }

    /** Drops the oldest jobs until 24 are left. */
    method Evict()
      requires Stored(order, jobs, recent)
      modifies this`order, this`jobs, this`recent
      ensures Valid() && recent == Newest(old(recent))
    {
      while |order| > MAX_RECENT
        invariant Stored(order, jobs, recent)
        invariant Newest(recent) == Newest(old(recent))
      {
        StoredDropFirst(order, jobs, recent);
        assert Newest(recent[1..]) == Newest(recent);
        jobs := jobs - {order[0]};
        order := order[1..];
        recent := recent[1..];
      }
    }

    /** The locked section of `broadcast_job`: decide, stamp, store, evict. */
    method Broadcast(job: Job, requireNewPrevhash: bool) returns (outcome: Outcome)
      requires Valid() && Fresh(recent, job.id)
      modifies this
      ensures Valid()
      ensures outcome == Decide(old(Contents()), job, requireNewPrevhash)
      ensures outcome == Published ==> Contents() == Publish(old(Contents()), job)
      ensures outcome != Published ==> Contents() == old(Contents())
    {
      if current.Some? && current.value.signature == job.signature {
        return Duplicate;
      }
      if current.Some? && job.height < current.value.height {
        return StaleHeight;
      }
      if requireNewPrevhash && current.Some? && current.value.prevhash == job.prevhash {
        return StalePrevhash;
      }
      counter := counter + 1;
      var stamped := job.(sequence := counter);
      current := Some(stamped);
      jobs := jobs[job.id := stamped];
      order := order + [job.id];
      recent := recent + [stamped];
      StoredAppend(old(order), old(jobs), old(recent), stamped);
      Evict();
      outcome := Published;
    }
  }
}

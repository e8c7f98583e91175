/** One channel as the session keeps it: a queue of shared job objects, changed in place. */
module LiveChannel {
  import opened Options
  import opened Channels

  /** Shared by the queue and by shares being validated; only its target ever changes. */
  class IssuedJob {
    const source: Source
    const work: Kind
    const follows: bool
    var target: nat

    constructor (source: Source, work: Kind, target: nat, follows: bool)
      ensures this.source == source && this.work == work && this.target == target && this.follows == follows
    {
      this.source, this.work, this.follows := source, work, follows;
      this.target := target;
    }
  }

  class Live {
    const kind: Kind
    var target: nat
    var deviceMaximum: nat
    var jobs: seq<(nat, IssuedJob)>
    var tip: Option<Tip>

    ghost function Objects(): set<IssuedJob>
      reads this
    {
      set i | 0 <= i < |jobs| :: jobs[i].1
    }

    ghost predicate JobValid(i: nat)
      reads this, Objects()
      requires i < |jobs|
    {
      var job := jobs[i].1;
      && job.work == kind && Some(job.source.tip) == tip
      && (job.follows ==> i == 0 && job.target == target)
    }

    ghost predicate Valid()
      reads this, Objects()
    {
      target <= deviceMaximum && |jobs| <= MAX_ISSUED && forall i :: 0 <= i < |jobs| ==> JobValid(i)
    }

    constructor (kind: Kind, target: nat, deviceMaximum: nat)
      requires target <= deviceMaximum
      ensures Valid() && jobs == [] && tip == None && this.kind == kind && this.target == target
      ensures this.deviceMaximum == deviceMaximum
    {
      this.kind, this.target, this.deviceMaximum := kind, target, deviceMaximum;
      jobs, tip := [], None;
    }

    /** Drops the oldest jobs until eight are left. */
    method PopOldest()
      modifies this`jobs
      ensures jobs == if |old(jobs)| <= MAX_ISSUED then old(jobs) else old(jobs)[|old(jobs)| - MAX_ISSUED..]
    {
      while |jobs| > MAX_ISSUED
        invariant |jobs| <= |old(jobs)| && jobs == old(jobs)[|old(jobs)| - |jobs|..]
        invariant |jobs| >= MAX_ISSUED || jobs == old(jobs)
      {
        jobs := jobs[1..];
      }
    }

    /** `commit_job_locked`: a clean job, or one on another parent, starts the queue afresh. */
    method CommitJob(jobId: nat, source: Source, clean: bool) returns (job: IssuedJob)
      requires Valid()
      modifies this
      ensures Valid() && fresh(job) && target == old(target) && deviceMaximum == old(deviceMaximum)
      ensures job.source == source && job.work == kind && job.target == target
      ensures job.follows == (clean || old(tip) != Some(source.tip))
      ensures |jobs| > 0 && jobs[|jobs| - 1] == (jobId, job) && tip == Some(source.tip)
      ensures job.follows ==> jobs == [(jobId, job)]
      ensures !job.follows ==> jobs[..|jobs| - 1] == old(if |jobs| < MAX_ISSUED then jobs else jobs[1..])
    {
      var cleanJob := clean || tip != Some(source.tip);
      if cleanJob {
        jobs := [];
      }
      job := new IssuedJob(source, kind, target, cleanJob);
      ghost var kept := jobs;
      jobs := jobs + [(jobId, job)];
      PopOldest();
      tip := Some(source.tip);
      ghost var k := |kept| + 1 - |jobs|;
      forall i | 0 <= i < |jobs|
        ensures JobValid(i)
      {
        if i + k < |kept| {
          assert jobs[i] == kept[i + k] == old(jobs[i + k]);
          assert old(JobValid(i + k));
        }
      }
    }

    /** `change_target_locked`: the jobs that follow the channel are moved through their references. */
    method ChangeTarget(newTarget: nat)
      requires Valid() && newTarget <= deviceMaximum
      modifies this`target, Objects()
      ensures Valid() && target == newTarget
      ensures forall job :: job in Objects() ==> job.target == if job.follows then newTarget else old(job.target)
    {
      for i := 0 to |jobs|
        invariant forall k :: 0 <= k < |jobs| ==>
                    jobs[k].1.target == newTarget || jobs[k].1.target == old(jobs[k].1.target)
        invariant forall k :: 0 <= k < |jobs| && !jobs[k].1.follows ==> jobs[k].1.target == old(jobs[k].1.target)
        invariant forall k :: 0 <= k < i && jobs[k].1.follows ==> jobs[k].1.target == newTarget
      {
        if jobs[i].1.follows {
          jobs[i].1.target := newTarget;
        }
      }
      target := newTarget;
      forall i | 0 <= i < |jobs|
        ensures JobValid(i)
      {
        assert old(JobValid(i));
      }
    }
  }
}

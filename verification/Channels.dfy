/**
 The mining channels of an SV2 session. Every region under the session mutex is one action; plans are prepared under
 the lock, built without it and committed later, so any number of them may be outstanding. Issued jobs are shared
 objects: channels, and shares being validated, hold references into one store.
 */
module Channels {
  import opened Options

  type Ref = nat

  const MAX_CHANNEL_ID := 65535
  const MAX_ACTIVE := 255
  const MAX_ISSUED := 8

  datatype Kind = Standard | Extended

  /** The parent a job builds on, by its hash and bits. */
  datatype Tip = Tip(prevhash: seq<int>, bits: nat)

  datatype Source = Source(tip: Tip, time: nat, sequence: nat)

  /** `work` is the variant the work was built as. */
  datatype Issued = Issued(source: Source, work: Kind, prefix: seq<int>, extranonceSize: nat, target: nat,
                           follows: bool)

  datatype Channel = Channel(kind: Kind, prefix: seq<int>, extranonceSize: nat, deviceMaximum: nat, target: nat,
                             frequent: bool, jobs: seq<(nat, Ref)>, tip: Option<Tip>)

  datatype Plan = Plan(channel: nat, kind: Kind, source: Source, jobId: nat, prefix: seq<int>, extranonceSize: nat)

  datatype Session = Session(nextChannel: nat, nextJob: nat, channels: map<nat, Channel>, store: seq<Issued>,
                             plans: seq<Plan>)

  const INITIAL := Session(1, 1, map[], [], [])

  function Min(a: nat, b: nat): nat
  {
    if a <= b then a else b
  }

  // ---------- committing a job ----------

  /** `requires_new_prevhash_locked` */
  predicate NeedsNewTip(c: Channel, source: Source)
  {
    c.tip != Some(source.tip)
  }

  function Newest(jobs: seq<(nat, Ref)>): seq<(nat, Ref)>
  {
    if |jobs| <= MAX_ISSUED then jobs else jobs[|jobs| - MAX_ISSUED..]
  }

  function IssuedBy(c: Channel, plan: Plan, clean: bool): Issued
  {
    Issued(plan.source, plan.kind, plan.prefix, plan.extranonceSize, c.target, clean || NeedsNewTip(c, plan.source))
  }

  /** The channel after `commit_job_locked`, the issued job going to `ref`. */
  function Committed(c: Channel, plan: Plan, clean: bool, ref: Ref): Channel
  {
    var cleanJob := clean || NeedsNewTip(c, plan.source);
    c.(jobs := Newest((if cleanJob then [] else c.jobs) + [(plan.jobId, ref)]),
       tip := if cleanJob then Some(plan.source.tip) else c.tip)
  }

  function CommitTo(s: Session, id: nat, plan: Plan, clean: bool): Session
    requires id in s.channels
  {
    s.(channels := s.channels[id := Committed(s.channels[id], plan, clean, |s.store|)],
       store := s.store + [IssuedBy(s.channels[id], plan, clean)])
  }

  /** `prepare_job_locked`; the prefix of a standard job is newly allocated each time. */
  function PlanFor(s: Session, id: nat, source: Source, newPrefix: seq<int>): Plan
    requires id in s.channels
  {
    var c := s.channels[id];
    if c.kind == Standard then Plan(id, Standard, source, s.nextJob, newPrefix, 0)
    else Plan(id, Extended, source, s.nextJob, c.prefix, c.extranonceSize)
  }

  /** 32-bit, and 0 is skipped on wrap-around. */
  function NextJobId(n: nat): nat
  {
    if n + 1 == 0x1_0000_0000 then 1 else n + 1
  }

  // ---------- changing a target ----------

  /** The jobs that follow the channel move with it, in place. */
  ghost function MovedStore(store: seq<Issued>, jobs: seq<(nat, Ref)>, target: nat): (moved: seq<Issued>)
    ensures |moved| == |store|
  {
    seq(|store|, ref requires 0 <= ref < |store| =>
        if store[ref].follows && Held(jobs, ref) then store[ref].(target := target) else store[ref])
  }

  predicate Held(jobs: seq<(nat, Ref)>, ref: Ref)
  {
    exists i :: 0 <= i < |jobs| && jobs[i].1 == ref
  }

  /** `change_target_locked` */
  ghost function Retargeted(s: Session, id: nat, target: nat): Session
    requires id in s.channels
  {
    s.(channels := s.channels[id := s.channels[id].(target := target)],
       store := MovedStore(s.store, s.channels[id].jobs, target))
  }

  // ---------- actions ----------

  datatype Action =
    | Open(kind: Kind, maximum: nat, wanted: nat, frequent: bool, prefix: seq<int>, extranonceSize: nat,
           source: Option<Source>)
    | Update(id: nat, maximum: nat, byRate: Option<nat>, frequent: bool, source: Option<Source>, prefix: seq<int>)
    | Close(id: nat)
    | CloseAll
    | Retarget(id: nat, wanted: nat)
    | Prepare(id: nat, job: Source, prefix: seq<int>)
    | Commit(i: nat, clean: bool)
    | Drop(i: nat)

  predicate HasStandard(s: Session)
  {
    exists id :: id in s.channels && s.channels[id].kind == Standard
  }

  predicate MayOpen(s: Session, kind: Kind)
  {
    && s.nextChannel <= MAX_CHANNEL_ID
    && (kind == Standard ==> s.channels == map[])
    && (kind == Extended ==> !HasStandard(s) && |s.channels| < MAX_ACTIVE)
  }

  /** `open_channel_locked`, for requests whose rate and address are valid. */
  function DoOpen(s: Session, kind: Kind, maximum: nat, wanted: nat, frequent: bool, prefix: seq<int>,
                  extranonceSize: nat,
                  source: Option<Source>): Session
  {
    if !MayOpen(s, kind) || maximum == 0 || source.None? then s
    else
      var id := s.nextChannel;
      var c := Channel(kind, if kind == Extended then prefix else [], if kind == Extended then extranonceSize else 0,
                       maximum, Min(wanted, maximum), frequent && kind == Standard, [], None);
      var grown := s.(nextChannel := id + 1, channels := s.channels[id := c]);
      var plan := PlanFor(grown, id, source.value, prefix);
      CommitTo(grown.(nextJob := NextJobId(s.nextJob)), id, plan, true)
  }

  /** `handle_update_locked`, for a valid rate; a job is issued when frequent refresh becomes necessary. */
  ghost function DoUpdate(s: Session, id: nat, maximum: nat, wanted: Option<nat>, frequent: bool,
                          source: Option<Source>, prefix: seq<int>): Session
  {
    if id !in s.channels || maximum == 0 then s
    else
      var c := s.channels[id];
      var next := c.(deviceMaximum := maximum, frequent := frequent && c.kind == Standard);
      var requested := Min(if wanted.Some? then wanted.value else c.target, maximum);
      var updated := s.(channels := s.channels[id := next]);
      if requested != c.target then Retargeted(updated, id, requested)
      else if !c.frequent && next.frequent && source.Some? then
        CommitTo(updated.(nextJob := NextJobId(s.nextJob)), id, PlanFor(updated, id, source.value, prefix),
                 NeedsNewTip(next, source.value))
      else updated
  }

  function DoClose(s: Session, id: nat): Session
  {
    s.(channels := s.channels - {id})
  }

  ghost function DoRetarget(s: Session, id: nat, wanted: nat): Session
  {
    if id !in s.channels || Min(wanted, s.channels[id].deviceMaximum) == s.channels[id].target then s
    else Retargeted(s, id, Min(wanted, s.channels[id].deviceMaximum))
  }

  function DoPrepare(s: Session, id: nat, source: Source, prefix: seq<int>): Session
  {
    if id !in s.channels then s
    else s.(plans := s.plans + [PlanFor(s, id, source, prefix)], nextJob := NextJobId(s.nextJob))
  }

  function Without(plans: seq<Plan>, i: nat): seq<Plan>
    requires i < |plans|
  {
    plans[..i] + plans[i + 1..]
  }

  function DoCommit(s: Session, i: nat, clean: bool): Session
  {
    if i >= |s.plans| then s
    else
      var plan := s.plans[i];
      var rest := s.(plans := Without(s.plans, i));
      if plan.channel !in s.channels then rest else CommitTo(rest, plan.channel, plan, clean)
  }

  function DoDrop(s: Session, i: nat): Session
  {
    if i >= |s.plans| then s else s.(plans := Without(s.plans, i))
  }

  ghost function Apply(s: Session, a: Action): Session
  {
    match a
    case Open(kind, maximum, wanted, frequent, prefix, size, source) =>
      DoOpen(s, kind, maximum, wanted, frequent, prefix, size, source)
    case Update(id, maximum, wanted, frequent, source, prefix) =>
      DoUpdate(s, id, maximum, wanted, frequent, source, prefix)
    case Close(id) => DoClose(s, id)
    case CloseAll => s.(channels := map[])
    case Retarget(id, wanted) => DoRetarget(s, id, wanted)
    case Prepare(id, source, prefix) => DoPrepare(s, id, source, prefix)
    case Commit(i, clean) => DoCommit(s, i, clean)
    case Drop(i) => DoDrop(s, i)
  }

  ghost function Run(actions: seq<Action>): Session
  {
    if actions == [] then INITIAL else Apply(Run(actions[..|actions| - 1]), actions[|actions| - 1])
  }

  // ---------- invariant ----------

  /** A job of a channel: right variant, right parent, and only the first may follow the channel's target. */
  ghost predicate JobOk(c: Channel, i: nat, job: Issued)
  {
    && job.work == c.kind && Some(job.source.tip) == c.tip
    && (job.follows ==> i == 0 && job.target == c.target)
  }

  ghost predicate JobsOk(c: Channel, store: seq<Issued>)
  {
    forall i :: 0 <= i < |c.jobs| ==> c.jobs[i].1 < |store| && JobOk(c, i, store[c.jobs[i].1])
  }

  ghost predicate ChannelOk(c: Channel, store: seq<Issued>)
  {
    c.target <= c.deviceMaximum && |c.jobs| <= MAX_ISSUED && JobsOk(c, store)
  }

  ghost predicate AllChannelsOk(channels: map<nat, Channel>, store: seq<Issued>)
  {
    forall id :: id in channels ==> ChannelOk(channels[id], store)
  }

  ghost predicate Holds(c: Channel, ref: Ref)
  {
    Held(c.jobs, ref)
  }

  /** No job is held by two channels. */
  ghost predicate Unshared(channels: map<nat, Channel>)
  {
    forall a, b, ref: Ref :: a in channels && b in channels && Holds(channels[a], ref) && Holds(channels[b], ref)
        ==> a == b
  }

  ghost predicate IdsOk(s: Session)
  {
    && 1 <= s.nextChannel <= MAX_CHANNEL_ID + 1
    && (forall id :: id in s.channels ==> 1 <= id < s.nextChannel)
  }

  ghost predicate KindsOk(channels: map<nat, Channel>)
  {
    && |channels| <= MAX_ACTIVE
    && (forall id :: id in channels && channels[id].kind == Standard ==> channels.Keys == {id})
  }

  ghost predicate PlansOk(s: Session)
  {
    forall i :: 0 <= i < |s.plans| ==>
      && s.plans[i].channel < s.nextChannel
      && (s.plans[i].channel in s.channels ==> s.channels[s.plans[i].channel].kind == s.plans[i].kind)
  }

  ghost predicate Inv(s: Session)
  {
    IdsOk(s) && KindsOk(s.channels) && PlansOk(s) && AllChannelsOk(s.channels, s.store) && Unshared(s.channels)
  }

  // ---------- every action keeps it ----------

  lemma CommittedOk(c: Channel, plan: Plan, clean: bool, store: seq<Issued>)
    requires ChannelOk(c, store) && plan.kind == c.kind
    ensures ChannelOk(Committed(c, plan, clean, |store|), store + [IssuedBy(c, plan, clean)])
  {
    var next, longer := Committed(c, plan, clean, |store|), store + [IssuedBy(c, plan, clean)];
    var kept := if clean || NeedsNewTip(c, plan.source) then [] else c.jobs;
    var jobs := kept + [(plan.jobId, |store|)];
    var k := |jobs| - |next.jobs|;
    forall i | 0 <= i < |next.jobs|
      ensures next.jobs[i].1 < |longer| && JobOk(next, i, longer[next.jobs[i].1])
    {
      assert next.jobs[i] == jobs[i + k];
      if i + k < |kept| {
        assert JobOk(c, i + k, store[c.jobs[i + k].1]);
      }
    }
  }

  lemma CommittedHolds(c: Channel, plan: Plan, clean: bool, fresh': Ref, ref: Ref)
    requires Holds(Committed(c, plan, clean, fresh'), ref)
    ensures Holds(c, ref) || ref == fresh'
  {
    var next := Committed(c, plan, clean, fresh');
    var kept := if clean || NeedsNewTip(c, plan.source) then [] else c.jobs;
    var jobs := kept + [(plan.jobId, fresh')];
    var i :| 0 <= i < |next.jobs| && next.jobs[i].1 == ref;
    var k := |jobs| - |next.jobs|;
    assert next.jobs[i] == jobs[i + k];
  }

  lemma CommitToKeeps(s: Session, id: nat, plan: Plan, clean: bool)
    requires Inv(s) && id in s.channels && plan.kind == s.channels[id].kind
    ensures Inv(CommitTo(s, id, plan, clean))
  {
    var next := CommitTo(s, id, plan, clean);
    CommittedOk(s.channels[id], plan, clean, s.store);
    assert next.channels.Keys == s.channels.Keys;
    forall other | other in next.channels
      ensures ChannelOk(next.channels[other], next.store)
    {
      if other != id {
        StoreGrows(s.channels[other], s.store, next.store[|s.store|]);
      }
    }
    forall a, b, ref: Ref | a in next.channels && b in next.channels && Holds(next.channels[a], ref)
        && Holds(next.channels[b], ref)
      ensures a == b
    {
      HeldBefore(s, id, plan, clean, a, ref);
      HeldBefore(s, id, plan, clean, b, ref);
    }
  }

  lemma StoreGrows(c: Channel, store: seq<Issued>, job: Issued)
    requires ChannelOk(c, store)
    ensures ChannelOk(c, store + [job])
  {
  }

  /** After a commit a channel holds what it held before, or the new job if it is the one. */
  lemma HeldBefore(s: Session, id: nat, plan: Plan, clean: bool, a: nat, ref: Ref)
    requires AllChannelsOk(s.channels, s.store) && id in s.channels
    requires a in s.channels && Holds(CommitTo(s, id, plan, clean).channels[a], ref)
    ensures if ref < |s.store| then Holds(s.channels[a], ref) else a == id
  {
    if a == id {
      CommittedHolds(s.channels[id], plan, clean, |s.store|, ref);
      if Holds(s.channels[id], ref) {
        assert ChannelOk(s.channels[id], s.store);
      }
    } else {
      assert ChannelOk(s.channels[a], s.store);
    }
  }

  lemma RetargetedKeeps(s: Session, id: nat, target: nat)
    requires Inv(s) && id in s.channels && target <= s.channels[id].deviceMaximum
    ensures Inv(Retargeted(s, id, target))
  {
    var next, c := Retargeted(s, id, target), s.channels[id];
    assert next.channels.Keys == s.channels.Keys;
    forall other | other in next.channels
      ensures ChannelOk(next.channels[other], next.store)
    {
      RetargetedChannel(s, id, target, other);
    }
    forall a, b, ref: Ref | a in next.channels && b in next.channels && Holds(next.channels[a], ref)
        && Holds(next.channels[b], ref)
      ensures a == b
    {
      assert next.channels[a].jobs == s.channels[a].jobs && next.channels[b].jobs == s.channels[b].jobs;
      assert Holds(s.channels[a], ref) && Holds(s.channels[b], ref);
    }
  }

  lemma RetargetedChannel(s: Session, id: nat, target: nat, other: nat)
    requires Inv(s) && id in s.channels && target <= s.channels[id].deviceMaximum && other in s.channels
    ensures ChannelOk(Retargeted(s, id, target).channels[other], Retargeted(s, id, target).store)
  {
    var next, c := Retargeted(s, id, target), s.channels[other];
    assert ChannelOk(c, s.store);
    forall i | 0 <= i < |c.jobs|
      ensures JobOk(next.channels[other], i, next.store[c.jobs[i].1])
    {
      var ref := c.jobs[i].1;
      assert JobOk(c, i, s.store[ref]);
      assert Holds(c, ref);
      if other != id {
        assert !Holds(s.channels[id], ref);
      }
    }
  }

  /** The session with a new, still empty channel. */
  function Grown(s: Session, c: Channel): Session
  {
    s.(nextChannel := s.nextChannel + 1, channels := s.channels[s.nextChannel := c])
  }

  lemma GrownKeeps(s: Session, c: Channel)
    requires Inv(s) && MayOpen(s, c.kind) && c.jobs == [] && c.target <= c.deviceMaximum
    ensures Inv(Grown(s, c))
  {
    var next := Grown(s, c);
    assert s.nextChannel !in s.channels;
    assert |next.channels| == |s.channels| + 1;
    assert forall ref: Ref :: !Holds(c, ref);
    forall id | id in next.channels && next.channels[id].kind == Standard
      ensures next.channels.Keys == {id}
    {
      if c.kind == Extended {
        assert id == s.nextChannel || HasStandard(s);
      }
    }
  }

  lemma OpenKeeps(s: Session, kind: Kind, maximum: nat, wanted: nat, frequent: bool, prefix: seq<int>,
                  extranonceSize: nat, source: Option<Source>)
    requires Inv(s)
    ensures Inv(DoOpen(s, kind, maximum, wanted, frequent, prefix, extranonceSize, source))
  {
    if MayOpen(s, kind) && maximum != 0 && source.Some? {
      var id := s.nextChannel;
      var c := Channel(kind, if kind == Extended then prefix else [], if kind == Extended then extranonceSize else 0,
                       maximum, Min(wanted, maximum), frequent && kind == Standard, [], None);
      var grown := Grown(s, c);
      GrownKeeps(s, c);
      CommitToKeeps(grown.(nextJob := NextJobId(s.nextJob)), id, PlanFor(grown, id, source.value, prefix), true);
    }
  }

  /** A channel whose limits change but not its jobs. */
  lemma LimitsKeep(s: Session, id: nat, c: Channel)
    requires Inv(s) && id in s.channels
    requires c == s.channels[id].(deviceMaximum := c.deviceMaximum, frequent := c.frequent, target := c.target)
    requires c.target == s.channels[id].target && c.target <= c.deviceMaximum
    ensures Inv(s.(channels := s.channels[id := c]))
  {
    var next := s.(channels := s.channels[id := c]);
    assert next.channels.Keys == s.channels.Keys;
    assert ChannelOk(s.channels[id], s.store);
    assert JobsOk(c, s.store) by {
      forall i | 0 <= i < |c.jobs|
        ensures JobOk(c, i, s.store[c.jobs[i].1])
      {
        assert JobOk(s.channels[id], i, s.store[c.jobs[i].1]);
      }
    }
    forall a, b, ref: Ref | a in next.channels && b in next.channels && Holds(next.channels[a], ref)
        && Holds(next.channels[b], ref)
      ensures a == b
    {
      assert Holds(s.channels[a], ref) && Holds(s.channels[b], ref);
    }
  }

  lemma LimitsCommute(s: Session, id: nat, high: Channel, next: Channel, target: nat)
    requires id in s.channels && high.jobs == next.jobs && high == next.(deviceMaximum := high.deviceMaximum)
    ensures var moved := Retargeted(s.(channels := s.channels[id := high]), id, target);
            Retargeted(s.(channels := s.channels[id := next]), id, target)
            == moved.(channels := moved.channels[id := next.(target := target)])
  {
    assert s.channels[id := next][id := next.(target := target)]
        == s.channels[id := high][id := high.(target := target)][id := next.(target := target)];
  }

  /** Lowering the device maximum and the target together. */
  lemma LoweredKeeps(s: Session, id: nat, next: Channel, target: nat)
    requires Inv(s) && id in s.channels && target <= next.deviceMaximum
    requires next == s.channels[id].(deviceMaximum := next.deviceMaximum, frequent := next.frequent)
    ensures Inv(Retargeted(s.(channels := s.channels[id := next]), id, target))
  {
    var high := next.(deviceMaximum := next.deviceMaximum + s.channels[id].target);
    LimitsKeep(s, id, high);
    RaisedKeeps(s.(channels := s.channels[id := high]), id, next.(target := target), target);
    LimitsCommute(s, id, high, next, target);
  }

  lemma RaisedKeeps(raised: Session, id: nat, next: Channel, target: nat)
    requires Inv(raised) && id in raised.channels && target <= raised.channels[id].deviceMaximum
    requires next == raised.channels[id].(deviceMaximum := next.deviceMaximum, target := target)
             && target <= next.deviceMaximum
    ensures var moved := Retargeted(raised, id, target); Inv(moved.(channels := moved.channels[id := next]))
  {
    RetargetedKeeps(raised, id, target);
    LimitsKeep(Retargeted(raised, id, target), id, next);
  }

  lemma UpdateKeeps(s: Session, id: nat, maximum: nat, wanted: Option<nat>, frequent: bool, source: Option<Source>,
                    prefix: seq<int>)
    requires Inv(s)
    ensures Inv(DoUpdate(s, id, maximum, wanted, frequent, source, prefix))
  {
    if id in s.channels && maximum != 0 {
      var c := s.channels[id];
      var next := c.(deviceMaximum := maximum, frequent := frequent && c.kind == Standard);
      var requested := Min(if wanted.Some? then wanted.value else c.target, maximum);
      var updated := s.(channels := s.channels[id := next]);
      if requested != c.target {
        LoweredKeeps(s, id, next, requested);
      } else {
        LimitsKeep(s, id, next);
        if !c.frequent && next.frequent && source.Some? {
          CommitToKeeps(updated.(nextJob := NextJobId(s.nextJob)), id, PlanFor(updated, id, source.value, prefix),
                        NeedsNewTip(next, source.value));
        }
      }
    }
  }

  lemma CloseKeeps(s: Session, id: nat)
    requires Inv(s)
    ensures Inv(DoClose(s, id)) && Inv(s.(channels := map[]))
  {
    var next := DoClose(s, id);
    assert next.channels.Keys <= s.channels.Keys;
    CardinalityOfSubset(next.channels.Keys, s.channels.Keys);
    assert |next.channels| == |next.channels.Keys| && |s.channels| == |s.channels.Keys|;
    forall k | k in next.channels && next.channels[k].kind == Standard
      ensures next.channels.Keys == {k}
    {
      assert s.channels.Keys == {k};
    }
  }

  lemma {:induction false} CardinalityOfSubset(a: set<nat>, b: set<nat>)
    requires a <= b
    ensures |a| <= |b|
  {
    if a != {} {
      var x :| x in a;
      CardinalityOfSubset(a - {x}, b - {x});
    }
  }

  lemma RetargetKeeps(s: Session, id: nat, wanted: nat)
    requires Inv(s)
    ensures Inv(DoRetarget(s, id, wanted))
  {
    if id in s.channels {
      RetargetedKeeps(s, id, Min(wanted, s.channels[id].deviceMaximum));
    }
  }

  lemma PlansKeep(s: Session, id: nat, source: Source, prefix: seq<int>, i: nat)
    requires Inv(s)
    ensures Inv(DoPrepare(s, id, source, prefix)) && Inv(DoDrop(s, i))
  {
  }

  lemma CommitKeeps(s: Session, i: nat, clean: bool)
    requires Inv(s)
    ensures Inv(DoCommit(s, i, clean))
  {
    PlansKeep(s, 0, Source(Tip([], 0), 0, 0), [], i);
    if i < |s.plans| && s.plans[i].channel in s.channels {
      CommitToKeeps(s.(plans := Without(s.plans, i)), s.plans[i].channel, s.plans[i], clean);
    }
  }

  lemma ApplyKeeps(s: Session, a: Action)
    requires Inv(s)
    ensures Inv(Apply(s, a))
  {
    match a
    case Open(kind, maximum, wanted, frequent, prefix, size, source) =>
      OpenKeeps(s, kind, maximum, wanted, frequent, prefix, size, source);
    case Update(id, maximum, wanted, frequent, source, prefix) =>
      UpdateKeeps(s, id, maximum, wanted, frequent, source, prefix);
    case Close(id) => CloseKeeps(s, id);
    case CloseAll => CloseKeeps(s, 0);
    case Retarget(id, wanted) => RetargetKeeps(s, id, wanted);
    case Prepare(id, source, prefix) => PlansKeep(s, id, source, prefix, 0);
    case Commit(i, clean) => CommitKeeps(s, i, clean);
    case Drop(i) => PlansKeep(s, 0, Source(Tip([], 0), 0, 0), [], i);
  }

  // ---------- every run ----------

  lemma {:induction false} RunKeeps(actions: seq<Action>)
    ensures Inv(Run(actions))
  {
    if actions != [] {
      RunKeeps(actions[..|actions| - 1]);
      ApplyKeeps(Run(actions[..|actions| - 1]), actions[|actions| - 1]);
    }
  }

  /**
   In every reachable state: one standard channel or at most 255 extended ones; at most eight jobs on a channel, all of
   its kind and on its current parent; only the first may follow the channel's target, and then has it; and no target
   is above what the device allows.
   */
  lemma ReachableSession(actions: seq<Action>)
    ensures var s := Run(actions);
            && |s.channels| <= 255
            && (forall id :: id in s.channels && s.channels[id].kind == Standard ==> s.channels.Keys == {id})
            && (forall id :: id in s.channels ==>
                  && 1 <= id <= 65535 && s.channels[id].target <= s.channels[id].deviceMaximum
                  && |s.channels[id].jobs| <= 8 && JobsOk(s.channels[id], s.store))
  {
    RunKeeps(actions);
    var s := Run(actions);
    forall id | id in s.channels
      ensures ChannelOk(s.channels[id], s.store)
    {
    }
  }

  lemma IdsMoveOn(s: Session, a: Action)
    ensures Apply(s, a).nextChannel >= s.nextChannel
    ensures forall id :: id in Apply(s, a).channels && id !in s.channels ==>
              s.nextChannel <= id < Apply(s, a).nextChannel
  {
  }

  /** A channel id that was given out and closed never names a channel again. */
  lemma {:induction false} IdsNeverReused(before: seq<Action>, after: seq<Action>, id: nat)
    requires id < Run(before).nextChannel && id !in Run(before).channels
    ensures id !in Run(before + after).channels && id < Run(before + after).nextChannel
    decreases |after|
  {
    var all := before + after;
    if after == [] {
      assert all == before;
    } else {
      var front := after[..|after| - 1];
      IdsNeverReused(before, front, id);
      assert all[..|all| - 1] == before + front;
      IdsMoveOn(Run(before + front), after[|after| - 1]);
    }
  }

  /** What an issued job is built from never changes; its target only while it follows its channel. */
  lemma StoreOnlyMovesTargets(s: Session, a: Action, ref: Ref)
    requires ref < |s.store|
    ensures ref < |Apply(s, a).store|
    ensures Apply(s, a).store[ref] == s.store[ref].(target := Apply(s, a).store[ref].target)
    ensures !s.store[ref].follows ==> Apply(s, a).store[ref] == s.store[ref]
  {
  }

  /** Whether an action is about a channel. */
  predicate Concerns(s: Session, a: Action, id: nat)
  {
    match a
    case Open(_, _, _, _, _, _, _) => false
    case Update(x, _, _, _, _, _) => x == id
    case Close(x) => x == id
    case CloseAll => true
    case Retarget(x, _) => x == id
    case Prepare(_, _, _) => false
    case Commit(i, _) => i < |s.plans| && s.plans[i].channel == id
    case Drop(_) => false
  }

  lemma RetargetedElsewhere(s: Session, id: nat, target: nat, other: nat, ref: Ref)
    requires Inv(s) && id in s.channels && other in s.channels && other != id && Holds(s.channels[other], ref)
             && ref < |s.store|
    ensures Retargeted(s, id, target).store[ref] == s.store[ref]
  {
    assert !Holds(s.channels[id], ref);
  }

  /** Whatever is done to other channels, a channel and the jobs it holds stay as they are, shared store or not. */
  lemma ChannelsIsolated(actions: seq<Action>, a: Action, id: nat, i: nat)
    requires id in Run(actions).channels && !Concerns(Run(actions), a, id)
    ensures var s, next := Run(actions), Run(actions + [a]);
            && id in next.channels && next.channels[id] == s.channels[id]
            && (i < |s.channels[id].jobs| ==>
                  var ref := s.channels[id].jobs[i].1;
                  ref < |s.store| && ref < |next.store| && next.store[ref] == s.store[ref])
  {
    RunKeeps(actions);
    assert (actions + [a])[..|actions|] == actions;
    var s := Run(actions);
    if i < |s.channels[id].jobs| {
      var ref := s.channels[id].jobs[i].1;
      assert ChannelOk(s.channels[id], s.store) && Holds(s.channels[id], ref);
      StoreOnlyMovesTargets(s, a, ref);
      if a.Retarget? && a.id in s.channels {
        RetargetedElsewhere(s, a.id, Min(a.wanted, s.channels[a.id].deviceMaximum), id, ref);
      } else if a.Update? && a.id in s.channels {
        UpdatedElsewhere(s, a, id, ref);
      }
    }
  }

  lemma UpdatedElsewhere(s: Session, a: Action, other: nat, ref: Ref)
    requires Inv(s) && a.Update? && a.id in s.channels && other in s.channels && other != a.id
    requires Holds(s.channels[other], ref) && ref < |s.store|
    ensures Apply(s, a).store[ref] == s.store[ref]
  {
    assert !Holds(s.channels[a.id], ref);
  }

  /**
   An accepted update leaves the requested target within the new maximum, and a job that follows the channel has it.
   */
  lemma UpdateSetsTarget(actions: seq<Action>, a: Action, i: nat)
    requires a.Update? && a.maximum > 0 && a.id in Run(actions).channels
    ensures var s, next := Run(actions), Run(actions + [a]);
            && a.id in next.channels
            && (var c := next.channels[a.id];
                && c.deviceMaximum == a.maximum
                && c.target == Min(if a.byRate.Some? then a.byRate.value else s.channels[a.id].target, a.maximum)
                && (i < |c.jobs| && c.jobs[i].1 < |next.store| && next.store[c.jobs[i].1].follows ==>
                      i == 0 && next.store[c.jobs[i].1].target == c.target))
  {
    RunKeeps(actions + [a]);
    assert (actions + [a])[..|actions|] == actions;
    var next := Run(actions + [a]);
    assert a.id in next.channels;
    assert ChannelOk(next.channels[a.id], next.store);
    if i < |next.channels[a.id].jobs| {
      assert JobOk(next.channels[a.id], i, next.store[next.channels[a.id].jobs[i].1]);
    }
  }
}

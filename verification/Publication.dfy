/**
 Job publication as a concurrent protocol. Every mutex-protected region of the pool and of the sessions is one
 atomic action; broadcasters, the publication thread, refreshers, connects, disconnects and miners' requests
 interleave in any order. A run is any sequence of actions from the initial state.
 */
module Publication {
  import opened JobCache
  import opened Options

  type Client = nat
  type Thread = nat

  /** `last` is the highest publication delivered; `sent` the stamps of all notifies sent, in order. */
  datatype Sv1Session = Sv1Session(subscribed: bool, authorized: bool, last: nat, sent: seq<nat>)

  /**
   `ordered` holds the stamps committed when the channel was opened and by `publish_job` and
   `maybe_refresh_job`; `issued` holds those and the ones `handle_update_locked` issues.
   */
  datatype Channel = Channel(last: nat, ordered: seq<nat>, issued: seq<nat>)
  datatype Sv2Session = Sv2Session(nextChannel: nat, channels: map<nat, Channel>)

  datatype Pending = Pending(client: Client, job: Job, clean: bool)

  datatype Broadcaster =
    | Idle
    | Built(job: Job, clean: bool, requireNewPrevhash: bool)
    | Announcing(job: Job, clean: bool)
    | Sending(job: Job, clean: bool, sync: set<Client>, async: set<Client>)

  datatype Publisher =
    | Waiting
    | LookingUp(pending: Pending)
    | Missed(pending: Pending)
    | Planning(client: Client, job: Job)
    | Committing(client: Client, job: Job, plans: set<nat>)

  datatype Refresher =
    | Resting
    | HasJob(client: Client, job: Job)
    | Planned(client: Client, job: Job, channel: nat)

  /** `history` lists every published job and `newest` the thread that published last; nothing reads them. */
  datatype State = State(
    cache: Cache, history: seq<Job>, nextId: nat,
    connected: set<Client>, sv1: map<Client, Sv1Session>, sv2: map<Client, Sv2Session>,
    queue: seq<Pending>, publisher: Publisher,
    broadcasters: map<Thread, Broadcaster>, newest: Thread, refreshers: map<Thread, Refresher>)

  datatype Action =
    | AddSv1(c: Client)
    | AddSv2(c: Client)
    | Remove(c: Client)
    | Subscribe(c: Client)
    | Authorize(c: Client)
    | OpenChannel(c: Client)
    | CloseChannel(c: Client, ch: nat)
    | CloseGroup(c: Client)
    | UpdateChannel(c: Client, ch: nat)
    | Build(b: Thread, job: Job, clean: bool, requireNewPrevhash: bool)
    | TryPublish(b: Thread)
    | Snapshot(b: Thread)
    | SendSync(b: Thread, c: Client)
    | Enqueue(b: Thread, c: Client)
    | Finish(b: Thread)
    | Take
    | Lookup
    | LookupCurrent
    | Plan
    | Commit(ch: nat)
    | DonePublishing
    | RefreshRead(r: Thread, c: Client)
    | RefreshPlan(r: Thread, ch: nat)
    | RefreshCommit(r: Thread)

  const INITIAL := State(EMPTY, [], 0, {}, map[], map[], [], Waiting, map[0 := Idle], 0, map[])

  function Max(a: nat, b: nat): nat
  {
    if a >= b then a else b
  }

  // ---------- session regions ----------

  function BuildNotify(s: Sv1Session, job: Job): Sv1Session
  {
    if s.subscribed && s.authorized
    then s.(last := Max(s.last, job.sequence), sent := s.sent + [job.sequence])
    else s
  }

  /** `send_notify`: dropped when a publication at least as new was delivered. */
  function SendNotify(s: Sv1Session, job: Job): Sv1Session
  {
    if job.sequence != 0 && job.sequence <= s.last then s else BuildNotify(s, job)
  }

  /** `send_difficulty_then_work`: the current job, with no such test. */
  function SendWork(s: Sv1Session, current: Option<Job>): Sv1Session
  {
    if current.Some? then BuildNotify(s, current.value) else s
  }

  function CommitOrdered(ch: Channel, job: Job): Channel
  {
    Channel(Max(ch.last, job.sequence), ch.ordered + [job.sequence], ch.issued + [job.sequence])
  }

  function Opened(job: Job): Channel
  {
    Channel(job.sequence, [job.sequence], [job.sequence])
  }

  function Merged(waiting: Pending, p: Pending): Pending
  {
    Pending(p.client, if p.job.sequence >= waiting.job.sequence then p.job else waiting.job, waiting.clean || p.clean)
  }

  /** `enqueue_publication`: one pending entry per session, the newest job and any clean flag kept. */
  function Coalesce(queue: seq<Pending>, p: Pending): seq<Pending>
  {
    if queue == [] then [p]
    else if queue[0].client == p.client then [Merged(queue[0], p)] + queue[1..]
    else [queue[0]] + Coalesce(queue[1..], p)
  }

  function WithoutClient(queue: seq<Pending>, c: Client): seq<Pending>
  {
    if queue == [] then []
    else if queue[0].client == c then WithoutClient(queue[1..], c)
    else [queue[0]] + WithoutClient(queue[1..], c)
  }

  function FindJob(recent: seq<Job>, id: nat): Option<Job>
  {
    if recent == [] then None
    else if recent[|recent| - 1].id == id then Some(recent[|recent| - 1])
    else FindJob(recent[..|recent| - 1], id)
  }

  // ---------- actions; an action that is not enabled changes nothing ----------

  function DoAddSv1(s: State, c: Client): State
  {
    if c in s.sv1 || c in s.sv2 then s
    else s.(connected := s.connected + {c}, sv1 := s.sv1[c := Sv1Session(false, false, 0, [])])
  }

  function DoAddSv2(s: State, c: Client): State
  {
    if c in s.sv1 || c in s.sv2 then s
    else s.(connected := s.connected + {c}, sv2 := s.sv2[c := Sv2Session(1, map[])])
  }

  function DoRemove(s: State, c: Client): State
  {
    s.(connected := s.connected - {c}, queue := WithoutClient(s.queue, c))
  }

  function DoSubscribe(s: State, c: Client): State
  {
    if c !in s.sv1 then s
    else
      var subscribed := s.sv1[c].(subscribed := true);
      s.(sv1 := s.sv1[c := if subscribed.authorized then SendWork(subscribed, s.cache.current) else subscribed])
  }

  function DoAuthorize(s: State, c: Client): State
  {
    if c !in s.sv1 then s
    else s.(sv1 := s.sv1[c := SendWork(s.sv1[c].(authorized := true), s.cache.current)])
  }

  predicate HasChannel(sv2: map<Client, Sv2Session>, c: Client, ch: nat)
  {
    c in sv2 && ch in sv2[c].channels
  }

  function WithChannel(sv2: map<Client, Sv2Session>, c: Client, ch: nat, channel: Channel): map<Client, Sv2Session>
    requires c in sv2
  {
    sv2[c := sv2[c].(channels := sv2[c].channels[ch := channel])]
  }

  function DoOpenChannel(s: State, c: Client): State
  {
    if c !in s.sv2 || s.cache.current.None? then s
    else
      var Sv2Session(next, channels) := s.sv2[c];
      s.(sv2 := s.sv2[c := Sv2Session(next + 1, channels[next := Opened(s.cache.current.value)])])
  }

  function DoCloseChannel(s: State, c: Client, ch: nat): State
  {
    if c !in s.sv2 then s
    else s.(sv2 := s.sv2[c := s.sv2[c].(channels := s.sv2[c].channels - {ch})])
  }

  function DoCloseGroup(s: State, c: Client): State
  {
    if c !in s.sv2 then s else s.(sv2 := s.sv2[c := s.sv2[c].(channels := map[])])
  }

  function DoUpdateChannel(s: State, c: Client, ch: nat): State
  {
    if !HasChannel(s.sv2, c, ch) || s.cache.current.None? then s
    else
      var channel := s.sv2[c].channels[ch];
      s.(sv2 := WithChannel(s.sv2, c, ch, channel.(issued := channel.issued + [s.cache.current.value.sequence])))
  }

  function DoBuild(s: State, b: Thread, job: Job, clean: bool, requireNewPrevhash: bool): State
  {
    if b in s.broadcasters && s.broadcasters[b] != Idle then s
    else s.(nextId := s.nextId + 1,
            broadcasters := s.broadcasters[b := Built(job.(id := s.nextId, sequence := 0), clean, requireNewPrevhash)])
  }

  function DoTryPublish(s: State, b: Thread): State
  {
    if b !in s.broadcasters || !s.broadcasters[b].Built? then s
    else
      var Built(job, clean, requireNewPrevhash) := s.broadcasters[b];
      if Decide(s.cache, job, requireNewPrevhash) != Published then s.(broadcasters := s.broadcasters[b := Idle])
      else s.(cache := Publish(s.cache, job), history := s.history + [Stamped(s.cache, job)],
              broadcasters := s.broadcasters[b := Announcing(Stamped(s.cache, job), clean)], newest := b)
  }

  function DoSnapshot(s: State, b: Thread): State
  {
    if b !in s.broadcasters || !s.broadcasters[b].Announcing? then s
    else
      var Announcing(job, clean) := s.broadcasters[b];
      s.(broadcasters := s.broadcasters[b := Sending(job, clean, s.connected * s.sv1.Keys, s.connected * s.sv2.Keys)])
  }

  function DoSendSync(s: State, b: Thread, c: Client): State
  {
    if b !in s.broadcasters || !s.broadcasters[b].Sending? || c !in s.broadcasters[b].sync || c !in s.sv1 then s
    else
      var pc := s.broadcasters[b];
      s.(sv1 := s.sv1[c := SendNotify(s.sv1[c], pc.job)],
         broadcasters := s.broadcasters[b := pc.(sync := pc.sync - {c})])
  }

  function DoEnqueue(s: State, b: Thread, c: Client): State
  {
    if b !in s.broadcasters || !s.broadcasters[b].Sending? || s.broadcasters[b].sync != {}
        || c !in s.broadcasters[b].async then s
    else
      var pc := s.broadcasters[b];
      s.(queue := if c in s.connected then Coalesce(s.queue, Pending(c, pc.job, pc.clean)) else s.queue,
         broadcasters := s.broadcasters[b := pc.(async := pc.async - {c})])
  }

  function DoFinish(s: State, b: Thread): State
  {
    if b in s.broadcasters && s.broadcasters[b].Sending? && s.broadcasters[b].sync == {}
        && s.broadcasters[b].async == {}
    then s.(broadcasters := s.broadcasters[b := Idle])
    else s
  }

  function DoTake(s: State): State
  {
    if s.publisher != Waiting || s.queue == [] then s
    else s.(publisher := LookingUp(s.queue[0]), queue := s.queue[1..])
  }

  function DoLookup(s: State): State
  {
    if !s.publisher.LookingUp? then s
    else
      var pending := s.publisher.pending;
      var found := FindJob(s.cache.recent, pending.job.id);
      s.(publisher := if found.Some? then Planning(pending.client, found.value) else Missed(pending))
  }

  function DoLookupCurrent(s: State): State
  {
    if !s.publisher.Missed? then s
    else
      var pending := s.publisher.pending;
      s.(publisher := if s.cache.current.Some? && s.cache.current.value.id == pending.job.id
                      then Planning(pending.client, s.cache.current.value) else Waiting)
  }

  function DoPlan(s: State): State
  {
    if !s.publisher.Planning? || s.publisher.client !in s.sv2 then s
    else
      var Planning(c, job) := s.publisher;
      var channels := s.sv2[c].channels;
      s.(publisher := Committing(c, job, set ch | ch in channels
                                 && (job.sequence == 0 || channels[ch].last < job.sequence)))
  }

  function DoCommit(s: State, ch: nat): State
  {
    if !s.publisher.Committing? || ch !in s.publisher.plans then s
    else
      var Committing(c, job, plans) := s.publisher;
      var next := s.(publisher := Committing(c, job, plans - {ch}));
      if !HasChannel(s.sv2, c, ch) || (job.sequence != 0 && job.sequence <= s.sv2[c].channels[ch].last) then next
      else next.(sv2 := WithChannel(s.sv2, c, ch, CommitOrdered(s.sv2[c].channels[ch], job)))
  }

  function DoDone(s: State): State
  {
    if s.publisher.Committing? && s.publisher.plans == {} then s.(publisher := Waiting) else s
  }

  function DoRefreshRead(s: State, r: Thread, c: Client): State
  {
    if (r in s.refreshers && s.refreshers[r] != Resting) || s.cache.current.None? || c !in s.sv2 then s
    else s.(refreshers := s.refreshers[r := HasJob(c, s.cache.current.value)])
  }

  function DoRefreshPlan(s: State, r: Thread, ch: nat): State
  {
    if r !in s.refreshers || !s.refreshers[r].HasJob? then s
    else
      var HasJob(c, job) := s.refreshers[r];
      s.(refreshers := s.refreshers[r := if HasChannel(s.sv2, c, ch) then Planned(c, job, ch) else Resting])
  }

  function DoRefreshCommit(s: State, r: Thread): State
  {
    if r !in s.refreshers || !s.refreshers[r].Planned? then s
    else
      var Planned(c, job, ch) := s.refreshers[r];
      var next := s.(refreshers := s.refreshers[r := Resting]);
      if !HasChannel(s.sv2, c, ch) || (job.sequence != 0 && job.sequence < s.sv2[c].channels[ch].last) then next
      else next.(sv2 := WithChannel(s.sv2, c, ch, CommitOrdered(s.sv2[c].channels[ch], job)))
  }

  function Apply(s: State, a: Action): State
  {
    match a
    case AddSv1(c) => DoAddSv1(s, c)
    case AddSv2(c) => DoAddSv2(s, c)
    case Remove(c) => DoRemove(s, c)
    case Subscribe(c) => DoSubscribe(s, c)
    case Authorize(c) => DoAuthorize(s, c)
    case OpenChannel(c) => DoOpenChannel(s, c)
    case CloseChannel(c, ch) => DoCloseChannel(s, c, ch)
    case CloseGroup(c) => DoCloseGroup(s, c)
    case UpdateChannel(c, ch) => DoUpdateChannel(s, c, ch)
    case Build(b, job, clean, requireNewPrevhash) => DoBuild(s, b, job, clean, requireNewPrevhash)
    case TryPublish(b) => DoTryPublish(s, b)
    case Snapshot(b) => DoSnapshot(s, b)
    case SendSync(b, c) => DoSendSync(s, b, c)
    case Enqueue(b, c) => DoEnqueue(s, b, c)
    case Finish(b) => DoFinish(s, b)
    case Take => DoTake(s)
    case Lookup => DoLookup(s)
    case LookupCurrent => DoLookupCurrent(s)
    case Plan => DoPlan(s)
    case Commit(ch) => DoCommit(s, ch)
    case DonePublishing => DoDone(s)
    case RefreshRead(r, c) => DoRefreshRead(s, r, c)
    case RefreshPlan(r, ch) => DoRefreshPlan(s, r, ch)
    case RefreshCommit(r) => DoRefreshCommit(s, r)
  }

  /** The state after a whole run. */
  function Run(actions: seq<Action>): State
  {
    if actions == [] then INITIAL else Apply(Run(actions[..|actions| - 1]), actions[|actions| - 1])
  }

  // ---------- invariant ----------

  ghost predicate Sorted(q: seq<nat>)
  {
    forall i, j :: 0 <= i < j < |q| ==> q[i] <= q[j]
  }

  /** A published job, as the history records it. */
  ghost predicate Known(history: seq<Job>, job: Job)
  {
    1 <= job.sequence <= |history| && history[job.sequence - 1] == job
  }

  ghost predicate BroadcasterOk(b: Broadcaster, history: seq<Job>, nextId: nat, sv1: set<Client>, sv2: set<Client>)
  {
    match b
    case Idle => true
    case Built(job, _, _) => job.sequence == 0 && job.id < nextId && Fresh(history, job.id)
    case Announcing(job, _) => Known(history, job)
    case Sending(job, _, sync, async) => Known(history, job) && sync <= sv1 && async <= sv2
  }

  ghost predicate BroadcastersOk(broadcasters: map<Thread, Broadcaster>, history: seq<Job>, nextId: nat,
                                 sv1: set<Client>, sv2: set<Client>)
  {
    forall b :: b in broadcasters ==> BroadcasterOk(broadcasters[b], history, nextId, sv1, sv2)
  }

  ghost predicate DistinctBuilt(broadcasters: map<Thread, Broadcaster>)
  {
    forall a, b :: a in broadcasters && b in broadcasters && a != b && broadcasters[a].Built? && broadcasters[b].Built?
      ==> broadcasters[a].job.id != broadcasters[b].job.id
  }

  ghost predicate HistoryIds(history: seq<Job>, nextId: nat)
  {
    forall i :: 0 <= i < |history| ==> history[i].id < nextId
  }

  ghost predicate OnePerClient(queue: seq<Pending>)
  {
    forall i, j :: 0 <= i < j < |queue| ==> queue[i].client != queue[j].client
  }

  ghost predicate QueueOk(queue: seq<Pending>, history: seq<Job>, sv2: set<Client>)
  {
    forall p :: p in queue ==> Known(history, p.job) && p.client in sv2
  }

  ghost predicate PublisherOk(p: Publisher, history: seq<Job>, sv2: set<Client>)
  {
    match p
    case Waiting => true
    case LookingUp(p) => Known(history, p.job) && p.client in sv2
    case Missed(p) => Known(history, p.job) && p.client in sv2 && p.job.sequence < |history|
    case Planning(c, job) => Known(history, job) && c in sv2
    case Committing(c, job, _) => Known(history, job) && c in sv2
  }

  ghost predicate RefresherOk(r: Refresher, history: seq<Job>, sv2: set<Client>)
  {
    match r
    case Resting => true
    case HasJob(c, job) => Known(history, job) && c in sv2
    case Planned(c, job, _) => Known(history, job) && c in sv2
  }

  ghost predicate RefreshersOk(refreshers: map<Thread, Refresher>, history: seq<Job>, sv2: set<Client>)
  {
    forall r :: r in refreshers ==> RefresherOk(refreshers[r], history, sv2)
  }

  ghost predicate Sv1Ok(v: Sv1Session, counter: nat)
  {
    && v.last <= counter
    && Sorted(v.sent)
    && (v.sent == [] ==> v.last == 0)
    && (v.sent != [] ==> v.sent[|v.sent| - 1] == v.last)
  }

  ghost predicate Sv1sOk(sv1: map<Client, Sv1Session>, counter: nat)
  {
    forall c :: c in sv1 ==> Sv1Ok(sv1[c], counter)
  }

  ghost predicate ChannelOk(ch: Channel, counter: nat)
  {
    && ch.last <= counter
    && Sorted(ch.ordered)
    && ch.ordered != [] && ch.ordered[|ch.ordered| - 1] == ch.last
    && ch.issued != [] && ch.last <= ch.issued[|ch.issued| - 1] <= counter
  }

  ghost predicate Sv2Ok(v: Sv2Session, counter: nat)
  {
    forall ch :: ch in v.channels ==> ch < v.nextChannel && ChannelOk(v.channels[ch], counter)
  }

  ghost predicate Sv2sOk(sv2: map<Client, Sv2Session>, counter: nat)
  {
    forall c :: c in sv2 ==> Sv2Ok(sv2[c], counter)
  }

  /** The thread that published last still has to reach this client. */
  ghost predicate OwedBy(b: Broadcaster, c: Client, counter: nat, asynchronous: bool)
  {
    match b
    case Announcing(job, _) => job.sequence == counter
    case Sending(job, _, sync, async) => job.sequence == counter && c in (if asynchronous then async else sync)
    case _ => false
  }

  ghost predicate InQueue(queue: seq<Pending>, c: Client, counter: nat)
  {
    exists p :: p in queue && p.client == c && p.job.sequence == counter
  }

  ghost predicate OwedByPublisher(p: Publisher, c: Client, ch: nat, counter: nat)
  {
    match p
    case LookingUp(pending) => pending.client == c && pending.job.sequence == counter
    case Planning(client, job) => client == c && job.sequence == counter
    case Committing(client, job, plans) => client == c && job.sequence == counter && ch in plans
    case _ => false
  }

  ghost predicate Ready(v: Sv1Session)
  {
    v.subscribed && v.authorized
  }

  /** Every connected ready SV1 client has the newest job, or the thread that published it still owes it. */
  ghost predicate Sv1Covered(connected: set<Client>, sv1: map<Client, Sv1Session>, newest: Broadcaster, counter: nat)
  {
    forall c :: c in connected && c in sv1 && Ready(sv1[c])
        ==> sv1[c].last == counter || OwedBy(newest, c, counter, false)
  }

  /** So does every channel of every connected SV2 client, the queue and the publication thread included. */
  ghost predicate Sv2Covered(connected: set<Client>, sv2: map<Client, Sv2Session>, newest: Broadcaster,
                             queue: seq<Pending>, publisher: Publisher, counter: nat)
  {
    forall c: Client, ch: nat :: c in connected && HasChannel(sv2, c, ch) ==>
      || sv2[c].channels[ch].last == counter
      || OwedBy(newest, c, counter, true)
      || InQueue(queue, c, counter)
      || OwedByPublisher(publisher, c, ch, counter)
  }

  ghost predicate Inv(s: State)
  {
    && Mirrors(s.cache, s.history) && Chronicle(s.history) && HistoryIds(s.history, s.nextId)
    && s.connected <= s.sv1.Keys + s.sv2.Keys && s.sv1.Keys !! s.sv2.Keys
    && BroadcastersOk(s.broadcasters, s.history, s.nextId, s.sv1.Keys, s.sv2.Keys) && DistinctBuilt(s.broadcasters)
    && OnePerClient(s.queue) && QueueOk(s.queue, s.history, s.sv2.Keys)
    && PublisherOk(s.publisher, s.history, s.sv2.Keys)
    && RefreshersOk(s.refreshers, s.history, s.sv2.Keys)
    && Sv1sOk(s.sv1, s.cache.counter)
    && Sv2sOk(s.sv2, s.cache.counter)
    && s.newest in s.broadcasters
    && Sv1Covered(s.connected, s.sv1, s.broadcasters[s.newest], s.cache.counter)
    && Sv2Covered(s.connected, s.sv2, s.broadcasters[s.newest], s.queue, s.publisher, s.cache.counter)
  }

  // ---------- every action keeps the invariant ----------

  lemma CurrentIsNewest(s: State)
    requires Mirrors(s.cache, s.history) && Chronicle(s.history) && s.cache.current.Some?
    ensures Known(s.history, s.cache.current.value) && s.cache.current.value.sequence == s.cache.counter
  {
  }

  lemma AddSv1Keeps(s: State, c: Client)
    requires Inv(s)
    ensures Inv(DoAddSv1(s, c))
  {
    if c !in s.sv1 && c !in s.sv2 {
      NewSv1(s.connected, s.sv1, c, s.broadcasters[s.newest], s.cache.counter);
      NotSv2(s.connected, s.sv2, c, s.broadcasters[s.newest], s.queue, s.publisher, s.cache.counter);
      MoreSv1(s.broadcasters, s.history, s.nextId, s.sv1.Keys, DoAddSv1(s, c).sv1.Keys, s.sv2.Keys);
    }
  }

  lemma NewSv1(connected: set<Client>, sv1: map<Client, Sv1Session>, c: Client, newest: Broadcaster, counter: nat)
    requires c !in sv1 && Sv1sOk(sv1, counter) && Sv1Covered(connected, sv1, newest, counter)
    ensures var more := sv1[c := Sv1Session(false, false, 0, [])];
            Sv1sOk(more, counter) && Sv1Covered(connected + {c}, more, newest, counter)
  {
  }

  lemma NotSv2(connected: set<Client>, sv2: map<Client, Sv2Session>, c: Client, newest: Broadcaster,
               queue: seq<Pending>, publisher: Publisher, counter: nat)
    requires c !in sv2 && Sv2Covered(connected, sv2, newest, queue, publisher, counter)
    ensures Sv2Covered(connected + {c}, sv2, newest, queue, publisher, counter)
  {
  }

  lemma MoreSv1(broadcasters: map<Thread, Broadcaster>, history: seq<Job>, nextId: nat, sv1: set<Client>,
                more: set<Client>, sv2: set<Client>)
    requires sv1 <= more && BroadcastersOk(broadcasters, history, nextId, sv1, sv2)
    ensures BroadcastersOk(broadcasters, history, nextId, more, sv2)
  {
  }

  lemma AddSv2Keeps(s: State, c: Client)
    requires Inv(s)
    ensures Inv(DoAddSv2(s, c))
  {
  }

  lemma {:induction false} WithoutClientKeeps(queue: seq<Pending>, c: Client)
    ensures forall p :: p in WithoutClient(queue, c) ==> p in queue
    ensures forall p :: p in queue && p.client != c ==> p in WithoutClient(queue, c)
    ensures OnePerClient(queue) ==> OnePerClient(WithoutClient(queue, c))
  {
    if queue != [] {
      WithoutClientKeeps(queue[1..], c);
    }
  }

  lemma RemoveKeeps(s: State, c: Client)
    requires Inv(s)
    ensures Inv(DoRemove(s, c))
  {
    WithoutClientKeeps(s.queue, c);
  }

  lemma SendWorkKeeps(v: Sv1Session, current: Option<Job>, counter: nat)
    requires Sv1Ok(v, counter) && (current.Some? ==> current.value.sequence == counter)
             && (current.None? ==> counter == 0)
    ensures Sv1Ok(SendWork(v, current), counter)
    ensures Ready(v) ==> SendWork(v, current).last == counter
    ensures Ready(SendWork(v, current)) == Ready(v)
  {
  }

  /** Replacing one SV1 session by one that owes no more. */
  lemma Sv1Replaced(s: State, c: Client, v: Sv1Session)
    requires Inv(s) && c in s.sv1 && Sv1Ok(v, s.cache.counter)
    requires Ready(v) ==> v.last == s.cache.counter || (Ready(s.sv1[c]) && v.last >= s.sv1[c].last)
    ensures Inv(s.(sv1 := s.sv1[c := v]))
  {
    assert s.sv1[c := v].Keys == s.sv1.Keys;
  }

  lemma SubscribeKeeps(s: State, c: Client)
    requires Inv(s)
    ensures Inv(DoSubscribe(s, c))
  {
    if c in s.sv1 {
      var v := s.sv1[c].(subscribed := true);
      CacheShape(s.cache, s.history);
      SendWorkKeeps(v, s.cache.current, s.cache.counter);
      Sv1Replaced(s, c, if v.authorized then SendWork(v, s.cache.current) else v);
    }
  }

  lemma AuthorizeKeeps(s: State, c: Client)
    requires Inv(s)
    ensures Inv(DoAuthorize(s, c))
  {
    if c in s.sv1 {
      var v := s.sv1[c].(authorized := true);
      CacheShape(s.cache, s.history);
      SendWorkKeeps(v, s.cache.current, s.cache.counter);
      Sv1Replaced(s, c, SendWork(v, s.cache.current));
    }
  }

  lemma OpenKeeps(s: State, c: Client)
    requires Inv(s)
    ensures Inv(DoOpenChannel(s, c))
  {
  }

  lemma CloseKeeps(s: State, c: Client, ch: nat)
    requires Inv(s)
    ensures Inv(DoCloseChannel(s, c, ch))
  {
  }

  lemma CloseGroupKeeps(s: State, c: Client)
    requires Inv(s)
    ensures Inv(DoCloseGroup(s, c))
  {
  }

  /** Replacing one channel by one that owes no more. */
  lemma ChannelReplaced(s: State, c: Client, ch: nat, channel: Channel)
    requires Inv(s) && HasChannel(s.sv2, c, ch)
    requires ChannelOk(channel, s.cache.counter) && channel.last >= s.sv2[c].channels[ch].last
    ensures Inv(s.(sv2 := WithChannel(s.sv2, c, ch, channel)))
  {
    var sv2' := WithChannel(s.sv2, c, ch, channel);
    assert sv2'.Keys == s.sv2.Keys;
    assert Sv2Ok(s.sv2[c], s.cache.counter) && Sv2Ok(sv2'[c], s.cache.counter);
    assert forall d: Client, k: nat :: HasChannel(sv2', d, k) ==>
        HasChannel(s.sv2, d, k) && sv2'[d].channels[k].last >= s.sv2[d].channels[k].last;
  }

  lemma CommitOrderedKeeps(channel: Channel, job: Job, counter: nat)
    requires ChannelOk(channel, counter) && channel.last <= job.sequence <= counter
    ensures ChannelOk(CommitOrdered(channel, job), counter)
    ensures CommitOrdered(channel, job).last == job.sequence
  {
  }

  lemma UpdateKeeps(s: State, c: Client, ch: nat)
    requires Inv(s)
    ensures Inv(DoUpdateChannel(s, c, ch))
  {
    if HasChannel(s.sv2, c, ch) && s.cache.current.Some? {
      CurrentIsNewest(s);
      var channel := s.sv2[c].channels[ch];
      assert Sv2Ok(s.sv2[c], s.cache.counter);
      ChannelReplaced(s, c, ch, channel.(issued := channel.issued + [s.cache.current.value.sequence]));
    }
  }

  lemma BuildBroadcasters(broadcasters: map<Thread, Broadcaster>, b: Thread, built: Broadcaster,
                          history: seq<Job>, nextId: nat, sv1: set<Client>, sv2: set<Client>)
    requires BroadcastersOk(broadcasters, history, nextId, sv1, sv2) && DistinctBuilt(broadcasters)
    requires HistoryIds(history, nextId)
    requires built.Built? && built.job.id == nextId && built.job.sequence == 0
    ensures BroadcastersOk(broadcasters[b := built], history, nextId + 1, sv1, sv2)
    ensures DistinctBuilt(broadcasters[b := built])
  {
    forall t | t in broadcasters
      ensures BroadcasterOk(broadcasters[t], history, nextId + 1, sv1, sv2)
      ensures broadcasters[t].Built? ==> broadcasters[t].job.id < nextId
    {
      assert BroadcasterOk(broadcasters[t], history, nextId, sv1, sv2);
    }
  }

  lemma BuildKeeps(s: State, b: Thread, job: Job, clean: bool, requireNewPrevhash: bool)
    requires Inv(s)
    ensures Inv(DoBuild(s, b, job, clean, requireNewPrevhash))
  {
    var built := Built(job.(id := s.nextId, sequence := 0), clean, requireNewPrevhash);
    BuildBroadcasters(s.broadcasters, b, built, s.history, s.nextId, s.sv1.Keys, s.sv2.Keys);
  }

  /** What a longer history leaves true of the threads. */
  lemma HistoryGrows(s: State, b: Thread, job: Job)
    requires Inv(s) && b in s.broadcasters && s.broadcasters[b].Built? && job.id == s.broadcasters[b].job.id
    ensures HistoryIds(s.history + [job], s.nextId)
    ensures forall t :: t in s.broadcasters && t != b ==>
              BroadcasterOk(s.broadcasters[t], s.history + [job], s.nextId, s.sv1.Keys, s.sv2.Keys)
    ensures QueueOk(s.queue, s.history + [job], s.sv2.Keys)
    ensures PublisherOk(s.publisher, s.history + [job], s.sv2.Keys)
    ensures RefreshersOk(s.refreshers, s.history + [job], s.sv2.Keys)
  {
    var longer := s.history + [job];
    assert forall known :: Known(s.history, known) ==> Known(longer, known);
    forall t | t in s.broadcasters && t != b
      ensures BroadcasterOk(s.broadcasters[t], longer, s.nextId, s.sv1.Keys, s.sv2.Keys)
    {
      assert BroadcasterOk(s.broadcasters[t], s.history, s.nextId, s.sv1.Keys, s.sv2.Keys);
    }
    assert BroadcasterOk(s.broadcasters[b], s.history, s.nextId, s.sv1.Keys, s.sv2.Keys);
  }

  lemma TryPublishKeeps(s: State, b: Thread)
    requires Inv(s)
    ensures Inv(DoTryPublish(s, b))
  {
    if b in s.broadcasters && s.broadcasters[b].Built? {
      var Built(job, clean, requireNewPrevhash) := s.broadcasters[b];
      assert BroadcasterOk(s.broadcasters[b], s.history, s.nextId, s.sv1.Keys, s.sv2.Keys);
      if Decide(s.cache, job, requireNewPrevhash) == Published {
        PublishMirrors(s.cache, s.history, job, requireNewPrevhash);
        HistoryGrows(s, b, Stamped(s.cache, job));
        PublishedKeeps(s, b, Stamped(s.cache, job), clean, DoTryPublish(s, b));
      }
    }
  }

  lemma PublishedKeeps(s: State, b: Thread, job: Job, clean: bool, next: State)
    requires Inv(s) && b in s.broadcasters
    requires next == s.(cache := next.cache, history := s.history + [job],
                        broadcasters := s.broadcasters[b := Announcing(job, clean)], newest := b)
    requires Mirrors(next.cache, next.history) && Chronicle(next.history)
    requires HistoryIds(next.history, s.nextId)
    requires forall t :: t in s.broadcasters && t != b ==>
               BroadcasterOk(s.broadcasters[t], next.history, s.nextId, s.sv1.Keys, s.sv2.Keys)
    requires QueueOk(s.queue, next.history, s.sv2.Keys)
    requires PublisherOk(s.publisher, next.history, s.sv2.Keys)
    requires RefreshersOk(s.refreshers, next.history, s.sv2.Keys)
    ensures Inv(next)
  {
    assert next.history[|s.history|] == job;
    assert job.sequence == next.cache.counter;
    assert Sv1sOk(next.sv1, next.cache.counter);
    assert Sv2sOk(next.sv2, next.cache.counter);
  }

  lemma SnapshotKeeps(s: State, b: Thread)
    requires Inv(s)
    ensures Inv(DoSnapshot(s, b))
  {
  }

  lemma SendNotifyKeeps(v: Sv1Session, job: Job, counter: nat)
    requires Sv1Ok(v, counter) && 1 <= job.sequence <= counter
    ensures Sv1Ok(SendNotify(v, job), counter)
    ensures Ready(SendNotify(v, job)) == Ready(v) && SendNotify(v, job).last >= v.last
    ensures Ready(v) ==> SendNotify(v, job).last >= job.sequence
  {
  }

  lemma SendSyncKeeps(s: State, b: Thread, c: Client)
    requires Inv(s)
    ensures Inv(DoSendSync(s, b, c))
  {
    if b in s.broadcasters && s.broadcasters[b].Sending? && c in s.broadcasters[b].sync && c in s.sv1 {
      var pc := s.broadcasters[b];
      assert BroadcasterOk(pc, s.history, s.nextId, s.sv1.Keys, s.sv2.Keys);
      SendNotifyKeeps(s.sv1[c], pc.job, s.cache.counter);
      Sv1Replaced(s, c, SendNotify(s.sv1[c], pc.job));
      SentSyncKeeps(s.(sv1 := s.sv1[c := SendNotify(s.sv1[c], pc.job)]), b, c);
    }
  }

  /** A client that has the job can leave the list of those still to be told. */
  lemma SentSyncKeeps(s: State, b: Thread, c: Client)
    requires Inv(s) && b in s.broadcasters && s.broadcasters[b].Sending? && c in s.sv1
    requires Ready(s.sv1[c]) ==> s.sv1[c].last >= s.broadcasters[b].job.sequence
    ensures Inv(s.(broadcasters := s.broadcasters[b := s.broadcasters[b].(sync := s.broadcasters[b].sync - {c})]))
  {
  }

  /** The first entry of a client is merged where it stands. */
  lemma {:induction false} CoalesceAt(queue: seq<Pending>, q: Pending, i: nat)
    requires i < |queue| && queue[i].client == q.client && forall k :: 0 <= k < i ==> queue[k].client != q.client
    ensures Coalesce(queue, q) == queue[i := Merged(queue[i], q)]
  {
    if i > 0 {
      CoalesceAt(queue[1..], q, i - 1);
    }
  }

  lemma {:induction false} CoalesceNew(queue: seq<Pending>, q: Pending)
    requires forall k :: 0 <= k < |queue| ==> queue[k].client != q.client
    ensures Coalesce(queue, q) == queue + [q]
  {
    if queue != [] {
      CoalesceNew(queue[1..], q);
    }
  }

  /**
   Coalescing keeps one entry per session, touches no other session's entry or place, keeps the newer job and
   never loses a clean flag.
   */
  lemma CoalesceMerges(queue: seq<Pending>, q: Pending) returns (i: nat)
    requires OnePerClient(queue)
    ensures i <= |queue| && i < |Coalesce(queue, q)| && OnePerClient(Coalesce(queue, q))
    ensures forall k :: 0 <= k < |queue| && k != i ==> k < |Coalesce(queue, q)| && Coalesce(queue, q)[k] == queue[k]
    ensures |Coalesce(queue, q)| == if i < |queue| then |queue| else |queue| + 1
    ensures forall k :: 0 <= k < |queue| && queue[k].client == q.client ==> k == i
    ensures var r := Coalesce(queue, q)[i];
            && r.client == q.client
            && r.job.sequence >= q.job.sequence
            && (if i < |queue| then queue[i].client == q.client && r.job in [queue[i].job, q.job]
                                    && r.job.sequence >= queue[i].job.sequence && r.clean == (queue[i].clean || q.clean)
                else r == q)
  {
    if k :| 0 <= k < |queue| && queue[k].client == q.client {
      i := k;
      CoalesceAt(queue, q, i);
    } else {
      i := |queue|;
      CoalesceNew(queue, q);
    }
  }

  lemma CoalesceKeeps(queue: seq<Pending>, q: Pending, history: seq<Job>, sv2: set<Client>)
    requires OnePerClient(queue) && QueueOk(queue, history, sv2) && Known(history, q.job) && q.client in sv2
    ensures OnePerClient(Coalesce(queue, q)) && QueueOk(Coalesce(queue, q), history, sv2)
  {
    var next := Coalesce(queue, q);
    var i := CoalesceMerges(queue, q);
    forall p | p in next
      ensures Known(history, p.job) && p.client in sv2
    {
      var k :| 0 <= k < |next| && next[k] == p;
      if k == i && i < |queue| {
        assert Known(history, queue[i].job);
      } else if k != i {
        assert queue[k] in queue;
      }
    }
  }

  lemma CoalesceOwes(queue: seq<Pending>, q: Pending, history: seq<Job>, sv2: set<Client>)
    requires OnePerClient(queue) && QueueOk(queue, history, sv2) && Known(history, q.job)
    ensures forall c :: InQueue(queue, c, |history|) ==> InQueue(Coalesce(queue, q), c, |history|)
    ensures q.job.sequence == |history| ==> InQueue(Coalesce(queue, q), q.client, |history|)
  {
    var next := Coalesce(queue, q);
    var i := CoalesceMerges(queue, q);
    assert next[i] in next;
    assert next[i].job.sequence <= |history| by {
      if i < |queue| {
        assert queue[i] in queue;
      }
    }
    forall c | InQueue(queue, c, |history|)
      ensures InQueue(next, c, |history|)
    {
      var p :| p in queue && p.client == c && p.job.sequence == |history|;
      var k :| 0 <= k < |queue| && queue[k] == p;
      assert next[k].job.sequence == |history| && next[k] in next;
    }
  }

  lemma EnqueueKeeps(s: State, b: Thread, c: Client)
    requires Inv(s)
    ensures Inv(DoEnqueue(s, b, c))
  {
    if b in s.broadcasters && s.broadcasters[b].Sending? && s.broadcasters[b].sync == {}
        && c in s.broadcasters[b].async {
      var pc := s.broadcasters[b];
      assert BroadcasterOk(pc, s.history, s.nextId, s.sv1.Keys, s.sv2.Keys);
      if c in s.connected {
        CoalesceKeeps(s.queue, Pending(c, pc.job, pc.clean), s.history, s.sv2.Keys);
        CoalesceOwes(s.queue, Pending(c, pc.job, pc.clean), s.history, s.sv2.Keys);
        QueuedKeeps(s.(queue := Coalesce(s.queue, Pending(c, pc.job, pc.clean))), b, c);
      } else {
        QueuedKeeps(s, b, c);
      }
    }
  }

  /** A client whose entry is queued can leave the list of those still to be queued. */
  lemma QueuedKeeps(s: State, b: Thread, c: Client)
    requires Inv(s) && b in s.broadcasters && s.broadcasters[b].Sending?
    requires c in s.connected && s.broadcasters[b].job.sequence == s.cache.counter
             ==> InQueue(s.queue, c, s.cache.counter)
    ensures Inv(s.(broadcasters := s.broadcasters[b := s.broadcasters[b].(async := s.broadcasters[b].async - {c})]))
  {
  }

  lemma FinishKeeps(s: State, b: Thread)
    requires Inv(s)
    ensures Inv(DoFinish(s, b))
  {
  }

  lemma TakeKeeps(s: State)
    requires Inv(s)
    ensures Inv(DoTake(s))
  {
    if s.publisher == Waiting && s.queue != [] {
      assert s.queue == [s.queue[0]] + s.queue[1..];
      forall c | InQueue(s.queue, c, s.cache.counter) && !InQueue(s.queue[1..], c, s.cache.counter)
        ensures s.queue[0].client == c && s.queue[0].job.sequence == s.cache.counter
      {
        var p :| p in s.queue && p.client == c && p.job.sequence == s.cache.counter;
        assert p in s.queue[1..] || p == s.queue[0];
      }
    }
  }

  /** A lookup by id finds the published job itself, and always finds the newest one. */
  lemma {:induction false} FindJobFinds(recent: seq<Job>, id: nat)
    ensures FindJob(recent, id).Some? ==> FindJob(recent, id).value in recent && FindJob(recent, id).value.id == id
    ensures FindJob(recent, id).None? ==> Fresh(recent, id)
  {
    if recent != [] && recent[|recent| - 1].id != id {
      FindJobFinds(recent[..|recent| - 1], id);
    }
  }

  lemma LookupFinds(s: State, job: Job)
    requires Mirrors(s.cache, s.history) && Chronicle(s.history) && Known(s.history, job)
    ensures FindJob(s.cache.recent, job.id).Some? ==> FindJob(s.cache.recent, job.id).value == job
    ensures FindJob(s.cache.recent, job.id).None? ==> job.sequence < |s.history|
  {
    var recent := s.cache.recent;
    var found := FindJob(recent, job.id);
    FindJobFinds(recent, job.id);
    CacheShape(s.cache, s.history);
    if found.Some? {
      var i :| 0 <= i < |recent| && recent[i] == found.value;
      var k := |s.history| - |recent|;
      assert s.history[i + k] == found.value;
      assert s.history[job.sequence - 1].id == s.history[i + k].id;
    }
  }

  lemma LookupKeeps(s: State)
    requires Inv(s)
    ensures Inv(DoLookup(s))
  {
    if s.publisher.LookingUp? {
      LookupFinds(s, s.publisher.pending.job);
    }
  }

  lemma LookupCurrentKeeps(s: State)
    requires Inv(s)
    ensures Inv(DoLookupCurrent(s))
  {
    if s.publisher.Missed? && s.cache.current.Some? {
      CurrentIsNewest(s);
    }
  }

  lemma PlanKeeps(s: State)
    requires Inv(s)
    ensures Inv(DoPlan(s)) && Inv(DoDone(s))
  {
  }

  lemma CommitKeeps(s: State, ch: nat)
    requires Inv(s)
    ensures Inv(DoCommit(s, ch))
  {
    if s.publisher.Committing? && ch in s.publisher.plans {
      var Committing(c, job, plans) := s.publisher;
      if HasChannel(s.sv2, c, ch) && job.sequence > s.sv2[c].channels[ch].last {
        assert Sv2Ok(s.sv2[c], s.cache.counter);
        var channel := CommitOrdered(s.sv2[c].channels[ch], job);
        CommitOrderedKeeps(s.sv2[c].channels[ch], job, s.cache.counter);
        ChannelReplaced(s, c, ch, channel);
        CommittedKeeps(s.(sv2 := WithChannel(s.sv2, c, ch, channel)), ch);
      } else {
        CommittedKeeps(s, ch);
      }
    }
  }

  /** A channel that has the job can leave the plan. */
  lemma CommittedKeeps(s: State, ch: nat)
    requires Inv(s) && s.publisher.Committing?
    requires HasChannel(s.sv2, s.publisher.client, ch) ==>
               s.sv2[s.publisher.client].channels[ch].last >= s.publisher.job.sequence
    ensures Inv(s.(publisher := s.publisher.(plans := s.publisher.plans - {ch})))
  {
    if HasChannel(s.sv2, s.publisher.client, ch) {
      assert Sv2Ok(s.sv2[s.publisher.client], s.cache.counter);
    }
  }

  lemma RefreshKeeps(s: State, r: Thread, c: Client, ch: nat)
    requires Inv(s)
    ensures Inv(DoRefreshRead(s, r, c)) && Inv(DoRefreshPlan(s, r, ch))
  {
    if s.cache.current.Some? {
      CurrentIsNewest(s);
    }
  }

  lemma RefreshCommitKeeps(s: State, r: Thread)
    requires Inv(s)
    ensures Inv(DoRefreshCommit(s, r))
  {
    if r in s.refreshers && s.refreshers[r].Planned? {
      var Planned(c, job, ch) := s.refreshers[r];
      assert RefresherOk(s.refreshers[r], s.history, s.sv2.Keys);
      var rested := s.(refreshers := s.refreshers[r := Resting]);
      assert Inv(rested);
      if HasChannel(s.sv2, c, ch) && job.sequence >= s.sv2[c].channels[ch].last {
        assert Sv2Ok(s.sv2[c], s.cache.counter);
        CommitOrderedKeeps(s.sv2[c].channels[ch], job, s.cache.counter);
        ChannelReplaced(rested, c, ch, CommitOrdered(s.sv2[c].channels[ch], job));
      }
    }
  }

  /** Miners connecting, leaving and asking. */
  predicate ByClient(a: Action)
  {
    || a.AddSv1? || a.AddSv2? || a.Remove? || a.Subscribe? || a.Authorize?
    || a.OpenChannel? || a.CloseChannel? || a.CloseGroup? || a.UpdateChannel?
  }

  lemma ClientActionKeeps(s: State, a: Action)
    requires Inv(s) && ByClient(a)
    ensures Inv(Apply(s, a))
  {
    match a
    case AddSv1(c) => AddSv1Keeps(s, c);
    case AddSv2(c) => AddSv2Keeps(s, c);
    case Remove(c) => RemoveKeeps(s, c);
    case Subscribe(c) => SubscribeKeeps(s, c);
    case Authorize(c) => AuthorizeKeeps(s, c);
    case OpenChannel(c) => OpenKeeps(s, c);
    case CloseChannel(c, ch) => CloseKeeps(s, c, ch);
    case CloseGroup(c) => CloseGroupKeeps(s, c);
    case UpdateChannel(c, ch) => UpdateKeeps(s, c, ch);
  }

  predicate ByPublishing(a: Action)
  {
    a.Build? || a.TryPublish?
  }

  lemma PublishingActionKeeps(s: State, a: Action)
    requires Inv(s) && ByPublishing(a)
    ensures Inv(Apply(s, a))
  {
    match a
    case Build(b, job, clean, requireNewPrevhash) => BuildKeeps(s, b, job, clean, requireNewPrevhash);
    case TryPublish(b) => TryPublishKeeps(s, b);
  }

  predicate ByFanOut(a: Action)
  {
    a.Snapshot? || a.SendSync? || a.Enqueue? || a.Finish?
  }

  lemma FanOutActionKeeps(s: State, a: Action)
    requires Inv(s) && ByFanOut(a)
    ensures Inv(Apply(s, a))
  {
    match a
    case Snapshot(b) => SnapshotKeeps(s, b);
    case SendSync(b, c) => SendSyncKeeps(s, b, c);
    case Enqueue(b, c) => EnqueueKeeps(s, b, c);
    case Finish(b) => FinishKeeps(s, b);
  }

  lemma SessionThreadActionKeeps(s: State, a: Action)
    requires Inv(s) && !ByClient(a) && !ByPublishing(a) && !ByFanOut(a)
    ensures Inv(Apply(s, a))
  {
    match a
    case Take => TakeKeeps(s);
    case Lookup => LookupKeeps(s);
    case LookupCurrent => LookupCurrentKeeps(s);
    case Plan => PlanKeeps(s);
    case Commit(ch) => CommitKeeps(s, ch);
    case DonePublishing => PlanKeeps(s);
    case RefreshRead(r, c) => RefreshKeeps(s, r, c, 0);
    case RefreshPlan(r, ch) => RefreshKeeps(s, r, 0, ch);
    case RefreshCommit(r) => RefreshCommitKeeps(s, r);
  }

  lemma ApplyKeeps(s: State, a: Action)
    requires Inv(s)
    ensures Inv(Apply(s, a))
  {
    if ByClient(a) {
      ClientActionKeeps(s, a);
    } else if ByPublishing(a) {
      PublishingActionKeeps(s, a);
    } else if ByFanOut(a) {
      FanOutActionKeeps(s, a);
    } else {
      SessionThreadActionKeeps(s, a);
    }
  }

  // ---------- every run ----------

  lemma {:induction false} RunKeeps(actions: seq<Action>)
    ensures Inv(Run(actions))
  {
    if actions != [] {
      RunKeeps(actions[..|actions| - 1]);
      ApplyKeeps(Run(actions[..|actions| - 1]), actions[|actions| - 1]);
    }
  }

  /** After any run, the cache is the tail of the publication history, at most 24 jobs, newest last. */
  lemma CacheOfEveryRun(actions: seq<Action>)
    ensures var c := Run(actions).cache;
            && Mirrors(c, Run(actions).history) && Chronicle(Run(actions).history)
            && |c.recent| <= 24
            && (c.counter > 0 ==>
                  c.current.Some? && c.current.value in c.recent && c.current.value.sequence == c.counter)
            && (forall i, j :: 0 <= i < j < |c.recent| ==>
                  && c.recent[i].sequence < c.recent[j].sequence && c.recent[i].height <= c.recent[j].height)
  {
    RunKeeps(actions);
    CacheShape(Run(actions).cache, Run(actions).history);
  }

  /** No SV1 session is ever sent an older publication after a newer one, and no channel commits one. */
  lemma DeliveryIsOrdered(actions: seq<Action>)
    ensures forall c :: c in Run(actions).sv1 ==> Sorted(Run(actions).sv1[c].sent)
    ensures forall c: Client, ch: nat :: HasChannel(Run(actions).sv2, c, ch) ==>
              Sorted(Run(actions).sv2[c].channels[ch].ordered)
  {
    RunKeeps(actions);
    var s := Run(actions);
    forall c | c in s.sv1
      ensures Sorted(s.sv1[c].sent)
    {
      assert Sv1Ok(s.sv1[c], s.cache.counter);
    }
    forall c: Client, ch: nat | HasChannel(s.sv2, c, ch)
      ensures Sorted(s.sv2[c].channels[ch].ordered)
    {
      assert Sv2Ok(s.sv2[c], s.cache.counter);
    }
  }

  /** Nothing is under way: no broadcast, no queued or running publication. Refreshers may be anywhere. */
  predicate Quiet(s: State)
  {
    && s.queue == [] && s.publisher == Waiting
    && (forall b :: b in s.broadcasters ==> s.broadcasters[b].Idle? || s.broadcasters[b].Built?)
  }

  /** When the pool is quiet, every connected ready miner is on the newest job: no publication was lost. */
  lemma QuietMeansDelivered(actions: seq<Action>)
    requires Quiet(Run(actions))
    ensures var s := Run(actions);
            && (forall c :: c in s.connected && c in s.sv1 && Ready(s.sv1[c]) && s.cache.counter > 0 ==>
                  s.sv1[c].sent != [] && s.sv1[c].sent[|s.sv1[c].sent| - 1] == s.cache.counter)
            && (forall c: Client, ch: nat :: c in s.connected && HasChannel(s.sv2, c, ch) ==>
                  var channel := s.sv2[c].channels[ch];
                  && channel.last == s.cache.counter
                  && channel.issued != [] && channel.issued[|channel.issued| - 1] == s.cache.counter)
  {
    RunKeeps(actions);
    var s := Run(actions);
    forall c | c in s.connected && c in s.sv1 && Ready(s.sv1[c]) && s.cache.counter > 0
      ensures s.sv1[c].sent != [] && s.sv1[c].sent[|s.sv1[c].sent| - 1] == s.cache.counter
    {
      assert Sv1Ok(s.sv1[c], s.cache.counter);
    }
    forall c: Client, ch: nat | c in s.connected && HasChannel(s.sv2, c, ch)
      ensures var channel := s.sv2[c].channels[ch];
              && channel.last == s.cache.counter
              && channel.issued != [] && channel.issued[|channel.issued| - 1] == s.cache.counter
    {
      assert Sv2Ok(s.sv2[c], s.cache.counter);
    }
  }
}

/**
 A share on its way through an SV2 session: prepared under the mutex, judged and accounted without it, finished under it
 again. In between, other threads may do to the channels whatever the mutex lets them.
 */
module SharePipeline {
  import opened Options
  import opened Channels

  datatype Share = Share(kind: Kind, channel: nat, jobId: nat, nonce: nat, ntime: nat, version: nat,
                         extranonce: seq<int>)

  /** What validation decides. */
  datatype Verdict = Accept(block: bool) | Reject

  /**
   Validation against an issued job at a target, under the version mask the session had when the share came in, at the
   time the clock shows when it is validated; the rest of the pool's state plays no part.
   */
  type Judge = (Share, Issued, nat, int) -> Verdict

  /** The one accounting call a share leads to. */
  datatype Account = Credited(target: nat, block: bool) | Refused

  datatype Prepared = Prepared(share: Share, ref: Ref, target: nat, mask: nat)

  /**
   A dispatched share, the mask then in force and, if it got that far, the job it was to be judged against as it then
   was.
   */
  datatype Entry = Entry(share: Share, mask: nat, job: Option<Issued>)

  datatype Pc = Idle | Ready(p: Prepared) | Judged(p: Prepared, account: Account) | Delivering(blocks: seq<nat>)

  /** `clocks` holds the time each account was made at. */
  datatype State = State(
    session: Session, pc: Pc, dispatched: seq<Entry>, accounts: seq<Account>, clocks: seq<int>, responses: seq<bool>,
    pending: seq<nat>, delivered: seq<nat>, crashed: bool)

  const INITIAL_STATE := State(INITIAL, Idle, [], [], [], [], [], [], false)

  datatype Event =
    | Elsewhere(a: Action)
    | Dispatch(share: Share, mask: nat, known: bool, timely: bool)
    | Validate(now: int)
    | Finish
    | EndOfBytes
    | Deliver

  /** The first job of a channel with an id. */
  function JobNamed(jobs: seq<(nat, Ref)>, id: nat): (r: Option<Ref>)
    ensures r.Some? ==> exists i :: 0 <= i < |jobs| && jobs[i] == (id, r.value)
  {
    if jobs == [] then None
    else if jobs[0].0 == id then Some(jobs[0].1)
    else
      var r := JobNamed(jobs[1..], id);
      assert r.Some? ==> exists i :: 0 <= i < |jobs| && jobs[i] == (id, r.value) by {
        if r.Some? {
          var i :| 0 <= i < |jobs[1..]| && jobs[1..][i] == (id, r.value);
          assert jobs[i + 1] == (id, r.value);
        }
      }
      r
  }

  /** `prepare_share_locked`: the job to judge against, unless the share is refused at once. */
  function PrepareShare(s: Session, share: Share, mask: nat, known: bool, timely: bool): Option<Prepared>
  {
    if share.channel !in s.channels || s.channels[share.channel].kind != share.kind then None
    else
      var ref := JobNamed(s.channels[share.channel].jobs, share.jobId);
      if ref.None? || ref.value >= |s.store| then None
      else if share.kind == Extended && |share.extranonce| != s.store[ref.value].extranonceSize then None
      else if known || !timely then None
      else Some(Prepared(share, ref.value, s.store[ref.value].target, mask))
  }

  function DoDispatch(st: State, share: Share, mask: nat, known: bool, timely: bool): State
  {
    if st.pc != Idle then st
    else
      var p := PrepareShare(st.session, share, mask, known, timely);
      if p.None? then
        st.(dispatched := st.dispatched + [Entry(share, mask, None)], accounts := st.accounts + [Refused],
            clocks := st.clocks + [0], responses := st.responses + [false])
      else
        var job := if p.value.ref < |st.session.store| then Some(st.session.store[p.value.ref]) else None;
        st.(dispatched := st.dispatched + [Entry(share, mask, job)], pc := Ready(p.value))
  }

  /** The issued job as it is now, at the target captured earlier. */
  function AtCapturedTarget(s: Session, p: Prepared): Issued
    requires p.ref < |s.store|
  {
    s.store[p.ref].(target := p.target)
  }

  function AccountFor(judge: Judge, p: Prepared, job: Issued, now: int): Account
  {
    var v := judge(p.share, job, p.mask, now);
    if v.Accept? then Credited(p.target, v.block) else Refused
  }

  /** `validate_and_account_share`; work of the wrong variant would be fatal here. */
  function DoValidate(judge: Judge, st: State, now: int): State
  {
    if !st.pc.Ready? || st.pc.p.ref >= |st.session.store| then st
    else if st.session.store[st.pc.p.ref].work != st.pc.p.share.kind then st.(crashed := true)
    else
      var account := AccountFor(judge, st.pc.p, AtCapturedTarget(st.session, st.pc.p), now);
      st.(accounts := st.accounts + [account], clocks := st.clocks + [now], pc := Judged(st.pc.p, account))
  }

  /** `finish_share_locked` */
  function DoFinish(st: State): State
  {
    if !st.pc.Judged? then st
    else
      var block := st.pc.account.Credited? && st.pc.account.block;
      st.(responses := st.responses + [st.pc.account.Credited?],
          pending := if block then st.pending + [|st.responses|] else st.pending, pc := Idle)
  }

  /** The end of `handle_bytes`: the found blocks are taken under the mutex and delivered without it. */
  function DoEndOfBytes(st: State): State
  {
    if st.pc != Idle then st else st.(pc := Delivering(st.pending), pending := [])
  }

  function DoDeliver(st: State): State
  {
    if !st.pc.Delivering? then st
    else if st.pc.blocks == [] then st.(pc := Idle)
    else st.(delivered := st.delivered + [st.pc.blocks[0]], pc := Delivering(st.pc.blocks[1..]))
  }

  ghost function Next(judge: Judge, st: State, e: Event): State
  {
    if st.crashed then st
    else
      match e
      case Elsewhere(a) => st.(session := Apply(st.session, a))
      case Dispatch(share, mask, known, timely) => DoDispatch(st, share, mask, known, timely)
      case Validate(now) => DoValidate(judge, st, now)
      case Finish => DoFinish(st)
      case EndOfBytes => DoEndOfBytes(st)
      case Deliver => DoDeliver(st)
  }

  ghost function After(judge: Judge, events: seq<Event>): State
  {
    if events == [] then INITIAL_STATE else Next(judge, After(judge, events[..|events| - 1]), events[|events| - 1])
  }

  // ---------- invariant ----------

  /** The shares up to `n` that solved a block, in order. */
  function BlocksIn(accounts: seq<Account>, n: nat): seq<nat>
    requires n <= |accounts|
  {
    if n == 0 then []
    else
      BlocksIn(accounts, n - 1) + (if accounts[n - 1].Credited? && accounts[n - 1].block then [n - 1] else [])
  }

  lemma {:induction false} BlocksInPrefix(accounts: seq<Account>, more: seq<Account>, n: nat)
    requires n <= |accounts|
    ensures BlocksIn(accounts + more, n) == BlocksIn(accounts, n)
  {
    if n > 0 {
      BlocksInPrefix(accounts, more, n - 1);
    }
  }

  /** The account a share must get: the verdict on the job it named, as that job stood, credited at that target. */
  ghost predicate AccountOk(judge: Judge, e: Entry, a: Account, now: int)
  {
    match e.job
    case None => a == Refused
    case Some(job) => a == AccountFor(judge, Prepared(e.share, 0, job.target, e.mask), job, now)
  }

  ghost predicate AccountsOk(judge: Judge, dispatched: seq<Entry>, accounts: seq<Account>, clocks: seq<int>)
  {
    && |accounts| <= |dispatched| && |clocks| == |accounts|
    && forall i :: 0 <= i < |accounts| ==> AccountOk(judge, dispatched[i], accounts[i], clocks[i])
  }

  ghost predicate ResponsesOk(accounts: seq<Account>, responses: seq<bool>)
  {
    |responses| <= |accounts| && forall i :: 0 <= i < |responses| ==> responses[i] == accounts[i].Credited?
  }

  /** A prepared share: its job is still there, unchanged but for its target, and of the share's kind. */
  ghost predicate PreparedOk(st: State, p: Prepared)
  {
    && st.dispatched != []
    && p.ref < |st.session.store|
    && (var e := st.dispatched[|st.dispatched| - 1];
        && e.share == p.share && e.mask == p.mask && e.job.Some? && e.job.value.target == p.target
        && st.session.store[p.ref] == e.job.value.(target := st.session.store[p.ref].target)
        && e.job.value.work == p.share.kind)
  }

  ghost predicate PcOk(st: State)
  {
    match st.pc
    case Idle => |st.accounts| == |st.dispatched| == |st.responses|
    case Delivering(_) => |st.accounts| == |st.dispatched| == |st.responses|
    case Ready(p) => PreparedOk(st, p) && |st.accounts| + 1 == |st.dispatched| && |st.responses| == |st.accounts|
    case Judged(p, account) =>
      PreparedOk(st, p) && |st.accounts| == |st.dispatched| == |st.responses| + 1
          && account == st.accounts[|st.accounts| - 1]
  }

  ghost function Carried(pc: Pc): seq<nat>
  {
    if pc.Delivering? then pc.blocks else []
  }

  ghost predicate Sound(judge: Judge, st: State)
  {
    && Channels.Inv(st.session) && !st.crashed && PcOk(st)
    && AccountsOk(judge, st.dispatched, st.accounts, st.clocks) && ResponsesOk(st.accounts, st.responses)
    && st.delivered + Carried(st.pc) + st.pending == BlocksIn(st.accounts, |st.responses|)
  }

  // ---------- every step keeps it ----------

  lemma ElsewhereKeeps(judge: Judge, st: State, a: Action)
    requires Sound(judge, st)
    ensures Sound(judge, st.(session := Apply(st.session, a)))
  {
    ApplyKeeps(st.session, a);
    if st.pc.Ready? || st.pc.Judged? {
      StoreOnlyMovesTargets(st.session, a, st.pc.p.ref);
    }
  }

  /** What is prepared comes from a live channel of the share's kind, so its work is of that kind too. */
  lemma PreparedMatches(s: Session, share: Share, mask: nat, known: bool, timely: bool)
    requires Channels.Inv(s) && PrepareShare(s, share, mask, known, timely).Some?
    ensures var p := PrepareShare(s, share, mask, known, timely).value;
            p.ref < |s.store| && p.share == share && p.mask == mask && p.target == s.store[p.ref].target
                && s.store[p.ref].work == share.kind
  {
    var c := s.channels[share.channel];
    var ref := JobNamed(c.jobs, share.jobId).value;
    assert ChannelOk(c, s.store);
    var i :| 0 <= i < |c.jobs| && c.jobs[i] == (share.jobId, ref);
    assert JobOk(c, i, s.store[ref]);
  }

  lemma DispatchKeeps(judge: Judge, st: State, share: Share, mask: nat, known: bool, timely: bool)
    requires Sound(judge, st)
    ensures Sound(judge, DoDispatch(st, share, mask, known, timely))
  {
    if st.pc == Idle {
      var p := PrepareShare(st.session, share, mask, known, timely);
      if p.None? {
        var n := |st.responses|;
        BlocksInPrefix(st.accounts, [Refused], n);
        assert BlocksIn(st.accounts + [Refused], n + 1) == BlocksIn(st.accounts, n) + [];
      } else {
        PreparedMatches(st.session, share, mask, known, timely);
      }
    }
  }

  lemma ValidateKeeps(judge: Judge, st: State, now: int)
    requires Sound(judge, st)
    ensures Sound(judge, DoValidate(judge, st, now))
  {
    if st.pc.Ready? {
      var account := AccountFor(judge, st.pc.p, AtCapturedTarget(st.session, st.pc.p), now);
      BlocksInPrefix(st.accounts, [account], |st.responses|);
      assert AccountOk(judge, st.dispatched[|st.accounts|], account, now);
    }
  }

  lemma FinishKeeps(judge: Judge, st: State)
    requires Sound(judge, st)
    ensures Sound(judge, DoFinish(st))
  {
    if st.pc.Judged? {
      var n := |st.responses|;
      assert st.accounts[n] == st.pc.account;
      assert st.delivered + [] + (st.pending + [n]) == (st.delivered + [] + st.pending) + [n];
    }
  }

  lemma DeliverKeeps(judge: Judge, st: State)
    requires Sound(judge, st)
    ensures Sound(judge, DoEndOfBytes(st)) && Sound(judge, DoDeliver(st))
  {
    assert st.delivered + st.pending + [] == st.delivered + [] + st.pending;
    if st.pc.Delivering? && st.pc.blocks != [] {
      var blocks := st.pc.blocks;
      assert (st.delivered + [blocks[0]]) + blocks[1..] + st.pending == st.delivered + blocks + st.pending;
    }
  }

  lemma {:induction false} RunSound(judge: Judge, events: seq<Event>)
    ensures Sound(judge, After(judge, events))
  {
    if events != [] {
      var st, e := After(judge, events[..|events| - 1]), events[|events| - 1];
      RunSound(judge, events[..|events| - 1]);
      match e
      case Elsewhere(a) => ElsewhereKeeps(judge, st, a);
      case Dispatch(share, mask, known, timely) => DispatchKeeps(judge, st, share, mask, known, timely);
      case Validate(now) => ValidateKeeps(judge, st, now);
      case Finish => FinishKeeps(judge, st);
      case EndOfBytes => DeliverKeeps(judge, st);
      case Deliver => DeliverKeeps(judge, st);
    }
  }

  // ---------- every run ----------

  /**
   Whatever happens elsewhere: nothing crashes; share by share, in order, there is one accounting call and one response
   and they agree; a credit is at the very target the share was judged against, the one its job had when the share
   came in; and every block goes to the pool exactly once.
   */
  lemma EveryShareOnce(judge: Judge, events: seq<Event>)
    ensures var st := After(judge, events);
            && !st.crashed
            && (st.pc == Idle ==> |st.accounts| == |st.responses| == |st.dispatched|)
            && |st.responses| <= |st.accounts| <= |st.dispatched| <= |st.responses| + 1
            && |st.clocks| == |st.accounts|
            && (forall i :: 0 <= i < |st.accounts| ==> AccountOk(judge, st.dispatched[i], st.accounts[i], st.clocks[i]))
            && (forall i :: 0 <= i < |st.responses| ==> st.responses[i] == st.accounts[i].Credited?)
            && st.delivered + Carried(st.pc) + st.pending == BlocksIn(st.accounts, |st.responses|)
  {
    RunSound(judge, events);
  }

  // ---------- the end of `handle_bytes` ----------

  /** While the thread delivers, only other threads do anything else. */
  predicate Delivery(later: seq<Event>)
  {
    forall i :: 0 <= i < |later| ==> later[i].Deliver? || later[i].Elsewhere?
  }

  function Turns(later: seq<Event>): nat
  {
    if later == [] then 0 else Turns(later[..|later| - 1]) + if later[|later| - 1].Deliver? then 1 else 0
  }

  lemma AfterAppend(judge: Judge, events: seq<Event>, e: Event)
    ensures After(judge, events + [e]) == Next(judge, After(judge, events), e)
  {
    assert (events + [e])[..|events|] == events;
  }

  /** After some turns of the delivering loop: as many blocks fewer, and idle one turn after the last. */
  lemma {:induction false} Delivers(judge: Judge, events: seq<Event>, later: seq<Event>)
    requires After(judge, events).pc.Delivering? && After(judge, events).pending == [] && Delivery(later)
    ensures var blocks, st := After(judge, events).pc.blocks, After(judge, events + later);
            && st.accounts == After(judge, events).accounts && st.pending == []
            && (if Turns(later) <= |blocks| then st.pc == Delivering(blocks[Turns(later)..]) else st.pc == Idle)
    decreases |later|
  {
    if later == [] {
      assert events + later == events;
      assert After(judge, events).pc.blocks[0..] == After(judge, events).pc.blocks;
    } else {
      var front, e := later[..|later| - 1], later[|later| - 1];
      Delivers(judge, events, front);
      assert events + later == (events + front) + [e];
      AfterAppend(judge, events + front, e);
      RunSound(judge, events + front);
    }
  }

  /**
   When `handle_bytes` comes to its end between shares, the pipeline is idle again after one turn of the delivering loop
   per block and one more, whatever other threads do meanwhile; by then every block found has been delivered, once and
   in order.
   */
  lemma BlocksAllDelivered(judge: Judge, events: seq<Event>, later: seq<Event>)
    requires After(judge, events).pc == Idle && Delivery(later) && Turns(later) > |After(judge, events).pending|
    ensures var st := After(judge, events + [EndOfBytes] + later);
            && st.pc == Idle && st.pending == [] && st.accounts == After(judge, events).accounts
            && st.delivered == BlocksIn(st.accounts, |st.accounts|)
  {
    RunSound(judge, events);
    AfterAppend(judge, events, EndOfBytes);
    Delivers(judge, events + [EndOfBytes], later);
    RunSound(judge, events + [EndOfBytes] + later);
    var st := After(judge, events + [EndOfBytes] + later);
    assert st.delivered + [] + [] == st.delivered;
  }

  lemma {:induction false} BlocksInDistinct(accounts: seq<Account>, n: nat)
    requires n <= |accounts|
    ensures forall i :: 0 <= i < |BlocksIn(accounts, n)| ==> BlocksIn(accounts, n)[i] < n
    ensures forall i, j :: 0 <= i < j < |BlocksIn(accounts, n)| ==> BlocksIn(accounts, n)[i] < BlocksIn(accounts, n)[j]
    ensures forall k :: 0 <= k < n && accounts[k].Credited? && accounts[k].block ==> k in BlocksIn(accounts, n)
  {
    if n > 0 {
      BlocksInDistinct(accounts, n - 1);
    }
  }
}

/**
 The order in which a channel is issued jobs when a miner's `UpdateChannel` is answered with a job. That path looks at
 no stamp and leaves `last` alone, so a publication that is still to be committed may follow a newer job. Exactly those
 commits break the order.
 */
module UpdateOrder {
  import opened JobCache
  import opened Options
  import opened Publication

  /** The channel takes the job because `last` is old enough, although it has been issued a newer one. */
  predicate Late(channel: Channel, sequence: nat, again: bool)
  {
    && (sequence == 0 || channel.last < sequence || (again && channel.last == sequence))
    && channel.issued != [] && sequence < channel.issued[|channel.issued| - 1]
  }

  /** The step commits such a job to this channel. */
  predicate Overtaken(s: State, a: Action, c: Client, ch: nat)
  {
    && HasChannel(s.sv2, c, ch)
    && match a
       case Commit(x) =>
         && x == ch && s.publisher.Committing? && s.publisher.client == c && ch in s.publisher.plans
         && Late(s.sv2[c].channels[ch], s.publisher.job.sequence, false)
       case RefreshCommit(r) =>
         && r in s.refreshers && s.refreshers[r].Planned? && s.refreshers[r].client == c
             && s.refreshers[r].channel == ch
         && Late(s.sv2[c].channels[ch], s.refreshers[r].job.sequence, true)
       case _ => false
  }

  lemma SortedAppend(q: seq<nat>, x: nat)
    requires Sorted(q)
    ensures Sorted(q + [x]) <==> q == [] || q[|q| - 1] <= x
  {
    var more := q + [x];
    if Sorted(more) && q != [] {
      assert more[|q| - 1] <= more[|q|];
    }
  }

  predicate TouchesChannels(a: Action)
  {
    || a.AddSv2? || a.OpenChannel? || a.CloseChannel? || a.CloseGroup? || a.UpdateChannel?
    || a.Commit? || a.RefreshCommit?
  }

  lemma OthersLeaveChannels(s: State, a: Action)
    requires !TouchesChannels(a)
    ensures Apply(s, a).sv2 == s.sv2
  {
  }

  /** What a step adds to the jobs a channel was issued. */
  ghost function Added(s: State, a: Action, c: Client, ch: nat): seq<nat>
    requires HasChannel(s.sv2, c, ch)
  {
    var last := s.sv2[c].channels[ch].last;
    match a
    case UpdateChannel(x, y) => if x == c && y == ch && s.cache.current.Some? then [s.cache.current.value.sequence]
        else []
    case Commit(x) =>
      if && x == ch && s.publisher.Committing? && s.publisher.client == c && ch in s.publisher.plans
         && !(s.publisher.job.sequence != 0 && s.publisher.job.sequence <= last)
      then [s.publisher.job.sequence] else []
    case RefreshCommit(r) =>
      if && r in s.refreshers && s.refreshers[r].Planned? && s.refreshers[r].client == c
          && s.refreshers[r].channel == ch
         && !(s.refreshers[r].job.sequence != 0 && s.refreshers[r].job.sequence < last)
      then [s.refreshers[r].job.sequence] else []
    case _ => []
  }

  lemma CommitAdds(s: State, x: nat, c: Client, ch: nat)
    requires HasChannel(s.sv2, c, ch)
    ensures HasChannel(DoCommit(s, x).sv2, c, ch)
    ensures DoCommit(s, x).sv2[c].channels[ch].issued == s.sv2[c].channels[ch].issued + Added(s, Commit(x), c, ch)
  {
  }

  lemma RefreshAdds(s: State, r: Thread, c: Client, ch: nat)
    requires HasChannel(s.sv2, c, ch)
    ensures HasChannel(DoRefreshCommit(s, r).sv2, c, ch)
    ensures DoRefreshCommit(s, r).sv2[c].channels[ch].issued == s.sv2[c].channels[ch].issued
            + Added(s, RefreshCommit(r), c, ch)
  {
  }

  lemma UpdateAdds(s: State, x: Client, y: nat, c: Client, ch: nat)
    requires HasChannel(s.sv2, c, ch)
    ensures HasChannel(DoUpdateChannel(s, x, y).sv2, c, ch)
    ensures DoUpdateChannel(s, x, y).sv2[c].channels[ch].issued
         == s.sv2[c].channels[ch].issued + Added(s, UpdateChannel(x, y), c, ch)
  {
  }

  /** Opening a channel leaves those there are alone, since ids are given out once. */
  lemma OpenLeaves(s: State, x: Client, c: Client, ch: nat)
    requires HasChannel(s.sv2, c, ch) && Sv2Ok(s.sv2[c], s.cache.counter)
    ensures HasChannel(DoOpenChannel(s, x).sv2, c, ch)
    ensures DoOpenChannel(s, x).sv2[c].channels[ch] == s.sv2[c].channels[ch]
  {
  }

  lemma RestLeaves(s: State, a: Action, c: Client, ch: nat)
    requires a.AddSv2? || a.CloseChannel? || a.CloseGroup?
    requires HasChannel(s.sv2, c, ch) && HasChannel(Apply(s, a).sv2, c, ch)
    ensures Apply(s, a).sv2[c].channels[ch] == s.sv2[c].channels[ch]
  {
  }

  lemma OthersAddNothing(s: State, a: Action, c: Client, ch: nat)
    requires Sv2sOk(s.sv2, s.cache.counter) && HasChannel(s.sv2, c, ch) && HasChannel(Apply(s, a).sv2, c, ch)
    requires !a.Commit? && !a.RefreshCommit? && !a.UpdateChannel?
    ensures Apply(s, a).sv2[c].channels[ch] == s.sv2[c].channels[ch]
  {
    if !TouchesChannels(a) {
      OthersLeaveChannels(s, a);
    } else if a.OpenChannel? {
      OpenLeaves(s, a.c, c, ch);
    } else {
      RestLeaves(s, a, c, ch);
    }
  }

  lemma StepAdds(s: State, a: Action, c: Client, ch: nat)
    requires Sv2sOk(s.sv2, s.cache.counter) && HasChannel(s.sv2, c, ch) && HasChannel(Apply(s, a).sv2, c, ch)
    ensures Apply(s, a).sv2[c].channels[ch].issued == s.sv2[c].channels[ch].issued + Added(s, a, c, ch)
  {
    if a.Commit? {
      CommitAdds(s, a.ch, c, ch);
    } else if a.RefreshCommit? {
      RefreshAdds(s, a.r, c, ch);
    } else if a.UpdateChannel? {
      UpdateAdds(s, a.c, a.ch, c, ch);
    } else {
      OthersAddNothing(s, a, c, ch);
      assert s.sv2[c].channels[ch].issued + [] == s.sv2[c].channels[ch].issued;
    }
  }

  /** A step keeps what a channel was issued in order exactly when it does not commit a late job to it. */
  lemma StepInOrderExactly(s: State, a: Action, c: Client, ch: nat)
    requires Inv(s) && HasChannel(s.sv2, c, ch) && HasChannel(Apply(s, a).sv2, c, ch)
    requires Sorted(s.sv2[c].channels[ch].issued)
    ensures Sorted(Apply(s, a).sv2[c].channels[ch].issued) <==> !Overtaken(s, a, c, ch)
  {
    StepAdds(s, a, c, ch);
    var channel := s.sv2[c].channels[ch];
    assert Sv2Ok(s.sv2[c], s.cache.counter);
    assert ChannelOk(channel, s.cache.counter);
    if Added(s, a, c, ch) != [] {
      SortedAppend(channel.issued, Added(s, a, c, ch)[0]);
      if a.UpdateChannel? {
        CurrentIsNewest(s);
      }
    }
  }

  /** No step of the run committed a late job to this channel. */
  ghost predicate NeverOvertaken(actions: seq<Action>, c: Client, ch: nat)
  {
    || actions == []
    || (var front := actions[..|actions| - 1];
        NeverOvertaken(front, c, ch) && !Overtaken(Run(front), actions[|actions| - 1], c, ch))
  }

  /** The channel id was not yet given out. */
  predicate Unopened(s: State, c: Client, ch: nat)
  {
    c !in s.sv2 || ch >= s.sv2[c].nextChannel
  }

  lemma UnopenedBefore(s: State, a: Action, c: Client, ch: nat)
    requires Inv(s) && Unopened(Apply(s, a), c, ch)
    ensures Unopened(s, c, ch) && !HasChannel(s.sv2, c, ch)
  {
    if !TouchesChannels(a) {
      OthersLeaveChannels(s, a);
    }
    if c in s.sv2 {
      assert Sv2Ok(s.sv2[c], s.cache.counter);
    }
  }

  lemma {:induction false} UnopenedNeverOvertaken(actions: seq<Action>, c: Client, ch: nat)
    requires Unopened(Run(actions), c, ch)
    ensures NeverOvertaken(actions, c, ch)
  {
    if actions != [] {
      var front := actions[..|actions| - 1];
      RunKeeps(front);
      UnopenedBefore(Run(front), actions[|actions| - 1], c, ch);
      UnopenedNeverOvertaken(front, c, ch);
    }
  }

  lemma JustOpened(s: State, a: Action, c: Client, ch: nat)
    requires !HasChannel(s.sv2, c, ch) && HasChannel(Apply(s, a).sv2, c, ch)
    ensures Unopened(s, c, ch) && Sorted(Apply(s, a).sv2[c].channels[ch].issued)
  {
    if !TouchesChannels(a) {
      OthersLeaveChannels(s, a);
    } else if !a.OpenChannel? {
      OnlyOpenAdds(s, a, c, ch);
    }
  }

  lemma OnlyOpenAdds(s: State, a: Action, c: Client, ch: nat)
    requires TouchesChannels(a) && !a.OpenChannel? && !HasChannel(s.sv2, c, ch)
    ensures !HasChannel(Apply(s, a).sv2, c, ch)
  {
  }

  /**
   After any run, what a channel was issued is in publication order exactly when no step committed a late job to it.
   */
  lemma {:induction false} IssuedInOrderExactly(actions: seq<Action>, c: Client, ch: nat)
    requires HasChannel(Run(actions).sv2, c, ch)
    ensures Sorted(Run(actions).sv2[c].channels[ch].issued) <==> NeverOvertaken(actions, c, ch)
  {
    if actions != [] {
      var front, a := actions[..|actions| - 1], actions[|actions| - 1];
      var s := Run(front);
      RunKeeps(front);
      if !HasChannel(s.sv2, c, ch) {
        JustOpened(s, a, c, ch);
        UnopenedNeverOvertaken(front, c, ch);
      } else {
        IssuedInOrderExactly(front, c, ch);
        if Sorted(s.sv2[c].channels[ch].issued) {
          StepInOrderExactly(s, a, c, ch);
        } else {
          StepAdds(s, a, c, ch);
          StillUnsorted(s.sv2[c].channels[ch].issued, Added(s, a, c, ch));
        }
      }
    }
  }

  lemma StillUnsorted(q: seq<nat>, more: seq<nat>)
    requires !Sorted(q)
    ensures !Sorted(q + more)
  {
    var i, j :| 0 <= i < j < |q| && q[i] > q[j];
    assert (q + more)[i] > (q + more)[j];
  }

  // ---------- runs without updates ----------

  ghost predicate InStep(sv2: map<Client, Sv2Session>)
  {
    forall c: Client, ch: nat :: HasChannel(sv2, c, ch) ==> sv2[c].channels[ch].issued == sv2[c].channels[ch].ordered
  }

  predicate NoUpdates(actions: seq<Action>)
  {
    forall i :: 0 <= i < |actions| ==> !actions[i].UpdateChannel?
  }

  lemma StepInStep(s: State, a: Action)
    requires InStep(s.sv2) && TouchesChannels(a) && !a.UpdateChannel?
    ensures InStep(Apply(s, a).sv2)
  {
    var sv2' := Apply(s, a).sv2;
    forall c: Client, ch: nat | HasChannel(sv2', c, ch)
      ensures sv2'[c].channels[ch].issued == sv2'[c].channels[ch].ordered
    {
      if HasChannel(s.sv2, c, ch) {
        assert s.sv2[c].channels[ch].issued == s.sv2[c].channels[ch].ordered;
      }
    }
  }

  lemma {:induction false} RunInStep(actions: seq<Action>)
    requires NoUpdates(actions)
    ensures InStep(Run(actions).sv2)
  {
    if actions != [] {
      RunInStep(actions[..|actions| - 1]);
      var a := actions[|actions| - 1];
      if TouchesChannels(a) {
        StepInStep(Run(actions[..|actions| - 1]), a);
      } else {
        OthersLeaveChannels(Run(actions[..|actions| - 1]), a);
      }
    }
  }

  /** In particular, without an update answered by a job no commit is late and every channel is in order. */
  lemma IssuedInOrderWithoutUpdates(actions: seq<Action>, c: Client, ch: nat)
    requires NoUpdates(actions) && HasChannel(Run(actions).sv2, c, ch)
    ensures Sorted(Run(actions).sv2[c].channels[ch].issued) && NeverOvertaken(actions, c, ch)
  {
    RunInStep(actions);
    DeliveryIsOrdered(actions);
    IssuedInOrderExactly(actions, c, ch);
  }

  // ---------- a run where an update overtakes a publication ----------

  const FIRST := Job(0, "a", 1, "p", 1)
  const SECOND := Job(1, "b", 1, "p", 2)
  const THIRD := Job(2, "c", 1, "p", 3)

  const MINER := map[7 := Sv2Session(2, map[1 := Channel(1, [1], [1])])]
  const THREADS: map<Thread, Broadcaster> := map[0 := Announcing(FIRST, true)]

  /** The first job is published and the miner has opened a channel on it. */
  const OPENED := State(
    Cache(Some(FIRST), [FIRST], 1), [FIRST], 1, {7}, map[], MINER, [], Waiting, THREADS, 0, map[])

  const SECOND_PUBLISHED := State(
    Cache(Some(SECOND), [FIRST, SECOND], 2), [FIRST, SECOND], 2, {7}, map[], MINER, [], Waiting,
    THREADS[1 := Announcing(SECOND, true)], 1, map[])

  const QUEUED := State(
    Cache(Some(SECOND), [FIRST, SECOND], 2), [FIRST, SECOND], 2, {7}, map[], MINER, [Pending(7, SECOND, true)], Waiting,
    THREADS[1 := Sending(SECOND, true, {}, {})], 1, map[])

  const PLANNED := State(
    Cache(Some(SECOND), [FIRST, SECOND], 2), [FIRST, SECOND], 2, {7}, map[], MINER, [], Committing(7, SECOND, {1}),
    THREADS[1 := Sending(SECOND, true, {}, {})], 1, map[])

  lemma RunAppend(actions: seq<Action>, a: Action)
    ensures Run(actions + [a]) == Apply(Run(actions), a)
  {
    assert (actions + [a])[..|actions|] == actions;
  }

  lemma Opens() returns (actions: seq<Action>)
    ensures Run(actions) == OPENED
  {
    actions := [];
    RunAppend(actions, AddSv2(7));
    actions := actions + [AddSv2(7)];
    RunAppend(actions, Build(0, FIRST, true, false));
    actions := actions + [Build(0, FIRST, true, false)];
    RunAppend(actions, TryPublish(0));
    actions := actions + [TryPublish(0)];
    RunAppend(actions, OpenChannel(7));
    actions := actions + [OpenChannel(7)];
    assert Run(actions).sv2 == OPENED.sv2;
  }

  lemma PublishesSecond() returns (actions: seq<Action>)
    ensures Run(actions) == SECOND_PUBLISHED
  {
    actions := Opens();
    RunAppend(actions, Build(1, SECOND, true, false));
    actions := actions + [Build(1, SECOND, true, false)];
    RunAppend(actions, TryPublish(1));
    actions := actions + [TryPublish(1)];
  }

  lemma Snapshots() returns (actions: seq<Action>)
    ensures Run(actions) == SECOND_PUBLISHED.(broadcasters := THREADS[1 := Sending(SECOND, true, {}, {7})])
  {
    actions := PublishesSecond();
    RunAppend(actions, Snapshot(1));
    actions := actions + [Snapshot(1)];
    assert {7} * SECOND_PUBLISHED.sv1.Keys == {} && {7} * SECOND_PUBLISHED.sv2.Keys == {7};
    assert Run(actions).broadcasters == THREADS[1 := Sending(SECOND, true, {}, {7})];
  }

  lemma Queues() returns (actions: seq<Action>)
    ensures Run(actions) == QUEUED
  {
    actions := Snapshots();
    RunAppend(actions, Enqueue(1, 7));
    actions := actions + [Enqueue(1, 7)];
    assert {7} - {7} == {};
    assert Run(actions).broadcasters == QUEUED.broadcasters;
  }

  lemma Plans() returns (actions: seq<Action>)
    ensures Run(actions) == PLANNED
  {
    actions := Queues();
    RunAppend(actions, Take);
    actions := actions + [Take];
    assert Run(actions).publisher == LookingUp(Pending(7, SECOND, true));
    RunAppend(actions, Lookup);
    actions := actions + [Lookup];
    RunAppend(actions, Plan);
    actions := actions + [Plan];
    assert Run(actions).publisher == Committing(7, SECOND, {1});
  }

  lemma PublishesThird() returns (actions: seq<Action>)
    ensures Run(actions).cache.current == Some(THIRD)
    ensures Run(actions).sv2 == MINER && Run(actions).publisher == PLANNED.publisher
  {
    actions := Plans();
    RunAppend(actions, Build(2, THIRD, true, false));
    actions := actions + [Build(2, THIRD, true, false)];
    RunAppend(actions, TryPublish(2));
    actions := actions + [TryPublish(2)];
  }

  /** Job 3 answers an update before the commit of job 2, which then follows it on the same channel. */
  lemma UpdateOvertakesPublication() returns (actions: seq<Action>)
    ensures HasChannel(Run(actions).sv2, 7, 1)
    ensures Run(actions).sv2[7].channels[1].issued == [1, 3, 2]
    ensures !Sorted(Run(actions).sv2[7].channels[1].issued)
  {
    actions := PublishesThird();
    RunAppend(actions, UpdateChannel(7, 1));
    actions := actions + [UpdateChannel(7, 1)];
    RunAppend(actions, Commit(1));
    actions := actions + [Commit(1)];
    var issued := Run(actions).sv2[7].channels[1].issued;
    assert issued[1] > issued[2];
  }
}

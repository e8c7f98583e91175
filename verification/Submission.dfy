/** Found blocks: the answers of several endpoints, retries until they are conclusive, and credit given once. */
module Submission {
  import opened Options

  /** What one endpoint says: no objection, a reason, or nothing usable. */
  datatype Answer = Taken | Reason(text: string) | Failed

  /** What a submission gives back: no objection, a reason, or an exception. */
  datatype Reply = Returned(rejection: Option<string>) | Threw

  datatype Outcome = Accepted | AlreadyKnown | Inconclusive | Rejected

  predicate Wavering(text: string)
  {
    text == "inconclusive" || text == "duplicate-inconclusive"
  }

  /** A rejection that settles the matter. */
  predicate Definite(a: Answer)
  {
    a.Reason? && a.text != "duplicate" && !Wavering(a.text)
  }

  /** `classify_submit` */
  function Classify(rejection: Option<string>): Outcome
  {
    match rejection
    case None => Accepted
    case Some(text) => if text == "duplicate" then AlreadyKnown else if Wavering(text) then Inconclusive else Rejected
  }

  /** What the answers amount to, most favourable first; nothing when some endpoint failed and none was conclusive. */
  ghost function OutcomeOf(answers: seq<Answer>): Option<Outcome>
  {
    if Taken in answers then Some(Accepted)
    else if Reason("duplicate") in answers then Some(AlreadyKnown)
    else if exists i :: 0 <= i < |answers| && answers[i].Reason? && Wavering(answers[i].text) then Some(Inconclusive)
    else if answers == [] || Failed in answers then None
    else Some(Rejected)
  }

  ghost function ReplyOutcome(reply: Reply): Option<Outcome>
  {
    if reply.Threw? then None else Some(Classify(reply.rejection))
  }

  /** Final rejection means every endpoint rejected definitely. */
  lemma RejectedMeansAll(answers: seq<Answer>)
    ensures OutcomeOf(answers) == Some(Rejected)
            <==> answers != [] && forall i :: 0 <= i < |answers| ==> Definite(answers[i])
  {
    if OutcomeOf(answers) == Some(Rejected) {
      forall i | 0 <= i < |answers|
        ensures Definite(answers[i])
      {
        assert answers[i] in answers;
      }
    } else if answers != [] && forall i :: 0 <= i < |answers| ==> Definite(answers[i]) {
      assert Taken !in answers && Reason("duplicate") !in answers && Failed !in answers;
    }
  }

  datatype Tally = Tally(accepted: bool, known: bool, wavering: Option<string>, rejection: Option<string>, failed: bool)

  /** The flags after one more answer. */
  function Counted(t: Tally, a: Answer): Tally
  {
    match a
    case Taken => t.(accepted := true)
    case Failed => t.(failed := true)
    case Reason(text) =>
      if text == "duplicate" then t.(known := true)
      else if Wavering(text) then (if t.wavering.None? then t.(wavering := Some(text)) else t)
      else if t.rejection.None? then t.(rejection := Some(text))
      else t
  }

  /** What the flags say about the answers seen. */
  ghost predicate Reflects(t: Tally, answers: seq<Answer>)
  {
    && (t.accepted <==> Taken in answers) && (t.known <==> Reason("duplicate") in answers)
        && (t.failed <==> Failed in answers)
    && (t.wavering.Some? <==> exists i :: 0 <= i < |answers| && answers[i].Reason? && Wavering(answers[i].text))
    && (t.wavering.Some? ==> Wavering(t.wavering.value))
    && (t.rejection.Some? <==> exists i :: 0 <= i < |answers| && Definite(answers[i]))
    && (t.rejection.Some? ==> Definite(Reason(t.rejection.value)))
  }

  lemma CountedReflects(t: Tally, answers: seq<Answer>, a: Answer)
    requires Reflects(t, answers)
    ensures Reflects(Counted(t, a), answers + [a])
  {
    var more := answers + [a];
    assert more[|answers|] == a;
    assert forall i :: 0 <= i < |answers| ==> more[i] == answers[i];
    assert forall x :: x in more <==> x in answers || x == a;
  }

  /** A reason of the same kind. */
  predicate SameKind(a: Answer, text: string)
  {
    a.Reason? && Classify(Some(a.text)) == Classify(Some(text))
  }

  ghost predicate FirstAt(answers: seq<Answer>, i: nat, text: string)
    requires i < |answers|
  {
    answers[i] == Reason(text) && forall j :: 0 <= j < i ==> !SameKind(answers[j], text)
  }

  /** The first reason of its kind among the answers. */
  ghost predicate IsFirst(answers: seq<Answer>, text: string)
  {
    exists i: nat :: i < |answers| && FirstAt(answers, i, text)
  }

  lemma FirstStays(answers: seq<Answer>, a: Answer, text: string)
    requires IsFirst(answers, text)
    ensures IsFirst(answers + [a], text)
  {
    var i: nat :| i < |answers| && FirstAt(answers, i, text);
    assert FirstAt(answers + [a], i, text);
  }

  lemma FirstAppears(answers: seq<Answer>, text: string)
    requires forall j :: 0 <= j < |answers| ==> !SameKind(answers[j], text)
    ensures IsFirst(answers + [Reason(text)], text)
  {
    assert FirstAt(answers + [Reason(text)], |answers|, text);
  }

  /** The reasons kept are the first of their kinds. */
  ghost predicate KeepsFirst(t: Tally, answers: seq<Answer>)
  {
    && (t.wavering.Some? ==> IsFirst(answers, t.wavering.value))
    && (t.rejection.Some? ==> IsFirst(answers, t.rejection.value))
  }

  lemma CountedKeepsFirst(t: Tally, answers: seq<Answer>, a: Answer)
    requires Reflects(t, answers) && KeepsFirst(t, answers)
    ensures KeepsFirst(Counted(t, a), answers + [a])
  {
    if t.wavering.Some? {
      FirstStays(answers, a, t.wavering.value);
    } else if a.Reason? && Wavering(a.text) {
      FirstAppears(answers, a.text);
    }
    if t.rejection.Some? {
      FirstStays(answers, a, t.rejection.value);
    } else if Definite(a) {
      FirstAppears(answers, a.text);
    }
  }

  /** Every answer is of one of the five kinds. */
  lemma SomeKind(answers: seq<Answer>)
    ensures || answers == [] || Taken in answers || Reason("duplicate") in answers || Failed in answers
            || (exists i :: 0 <= i < |answers| && answers[i].Reason? && Wavering(answers[i].text))
            || (exists i :: 0 <= i < |answers| && Definite(answers[i]))
  {
    if answers != [] {
      assert answers[0] in answers;
    }
  }

  /** `submitblock`: one pass over the answers, then the most favourable wins, by the first reason of its kind. */
  method Aggregate(answers: seq<Answer>) returns (reply: Reply)
    ensures ReplyOutcome(reply) == OutcomeOf(answers)
    ensures reply.Returned? && reply.rejection.Some? ==>
              reply.rejection.value == "duplicate" || IsFirst(answers, reply.rejection.value)
  {
    var t := Tally(false, false, None, None, false);
    for i := 0 to |answers|
      invariant Reflects(t, answers[..i]) && KeepsFirst(t, answers[..i])
    {
      CountedReflects(t, answers[..i], answers[i]);
      CountedKeepsFirst(t, answers[..i], answers[i]);
      assert answers[..i + 1] == answers[..i] + [answers[i]];
      t := Counted(t, answers[i]);
    }
    assert answers[..|answers|] == answers;
    SomeKind(answers);
    if t.accepted {
      return Returned(None);
    }
    if t.known {
      return Returned(Some("duplicate"));
    }
    if t.wavering.Some? {
      return Returned(t.wavering);
    }
    if t.failed {
      return Threw;
    }
    if t.rejection.Some? {
      return Returned(t.rejection);
    }
    return Threw;
  }

  // ---------- the live queue ----------

  datatype Block = Block(hash: string, address: string)

  /**
   `found` is every block handed in, `settled` every block that left for good with the answers that settled it, and
   `named` the hashes credited to an address; `byAddress` counts credits per address.
   */
  datatype State = State(queue: seq<Block>, hand: Option<Block>, credited: set<string>, blocksFound: nat,
                         byAddress: multiset<string>, stopping: bool,
                         found: multiset<Block>, settled: seq<(Block, seq<Answer>)>, dropped: multiset<Block>,
                             named: set<string>)

  const INITIAL := State([], None, {}, 0, multiset{}, false, multiset{}, [], multiset{}, {})

  datatype Event = Found(block: Block) | Pick(i: nat) | Submit(answers: seq<Answer>) | Stop

  /** `credit_block` */
  function Credited(s: State, b: Block): State
  {
    if b.hash in s.credited then s
    else s.(credited := s.credited + {b.hash}, blocksFound := s.blocksFound + 1,
            byAddress := if b.address == "" then s.byAddress else s.byAddress + multiset{b.address},
            named := if b.address == "" then s.named else s.named + {b.hash})
  }

  predicate Wins(o: Option<Outcome>)
  {
    o == Some(Accepted) || o == Some(AlreadyKnown)
  }

  /** `submit_block` and the requeueing around it; after a stop an undecided block is not put back. */
  function Submitted(s: State, b: Block, answers: seq<Answer>, o: Option<Outcome>): State
  {
    if Wins(o) then Credited(s, b).(hand := None, settled := s.settled + [(b, answers)])
    else if o == Some(Rejected) then s.(hand := None, settled := s.settled + [(b, answers)])
    else if s.stopping then s.(hand := None, dropped := s.dropped + multiset{b})
    else s.(hand := None, queue := s.queue + [b])
  }

  ghost function Next(s: State, e: Event): State
  {
    match e
    case Found(b) => s.(queue := s.queue + [b], found := s.found + multiset{b})
    case Pick(i) =>
      if s.stopping || s.hand.Some? || i >= |s.queue| then s
      else s.(hand := Some(s.queue[i]), queue := s.queue[..i] + s.queue[i + 1..])
    case Submit(answers) => if s.hand.None? then s else Submitted(s, s.hand.value, answers, OutcomeOf(answers))
    case Stop => s.(stopping := true)
  }

  ghost function After(events: seq<Event>): State
  {
    if events == [] then INITIAL else Next(After(events[..|events| - 1]), events[|events| - 1])
  }

  function Held(hand: Option<Block>): multiset<Block>
  {
    if hand.Some? then multiset{hand.value} else multiset{}
  }

  function BlocksOf(settled: seq<(Block, seq<Answer>)>): multiset<Block>
  {
    if settled == [] then multiset{} else BlocksOf(settled[..|settled| - 1]) + multiset{settled[|settled| - 1].0}
  }

  lemma BlocksOfAppend(settled: seq<(Block, seq<Answer>)>, b: Block, answers: seq<Answer>)
    ensures BlocksOf(settled + [(b, answers)]) == BlocksOf(settled) + multiset{b}
  {
    assert (settled + [(b, answers)])[..|settled|] == settled;
  }

  // ---------- invariant ----------

  /** No block is lost or doubled. */
  ghost predicate Conserved(s: State)
  {
    && s.found == Everywhere(s.queue, s.hand, BlocksOf(s.settled), s.dropped)
    && (!s.stopping ==> s.dropped == multiset{})
  }

  function Everywhere(queue: seq<Block>, hand: Option<Block>, settled: multiset<Block>,
                      dropped: multiset<Block>): multiset<Block>
  {
    multiset(queue) + Held(hand) + settled + dropped
  }

  /** What settled a block: some endpoint has it, or every one rejected it. */
  ghost predicate Justified(settled: seq<(Block, seq<Answer>)>)
  {
    forall i :: 0 <= i < |settled| ==> Wins(OutcomeOf(settled[i].1)) || OutcomeOf(settled[i].1) == Some(Rejected)
  }

  ghost predicate WonWith(settled: seq<(Block, seq<Answer>)>, hash: string)
  {
    exists i :: 0 <= i < |settled| && settled[i].0.hash == hash && Wins(OutcomeOf(settled[i].1))
  }

  ghost predicate CreditOk(s: State)
  {
    && s.blocksFound == |s.credited|
    && (forall hash :: hash in s.credited <==> WonWith(s.settled, hash))
    && s.named <= s.credited && |s.byAddress| == |s.named|
  }

  ghost predicate Inv(s: State)
  {
    Conserved(s) && Justified(s.settled) && CreditOk(s)
  }

  lemma PickConserves(queue: seq<Block>, i: nat)
    requires i < |queue|
    ensures multiset(queue) == multiset(queue[..i] + queue[i + 1..]) + multiset{queue[i]}
  {
    assert queue == queue[..i] + [queue[i]] + queue[i + 1..];
  }

  lemma WonWithAppend(settled: seq<(Block, seq<Answer>)>, b: Block, answers: seq<Answer>, hash: string)
    ensures WonWith(settled + [(b, answers)], hash)
            <==> WonWith(settled, hash) || (b.hash == hash && Wins(OutcomeOf(answers)))
  {
    var more := settled + [(b, answers)];
    assert more[|settled|] == (b, answers);
    assert forall i :: 0 <= i < |settled| ==> more[i] == settled[i];
  }

  predicate Settles(o: Option<Outcome>)
  {
    Wins(o) || o == Some(Rejected)
  }

  lemma SettleConserves(s: State, b: Block, answers: seq<Answer>, o: Option<Outcome>)
    requires Conserved(s) && s.hand == Some(b) && Settles(o)
    ensures Conserved(Submitted(s, b, answers, o))
  {
    var next := Submitted(s, b, answers, o);
    SettledFields(s, b, answers, o);
    BlocksOfAppend(s.settled, b, answers);
    MoveToSettled(s.queue, b, BlocksOf(s.settled), s.dropped);
    assert next.found == Everywhere(next.queue, next.hand, BlocksOf(next.settled), next.dropped);
  }

  lemma SettledFields(s: State, b: Block, answers: seq<Answer>, o: Option<Outcome>)
    requires Settles(o)
    ensures var next := Submitted(s, b, answers, o);
            && next.found == s.found && next.queue == s.queue && next.hand == None && next.dropped == s.dropped
            && next.stopping == s.stopping && next.settled == s.settled + [(b, answers)]
  {
  }

  lemma MoveToSettled(queue: seq<Block>, b: Block, settled: multiset<Block>, dropped: multiset<Block>)
    ensures Everywhere(queue, Some(b), settled, dropped) == Everywhere(queue, None, settled + multiset{b}, dropped)
  {
  }

  lemma MoveToDropped(queue: seq<Block>, b: Block, settled: multiset<Block>, dropped: multiset<Block>)
    ensures Everywhere(queue, Some(b), settled, dropped) == Everywhere(queue, None, settled, dropped + multiset{b})
  {
  }

  lemma MoveToQueue(queue: seq<Block>, b: Block, settled: multiset<Block>, dropped: multiset<Block>)
    ensures Everywhere(queue, Some(b), settled, dropped) == Everywhere(queue + [b], None, settled, dropped)
  {
    assert multiset(queue + [b]) == multiset(queue) + multiset{b};
  }

  lemma AddToQueue(queue: seq<Block>, hand: Option<Block>, b: Block, settled: multiset<Block>, dropped: multiset<Block>)
    ensures Everywhere(queue + [b], hand, settled, dropped) == Everywhere(queue, hand, settled, dropped) + multiset{b}
  {
    assert multiset(queue + [b]) == multiset(queue) + multiset{b};
  }

  lemma MoveToHand(queue: seq<Block>, i: nat, settled: multiset<Block>, dropped: multiset<Block>)
    requires i < |queue|
    ensures Everywhere(queue, None, settled, dropped)
            == Everywhere(queue[..i] + queue[i + 1..], Some(queue[i]), settled, dropped)
  {
    PickConserves(queue, i);
  }

  lemma SettleJustified(settled: seq<(Block, seq<Answer>)>, b: Block, answers: seq<Answer>)
    requires Justified(settled) && Settles(OutcomeOf(answers))
    ensures Justified(settled + [(b, answers)])
  {
  }

  lemma WinCredits(s: State, b: Block, answers: seq<Answer>)
    requires CreditOk(s) && Wins(OutcomeOf(answers))
    ensures CreditOk(Credited(s, b).(hand := None, settled := s.settled + [(b, answers)]))
  {
    var next := Credited(s, b).(hand := None, settled := s.settled + [(b, answers)]);
    forall hash
      ensures hash in next.credited <==> WonWith(next.settled, hash)
    {
      WonWithAppend(s.settled, b, answers, hash);
    }
  }

  lemma RejectionCreditsNothing(s: State, b: Block, answers: seq<Answer>)
    requires CreditOk(s) && !Wins(OutcomeOf(answers))
    ensures CreditOk(s.(hand := None, settled := s.settled + [(b, answers)]))
  {
    forall hash
      ensures WonWith(s.settled + [(b, answers)], hash) <==> WonWith(s.settled, hash)
    {
      WonWithAppend(s.settled, b, answers, hash);
    }
  }

  lemma SubmitKeeps(s: State, b: Block, answers: seq<Answer>, o: Option<Outcome>)
    requires Inv(s) && s.hand == Some(b) && o == OutcomeOf(answers)
    ensures Inv(Submitted(s, b, answers, o))
  {
    if Settles(o) {
      SettleConserves(s, b, answers, o);
      SettleJustified(s.settled, b, answers);
      if Wins(o) {
        WinCredits(s, b, answers);
      } else {
        RejectionCreditsNothing(s, b, answers);
      }
    } else if s.stopping {
      MoveToDropped(s.queue, b, BlocksOf(s.settled), s.dropped);
    } else {
      MoveToQueue(s.queue, b, BlocksOf(s.settled), s.dropped);
    }
  }

  lemma NextKeeps(s: State, e: Event)
    requires Inv(s)
    ensures Inv(Next(s, e))
  {
    match e
    case Found(b) => AddToQueue(s.queue, s.hand, b, BlocksOf(s.settled), s.dropped);
    case Pick(i) =>
      if !s.stopping && s.hand.None? && i < |s.queue| {
        MoveToHand(s.queue, i, BlocksOf(s.settled), s.dropped);
      }
    case Submit(answers) =>
      if s.hand.Some? {
        SubmitKeeps(s, s.hand.value, answers, OutcomeOf(answers));
      }
    case Stop =>
  }

  lemma {:induction false} RunKeeps(events: seq<Event>)
    ensures Inv(After(events))
  {
    if events != [] {
      RunKeeps(events[..|events| - 1]);
      NextKeeps(After(events[..|events| - 1]), events[|events| - 1]);
    }
  }

  /**
   Until the pool stops, every block found is still queued, in hand, or settled, and a settled one was accepted or
   known to some endpoint or definitely rejected by all of them.
   */
  lemma NoBlockIsLost(events: seq<Event>)
    ensures var s := After(events);
            && (!s.stopping ==> s.found == multiset(s.queue) + Held(s.hand) + BlocksOf(s.settled))
            && (forall i :: 0 <= i < |s.settled| ==>
                  || Taken in s.settled[i].1 || Reason("duplicate") in s.settled[i].1
                  || (s.settled[i].1 != [] && forall k :: 0 <= k < |s.settled[i].1| ==> Definite(s.settled[i].1[k])))
  {
    RunKeeps(events);
    var s := After(events);
    forall i | 0 <= i < |s.settled|
      ensures || Taken in s.settled[i].1 || Reason("duplicate") in s.settled[i].1
              || (s.settled[i].1 != [] && forall k :: 0 <= k < |s.settled[i].1| ==> Definite(s.settled[i].1[k]))
    {
      RejectedMeansAll(s.settled[i].1);
    }
  }

  /** The blocks counted are the distinct hashes won, and the counts by address add up to those won with an address. */
  lemma CreditOncePerHash(events: seq<Event>)
    ensures var s := After(events);
            && s.blocksFound == |s.credited|
            && (forall hash :: hash in s.credited <==> WonWith(s.settled, hash))
            && |s.byAddress| == |s.named| && s.named <= s.credited
  {
    RunKeeps(events);
  }
}

/**
 What a connection puts on the wire while receiving, sending and ending threads interleave. Every region under the
 noise mutex is one action; the send mutex is held across several. A run is any sequence of actions.
 */
module NoiseWire {
  import opened Numbers
  import opened Options
  import opened NoiseStream
  import opened NoiseConnection

  type Thread = nat
  type Message = seq<byte>

  /** Act 2, or messages sealed from a nonce on. */
  datatype Item = Act2 | Sealed(nonce: nat, messages: seq<Message>)

  datatype Pc =
    | Idle
    | WantsHandshake
    | Handshaking
    | SendingReply
    | ReplySent
    | Encoding(messages: seq<Message>)
    | Encrypted(nonce: nat, messages: seq<Message>)

  datatype State = State(stream: StreamState, holder: Option<Thread>, nonce: nat, wire: seq<Item>,
                         threads: map<Thread, Pc>)

  const INITIAL := State(AwaitingAct1, None, 0, [], map[])

  datatype Action =
    | CompleteAct1(t: Thread)
    | ReceiveElsewhere
    | LockForHandshake(t: Thread)
    | Handshake(t: Thread, ok: bool)
    | SendAct2(t: Thread, ok: bool)
    | OpenTransport(t: Thread)
    | LockForSend(t: Thread, messages: seq<Message>)
    | Encrypt(t: Thread)
    | Transmit(t: Thread, sawTerminal: bool)
    | Terminate

  function PcOf(s: State, t: Thread): Pc
  {
    if t in s.threads then s.threads[t] else Idle
  }

  function Go(s: State, t: Thread, pc: Pc): State
  {
    s.(threads := s.threads[t := pc])
  }

  /** Leaves the send mutex. */
  function Release(s: State, t: Thread): State
  {
    Go(s, t, Idle).(holder := None)
  }

  function Ended(s: State): State
  {
    s.(stream := Terminal)
  }

  function DoCompleteAct1(s: State, t: Thread): State
  {
    if PcOf(s, t) == Idle && (s.stream == AwaitingAct1 || s.stream == Act1Ready)
    then Go(s.(stream := Act1Ready), t, WantsHandshake) else s
  }

  function DoReceiveElsewhere(s: State): State
  {
    if s.stream == SendingAct2 then Ended(s) else s
  }

  function DoLockForHandshake(s: State, t: Thread): State
  {
    if PcOf(s, t) == WantsHandshake && s.holder == None then Go(s.(holder := Some(t)), t, Handshaking) else s
  }

  function DoHandshake(s: State, t: Thread, ok: bool): State
  {
    if PcOf(s, t) != Handshaking then s
    else if s.stream != Act1Ready then Release(s, t)
    else if !ok then Release(Ended(s), t)
    else Go(s.(stream := SendingAct2, nonce := 0), t, SendingReply)
  }

  function DoSendAct2(s: State, t: Thread, ok: bool): State
  {
    if PcOf(s, t) != SendingReply then s
    else if !ok then Release(Ended(s), t)
    else Go(s.(wire := s.wire + [Act2]), t, ReplySent)
  }

  function DoOpenTransport(s: State, t: Thread): State
  {
    if PcOf(s, t) != ReplySent then s
    else Release(if s.stream == SendingAct2 then s.(stream := Transport) else s, t)
  }

  function DoLockForSend(s: State, t: Thread, messages: seq<Message>): State
  {
    if PcOf(s, t) == Idle && s.holder == None then Go(s.(holder := Some(t)), t, Encoding(messages)) else s
  }

  function DoEncrypt(s: State, t: Thread): State
  {
    if !PcOf(s, t).Encoding? then s
    else
      var messages := PcOf(s, t).messages;
      if s.stream == Terminal then Release(s, t)
      else if s.stream != Transport || s.nonce + |messages| > NONCE_LIMIT then Release(Ended(s), t)
      else Go(s.(nonce := s.nonce + |messages|), t, Encrypted(s.nonce, messages))
  }

  function DoTransmit(s: State, t: Thread, sawTerminal: bool): State
  {
    if !PcOf(s, t).Encrypted? then s
    else if sawTerminal && s.stream == Terminal then Release(s, t)
    else Release(s.(wire := s.wire + [Sealed(PcOf(s, t).nonce, PcOf(s, t).messages)]), t)
  }

  function Apply(s: State, a: Action): State
  {
    match a
    case CompleteAct1(t) => DoCompleteAct1(s, t)
    case ReceiveElsewhere => DoReceiveElsewhere(s)
    case LockForHandshake(t) => DoLockForHandshake(s, t)
    case Handshake(t, ok) => DoHandshake(s, t, ok)
    case SendAct2(t, ok) => DoSendAct2(s, t, ok)
    case OpenTransport(t) => DoOpenTransport(s, t)
    case LockForSend(t, messages) => DoLockForSend(s, t, messages)
    case Encrypt(t) => DoEncrypt(s, t)
    case Transmit(t, sawTerminal) => DoTransmit(s, t, sawTerminal)
    case Terminate => Ended(s)
  }

  function Run(actions: seq<Action>): State
  {
    if actions == [] then INITIAL else Apply(Run(actions[..|actions| - 1]), actions[|actions| - 1])
  }

  // ---------- invariant ----------

  function MessagesOn(items: seq<Item>): seq<Message>
  {
    if items == [] then []
    else MessagesOn(items[..|items| - 1]) + (var last := items[|items| - 1]; if last.Sealed? then last.messages else [])
  }

  /** Each item takes up the nonces where the one before it stopped. */
  ghost predicate Consecutive(items: seq<Item>)
  {
    forall i :: 0 <= i < |items| ==> items[i].Sealed? && items[i].nonce == |MessagesOn(items[..i])|
  }

  /** Nothing, or Act 2 followed by sealed items in nonce order. */
  ghost predicate WireOk(wire: seq<Item>)
  {
    wire != [] ==> wire[0] == Act2 && Consecutive(wire[1..])
  }

  ghost predicate Held(pc: Pc)
  {
    pc != Idle && pc != WantsHandshake
  }

  ghost predicate HolderOk(s: State)
  {
    forall t: Thread :: Held(PcOf(s, t)) ==> s.holder == Some(t)
  }

  /** How far the wire has got, by where the send mutex holder stands. */
  ghost predicate Progress(s: State, pc: Pc)
  {
    match pc
    case Handshaking => true
    case SendingReply => s.wire == [] && s.nonce == 0 && (s.stream == SendingAct2 || s.stream == Terminal)
    case ReplySent => s.wire == [Act2] && s.nonce == 0 && (s.stream == SendingAct2 || s.stream == Terminal)
    case Encrypted(nonce, messages) =>
      && (s.stream == Transport || s.stream == Terminal)
      && s.wire != [] && nonce == |MessagesOn(s.wire[1..])| && s.nonce == nonce + |messages| <= NONCE_LIMIT
    case _ => true
  }

  ghost predicate Inv(s: State)
  {
    && WireOk(s.wire) && HolderOk(s)
    && (forall t: Thread :: Progress(s, PcOf(s, t)))
    && (s.stream == AwaitingAct1 || s.stream == Act1Ready ==> s.wire == [])
    && (s.stream == SendingAct2 ==>
          s.holder.Some? && (PcOf(s, s.holder.value) == SendingReply || PcOf(s, s.holder.value) == ReplySent))
    && (s.stream == Transport ==> s.wire != [])
    && (s.stream == Transport && (s.holder == None || !PcOf(s, s.holder.value).Encrypted?)
        ==> s.nonce == |MessagesOn(s.wire[1..])|)
  }

  lemma ConsecutiveAppend(items: seq<Item>, item: Item)
    requires Consecutive(items) && item.Sealed? && item.nonce == |MessagesOn(items)|
    ensures Consecutive(items + [item])
  {
    forall i | 0 <= i < |items + [item]|
      ensures (items + [item])[i].Sealed? && (items + [item])[i].nonce == |MessagesOn((items + [item])[..i])|
    {
      assert (items + [item])[..i] == items[..i];
      assert items[..|items|] == items;
    }
  }

  lemma HandshakeKeeps(s: State, t: Thread, ok: bool)
    requires Inv(s)
    ensures Inv(DoCompleteAct1(s, t)) && Inv(DoLockForHandshake(s, t)) && Inv(DoHandshake(s, t, ok))
  {
  }

  lemma SendAct2Keeps(s: State, t: Thread, ok: bool)
    requires Inv(s)
    ensures Inv(DoSendAct2(s, t, ok))
  {
    assert Progress(s, PcOf(s, t));
  }

  lemma OpenTransportKeeps(s: State, t: Thread)
    requires Inv(s)
    ensures Inv(DoOpenTransport(s, t))
  {
    assert Progress(s, PcOf(s, t));
  }

  lemma EncryptKeeps(s: State, t: Thread, messages: seq<Message>)
    requires Inv(s)
    ensures Inv(DoLockForSend(s, t, messages)) && Inv(DoEncrypt(s, t))
  {
  }

  lemma TransmitKeeps(s: State, t: Thread, sawTerminal: bool)
    requires Inv(s)
    ensures Inv(DoTransmit(s, t, sawTerminal))
  {
    if PcOf(s, t).Encrypted? {
      assert Progress(s, PcOf(s, t));
      var item := Sealed(PcOf(s, t).nonce, PcOf(s, t).messages);
      ConsecutiveAppend(s.wire[1..], item);
      assert (s.wire + [item])[1..] == s.wire[1..] + [item];
    }
  }

  lemma EndedKeeps(s: State)
    requires Inv(s)
    ensures Inv(Ended(s)) && Inv(DoReceiveElsewhere(s))
  {
  }

  lemma ApplyKeeps(s: State, a: Action)
    requires Inv(s)
    ensures Inv(Apply(s, a))
  {
    match a
    case CompleteAct1(t) => HandshakeKeeps(s, t, true);
    case ReceiveElsewhere => EndedKeeps(s);
    case LockForHandshake(t) => HandshakeKeeps(s, t, true);
    case Handshake(t, ok) => HandshakeKeeps(s, t, ok);
    case SendAct2(t, ok) => SendAct2Keeps(s, t, ok);
    case OpenTransport(t) => OpenTransportKeeps(s, t);
    case LockForSend(t, messages) => EncryptKeeps(s, t, messages);
    case Encrypt(t) => EncryptKeeps(s, t, []);
    case Transmit(t, sawTerminal) => TransmitKeeps(s, t, sawTerminal);
    case Terminate => EndedKeeps(s);
  }

  // ---------- every run ----------

  lemma {:induction false} RunKeeps(actions: seq<Action>)
    ensures Inv(Run(actions))
  {
    if actions != [] {
      RunKeeps(actions[..|actions| - 1]);
      ApplyKeeps(Run(actions[..|actions| - 1]), actions[|actions| - 1]);
    }
  }

  /** The bytes of sealed items. */
  function Bytes(a: Aead, items: seq<Item>): seq<byte>
  {
    if items == [] then []
    else
      var last := items[|items| - 1];
      Bytes(a, items[..|items| - 1]) + (if last.Sealed? then SealAll(a, last.nonce, last.messages) else [])
  }

  lemma {:induction false} ConsecutiveBytes(a: Aead, items: seq<Item>)
    requires Consecutive(items)
    ensures Bytes(a, items) == SealAll(a, 0, MessagesOn(items))
  {
    if items != [] {
      var front, last := items[..|items| - 1], items[|items| - 1];
      assert forall i :: 0 <= i < |front| ==> front[i] == items[i] && front[..i] == items[..i];
      ConsecutiveBytes(a, front);
      SealConcat(a, 0, MessagesOn(front), last.messages);
    }
  }

  /**
   Act 2 precedes everything else and is sent once. What follows it is one sealed stream under nonces 0, 1, 2, ...,
   and while the connection lives and nobody is sending, all that was sealed is on the wire.
   */
  lemma OneSealedStreamAfterAct2(a: Aead, actions: seq<Action>)
    ensures var s := Run(actions);
            && (s.wire != [] ==>
                  && s.wire[0] == Act2 && Act2 !in s.wire[1..]
                  && Bytes(a, s.wire[1..]) == SealAll(a, 0, MessagesOn(s.wire[1..])))
            && (s.stream == Transport && s.holder == None ==> s.wire != [] && s.nonce == |MessagesOn(s.wire[1..])|)
  {
    RunKeeps(actions);
    var s := Run(actions);
    if s.wire != [] {
      ConsecutiveBytes(a, s.wire[1..]);
    }
  }
}

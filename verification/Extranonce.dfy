/** Extranonces: the search spaces sessions, channels and jobs are given, and exactly which of them can meet. */
module Extranonce {
  import opened Numbers
  import opened Sequences
  import opened Options
  import Channels

  const DISCRIMINATOR: nat := 2

  /** The low `n` bytes of a counter, most significant first; what is above them is lost. */
  function Counter(v: nat, n: nat): (s: seq<int>)
    ensures |s| == n
  {
    Reversed(ToDigits(v, n, 256))
  }

  // ---------- counters ----------

  /** The digits kept are those of the remainder. */
  lemma {:induction false} ToDigitsKeepsRemainder(v: nat, n: nat, b: nat) returns (q: nat)
    requires b > 0
    ensures v == Pow(b, n) * q + Value(ToDigits(v, n, b), b)
    decreases n
  {
    if n == 0 {
      q := v;
    } else {
      var h, r := ToDigitsStep(v, n, b);
      q := ToDigitsKeepsRemainder(h, n - 1, b);
      var t := ToDigits(h, n - 1, b);
      assert ([r] + t)[1..] == t;
      RemainderStep(b, Pow(b, n - 1), q, Value(t, b), r, h, v);
    }
  }

  lemma RemainderStep(b: nat, p: nat, q: nat, t: int, r: nat, h: nat, v: nat)
    requires v == b * h + r && h == p * q + t
    ensures v == (b * p) * q + (r + b * t)
  {
    assert b * (p * q + t) == (b * p) * q + b * t;
  }

  /** Counter values less than 256^n apart are told apart by n bytes. */
  lemma CountersDiffer(v: nat, u: nat, n: nat)
    requires u < v < u + Pow(256, n)
    ensures Counter(v, n) != Counter(u, n)
  {
    if Counter(v, n) == Counter(u, n) {
      ReversedTwice(ToDigits(v, n, 256));
      ReversedTwice(ToDigits(u, n, 256));
      var q := ToDigitsKeepsRemainder(v, n, 256);
      var r := ToDigitsKeepsRemainder(u, n, 256);
      NoRoom(Pow(256, n), q, r, v - u);
    }
  }

  lemma NoRoom(p: nat, q: nat, r: nat, d: nat)
    requires p * q - p * r == d
    ensures !(0 < d < p)
  {
    if q > r {
      MulMonotone(p, 1, q - r);
      assert p * (q - r) == p * q - p * r;
    } else {
      MulMonotone(p, q, r);
    }
  }

  /** The byte loop: the counter is written from the last byte backwards. */
  method WriteCounter(bytes: array<int>, value: nat, n: nat)
    requires n <= bytes.Length
    modifies bytes
    ensures bytes[..] == old(bytes[..bytes.Length - n]) + Counter(value, n)
  {
    var length := bytes.Length;
    var digits := ToDigits(value, n, 256);
    for index := 0 to n
      invariant forall i :: 0 <= i < length - n ==> bytes[i] == old(bytes[i])
      invariant forall i :: 0 <= i < index ==> bytes[length - 1 - i] == digits[i]
    {
      DigitAt(value, n, 256, index);
      bytes[length - 1 - index] := value / Pow(256, index) % 256;
    }
    assert forall i :: length - n <= i < length ==> bytes[i] == digits[length - 1 - i];
  }

  lemma {:induction false} DigitAt(v: nat, n: nat, b: nat, i: nat)
    requires b > 0 && i < n
    ensures ToDigits(v, n, b)[i] == v / Pow(b, i) % b
    decreases i
  {
    var q, r := ToDigitsStep(v, n, b);
    if i == 0 {
      DivModUnique(v, b, q, r);
    } else {
      DigitAt(q, n - 1, b, i - 1);
      ShiftTwice(v, b, q, r, Pow(b, i - 1));
    }
  }

  lemma ShiftTwice(v: nat, b: nat, q: nat, r: nat, p: nat)
    requires b > 0 && p > 0 && v == b * q + r && r < b
    ensures b * p > 0 && v / (b * p) == q / p
  {
    MulMonotone(b, 1, p);
    Quotient(q, p, q / p, q % p);
    var h, l := q / p, q % p;
    assert b * (p * h + l) == (b * p) * h + b * l;
    MulMonotone(b, l, p - 1);
    MulMonotone(b, 0, l);
    assert b * (p - 1) == b * p - b;
    DivModUnique(v, b * p, h, b * l + r);
  }

  // ---------- sessions ----------

  /** One pool configuration. */
  datatype Layout = Layout(prefix: seq<int>, size1: nat, size2: nat)

  predicate LayoutOk(l: Layout)
  {
    |l.prefix| <= l.size1
  }

  /** `next_extranonce1` for a value of the session counter. */
  function Session(l: Layout, value: nat): (s: seq<int>)
    requires LayoutOk(l)
    ensures |s| == l.size1
  {
    l.prefix + Counter(value, l.size1 - |l.prefix|)
  }

  /** Any 256^k consecutive sessions, k the counter bytes, have different extranonces. */
  lemma SessionsDiffer(l: Layout, v: nat, u: nat)
    requires LayoutOk(l) && u < v < u + Pow(256, l.size1 - |l.prefix|)
    ensures Session(l, v) != Session(l, u)
  {
    var k := l.size1 - |l.prefix|;
    CountersDiffer(v, u, k);
    assert Session(l, v)[|l.prefix|..] == Counter(v, k) && Session(l, u)[|l.prefix|..] == Counter(u, k);
  }

  /** The prefix of a standard job: the whole extranonce, from the session's own counter. */
  function StandardPrefix(l: Layout, session: seq<int>, counter: nat): (s: seq<int>)
    ensures |s| == |session| + l.size2
  {
    session + Counter(counter, l.size2)
  }

  lemma StandardJobsDiffer(l: Layout, session: seq<int>, v: nat, u: nat)
    requires u < v < u + Pow(256, l.size2)
    ensures StandardPrefix(l, session, v) != StandardPrefix(l, session, u)
  {
    CountersDiffer(v, u, l.size2);
    assert StandardPrefix(l, session, v)[|session|..] == Counter(v, l.size2);
    assert StandardPrefix(l, session, u)[|session|..] == Counter(u, l.size2);
  }

  /** The prefix of an extended channel: its id in two bytes after the session's. */
  function ChannelPrefix(session: seq<int>, id: nat): (s: seq<int>)
    ensures |s| == |session| + DISCRIMINATOR
  {
    session + Counter(id, DISCRIMINATOR)
  }

  /** Channels of one session have different prefixes of one length. */
  lemma ChannelsDiffer(session: seq<int>, a: nat, b: nat)
    requires a < b <= 65535
    ensures ChannelPrefix(session, a) != ChannelPrefix(session, b)
  {
    assert Pow(256, DISCRIMINATOR) == 65536;
    CountersDiffer(b, a, DISCRIMINATOR);
    assert ChannelPrefix(session, a)[|session|..] == Counter(a, DISCRIMINATOR);
    assert ChannelPrefix(session, b)[|session|..] == Counter(b, DISCRIMINATOR);
  }

  // ---------- search spaces ----------

  /** Who searches: an SV1 miner, a standard job, or an extended channel, of the session with this counter value. */
  datatype Searcher =
    | Sv1(session: nat)
    | StandardJob(session: nat, counter: nat)
    | ExtendedChannel(session: nat, id: nat)

  /** The bytes that are fixed for a searcher; the rest of the template's extranonce is its own to vary. */
  function Fixed(l: Layout, s: Searcher): seq<int>
    requires LayoutOk(l)
  {
    match s
    case Sv1(v) => Session(l, v)
    case StandardJob(v, c) => StandardPrefix(l, Session(l, v), c)
    case ExtendedChannel(v, id) => ChannelPrefix(Session(l, v), id)
  }

  /** A full extranonce of a searcher. */
  predicate Searches(l: Layout, s: Searcher, full: seq<int>)
    requires LayoutOk(l)
  {
    |full| == l.size1 + l.size2 && Fixed(l, s) <= full
  }

  /** Close enough that counters cannot have come round. */
  predicate Near(u: nat, v: nat, n: nat)
  {
    u == v || u < v < u + Pow(256, n) || v < u < v + Pow(256, n)
  }

  /**
   A standard job's counter reaches into the two bytes that hold a channel's id, and has that id there. Both kinds can
   exist in one session, one after the other.
   */
  predicate Overlap(l: Layout, counter: nat, id: nat)
  {
    l.size2 >= DISCRIMINATOR && Counter(counter, l.size2)[..DISCRIMINATOR] == Counter(id, DISCRIMINATOR)
  }

  /** Different sessions, or different searchers of one session; a session speaks only one protocol. */
  predicate Apart(l: Layout, a: Searcher, b: Searcher)
    requires LayoutOk(l)
  {
    && Near(a.session, b.session, l.size1 - |l.prefix|)
    && (a.session == b.session ==>
          match (a, b)
          case (StandardJob(_, c), StandardJob(_, d)) => c != d && Near(c, d, l.size2)
          case (ExtendedChannel(_, i), ExtendedChannel(_, j)) => i != j && i <= 65535 && j <= 65535
          case (StandardJob(_, c), ExtendedChannel(_, id)) => !Overlap(l, c, id)
          case (ExtendedChannel(_, id), StandardJob(_, c)) => !Overlap(l, c, id)
          case (Sv1(_), _) => false
          case (_, Sv1(_)) => false)
  }

  lemma SessionPart(l: Layout, s: Searcher, full: seq<int>)
    requires LayoutOk(l) && Searches(l, s, full)
    ensures full[..l.size1] == Session(l, s.session)
  {
    var fixed := Fixed(l, s);
    assert fixed[..l.size1] == Session(l, s.session);
    assert full[..|fixed|] == fixed;
    assert full[..l.size1] == full[..|fixed|][..l.size1];
  }

  /** Searchers that are apart never try the same extranonce. */
  lemma SearchSpacesDisjoint(l: Layout, a: Searcher, b: Searcher, full: seq<int>)
    requires LayoutOk(l) && Apart(l, a, b) && Searches(l, a, full)
    ensures !Searches(l, b, full)
  {
    if Searches(l, b, full) {
      SessionPart(l, a, full);
      SessionPart(l, b, full);
      if a.session < b.session {
        SessionsDiffer(l, b.session, a.session);
      } else if b.session < a.session {
        SessionsDiffer(l, a.session, b.session);
      } else {
        SameSession(l, a, b, full);
      }
    }
  }

  lemma SameSession(l: Layout, a: Searcher, b: Searcher, full: seq<int>)
    requires LayoutOk(l) && Apart(l, a, b) && a.session == b.session
    ensures !(Searches(l, a, full) && Searches(l, b, full))
  {
    var session := Session(l, a.session);
    match (a, b)
    case (StandardJob(_, c), StandardJob(_, d)) =>
      if c < d {
        StandardJobsDiffer(l, session, d, c);
      } else {
        StandardJobsDiffer(l, session, c, d);
      }
      assert Fixed(l, a) != Fixed(l, b) && |Fixed(l, a)| == |Fixed(l, b)|;
    case (ExtendedChannel(_, i), ExtendedChannel(_, j)) =>
      if i < j {
        ChannelsDiffer(session, i, j);
      } else {
        ChannelsDiffer(session, j, i);
      }
      assert Fixed(l, a) != Fixed(l, b) && |Fixed(l, a)| == |Fixed(l, b)|;
    case (StandardJob(v, c), ExtendedChannel(_, id)) =>
      if Searches(l, a, full) && Searches(l, b, full) {
        MixedApart(l, v, c, id, full);
      }
    case (ExtendedChannel(v, id), StandardJob(_, c)) =>
      if Searches(l, a, full) && Searches(l, b, full) {
        MixedApart(l, v, c, id, full);
      }
  }

  // ---------- a standard job and an extended channel of one session ----------

  lemma MixedApart(l: Layout, v: nat, c: nat, id: nat, full: seq<int>)
    requires LayoutOk(l) && Searches(l, StandardJob(v, c), full) && Searches(l, ExtendedChannel(v, id), full)
    ensures Overlap(l, c, id)
  {
    var session := Session(l, v);
    assert full == session + Counter(c, l.size2);
    assert session + Counter(id, DISCRIMINATOR) <= full;
    assert full[l.size1..][..DISCRIMINATOR] == Counter(id, DISCRIMINATOR);
    assert full[l.size1..] == Counter(c, l.size2);
  }

  ghost predicate Meet(l: Layout, a: Searcher, b: Searcher)
    requires LayoutOk(l)
  {
    exists full: seq<int> :: Searches(l, a, full) && Searches(l, b, full)
  }

  /** They meet exactly when the counter has the channel's id in its two leading bytes. */
  lemma MixedMeetExactly(l: Layout, v: nat, c: nat, id: nat)
    requires LayoutOk(l)
    ensures Meet(l, StandardJob(v, c), ExtendedChannel(v, id)) <==> Overlap(l, c, id)
  {
    if Meet(l, StandardJob(v, c), ExtendedChannel(v, id)) {
      var full :| Searches(l, StandardJob(v, c), full) && Searches(l, ExtendedChannel(v, id), full);
      MixedApart(l, v, c, id, full);
    }
    if Overlap(l, c, id) {
      var full := StandardPrefix(l, Session(l, v), c);
      assert Counter(c, l.size2) == Counter(id, DISCRIMINATOR) + Counter(c, l.size2)[DISCRIMINATOR..];
      assert full == ChannelPrefix(Session(l, v), id) + Counter(c, l.size2)[DISCRIMINATOR..];
      assert Searches(l, StandardJob(v, c), full) && Searches(l, ExtendedChannel(v, id), full);
    }
  }

  lemma CounterAt(v: nat, n: nat, i: nat)
    requires i < n
    ensures Counter(v, n)[i] == v / Pow(256, n - 1 - i) % 256
  {
    DigitAt(v, n, 256, n - 1 - i);
  }

  lemma TwoDigits(q: nat, id: nat)
    requires id <= 65535
    ensures q / 256 % 256 == id / 256 % 256 && q % 256 == id % 256 <==> q % 65536 == id
  {
    LowTwoDigits(q);
    LowTwoDigits(id);
    DivModUnique(id, 65536, 0, id);
  }

  lemma LowTwoDigits(q: nat)
    ensures 0 <= q / 256 % 256 < 256 && 0 <= q % 256 < 256
    ensures q % 65536 == 256 * (q / 256 % 256) + q % 256
  {
    var a, low := q / 256, q % 256;
    Quotient(q, 256, a, low);
    Quotient(a, 256, a / 256, a % 256);
    DivModUnique(q, 65536, a / 256, 256 * (a % 256) + low);
  }

  /** In numbers: the counter, shifted down to its two leading bytes, is the id. */
  lemma OverlapInNumbers(l: Layout, c: nat, id: nat)
    requires l.size2 >= DISCRIMINATOR && id <= 65535
    ensures Overlap(l, c, id) <==> c / Pow(256, l.size2 - DISCRIMINATOR) % 65536 == id
  {
    var n := l.size2;
    var q := c / Pow(256, n - 2);
    Quotient(c, Pow(256, n - 2), q, c % Pow(256, n - 2));
    CounterAt(c, n, 0);
    CounterAt(c, n, 1);
    CounterAt(id, 2, 0);
    CounterAt(id, 2, 1);
    OneByteMore(c, Pow(256, n - 2), q);
    TwoDigits(q, id);
    var top, own := Counter(c, n)[..2], Counter(id, 2);
    assert top == own <==> top[0] == own[0] && top[1] == own[1];
  }

  lemma OneByteMore(c: nat, p: nat, q: nat)
    requires p > 0 && q == c / p
    ensures 256 * p > 0 && c / (256 * p) == q / 256
  {
    Quotient(c, p, q, c % p);
    Quotient(q, 256, q / 256, q % 256);
    var h, r, low := q / 256, q % 256, c % p;
    assert p * (256 * h + r) == (256 * p) * h + p * r;
    MulMonotone(p, r, 255);
    MulMonotone(p, 0, r);
    DivModUnique(c, 256 * p, h, p * r + low);
  }

  /** Ids start at 1, so they cannot meet while the counter fits the bytes below the id. */
  lemma ApartWhileCounterIsSmall(l: Layout, v: nat, c: nat, id: nat)
    requires LayoutOk(l) && 1 <= id <= 65535 && (l.size2 >= DISCRIMINATOR ==> c < Pow(256, l.size2 - DISCRIMINATOR))
    ensures !Meet(l, StandardJob(v, c), ExtendedChannel(v, id))
  {
    MixedMeetExactly(l, v, c, id);
    if l.size2 >= DISCRIMINATOR {
      OverlapInNumbers(l, c, id);
      DivModUnique(c, Pow(256, l.size2 - DISCRIMINATOR), 0, c);
    }
  }

  /** With two bytes the second standard job of a session and its channel 2 have the same single extranonce. */
  lemma StandardAndChannelMeet(l: Layout, v: nat)
    requires LayoutOk(l) && l.size2 == DISCRIMINATOR
    ensures Fixed(l, StandardJob(v, 2)) == Fixed(l, ExtendedChannel(v, 2))
    ensures Meet(l, StandardJob(v, 2), ExtendedChannel(v, 2))
  {
    assert Searches(l, StandardJob(v, 2), Fixed(l, StandardJob(v, 2)));
    assert Searches(l, ExtendedChannel(v, 2), Fixed(l, StandardJob(v, 2)));
  }

  /** A standard channel, which gets id 1, and a second job on it. */
  function StandardRun(l: Layout, v: nat, maximum: nat, wanted: nat, job: Channels.Source): seq<Channels.Action>
    requires LayoutOk(l)
  {
    [Channels.Open(Channels.Standard, maximum, wanted, false, StandardPrefix(l, Session(l, v), 1), 0, Some(job)),
     Channels.Prepare(1, job, StandardPrefix(l, Session(l, v), 2)), Channels.Commit(0, false)]
  }

  /** Then its end, and an extended channel, which gets id 2. */
  function ExtendedRun(l: Layout, v: nat, maximum: nat, wanted: nat, job: Channels.Source): seq<Channels.Action>
    requires LayoutOk(l) && l.size2 >= DISCRIMINATOR
  {
    [Channels.Close(1),
     Channels.Open(Channels.Extended, maximum, wanted, false, ChannelPrefix(Session(l, v), 2), l.size2 - DISCRIMINATOR,
                   Some(job))]
  }

  lemma RunAppend(actions: seq<Channels.Action>, a: Channels.Action)
    ensures Channels.Run(actions + [a]) == Channels.Apply(Channels.Run(actions), a)
  {
    assert (actions + [a])[..|actions|] == actions;
  }

  lemma StandardRunIssues(l: Layout, v: nat, maximum: nat, wanted: nat, job: Channels.Source)
    requires LayoutOk(l) && maximum > 0
    ensures var s := Channels.Run(StandardRun(l, v, maximum, wanted, job));
            && s.channels.Keys == {1} && s.nextChannel == 2 && |s.store| == 2
            && s.store[1].work == Channels.Standard && s.store[1].source == job
            && s.store[1].prefix == Fixed(l, StandardJob(v, 2))
  {
    var run := StandardRun(l, v, maximum, wanted, job);
    assert run == ([] + [run[0]]) + [run[1]] + [run[2]];
    RunAppend([], run[0]);
    RunAppend([run[0]], run[1]);
    RunAppend([run[0], run[1]], run[2]);
    var s1 := Channels.Apply(Channels.INITIAL, run[0]);
    assert s1.channels.Keys == {1} && s1.plans == [] && |s1.store| == 1;
    var s2 := Channels.Apply(s1, run[1]);
    assert |s2.plans| == 1 && s2.plans[0].prefix == StandardPrefix(l, Session(l, v), 2);
    assert [] + [run[0]] == [run[0]] && [run[0]] + [run[1]] == [run[0], run[1]];
    assert [run[0], run[1]] + [run[2]] == run;
  }

  /** Both jobs are issued, on one parent, with one extranonce between them. */
  lemma MeetingRunMeets(l: Layout, v: nat, maximum: nat, wanted: nat, job: Channels.Source)
    requires LayoutOk(l) && l.size2 == DISCRIMINATOR && maximum > 0
    ensures var s := Channels.Run(StandardRun(l, v, maximum, wanted, job) + ExtendedRun(l, v, maximum, wanted, job));
            && |s.store| == 3 && s.store[1].work == Channels.Standard && s.store[2].work == Channels.Extended
            && s.store[1].source == s.store[2].source == job
            && s.store[1].prefix == s.store[2].prefix == Fixed(l, StandardJob(v, 2)) && s.store[2].extranonceSize == 0
  {
    var first, later := StandardRun(l, v, maximum, wanted, job), ExtendedRun(l, v, maximum, wanted, job);
    StandardRunIssues(l, v, maximum, wanted, job);
    StandardAndChannelMeet(l, v);
    RunAppend(first, later[0]);
    RunAppend(first + [later[0]], later[1]);
    assert first + later == first + [later[0]] + [later[1]];
    assert Channels.Run(first + [later[0]]).channels == map[];
  }

  /** What a channel leaves to the miner fills the template exactly. */
  lemma ExtranonceFills(l: Layout, session: nat, id: nat, c: nat)
    requires LayoutOk(l) && l.size2 >= DISCRIMINATOR
    ensures |Fixed(l, ExtendedChannel(session, id))| + (l.size2 - DISCRIMINATOR) == l.size1 + l.size2
    ensures |Fixed(l, StandardJob(session, c))| == l.size1 + l.size2
    ensures |Fixed(l, Sv1(session))| + l.size2 == l.size1 + l.size2
  {
  }
}

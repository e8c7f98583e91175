/**
 Shares over whole runs of a session: a key is remembered first and the share validated then, so what a session credits
 depends on its memory and on what its keys stand for.
 */
module ShareLedger {
  import opened Options
  import opened DedupKey
  import opened ShareValidation
  import opened ShareIdentity
  import opened WorkSignature
  import M = ShareMemory

  const EMPTY: M.Memory<string> := M.Memory({}, {})

  lemma {:induction false} AfterConcat<K>(m: M.Memory<K>, a: seq<M.Event<K>>, b: seq<M.Event<K>>)
    ensures M.After(m, a + b) == M.After(M.After(m, a), b)
    decreases |a|
  {
    if a == [] {
      assert a + b == b;
    } else {
      assert (a + b)[0] == a[0] && (a + b)[1..] == a[1..] + b;
      AfterConcat(M.Next(m, a[0]), a[1..], b);
    }
  }

  /** A key that is found new again after having been remembered: two rotations lie between. */
  lemma NewTwice<K>(m: M.Memory<K>, key: K, between: seq<M.Event<K>>)
    requires !M.Known(m, key) && !M.Known(M.After(M.Next(m, M.Submit(key)), between), key)
    ensures M.Rotations(M.Next(m, M.Submit(key)), between) >= 2
  {
    var remembered := M.Next(m, M.Submit(key));
    assert key in remembered.current;
    if M.Rotations(remembered, between) <= 1 {
      M.RefusedUntilTwoRotations(remembered, key, between);
    }
  }

  // ---------- SV1 ----------

  /** What a session is given: the jobs by their ids, its extranonce, and the coinbase half it was sent for each job. */
  datatype Context = Context(pool: Pool, jobs: string -> Option<Mined>, extranonce1: seq<int>,
                             halves: string -> seq<int>)

  /** A submission with its text, and whether its job is still cached when it comes; or a clean job sent out. */
  datatype Event = Share(text: DedupKey.Share, given: Submission, cached: bool) | CleanJob

  /** It gets as far as the memory: the job is there and no field is too long. */
  predicate Arrives(c: Context, e: Event)
  {
    && e.Share? && e.cached && c.jobs(e.text.jobId).Some?
    && |e.text.extranonce2| <= 2 * c.jobs(e.text.jobId).value.extranonce2Size
    && |e.text.ntime| <= 8 && |e.text.nonce| <= 8 && (e.text.versionBits.Some? ==> |e.text.versionBits.value| <= 8)
  }

  /** What the events do to the memory. */
  function Touched(c: Context, events: seq<Event>): seq<M.Event<string>>
  {
    if events == [] then []
    else
      Touched(c, events[..|events| - 1]) + match events[|events| - 1]
                                           case CleanJob => [M.Clean]
                                           case Share(text, given, cached) =>
                                             if Arrives(c, events[|events| - 1]) then [M.Submit(Key(text))] else []
  }

  function MemoryAfter(c: Context, events: seq<Event>): M.Memory<string>
  {
    M.After(EMPTY, Touched(c, events))
  }

  /** The submission is read off its text, in this session. */
  predicate Given(c: Context, e: Event)
  {
    e.Share? ==>
      && Reads(e.text, e.given) && HexText(e.text.jobId)
      && e.given.extranonce1 == c.extranonce1 && e.given.coinbase2 == c.halves(e.text.jobId)
  }

  ghost predicate ContextOk(c: Context)
  {
    forall id: string :: c.jobs(id).Some? ==> Ready(c.pool, c.jobs(id).value)
  }

  ghost function VerdictOn(c: Context, e: Event): Verdict
    requires ContextOk(c) && Arrives(c, e)
  {
    ValidateSv1(c.pool, c.jobs(e.text.jobId).value, e.given)
  }

  /** New to the memory, and accepted. */
  ghost predicate Credited(c: Context, before: seq<Event>, e: Event)
    requires ContextOk(c)
  {
    Arrives(c, e) && !M.Known(MemoryAfter(c, before), Key(e.text)) && VerdictOn(c, e).Accepted?
  }

  lemma {:induction false} TouchedConcat(c: Context, a: seq<Event>, b: seq<Event>)
    ensures Touched(c, a + b) == Touched(c, a) + Touched(c, b)
    decreases |b|
  {
    if b == [] {
      assert a + b == a && Touched(c, a) + [] == Touched(c, a);
    } else {
      var front, e := b[..|b| - 1], b[|b| - 1];
      TouchedConcat(c, a, front);
      assert (a + b)[..|a + b| - 1] == a + front && (a + b)[|a + b| - 1] == e;
    }
  }

  lemma MemoryMovesOn(c: Context, before: seq<Event>, e: Event, between: seq<Event>)
    requires Arrives(c, e)
    ensures MemoryAfter(c, before + [e] + between)
         == M.After(M.Next(MemoryAfter(c, before), M.Submit(Key(e.text))), Touched(c, between))
  {
    TouchedConcat(c, before + [e], between);
    TouchedConcat(c, before, [e]);
    assert [e][..0] == [] && Touched(c, [e]) == [M.Submit(Key(e.text))];
    AfterConcat(EMPTY, Touched(c, before + [e]), Touched(c, between));
    AfterConcat(EMPTY, Touched(c, before), [M.Submit(Key(e.text))]);
    var m := MemoryAfter(c, before);
    assert [M.Submit(Key(e.text))][1..] == [];
    assert M.After(m, [M.Submit(Key(e.text))]) == M.Next(m, M.Submit(Key(e.text)));
  }

  lemma SameKeyOfSameWork(c: Context, e: Event, f: Event)
    requires ContextOk(c) && Given(c, e) && Given(c, f) && Arrives(c, e) && Arrives(c, f)
    requires e.text.jobId == f.text.jobId && SameWork(VerdictOn(c, e), VerdictOn(c, f))
    requires e.text.versionBits.Some? == f.text.versionBits.Some? && e.given.mask == f.given.mask
    ensures Key(e.text) == Key(f.text)
  {
    SameWorkSameKeyExactly(c.pool, c.jobs(e.text.jobId).value, e.text, e.given, f.text, f.given);
  }

  /**
   In every run of a session: when one header over one coinbase is credited twice on a job, with version bits both times
   or neither time and under one mask, the memory was rotated at least twice in between.
   */
  lemma OncePerWork(c: Context, before: seq<Event>, e: Event, between: seq<Event>, f: Event)
    requires ContextOk(c) && Given(c, e) && Given(c, f)
    requires Credited(c, before, e) && Credited(c, before + [e] + between, f)
    requires e.text.jobId == f.text.jobId && SameWork(VerdictOn(c, e), VerdictOn(c, f))
    requires e.text.versionBits.Some? == f.text.versionBits.Some? && e.given.mask == f.given.mask
    ensures M.Rotations(M.Next(MemoryAfter(c, before), M.Submit(Key(e.text))), Touched(c, between)) >= 2
  {
    SameKeyOfSameWork(c, e, f);
    MemoryMovesOn(c, before, e, between);
    NewTwice(MemoryAfter(c, before), Key(e.text), Touched(c, between));
  }

  /**
   A submission with its nonce left empty is refused, but its key, that of nonce 0, is remembered; so the share with
   nonce 0 that follows is a duplicate, although by itself it would be accepted.
   */
  lemma EmptyNonceBlocksZero(c: Context, before: seq<Event>, e: Event, f: Event)
    requires ContextOk(c) && Given(c, e) && Given(c, f) && Arrives(c, e) && Arrives(c, f)
    requires VerdictOn(c, f).Accepted? && f.given.nonce == Some(0)
    requires e.text == f.text.(nonce := []) && e.given == f.given.(nonce := None)
    ensures VerdictOn(c, e) == Rejected(MalformedField) && !Credited(c, before + [e], f)
  {
    EmptyNonceHasKeyOfZero(c.pool, c.jobs(f.text.jobId).value, f.text, f.given, e.text, e.given);
    MemoryMovesOn(c, before, e, []);
    assert before + [e] + [] == before + [e];
    assert Touched(c, []) == [];
    var m := MemoryAfter(c, before);
    assert M.Known(M.Next(m, M.Submit(Key(e.text))), Key(e.text));
  }

  // ---------- SV2 ----------

  /** The same of the shares of one issued job in an SV2 session, whose keys determine the work outright. */
  lemma Sv2OncePerWork(pool: Pool, m: Mined, w: IssuedWork, before: M.Memory<Sv2Key>, k: Sv2Key, f: Fields,
                       between: seq<M.Event<Sv2Key>>, k': Sv2Key, f': Fields)
    requires Ready(pool, m) && WorkOk(pool, m, w) && k.channel == k'.channel && k.job == k'.job
    requires Carries(k, w, f) && Carries(k', w, f')
    requires !M.Known(before, k) && !M.Known(M.After(M.Next(before, M.Submit(k)), between), k')
    requires SameWork(Verdict2(pool, m, w, k.extranonce, f), Verdict2(pool, m, w, k'.extranonce, f'))
    ensures M.Rotations(M.Next(before, M.Submit(k)), between) >= 2
  {
    Sv2SameWorkSameKey(pool, m, w, k, f, k', f');
    NewTwice(before, k, between);
  }
}

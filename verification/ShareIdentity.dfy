/**
 Which shares a session takes for the same. The keys of SV1 are made from the text of a submission and those of SV2 from
 its fields; the work is what the validator makes of them.
 */
module ShareIdentity {
  import opened Options
  import opened DedupKey
  import opened ShareValidation
  import opened WorkSignature
  import opened Numbers

  /** What `try_parse_hex_u32` reads. */
  predicate Readable(t: string)
  {
    HexText(t) && 1 <= |t| <= 8
  }

  predicate ReadsNumber(t: string, n: Option<int>)
  {
    (n.Some? <==> Readable(t)) && (n.Some? ==> n.value == Number(t))
  }

  predicate ReadsBits(t: Option<string>, bits: Option<Option<bv32>>)
  {
    && (bits.Some? <==> t.Some?)
    && (bits.Some? ==> (bits.value.Some? <==> Readable(t.value)))
    && (bits.Some? && bits.value.Some? ==> AsNumber(bits.value.value) == Number(t.value))
  }

  predicate ReadsBytes(t: string, bytes: Option<seq<int>>)
  {
    && (bytes.Some? <==> HexText(t) && |t| % 2 == 0)
    && (bytes.Some? ==> bytes.value == Bytes(t))
  }

  /** The mask is put into a key as eight lower-case digits. */
  predicate Spells(t: string, mask: bv32)
  {
    HexText(t) && |t| == 8 && Lowered(t) == t && Number(t) == AsNumber(mask)
  }

  /** What the validator is given for the text of a submission. */
  predicate Reads(t: Share, s: Submission)
  {
    && ReadsBytes(t.extranonce2, s.extranonce2) && s.extranonce2Length == |t.extranonce2|
    && ReadsNumber(t.ntime, s.ntime) && ReadsNumber(t.nonce, s.nonce)
    && ReadsBits(t.versionBits, s.versionBits) && Spells(t.mask, s.mask)
  }

  /** Two submissions to one job in one session. */
  predicate Siblings(a: Share, s: Submission, b: Share, u: Submission)
  {
    && Reads(a, s) && Reads(b, u) && HexText(a.jobId) && a.jobId == b.jobId
    && s.extranonce1 == u.extranonce1 && s.coinbase2 == u.coinbase2
  }

  lemma NumberDetermines(v: bv32, u: bv32)
    requires AsNumber(v) == AsNumber(u)
    ensures v == u
  {
    assert (v as int) as bv32 == v;
    assert (u as int) as bv32 == u;
  }

  lemma MasksSpelled(t: string, mask: bv32, r: string, other: bv32)
    requires Spells(t, mask) && Spells(r, other)
    ensures t == r <==> mask == other
  {
    if t == r {
      NumberDetermines(mask, other);
    } else if mask == other {
      NumberInjective(t, r);
    }
  }

  /** What an accepted share says about its fields. */
  lemma AcceptedFields(pool: Pool, m: Mined, s: Submission) returns (v: bv32)
    requires Ready(pool, m) && ValidateSv1(pool, m, s).Accepted?
    ensures Parsed(m, s) && IsRolled(v, m.version, s.versionBits, s.mask)
    ensures var r := ValidateSv1(pool, m, s);
            && r.header.time == s.ntime.value && r.header.nonce == s.nonce.value && r.header.version == AsNumber(v)
            && r.coinbase == Sv1Coinbase(m, s, s.extranonce2.value)
  {
    v := RollVersion(m.version, s.versionBits, s.mask).v;
    RolledIs(m.version, s.versionBits, s.mask);
  }

  lemma SameMiddle(a: seq<int>, x: seq<int>, y: seq<int>, b: seq<int>)
    requires |x| == |y| && a + x + b == a + y + b
    ensures x == y
  {
    assert (a + x + b)[|a|..|a| + |x|] == x && (a + y + b)[|a|..|a| + |y|] == y;
  }

  /** An accepted submission has the text of a share that can be compared by its key. */
  lemma AcceptedIsHex(m: Mined, t: Share, s: Submission)
    requires Reads(t, s) && Parsed(m, s) && HexText(t.jobId)
    requires s.versionBits.Some? ==> s.versionBits.value.Some?
    ensures HexShare(t)
  {
  }

  /** The same bits asked for under one mask, when the version hashed is the same. */
  lemma SameBits(v: bv32, version: bv32, a: Option<Option<bv32>>, b: Option<Option<bv32>>, mask: bv32)
    requires IsRolled(v, version, a, mask) && IsRolled(v, version, b, mask) && a.Some? && b.Some?
    ensures a == b
  {
  }

  /** One header and coinbase, asked for the same way under one mask, is one submission. */
  lemma SameWorkSameShare(m: Mined, a: Share, s: Submission, b: Share, u: Submission, v: bv32)
    requires Siblings(a, s, b, u) && Parsed(m, s) && Parsed(m, u)
    requires IsRolled(v, m.version, s.versionBits, s.mask) && IsRolled(v, m.version, u.versionBits, u.mask)
    requires s.ntime == u.ntime && s.nonce == u.nonce && s.extranonce2 == u.extranonce2
    requires s.versionBits.Some? == u.versionBits.Some? && s.mask == u.mask
    ensures HexShare(a) && HexShare(b) && SameShare(a, b)
  {
    AcceptedIsHex(m, a, s);
    AcceptedIsHex(m, b, u);
    MasksSpelled(a.mask, s.mask, b.mask, u.mask);
    if s.versionBits.Some? {
      SameBits(v, m.version, s.versionBits, u.versionBits, s.mask);
    }
  }

  /**
   Accepted submissions to one job that hash one header over one coinbase have one key exactly when they agree in
   whether they carry version bits and in the mask they were made under.
   */
  lemma SameWorkSameKeyExactly(pool: Pool, m: Mined, a: Share, s: Submission, b: Share, u: Submission)
    requires Ready(pool, m) && Siblings(a, s, b, u)
    requires ValidateSv1(pool, m, s).Accepted? && ValidateSv1(pool, m, u).Accepted?
    requires ValidateSv1(pool, m, s).header == ValidateSv1(pool, m, u).header
    requires ValidateSv1(pool, m, s).coinbase == ValidateSv1(pool, m, u).coinbase
    ensures Key(a) == Key(b) <==> a.versionBits.Some? == b.versionBits.Some? && s.mask == u.mask
  {
    var v := AcceptedFields(pool, m, s);
    var w := AcceptedFields(pool, m, u);
    NumberDetermines(v, w);
    SameMiddle(m.work.coinbase1 + s.extranonce1, s.extranonce2.value, u.extranonce2.value, s.coinbase2);
    AcceptedIsHex(m, a, s);
    AcceptedIsHex(m, b, u);
    KeysEqualIff(a, b);
    MasksSpelled(a.mask, s.mask, b.mask, u.mask);
    if a.versionBits.Some? == b.versionBits.Some? && s.mask == u.mask {
      SameWorkSameShare(m, a, s, b, u, v);
    }
  }

  predicate SameEmpty(s: string, t: string)
  {
    s == [] <==> t == []
  }

  /** Submissions with one key are judged alike, as long as a field is empty in both or in neither. */
  lemma SameKeySameVerdict(pool: Pool, m: Mined, a: Share, s: Submission, b: Share, u: Submission)
    requires Ready(pool, m) && Siblings(a, s, b, u) && HexShare(a) && HexShare(b) && Key(a) == Key(b)
    requires SameEmpty(a.ntime, b.ntime) && SameEmpty(a.nonce, b.nonce)
    requires a.versionBits.Some? && b.versionBits.Some? ==> SameEmpty(a.versionBits.value, b.versionBits.value)
    requires s.shareTarget == u.shareTarget && s.now == u.now
    ensures ValidateSv1(pool, m, s) == ValidateSv1(pool, m, u)
  {
    KeysEqualIff(a, b);
    MasksSpelled(a.mask, s.mask, b.mask, u.mask);
    BytesIff(a.extranonce2, b.extranonce2);
    if s.versionBits.Some? && s.versionBits.value.Some? {
      NumberDetermines(s.versionBits.value.value, u.versionBits.value.value);
    }
    assert s.extranonce2 == u.extranonce2 && s.ntime == u.ntime && s.nonce == u.nonce && s.versionBits == u.versionBits;
    assert |Lowered(a.extranonce2)| == |a.extranonce2| && |Lowered(b.extranonce2)| == |b.extranonce2|;
    assert s == u;
  }

  /** Nothing of it is left empty. */
  predicate Filled(t: Share)
  {
    t.ntime != [] && t.nonce != [] && (t.versionBits.Some? ==> t.versionBits.value != [])
  }

  lemma AcceptedIsFilled(pool: Pool, m: Mined, t: Share, s: Submission)
    requires Ready(pool, m) && Reads(t, s) && ValidateSv1(pool, m, s).Accepted?
    ensures Filled(t)
  {
    var v := AcceptedFields(pool, m, s);
  }

  /**
   What has the key of an accepted share is accepted too, with the same verdict, exactly when no field of it is empty.
   */
  lemma AcceptedUnderKeyExactly(pool: Pool, m: Mined, a: Share, s: Submission, b: Share, u: Submission)
    requires Ready(pool, m) && Siblings(a, s, b, u) && HexShare(a) && HexShare(b) && Key(a) == Key(b)
    requires s.shareTarget == u.shareTarget && s.now == u.now && ValidateSv1(pool, m, s).Accepted?
    ensures ValidateSv1(pool, m, u).Accepted? <==> Filled(b)
    ensures Filled(b) ==> ValidateSv1(pool, m, u) == ValidateSv1(pool, m, s)
  {
    AcceptedIsFilled(pool, m, a, s);
    if Filled(b) {
      SameKeySameVerdict(pool, m, a, s, b, u);
    } else if ValidateSv1(pool, m, u).Accepted? {
      AcceptedIsFilled(pool, m, b, u);
    }
  }

  /** A share with nonce 0 and the same one with the nonce left empty: one key, and the second is malformed. */
  lemma EmptyNonceHasKeyOfZero(pool: Pool, m: Mined, a: Share, s: Submission, b: Share, u: Submission)
    requires Ready(pool, m) && Siblings(a, s, b, u) && ValidateSv1(pool, m, s).Accepted?
    requires s.nonce == Some(0) && b == a.(nonce := []) && u == s.(nonce := None)
    ensures Key(a) == Key(b) && ValidateSv1(pool, m, u) == Rejected(MalformedField)
  {
    var v := AcceptedFields(pool, m, s);
    AcceptedIsHex(m, a, s);
    KeysEqualIff(a, b);
  }

  lemma OwnBits(version: bv32, mask: bv32)
    requires mask != 0
    ensures RollVersion(version, Some(Some(version & mask)), mask) == Version(version)
  {
    MaskSplits(version, mask);
  }

  /**
   Leaving the version bits out and asking for those the job has anyway is the same work: one verdict, and yet two keys.
   */
  lemma OneWorkTwoKeys(pool: Pool, m: Mined, a: Share, s: Submission, b: Share, u: Submission)
    requires Ready(pool, m) && Siblings(a, s, b, u) && ValidateSv1(pool, m, s).Accepted? && s.mask != 0
    requires s.versionBits == None && u == s.(versionBits := Some(Some(m.version & s.mask)))
    ensures ValidateSv1(pool, m, u) == ValidateSv1(pool, m, s) && Key(a) != Key(b)
  {
    OwnBits(m.version, s.mask);
    SameWorkSameKeyExactly(pool, m, a, s, b, u);
  }

  // ---------- SV2 ----------

  /** `ShareKey` */
  datatype Sv2Key = Sv2Key(channel: nat, job: nat, nonce: nat, ntime: nat, version: nat, extranonce: seq<byte>)

  /** What a job was issued with: standard work, or extended work and the prefix and size of its extranonce. */
  datatype IssuedWork =
    | OnStandard(work: StandardWork)
    | OnExtended(extended: ExtendedWork, prefix: seq<byte>, size: nat)

  predicate WorkOk(pool: Pool, m: Mined, w: IssuedWork)
  {
    w.OnStandard? ==> Sound(pool, m, w.work.root)
  }

  /** The verdict on a share; a standard one carries no extranonce. */
  ghost function Verdict2(pool: Pool, m: Mined, w: IssuedWork, extranonce: seq<byte>, f: Fields): Verdict
    requires Ready(pool, m) && WorkOk(pool, m, w)
  {
    match w
    case OnStandard(work) => ValidateStandard(pool, m, work.coinbase, work.root, f)
    case OnExtended(extended, prefix, size) => ValidateExtended(pool, m, extended, prefix, extranonce, size, f)
  }

  predicate Carries(k: Sv2Key, w: IssuedWork, f: Fields)
  {
    k.nonce == f.nonce && k.ntime == f.ntime && k.version == AsNumber(f.version)
        && (w.OnStandard? ==> k.extranonce == [])
  }

  lemma Sv2AcceptedFields(pool: Pool, m: Mined, w: IssuedWork, x: seq<byte>, f: Fields)
    requires Ready(pool, m) && WorkOk(pool, m, w) && Verdict2(pool, m, w, x, f).Accepted?
    ensures var v := Verdict2(pool, m, w, x, f);
            && v.header.time == f.ntime && v.header.nonce == f.nonce && v.header.version == AsNumber(f.version)
            && (w.OnStandard? ==> v.coinbase == w.work.coinbase && v.header.merkleRoot == w.work.root)
            && (w.OnExtended? ==> |x| == w.size && v.coinbase == ExtendedCoinbase(w.extended, w.prefix, x))
  {
    if w.OnExtended? {
      ExtendedReduces(pool, m, w.extended, w.prefix, x, w.size, f);
    }
  }

  lemma SameHeaderSameKey(pool: Pool, m: Mined, w: IssuedWork, x: seq<byte>, f: Fields, x': seq<byte>, f': Fields)
    requires Ready(pool, m) && WorkOk(pool, m, w)
    requires Verdict2(pool, m, w, x, f).Accepted? && Verdict2(pool, m, w, x', f').Accepted?
    requires Verdict2(pool, m, w, x, f).header == Verdict2(pool, m, w, x', f').header
    requires Verdict2(pool, m, w, x, f).coinbase == Verdict2(pool, m, w, x', f').coinbase
    ensures f.nonce == f'.nonce && f.ntime == f'.ntime && AsNumber(f.version) == AsNumber(f'.version)
    ensures w.OnExtended? ==> x == x'
  {
    Sv2AcceptedFields(pool, m, w, x, f);
    Sv2AcceptedFields(pool, m, w, x', f');
    if w.OnExtended? {
      SameMiddle(w.extended.prefix + w.prefix, x, x', w.extended.suffix);
    }
  }

  /** One header over one coinbase. */
  predicate SameWork(v: Verdict, v': Verdict)
  {
    v.Accepted? && v'.Accepted? && v.header == v'.header && v.coinbase == v'.coinbase
  }

  lemma Sv2SameWorkSameKey(pool: Pool, m: Mined, w: IssuedWork, k: Sv2Key, f: Fields, k': Sv2Key, f': Fields)
    requires Ready(pool, m) && WorkOk(pool, m, w) && k.channel == k'.channel && k.job == k'.job
    requires Carries(k, w, f) && Carries(k', w, f')
    requires SameWork(Verdict2(pool, m, w, k.extranonce, f), Verdict2(pool, m, w, k'.extranonce, f'))
    ensures k == k'
  {
    SameHeaderSameKey(pool, m, w, k.extranonce, f, k'.extranonce, f');
  }

  lemma Sv2SameKeySameWork(pool: Pool, m: Mined, w: IssuedWork, k: Sv2Key, f: Fields, f': Fields)
    requires Ready(pool, m) && WorkOk(pool, m, w) && Carries(k, w, f) && Carries(k, w, f')
    requires Verdict2(pool, m, w, k.extranonce, f).Accepted? && Verdict2(pool, m, w, k.extranonce, f').Accepted?
    ensures SameWork(Verdict2(pool, m, w, k.extranonce, f), Verdict2(pool, m, w, k.extranonce, f'))
  {
    NumberDetermines(f.version, f'.version);
    SameKeySameHeader(pool, m, w, k.extranonce, f, f');
  }

  /** Accepted shares of one issued job are the same work exactly when they have the same key. */
  lemma Sv2SameWorkSameKeyExactly(pool: Pool, m: Mined, w: IssuedWork, k: Sv2Key, f: Fields, k': Sv2Key, f': Fields)
    requires Ready(pool, m) && WorkOk(pool, m, w) && k.channel == k'.channel && k.job == k'.job
    requires Carries(k, w, f) && Carries(k', w, f')
    requires Verdict2(pool, m, w, k.extranonce, f).Accepted? && Verdict2(pool, m, w, k'.extranonce, f').Accepted?
    ensures k == k' <==> SameWork(Verdict2(pool, m, w, k.extranonce, f), Verdict2(pool, m, w, k'.extranonce, f'))
  {
    if k == k' {
      Sv2SameKeySameWork(pool, m, w, k, f, f');
    } else if SameWork(Verdict2(pool, m, w, k.extranonce, f), Verdict2(pool, m, w, k'.extranonce, f')) {
      Sv2SameWorkSameKey(pool, m, w, k, f, k', f');
    }
  }

  lemma SameKeySameHeader(pool: Pool, m: Mined, w: IssuedWork, x: seq<byte>, f: Fields, f': Fields)
    requires Ready(pool, m) && WorkOk(pool, m, w)
    requires f.nonce == f'.nonce && f.ntime == f'.ntime && f.version == f'.version
    requires Verdict2(pool, m, w, x, f).Accepted? && Verdict2(pool, m, w, x, f').Accepted?
    ensures Verdict2(pool, m, w, x, f).header == Verdict2(pool, m, w, x, f').header
    ensures Verdict2(pool, m, w, x, f).coinbase == Verdict2(pool, m, w, x, f').coinbase
  {
    if w.OnExtended? {
      ExtendedReduces(pool, m, w.extended, w.prefix, x, w.size, f);
      ExtendedReduces(pool, m, w.extended, w.prefix, x, w.size, f');
    }
  }
}

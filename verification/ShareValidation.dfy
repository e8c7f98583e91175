/** The three share validators of a job, and the block an accepted share stands for. */
module ShareValidation {
  import opened Numbers
  import opened Options
  import opened Wire
  import opened BlockAssembly
  import opened WorkSignature
  import Difficulty
  import Merkle

  const NTIME_SLACK := 7200
  const NTIME_MARGIN := 120

  datatype Reason =
    | InvalidExtranonce2Size | MalformedField | NtimeOutOfRange | MalformedVersionBits
    | VersionRollingNotNegotiated | VersionBitsOutsideMask | AboveTarget

  datatype Verdict = Accepted(header: Header, coinbase: seq<byte>, isBlock: bool) | Rejected(reason: Reason)

  /** A job as the validators see it; `version` is that of its work, bit by bit. */
  datatype Mined = Mined(work: Work, version: bv32, extranonceSize: nat, extranonce2Size: nat)

  /** The target the job's compact bits denote. */
  function NetworkTarget(pool: Pool, m: Mined): nat
  {
    Difficulty.CompactValue(pool.bits(m.work.bitsHex))
  }

  function AsNumber(v: bv32): u32
  {
    v as int
  }

  predicate NtimeOk(m: Mined, ntime: nat, now: int)
  {
    m.work.time <= ntime <= now + NTIME_SLACK - NTIME_MARGIN
  }

  function HeaderOf(pool: Pool, m: Mined, root: seq<byte>, ntime: u32, nonce: u32, version: bv32): Header
  {
    Header(AsNumber(version), m.work.prevhash, root, ntime, pool.bits(m.work.bitsHex), nonce)
  }

  function HashValue(pool: Pool, h: Header): nat
    requires HeaderOk(h)
  {
    FromLittleEndian(pool.hash(WriteHeader(h)))
  }

  predicate Sound(pool: Pool, m: Mined, root: seq<byte>)
  {
    |m.work.prevhash| == 32 && |root| == 32
  }

  /** `validate_header` */
  function ValidateHeader(pool: Pool, m: Mined, coinbase: seq<byte>, root: seq<byte>, ntime: u32, nonce: u32,
                          version: bv32,
                          shareTarget: nat): Verdict
    requires Sound(pool, m, root)
  {
    var h := HeaderOf(pool, m, root, ntime, nonce, version);
    var isBlock := HashValue(pool, h) <= NetworkTarget(pool, m);
    if !isBlock && HashValue(pool, h) > shareTarget then Rejected(AboveTarget) else Accepted(h, coinbase, isBlock)
  }

  /** An SV1 submission; a field that does not parse is missing. */
  datatype Submission = Submission(
    coinbase2: seq<byte>, extranonce1: seq<byte>, extranonce2Length: nat, extranonce2: Option<seq<byte>>,
    ntime: Option<u32>, nonce: Option<u32>, versionBits: Option<Option<bv32>>, mask: bv32, shareTarget: nat, now: int)

  /** The version to hash, or why the bits are refused. */
  datatype Rolled = Version(v: bv32) | Refused(reason: Reason)

  function RollVersion(version: bv32, bits: Option<Option<bv32>>, mask: bv32): Rolled
  {
    if bits.None? then Version(version)
    else if bits.value.None? then Refused(MalformedVersionBits)
    else
      var rolled := bits.value.value;
      if mask == 0 then (if rolled != 0 then Refused(VersionRollingNotNegotiated) else Version(version))
      else if rolled & !mask != 0 then Refused(VersionBitsOutsideMask)
      else Version((version & !mask) | (rolled & mask))
  }

  /** Rolling changes only bits under the mask, and to the bits that were asked for. */
  lemma RollStaysUnderMask(version: bv32, bits: Option<Option<bv32>>, mask: bv32)
    requires RollVersion(version, bits, mask).Version?
    ensures RollVersion(version, bits, mask).v & !mask == version & !mask
    ensures bits.Some? && mask != 0 ==>
              RollVersion(version, bits, mask).v & mask == bits.value.value && bits.value.value & !mask == 0
  {
    if bits.Some? && mask != 0 {
      var rolled := bits.value.value;
      MaskedBits(version, rolled, mask);
    }
  }

  lemma MaskedBits(v: bv32, r: bv32, m: bv32)
    requires r & !m == 0
    ensures ((v & !m) | (r & m)) & !m == v & !m
    ensures ((v & !m) | (r & m)) & m == r
  {
    OutsideMask(v, r, m);
    InsideMask(v, r, m);
    WholeUnderMask(r, m);
  }

  lemma OutsideMask(v: bv32, r: bv32, m: bv32)
    ensures ((v & !m) | (r & m)) & !m == v & !m
  {
  }

  lemma InsideMask(v: bv32, r: bv32, m: bv32)
    ensures ((v & !m) | (r & m)) & m == r & m
  {
  }

  lemma WholeUnderMask(r: bv32, m: bv32)
    requires r & !m == 0
    ensures r & m == r
  {
  }

  // ---------- the validators ----------

  /** Hashes are 32 bytes. */
  ghost predicate Hashes(pool: Pool)
  {
    (forall s: seq<byte> :: |pool.hash(s)| == 32) && (forall a: seq<byte>, b: seq<byte> :: |pool.pair(a, b)| == 32)
  }

  lemma {:induction false} FoldSize(pool: Pool, node: seq<byte>, branch: seq<seq<byte>>)
    requires Hashes(pool) && |node| == 32
    ensures |Merkle.Fold(pool.pair, node, branch)| == 32
    decreases |branch|
  {
    if branch != [] {
      FoldSize(pool, pool.pair(node, branch[0]), branch[1..]);
    }
  }

  lemma RootSize(pool: Pool, m: Mined, coinbase: seq<byte>)
    requires Hashes(pool) && |m.work.prevhash| == 32
    ensures Sound(pool, m, MerkleRoot(pool, m.work, coinbase))
  {
    FoldSize(pool, pool.hash(coinbase), m.work.branch);
  }

  ghost predicate Ready(pool: Pool, m: Mined)
  {
    Hashes(pool) && |m.work.prevhash| == 32 && AsNumber(m.version) == m.work.version
  }

  function Sv1Coinbase(m: Mined, s: Submission, extranonce2: seq<byte>): seq<byte>
  {
    m.work.coinbase1 + s.extranonce1 + extranonce2 + s.coinbase2
  }

  /** `validate_share` */
  ghost function ValidateSv1(pool: Pool, m: Mined, s: Submission): Verdict
    requires Ready(pool, m)
  {
    if s.extranonce2Length > 2 * m.extranonce2Size then Rejected(InvalidExtranonce2Size)
    else if s.extranonce2.None? || s.ntime.None? || s.nonce.None? then Rejected(MalformedField)
    else if |s.extranonce2.value| != m.extranonce2Size then Rejected(InvalidExtranonce2Size)
    else if !NtimeOk(m, s.ntime.value, s.now) then Rejected(NtimeOutOfRange)
    else
      var version := RollVersion(m.version, s.versionBits, s.mask);
      if version.Refused? then Rejected(version.reason)
      else
        var coinbase := Sv1Coinbase(m, s, s.extranonce2.value);
        RootSize(pool, m, coinbase);
        ValidateHeader(pool, m, coinbase, MerkleRoot(pool, m.work, coinbase), s.ntime.value, s.nonce.value, version.v,
                       s.shareTarget)
  }

  /** What an SV2 share carries beside its work. */
  datatype Fields = Fields(ntime: u32, nonce: u32, version: bv32, mask: bv32, shareTarget: nat, now: int)

  /** `validate_standard_share` */
  function ValidateStandard(pool: Pool, m: Mined, coinbase: seq<byte>, root: seq<byte>, f: Fields): Verdict
    requires Sound(pool, m, root)
  {
    if !NtimeOk(m, f.ntime, f.now) then Rejected(NtimeOutOfRange)
    else if f.version & !f.mask != m.version & !f.mask then Rejected(VersionBitsOutsideMask)
    else ValidateHeader(pool, m, coinbase, root, f.ntime, f.nonce, f.version, f.shareTarget)
  }

  /** `build_standard_work` : the coinbase and root of a whole-extranonce prefix. */
  datatype StandardWork = StandardWork(coinbase: seq<byte>, root: seq<byte>)

  function BuildStandard(pool: Pool, m: Mined, payout: seq<byte>, prefix: seq<byte>): Option<StandardWork>
  {
    if |prefix| != m.extranonceSize then None
    else
      var coinbase := ShareCoinbase(pool, m.work, payout, prefix);
      Some(StandardWork(coinbase, MerkleRoot(pool, m.work, coinbase)))
  }

  /** `build_extended_work` */
  datatype ExtendedWork = ExtendedWork(prefix: seq<byte>, suffix: seq<byte>, path: seq<seq<byte>>)

  function BuildExtended(pool: Pool, m: Mined, payout: seq<byte>): ExtendedWork
  {
    ExtendedWork(m.work.coinbase1, Coinbase2(pool.payouts(m.work.value, payout) + m.work.required, m.work.tag,
                                             m.work.sequence, m.work.lockTime), m.work.branch)
  }

  /** `validate_extended_share` */
  ghost function ValidateExtended(pool: Pool, m: Mined, w: ExtendedWork, prefix: seq<byte>, extranonce: seq<byte>,
                                  size: nat, f: Fields): Verdict
    requires Ready(pool, m)
  {
    if |extranonce| != size || |prefix| > m.extranonceSize || size != m.extranonceSize as int - |prefix|
    then Rejected(InvalidExtranonce2Size)
    else
      var coinbase := ExtendedCoinbase(w, prefix, extranonce);
      FoldSize(pool, pool.hash(coinbase), w.path);
      ValidateStandard(pool, m, coinbase, Merkle.Fold(pool.pair, pool.hash(coinbase), w.path), f)
  }

  // ---------- what acceptance means ----------

  /**
   The header hashes low enough, carries this job's parent, bits and time window, and its version differs from the
   job's only under the mask; its root is the coinbase folded through the job's branch.
   */
  ghost predicate Vouches(pool: Pool, m: Mined, v: Verdict, mask: bv32, shareTarget: nat, now: int)
    requires v.Accepted?
  {
    && HeaderOk(v.header)
    && v.header.prevhash == m.work.prevhash && v.header.bits == pool.bits(m.work.bitsHex)
    && NtimeOk(m, v.header.time, now)
    && (exists version: bv32 :: v.header.version == AsNumber(version) && version & !mask == m.version & !mask)
    && v.header.merkleRoot == MerkleRoot(pool, m.work, v.coinbase)
    && (v.isBlock <==> HashValue(pool, v.header) <= Difficulty.CompactValue(v.header.bits))
    && (HashValue(pool, v.header) <= shareTarget || v.isBlock)
  }

  lemma HeaderVouches(pool: Pool, m: Mined, coinbase: seq<byte>, ntime: u32, nonce: u32, version: bv32, mask: bv32,
                      shareTarget: nat, now: int)
    requires Ready(pool, m) && NtimeOk(m, ntime, now) && version & !mask == m.version & !mask
    requires Sound(pool, m, MerkleRoot(pool, m.work, coinbase))
    ensures var v := ValidateHeader(pool, m, coinbase, MerkleRoot(pool, m.work, coinbase), ntime, nonce, version,
                                    shareTarget);
            v.Accepted? ==> Vouches(pool, m, v, mask, shareTarget, now) && v.coinbase == coinbase
  {
  }

  lemma Sv1Vouches(pool: Pool, m: Mined, s: Submission)
    requires Ready(pool, m) && ValidateSv1(pool, m, s).Accepted?
    ensures Vouches(pool, m, ValidateSv1(pool, m, s), s.mask, s.shareTarget, s.now)
    ensures s.extranonce2.Some? && |s.extranonce2.value| == m.extranonce2Size
    ensures ValidateSv1(pool, m, s).coinbase == Sv1Coinbase(m, s, s.extranonce2.value)
  {
    var coinbase := Sv1Coinbase(m, s, s.extranonce2.value);
    RootSize(pool, m, coinbase);
    RollStaysUnderMask(m.version, s.versionBits, s.mask);
    HeaderVouches(pool, m, coinbase, s.ntime.value, s.nonce.value, RollVersion(m.version, s.versionBits, s.mask).v,
                  s.mask,
                  s.shareTarget, s.now);
  }

  lemma StandardAccepted(pool: Pool, m: Mined, coinbase: seq<byte>, root: seq<byte>, f: Fields)
    requires Ready(pool, m) && Sound(pool, m, root) && root == MerkleRoot(pool, m.work, coinbase)
    requires ValidateStandard(pool, m, coinbase, root, f).Accepted?
    ensures Vouches(pool, m, ValidateStandard(pool, m, coinbase, root, f), f.mask, f.shareTarget, f.now)
    ensures ValidateStandard(pool, m, coinbase, root, f).coinbase == coinbase
  {
    HeaderVouches(pool, m, coinbase, f.ntime, f.nonce, f.version, f.mask, f.shareTarget, f.now);
  }

  lemma StandardVouches(pool: Pool, m: Mined, payout: seq<byte>, prefix: seq<byte>, w: StandardWork, f: Fields)
    requires Ready(pool, m) && BuildStandard(pool, m, payout, prefix) == Some(w)
    ensures Sound(pool, m, w.root) && |prefix| == m.extranonceSize
    ensures w.coinbase == ShareCoinbase(pool, m.work, payout, prefix)
    ensures var v := ValidateStandard(pool, m, w.coinbase, w.root, f);
            v.Accepted? ==> Vouches(pool, m, v, f.mask, f.shareTarget, f.now) && v.coinbase == w.coinbase
  {
    RootSize(pool, m, w.coinbase);
    if ValidateStandard(pool, m, w.coinbase, w.root, f).Accepted? {
      StandardAccepted(pool, m, w.coinbase, w.root, f);
    }
  }

  /** The coinbase an extended share assembles. */
  function ExtendedCoinbase(w: ExtendedWork, prefix: seq<byte>, extranonce: seq<byte>): seq<byte>
  {
    w.prefix + prefix + extranonce + w.suffix
  }

  lemma ExtendedReduces(pool: Pool, m: Mined, w: ExtendedWork, prefix: seq<byte>, extranonce: seq<byte>, size: nat,
                        f: Fields)
    requires Ready(pool, m) && ValidateExtended(pool, m, w, prefix, extranonce, size, f).Accepted?
    ensures |prefix| + |extranonce| == m.extranonceSize
    ensures var coinbase := ExtendedCoinbase(w, prefix, extranonce);
            var root := Merkle.Fold(pool.pair, pool.hash(coinbase), w.path);
            && Sound(pool, m, root)
            && ValidateExtended(pool, m, w, prefix, extranonce, size, f) == ValidateStandard(pool, m, coinbase, root, f)
  {
    FoldSize(pool, pool.hash(ExtendedCoinbase(w, prefix, extranonce)), w.path);
  }

  lemma ExtendedCoinbaseIs(pool: Pool, m: Mined, payout: seq<byte>, prefix: seq<byte>, extranonce: seq<byte>)
    ensures ExtendedCoinbase(BuildExtended(pool, m, payout), prefix, extranonce)
         == ShareCoinbase(pool, m.work, payout, prefix + extranonce)
  {
  }

  lemma ExtendedVouches(pool: Pool, m: Mined, w: ExtendedWork, payout: seq<byte>, prefix: seq<byte>,
                        extranonce: seq<byte>, size: nat, f: Fields, v: Verdict)
    requires Ready(pool, m) && w == BuildExtended(pool, m, payout)
    requires v == ValidateExtended(pool, m, w, prefix, extranonce, size, f) && v.Accepted?
    ensures Vouches(pool, m, v, f.mask, f.shareTarget, f.now)
    ensures |prefix + extranonce| == m.extranonceSize
    ensures v.coinbase == ShareCoinbase(pool, m.work, payout, prefix + extranonce)
  {
    var coinbase := ExtendedCoinbase(w, prefix, extranonce);
    ExtendedReduces(pool, m, w, prefix, extranonce, size, f);
    ExtendedCoinbaseIs(pool, m, payout, prefix, extranonce);
    StandardAccepted(pool, m, coinbase, Merkle.Fold(pool.pair, pool.hash(coinbase), w.path), f);
  }

  // ---------- acceptance is exactly this ----------

  /** The header assembled around a coinbase hashes under the share's or the network's target. */
  ghost predicate LowEnough(pool: Pool, m: Mined, coinbase: seq<byte>, f: Fields)
    requires Ready(pool, m)
  {
    RootSize(pool, m, coinbase);
    var hash := HashValue(pool, HeaderOf(pool, m, MerkleRoot(pool, m.work, coinbase), f.ntime, f.nonce, f.version));
    hash <= f.shareTarget || hash <= NetworkTarget(pool, m)
  }

  /** Time in the window, version as the job's outside the mask, hash low enough. */
  ghost predicate Passes(pool: Pool, m: Mined, coinbase: seq<byte>, f: Fields)
    requires Ready(pool, m)
  {
    NtimeOk(m, f.ntime, f.now) && f.version & !f.mask == m.version & !f.mask && LowEnough(pool, m, coinbase, f)
  }

  /** The bits asked for under the mask, the job's own elsewhere. */
  predicate IsRolled(v: bv32, version: bv32, bits: Option<Option<bv32>>, mask: bv32)
  {
    && (bits.None? ==> v == version)
    && (bits.Some? ==> bits.value.Some? && v & mask == bits.value.value && v & !mask == version & !mask)
  }

  lemma MaskSplits(v: bv32, mask: bv32)
    ensures v == (v & !mask) | (v & mask) && (v & mask) & !mask == 0 && (v & mask) & mask == v & mask
  {
  }

  lemma NoMask(v: bv32)
    ensures v & 0 == 0 && v & !0 == v
  {
  }

  lemma RolledIs(version: bv32, bits: Option<Option<bv32>>, mask: bv32)
    requires RollVersion(version, bits, mask).Version?
    ensures IsRolled(RollVersion(version, bits, mask).v, version, bits, mask)
  {
    if bits.Some? {
      if mask == 0 {
        NoMask(version);
      } else {
        RollStaysUnderMask(version, bits, mask);
      }
    }
  }

  lemma RolledOnlyMasked(v: bv32, version: bv32, r: bv32, mask: bv32)
    requires mask != 0 && v & mask == r && v & !mask == version & !mask
    ensures RollVersion(version, Some(Some(r)), mask) == Version(v)
  {
    MaskSplits(v, mask);
  }

  lemma RolledOnlyUnmasked(v: bv32, version: bv32, r: bv32)
    requires v & 0 == r && v & !0 == version & !0
    ensures RollVersion(version, Some(Some(r)), 0) == Version(v)
  {
    NoMask(v);
    NoMask(version);
  }

  lemma RolledOnly(v: bv32, version: bv32, bits: Option<Option<bv32>>, mask: bv32)
    requires IsRolled(v, version, bits, mask)
    ensures RollVersion(version, bits, mask) == Version(v)
  {
    if bits.Some? {
      if mask == 0 {
        RolledOnlyUnmasked(v, version, bits.value.value);
      } else {
        RolledOnlyMasked(v, version, bits.value.value, mask);
      }
    }
  }

  predicate Parsed(m: Mined, s: Submission)
  {
    && s.extranonce2Length <= 2 * m.extranonce2Size && s.extranonce2.Some? && |s.extranonce2.value| == m.extranonce2Size
    && s.ntime.Some? && s.nonce.Some?
  }

  function AsFields(s: Submission, version: bv32): Fields
    requires s.ntime.Some? && s.nonce.Some?
  {
    Fields(s.ntime.value, s.nonce.value, version, s.mask, s.shareTarget, s.now)
  }

  lemma Sv1AcceptedPasses(pool: Pool, m: Mined, s: Submission) returns (v: bv32)
    requires Ready(pool, m) && ValidateSv1(pool, m, s).Accepted?
    ensures Parsed(m, s) && IsRolled(v, m.version, s.versionBits, s.mask)
    ensures Passes(pool, m, Sv1Coinbase(m, s, s.extranonce2.value), AsFields(s, v))
  {
    v := RollVersion(m.version, s.versionBits, s.mask).v;
    RolledIs(m.version, s.versionBits, s.mask);
    RollStaysUnderMask(m.version, s.versionBits, s.mask);
  }

  lemma Sv1PassesAccepted(pool: Pool, m: Mined, s: Submission, v: bv32)
    requires Ready(pool, m) && Parsed(m, s) && RollVersion(m.version, s.versionBits, s.mask) == Version(v)
    requires Passes(pool, m, Sv1Coinbase(m, s, s.extranonce2.value), AsFields(s, v))
    ensures ValidateSv1(pool, m, s).Accepted?
  {
  }

  /** An SV1 share is accepted exactly when its fields parse and some version that carries the bits asked for passes. */
  lemma Sv1AcceptsExactly(pool: Pool, m: Mined, s: Submission)
    requires Ready(pool, m)
    ensures ValidateSv1(pool, m, s).Accepted? <==>
            && Parsed(m, s)
            && exists v: bv32 :: IsRolled(v, m.version, s.versionBits, s.mask)
                                 && Passes(pool, m, Sv1Coinbase(m, s, s.extranonce2.value), AsFields(s, v))
  {
    if ValidateSv1(pool, m, s).Accepted? {
      var v := Sv1AcceptedPasses(pool, m, s);
    } else if Parsed(m, s) {
      forall v: bv32 | IsRolled(v, m.version, s.versionBits, s.mask)
        ensures !Passes(pool, m, Sv1Coinbase(m, s, s.extranonce2.value), AsFields(s, v))
      {
        RolledOnly(v, m.version, s.versionBits, s.mask);
        if Passes(pool, m, Sv1Coinbase(m, s, s.extranonce2.value), AsFields(s, v)) {
          Sv1PassesAccepted(pool, m, s, v);
        }
      }
    }
  }

  /** A share on an extended job's work: exactly when prefix and extranonce fill the template and the whole passes. */
  lemma ExtendedAcceptsExactly(pool: Pool, m: Mined, payout: seq<byte>, prefix: seq<byte>, extranonce: seq<byte>,
                               size: nat, f: Fields)
    requires Ready(pool, m)
    ensures ValidateExtended(pool, m, BuildExtended(pool, m, payout), prefix, extranonce, size, f).Accepted? <==>
            && |extranonce| == size && |prefix| + |extranonce| == m.extranonceSize
            && Passes(pool, m, ShareCoinbase(pool, m.work, payout, prefix + extranonce), f)
  {
    var w := BuildExtended(pool, m, payout);
    ExtendedCoinbaseIs(pool, m, payout, prefix, extranonce);
    RootSize(pool, m, ExtendedCoinbase(w, prefix, extranonce));
  }

  // ---------- the three validators agree ----------

  /** However a whole extranonce is cut in two, the extended validator decides as the standard one does on the whole. */
  lemma ExtendedIsStandard(pool: Pool, m: Mined, payout: seq<byte>, prefix: seq<byte>, extranonce: seq<byte>, f: Fields)
    requires Ready(pool, m) && |prefix| + |extranonce| == m.extranonceSize
    ensures BuildStandard(pool, m, payout, prefix + extranonce).Some?
    ensures var w := BuildStandard(pool, m, payout, prefix + extranonce).value;
            && Sound(pool, m, w.root)
            && ValidateExtended(pool, m, BuildExtended(pool, m, payout), prefix, extranonce, |extranonce|, f)
               == ValidateStandard(pool, m, w.coinbase, w.root, f)
  {
    var w := BuildStandard(pool, m, payout, prefix + extranonce).value;
    ExtendedCoinbaseIs(pool, m, payout, prefix, extranonce);
    RootSize(pool, m, w.coinbase);
  }

  /** The second half of the coinbase, as `coinbase2_for` gives it to an SV1 session. */
  function SecondHalf(pool: Pool, m: Mined, payout: seq<byte>): seq<byte>
  {
    Coinbase2(pool.payouts(m.work.value, payout) + m.work.required, m.work.tag, m.work.sequence, m.work.lockTime)
  }

  lemma Sv1CoinbaseIs(pool: Pool, m: Mined, s: Submission, payout: seq<byte>, extranonce2: seq<byte>)
    requires s.coinbase2 == SecondHalf(pool, m, payout)
    ensures Sv1Coinbase(m, s, extranonce2) == ShareCoinbase(pool, m.work, payout, s.extranonce1 + extranonce2)
  {
    assert m.work.coinbase1 + s.extranonce1 + extranonce2 == m.work.coinbase1 + (s.extranonce1 + extranonce2);
  }

  /** And the SV1 validator as the standard one does with the rolled version. */
  lemma Sv1IsStandard(pool: Pool, m: Mined, s: Submission, payout: seq<byte>, v: bv32)
    requires Ready(pool, m) && Parsed(m, s) && RollVersion(m.version, s.versionBits, s.mask) == Version(v)
    requires s.coinbase2 == SecondHalf(pool, m, payout) && |s.extranonce1| + m.extranonce2Size == m.extranonceSize
    ensures BuildStandard(pool, m, payout, s.extranonce1 + s.extranonce2.value).Some?
    ensures var w := BuildStandard(pool, m, payout, s.extranonce1 + s.extranonce2.value).value;
            && Sound(pool, m, w.root)
            && ValidateSv1(pool, m, s) == ValidateStandard(pool, m, w.coinbase, w.root, AsFields(s, v))
  {
    var w := BuildStandard(pool, m, payout, s.extranonce1 + s.extranonce2.value).value;
    Sv1CoinbaseIs(pool, m, s, payout, s.extranonce2.value);
    RootSize(pool, m, w.coinbase);
    RollStaysUnderMask(m.version, s.versionBits, s.mask);
  }

  // ---------- the block of an accepted share ----------

  /**
   What a template contributes to a block: the start of its scriptSig, the coinbase version, the ids of its transactions
   (the branch was made with `zero` in the coinbase's place), their number and their bytes.
   */
  datatype Template = Template(scriptPrefix: seq<byte>, coinbaseVersion: u32, zero: seq<byte>, ids: seq<seq<byte>>,
                               count: u32, data: seq<byte>)

  /** The job was built from the template, and its outputs and witness can be serialized. */
  ghost predicate BuiltFrom(pool: Pool, m: Mined, t: Template, payout: seq<byte>)
  {
    && m.work.branch == Merkle.Branch(pool.pair, [t.zero] + t.ids)
    && Coinbase1(t.scriptPrefix, m.extranonceSize, m.work.tag, t.coinbaseVersion) == Some(m.work.coinbase1)
    && OutputsFit(pool.payouts(m.work.value, payout) + m.work.required)
    && (m.work.proof.Some? ==> |m.work.proof.value| == 32)
  }

  /** `build_block_hex`, before it is turned into text. */
  function BlockBytes(m: Mined, t: Template, v: Verdict): Option<seq<byte>>
    requires v.Accepted? && HeaderOk(v.header)
  {
    var coinbase := if m.work.proof.None? then Some(v.coinbase) else WithWitness(v.coinbase, m.work.proof.value);
    if coinbase.None? then None else Some(BuildBlock(WriteHeader(v.header), t.count, coinbase.value, t.data))
  }

  /**
   The header's root is the root of the whole tree, coinbase id and transaction ids; the block reads back as that header
   and the template's transactions, unless their number wraps; and it counts as a block exactly when it meets its own
   bits.
   */
  ghost predicate MakesBlock(pool: Pool, m: Mined, t: Template, v: Verdict)
  {
    && v.Accepted? && HeaderOk(v.header)
    && WriteHeader(v.header)[36..68] == Merkle.Root(pool.pair, [pool.hash(v.coinbase)] + t.ids)
    && BlockBytes(m, t, v).Some?
    && BlockOf(BlockBytes(m, t, v).value) ==
       (if t.count == 0xffff_ffff then None else Some(BlockFields(WriteHeader(v.header), t.count, t.data)))
    && (v.isBlock <==> HashValue(pool, v.header) <= Difficulty.CompactValue(v.header.bits))
  }

  /** The coinbase of a share whose extranonce fills the template, when the job's first half was built for that size. */
  lemma ShareCoinbaseIsLegacy(pool: Pool, m: Mined, t: Template, payout: seq<byte>, extranonce: seq<byte>)
      returns (c: Coinbase)
    requires |extranonce| == m.extranonceSize && BuiltFrom(pool, m, t, payout)
    ensures CoinbaseFits(c) && Legacy(c) == ShareCoinbase(pool, m.work, payout, extranonce)
            && c.extranonce == extranonce
  {
    c := Coinbase(t.coinbaseVersion, t.scriptPrefix, extranonce, m.work.tag, m.work.sequence,
                  pool.payouts(m.work.value, payout) + m.work.required, m.work.lockTime);
  }

  lemma VouchedMakesBlock(pool: Pool, m: Mined, v: Verdict, mask: bv32, shareTarget: nat, now: int, t: Template,
                          c: Coinbase)
    requires Ready(pool, m) && v.Accepted? && Vouches(pool, m, v, mask, shareTarget, now)
    requires m.work.branch == Merkle.Branch(pool.pair, [t.zero] + t.ids)
    requires CoinbaseFits(c) && v.coinbase == Legacy(c) && (m.work.proof.Some? ==> |m.work.proof.value| == 32)
    ensures MakesBlock(pool, m, t, v)
  {
    HeaderRoundTrip(v.header);
    Merkle.FoldIsRoot(pool.pair, pool.hash(v.coinbase), t.zero, t.ids);
    ShareBlockRoundTrip(WriteHeader(v.header), t.count, c, m.work.proof, t.data);
  }

  /** Every standard share that is accepted makes such a block. */
  lemma StandardShareMakesBlock(pool: Pool, m: Mined, payout: seq<byte>, prefix: seq<byte>, w: StandardWork, f: Fields,
                                t: Template)
    requires Ready(pool, m) && BuiltFrom(pool, m, t, payout) && BuildStandard(pool, m, payout, prefix) == Some(w)
    ensures Sound(pool, m, w.root)
    ensures var v := ValidateStandard(pool, m, w.coinbase, w.root, f); v.Accepted? ==> MakesBlock(pool, m, t, v)
  {
    StandardVouches(pool, m, payout, prefix, w, f);
    var v := ValidateStandard(pool, m, w.coinbase, w.root, f);
    if v.Accepted? {
      var c := ShareCoinbaseIsLegacy(pool, m, t, payout, prefix);
      VouchedMakesBlock(pool, m, v, f.mask, f.shareTarget, f.now, t, c);
    }
  }

  /** So does every extended share, whatever prefix and extranonce it came with. */
  lemma ExtendedShareMakesBlock(pool: Pool, m: Mined, payout: seq<byte>, prefix: seq<byte>, extranonce: seq<byte>,
                                size: nat,
                                f: Fields, t: Template)
    requires Ready(pool, m) && BuiltFrom(pool, m, t, payout)
    ensures var v := ValidateExtended(pool, m, BuildExtended(pool, m, payout), prefix, extranonce, size, f);
            v.Accepted? ==> MakesBlock(pool, m, t, v)
  {
    var w := BuildExtended(pool, m, payout);
    var v := ValidateExtended(pool, m, w, prefix, extranonce, size, f);
    if v.Accepted? {
      ExtendedVouches(pool, m, w, payout, prefix, extranonce, size, f, v);
      var c := ShareCoinbaseIsLegacy(pool, m, t, payout, prefix + extranonce);
      VouchedMakesBlock(pool, m, v, f.mask, f.shareTarget, f.now, t, c);
    }
  }

  /** And every SV1 share, on the coinbase halves the session was given. */
  lemma Sv1ShareMakesBlock(pool: Pool, m: Mined, s: Submission, payout: seq<byte>, t: Template)
    requires Ready(pool, m) && BuiltFrom(pool, m, t, payout)
    requires s.coinbase2 == SecondHalf(pool, m, payout) && |s.extranonce1| + m.extranonce2Size == m.extranonceSize
    ensures var v := ValidateSv1(pool, m, s); v.Accepted? ==> MakesBlock(pool, m, t, v)
  {
    var v := ValidateSv1(pool, m, s);
    if v.Accepted? {
      Sv1Vouches(pool, m, s);
      Sv1CoinbaseIs(pool, m, s, payout, s.extranonce2.value);
      var c := ShareCoinbaseIsLegacy(pool, m, t, payout, s.extranonce1 + s.extranonce2.value);
      VouchedMakesBlock(pool, m, v, s.mask, s.shareTarget, s.now, t, c);
    }
  }
}

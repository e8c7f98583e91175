/** The identity of mining work: a string that decides every header made from a template. */
module WorkSignature {
  import opened Numbers
  import opened Options
  import opened Sequences
  import opened Wire
  import opened Text
  import opened BlockAssembly
  import Merkle

  /** What the signature is built from. */
  datatype Work = Work(
    prevhash: seq<byte>, version: u32, bitsHex: string, time: u32, coinbase1: seq<byte>, tag: seq<byte>,
    value: u64, sequence: u32, lockTime: u32,
    proof: Option<seq<byte>>, required: seq<CoinbaseOutput>, branch: seq<seq<byte>>)

  /** A job: the work and what else the pool keeps with it. */
  datatype Job = Job(id: string, height: int, work: Work, count: u32, data: seq<byte>)

  /** A 32-byte parent, and bits without the separator. */
  predicate Plain(w: Work)
  {
    |w.prevhash| == 32 && Free(w.bitsHex, '|')
  }

  /** A coinbase witness comes with a required output, as both template readers see to. */
  predicate Proper(w: Work)
  {
    Plain(w) && (w.proof.Some? ==> w.required != [])
  }

  // ---------- fields as text ----------

  /** Eight hexadecimal digits. */
  function Hex8(v: u32): string
  {
    Hex(Reversed(LittleEndian(v, 4)))
  }

  lemma Hex8Injective(v: u32, u: u32)
    requires Hex8(v) == Hex8(u)
    ensures v == u
  {
    var a, b := LittleEndian(v, 4), LittleEndian(u, 4);
    HexInjective(Reversed(a), Reversed(b));
    ReversedTwice(a);
    ReversedTwice(b);
    Widths();
    LittleEndianReads(v, 4);
    LittleEndianReads(u, 4);
  }

  /** Each four-byte word reversed, as the notify message shows the previous hash. */
  function WordsSwapped(s: seq<byte>): (r: seq<byte>)
    requires |s| == 32
    ensures |r| == 32
  {
    seq(32, i requires 0 <= i < 32 => s[4 * (i / 4) + 3 - i % 4])
  }

  lemma SwapTwice(s: seq<byte>)
    requires |s| == 32
    ensures WordsSwapped(WordsSwapped(s)) == s
  {
  }

  function OutputToken(o: CoinbaseOutput): string
  {
    Decimal(o.value) + ([':'] + Hex(o.script))
  }

  lemma OutputTokenInjective(o: CoinbaseOutput, p: CoinbaseOutput)
    requires OutputToken(o) == OutputToken(p)
    ensures o == p
  {
    DecimalFree(o.value, ':');
    DecimalFree(p.value, ':');
    SplitUnique(Decimal(o.value), [':'] + Hex(o.script), Decimal(p.value), [':'] + Hex(p.script), ':');
    DecimalReads(o.value);
    DecimalReads(p.value);
    assert ([':'] + Hex(o.script))[1..] == Hex(o.script) && ([':'] + Hex(p.script))[1..] == Hex(p.script);
    HexInjective(o.script, p.script);
  }

  // ---------- tokens ----------

  function Fixed(w: Work): seq<string>
    requires |w.prevhash| == 32
  {
    [Hex(WordsSwapped(w.prevhash)), Hex8(w.version), w.bitsHex, Hex8(w.time), Hex(w.coinbase1), Hex(w.tag),
     Decimal(w.value), Decimal(w.sequence), Decimal(w.lockTime)]
  }

  function ProofTokens(w: Work): seq<string>
  {
    if w.proof.Some? then [Hex(w.proof.value)] else []
  }

  function OutputTokens(w: Work): seq<string>
  {
    seq(|w.required|, i requires 0 <= i < |w.required| => OutputToken(w.required[i]))
  }

  function BranchTokens(w: Work): seq<string>
  {
    seq(|w.branch|, i requires 0 <= i < |w.branch| => Hex(w.branch[i]))
  }

  function Tokens(w: Work): seq<string>
    requires |w.prevhash| == 32
  {
    Fixed(w) + (ProofTokens(w) + OutputTokens(w) + BranchTokens(w))
  }

  /** `work_signature_` */
  function Signature(w: Work): string
    requires |w.prevhash| == 32
  {
    Join(Tokens(w), '|')
  }

  predicate Colon(t: string)
  {
    exists i :: 0 <= i < |t| && t[i] == ':'
  }

  lemma OutputTokenShape(o: CoinbaseOutput)
    ensures Free(OutputToken(o), '|') && Colon(OutputToken(o))
  {
    DecimalFree(o.value, '|');
    HexFree(o.script, '|');
    assert OutputToken(o)[|Decimal(o.value)|] == ':';
  }

  lemma HexShape(s: seq<byte>)
    ensures Free(Hex(s), '|') && !Colon(Hex(s))
  {
    HexFree(s, '|');
    HexFree(s, ':');
  }

  lemma TokensFree(w: Work)
    requires Plain(w)
    ensures AllFree(Tokens(w), '|')
  {
    FixedFree(w);
    TailFree(w);
    BothFree(Fixed(w), ProofTokens(w) + OutputTokens(w) + BranchTokens(w), '|');
  }

  lemma BothFree(s: seq<string>, t: seq<string>, c: char)
    requires AllFree(s, c) && AllFree(t, c)
    ensures AllFree(s + t, c)
  {
  }

  lemma FixedFree(w: Work)
    requires Plain(w)
    ensures AllFree(Fixed(w), '|')
  {
    HexShape(WordsSwapped(w.prevhash));
    HexShape(Reversed(LittleEndian(w.version, 4)));
    HexShape(Reversed(LittleEndian(w.time, 4)));
    HexShape(w.coinbase1);
    HexShape(w.tag);
    DecimalFree(w.value, '|');
    DecimalFree(w.sequence, '|');
    DecimalFree(w.lockTime, '|');
    NineFree(Fixed(w), '|');
  }

  lemma NineFree(t: seq<string>, c: char)
    requires |t| == 9 && Free(t[0], c) && Free(t[1], c) && Free(t[2], c) && Free(t[3], c) && Free(t[4], c)
    requires Free(t[5], c) && Free(t[6], c) && Free(t[7], c) && Free(t[8], c)
    ensures AllFree(t, c)
  {
  }

  lemma TailFree(w: Work)
    ensures AllFree(ProofTokens(w) + OutputTokens(w) + BranchTokens(w), '|')
    ensures forall i :: 0 <= i < |OutputTokens(w)| ==> Colon(OutputTokens(w)[i])
    ensures forall i :: 0 <= i < |BranchTokens(w)| ==> !Colon(BranchTokens(w)[i])
    ensures w.proof.Some? ==> !Colon(ProofTokens(w)[0])
  {
    if w.proof.Some? {
      HexShape(w.proof.value);
    }
    forall i | 0 <= i < |w.required|
      ensures Free(OutputTokens(w)[i], '|') && Colon(OutputTokens(w)[i])
    {
      OutputTokenShape(w.required[i]);
    }
    forall i | 0 <= i < |w.branch|
      ensures Free(BranchTokens(w)[i], '|') && !Colon(BranchTokens(w)[i])
    {
      HexShape(w.branch[i]);
    }
  }

  /** Tokens with a colon stand between those without, so the three groups can be told apart. */
  lemma GroupsUnique(p: seq<string>, o: seq<string>, b: seq<string>, p': seq<string>, o': seq<string>, b': seq<string>)
    requires p + o + b == p' + o' + b' && |p| <= 1 && |p'| <= 1
    requires (p != [] ==> o != [] && !Colon(p[0])) && (p' != [] ==> o' != [] && !Colon(p'[0]))
    requires forall i :: 0 <= i < |o| ==> Colon(o[i])
    requires forall i :: 0 <= i < |o'| ==> Colon(o'[i])
    requires forall i :: 0 <= i < |b| ==> !Colon(b[i])
    requires forall i :: 0 <= i < |b'| ==> !Colon(b'[i])
    ensures p == p' && o == o' && b == b'
  {
    var t := p + o + b;
    assert forall i :: 0 <= i < |t| ==> (Colon(t[i]) <==> |p| <= i < |p| + |o|);
    assert forall i :: 0 <= i < |t| ==> (Colon(t[i]) <==> |p'| <= i < |p'| + |o'|);
    assert o' != [] ==> |p'| < |t| && Colon(t[|p'|]);
    if o != [] {
      assert Colon(t[|p|]) && Colon(t[|p| + |o| - 1]);
      assert |p| + |o| < |t| ==> !Colon(t[|p| + |o|]);
      assert |p'| + |o'| < |t| ==> !Colon(t[|p'| + |o'|]);
      assert o' != [] && |p| == |p'|;
      assert |o| == |o'|;
    }
    assert p == t[..|p|] && p' == t[..|p'|];
    assert o == t[|p|..|p| + |o|] && o' == t[|p'|..|p'| + |o'|];
    assert b == t[|p| + |o|..] && b' == t[|p'| + |o'|..];
  }

  /** Seen from one side: its own outputs mark the groups, or there is nothing to tell apart. */
  lemma GroupsDetermined(p: seq<string>, o: seq<string>, b: seq<string>, p': seq<string>, o': seq<string>,
                         b': seq<string>)
    requires p + o + b == p' + o' + b' && (o != [] || p + o + b == [])
    requires (forall i :: 0 <= i < |p| ==> !Colon(p[i])) && (forall i :: 0 <= i < |p'| ==> !Colon(p'[i]))
    requires forall i :: 0 <= i < |o| ==> Colon(o[i])
    requires forall i :: 0 <= i < |o'| ==> Colon(o'[i])
    requires forall i :: 0 <= i < |b| ==> !Colon(b[i])
    requires forall i :: 0 <= i < |b'| ==> !Colon(b'[i])
    ensures p == p' && o == o' && b == b'
  {
    var t := p + o + b;
    if o != [] {
      assert Colon(t[|p|]) && Colon(t[|p| + |o| - 1]);
      assert forall i :: 0 <= i < |t| ==> (Colon(t[i]) <==> |p| <= i < |p| + |o|);
      assert forall i :: 0 <= i < |t| ==> (Colon(t[i]) <==> |p'| <= i < |p'| + |o'|);
      assert |p'| <= |p| < |p'| + |o'|;
      assert Colon(t[|p'|]) && Colon(t[|p'| + |o'| - 1]);
    } else {
      assert |t| == 0;
    }
    assert |p| == |p'| && |o| == |o'|;
    assert p == t[..|p|] && p' == t[..|p'|];
    assert o == t[|p|..|p| + |o|] && o' == t[|p'|..|p'| + |o'|];
    assert b == t[|p| + |o|..] && b' == t[|p'| + |o'|..];
  }

  lemma FixedInjective(w: Work, v: Work)
    requires |w.prevhash| == 32 && |v.prevhash| == 32 && Fixed(w) == Fixed(v)
    ensures w.prevhash == v.prevhash && w.version == v.version && w.bitsHex == v.bitsHex && w.time == v.time
    ensures w.coinbase1 == v.coinbase1 && w.tag == v.tag && w.value == v.value
    ensures w.sequence == v.sequence && w.lockTime == v.lockTime
  {
    var a, b := Fixed(w), Fixed(v);
    assert a[0] == b[0] && a[1] == b[1] && a[2] == b[2] && a[3] == b[3] && a[4] == b[4] && a[5] == b[5] && a[6] == b[6]
        && a[7] == b[7] && a[8] == b[8];
    HexInjective(WordsSwapped(w.prevhash), WordsSwapped(v.prevhash));
    SwapTwice(w.prevhash);
    SwapTwice(v.prevhash);
    Hex8Injective(w.version, v.version);
    Hex8Injective(w.time, v.time);
    HexInjective(w.coinbase1, v.coinbase1);
    HexInjective(w.tag, v.tag);
    DecimalReads(w.value);
    DecimalReads(v.value);
    DecimalReads(w.sequence);
    DecimalReads(v.sequence);
    DecimalReads(w.lockTime);
    DecimalReads(v.lockTime);
  }

  lemma TailInjective(w: Work, v: Work)
    requires ProofTokens(w) == ProofTokens(v) && OutputTokens(w) == OutputTokens(v)
             && BranchTokens(w) == BranchTokens(v)
    ensures w.proof == v.proof && w.required == v.required && w.branch == v.branch
  {
    if w.proof.Some? && v.proof.Some? {
      assert ProofTokens(w)[0] == ProofTokens(v)[0];
      HexInjective(w.proof.value, v.proof.value);
    }
    assert |ProofTokens(w)| == |ProofTokens(v)|;
    assert |OutputTokens(w)| == |OutputTokens(v)| && |BranchTokens(w)| == |BranchTokens(v)|;
    forall i | 0 <= i < |w.required|
      ensures i < |v.required| && w.required[i] == v.required[i]
    {
      assert OutputTokens(w)[i] == OutputTokens(v)[i];
      OutputTokenInjective(w.required[i], v.required[i]);
    }
    forall i | 0 <= i < |w.branch|
      ensures i < |v.branch| && w.branch[i] == v.branch[i]
    {
      assert BranchTokens(w)[i] == BranchTokens(v)[i];
      HexInjective(w.branch[i], v.branch[i]);
    }
  }

  /** Equal signatures: equal fixed fields, and tails that differ at most in how they are grouped. */
  lemma SignatureParses(w: Work, v: Work)
    requires Plain(w) && Plain(v) && Signature(w) == Signature(v)
    ensures Fixed(w) == Fixed(v)
    ensures ProofTokens(w) + OutputTokens(w) + BranchTokens(w) == ProofTokens(v) + OutputTokens(v) + BranchTokens(v)
  {
    TokensFree(w);
    TokensFree(v);
    JoinInjective(Tokens(w), Tokens(v), '|');
    assert Fixed(w) == Tokens(w)[..9] && Fixed(v) == Tokens(v)[..9];
    assert ProofTokens(w) + OutputTokens(w) + BranchTokens(w) == Tokens(w)[9..];
    assert ProofTokens(v) + OutputTokens(v) + BranchTokens(v) == Tokens(v)[9..];
  }

  /** The joined string can be parsed back: equal signatures mean equal work. */
  lemma SignatureInjective(w: Work, v: Work)
    requires Proper(w) && Proper(v) && Signature(w) == Signature(v)
    ensures w == v
  {
    SignatureParses(w, v);
    FixedInjective(w, v);
    TailFree(w);
    TailFree(v);
    GroupsUnique(ProofTokens(w), OutputTokens(w), BranchTokens(w), ProofTokens(v), OutputTokens(v), BranchTokens(v));
    TailInjective(w, v);
  }

  // ---------- exactly which signatures determine their work ----------

  /** No other work with a 32-byte parent and separator-free bits has this signature. */
  ghost predicate Determined(w: Work)
    requires Plain(w)
  {
    forall v: Work :: Plain(v) && Signature(v) == Signature(w) ==> v == w
  }

  /** An output stands between witness and branch, or there is neither. */
  predicate Marked(w: Work)
  {
    w.required != [] || (w.proof.None? && w.branch == [])
  }

  lemma MarkedDetermines(w: Work, v: Work)
    requires Plain(w) && Plain(v) && Marked(w) && Signature(v) == Signature(w)
    ensures v == w
  {
    SignatureParses(w, v);
    FixedInjective(w, v);
    TailFree(w);
    TailFree(v);
    GroupsDetermined(ProofTokens(w), OutputTokens(w), BranchTokens(w), ProofTokens(v), OutputTokens(v),
                     BranchTokens(v));
    TailInjective(w, v);
  }

  /** Without a mark the witness can pass for the head of the branch, and the head of the branch for a witness. */
  function Mistaken(w: Work): Work
    requires !Marked(w)
  {
    if w.proof.Some? then w.(proof := None, branch := [w.proof.value] + w.branch)
    else w.(proof := Some(w.branch[0]), branch := w.branch[1..])
  }

  lemma MistakenCollides(w: Work)
    requires Plain(w) && !Marked(w)
    ensures Plain(Mistaken(w)) && Mistaken(w) != w && Signature(Mistaken(w)) == Signature(w)
  {
    var v := Mistaken(w);
    assert OutputTokens(w) == [] && OutputTokens(v) == [];
    if w.proof.Some? {
      assert BranchTokens(v) == [Hex(w.proof.value)] + BranchTokens(w);
    } else {
      assert BranchTokens(w) == [Hex(w.branch[0])] + BranchTokens(v);
    }
    assert ProofTokens(v) + OutputTokens(v) + BranchTokens(v) == ProofTokens(w) + OutputTokens(w) + BranchTokens(w);
    assert Fixed(v) == Fixed(w);
  }

  /** A signature determines its work exactly when the work has a required output, or neither witness nor branch. */
  lemma DeterminedExactly(w: Work)
    requires Plain(w)
    ensures Determined(w) <==> Marked(w)
  {
    if Marked(w) {
      forall v: Work | Plain(v) && Signature(v) == Signature(w)
        ensures v == w
      {
        MarkedDetermines(w, v);
      }
    } else {
      MistakenCollides(w);
    }
  }

  lemma {:induction false} HexesInjective(a: seq<seq<byte>>, b: seq<seq<byte>>)
    requires |a| == |b| && forall i :: 0 <= i < |a| ==> Hex(a[i]) == Hex(b[i])
    ensures a == b
  {
    forall i | 0 <= i < |a|
      ensures a[i] == b[i]
    {
      HexInjective(a[i], b[i]);
    }
  }

  /** Witness and branch in one list, which is all a tail without outputs shows. */
  function Hashes(w: Work): seq<seq<byte>>
  {
    (if w.proof.Some? then [w.proof.value] else []) + w.branch
  }

  lemma TailWithoutOutputs(w: Work, i: nat)
    requires w.required == [] && i < |Hashes(w)|
    ensures |ProofTokens(w) + OutputTokens(w) + BranchTokens(w)| == |Hashes(w)|
    ensures (ProofTokens(w) + OutputTokens(w) + BranchTokens(w))[i] == Hex(Hashes(w)[i])
  {
  }

  lemma SameHashes(w: Work, v: Work)
    requires w.required == [] && v.required == []
    requires ProofTokens(w) + OutputTokens(w) + BranchTokens(w) == ProofTokens(v) + OutputTokens(v) + BranchTokens(v)
    ensures Hashes(w) == Hashes(v)
  {
    assert |ProofTokens(w) + OutputTokens(w) + BranchTokens(w)| == |Hashes(w)|;
    assert |ProofTokens(v) + OutputTokens(v) + BranchTokens(v)| == |Hashes(v)|;
    forall i | 0 <= i < |Hashes(w)|
      ensures Hex(Hashes(w)[i]) == Hex(Hashes(v)[i])
    {
      TailWithoutOutputs(w, i);
      TailWithoutOutputs(v, i);
    }
    HexesInjective(Hashes(w), Hashes(v));
  }

  lemma SameHashesMistaken(w: Work, v: Work)
    requires !Marked(w) && v == w.(proof := v.proof, branch := v.branch) && v != w && Hashes(v) == Hashes(w)
    ensures v == Mistaken(w) && (w.proof.Some? <==> v.proof.None?)
  {
    BranchOfHashes(w);
    BranchOfHashes(v);
  }

  lemma BranchOfHashes(w: Work)
    ensures w.branch == if w.proof.Some? then Hashes(w)[1..] else Hashes(w)
    ensures w.proof.Some? ==> Hashes(w)[0] == w.proof.value && Hashes(w) == [w.proof.value] + w.branch
  {
  }

  /** There is no other collision than that one, so in every colliding pair one work has a witness and no output. */
  lemma OnlyCollision(w: Work, v: Work)
    requires Plain(w) && Plain(v) && Signature(w) == Signature(v) && w != v
    ensures !Marked(w) && v == Mistaken(w) && (w.proof.Some? <==> v.proof.None?)
  {
    if Marked(w) {
      MarkedDetermines(w, v);
    } else if Marked(v) {
      MarkedDetermines(v, w);
    } else {
      SignatureParses(w, v);
      FixedInjective(w, v);
      SameHashes(w, v);
      SameHashesMistaken(w, v);
    }
  }

  // ---------- the readers ----------

  const COMMITMENT: seq<byte> := [0x6a, 0x24, 0xaa, 0x21, 0xa9, 0xed]

  predicate IsCommitment(o: CoinbaseOutput)
  {
    |o.script| >= 38 && COMMITMENT <= o.script
  }

  /** `validate_template`: a witness exactly with a commitment among the required outputs. */
  predicate PassesIpcReader(w: Work)
  {
    w.proof.Some? <==> exists i :: 0 <= i < |w.required| && IsCommitment(w.required[i])
  }

  /** The JSON reader adds the zero witness and the commitment output together. */
  function FromJsonReader(w: Work, commitment: Option<seq<byte>>): Work
  {
    if commitment.None? || commitment.value == [] then w.(proof := None, required := [])
    else w.(proof := Some(seq(32, _ => 0)), required := [CoinbaseOutput(0, commitment.value)])
  }

  /** So every template either reader lets through is proper. */
  lemma ReadersAreProper(w: Work, commitment: Option<seq<byte>>)
    requires Plain(w)
    ensures PassesIpcReader(w) ==> Proper(w)
    ensures Proper(FromJsonReader(w, commitment))
  {
  }

  // ---------- headers ----------

  /** One pool configuration: the hashes, how compact bits are read and how the reward is paid out. */
  datatype Pool = Pool(hash: seq<byte> -> seq<byte>, pair: (seq<byte>, seq<byte>) -> seq<byte>, bits: string -> u32,
                       payouts: (u64, seq<byte>) -> seq<CoinbaseOutput>)

  /** The coinbase of a share without its witness. */
  function ShareCoinbase(pool: Pool, w: Work, payout: seq<byte>, extranonce: seq<byte>): seq<byte>
  {
    w.coinbase1 + extranonce
    + Coinbase2(pool.payouts(w.value, payout) + w.required, w.tag, w.sequence, w.lockTime)
  }

  function MerkleRoot(pool: Pool, w: Work, coinbase: seq<byte>): seq<byte>
  {
    Merkle.Fold(pool.pair, pool.hash(coinbase), w.branch)
  }

  /** The header fields a share hashes. */
  function HeaderFields(pool: Pool, job: Job, payout: seq<byte>, extranonce: seq<byte>, ntime: u32, nonce: u32,
                        version: u32): Header
  {
    Header(version, job.work.prevhash, MerkleRoot(pool, job.work, ShareCoinbase(pool, job.work, payout, extranonce)),
           ntime, pool.bits(job.work.bitsHex), nonce)
  }

  /** Jobs with one signature hash the same headers for every payout, extranonce, time, nonce and version. */
  lemma SameSignatureSameHeaders(pool: Pool, a: Job, b: Job, payout: seq<byte>, extranonce: seq<byte>, ntime: u32,
                                 nonce: u32, version: u32)
    requires Proper(a.work) && Proper(b.work) && Signature(a.work) == Signature(b.work)
    ensures HeaderFields(pool, a, payout, extranonce, ntime, nonce, version)
         == HeaderFields(pool, b, payout, extranonce, ntime, nonce, version)
    ensures a.work.version == b.work.version && a.work.time == b.work.time
  {
    SignatureInjective(a.work, b.work);
  }

  /** The hash that witness and branch can be confused over, and the branch after it. */
  function Moved(w: Work): seq<byte>
    requires !Marked(w)
  {
    if w.proof.Some? then w.proof.value else w.branch[0]
  }

  function After(w: Work): seq<seq<byte>>
    requires !Marked(w)
  {
    if w.proof.Some? then w.branch else w.branch[1..]
  }

  /**
   What a collision would cost, for every colliding pair: under one signature, the work with the witness folds the rest
   of the branch from the coinbase id, and the other one from that id hashed with the moved hash.
   */
  lemma WitnessNeedsOutput(pool: Pool, w: Work, coinbase: seq<byte>)
    requires Plain(w) && !Marked(w)
    ensures Plain(Mistaken(w)) && Signature(Mistaken(w)) == Signature(w)
    ensures var id := pool.hash(coinbase);
            var a, b := if w.proof.Some? then w else Mistaken(w), if w.proof.Some? then Mistaken(w) else w;
            && MerkleRoot(pool, a, coinbase) == Merkle.Fold(pool.pair, id, After(w))
            && MerkleRoot(pool, b, coinbase) == Merkle.Fold(pool.pair, pool.pair(id, Moved(w)), After(w))
            && (After(w) == [] ==>
                  (MerkleRoot(pool, a, coinbase) == MerkleRoot(pool, b, coinbase) <==> id == pool.pair(id, Moved(w))))
  {
    MistakenCollides(w);
    MistakenBranches(w);
    Merkle.FoldFirst(pool.pair, pool.hash(coinbase), Moved(w), After(w));
  }

  lemma MistakenBranches(w: Work)
    requires !Marked(w)
    ensures w.proof.Some? ==> w.branch == After(w) && Mistaken(w).branch == [Moved(w)] + After(w)
    ensures w.proof.None? ==> Mistaken(w).branch == After(w) && w.branch == [Moved(w)] + After(w)
  {
  }
}

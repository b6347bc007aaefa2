/**
 * The three-message NewHope exchange: the offerer sends a public
 * polynomial and a seed, the accepter answers with its own public
 * polynomial and packed reconciliation data, and both hash the reconciled
 * raw key into the shared key.
 *
 * What is modelled is the framing: the exact-length guards, the byte
 * layout of the two messages, and which bytes each side writes and reads.
 * Ring arithmetic, the NTT, sampling, helper-data generation,
 * reconciliation, polynomial (de)serialisation and SHA-256 are defined
 * elsewhere; here they are the fields of a `Primitives` value, so every
 * lemma holds whatever they compute. Randomness (noise polynomials, the
 * seed, the reconciliation random bytes) is passed in as arguments.
 */
module NewHope {
  import opened NewHopeParams
  import opened RecCodec

  datatype Option<T> = None | Some(value: T)

  /** A polynomial (NEWHOPE_POLY): N 16-bit coefficients. */
  type Poly = p: seq<Coeff> | |p| == N witness ZeroPoly()

  type PolyBytes = s: seq<Byte> | |s| == PolyLength witness Zeros(PolyLength)
  type Seed = s: seq<Byte> | |s| == SeedLength witness Zeros(SeedLength)
  type RecRand = s: seq<Byte> | |s| == RecRandLength witness Zeros(RecRandLength)
  type RawKey = s: seq<Byte> | |s| == KeyLength witness Zeros(KeyLength)
  type Digest = s: seq<Byte> | |s| == DigestLength witness Zeros(DigestLength)

  function ZeroPoly(): (z: seq<Coeff>) { seq(N, _ => 0) }
  function Zeros(n: nat): (z: seq<Byte>) { seq(n, _ => 0) }

  /** The operations this file calls but does not define. */
  datatype Primitives = Primitives(
    ntt: Poly -> Poly,                  // newhope_poly_ntt
    invntt: Poly -> Poly,               // newhope_poly_invntt
    pointwise: (Poly, Poly) -> Poly,    // newhope_poly_pointwise
    add: (Poly, Poly) -> Poly,          // newhope_poly_add
    uniform: Seed -> Poly,              // newhope_poly_uniform
    toBytes: Poly -> PolyBytes,         // newhope_poly_tobytes
    fromBytes: PolyBytes -> Poly,       // NEWHOPE_POLY_frombytes
    helprec: (Poly, RecRand) -> Poly,   // newhope_helprec
    reconcile: (Poly, Poly) -> RawKey,  // newhope_reconcile
    sha256: RawKey -> Option<Digest>    // SHA256_Init/Update/Final; None when one of them fails
  )

  /** The noise polynomials (newhope_poly_getnoise) and random bytes one accept call draws. */
  datatype AcceptRandomness = AcceptRandomness(sp: Poly, epp: Poly, ep: Poly, rand: RecRand)

  // ---------------------------------------------------------------------------
  // Message layout

  /** An offer message: the serialised public polynomial, then the seed. */
  function OfferLayout(pkBytes: PolyBytes, seed: Seed): (m: seq<Byte>)
    ensures |m| == OfferMsgLength
  {
    pkBytes + seed
  }

  function OfferPolyField(m: seq<Byte>): (pkBytes: PolyBytes)
    requires |m| >= OfferMsgLength
  {
    m[..PolyLength]
  }

  /** The seed sits at offset NEWHOPE_POLY_LENGTH of an offer message. */
  function OfferSeedField(m: seq<Byte>): (seed: Seed)
    requires |m| >= OfferMsgLength
  {
    m[PolyLength..OfferMsgLength]
  }

  /** An accept message: the serialised public polynomial, then the packed reconciliation data. */
  function AcceptLayout(bpBytes: PolyBytes, rec: seq<Byte>): (m: seq<Byte>)
    requires |rec| == RecLength
    ensures |m| == AcceptMsgLength
  {
    bpBytes + rec
  }

  function AcceptPolyField(m: seq<Byte>): (bpBytes: PolyBytes)
    requires |m| >= AcceptMsgLength
  {
    m[..PolyLength]
  }

  /** The reconciliation data sits at offset NEWHOPE_POLY_LENGTH of an accept message. */
  function AcceptRecField(m: seq<Byte>): (rec: seq<Byte>)
    requires |m| >= AcceptMsgLength
    ensures |rec| == RecLength
  {
    m[PolyLength..AcceptMsgLength]
  }

  /** Reading the fields of an offer message gives back what was laid out. */
  lemma OfferFieldsOfLayout(pkBytes: PolyBytes, seed: Seed)
    ensures OfferPolyField(OfferLayout(pkBytes, seed)) == pkBytes
    ensures OfferSeedField(OfferLayout(pkBytes, seed)) == seed
  {
  }

  /** Every offer message is the layout of its two fields. */
  lemma OfferLayoutOfFields(m: seq<Byte>)
    requires |m| == OfferMsgLength
    ensures OfferLayout(OfferPolyField(m), OfferSeedField(m)) == m
  {
  }

  /** Reading the fields of an accept message gives back what was laid out. */
  lemma AcceptFieldsOfLayout(bpBytes: PolyBytes, rec: seq<Byte>)
    requires |rec| == RecLength
    ensures AcceptPolyField(AcceptLayout(bpBytes, rec)) == bpBytes
    ensures AcceptRecField(AcceptLayout(bpBytes, rec)) == rec
  {
  }

  /** Every accept message is the layout of its two fields. */
  lemma AcceptLayoutOfFields(m: seq<Byte>)
    requires |m| == AcceptMsgLength
    ensures AcceptLayout(AcceptPolyField(m), AcceptRecField(m)) == m
  {
  }

  // ---------------------------------------------------------------------------
  // What each side computes

  datatype OfferState = OfferState(sk: Poly, a: Poly, pk: Poly)

  /** NEWHOPE_offer: sk = NTT(noise), a from the seed, pk = a*sk + NTT(e). */
  function OfferComputation(p: Primitives, skNoise: Poly, eNoise: Poly, seed: Seed): (st: OfferState)
  {
    var sk := p.ntt(skNoise);
    var a := p.uniform(seed);
    var e := p.ntt(eNoise);
    OfferState(sk, a, p.add(e, p.pointwise(sk, a)))
  }

  /** The offer message NEWHOPE_offer writes. */
  function OfferMessage(p: Primitives, skNoise: Poly, eNoise: Poly, seed: Seed): (offer: seq<Byte>)
  {
    OfferLayout(p.toBytes(OfferComputation(p, skNoise, eNoise, seed).pk), seed)
  }

  datatype AcceptState = AcceptState(k: RawKey, bp: Poly, c: Poly, v: Poly)

  /** NEWHOPE_accept_computation: bp = a*s' + e', v = invNTT(pk*s') + e'', then helper data and raw key. */
  function AcceptComputation(p: Primitives, sp: Poly, epp: Poly, epNoise: Poly, rand: RecRand, pk: Poly, a: Poly): (st: AcceptState)
  {
    var ep := p.ntt(epNoise);
    var bp := p.add(p.pointwise(a, sp), ep);
    var v := p.add(p.invntt(p.pointwise(pk, sp)), epp);
    var c := p.helprec(v, rand);
    AcceptState(p.reconcile(v, c), bp, c, v)
  }

  /** NEWHOPE_finish_computation: v = invNTT(sk*bp), then the raw key from v and the helper data. */
  function FinishComputation(p: Primitives, sk: Poly, bp: Poly, c: Poly): (k: RawKey)
  {
    p.reconcile(p.invntt(p.pointwise(sk, bp)), c)
  }

  /** What NEWHOPE_accept computes from a well-sized offer message. */
  function AcceptOf(p: Primitives, rnd: AcceptRandomness, offer: seq<Byte>): (st: AcceptState)
    requires |offer| >= OfferMsgLength
  {
    var a := p.uniform(OfferSeedField(offer));
    var pk := p.fromBytes(OfferPolyField(offer));
    AcceptComputation(p, p.ntt(rnd.sp), rnd.epp, rnd.ep, rnd.rand, pk, a)
  }

  /** The accept message NEWHOPE_accept writes. */
  function AcceptMessage(p: Primitives, rnd: AcceptRandomness, offer: seq<Byte>): (m: seq<Byte>)
    requires |offer| >= OfferMsgLength
  {
    var st := AcceptOf(p, rnd, offer);
    AcceptLayout(p.toBytes(st.bp), EncodeRec(st.c))
  }

  /** The raw key NEWHOPE_finish derives from a well-sized accept message. */
  function FinishRawKey(p: Primitives, sk: Poly, m: seq<Byte>): (k: RawKey)
    requires |m| >= AcceptMsgLength
  {
    FinishComputation(p, sk, p.fromBytes(AcceptPolyField(m)), DecodeRec(AcceptRecField(m)))
  }

  // ---------------------------------------------------------------------------
  // The two messages connect the two sides

  /**
   * The offerer writes the seed at offset NEWHOPE_POLY_LENGTH and the
   * accepter reads it from there, so both expand the same polynomial `a`;
   * the accepter deserialises exactly the bytes the offerer serialised.
   */
  lemma OfferSeedReachesAccepter(p: Primitives, skNoise: Poly, eNoise: Poly, seed: Seed)
    ensures OfferSeedField(OfferMessage(p, skNoise, eNoise, seed)) == seed
    ensures p.uniform(OfferSeedField(OfferMessage(p, skNoise, eNoise, seed)))
         == OfferComputation(p, skNoise, eNoise, seed).a
    ensures OfferPolyField(OfferMessage(p, skNoise, eNoise, seed))
         == p.toBytes(OfferComputation(p, skNoise, eNoise, seed).pk)
  {
    OfferFieldsOfLayout(p.toBytes(OfferComputation(p, skNoise, eNoise, seed).pk), seed);
  }

  /**
   * The accepter writes the encoded reconciliation data at offset
   * NEWHOPE_POLY_LENGTH and the finisher decodes it from there, so it
   * recovers exactly the helper data the accepter computed whenever that
   * data is 2-bit; it likewise reads back the accepter's serialised `bp`.
   */
  lemma FinishDecodesAcceptHelpData(p: Primitives, rnd: AcceptRandomness, offer: seq<Byte>, sk: Poly)
    requires |offer| >= OfferMsgLength
    requires IsRecData(AcceptOf(p, rnd, offer).c)
    ensures AcceptRecField(AcceptMessage(p, rnd, offer)) == EncodeRec(AcceptOf(p, rnd, offer).c)
    ensures DecodeRec(AcceptRecField(AcceptMessage(p, rnd, offer))) == AcceptOf(p, rnd, offer).c
    ensures FinishRawKey(p, sk, AcceptMessage(p, rnd, offer))
         == FinishComputation(p, sk, p.fromBytes(p.toBytes(AcceptOf(p, rnd, offer).bp)), AcceptOf(p, rnd, offer).c)
  {
    var st := AcceptOf(p, rnd, offer);
    AcceptFieldsOfLayout(p.toBytes(st.bp), EncodeRec(st.c));
    DecodeEncodeRec(st.c);
  }

  /**
   * An honest run offer -> accept -> finish. When helper data is always
   * 2-bit and deserialising gives back the two polynomials that are sent
   * (`pk` and `bp`, whose coefficients are below the modulus), the accepter computes
   * on the offerer's `pk` and `a`, and the finisher computes on the
   * accepter's `bp` and helper data `c`: the two raw keys differ only by
   * what reconciliation makes of the two sides' `v`.
   */
  lemma HonestRun(p: Primitives, skNoise: Poly, eNoise: Poly, seed: Seed, rnd: AcceptRandomness)
    requires forall v, rand :: IsRecData(p.helprec(v, rand))
    requires p.fromBytes(p.toBytes(OfferComputation(p, skNoise, eNoise, seed).pk))
          == OfferComputation(p, skNoise, eNoise, seed).pk
    requires p.fromBytes(p.toBytes(AcceptOf(p, rnd, OfferMessage(p, skNoise, eNoise, seed)).bp))
          == AcceptOf(p, rnd, OfferMessage(p, skNoise, eNoise, seed)).bp
    ensures AcceptOf(p, rnd, OfferMessage(p, skNoise, eNoise, seed))
         == AcceptComputation(p, p.ntt(rnd.sp), rnd.epp, rnd.ep, rnd.rand,
                              OfferComputation(p, skNoise, eNoise, seed).pk, OfferComputation(p, skNoise, eNoise, seed).a)
    ensures FinishRawKey(p, OfferComputation(p, skNoise, eNoise, seed).sk,
                         AcceptMessage(p, rnd, OfferMessage(p, skNoise, eNoise, seed)))
         == FinishComputation(p, OfferComputation(p, skNoise, eNoise, seed).sk,
                              AcceptOf(p, rnd, OfferMessage(p, skNoise, eNoise, seed)).bp,
                              AcceptOf(p, rnd, OfferMessage(p, skNoise, eNoise, seed)).c)
  {
    var o := OfferComputation(p, skNoise, eNoise, seed);
    var offer := OfferMessage(p, skNoise, eNoise, seed);
    OfferSeedReachesAccepter(p, skNoise, eNoise, seed);
    assert p.fromBytes(OfferPolyField(offer)) == o.pk;
    var st := AcceptOf(p, rnd, offer);
    assert IsRecData(p.helprec(st.v, rnd.rand));
    FinishDecodesAcceptHelpData(p, rnd, offer, o.sk);
    assert p.fromBytes(p.toBytes(st.bp)) == st.bp;
  }

  // ---------------------------------------------------------------------------
  // The operations, on caller-supplied buffers

  /** Copies `src` into `dst` at offset `off`, leaving every other byte of `dst` alone. */
  method CopyInto(dst: array<Byte>, off: nat, src: seq<Byte>)
    requires off + |src| <= dst.Length
    modifies dst
    ensures dst[..] == old(dst[..off]) + src + old(dst[off + |src|..])
  {
    for i := 0 to |src|
      invariant forall k :: 0 <= k < off ==> dst[k] == old(dst[k])
      invariant forall k :: 0 <= k < i ==> dst[off + k] == src[k]
      invariant forall k :: off + i <= k < dst.Length ==> dst[k] == old(dst[k])
    {
      dst[off + i] := src[i];
    }
    assert dst[..] == old(dst[..off]) + src + old(dst[off + |src|..]);
  }

  /**
   * NEWHOPE_offer: returns the secret `sk` and fills `offermsg` with the
   * serialised public polynomial followed by the seed. The seed is
   * written first and `a` is expanded from the bytes in the buffer.
   */
  method Offer(p: Primitives, skNoise: Poly, eNoise: Poly, seed: Seed, offermsg: array<Byte>) returns (sk: Poly)
    requires offermsg.Length == OfferMsgLength
    modifies offermsg
    ensures sk == OfferComputation(p, skNoise, eNoise, seed).sk
    ensures offermsg[..] == OfferMessage(p, skNoise, eNoise, seed)
  {
    sk := p.ntt(skNoise);
    CopyInto(offermsg, PolyLength, seed);
    var a := p.uniform(offermsg[PolyLength..OfferMsgLength]);
    var e := p.ntt(eNoise);
    var r := p.pointwise(sk, a);
    var pk := p.add(e, r);
    CopyInto(offermsg, 0, p.toBytes(pk));
  }

  /**
   * Lines 101-102 of NEWHOPE_accept: the serialised `bp` at offset 0, then
   * `encode_rec` of the helper data `c` at offset NEWHOPE_POLY_LENGTH.
   */
  method WriteAcceptMessage(acceptmsg: array<Byte>, bpBytes: PolyBytes, c: Poly)
    requires acceptmsg.Length == AcceptMsgLength
    modifies acceptmsg
    ensures acceptmsg[..] == AcceptLayout(bpBytes, EncodeRec(c))
  {
    CopyInto(acceptmsg, 0, bpBytes);
    assert acceptmsg[..PolyLength] == bpBytes;
    var poly := new Coeff[N](k => if 0 <= k < N then c[k] else 0);
    assert poly[..] == c;
    EncodeRecInto(poly, acceptmsg, PolyLength);
    assert acceptmsg[..] == acceptmsg[..PolyLength] + acceptmsg[PolyLength..PolyLength + N / 4];
  }

  /**
   * NEWHOPE_accept: rejects an offer message of the wrong length without
   * writing anything; otherwise writes the accept message and, when
   * hashing succeeds, the shared key. The accept message is written
   * before the hash is computed, so it is written even when hashing fails.
   */
  method Accept(p: Primitives, rnd: AcceptRandomness, key: array<Byte>, acceptmsg: array<Byte>,
                offermsg: array<Byte>, msgLen: nat) returns (ok: bool)
    requires key.Length == DigestLength && acceptmsg.Length == AcceptMsgLength
    requires msgLen <= offermsg.Length
    modifies key, acceptmsg
    ensures msgLen != OfferMsgLength ==> !ok && unchanged(key) && unchanged(acceptmsg)
    ensures msgLen == OfferMsgLength ==>
      acceptmsg[..] == AcceptMessage(p, rnd, old(offermsg[..OfferMsgLength]))
    ensures msgLen == OfferMsgLength ==>
      var h := p.sha256(AcceptOf(p, rnd, old(offermsg[..OfferMsgLength])).k);
      (ok <==> h.Some?) && (ok ==> key[..] == h.value) && (!ok ==> unchanged(key))
  {
    if msgLen != OfferMsgLength {
      return false;
    }
    ghost var offer := offermsg[..OfferMsgLength];
    var a := p.uniform(offermsg[PolyLength..OfferMsgLength]);
    var pk := p.fromBytes(offermsg[..PolyLength]);
    assert offermsg[PolyLength..OfferMsgLength] == OfferSeedField(offer);
    assert offermsg[..PolyLength] == OfferPolyField(offer);
    var sp := p.ntt(rnd.sp);
    var st := AcceptComputation(p, sp, rnd.epp, rnd.ep, rnd.rand, pk, a);
    assert st == AcceptOf(p, rnd, offer);
    WriteAcceptMessage(acceptmsg, p.toBytes(st.bp), st.c);
    var h := p.sha256(st.k);
    if h.None? {
      return false;
    }
    CopyInto(key, 0, h.value);
    return true;
  }

  /**
   * NEWHOPE_finish: rejects an accept message of the wrong length without
   * writing the key; otherwise decodes the accept message and, when
   * hashing succeeds, writes the shared key.
   */
  method Finish(p: Primitives, key: array<Byte>, sk: Poly, acceptmsg: array<Byte>, msgLen: nat) returns (ok: bool)
    requires key.Length == DigestLength && msgLen <= acceptmsg.Length
    modifies key
    ensures msgLen != AcceptMsgLength ==> !ok && unchanged(key)
    ensures msgLen == AcceptMsgLength ==>
      var h := p.sha256(FinishRawKey(p, sk, old(acceptmsg[..AcceptMsgLength])));
      (ok <==> h.Some?) && (ok ==> key[..] == h.value) && (!ok ==> unchanged(key))
  {
    if msgLen != AcceptMsgLength {
      return false;
    }
    ghost var m := acceptmsg[..AcceptMsgLength];
    var bp := p.fromBytes(acceptmsg[..PolyLength]);
    assert acceptmsg[..PolyLength] == AcceptPolyField(m);
    var c := new Coeff[N];
    DecodeRecFrom(acceptmsg, PolyLength, c);
    assert acceptmsg[PolyLength..PolyLength + N / 4] == AcceptRecField(m);
    var k := FinishComputation(p, sk, bp, c[..]);
    var h := p.sha256(k);
    if h.None? {
      return false;
    }
    CopyInto(key, 0, h.value);
    return true;
  }
}

# NewHope key exchange: reconciliation codec and message framing

This project models the orchestration layer of the NewHope post-quantum key
exchange, `crypto/newhope/newhope.c`, in Dafny and proves properties of the model.

- **Reconciliation-data codec** (`codec.dfy`, module `RecCodec`). `encode_rec`
  packs a polynomial's 2-bit reconciliation coefficients into N/4 bytes, with
  coefficient 4i+j in bits 2j..2j+1 of byte i. `decode_rec` unpacks them again.
  Both are methods over arrays whose loops are proved against the sequence
  functions `EncodeRec` and `DecodeRec`. The lemmas prove both round trips, the
  2-bit range of decoded coefficients, where each bit goes, locality,
  injectivity, and that the 2-bit precondition is needed.
- **Message framing** (`protocol.dfy`, module `NewHope`). `NEWHOPE_offer`,
  `NEWHOPE_accept` and `NEWHOPE_finish` are methods that write into
  caller-supplied byte arrays. They are proved to:
  - check the exact message length and write nothing when it is wrong;
  - lay the messages out at offset `NEWHOPE_POLY_LENGTH`;
  - write `key` only when the length is right and hashing succeeds.

  Lemmas prove that the seed the offerer writes is the seed the accepter reads.
  They also prove that the helper data the finisher decodes is exactly the data
  the accepter encoded.
- **Constants** (`params.dfy`, module `NewHopeParams`). These are N = 1024,
  a 1792-byte polynomial encoding (14 bits per coefficient), a 32-byte seed,
  N/4 = 256 reconciliation bytes, and messages of 1824 and 2048 bytes.
  `internal.h` and `openssl/newhope.h`, which define them, are not part of this
  model. The values are those of the NewHope parameter set.

`newhope.c` calls primitives that it does not define: the NTT and its inverse,
pointwise multiplication and addition, uniform sampling from a seed, polynomial
(de)serialisation, `newhope_helprec`, `newhope_reconcile` and SHA-256. They are
the function-valued fields of the datatype `NewHope.Primitives`. Every lemma
holds for any primitives that meet the hypotheses the lemma states, and most
lemmas state none. SHA-256 returns an `Option`, and `None` stands for
a failing `SHA256_Init`/`Update`/`Final`. Randomness is passed in as arguments:
the noise polynomials from `newhope_poly_getnoise`, the seed, and the 32 bytes
of reconciliation randomness from `RAND_bytes`. `NEWHOPE_accept_computation` and
`NEWHOPE_finish_computation` (lines 138-166) are the functions
`AcceptComputation` and `FinishComputation`, which compose those primitives.

Coefficients are `bv16`, the `uint16_t` of `NEWHOPE_POLY`, and bytes are `bv8`.
`encode_rec` is modelled as written. The coefficients are promoted to a 32-bit
int, shifted, or-ed and truncated to a byte, and no coefficient is masked. A
coefficient above 3 therefore spills into its neighbour's field, as
`EncodeRecOutOfRange` shows. The round trip holds exactly for 2-bit data.

On the hash-failure path, `NEWHOPE_accept` has already written `acceptmsg`
(lines 101-102) when it hashes (lines 104-109). A hash failure therefore leaves
the accept message written, and `NewHope.Accept` states this. The result of
`RAND_bytes` (lines 57 and 95) is ignored, in the model as in the code.

## Model

| member | source | states |
|---|---|---|
| `RecCodec.PackByte` | crypto/newhope/newhope.c:33-34 | definition: one byte of `encode_rec`, the or of the four coefficients shifted by 0, 2, 4 and 6, cut to 8 bits; `PackDigits` and `UnpackPackByte` state what it means |
| `RecCodec.UnpackCoeff` | crypto/newhope/newhope.c:42-45 | each field `decode_rec` extracts is at most 3, including the unmasked `r[i] >> 6` |
| `RecCodec.DecodeRec` | crypto/newhope/newhope.c:38-47 | decoding r bytes yields 4·r coefficients, all 2-bit values |
| `RecCodec.EncodeRec` | crypto/newhope/newhope.c:30-36 | encoding n coefficients yields exactly n/4 bytes |
| `RecCodec.EncodeRecInto` | crypto/newhope/newhope.c:30-36 | the loop writes the N/4 bytes `EncodeRec` specifies at the given offset and leaves every other byte of the buffer unchanged |
| `RecCodec.DecodeRecFrom` | crypto/newhope/newhope.c:38-47 | the loop fills all N coefficients with `DecodeRec` of the N/4 bytes at the given offset |
| `RecCodec.UnpackPackByte` | crypto/newhope/newhope.c:30-47 | unpacking a byte packed from four 2-bit coefficients returns each of them |
| `RecCodec.PackUnpackByte` | crypto/newhope/newhope.c:30-47 | packing the four fields unpacked from any byte rebuilds that byte |
| `RecCodec.DecodeEncodeRec` | crypto/newhope/newhope.c:30-47 | for 2-bit coefficients, decode(encode(c)) == c |
| `RecCodec.EncodeDecodeRec` | crypto/newhope/newhope.c:30-47 | for every byte string, encode(decode(r)) == r, so every bit of every byte is used |
| `RecCodec.EncodeRecDigits` | crypto/newhope/newhope.c:32-35 | byte i, read as a number, has coefficients 4i..4i+3 as its base-4 digits, lowest first |
| `RecCodec.PackDigits` | crypto/newhope/newhope.c:33-34 | the or-of-shifts of four 2-bit values equals c0 + 4c1 + 16c2 + 64c3 |
| `RecCodec.DecodeRecDigits` | crypto/newhope/newhope.c:41-46 | every byte equals the base-4 number whose digits are its four decoded coefficients |
| `RecCodec.EncodeRecLocal` | crypto/newhope/newhope.c:32-35 | byte i of the encoding depends only on coefficients 4i..4i+3 |
| `RecCodec.EncodeRecInjective` | crypto/newhope/newhope.c:30-36 | two 2-bit polynomials with the same encoding are equal |
| `RecCodec.DecodeRecInjective` | crypto/newhope/newhope.c:38-47 | two byte strings with the same decoding are equal, so any bit change alters the decoded data |
| `RecCodec.EncodeRecOutOfRange` | crypto/newhope/newhope.c:33-34 | without the 2-bit range the encoding loses information: [4,0,0,0] and [0,1,0,0] encode alike |
| `NewHope.OfferLayout` | crypto/newhope/newhope.c:53-68 | an offer message is exactly `NEWHOPE_OFFERMSG_LENGTH` bytes |
| `NewHope.AcceptLayout` | crypto/newhope/newhope.c:101-102 | an accept message is exactly `NEWHOPE_ACCEPTMSG_LENGTH` bytes |
| `NewHope.AcceptRecField` | crypto/newhope/newhope.c:124 | the reconciliation field at offset `NEWHOPE_POLY_LENGTH` is N/4 bytes long |
| `NewHope.OfferPolyField` | crypto/newhope/newhope.c:84 | definition: the first `NEWHOPE_POLY_LENGTH` bytes of an offer, which `NEWHOPE_POLY_frombytes` reads; `OfferFieldsOfLayout` relates it to the layout |
| `NewHope.OfferSeedField` | crypto/newhope/newhope.c:82 | definition: the 32 seed bytes at offset `NEWHOPE_POLY_LENGTH`; `OfferFieldsOfLayout` relates it to the layout |
| `NewHope.AcceptPolyField` | crypto/newhope/newhope.c:123 | definition: the first `NEWHOPE_POLY_LENGTH` bytes of an accept message, which `NEWHOPE_POLY_frombytes` reads; `AcceptFieldsOfLayout` relates it to the layout |
| `NewHope.OfferComputation` | crypto/newhope/newhope.c:50-67 | definition: sk = NTT(noise), `a` expanded from the seed, pk = NTT(e) + sk·a; `Offer` is proved to return this sk |
| `NewHope.OfferMessage` | crypto/newhope/newhope.c:56-68 | definition: the serialised pk laid out before the seed; `Offer` is proved to write exactly this |
| `NewHope.AcceptComputation` | crypto/newhope/newhope.c:138-157 | definition: bp = a·s' + NTT(e'), v = invNTT(pk·s') + e'', c = helprec(v, rand), k = reconcile(v, c); `HonestRun` states what the accepter feeds it |
| `NewHope.FinishComputation` | crypto/newhope/newhope.c:159-166 | definition: k = reconcile(invNTT(sk·bp), c); `HonestRun` states what the finisher feeds it |
| `NewHope.AcceptOf` | crypto/newhope/newhope.c:79-100 | definition: the accept computation on the seed and pk read from an offer; `OfferSeedReachesAccepter` relates these to the offer side |
| `NewHope.AcceptMessage` | crypto/newhope/newhope.c:101-102 | definition: serialised bp laid out before `EncodeRec(c)`; `Accept` is proved to write exactly this |
| `NewHope.FinishRawKey` | crypto/newhope/newhope.c:121-127 | definition: the finish computation on bp and the decoded helper data read from an accept message; `FinishDecodesAcceptHelpData` relates it to the accept side |
| `NewHope.OfferFieldsOfLayout` | crypto/newhope/newhope.c:56-84 | the accepter's reads of the polynomial and seed fields return what the offerer laid out |
| `NewHope.OfferLayoutOfFields` | crypto/newhope/newhope.c:82-84 | every offer-length message is the layout of its two fields |
| `NewHope.AcceptFieldsOfLayout` | crypto/newhope/newhope.c:101-124 | the finisher's reads of the polynomial and reconciliation fields return what the accepter laid out |
| `NewHope.AcceptLayoutOfFields` | crypto/newhope/newhope.c:123-124 | every accept-length message is the layout of its two fields |
| `NewHope.OfferSeedReachesAccepter` | crypto/newhope/newhope.c:56-84 | the accepter reads the offerer's seed, derives the offerer's `a`, and deserialises the offerer's serialised `pk` |
| `NewHope.FinishDecodesAcceptHelpData` | crypto/newhope/newhope.c:101-127 | the finisher decodes, from offset `NEWHOPE_POLY_LENGTH`, exactly the 2-bit helper data the accepter encoded there, and feeds it to the finish computation |
| `NewHope.HonestRun` | crypto/newhope/newhope.c:49-166 | if helprec yields 2-bit data and deserialising gives back the two polynomials that are sent (`pk` and `bp`), accept computes on the offerer's `pk` and `a`, and finish computes on the accepter's `bp` and `c` |
| `NewHope.CopyInto` | crypto/newhope/newhope.c:101 | writing a serialised field puts exactly its bytes at the offset and leaves the rest of the buffer unchanged |
| `NewHope.WriteAcceptMessage` | crypto/newhope/newhope.c:101-102 | the accept buffer ends up holding the serialised `bp` followed by `EncodeRec` of the helper data, and nothing else |
| `RecCodec.DecodeRecAt` | crypto/newhope/newhope.c:41-45 | coefficient 4i+j of the decoding is field j of byte i |
| `NewHope.Offer` | crypto/newhope/newhope.c:49-69 | returns sk = NTT(noise) and fills the buffer with the serialised `pk` followed by the seed, with `a` expanded from the seed bytes in the buffer |
| `NewHope.Accept` | crypto/newhope/newhope.c:71-112 | a wrong message length returns failure and writes neither `key` nor `acceptmsg`; otherwise it writes the accept message and returns success exactly when hashing succeeds, in which case `key` is the digest |
| `NewHope.Finish` | crypto/newhope/newhope.c:114-136 | a wrong message length returns failure and leaves `key` untouched; otherwise success exactly when hashing succeeds, with `key` the digest of the key reconciled from the message's `bp` and its decoded helper data |

## Left out

- `NEWHOPE_POLY_new` / `NEWHOPE_POLY_free` (lines 23-27): allocation wrappers with no logic.
- NTT, inverse NTT, pointwise multiplication, addition, uniform and noise sampling, `newhope_helprec`, `newhope_reconcile`, and polynomial (de)serialisation: their bodies are in files that are not part of this model. They are arbitrary functions here. The only properties assumed of them are the hypotheses that `HonestRun` and `FinishDecodesAcceptHelpData` state.
- `RAND_bytes` and `newhope_poly_getnoise`: randomness is an argument of the operations. The source ignores the result of `RAND_bytes`, so a failing random source is not modelled.
- SHA-256: a function returning either a digest or failure. Its internals are not modelled.
- NewHope.Accept: a failing SHA-256 call is assumed to write nothing to `key`. In the code `SHA256_Final` (line 107) is what writes `key`, and nothing in `newhope.c` says what a failing call leaves there.
- NewHope.Finish: a failing SHA-256 call is assumed to write nothing to `key`, as for `NewHope.Accept`. Here `SHA256_Final` is at line 131.
- NewHope.HonestRun: assumes that deserialising gives back `pk` and `bp`. This holds for polynomials whose coefficients are below the modulus 12289. The serialiser is not part of this model, so the lemma takes it as a hypothesis.
- End-to-end key agreement: whether the two sides' `v` reconcile to the same raw key depends on noise bounds and is probabilistic, so it is not modelled. `HonestRun` reduces agreement to that question.
- Aliasing of the caller's buffers is not modelled: each message is read into a value before any output is written.
- Constant-time behaviour, zeroisation of the secret polynomial, and concurrency.

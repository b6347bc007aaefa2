/**
 * Sizes of the NewHope key exchange. They are fixed by the scheme: a
 * polynomial has N coefficients, is serialised with 14 bits per
 * coefficient, and the reconciliation data takes 2 bits per coefficient.
 */
module NewHopeParams {

  /** PARAM_N: the number of coefficients of a polynomial. */
  const N: nat := 1024

  /** NEWHOPE_POLY_LENGTH: bytes of a serialised polynomial (14 bits per coefficient). */
  const PolyLength: nat := (N * 14) / 8

  /** SEED_LENGTH: bytes of the seed from which the public polynomial `a` is expanded. */
  const SeedLength: nat := 32

  /** Bytes of packed reconciliation data: four 2-bit coefficients per byte. */
  const RecLength: nat := N / 4

  /** NEWHOPE_OFFERMSG_LENGTH: serialised public polynomial followed by the seed. */
  const OfferMsgLength: nat := PolyLength + SeedLength

  /** NEWHOPE_ACCEPTMSG_LENGTH: serialised public polynomial followed by the reconciliation data. */
  const AcceptMsgLength: nat := PolyLength + RecLength

  /** NEWHOPE_KEY_LENGTH: bytes of the raw key that reconciliation produces. */
  const KeyLength: nat := 32

  /** Bytes of the random input to helper-data generation. */
  const RecRandLength: nat := 32

  /** SHA256_DIGEST_LENGTH: bytes of the final shared key. */
  const DigestLength: nat := 32
}

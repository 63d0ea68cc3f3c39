/** The opening and equality proofs hide their witnesses: each accepted proof has one nonce for every witness. */
module ZkBalanceNonces {
  import opened ModularArithmetic
  import opened ZkBalance
  import opened ZkBalanceProofs
  import opened ZkBalanceSoundness

  // ----- openings

  /** The nonces a prover that knows the opening must have drawn to return this proof. */
  function OpeningNonces(pp: Params, hash: Hash, C: Point, p: OpeningProof, value: int, blinding: int): (x: (nat, nat))
    requires pp.n > 0
    ensures x.0 < pp.n && x.1 < pp.n
  {
    var c := ChallengeFrom(pp, hash, [C, p.T]);
    ((p.z1 - c * ToScalar(pp, value)) % pp.n, (p.z2 - c * ToScalar(pp, blinding)) % pp.n)
  }

  /** Whoever answers like the prover, to an accepted proof, has announced `a*G + b*H`. */
  lemma AnnouncementFits(pp: Params, T: Point, C: Point, c: int, v: int, r: int, a: int, b: int)
    requires ValidParams(pp) && T < pp.n && Cong(C, v * pp.g + r * pp.h, pp.n)
    requires Cong(((a + c * v) % pp.n) * pp.g + ((b + c * r) % pp.n) * pp.h, T + c * C, pp.n)
    ensures Add(pp, Mul(pp, pp.g, a), Mul(pp, pp.h, b)) == T
  {
    var n, x, w := pp.n, a * pp.g + b * pp.h, v * pp.g + r * pp.h;
    var z, T' := ((a + c * v) % n) * pp.g + ((b + c * r) % n) * pp.h, Add(pp, Mul(pp, pp.g, a), Mul(pp, pp.h, b));
    OpeningResponses(pp, a, b, c, v, r);
    CombinationCong(pp, a, b);
    Reduced(c * w, n);
    CongAdd(T', x, c * w, c * w, n);
    CongSym(T' + c * w, x + c * w, n);
    CongTrans(z, x + c * w, T' + c * w, n);
    ShiftTarget(T, C, c, w, n);
    CongSym(z, T + c * C, n);
    CongSym(T + c * C, T + c * w, n);
    CongTrans(T + c * w, T + c * C, z, n);
    CongTrans(T + c * w, z, T' + c * w, n);
    SameAnnouncement(T, T', c * w, n);
  }

  lemma ShiftTarget(t: int, x: int, c: int, w: int, n: nat)
    requires n > 0 && Cong(x, w, n)
    ensures Cong(t + c * x, t + c * w, n)
  {
    Reduced(c, n);
    Reduced(t, n);
    CongMul(c, c, x, w, n);
    CongAdd(t, t, c * x, c * w, n);
  }

  lemma CommitOfScalars(pp: Params, value: int, blinding: int)
    requires ValidParams(pp)
    ensures Cong(CommitWithBlinding(pp, value, blinding),
                 ToScalar(pp, value) * pp.g + ToScalar(pp, blinding) * pp.h, pp.n)
  {
    var n, v, r := pp.n, ToScalar(pp, value), ToScalar(pp, blinding);
    CommitCong(pp, value, blinding);
    ScaleCong(v, value, pp.g, n);
    ScaleCong(r, blinding, pp.h, n);
    CongAdd(v * pp.g, value * pp.g, r * pp.h, blinding * pp.h, n);
    CongSym(v * pp.g + r * pp.h, value * pp.g + blinding * pp.h, n);
    CongTrans(CommitWithBlinding(pp, value, blinding), value * pp.g + blinding * pp.h, v * pp.g + r * pp.h, n);
  }

  /**
   For every accepted opening proof with reduced scalars and every opening of the commitment,
   exactly one reduced pair of nonces makes the prover return it: the proof tells the opening it
   was made with from no other.
   */
  lemma ExactlyOneOpeningPair(pp: Params, hash: Hash, C: Point, p: OpeningProof, value: int, blinding: int,
                              a: nat, b: nat)
    requires ValidParams(pp) && C == CommitWithBlinding(pp, value, blinding) && VerifyOpening(pp, hash, C, p)
    requires 0 <= p.z1 < pp.n && 0 <= p.z2 < pp.n && a < pp.n && b < pp.n
    ensures ProveOpening(pp, hash, C, value, blinding, a, b) == p <==>
            (a, b) == OpeningNonces(pp, hash, C, p, value, blinding)
  {
    var c, v, r := ChallengeFrom(pp, hash, [C, p.T]), ToScalar(pp, value), ToScalar(pp, blinding);
    AnswerFits(a, c, v, p.z1, pp.n);
    AnswerFits(b, c, r, p.z2, pp.n);
    if (a, b) == OpeningNonces(pp, hash, C, p, value, blinding) {
      OpeningEquation(pp, hash, C, p);
      CommitOfScalars(pp, value, blinding);
      AnnouncementFits(pp, p.T, C, c, v, r, a, b);
    }
  }

  // ----- equality

  /** The nonce a prover that knows both blindings must have drawn to return this proof. */
  function EqualityNonce(pp: Params, hash: Hash, C1: Point, C2: Point, p: EqualityProof, r1: int, r2: int): (k: nat)
    requires pp.n > 0
    ensures k < pp.n
  {
    var delta := (ToScalar(pp, r1) - ToScalar(pp, r2)) % pp.n;
    (p.z - ChallengeFrom(pp, hash, [C1, C2, p.T]) * delta) % pp.n
  }

  lemma SameValueDifference(pp: Params, value: int, r1: int, r2: int)
    requires ValidParams(pp)
    ensures var delta := (ToScalar(pp, r1) - ToScalar(pp, r2)) % pp.n;
            var x1: int, x2: int := CommitWithBlinding(pp, value, r1), CommitWithBlinding(pp, value, r2);
            Cong(x1 - x2, delta * pp.h, pp.n)
  {
    var n := pp.n;
    var x1: int, x2: int := CommitWithBlinding(pp, value, r1), CommitWithBlinding(pp, value, r2);
    var delta := (ToScalar(pp, r1) - ToScalar(pp, r2)) % n;
    DifferenceOfCommitments(pp, value, r1, value, r2);
    assert (value - value) * pp.g + (r1 - r2) * pp.h == (r1 - r2) * pp.h;
    BlindingDifference(pp, r1, r2);
    ScaleCong(delta, r1 - r2, pp.h, n);
    CongSym(delta * pp.h, (r1 - r2) * pp.h, n);
    CongTrans(x1 - x2, (r1 - r2) * pp.h, delta * pp.h, n);
  }

  /**
   For every accepted equality proof with a reduced scalar, and every value and blindings that open
   the two commitments, exactly one reduced nonce makes the prover return it.
   */
  lemma ExactlyOneEqualityNonce(pp: Params, hash: Hash, p: EqualityProof, value: int, r1: int, r2: int, k: nat)
    requires ValidParams(pp) && k < pp.n && 0 <= p.z < pp.n
    requires VerifyEqualOpenings(pp, hash, CommitWithBlinding(pp, value, r1), CommitWithBlinding(pp, value, r2), p)
    ensures var C1, C2 := CommitWithBlinding(pp, value, r1), CommitWithBlinding(pp, value, r2);
            ProveEqualOpenings(pp, hash, C1, C2, r1, r2, k) == p <==> k == EqualityNonce(pp, hash, C1, C2, p, r1, r2)
  {
    var C1, C2 := CommitWithBlinding(pp, value, r1), CommitWithBlinding(pp, value, r2);
    var delta, c := (ToScalar(pp, r1) - ToScalar(pp, r2)) % pp.n, ChallengeFrom(pp, hash, [C1, C2, p.T]);
    SameValueDifference(pp, value, r1, r2);
    EqualityEquation(pp, hash, C1, C2, p);
    RealBranchFits(pp, p.T, C1 as int - C2 as int, delta, c, p.z, k);
  }
}

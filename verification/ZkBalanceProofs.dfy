/** The verifiers' equations as congruences, and exactly which of the provers' proofs are accepted. */
module ZkBalanceProofs {
  import opened Wrappers
  import opened ModularArithmetic
  import opened ZkBalance

  // ----- the verifiers' equations, as congruences

  lemma MulCong(pp: Params, p: int, k: int)
    requires pp.n > 0
    ensures Cong(Mul(pp, p, k), k * p, pp.n)
  {
    Reduced(k * p, pp.n);
  }

  lemma AddCong(pp: Params, p: int, x: int, q: int, y: int)
    requires pp.n > 0 && Cong(p, x, pp.n) && Cong(q, y, pp.n)
    ensures Cong(Add(pp, p, q), x + y, pp.n)
  {
    Reduced(p + q, pp.n);
    CongAdd(p, x, q, y, pp.n);
    CongTrans(Add(pp, p, q), p + q, x + y, pp.n);
  }

  /** Two residues are equal exactly when the integers they stand for are congruent. */
  lemma SameResidue(n: nat, a: nat, x: int, b: nat, y: int)
    requires a < n && b < n && Cong(a, x, n) && Cong(b, y, n)
    ensures a == b <==> Cong(x, y, n)
  {
    ResidueEq(a, b, n);
    if a == b {
      CongSym(a, x, n);
      CongTrans(x, a, y, n);
    }
    if Cong(x, y, n) {
      CongTrans(a, x, y, n);
      CongSym(b, y, n);
      CongTrans(a, y, b, n);
    }
  }

  /** `x*G + y*H` computed on points. */
  lemma CombinationCong(pp: Params, x: int, y: int)
    requires pp.n > 0
    ensures Cong(Add(pp, Mul(pp, pp.g, x), Mul(pp, pp.h, y)), x * pp.g + y * pp.h, pp.n)
  {
    MulCong(pp, pp.g, x);
    MulCong(pp, pp.h, y);
    AddCong(pp, Mul(pp, pp.g, x), x * pp.g, Mul(pp, pp.h, y), y * pp.h);
  }

  /** `T + c*P` computed on points. */
  lemma ResponseCong(pp: Params, T: Point, P: Point, x: int, c: int)
    requires pp.n > 0 && Cong(P, x, pp.n)
    ensures Cong(Add(pp, T, Mul(pp, P, c)), T + c * x, pp.n)
  {
    MulCong(pp, P, c);
    Reduced(c, pp.n);
    Reduced(T, pp.n);
    CongMul(c, c, P, x, pp.n);
    CongTrans(Mul(pp, P, c), c * P, c * x, pp.n);
    AddCong(pp, T, T, Mul(pp, P, c), c * x);
  }

  lemma OpeningEquation(pp: Params, hash: Hash, C: Point, proof: OpeningProof)
    requires pp.n > 0 && C < pp.n && proof.T < pp.n
    ensures var c := ChallengeFrom(pp, hash, [C, proof.T]);
            VerifyOpening(pp, hash, C, proof) <==> Cong(proof.z1 * pp.g + proof.z2 * pp.h, proof.T + c * C, pp.n)
  {
    var c := ChallengeFrom(pp, hash, [C, proof.T]);
    CombinationCong(pp, proof.z1, proof.z2);
    Reduced(C, pp.n);
    ResponseCong(pp, proof.T, C, C, c);
    SameResidue(pp.n, Add(pp, Mul(pp, pp.g, proof.z1), Mul(pp, pp.h, proof.z2)), proof.z1 * pp.g + proof.z2 * pp.h,
                Add(pp, proof.T, Mul(pp, C, c)), proof.T + c * C);
  }

  lemma DifferenceCong(pp: Params, p: Point, q: Point)
    requires pp.n > 0
    ensures Cong(Add(pp, p, Neg(pp, q)), p - q, pp.n)
  {
    var y: int := q;
    Reduced(p, pp.n);
    Reduced(-y, pp.n);
    AddCong(pp, p, p, Neg(pp, q), -y);
  }

  /** The Schnorr check to base H, for a point standing for `x`. */
  lemma SchnorrEquation(pp: Params, T: Point, P: Point, x: int, c: int, z: int)
    requires pp.n > 0 && T < pp.n && Cong(P, x, pp.n)
    ensures Mul(pp, pp.h, z) == Add(pp, T, Mul(pp, P, c)) <==> Cong(z * pp.h, T + c * x, pp.n)
  {
    var lhs, rhs := Mul(pp, pp.h, z), Add(pp, T, Mul(pp, P, c));
    assert Cong(lhs, z * pp.h, pp.n) by { MulCong(pp, pp.h, z); }
    assert Cong(rhs, T + c * x, pp.n) by { ResponseCong(pp, T, P, x, c); }
    SameResidue(pp.n, lhs, z * pp.h, rhs, T + c * x);
  }

  lemma EqualityEquation(pp: Params, hash: Hash, c1: Point, c2: Point, proof: EqualityProof)
    requires pp.n > 0 && proof.T < pp.n
    ensures var c := ChallengeFrom(pp, hash, [c1, c2, proof.T]);
            VerifyEqualOpenings(pp, hash, c1, c2, proof) <==> Cong(proof.z * pp.h, proof.T + c * (c1 - c2), pp.n)
  {
    DifferenceCong(pp, c1, c2);
    SchnorrEquation(pp, proof.T, Add(pp, c1, Neg(pp, c2)), c1 - c2, ChallengeFrom(pp, hash, [c1, c2, proof.T]),
      proof.z);
  }

  lemma BranchCong(pp: Params, C: Point, index: int)
    requires pp.n > 0 && C < pp.n && (index == 0 || index == 1)
    ensures Cong(Branch(pp, C, index), C - index * pp.g, pp.n)
  {
    if index == 0 {
      Reduced(C, pp.n);
    } else {
      DifferenceCong(pp, C, pp.g);
    }
  }

  lemma BitEquations(pp: Params, hash: Hash, C: Point, proof: BitProof)
    requires pp.n > 0 && C < pp.n && proof.T0 < pp.n && proof.T1 < pp.n
    ensures VerifyBit(pp, hash, C, proof) <==>
            && Cong(proof.c0 + proof.c1, ChallengeFrom(pp, hash, [C, proof.T0, proof.T1]), pp.n)
            && Cong(proof.z0 * pp.h, proof.T0 + proof.c0 * C, pp.n)
            && Cong(proof.z1 * pp.h, proof.T1 + proof.c1 * (C - pp.g), pp.n)
  {
    var c := ChallengeFrom(pp, hash, [C, proof.T0, proof.T1]);
    Reduced(proof.c0 + proof.c1, pp.n);
    Reduced(c, pp.n);
    SameResidue(pp.n, (proof.c0 + proof.c1) % pp.n, proof.c0 + proof.c1, c, c);
    BranchCong(pp, C, 0);
    BranchCong(pp, C, 1);
    SchnorrEquation(pp, proof.T0, Branch(pp, C, 0), C, proof.c0, proof.z0);
    SchnorrEquation(pp, proof.T1, Branch(pp, C, 1), C - pp.g, proof.c1, proof.z1);
  }

  lemma CommitCong(pp: Params, value: int, blinding: int)
    requires pp.n > 0
    ensures Cong(CommitWithBlinding(pp, value, blinding), value * pp.g + blinding * pp.h, pp.n)
  {
    var n := pp.n;
    CombinationCong(pp, value % n, blinding % n);
    ScaleCong(value % n, value, pp.g, n);
    ScaleCong(blinding % n, blinding, pp.h, n);
    CongAdd((value % n) * pp.g, value * pp.g, (blinding % n) * pp.h, blinding * pp.h, n);
    CongTrans(CommitWithBlinding(pp, value, blinding), (value % n) * pp.g + (blinding % n) * pp.h,
              value * pp.g + blinding * pp.h, n);
  }

  lemma ScaleCong(a: int, b: int, p: int, n: nat)
    requires n > 0 && (Cong(a, b, n) || a == b % n)
    ensures Cong(a * p, b * p, n)
  {
    Reduced(b, n);
    Reduced(p, n);
    CongMul(a, b, p, p, n);
  }

  /** A common summand cancels from both sides of a congruence. */
  lemma CancelSummand(x: int, y: int, a: int, u: int, w: int, n: nat)
    requires n > 0 && Cong(x, a + u, n) && Cong(y, a + w, n)
    ensures Cong(x, y, n) <==> Cong(u, w, n)
  {
    CongIsMod(x, a + u, n);
    CongIsMod(y, a + w, n);
    CongIsMod(x, y, n);
    CongIsMod(a + u, a + w, n);
    DifferenceZero(a + u, a + w, n);
    DifferenceZero(u, w, n);
    assert (a + u) - (a + w) == u - w;
  }

  /** `c*u` and `c*w` agree exactly when `c` vanishes or `u` and `w` agree. */
  lemma ScaledAgree(c: int, u: int, w: int, n: nat)
    requires Prime(n)
    ensures Cong(c * u, c * w, n) <==> Cong(c, 0, n) || Cong(u, w, n)
  {
    if Cong(c, 0, n) {
      Reduced(u, n);
      Reduced(w, n);
      CongMul(c, 0, u, u, n);
      CongMul(c, 0, w, w, n);
      CongSym(c * w, 0 * w, n);
      CongTrans(c * u, 0, c * w, n);
    } else {
      Cancel(c, u, w, n);
    }
  }

  // ----- exactly which honest proofs are accepted

  /** The responses of the opening prover, multiplied out. */
  lemma OpeningResponses(pp: Params, a: int, b: int, c: int, v: int, r: int)
    requires pp.n > 0
    ensures Cong(((a + c * v) % pp.n) * pp.g + ((b + c * r) % pp.n) * pp.h,
                 (a * pp.g + b * pp.h) + c * (v * pp.g + r * pp.h), pp.n)
  {
    var n, z1, z2 := pp.n, (a + c * v) % pp.n, (b + c * r) % pp.n;
    ScaleCong(z1, a + c * v, pp.g, n);
    ScaleCong(z2, b + c * r, pp.h, n);
    CongAdd(z1 * pp.g, (a + c * v) * pp.g, z2 * pp.h, (b + c * r) * pp.h, n);
    assert (a + c * v) * pp.g + (b + c * r) * pp.h == (a * pp.g + b * pp.h) + c * (v * pp.g + r * pp.h);
  }

  /**
   The verifier accepts the prover's opening proof exactly when the claimed pair opens the
   commitment, or the challenge is zero.
   */
  lemma OpeningAcceptedExactly(pp: Params, hash: Hash, C: Point, value: int, blinding: int, a: int, b: int)
    requires ValidParams(pp) && C < pp.n
    ensures var proof := ProveOpening(pp, hash, C, value, blinding, a, b);
            VerifyOpening(pp, hash, C, proof) <==>
            ChallengeFrom(pp, hash, [C, proof.T]) == 0 || C == CommitWithBlinding(pp, value, blinding)
  {
    var n, v, r := pp.n, value % pp.n, blinding % pp.n;
    var proof := ProveOpening(pp, hash, C, value, blinding, a, b);
    var c := ChallengeFrom(pp, hash, [C, proof.T]);
    var announced, claimed := a * pp.g + b * pp.h, v * pp.g + r * pp.h;
    OpeningEquation(pp, hash, C, proof);
    OpeningResponses(pp, a, b, c, v, r);
    CombinationCong(pp, a, b);
    Reduced(c * C, n);
    CongAdd(proof.T, announced, c * C, c * C, n);
    CancelSummand(proof.z1 * pp.g + proof.z2 * pp.h, proof.T + c * C, announced, c * claimed, c * C, n);
    ScaledAgree(c, claimed, C, n);
    CombinationCong(pp, v, r);
    Reduced(C, n);
    SameResidue(n, CommitWithBlinding(pp, value, blinding), claimed, C, C);
    ResidueEq(c, 0, n);
  }

  lemma DifferenceOfCommitments(pp: Params, v1: int, r1: int, v2: int, r2: int)
    requires pp.n > 0
    ensures Cong(CommitWithBlinding(pp, v1, r1) - CommitWithBlinding(pp, v2, r2),
                 (v1 - v2) * pp.g + (r1 - r2) * pp.h, pp.n)
  {
    CommitCong(pp, v1, r1);
    CommitCong(pp, v2, r2);
    CongAdd(CommitWithBlinding(pp, v1, r1), v1 * pp.g + r1 * pp.h,
            CommitWithBlinding(pp, v2, r2), v2 * pp.g + r2 * pp.h, pp.n);
    assert (v1 * pp.g + r1 * pp.h) - (v2 * pp.g + r2 * pp.h) == (v1 - v2) * pp.g + (r1 - r2) * pp.h;
  }

  /** The response of a Schnorr prover to base H, multiplied out. */
  lemma SchnorrResponse(h: int, k: int, c: int, r: int, n: nat)
    requires n > 0
    ensures Cong(((k + c * r) % n) * h, k * h + c * (r * h), n)
  {
    ScaleCong((k + c * r) % n, k + c * r, h, n);
    assert (k + c * r) * h == k * h + c * (r * h);
  }

  lemma BlindingDifference(pp: Params, r1: int, r2: int)
    requires pp.n > 0
    ensures Cong((ToScalar(pp, r1) - ToScalar(pp, r2)) % pp.n, r1 - r2, pp.n)
  {
    var n := pp.n;
    var d := ToScalar(pp, r1) as int - ToScalar(pp, r2) as int;
    Reduced(r1, n);
    Reduced(r2, n);
    Reduced(d, n);
    CongAdd(r1 % n, r1, r2 % n, r2, n);
    CongTrans(d % n, d, r1 - r2, n);
  }

  lemma EqualityResponse(h: int, k: int, c: int, delta: int, d: int, n: nat)
    requires n > 0 && Cong(delta, d, n)
    ensures Cong(((k + c * delta) % n) * h, k * h + c * (d * h), n)
  {
    SchnorrResponse(h, k, c, delta, n);
    ScaleCong(delta, d, h, n);
    Reduced(c, n);
    Reduced(k * h, n);
    CongMul(c, c, delta * h, d * h, n);
    CongAdd(k * h, k * h, c * (delta * h), c * (d * h), n);
    CongTrans(((k + c * delta) % n) * h, k * h + c * (delta * h), k * h + c * (d * h), n);
  }

  lemma EqualityTarget(pp: Params, T: Point, k: int, c: int, diff: int, w: int)
    requires pp.n > 0 && T == Mul(pp, pp.h, k) && Cong(diff, w, pp.n)
    ensures Cong(T + c * diff, k * pp.h + c * w, pp.n)
  {
    MulCong(pp, pp.h, k);
    Reduced(c, pp.n);
    CongMul(c, c, diff, w, pp.n);
    CongAdd(T, k * pp.h, c * diff, c * w, pp.n);
  }

  lemma SameValueCong(pp: Params, v: int, u: int)
    requires ValidParams(pp)
    ensures Cong(u, v * pp.g + u, pp.n) <==> Cong(v, 0, pp.n)
  {
    var w := v * pp.g + u;
    CongIsMod(u, w, pp.n);
    CongIsMod(w, u, pp.n);
    DifferenceZero(w, u, pp.n);
    assert w - u == pp.g * v;
    ResidueEq(pp.g, 0, pp.n);
    CancelZero(pp.g, v, pp.n);
  }

  /**
   The verifier accepts the prover's equality proof for two commitments exactly when they
   commit to the same value modulo the order, or the challenge is zero.
   */
  lemma EqualityAcceptedExactly(pp: Params, hash: Hash, v1: int, r1: int, v2: int, r2: int, k: int)
    requires ValidParams(pp)
    ensures var c1, c2 := CommitWithBlinding(pp, v1, r1), CommitWithBlinding(pp, v2, r2);
            var proof := ProveEqualOpenings(pp, hash, c1, c2, r1, r2, k);
            VerifyEqualOpenings(pp, hash, c1, c2, proof) <==>
            ChallengeFrom(pp, hash, [c1, c2, proof.T]) == 0 || Cong(v1, v2, pp.n)
  {
    var n := pp.n;
    var c1: int, c2: int := CommitWithBlinding(pp, v1, r1), CommitWithBlinding(pp, v2, r2);
    var proof := ProveEqualOpenings(pp, hash, c1, c2, r1, r2, k);
    var c := ChallengeFrom(pp, hash, [c1, c2, proof.T]);
    var delta := (ToScalar(pp, r1) - ToScalar(pp, r2)) % n;
    var u, w := (r1 - r2) * pp.h, (v1 - v2) * pp.g + (r1 - r2) * pp.h;

    var lhs: int, rhs: int := proof.z * pp.h, proof.T + c * (c1 - c2);
    assert VerifyEqualOpenings(pp, hash, c1, c2, proof) <==> Cong(lhs, rhs, n) by {
      EqualityEquation(pp, hash, c1, c2, proof);
    }
    assert Cong(lhs, k * pp.h + c * u, n) by {
      BlindingDifference(pp, r1, r2);
      EqualityResponse(pp.h, k, c, delta, r1 - r2, n);
    }
    assert Cong(rhs, k * pp.h + c * w, n) by {
      DifferenceOfCommitments(pp, v1, r1, v2, r2);
      EqualityTarget(pp, proof.T, k, c, c1 - c2, w);
    }
    assert Cong(lhs, rhs, n) <==> Cong(c, 0, n) || Cong(u, w, n) by {
      CancelSummand(lhs, rhs, k * pp.h, c * u, c * w, n);
      ScaledAgree(c, u, w, n);
    }
    assert Cong(c, 0, n) <==> c == 0 by { ResidueEq(c, 0, n); }
    assert Cong(u, w, n) <==> Cong(v1, v2, n) by {
      SameValueCong(pp, v1 - v2, u);
      DifferenceZero(v1, v2, n);
    }
  }

  // ----- bit proofs are always accepted

  /** The simulated branch: its announcement is solved for, so its equation holds by construction. */
  lemma SimulatedBranch(pp: Params, P: Point, x: int, zSim: int, cSim: int)
    requires pp.n > 0 && Cong(P, x, pp.n)
    ensures Cong(zSim * pp.h, Add(pp, Mul(pp, pp.h, zSim), Neg(pp, Mul(pp, P, cSim))) + cSim * x, pp.n)
  {
    var n, m := pp.n, Mul(pp, P, cSim);
    var T := Add(pp, Mul(pp, pp.h, zSim), Neg(pp, m));
    assert Cong(T, zSim * pp.h - cSim * x, n) by {
      MulCong(pp, pp.h, zSim);
      MulCong(pp, P, cSim);
      Reduced(cSim, n);
      CongMul(cSim, cSim, P, x, n);
      CongTrans(m, cSim * P, cSim * x, n);
      DifferenceCong(pp, Mul(pp, pp.h, zSim), m);
      CongAdd(Mul(pp, pp.h, zSim), zSim * pp.h, m, cSim * x, n);
      CongTrans(T, Mul(pp, pp.h, zSim) as int - m as int, zSim * pp.h - cSim * x, n);
    }
    Reduced(cSim * x, n);
    CongAdd(T, zSim * pp.h - cSim * x, cSim * x, cSim * x, n);
    CongSym(T + cSim * x, zSim * pp.h - cSim * x + cSim * x, n);
  }

  /** The real branch: a Schnorr proof for a point standing for `r*H`. */
  lemma RealBranch(pp: Params, x: int, r: int, k: int, c: int)
    requires pp.n > 0 && Cong(x, r * pp.h, pp.n)
    ensures Cong(((k + c * r) % pp.n) * pp.h, Mul(pp, pp.h, k) + c * x, pp.n)
  {
    var n := pp.n;
    SchnorrResponse(pp.h, k, c, r, n);
    EqualityTarget(pp, Mul(pp, pp.h, k), k, c, x, r * pp.h);
    CongSym(Mul(pp, pp.h, k) + c * x, k * pp.h + c * (r * pp.h), n);
    CongTrans(((k + c * r) % n) * pp.h, k * pp.h + c * (r * pp.h), Mul(pp, pp.h, k) + c * x, n);
  }

  lemma ChallengeSplit(total: int, cSim: int, n: nat)
    requires n > 0
    ensures Cong((total - cSim) % n + cSim, total, n)
  {
    Reduced(total - cSim, n);
    Reduced(cSim, n);
    CongAdd((total - cSim) % n, total - cSim, cSim, cSim, n);
  }

  lemma BitCommitment(pp: Params, bit: int, r: int)
    requires pp.n > 0 && (bit == 0 || bit == 1)
    ensures var C := Add(pp, Mul(pp, pp.g, bit), Mul(pp, pp.h, r)); Cong(C - bit * pp.g, r * pp.h, pp.n)
  {
    var C := Add(pp, Mul(pp, pp.g, bit), Mul(pp, pp.h, r));
    CombinationCong(pp, bit, r);
    Reduced(bit * pp.g, pp.n);
    CongAdd(C, bit * pp.g + r * pp.h, bit * pp.g, bit * pp.g, pp.n);
  }

  /** The prover returns a commitment to the bit, and refuses anything but a bit. */
  lemma BitProverCommits(pp: Params, hash: Hash, bit: int, blinding: int, nonces: Nonces)
    requires ValidParams(pp)
    ensures var res := ProveBit(pp, hash, bit, blinding, nonces);
            && (res.Ok? <==> bit == 0 || bit == 1)
            && (res.Ok? ==> res.value.0 == CommitWithBlinding(pp, bit, blinding))
  {
    if bit == 0 || bit == 1 {
      QuotientUnique(0, bit, bit / pp.n, bit % pp.n, pp.n);
    }
  }

  /** Every bit proof the prover returns is accepted, whatever the nonces and the hash. */
  lemma BitProofsAccepted(pp: Params, hash: Hash, bit: int, blinding: int, nonces: Nonces)
    requires ValidParams(pp)
    ensures var res := ProveBit(pp, hash, bit, blinding, nonces);
            res.Ok? ==> res.value.0 < pp.n && VerifyBit(pp, hash, res.value.0, res.value.1)
  {
    var res := ProveBit(pp, hash, bit, blinding, nonces);
    if res.Ok? {
      var (C, proof) := res.value;
      var r := ToScalar(pp, blinding);
      var total := ChallengeFrom(pp, hash, [C, proof.T0, proof.T1]);
      var g: int, x: int := pp.g, C;
      BitCommitment(pp, bit, r);
      BranchCong(pp, C, 1 - bit);
      BitEquations(pp, hash, C, proof);
      if bit == 0 {
        RealBranch(pp, x, r, nonces.k, proof.c0);
        SimulatedBranch(pp, Branch(pp, C, 1), x - g, nonces.zSim, nonces.cSim);
        ChallengeSplit(total, nonces.cSim, pp.n);
      } else {
        RealBranch(pp, x - g, r, nonces.k, proof.c1);
        SimulatedBranch(pp, Branch(pp, C, 0), x, nonces.zSim, nonces.cSim);
        ChallengeSplit(total, nonces.cSim, pp.n);
        assert proof.c1 + proof.c0 == proof.c0 + proof.c1;
      }
    }
  }
}

/** What a verifier's acceptance is worth, and what it does not reveal. */
module ZkBalanceSoundness {
  import opened Wrappers
  import opened ModularArithmetic
  import opened ZkBalance
  import opened ZkBalanceProofs

  // ----- special soundness: two answers to one announcement give the secret

  /** The quotient of two differences, modulo the order. */
  function Extracted(n: nat, z: int, z': int, c: int, c': int): (x: nat)
    requires n > 1
    ensures x < n
  {
    ((z - z') * Inverse(c - c', n)) % n
  }

  lemma Divide(d: int, x: int, u: int, n: nat)
    requires Prime(n) && !Cong(d, 0, n) && Cong(d * x, u, n)
    ensures Cong(x, Inverse(d, n) * u, n)
  {
    var w := Inverse(d, n);
    InverseCorrect(d, n);
    Reduced(w, n);
    Reduced(x, n);
    CongMul(w * d, 1, x, x, n);
    CongMul(w, w, d * x, u, n);
    assert (w * d) * x == w * (d * x);
    CongSym(w * (d * x), 1 * x, n);
    CongTrans(x, w * (d * x), w * u, n);
  }

  lemma SubtractAnswers(a: int, a': int, t: int, c: int, c': int, x: int, n: nat)
    requires n > 0 && Cong(a, t + c * x, n) && Cong(a', t + c' * x, n)
    ensures Cong((c - c') * x, a - a', n)
  {
    CongAdd(a, t + c * x, a', t + c' * x, n);
    assert (t + c * x) - (t + c' * x) == (c - c') * x;
    CongSym(a - a', (c - c') * x, n);
  }

  lemma ExtractedCong(z: int, z': int, c: int, c': int, p: int, n: nat)
    requires n > 1
    ensures Cong(Extracted(n, z, z', c, c') * p, (Inverse(c - c', n) * (z - z')) * p, n)
  {
    var w := Inverse(c - c', n);
    assert (z - z') * w == w * (z - z');
    ScaleCong(Extracted(n, z, z', c, c'), w * (z - z'), p, n);
  }

  lemma SchnorrSoundness(h: int, t: int, x: int, c: int, z: int, c': int, z': int, n: nat)
    requires Prime(n) && Cong(z * h, t + c * x, n) && Cong(z' * h, t + c' * x, n) && !Cong(c, c', n)
    ensures Cong(x, Extracted(n, z, z', c, c') * h, n)
  {
    var w := Inverse(c - c', n);
    SubtractAnswers(z * h, z' * h, t, c, c', x, n);
    DifferenceZero(c, c', n);
    Divide(c - c', x, z * h - z' * h, n);
    assert w * (z * h - z' * h) == (w * (z - z')) * h;
    ExtractedCong(z, z', c, c', h, n);
    CongSym(Extracted(n, z, z', c, c') * h, (w * (z - z')) * h, n);
    CongTrans(x, (w * (z - z')) * h, Extracted(n, z, z', c, c') * h, n);
  }

  lemma OpeningAnswers(g: int, h: int, t: int, x: int, c: int, z1: int, z2: int, c': int, z1': int, z2': int, n: nat)
    requires Prime(n) && !Cong(c, c', n)
    requires Cong(z1 * g + z2 * h, t + c * x, n) && Cong(z1' * g + z2' * h, t + c' * x, n)
    ensures Cong(x, Extracted(n, z1, z1', c, c') * g + Extracted(n, z2, z2', c, c') * h, n)
  {
    var w, v, r := Inverse(c - c', n), Extracted(n, z1, z1', c, c'), Extracted(n, z2, z2', c, c');
    var d1, d2 := z1 - z1', z2 - z2';
    SubtractAnswers(z1 * g + z2 * h, z1' * g + z2' * h, t, c, c', x, n);
    assert (z1 * g + z2 * h) - (z1' * g + z2' * h) == d1 * g + d2 * h;
    DifferenceZero(c, c', n);
    Divide(c - c', x, d1 * g + d2 * h, n);
    assert w * (d1 * g + d2 * h) == (w * d1) * g + (w * d2) * h;
    ExtractedCong(z1, z1', c, c', g, n);
    ExtractedCong(z2, z2', c, c', h, n);
    CongAdd(v * g, (w * d1) * g, r * h, (w * d2) * h, n);
    CongSym(v * g + r * h, (w * d1) * g + (w * d2) * h, n);
    CongTrans(x, (w * d1) * g + (w * d2) * h, v * g + r * h, n);
  }

  lemma DifferentChallenges(n: nat, c: nat, c': nat)
    requires c < n && c' < n && c != c'
    ensures !Cong(c, c', n)
  {
    ResidueEq(c, c', n);
  }

  /** Two accepted opening proofs with one announcement and two challenges yield an opening. */
  lemma OpeningSoundness(pp: Params, hash: Hash, hash': Hash, C: Point, p: OpeningProof, p': OpeningProof)
    requires ValidParams(pp) && C < pp.n && p.T == p'.T
    requires VerifyOpening(pp, hash, C, p) && VerifyOpening(pp, hash', C, p')
    requires ChallengeFrom(pp, hash, [C, p.T]) != ChallengeFrom(pp, hash', [C, p.T])
    ensures var c, c' := ChallengeFrom(pp, hash, [C, p.T]), ChallengeFrom(pp, hash', [C, p.T]);
            C == CommitWithBlinding(pp, Extracted(pp.n, p.z1, p'.z1, c, c'), Extracted(pp.n, p.z2, p'.z2, c, c'))
  {
    var c, c' := ChallengeFrom(pp, hash, [C, p.T]), ChallengeFrom(pp, hash', [C, p.T]);
    var v, r := Extracted(pp.n, p.z1, p'.z1, c, c'), Extracted(pp.n, p.z2, p'.z2, c, c');
    OpeningEquation(pp, hash, C, p);
    OpeningEquation(pp, hash', C, p');
    DifferentChallenges(pp.n, c, c');
    OpeningAnswers(pp.g, pp.h, p.T, C, c, p.z1, p.z2, c', p'.z1, p'.z2, pp.n);
    CommitCong(pp, v, r);
    Reduced(C, pp.n);
    SameResidue(pp.n, C, C, CommitWithBlinding(pp, v, r), v * pp.g + r * pp.h);
  }

  lemma ShiftedCommitment(pp: Params, v: int, r: int, d: int, C1: Point, C2: Point)
    requires pp.n > 0 && C1 < pp.n && C2 < pp.n && Cong(C1 as int - C2 as int, d * pp.h, pp.n)
    requires C1 == CommitWithBlinding(pp, v, r)
    ensures C2 == CommitWithBlinding(pp, v, r - d)
  {
    var n := pp.n;
    var x1: int, x2: int := C1, C2;
    CommitCong(pp, v, r);
    CommitCong(pp, v, r - d);
    CongAdd(x1, v * pp.g + r * pp.h, x1 - x2, d * pp.h, n);
    assert x1 - (x1 - x2) == x2;
    assert (v * pp.g + r * pp.h) - d * pp.h == v * pp.g + (r - d) * pp.h;
    Reduced(C2, n);
    SameResidue(n, C2, v * pp.g + (r - d) * pp.h, CommitWithBlinding(pp, v, r - d), v * pp.g + (r - d) * pp.h);
    Reduced(v * pp.g + (r - d) * pp.h, n);
  }

  /**
   Two accepted equality proofs with one announcement: whatever opens one commitment opens the other
   to the same value.
   */
  lemma EqualitySoundness(pp: Params, hash: Hash, hash': Hash, C1: Point, C2: Point, p: EqualityProof,
                          p': EqualityProof, v: int, r: int)
    requires ValidParams(pp) && C1 < pp.n && C2 < pp.n && p.T == p'.T
    requires VerifyEqualOpenings(pp, hash, C1, C2, p) && VerifyEqualOpenings(pp, hash', C1, C2, p')
    requires ChallengeFrom(pp, hash, [C1, C2, p.T]) != ChallengeFrom(pp, hash', [C1, C2, p.T])
    ensures var c, c' := ChallengeFrom(pp, hash, [C1, C2, p.T]), ChallengeFrom(pp, hash', [C1, C2, p.T]);
            var delta := Extracted(pp.n, p.z, p'.z, c, c');
            && Add(pp, C1, Neg(pp, C2)) == Mul(pp, pp.h, delta)
            && (C1 == CommitWithBlinding(pp, v, r) ==> C2 == CommitWithBlinding(pp, v, r - delta))
  {
    var c, c' := ChallengeFrom(pp, hash, [C1, C2, p.T]), ChallengeFrom(pp, hash', [C1, C2, p.T]);
    var delta := Extracted(pp.n, p.z, p'.z, c, c');
    var x: int := C1 as int - C2 as int;
    EqualityEquation(pp, hash, C1, C2, p);
    EqualityEquation(pp, hash', C1, C2, p');
    DifferentChallenges(pp.n, c, c');
    SchnorrSoundness(pp.h, p.T, x, c, p.z, c', p'.z, pp.n);
    DifferenceCong(pp, C1, C2);
    MulCong(pp, pp.h, delta);
    SameResidue(pp.n, Add(pp, C1, Neg(pp, C2)), x, Mul(pp, pp.h, delta), delta * pp.h);
    if C1 == CommitWithBlinding(pp, v, r) {
      ShiftedCommitment(pp, v, r, delta, C1, C2);
    }
  }

  /** The bit and blinding two accepted bit proofs give away. */
  function ExtractBit(n: nat, p: BitProof, p': BitProof): (res: (int, nat))
    requires n > 1
    ensures res.0 == 0 || res.0 == 1
  {
    if (p.c0 - p'.c0) % n != 0 then (0, Extracted(n, p.z0, p'.z0, p.c0, p'.c0))
    else (1, Extracted(n, p.z1, p'.z1, p.c1, p'.c1))
  }

  lemma SomeBranchDiffers(c0: int, c1: int, t: int, c0': int, c1': int, t': int, n: nat)
    requires n > 0 && Cong(c0 + c1, t, n) && Cong(c0' + c1', t', n) && !Cong(t, t', n)
    ensures !Cong(c0, c0', n) || !Cong(c1, c1', n)
  {
    if Cong(c0, c0', n) && Cong(c1, c1', n) {
      CongAdd(c0, c0', c1, c1', n);
      CongTrans(c0 + c1, c0' + c1', t', n);
      CongSym(c0 + c1, t, n);
      CongTrans(t, c0 + c1, t', n);
    }
  }

  lemma BranchOpens(pp: Params, C: Point, bit: int, r: nat)
    requires ValidParams(pp) && C < pp.n && (bit == 0 || bit == 1) && Cong(C as int - bit * pp.g, r * pp.h, pp.n)
    ensures C == CommitWithBlinding(pp, bit, r)
  {
    var n := pp.n;
    var x: int, bg: int := C, bit * pp.g;
    Reduced(bg, n);
    CongAdd(bg, bg, x - bg, r * pp.h, n);
    CommitCong(pp, bit, r);
    assert bg + (x - bg) == x;
    Reduced(x, n);
    SameResidue(n, C, bg + r * pp.h, CommitWithBlinding(pp, bit, r), bg + r * pp.h);
    Reduced(bg + r * pp.h, n);
  }

  /**
   Two accepted bit proofs with the same announcements and different total challenges yield a
   blinding that opens the commitment to 0 or to 1.
   */
  lemma BitSoundness(pp: Params, hash: Hash, hash': Hash, C: Point, p: BitProof, p': BitProof)
    requires ValidParams(pp) && C < pp.n && p.T0 == p'.T0 && p.T1 == p'.T1
    requires VerifyBit(pp, hash, C, p) && VerifyBit(pp, hash', C, p')
    requires ChallengeFrom(pp, hash, [C, p.T0, p.T1]) != ChallengeFrom(pp, hash', [C, p.T0, p.T1])
    ensures var (bit, r) := ExtractBit(pp.n, p, p'); C == CommitWithBlinding(pp, bit, r)
  {
    var n := pp.n;
    var t, t' := ChallengeFrom(pp, hash, [C, p.T0, p.T1]), ChallengeFrom(pp, hash', [C, p.T0, p.T1]);
    var x: int, y: int := C, C as int - pp.g as int;
    BitEquations(pp, hash, C, p);
    BitEquations(pp, hash', C, p');
    DifferentChallenges(n, t, t');
    SomeBranchDiffers(p.c0, p.c1, t, p'.c0, p'.c1, t', n);
    DifferenceZero(p.c0, p'.c0, n);
    CongIsMod(p.c0 - p'.c0, 0, n);
    var (bit, r) := ExtractBit(n, p, p');
    if bit == 0 {
      SchnorrSoundness(pp.h, p.T0, x, p.c0, p.z0, p'.c0, p'.z0, n);
    } else {
      SchnorrSoundness(pp.h, p.T1, y, p.c1, p.z1, p'.c1, p'.z1, n);
    }
    BranchOpens(pp, C, bit, r);
  }

  // ----- hiding and binding

  /** The one blinding under which `C` commits to `value`. */
  function BlindingFor(pp: Params, C: Point, value: int): (r: nat)
    requires pp.n > 1
    ensures r < pp.n
  {
    ((C as int - value * pp.g) * Inverse(pp.h, pp.n)) % pp.n
  }

  /** Dividing by `h` and multiplying back is the identity. */
  lemma DivideAndScale(d: int, h: int, r: int, n: nat)
    requires Prime(n) && !Cong(h, 0, n) && r == (d * Inverse(h, n)) % n
    ensures Cong(d, r * h, n)
  {
    var w := Inverse(h, n);
    InverseCorrect(h, n);
    Reduced(d, n);
    ScaleCong(r, d * w, h, n);
    CongMul(d, d, w * h, 1, n);
    assert (d * w) * h == d * (w * h);
    CongTrans(r * h, d * (w * h), d * 1, n);
    CongSym(r * h, d, n);
  }

  lemma BlindingForCong(pp: Params, C: Point, value: int)
    requires ValidParams(pp) && C < pp.n
    ensures Cong(C as int - value * pp.g, BlindingFor(pp, C, value) * pp.h, pp.n)
  {
    ResidueEq(pp.h, 0, pp.n);
    DivideAndScale(C as int - value * pp.g, pp.h, BlindingFor(pp, C, value), pp.n);
  }

  /** Perfect hiding: for every value exactly one reduced blinding gives a commitment. */
  lemma ExactlyOneBlinding(pp: Params, C: Point, value: int, r: nat)
    requires ValidParams(pp) && C < pp.n && r < pp.n
    ensures C == CommitWithBlinding(pp, value, r) <==> r == BlindingFor(pp, C, value)
  {
    var n, b := pp.n, BlindingFor(pp, C, value);
    var x: int, vg: int := C, value * pp.g;
    CommitCong(pp, value, r);
    Reduced(C, n);
    SameResidue(n, C, x, CommitWithBlinding(pp, value, r), vg + r * pp.h);
    BlindingForCong(pp, C, value);
    Reduced(vg, n);
    CongAdd(vg, vg, x - vg, b * pp.h, n);
    assert vg + (x - vg) == x;
    Reduced(vg + r * pp.h, n);
    CancelSummand(x, vg + r * pp.h, vg, b * pp.h, r * pp.h, n);
    assert b * pp.h == pp.h * b && r * pp.h == pp.h * r;
    ResidueEq(pp.h, 0, n);
    Cancel(pp.h, b, r, n);
    ResidueEq(b, r, n);
  }

  lemma NonzeroFactor(pp: Params, d: int, e: int)
    requires ValidParams(pp) && !Cong(d, 0, pp.n) && Cong(e * pp.h, d * pp.g, pp.n)
    ensures !Cong(e, 0, pp.n)
  {
    var n := pp.n;
    ResidueEq(pp.g, 0, n);
    CancelZero(pp.g, d, n);
    assert pp.g * d == d * pp.g;
    if Cong(e, 0, n) {
      Reduced(pp.h, n);
      CongMul(e, 0, pp.h, pp.h, n);
      CongSym(e * pp.h, d * pp.g, n);
      CongTrans(d * pp.g, e * pp.h, 0, n);
    }
  }

  lemma OpeningsDiffer(pp: Params, v: int, r: int, v': int, r': int)
    requires ValidParams(pp) && CommitWithBlinding(pp, v, r) == CommitWithBlinding(pp, v', r')
    ensures Cong((r' - r) * pp.h, (v - v') * pp.g, pp.n)
  {
    var n, C := pp.n, CommitWithBlinding(pp, v, r);
    var a, b := (v - v') * pp.g, (r' - r) * pp.h;
    CommitCong(pp, v, r);
    CommitCong(pp, v', r');
    SameResidue(n, C, v * pp.g + r * pp.h, C, v' * pp.g + r' * pp.h);
    DifferenceZero(v * pp.g + r * pp.h, v' * pp.g + r' * pp.h, n);
    assert (v * pp.g + r * pp.h) - (v' * pp.g + r' * pp.h) == a - b;
    DifferenceZero(a, b, n);
    CongSym(a, b, n);
  }

  lemma QuotientOfDifferences(v: int, v': int, e: int, e': int, g: int, h: int, n: nat)
    requires Prime(n) && !Cong(e - e', 0, n) && Cong((e - e') * h, (v - v') * g, n)
    ensures Cong(h, Extracted(n, v, v', e, e') * g, n)
  {
    var w, x := Inverse(e - e', n), Extracted(n, v, v', e, e');
    Divide(e - e', h, (v - v') * g, n);
    assert w * ((v - v') * g) == (w * (v - v')) * g;
    ExtractedCong(v, v', e, e', g, n);
    CongSym(x * g, (w * (v - v')) * g, n);
    CongTrans(h, (w * (v - v')) * g, x * g, n);
  }

  /** Binding: two openings to different values give the logarithm of H to base G. */
  lemma TwoOpeningsRevealLog(pp: Params, v: int, r: int, v': int, r': int)
    requires ValidParams(pp) && !Cong(v, v', pp.n)
    requires CommitWithBlinding(pp, v, r) == CommitWithBlinding(pp, v', r')
    ensures pp.h == Mul(pp, pp.g, Extracted(pp.n, v, v', r', r))
  {
    var n, x := pp.n, Extracted(pp.n, v, v', r', r);
    OpeningsDiffer(pp, v, r, v', r');
    DifferenceZero(v, v', n);
    NonzeroFactor(pp, v - v', r' - r);
    QuotientOfDifferences(v, v', r', r, pp.g, pp.h, n);
    MulCong(pp, pp.g, x);
    Reduced(pp.h, n);
    SameResidue(n, pp.h, pp.h, Mul(pp, pp.g, x), x * pp.g);
  }

  // ----- witness indistinguishability of the bit proof

  predicate ReducedProof(n: nat, p: BitProof) {
    0 <= p.c0 < n && 0 <= p.c1 < n && 0 <= p.z0 < n && 0 <= p.z1 < n
  }

  predicate ReducedNonces(n: nat, x: Nonces) {
    0 <= x.k < n && 0 <= x.zSim < n && 0 <= x.cSim < n
  }

  /** The nonces a prover of `bit` must have drawn to return this proof. */
  function NoncesFor(pp: Params, bit: int, C: Point, p: BitProof): Nonces
    requires pp.n > 1
  {
    var r := BlindingFor(pp, C, bit);
    if bit == 0 then Nonces((p.z0 - p.c0 * r) % pp.n, p.z1, p.c1)
    else Nonces((p.z1 - p.c1 * r) % pp.n, p.z0, p.c0)
  }

  /** One nonce makes a prover with secret `r` answer the challenge `c` with `z`. */
  lemma AnswerFits(k: nat, c: int, r: int, z: nat, n: nat)
    requires k < n && z < n
    ensures (k + c * r) % n == z <==> k == (z - c * r) % n
  {
    CongIsMod(k + c * r, z, n);
    CongIsMod(k, z - c * r, n);
    QuotientUnique(0, z, z / n, z % n, n);
    QuotientUnique(0, k, k / n, k % n, n);
    DifferenceZero(k + c * r, z, n);
    DifferenceZero(k, z - c * r, n);
    assert (k + c * r) - z == k - (z - c * r);
  }

  /** One nonce makes the real branch announce `T` and answer `z`. */
  lemma RealBranchFits(pp: Params, T: Point, x: int, r: int, c: int, z: nat, k: nat)
    requires ValidParams(pp) && T < pp.n && z < pp.n && k < pp.n
    requires Cong(x, r * pp.h, pp.n) && Cong(z * pp.h, T + c * x, pp.n)
    ensures k == (z - c * r) % pp.n ==> Mul(pp, pp.h, k) == T
    ensures (k + c * r) % pp.n == z <==> k == (z - c * r) % pp.n
  {
    var n := pp.n;
    AnswerFits(k, c, r, z, n);
    if k == (z - c * r) % n {
      RealBranch(pp, x, r, k, c);
      CongSym(z * pp.h, T + c * x, n);
      CongTrans(T + c * x, z * pp.h, Mul(pp, pp.h, k) + c * x, n);
      SameAnnouncement(T, Mul(pp, pp.h, k), c * x, n);
    }
  }

  lemma SameAnnouncement(t: nat, t': nat, a: int, n: nat)
    requires t < n && t' < n && Cong(t + a, t' + a, n)
    ensures t == t'
  {
    DifferenceZero(t + a, t' + a, n);
    DifferenceZero(t, t', n);
    assert (t + a) - (t' + a) == t as int - t' as int;
    ResidueEq(t, t', n);
  }

  /** The simulated branch announces exactly what its equation demands. */
  lemma SimulatedBranchFits(pp: Params, T: Point, P: Point, x: int, z: int, c: int)
    requires ValidParams(pp) && T < pp.n && Cong(P, x, pp.n) && Cong(z * pp.h, T + c * x, pp.n)
    ensures Add(pp, Mul(pp, pp.h, z), Neg(pp, Mul(pp, P, c))) == T
  {
    var T' := Add(pp, Mul(pp, pp.h, z), Neg(pp, Mul(pp, P, c)));
    SimulatedBranch(pp, P, x, z, c);
    CongSym(z * pp.h, T + c * x, pp.n);
    CongTrans(T + c * x, z * pp.h, T' + c * x, pp.n);
    SameAnnouncement(T, T', c * x, pp.n);
  }

  lemma ChallengeFits(total: int, cSim: int, c: nat, n: nat)
    requires c < n && Cong(c + cSim, total, n)
    ensures (total - cSim) % n == c
  {
    DifferenceZero(c + cSim, total, n);
    DifferenceZero(c, total - cSim, n);
    assert (c + cSim) - total == c - (total - cSim);
    CongIsMod(c, total - cSim, n);
    QuotientUnique(0, c, c / n, c % n, n);
  }

  lemma SmallScalar(pp: Params, r: nat)
    requires r < pp.n
    ensures ToScalar(pp, r) == r
  {
    QuotientUnique(0, r, r / pp.n, r % pp.n, pp.n);
  }

  /** The prover's output, in terms of the commitment it returns. */
  lemma ProverOutput(pp: Params, hash: Hash, bit: int, C: Point, r: nat, x: Nonces)
    requires ValidParams(pp) && (bit == 0 || bit == 1) && r < pp.n && C == CommitWithBlinding(pp, bit, r)
    ensures var Treal := Mul(pp, pp.h, x.k);
            var Tsim := Add(pp, Mul(pp, pp.h, x.zSim), Neg(pp, Mul(pp, Branch(pp, C, 1 - bit), x.cSim)));
            var total := ChallengeFrom(pp, hash, if bit == 0 then [C, Treal, Tsim] else [C, Tsim, Treal]);
            var cReal := (total - x.cSim) % pp.n;
            var zReal := (x.k + cReal * r) % pp.n;
            ProveBit(pp, hash, bit, r, x) ==
            Ok((C, if bit == 0 then BitProof(Treal, Tsim, cReal, x.cSim, zReal, x.zSim)
                   else BitProof(Tsim, Treal, x.cSim, cReal, x.zSim, zReal)))
  {
    BitProverCommits(pp, hash, bit, r, x);
    SmallScalar(pp, r);
  }

  /** For bit 0: among reduced nonces, only `NoncesFor` makes the prover return an accepted proof. */
  lemma ZeroProverReturns(pp: Params, hash: Hash, C: Point, p: BitProof, x: Nonces)
    requires ValidParams(pp) && C < pp.n && ReducedProof(pp.n, p) && ReducedNonces(pp.n, x) && VerifyBit(pp, hash, C, p)
    ensures ProveBit(pp, hash, 0, BlindingFor(pp, C, 0), x) == Ok((C, p)) <==> x == NoncesFor(pp, 0, C, p)
  {
    var n, r := pp.n, BlindingFor(pp, C, 0);
    var y: int, g: int := C, pp.g;
    BitEquations(pp, hash, C, p);
    assert C == CommitWithBlinding(pp, 0, r) by { ExactlyOneBlinding(pp, C, 0, r); }
    ProverOutput(pp, hash, 0, C, r, x);
    assert (ChallengeFrom(pp, hash, [C, p.T0, p.T1]) - p.c1) % n == p.c0 by {
      ChallengeFits(ChallengeFrom(pp, hash, [C, p.T0, p.T1]), p.c1, p.c0, n);
    }
    assert Add(pp, Mul(pp, pp.h, p.z1), Neg(pp, Mul(pp, Branch(pp, C, 1), p.c1))) == p.T1 by {
      BranchCong(pp, C, 1);
      SimulatedBranchFits(pp, p.T1, Branch(pp, C, 1), y - g, p.z1, p.c1);
    }
    BlindingForCong(pp, C, 0);
    RealBranchFits(pp, p.T0, y, r, p.c0, p.z0, x.k);
  }

  /** For bit 1, likewise. */
  lemma OneProverReturns(pp: Params, hash: Hash, C: Point, p: BitProof, x: Nonces)
    requires ValidParams(pp) && C < pp.n && ReducedProof(pp.n, p) && ReducedNonces(pp.n, x) && VerifyBit(pp, hash, C, p)
    ensures ProveBit(pp, hash, 1, BlindingFor(pp, C, 1), x) == Ok((C, p)) <==> x == NoncesFor(pp, 1, C, p)
  {
    var n, r := pp.n, BlindingFor(pp, C, 1);
    var y: int, g: int := C, pp.g;
    BitEquations(pp, hash, C, p);
    assert C == CommitWithBlinding(pp, 1, r) by { ExactlyOneBlinding(pp, C, 1, r); }
    ProverOutput(pp, hash, 1, C, r, x);
    assert (ChallengeFrom(pp, hash, [C, p.T0, p.T1]) - p.c0) % n == p.c1 by {
      assert p.c1 + p.c0 == p.c0 + p.c1;
      ChallengeFits(ChallengeFrom(pp, hash, [C, p.T0, p.T1]), p.c0, p.c1, n);
    }
    assert Add(pp, Mul(pp, pp.h, p.z0), Neg(pp, Mul(pp, Branch(pp, C, 0), p.c0))) == p.T0 by {
      BranchCong(pp, C, 0);
      SimulatedBranchFits(pp, p.T0, Branch(pp, C, 0), y, p.z0, p.c0);
    }
    BlindingForCong(pp, C, 1);
    RealBranchFits(pp, p.T1, y - g, r, p.c1, p.z1, x.k);
  }

  ghost predicate Returns(pp: Params, hash: Hash, bit: int, C: Point, p: BitProof, x: Nonces)
    requires pp.n > 1
  {
    ProveBit(pp, hash, bit, BlindingFor(pp, C, bit), x) == Ok((C, p))
  }

  /**
   Witness indistinguishability: for every accepted proof with reduced scalars and for either
   bit, exactly one reduced nonce triple makes the prover of that bit return it.
   */
  lemma ExactlyOneNonceTriple(pp: Params, hash: Hash, C: Point, p: BitProof, bit: int, x: Nonces)
    requires ValidParams(pp) && C < pp.n && ReducedProof(pp.n, p) && VerifyBit(pp, hash, C, p)
    requires (bit == 0 || bit == 1) && ReducedNonces(pp.n, x)
    ensures ReducedNonces(pp.n, NoncesFor(pp, bit, C, p))
    ensures Returns(pp, hash, bit, C, p, x) <==> x == NoncesFor(pp, bit, C, p)
  {
    if bit == 0 {
      ZeroProverReturns(pp, hash, C, p, x);
    } else {
      OneProverReturns(pp, hash, C, p, x);
    }
  }

  /** `randomScalar` never draws zero. */
  predicate Sampled(n: nat, x: Nonces) {
    1 <= x.k < n && 1 <= x.zSim < n && 1 <= x.cSim < n
  }

  /** Some nonces the sampler can draw make the prover of `bit` return this proof. */
  ghost predicate CanReturn(pp: Params, hash: Hash, bit: int, C: Point, p: BitProof)
    requires pp.n > 1
  {
    exists x :: Sampled(pp.n, x) && Returns(pp, hash, bit, C, p, x)
  }

  lemma ZeroAnnouncement(pp: Params, k: nat)
    requires ValidParams(pp) && k < pp.n
    ensures Mul(pp, pp.h, k) == 0 <==> k == 0
  {
    MulCong(pp, pp.h, k);
    Reduced(0, pp.n);
    SameResidue(pp.n, Mul(pp, pp.h, k), k * pp.h, 0, 0);
    assert k * pp.h == pp.h * k;
    ResidueEq(pp.h, 0, pp.n);
    CancelZero(pp.h, k, pp.n);
    ResidueEq(k, 0, pp.n);
  }

  /**
   With the sampler of the source, a proof can come from the prover of `bit` exactly when that
   branch's announcement and the other branch's challenge and response are all nonzero: the two
   bits are indistinguishable on the proofs whose six parts are nonzero, and only there.
   */
  lemma ReturnableExactly(pp: Params, hash: Hash, C: Point, p: BitProof, bit: int)
    requires ValidParams(pp) && C < pp.n && ReducedProof(pp.n, p) && VerifyBit(pp, hash, C, p) && (bit == 0 || bit == 1)
    ensures CanReturn(pp, hash, bit, C, p) <==>
            if bit == 0 then p.T0 != 0 && p.c1 != 0 && p.z1 != 0 else p.T1 != 0 && p.c0 != 0 && p.z0 != 0
  {
    var y := NoncesFor(pp, bit, C, p);
    ExactlyOneNonceTriple(pp, hash, C, p, bit, y);
    ZeroAnnouncement(pp, y.k);
    if CanReturn(pp, hash, bit, C, p) {
      var x :| Sampled(pp.n, x) && Returns(pp, hash, bit, C, p, x);
      ExactlyOneNonceTriple(pp, hash, C, p, bit, x);
    }
  }

  /** In a group of order 3. */
  lemma SmallProofAccepted(pp: Params, hash: Hash, C: Point, p: BitProof)
    requires pp == Params(3, 1, 1) && C == 2 && hash([C, 1, 1]) == 1 && p == BitProof(1, 1, 0, 1, 1, 2)
    ensures ValidParams(pp) && VerifyBit(pp, hash, C, p)
  {
    assert 3 % 2 == 1;
    assert ChallengeFrom(pp, hash, [C, 1, 1]) == 1;
    assert Branch(pp, C, 0) == 2 && Branch(pp, C, 1) == 1;
    assert Mul(pp, 1, 1) == 1 && Mul(pp, 1, 2) == 2 && Mul(pp, 2, 0) == 0;
  }

  /** An accepted proof with a zero challenge in its first branch and nothing zero in what the prover of 0 draws. */
  ghost predicate FavoursZero(pp: Params, hash: Hash, C: Point, p: BitProof) {
    && ValidParams(pp) && C < pp.n && ReducedProof(pp.n, p) && VerifyBit(pp, hash, C, p)
    && p.T0 != 0 && p.c0 == 0 && p.c1 != 0 && p.z1 != 0
  }

  ghost predicate OnlyZeroCanReturn(pp: Params, hash: Hash, C: Point, p: BitProof) {
    pp.n > 1 && CanReturn(pp, hash, 0, C, p) && !CanReturn(pp, hash, 1, C, p)
  }

  lemma FavouringZeroTellsBits(pp: Params, hash: Hash, C: Point, p: BitProof)
    requires FavoursZero(pp, hash, C, p)
    ensures OnlyZeroCanReturn(pp, hash, C, p)
  {
    ReturnableExactly(pp, hash, C, p, 0);
    ReturnableExactly(pp, hash, C, p, 1);
  }

  lemma SmallProofFavoursZero(pp: Params, hash: Hash, C: Point, p: BitProof)
    requires pp == Params(3, 1, 1) && C == 2 && hash([C, 1, 1]) == 1 && p == BitProof(1, 1, 0, 1, 1, 2)
    ensures FavoursZero(pp, hash, C, p)
  {
    SmallProofAccepted(pp, hash, C, p);
  }

  /**
   Such a proof, whose commitment and announcements all have an encoding: with nonzero nonces the
   prover of 0 can return it and the prover of 1 cannot.
   */
  lemma ZeroChallengeTellsBits(pp: Params, hash: Hash, C: Point, p: BitProof)
    requires pp == Params(3, 1, 1) && C == 2 && hash([C, 1, 1]) == 1 && p == BitProof(1, 1, 0, 1, 1, 2)
    ensures FavoursZero(pp, hash, C, p) && OnlyZeroCanReturn(pp, hash, C, p)
  {
    SmallProofFavoursZero(pp, hash, C, p);
    FavouringZeroTellsBits(pp, hash, C, p);
  }
}

/**
 Pedersen commitments and the three sigma protocols of the balance-proof module.

 A group of prime order `n` is represented by the residues modulo `n`: the point `x*P` is the
 product modulo `n`, and `G` and `H` are any two nonzero residues. Nonces and the hash behind
 the Fiat-Shamir challenge are parameters; proof scalars are unreduced integers, as parsed.
 */
module ZkBalance {
  import opened Wrappers
  import opened ModularArithmetic

  type Point = nat

  datatype Params = Params(n: nat, g: Point, h: Point)

  ghost predicate ValidParams(pp: Params) {
    Prime(pp.n) && 0 < pp.g < pp.n && 0 < pp.h < pp.n
  }

  /** The hash of a transcript, before reduction modulo the order. */
  type Hash = seq<Point> -> nat

  function Add(pp: Params, p: int, q: int): (r: Point)
    requires pp.n > 0
    ensures r < pp.n
  {
    (p + q) % pp.n
  }

  function Mul(pp: Params, p: int, k: int): (r: Point)
    requires pp.n > 0
    ensures r < pp.n
  {
    (k * p) % pp.n
  }

  function Neg(pp: Params, p: int): (r: Point)
    requires pp.n > 0
    ensures r < pp.n
  {
    (-p) % pp.n
  }

  function ChallengeFrom(pp: Params, hash: Hash, points: seq<Point>): (c: nat)
    requires pp.n > 0
    ensures c < pp.n
  {
    hash(points) % pp.n
  }

  function ToScalar(pp: Params, x: int): (r: nat)
    requires pp.n > 0
    ensures r < pp.n
  {
    x % pp.n
  }

  function CommitWithBlinding(pp: Params, value: int, blinding: int): (c: Point)
    requires pp.n > 0
    ensures c < pp.n
  {
    Add(pp, Mul(pp, pp.g, ToScalar(pp, value)), Mul(pp, pp.h, ToScalar(pp, blinding)))
  }

  // ----- proof of knowledge of an opening

  datatype OpeningProof = OpeningProof(T: Point, z1: int, z2: int)

  function ProveOpening(pp: Params, hash: Hash, commitment: Point, value: int, blinding: int, a: int,
                        b: int): OpeningProof
    requires pp.n > 0
  {
    var v, r := ToScalar(pp, value), ToScalar(pp, blinding);
    var T := Add(pp, Mul(pp, pp.g, a), Mul(pp, pp.h, b));
    var c := ChallengeFrom(pp, hash, [commitment, T]);
    OpeningProof(T, (a + c * v) % pp.n, (b + c * r) % pp.n)
  }

  predicate VerifyOpening(pp: Params, hash: Hash, commitment: Point, proof: OpeningProof)
    requires pp.n > 0
  {
    var c := ChallengeFrom(pp, hash, [commitment, proof.T]);
    && proof.T < pp.n
    && Add(pp, Mul(pp, pp.g, proof.z1), Mul(pp, pp.h, proof.z2)) == Add(pp, proof.T, Mul(pp, commitment, c))
  }

  // ----- proof that two commitments hide the same value

  datatype EqualityProof = EqualityProof(T: Point, z: int)

  function ProveEqualOpenings(pp: Params, hash: Hash, c1: Point, c2: Point, r1: int, r2: int, k: int): EqualityProof
    requires pp.n > 0
  {
    var delta := (ToScalar(pp, r1) - ToScalar(pp, r2)) % pp.n;
    var T := Mul(pp, pp.h, k);
    var c := ChallengeFrom(pp, hash, [c1, c2, T]);
    EqualityProof(T, (k + c * delta) % pp.n)
  }

  predicate VerifyEqualOpenings(pp: Params, hash: Hash, c1: Point, c2: Point, proof: EqualityProof)
    requires pp.n > 0
  {
    var c := ChallengeFrom(pp, hash, [c1, c2, proof.T]);
    var diff := Add(pp, c1, Neg(pp, c2));
    proof.T < pp.n && Mul(pp, pp.h, proof.z) == Add(pp, proof.T, Mul(pp, diff, c))
  }

  // ----- proof that a commitment hides a bit

  datatype BitProof = BitProof(T0: Point, T1: Point, c0: int, c1: int, z0: int, z1: int)

  datatype Nonces = Nonces(k: int, zSim: int, cSim: int)

  /** The point whose logarithm to base H a branch proves: C for bit 0, C - G for bit 1. */
  function Branch(pp: Params, C: Point, index: int): (p: Point)
    requires pp.n > 0 && C < pp.n
    ensures p < pp.n
  {
    if index == 0 then C else Add(pp, C, Neg(pp, pp.g))
  }

  function ProveBit(pp: Params, hash: Hash, bit: int, blinding: int, nonces: Nonces): Result<(Point, BitProof)>
    requires pp.n > 0
  {
    if bit != 0 && bit != 1 then Thrown("proveBit: bit must be 0 or 1")
    else
      var r := ToScalar(pp, blinding);
      var C := Add(pp, Mul(pp, pp.g, bit), Mul(pp, pp.h, r));
      var Psim := Branch(pp, C, 1 - bit);
      var Tsim := Add(pp, Mul(pp, pp.h, nonces.zSim), Neg(pp, Mul(pp, Psim, nonces.cSim)));
      var Treal := Mul(pp, pp.h, nonces.k);
      var T0 := if bit == 0 then Treal else Tsim;
      var T1 := if bit == 1 then Treal else Tsim;
      var cReal := (ChallengeFrom(pp, hash, [C, T0, T1]) - nonces.cSim) % pp.n;
      var zReal := (nonces.k + cReal * r) % pp.n;
      if bit == 0 then Ok((C, BitProof(T0, T1, cReal, nonces.cSim, zReal, nonces.zSim)))
      else Ok((C, BitProof(T0, T1, nonces.cSim, cReal, nonces.zSim, zReal)))
  }

  predicate VerifyBit(pp: Params, hash: Hash, commitment: Point, proof: BitProof)
    requires pp.n > 0 && commitment < pp.n
  {
    && proof.T0 < pp.n && proof.T1 < pp.n
    && (proof.c0 + proof.c1) % pp.n == ChallengeFrom(pp, hash, [commitment, proof.T0, proof.T1])
    && Mul(pp, pp.h, proof.z0) == Add(pp, proof.T0, Mul(pp, Branch(pp, commitment, 0), proof.c0))
    && Mul(pp, pp.h, proof.z1) == Add(pp, proof.T1, Mul(pp, Branch(pp, commitment, 1), proof.c1))
  }
}

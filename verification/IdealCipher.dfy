/**
 The ideal cipher the ciphertext theorems assume exists. This one writes key and plaintext into
 the ciphertext; it hides nothing, but decryption inverts encryption and rejects other keys.
 */
module IdealCipher {
  import opened Wrappers
  import opened VersionedCipher

  function HexDigit(x: nat): (c: char)
    requires x < 16
    ensures HexChar(c)
  {
    if x < 10 then '0' + x as char else 'a' + (x - 10) as char
  }

  function HexNat(x: nat): (s: string)
    requires x < 256
    ensures |s| == 2 && Hex(s)
  {
    [HexDigit(x / 16), HexDigit(x % 16)]
  }

  function HexByte(b: bv8): (s: string)
    ensures |s| == 2 && Hex(s)
  {
    HexNat(b as nat)
  }

  lemma HexNatInjective(x: nat, y: nat)
    requires x < 256 && y < 256 && HexNat(x) == HexNat(y)
    ensures x == y
  {
    assert HexNat(x)[0] == HexNat(y)[0] && HexNat(x)[1] == HexNat(y)[1];
    assert x / 16 == y / 16 && x % 16 == y % 16;
  }

  lemma SameByte(b: bv8, c: bv8)
    requires b as nat == c as nat
    ensures b == c
  {
    assert (b as nat) as bv8 == b && (c as nat) as bv8 == c;
  }

  lemma HexByteInjective(b: bv8, c: bv8)
    requires HexByte(b) == HexByte(c)
    ensures b == c
  {
    HexNatInjective(b as nat, c as nat);
    SameByte(b, c);
  }

  function HexBytes(p: Bytes): (s: string)
    ensures Hex(s) && |s| == 2 * |p|
  {
    if |p| == 0 then "" else HexByte(p[0]) + HexBytes(p[1..])
  }

  lemma {:induction false} HexBytesInjective(p: Bytes, q: Bytes)
    requires HexBytes(p) == HexBytes(q)
    ensures p == q
    decreases |p|
  {
    assert |p| == |q|;
    if |p| > 0 {
      var s, t := HexBytes(p), HexBytes(q);
      assert s[..2] == HexByte(p[0]) && s[2..] == HexBytes(p[1..]);
      assert t[..2] == HexByte(q[0]) && t[2..] == HexBytes(q[1..]);
      HexByteInjective(p[0], q[0]);
      HexBytesInjective(p[1..], q[1..]);
      assert p == [p[0]] + p[1..] && q == [q[0]] + q[1..];
    }
  }

  /** The key's bytes, each announced by "11", then "00" and the plaintext's bytes. */
  function Body(k: Key, p: Bytes): (s: string)
    ensures Hex(s) && |s| % 2 == 0 && |s| >= 2
  {
    if |k| == 0 then "00" + HexBytes(p) else "11" + (HexByte(k[0]) + Body(k[1..], p))
  }

  lemma {:induction false} BodyInjective(k: Key, p: Bytes, k': Key, p': Bytes)
    requires Body(k, p) == Body(k', p')
    ensures k == k' && p == p'
    decreases |k|
  {
    var s := Body(k, p);
    assert (|k| == 0 <==> s[0] == '0') && (|k'| == 0 <==> s[0] == '0');
    if |k| == 0 {
      assert s[2..] == HexBytes(p) && s[2..] == HexBytes(p');
      HexBytesInjective(p, p');
    } else {
      assert s[2..4] == HexByte(k[0]) && s[4..] == Body(k[1..], p);
      assert s[2..4] == HexByte(k'[0]) && s[4..] == Body(k'[1..], p');
      HexByteInjective(k[0], k'[0]);
      BodyInjective(k[1..], p, k'[1..], p');
      assert k == [k[0]] + k[1..] && k' == [k'[0]] + k'[1..];
    }
  }

  function Zeros(n: nat): (s: string)
    ensures Hex(s) && |s| == n
  {
    seq(n, _ => '0')
  }

  ghost function Seal(p: Bytes, k: Key, nonce: nat): Encrypted {
    Encrypted(Zeros(24), Body(k, p), Zeros(32))
  }

  ghost function Unseal(e: Encrypted, k: Key): Option<Bytes> {
    if exists p :: e.ciphertext == Body(k, p) then
      var p :| e.ciphertext == Body(k, p);
      Some(p)
    else None
  }

  lemma SealedOpens(p: Bytes, k: Key, nonce: nat)
    ensures HexFields(Seal(p, k, nonce)) && Unseal(Seal(p, k, nonce), k) == Some(p)
    ensures forall k' :: k' != k ==> Unseal(Seal(p, k, nonce), k') == None
  {
    var body := Body(k, p);
    forall k', p' | body == Body(k', p')
      ensures k' == k && p' == p
    {
      BodyInjective(k, p, k', p');
    }
  }

  /** The assumption of the ciphertext theorems can be met. */
  lemma IdealCipherExists()
    ensures exists a: Aead :: Ideal(a)
  {
    var a := Aead((p: Bytes, k: Key, n: nat) => Seal(p, k, n), (e: Encrypted, k: Key) => Unseal(e, k));
    forall p, k, n
      ensures Sealed(a, p, k, n)
    {
      SealedOpens(p, k, n);
    }
    assert Ideal(a);
  }
}

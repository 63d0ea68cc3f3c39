/**
 Versioned ciphertext: the text format, its parser, and re-encryption under another key.
 AES-256-GCM is a pair of functions assumed ideal; key rings list their versions in the order
 in which they were configured.
 */
module VersionedCipher {
  import opened Wrappers

  datatype Encrypted = Encrypted(iv: string, ciphertext: string, authTag: string)
  datatype Parts = Parts(version: string, iv: string, authTag: string, ciphertext: string)

  // ----- text

  /** The characters String.prototype.trim removes. */
  predicate IsSpace(c: char) {
    || '\U{9}' <= c <= '\U{D}' || c == ' ' || c == '\U{A0}' || c == '\U{1680}' || '\U{2000}' <= c <= '\U{200A}'
    || c == '\U{2028}' || c == '\U{2029}' || c == '\U{202F}' || c == '\U{205F}' || c == '\U{3000}' || c == '\U{FEFF}'
  }

  function TrimStart(s: string): string {
    if |s| > 0 && IsSpace(s[0]) then TrimStart(s[1..]) else s
  }

  function TrimEnd(s: string): string {
    if |s| > 0 && IsSpace(s[|s| - 1]) then TrimEnd(s[..|s| - 1]) else s
  }

  function LowerChar(c: char): char {
    if 'A' <= c <= 'Z' then ((c as int) + 32) as char else c
  }

  function Lower(s: string): (r: string)
    ensures |r| == |s|
  {
    seq(|s|, i requires 0 <= i < |s| => LowerChar(s[i]))
  }

  function NormaliseVersion(version: string): string { Lower(TrimEnd(TrimStart(version))) }

  /** split(":") */
  function Split(s: string): (parts: seq<string>)
    ensures |parts| >= 1
    ensures forall i :: 0 <= i < |parts| ==> ':' !in parts[i]
  {
    if |s| == 0 then [""]
    else
      var rest := Split(s[1..]);
      if s[0] == ':' then [""] + rest else [[s[0]] + rest[0]] + rest[1..]
  }

  function Join(parts: seq<string>): string
    requires |parts| >= 1
  {
    if |parts| == 1 then parts[0] else parts[0] + ":" + Join(parts[1..])
  }

  predicate VersionChar(c: char) { 'a' <= c <= 'z' || 'A' <= c <= 'Z' || '0' <= c <= '9' || c == '_' || c == '-' }

  predicate HexChar(c: char) { '0' <= c <= '9' || 'a' <= c <= 'f' || 'A' <= c <= 'F' }

  predicate WellFormedVersion(v: string) { |v| > 0 && forall i :: 0 <= i < |v| ==> VersionChar(v[i]) }

  predicate Hex(s: string) { forall i :: 0 <= i < |s| ==> HexChar(s[i]) }

  /** A 12-byte IV, a 16-byte tag and whole bytes of ciphertext, in hex. */
  predicate HexFields(e: Encrypted) {
    && Hex(e.iv) && |e.iv| == 24 && Hex(e.authTag) && |e.authTag| == 32 && Hex(e.ciphertext) && |e.ciphertext| % 2 == 0
  }

  function FormatVersionedCiphertext(version: string, e: Encrypted): string {
    NormaliseVersion(version) + ":" + e.iv + ":" + e.authTag + ":" + e.ciphertext
  }

  function ParseVersionedCiphertext(value: string): Option<Parts> {
    if value == "" then None
    else
      var parts := Split(value);
      if |parts| != 4 then None
      else if !WellFormedVersion(parts[0]) || !HexFields(Encrypted(parts[1], parts[3], parts[2])) then None
      else Some(Parts(NormaliseVersion(parts[0]), parts[1], parts[2], parts[3]))
  }

  // ----- keys

  type Bytes = seq<bv8>
  type Key = seq<bv8>

  /** AES-256-GCM under a random IV, which the nonce stands for. */
  datatype Aead = Aead(seal: (Bytes, Key, nat) -> Encrypted, unseal: (Encrypted, Key) -> Option<Bytes>)

  /** Decryption inverts encryption, and a wrong key is rejected. */
  ghost predicate Ideal(a: Aead) {
    forall p, k, n :: Sealed(a, p, k, n)
  }

  ghost predicate Sealed(a: Aead, p: Bytes, k: Key, n: nat) {
    var e := a.seal(p, k, n);
    HexFields(e) && a.unseal(e, k) == Some(p) && forall k' :: k' != k ==> a.unseal(e, k') == None
  }

  datatype Ring = Ring(order: seq<string>, keys: map<string, Key>)

  /** Every configured version is listed once. */
  ghost predicate ValidRing(r: Ring) {
    && (forall v :: v in r.order <==> v in r.keys)
    && (forall i, j :: 0 <= i < j < |r.order| ==> r.order[i] != r.order[j])
  }

  const DEFAULT_KEY_VERSION := "legacy"

  function GetActiveKeyVersion(r: Ring, requested: string): string {
    var v := NormaliseVersion(requested);
    if v != "" && v in r.keys then v else DEFAULT_KEY_VERSION
  }

  /** The first version of a list whose key opens the ciphertext. */
  function FirstOpening(a: Aead, r: Ring, e: Encrypted, versions: seq<string>): Option<(string, Bytes)> {
    if |versions| == 0 then None
    else if versions[0] in r.keys && a.unseal(e, r.keys[versions[0]]).Some? then
      Some((versions[0], a.unseal(e, r.keys[versions[0]]).value))
    else FirstOpening(a, r, e, versions[1..])
  }

  method TryVersions(a: Aead, r: Ring, e: Encrypted, versions: seq<string>) returns (found: Option<(string, Bytes)>)
    ensures found == FirstOpening(a, r, e, versions)
  {
    for i := 0 to |versions|
      invariant FirstOpening(a, r, e, versions) == FirstOpening(a, r, e, versions[i..])
    {
      if versions[i] in r.keys {
        var plain := a.unseal(e, r.keys[versions[i]]);
        if plain.Some? {
          return Some((versions[i], plain.value));
        }
      }
    }
    found := None;
  }

  function Others(order: seq<string>, v: string): (o: seq<string>)
    ensures forall x :: x in o <==> x in order && x != v
  {
    if |order| == 0 then [] else if order[0] == v then Others(order[1..], v) else [order[0]] + Others(order[1..], v)
  }

  function DecryptVersioned(a: Aead, r: Ring, payload: string): Result<Bytes> {
    var parsed := ParseVersionedCiphertext(payload);
    if parsed.None? then Thrown("Invalid versioned ciphertext")
    else
      var p := parsed.value;
      var order := [p.version] + Others(r.order, p.version);
      var found := FirstOpening(a, r, Encrypted(p.iv, p.ciphertext, p.authTag), order);
      if found.Some? then Ok(found.value.1) else Thrown("Unable to decrypt versioned ciphertext")
  }

  function EncryptVersioned(a: Aead, r: Ring, requested: string, plaintext: Bytes, version: Option<string>,
                            nonce: nat): Result<string> {
    var target := Target(r, requested, version);
    if target !in r.keys then Thrown("No encryption key configured")
    else Ok(FormatVersionedCiphertext(target, a.seal(plaintext, r.keys[target], nonce)))
  }

  datatype Rotation = Rotation(value: string, fromVersion: string, toVersion: string, rotated: bool)

  function Target(r: Ring, requested: string, version: Option<string>): string {
    NormaliseVersion(if version.Some? then version.value else GetActiveKeyVersion(r, requested))
  }

  function RotateCiphertext(a: Aead, r: Ring, requested: string, payload: string, version: Option<string>,
                            nonce: nat): Result<Rotation> {
    var target := Target(r, requested, version);
    if target !in r.keys then Thrown("No encryption key configured")
    else
      var parsed := ParseVersionedCiphertext(payload);
      if parsed.Some? then
        if parsed.value.version == target then Ok(Rotation(payload, target, target, false))
        else
          match DecryptVersioned(a, r, payload)
          case Thrown(m) => Thrown(m)
          case Ok(plain) =>
            Ok(Rotation(FormatVersionedCiphertext(target, a.seal(plain, r.keys[target], nonce)), parsed.value.version,
              target, true))
      else
        var parts := Split(payload);
        if |parts| != 3 then Thrown("Unable to rotate ciphertext")
        else
          match FirstOpening(a, r, Encrypted(parts[0], parts[2], parts[1]), r.order)
          case None => Thrown("Unable to rotate ciphertext")
          case Some((from, plain)) =>
            Ok(Rotation(FormatVersionedCiphertext(target, a.seal(plain, r.keys[target], nonce)), from, target, true))
  }
}

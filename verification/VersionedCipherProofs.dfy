/** Round trips of the ciphertext format, and rotations that keep the plaintext. */
module VersionedCipherProofs {
  import opened Wrappers
  import opened VersionedCipher

  // ----- splitting and joining

  lemma {:induction false} SplitField(field: string, rest: string)
    requires ':' !in field
    ensures Split(field + ":" + rest) == [field] + Split(rest)
    decreases |field|
  {
    var s := field + ":" + rest;
    if |field| == 0 {
      assert s[1..] == rest;
    } else {
      assert s[1..] == field[1..] + ":" + rest;
      SplitField(field[1..], rest);
      assert [field[0]] + field[1..] == field;
    }
  }

  lemma {:induction false} SplitLast(field: string)
    requires ':' !in field
    ensures Split(field) == [field]
    decreases |field|
  {
    if |field| > 0 {
      SplitLast(field[1..]);
      assert [field[0]] + field[1..] == field;
    }
  }

  lemma {:induction false} JoinSplit(s: string)
    ensures Join(Split(s)) == s
    decreases |s|
  {
    if |s| > 0 {
      var rest := Split(s[1..]);
      JoinSplit(s[1..]);
      if s[0] == ':' {
        assert ([""] + rest)[1..] == rest;
        assert "" + ":" + s[1..] == s;
      } else {
        var parts := [[s[0]] + rest[0]] + rest[1..];
        assert parts[1..] == rest[1..];
        assert Join(parts) == [s[0]] + Join(rest);
        assert [s[0]] + s[1..] == s;
      }
    }
  }

  lemma {:induction false} SplitWithColon(s: string, rest: string)
    requires ':' in s
    ensures |Split(s + ":" + rest)| >= 2 + |Split(rest)|
    decreases |s|
  {
    var t := s + ":" + rest;
    assert t[1..] == s[1..] + ":" + rest;
    if ':' in s[1..] {
      SplitWithColon(s[1..], rest);
    } else {
      SplitField(s[1..], rest);
    }
  }

  lemma HexHasNoColon(s: string)
    requires Hex(s)
    ensures ':' !in s
  {
  }

  // ----- versions

  lemma LowerPlain(s: string)
    requires forall i :: 0 <= i < |s| ==> LowerChar(s[i]) == s[i]
    ensures Lower(s) == s
  {
  }

  lemma {:induction false} TrimStartIdle(s: string)
    requires |s| > 0 ==> !IsSpace(s[0])
    ensures TrimStart(s) == s
  {
  }

  lemma {:induction false} TrimEndIdle(s: string)
    requires |s| > 0 ==> !IsSpace(s[|s| - 1])
    ensures TrimEnd(s) == s
  {
  }

  lemma {:induction false} TrimmedEnds(s: string)
    ensures |TrimStart(s)| > 0 ==> !IsSpace(TrimStart(s)[0])
    decreases |s|
  {
    if |s| > 0 && IsSpace(s[0]) { TrimmedEnds(s[1..]); }
  }

  lemma {:induction false} TrimEndKeepsStart(s: string)
    ensures TrimEnd(s) <= s && (|TrimEnd(s)| > 0 ==> !IsSpace(TrimEnd(s)[|TrimEnd(s)| - 1]))
    decreases |s|
  {
    if |s| > 0 && IsSpace(s[|s| - 1]) { TrimEndKeepsStart(s[..|s| - 1]); }
  }

  lemma LowerKeepsSpaces(c: char)
    ensures IsSpace(LowerChar(c)) <==> IsSpace(c)
    ensures VersionChar(LowerChar(c)) <==> VersionChar(c)
    ensures LowerChar(LowerChar(c)) == LowerChar(c)
    ensures LowerChar(c) == ':' <==> c == ':'
  {
  }

  /** Normalising cuts white space off both ends, and nothing else, and lowers the ASCII letters of the rest. */
  lemma NormaliseMeans(v: string) returns (lead: string, rest: string, trail: string)
    ensures v == lead + rest + trail && (forall i :: 0 <= i < |lead| ==> IsSpace(lead[i]))
    ensures forall i :: 0 <= i < |trail| ==> IsSpace(trail[i])
    ensures |rest| > 0 ==> !IsSpace(rest[0]) && !IsSpace(rest[|rest| - 1])
    ensures |NormaliseVersion(v)| == |rest|
    ensures forall i :: 0 <= i < |rest| ==>
              var c := NormaliseVersion(v)[i];
              if 'A' <= rest[i] <= 'Z' then c as int == rest[i] as int - 'A' as int + 'a' as int else c == rest[i]
  {
    var t := TrimStart(v);
    rest := TrimEnd(t);
    TrimmedEnds(v);
    TrimEndKeepsStart(t);
    CutBack(t);
    lead := CutFront(v);
    trail := t[|rest|..];
    assert t == rest + trail;
  }

  lemma {:induction false} CutFront(s: string) returns (lead: string)
    ensures s == lead + TrimStart(s) && forall i :: 0 <= i < |lead| ==> IsSpace(lead[i])
    decreases |s|
  {
    if |s| > 0 && IsSpace(s[0]) {
      var more := CutFront(s[1..]);
      lead := [s[0]] + more;
    } else {
      lead := "";
    }
  }

  lemma {:induction false} CutBack(s: string)
    ensures TrimEnd(s) <= s && forall i :: |TrimEnd(s)| <= i < |s| ==> IsSpace(s[i])
    decreases |s|
  {
    if |s| > 0 && IsSpace(s[|s| - 1]) { CutBack(s[..|s| - 1]); }
  }

  /** Normalising twice is normalising once. */
  lemma NormaliseIdempotent(v: string)
    ensures NormaliseVersion(NormaliseVersion(v)) == NormaliseVersion(v)
  {
    var t := TrimEnd(TrimStart(v));
    var n := Lower(t);
    TrimmedEnds(v);
    TrimEndKeepsStart(TrimStart(v));
    if |n| > 0 {
      LowerKeepsSpaces(t[0]);
      LowerKeepsSpaces(t[|t| - 1]);
    }
    TrimStartIdle(n);
    TrimEndIdle(n);
    forall i | 0 <= i < |n|
      ensures LowerChar(n[i]) == n[i]
    {
      LowerKeepsSpaces(t[i]);
    }
    LowerPlain(n);
  }

  /** A well-formed version has nothing to trim: normalising only lowers its letters. */
  lemma NormaliseWellFormed(v: string)
    requires WellFormedVersion(v)
    ensures NormaliseVersion(v) == Lower(v) && WellFormedVersion(Lower(v)) && |NormaliseVersion(v)| == |v|
  {
    assert VersionChar(v[0]) && VersionChar(v[|v| - 1]);
    TrimStartIdle(v);
    TrimEndIdle(v);
    forall i | 0 <= i < |v|
      ensures VersionChar(Lower(v)[i])
    {
      LowerKeepsSpaces(v[i]);
    }
  }

  // ----- the format and its parser

  lemma SplitTail(e: Encrypted)
    requires HexFields(e)
    ensures Split(e.iv + ":" + e.authTag + ":" + e.ciphertext) == [e.iv, e.authTag, e.ciphertext]
  {
    HexHasNoColon(e.iv);
    HexHasNoColon(e.authTag);
    HexHasNoColon(e.ciphertext);
    assert e.iv + ":" + e.authTag + ":" + e.ciphertext == e.iv + ":" + (e.authTag + ":" + e.ciphertext);
    SplitField(e.iv, e.authTag + ":" + e.ciphertext);
    SplitField(e.authTag, e.ciphertext);
    SplitLast(e.ciphertext);
  }

  function PartsOf(version: string, e: Encrypted): Parts { Parts(version, e.iv, e.authTag, e.ciphertext) }

  /** A printed ciphertext is parsed back to its parts exactly when its version is well-formed. */
  lemma ParseFormatExactly(version: string, e: Encrypted)
    requires HexFields(e)
    ensures ParseVersionedCiphertext(FormatVersionedCiphertext(version, e)) ==
            if WellFormedVersion(NormaliseVersion(version)) then Some(PartsOf(NormaliseVersion(version), e)) else None
  {
    var v := NormaliseVersion(version);
    var tail := e.iv + ":" + e.authTag + ":" + e.ciphertext;
    var text := FormatVersionedCiphertext(version, e);
    assert text == v + ":" + tail;
    SplitTail(e);
    if ':' in v {
      SplitWithColon(v, tail);
      var i :| 0 <= i < |v| && v[i] == ':';
      assert !VersionChar(v[i]);
    } else {
      SplitField(v, tail);
      if WellFormedVersion(v) {
        NormaliseIdempotent(version);
      }
    }
  }

  lemma {:induction false} JoinFour(parts: seq<string>)
    requires |parts| == 4
    ensures Join(parts) == parts[0] + (":" + parts[1] + ":" + parts[2] + ":" + parts[3])
  {
    assert parts[1..][1..] == parts[2..] && parts[2..][1..] == parts[3..];
    assert Join(parts[2..]) == parts[2] + ":" + parts[3];
    assert Join(parts[1..]) == parts[1] + ":" + Join(parts[2..]);
    assert Join(parts) == parts[0] + ":" + Join(parts[1..]);
  }

  /** Reprinting an accepted string gives it back, up to the letter case of its version. */
  lemma ReprintAccepted(value: string)
    requires ParseVersionedCiphertext(value).Some?
    ensures var p := ParseVersionedCiphertext(value).value;
            var again := FormatVersionedCiphertext(p.version, Encrypted(p.iv, p.ciphertext, p.authTag));
            && |again| == |value| && |p.version| <= |value|
            && again == Lower(value[..|p.version|]) + value[|p.version|..]
            && p.version == Lower(value[..|p.version|])
  {
    var parts := Split(value);
    var v, tail := parts[0], ":" + parts[1] + ":" + parts[2] + ":" + parts[3];
    JoinSplit(value);
    JoinFour(parts);
    NormaliseWellFormed(v);
    NormaliseIdempotent(v);
    assert value == v + tail && value[..|v|] == v && value[|v|..] == tail;
    assert FormatVersionedCiphertext(Lower(v), Encrypted(parts[1], parts[3], parts[2])) == Lower(v) + tail;
  }

  // ----- decryption with a ring of keys

  /** Some version of the list has the key. */
  ghost predicate HasKey(r: Ring, versions: seq<string>, k: Key) {
    exists i :: 0 <= i < |versions| && versions[i] in r.keys && r.keys[versions[i]] == k
  }

  ghost predicate RingHasKey(r: Ring, k: Key) { exists v :: v in r.keys && r.keys[v] == k }

  /** Four fields, a well-formed version, and hex fields of a 12-byte IV, a 16-byte tag and whole bytes. */
  ghost predicate IsVersioned(value: string) {
    exists v, e :: Spells(value, v, e)
  }

  predicate Spells(value: string, v: string, e: Encrypted) {
    && WellFormedVersion(v) && Hex(e.iv) && |e.iv| == 2 * 12 && Hex(e.authTag) && |e.authTag| == 2 * 16
    && Hex(e.ciphertext) && |e.ciphertext| % 2 == 0
    && value == v + (":" + e.iv + ":" + e.authTag + ":" + e.ciphertext)
  }

  /** The parser accepts exactly the strings of that form. */
  lemma AcceptsExactly(value: string)
    ensures ParseVersionedCiphertext(value).Some? <==> IsVersioned(value)
  {
    if ParseVersionedCiphertext(value).Some? {
      var parts := Split(value);
      JoinSplit(value);
      JoinFour(parts);
      assert Spells(value, parts[0], Encrypted(parts[1], parts[3], parts[2]));
    }
    if IsVersioned(value) {
      var v, e :| Spells(value, v, e);
      var tail := e.iv + ":" + e.authTag + ":" + e.ciphertext;
      assert value == v + ":" + tail;
      assert ':' !in v;
      SplitField(v, tail);
      SplitTail(e);
    }
  }

  lemma {:induction false} OpensWithKeyExactly(a: Aead, r: Ring, versions: seq<string>, p: Bytes, k: Key, n: nat)
    requires Sealed(a, p, k, n)
    ensures var found := FirstOpening(a, r, a.seal(p, k, n), versions);
            && (found.Some? <==> HasKey(r, versions, k))
            && (found.Some? ==> found.value.1 == p && found.value.0 in r.keys && r.keys[found.value.0] == k)
    decreases |versions|
  {
    if |versions| > 0 {
      var v, rest := versions[0], versions[1..];
      OpensWithKeyExactly(a, r, rest, p, k, n);
      if HasKey(r, rest, k) {
        var i :| 0 <= i < |rest| && rest[i] in r.keys && r.keys[rest[i]] == k;
        assert versions[i + 1] in r.keys && r.keys[versions[i + 1]] == k;
      }
      if HasKey(r, versions, k) && !(v in r.keys && r.keys[v] == k) {
        var i :| 0 <= i < |versions| && versions[i] in r.keys && r.keys[versions[i]] == k;
        assert rest[i - 1] in r.keys && r.keys[rest[i - 1]] == k;
      }
    }
  }

  lemma {:induction false} WholeRing(r: Ring, first: string, k: Key)
    requires ValidRing(r)
    ensures HasKey(r, [first] + Others(r.order, first), k) <==> RingHasKey(r, k)
    ensures HasKey(r, r.order, k) <==> RingHasKey(r, k)
  {
    var versions := [first] + Others(r.order, first);
    if RingHasKey(r, k) {
      var v :| v in r.keys && r.keys[v] == k;
      assert v in r.order;
      var i :| 0 <= i < |r.order| && r.order[i] == v;
      assert v in versions;
      var j :| 0 <= j < |versions| && versions[j] == v;
    }
  }

  /** `payload` is tagged `v` and seals `p` under `k`. */
  ghost predicate Holds(a: Aead, payload: string, v: string, p: Bytes, k: Key) {
    exists n :: ParseVersionedCiphertext(payload) == Some(PartsOf(v, a.seal(p, k, n)))
  }

  /** A versioned ciphertext decrypts to its plaintext exactly when the ring has its key, under any version. */
  lemma DecryptsExactly(a: Aead, r: Ring, payload: string, v: string, p: Bytes, k: Key)
    requires Ideal(a) && ValidRing(r) && Holds(a, payload, v, p, k)
    ensures DecryptVersioned(a, r, payload).Ok? <==> RingHasKey(r, k)
    ensures DecryptVersioned(a, r, payload).Ok? ==> DecryptVersioned(a, r, payload).value == p
  {
    var n :| ParseVersionedCiphertext(payload) == Some(PartsOf(v, a.seal(p, k, n)));
    var e := a.seal(p, k, n);
    assert Sealed(a, p, k, n);
    assert Encrypted(e.iv, e.ciphertext, e.authTag) == e;
    OpensWithKeyExactly(a, r, [v] + Others(r.order, v), p, k, n);
    WholeRing(r, v, k);
  }

  lemma SealedHolds(a: Aead, version: string, p: Bytes, k: Key, n: nat)
    requires Ideal(a)
    ensures Holds(a, FormatVersionedCiphertext(version, a.seal(p, k, n)), NormaliseVersion(version), p, k)
            <==> WellFormedVersion(NormaliseVersion(version))
    ensures !WellFormedVersion(NormaliseVersion(version)) ==>
            ParseVersionedCiphertext(FormatVersionedCiphertext(version, a.seal(p, k, n))) == None
  {
    assert Sealed(a, p, k, n);
    ParseFormatExactly(version, a.seal(p, k, n));
  }

  /** What is encrypted under a configured version decrypts again exactly when that version's name is well-formed. */
  lemma EncryptDecrypt(a: Aead, r: Ring, requested: string, p: Bytes, version: Option<string>, nonce: nat)
    requires Ideal(a) && ValidRing(r)
    ensures var target := Target(r, requested, version);
            var c := EncryptVersioned(a, r, requested, p, version, nonce);
            && (c.Ok? <==> target in r.keys)
            && (c.Ok? ==> (Holds(a, c.value, target, p, r.keys[target]) <==> WellFormedVersion(target)))
            && (c.Ok? ==> (DecryptVersioned(a, r, c.value) == Ok(p) <==> WellFormedVersion(target)))
  {
    var target := Target(r, requested, version);
    if target in r.keys {
      NormaliseIdempotent(if version.Some? then version.value else GetActiveKeyVersion(r, requested));
      SealedHolds(a, target, p, r.keys[target], nonce);
      if WellFormedVersion(target) {
        DecryptsExactly(a, r, EncryptVersioned(a, r, requested, p, version, nonce).value, target, p, r.keys[target]);
      }
    }
  }

  /**
   Without an explicit version a ciphertext carries the requested one exactly when that one is
   configured, and the bootstrap version otherwise.
   */
  lemma CarriesRequestedExactly(a: Aead, r: Ring, requested: string, p: Bytes, nonce: nat)
    requires Ideal(a) && NormaliseVersion(requested) != ""
    requires EncryptVersioned(a, r, requested, p, None, nonce).Ok? && WellFormedVersion(Target(r, requested, None))
    ensures var parsed := ParseVersionedCiphertext(EncryptVersioned(a, r, requested, p, None, nonce).value);
            && parsed.Some?
            && (parsed.value.version == NormaliseVersion(requested) <==> NormaliseVersion(requested) in r.keys)
            && (NormaliseVersion(requested) !in r.keys ==> parsed.value.version == "legacy")
  {
    var target := Target(r, requested, None);
    NormaliseIdempotent(requested);
    LegacyIsNormal();
    assert Sealed(a, p, r.keys[target], nonce);
    ParseFormatExactly(target, a.seal(p, r.keys[target], nonce));
  }

  lemma LegacyIsNormal()
    ensures NormaliseVersion("legacy") == "legacy"
  {
    NormaliseWellFormed("legacy");
    LowerPlain("legacy");
  }

  // ----- rotation

  /** When a rotation succeeds, and what it returns. */
  lemma RotatesExactly(a: Aead, r: Ring, requested: string, payload: string, version: Option<string>, nonce: nat,
                       v: string, p: Bytes, k: Key)
    requires Ideal(a) && ValidRing(r) && Holds(a, payload, v, p, k)
    ensures var target, res := Target(r, requested, version),
        RotateCiphertext(a, r, requested, payload, version, nonce);
            && (res.Ok? <==> target in r.keys && (v == target || RingHasKey(r, k)))
            && (res.Ok? && v == target ==> res.value == Rotation(payload, v, v, false))
            && (res.Ok? && v != target ==>
                  res.value == Rotation(FormatVersionedCiphertext(target, a.seal(p, r.keys[target], nonce)), v, target,
                    true))
  {
    DecryptsExactly(a, r, payload, v, p, k);
  }

  /** The version whose key opens a versioned payload. */
  function OpenedWith(a: Aead, r: Ring, payload: string): Option<string> {
    match ParseVersionedCiphertext(payload)
    case None => None
    case Some(parts) =>
      var order := [parts.version] + Others(r.order, parts.version);
      match FirstOpening(a, r, Encrypted(parts.iv, parts.ciphertext, parts.authTag), order)
      case None => None
      case Some((version, _)) => Some(version)
  }

  lemma OpenerExactly(a: Aead, r: Ring, payload: string, v: string, p: Bytes, k: Key)
    requires Ideal(a) && ValidRing(r) && Holds(a, payload, v, p, k)
    ensures OpenedWith(a, r, payload) == Some(v) <==> v in r.keys && r.keys[v] == k
  {
    var n :| ParseVersionedCiphertext(payload) == Some(PartsOf(v, a.seal(p, k, n)));
    var e := a.seal(p, k, n);
    assert Sealed(a, p, k, n);
    assert Encrypted(e.iv, e.ciphertext, e.authTag) == e;
    OpensWithKeyExactly(a, r, [v] + Others(r.order, v), p, k, n);
  }

  /**
   The version a rotation says it decrypted with is the one it used exactly when the tag's own key
   is the right one.
   */
  lemma FromVersionTrueExactly(a: Aead, r: Ring, requested: string, payload: string, version: Option<string>,
                               nonce: nat, v: string, p: Bytes, k: Key)
    requires Ideal(a) && ValidRing(r) && Holds(a, payload, v, p, k)
    requires RotateCiphertext(a, r, requested, payload, version, nonce).Ok? && v != Target(r, requested, version)
    ensures var res := RotateCiphertext(a, r, requested, payload, version, nonce).value;
            OpenedWith(a, r, payload) == Some(res.fromVersion) <==> v in r.keys && r.keys[v] == k
  {
    RotatesExactly(a, r, requested, payload, version, nonce, v, p, k);
    OpenerExactly(a, r, payload, v, p, k);
  }

  /** A payload tagged "v1" that only the key of "v2" opens is reported as decrypted with "v1". */
  lemma FallbackMisreported(a: Aead, r: Ring, payload: string, nonce: nat, p: Bytes)
    requires Ideal(a) && Holds(a, payload, "v1", p, [2])
    requires r == Ring(["v1", "v2", "v3"], map["v1" := [1], "v2" := [2], "v3" := [3]])
    ensures var res := RotateCiphertext(a, r, "", payload, Some("v3"), nonce);
            res.Ok? && res.value.fromVersion == "v1" && OpenedWith(a, r, payload) != Some("v1")
  {
    ThreeKeys(r);
    NormaliseWellFormed("v3");
    LowerPlain("v3");
    RotatesExactly(a, r, "", payload, Some("v3"), nonce, "v1", p, [2]);
    OpenerExactly(a, r, payload, "v1", p, [2]);
  }

  lemma ThreeKeys(r: Ring)
    requires r == Ring(["v1", "v2", "v3"], map["v1" := [1], "v2" := [2], "v3" := [3]])
    ensures ValidRing(r) && RingHasKey(r, [2]) && r.keys["v1"] == [1] && "v3" in r.keys && "v1" != "v3"
  {
    assert "v1"[1] != "v2"[1] && "v1"[1] != "v3"[1] && "v2"[1] != "v3"[1];
    assert r.keys["v2"] == [2];
  }

  /**
   After a rotation: the tag is the target's and the plaintext the same, exactly when the target's
   name is well-formed.
   */
  lemma RotationKeepsPlaintextExactly(a: Aead, r: Ring, requested: string, payload: string, version: Option<string>,
                                      nonce: nat, v: string, p: Bytes, k: Key)
    requires Ideal(a) && ValidRing(r) && Holds(a, payload, v, p, k)
    requires RotateCiphertext(a, r, requested, payload, version, nonce).Ok?
    ensures var target, res := Target(r, requested, version),
        RotateCiphertext(a, r, requested, payload, version, nonce).value;
            && (v == target ==> Holds(a, res.value, target, p, k))
            && (v != target ==> (Holds(a, res.value, target, p, r.keys[target]) <==> WellFormedVersion(target)))
            && (v != target ==> (DecryptVersioned(a, r, res.value) == Ok(p) <==> WellFormedVersion(target)))
  {
    var target := Target(r, requested, version);
    RotatesExactly(a, r, requested, payload, version, nonce, v, p, k);
    if v != target {
      NormaliseIdempotent(if version.Some? then version.value else GetActiveKeyVersion(r, requested));
      SealedHolds(a, target, p, r.keys[target], nonce);
      var value := FormatVersionedCiphertext(target, a.seal(p, r.keys[target], nonce));
      if WellFormedVersion(target) {
        DecryptsExactly(a, r, value, target, p, r.keys[target]);
      }
    }
  }

  /** A name the key ring accepts but the parser does not: rotating to it makes the ciphertext unreadable. */
  lemma SpacedNameUnreadable(a: Aead, r: Ring, payload: string, nonce: nat, v: string, p: Bytes, k: Key)
    requires Ideal(a) && ValidRing(r) && Holds(a, payload, v, p, k) && RingHasKey(r, k) && "v 2" in r.keys && v != "v 2"
    ensures var res := RotateCiphertext(a, r, "", payload, Some("v 2"), nonce);
            res.Ok? && res.value.rotated && DecryptVersioned(a, r, res.value.value).Thrown?
  {
    TrimStartIdle("v 2");
    TrimEndIdle("v 2");
    LowerPlain("v 2");
    assert !VersionChar("v 2"[1]);
    RotatesExactly(a, r, "", payload, Some("v 2"), nonce, v, p, k);
    SealedHolds(a, "v 2", p, r.keys["v 2"], nonce);
  }

  lemma FreshlyRotatedStays(a: Aead, r: Ring, requested: string, version: Option<string>, plain: Bytes, nonce: nat,
                            nonce': nat)
    requires Ideal(a) && Target(r, requested, version) in r.keys && WellFormedVersion(Target(r, requested, version))
    ensures var target := Target(r, requested, version);
            var value := FormatVersionedCiphertext(target, a.seal(plain, r.keys[target], nonce));
            RotateCiphertext(a, r, requested, value, version, nonce') == Ok(Rotation(value, target, target, false))
  {
    var target := Target(r, requested, version);
    NormaliseIdempotent(if version.Some? then version.value else GetActiveKeyVersion(r, requested));
    assert Sealed(a, plain, r.keys[target], nonce);
    ParseFormatExactly(target, a.seal(plain, r.keys[target], nonce));
  }

  /** Rotating to the version a ciphertext already carries returns it unchanged. */
  lemma RotatingAgainChangesNothing(a: Aead, r: Ring, requested: string, payload: string, version: Option<string>,
                                    nonce: nat, nonce': nat)
    requires Ideal(a) && WellFormedVersion(Target(r, requested, version))
    requires RotateCiphertext(a, r, requested, payload, version, nonce).Ok?
    ensures var res := RotateCiphertext(a, r, requested, payload, version, nonce).value;
            RotateCiphertext(a, r, requested, res.value, version, nonce') ==
            Ok(Rotation(res.value, res.toVersion, res.toVersion, false))
  {
    var target, parsed, parts := Target(r, requested, version), ParseVersionedCiphertext(payload), Split(payload);
    if parsed.None? {
      var found := FirstOpening(a, r, Encrypted(parts[0], parts[2], parts[1]), r.order);
      FreshlyRotatedStays(a, r, requested, version, found.value.1, nonce, nonce');
    } else if parsed.value.version != target {
      FreshlyRotatedStays(a, r, requested, version, DecryptVersioned(a, r, payload).value, nonce, nonce');
    }
  }

  /** An un-versioned payload: IV, tag and ciphertext of `p` under `k`. */
  function LegacyPayload(e: Encrypted): string { e.iv + ":" + e.authTag + ":" + e.ciphertext }

  /** A legacy payload is rotated exactly when the ring has its key, and keeps its plaintext. */
  lemma LegacyRotation(a: Aead, r: Ring, requested: string, version: Option<string>, nonce: nat, p: Bytes, k: Key,
                       n: nat)
    requires Ideal(a) && ValidRing(r)
    ensures var target := Target(r, requested, version);
            var res := RotateCiphertext(a, r, requested, LegacyPayload(a.seal(p, k, n)), version, nonce);
            && (res.Ok? <==> target in r.keys && RingHasKey(r, k))
            && (res.Ok? ==> res.value.rotated && res.value.toVersion == target)
            && (res.Ok? ==> (Holds(a, res.value.value, target, p, r.keys[target]) <==> WellFormedVersion(target)))
  {
    var e, target := a.seal(p, k, n), Target(r, requested, version);
    assert Sealed(a, p, k, n);
    SplitTail(e);
    assert Encrypted(e.iv, e.ciphertext, e.authTag) == e;
    OpensWithKeyExactly(a, r, r.order, p, k, n);
    WholeRing(r, target, k);
    NormaliseIdempotent(if version.Some? then version.value else GetActiveKeyVersion(r, requested));
    if target in r.keys {
      SealedHolds(a, target, p, r.keys[target], nonce);
    }
  }

  /** A legacy rotation names a version that has the payload's key. */
  lemma LegacySource(a: Aead, r: Ring, requested: string, version: Option<string>, nonce: nat, p: Bytes, k: Key, n: nat)
    requires Ideal(a) && ValidRing(r)
    requires RotateCiphertext(a, r, requested, LegacyPayload(a.seal(p, k, n)), version, nonce).Ok?
    ensures var res := RotateCiphertext(a, r, requested, LegacyPayload(a.seal(p, k, n)), version, nonce).value;
            res.fromVersion in r.keys && r.keys[res.fromVersion] == k
  {
    var e := a.seal(p, k, n);
    assert Sealed(a, p, k, n);
    SplitTail(e);
    assert Encrypted(e.iv, e.ciphertext, e.authTag) == e;
    OpensWithKeyExactly(a, r, r.order, p, k, n);
  }

  // ----- sequences of rotations

  datatype Step = Step(ring: Ring, requested: string, version: Option<string>, nonce: nat)

  function StepTarget(s: Step): string { Target(s.ring, s.requested, s.version) }

  /** Each step's ring has the target, a well-formed name for it, and still the key the ciphertext is under. */
  ghost predicate StepsOk(v: string, k: Key, steps: seq<Step>)
    decreases |steps|
  {
    |steps| == 0 ||
    var s := steps[0];
    var t := StepTarget(s);
    && ValidRing(s.ring) && t in s.ring.keys && (v == t || (RingHasKey(s.ring, k) && WellFormedVersion(t)))
    && StepsOk(t, if v == t then k else s.ring.keys[t], steps[1..])
  }

  function RotateAll(a: Aead, payload: string, steps: seq<Step>): Result<string>
    decreases |steps|
  {
    if |steps| == 0 then Ok(payload)
    else
      var s := steps[0];
      match RotateCiphertext(a, s.ring, s.requested, payload, s.version, s.nonce)
      case Thrown(m) => Thrown(m)
      case Ok(res) => RotateAll(a, res.value, steps[1..])
  }

  function LastTarget(v: string, steps: seq<Step>): string {
    if |steps| == 0 then v else StepTarget(steps[|steps| - 1])
  }

  function LastKey(v: string, k: Key, steps: seq<Step>): Key
    requires StepsOk(v, k, steps)
    decreases |steps|
  {
    if |steps| == 0 then k
    else
      var t := StepTarget(steps[0]);
      LastKey(t, if v == t then k else steps[0].ring.keys[t], steps[1..])
  }

  /** Any sequence of rotations keeps the plaintext and ends tagged with the last target. */
  lemma {:induction false} RotationsKeepPlaintext(a: Aead, payload: string, steps: seq<Step>, v: string, p: Bytes,
                                                  k: Key)
    requires Ideal(a) && Holds(a, payload, v, p, k) && StepsOk(v, k, steps)
    ensures RotateAll(a, payload, steps).Ok?
    ensures Holds(a, RotateAll(a, payload, steps).value, LastTarget(v, steps), p, LastKey(v, k, steps))
    decreases |steps|
  {
    if |steps| > 0 {
      var next := StepKeepsPlaintext(a, payload, steps, v, p, k);
      var t := StepTarget(steps[0]);
      RotationsKeepPlaintext(a, next, steps[1..], t, p, if v == t then k else steps[0].ring.keys[t]);
    }
  }

  lemma StepKeepsPlaintext(a: Aead, payload: string, steps: seq<Step>, v: string, p: Bytes, k: Key)
    returns (next: string)
    requires Ideal(a) && Holds(a, payload, v, p, k) && |steps| > 0 && StepsOk(v, k, steps)
    ensures var t := StepTarget(steps[0]); Holds(a, next, t, p, if v == t then k else steps[0].ring.keys[t])
    ensures RotateAll(a, payload, steps) == RotateAll(a, next, steps[1..])
  {
    var s := steps[0];
    RotatesExactly(a, s.ring, s.requested, payload, s.version, s.nonce, v, p, k);
    RotationKeepsPlaintextExactly(a, s.ring, s.requested, payload, s.version, s.nonce, v, p, k);
    next := RotateCiphertext(a, s.ring, s.requested, payload, s.version, s.nonce).value.value;
  }
}

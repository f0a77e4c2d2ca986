/**
 * The "User Defined Certificate Addition" value: the `--certificate` option
 * "<sha256 hex hash> <name>" is matched against an anchored pattern and packed
 * into the string
 *   [hash algorithm 2 = SHA-256][32 hash bytes][name length][name].
 * The packed value is an ordinary string value for the codec.
 */
module Certificate {
  import opened Results
  import opened Values

  const Space: CodeUnit := 0x20

  /** Hash algorithm tag for SHA-256 (1 would be SHA-1, 3 SHA-384). */
  const Sha256Tag: nat := 2

  /** The pattern class `[a-fA-F0-9]`. */
  predicate IsHexDigit(u: CodeUnit)
  {
    (0x30 <= u <= 0x39) || (0x41 <= u <= 0x46) || (0x61 <= u <= 0x66)
  }

  /** The code units the pattern `.` does not match (no `s` flag): LF, CR, LS, PS. */
  predicate IsLineTerminator(u: CodeUnit)
  {
    u == 0x0A || u == 0x0D || u == 0x2028 || u == 0x2029
  }

  predicate AllHex(s: JsString)
  {
    forall i :: 0 <= i < |s| ==> IsHexDigit(s[i])
  }

  /**
   * `s` is a certificate option with groups `hash` and `name`: exactly 64 hex
   * digits, one space, then at least one code unit other than a line terminator,
   * up to the end.
   */
  ghost predicate IsCertificateSpec(s: JsString, hash: JsString, name: JsString)
  {
    && s == hash + [Space] + name
    && |hash| == 64 && AllHex(hash)
    && |name| > 0 && forall i :: 0 <= i < |name| ==> !IsLineTerminator(name[i])
  }

  /** The match of the anchored pattern `^(?<hash>[a-fA-F0-9]{64}) (?<name>.+)$`: its two groups, or `None`. */
  function MatchSpec(s: JsString): (m: Option<(JsString, JsString)>)
    ensures m.Some? <==> exists hash, name :: IsCertificateSpec(s, hash, name)
    ensures m.Some? ==> IsCertificateSpec(s, m.value.0, m.value.1)
  {
    if |s| < 66 || !AllHex(s[..64]) || s[64] != Space then None
    else
      var name := s[65..];
      if exists i :: 0 <= i < |name| && IsLineTerminator(name[i]) then None
      else
        assert s == s[..64] + [Space] + name;
        assert IsCertificateSpec(s, s[..64], name);
        Some((s[..64], name))
  }

  /** The value of a hex digit. */
  function HexDigitValue(u: CodeUnit): (d: nat)
    requires IsHexDigit(u)
    ensures d < 16
  {
    if u <= 0x39 then (u - 0x30) as nat
    else if u <= 0x46 then (u - 0x41) as nat + 10
    else (u - 0x61) as nat + 10
  }

  /** `Buffer.from(hex, "hex")` on an even number of hex digits: one byte per pair, high digit first. */
  function HexDecode(hex: JsString): (b: seq<Byte>)
    requires |hex| % 2 == 0 && AllHex(hex)
    ensures |b| == |hex| / 2
  {
    seq(|hex| / 2, i requires 0 <= i < |hex| / 2 =>
      (16 * HexDigitValue(hex[2 * i]) + HexDigitValue(hex[2 * i + 1])) as Byte)
  }

  /** The lower-case hex digit of a value below 16. */
  function HexDigit(d: nat): (u: CodeUnit)
    requires d < 16
    ensures IsHexDigit(u) && HexDigitValue(u) == d
  {
    if d < 10 then (0x30 + d) as CodeUnit else (0x61 + d - 10) as CodeUnit
  }

  /** A hex digit in lower case. */
  function LowerDigit(u: CodeUnit): CodeUnit
  {
    if 0x41 <= u <= 0x46 then u + 0x20 else u
  }

  /** Lower-case hex encoding, two digits per byte, high digit first. */
  function HexEncode(b: seq<Byte>): (hex: JsString)
    ensures |hex| == 2 * |b| && AllHex(hex)
  {
    seq(2 * |b|, i requires 0 <= i < 2 * |b| =>
      if i % 2 == 0 then HexDigit(b[i / 2] as nat / 16) else HexDigit(b[i / 2] as nat % 16))
  }

  /** The hex digits with `A`-`F` replaced by `a`-`f`. */
  function LowerHex(hex: JsString): JsString
  {
    seq(|hex|, i requires 0 <= i < |hex| => LowerDigit(hex[i]))
  }

  /** Decoding undoes encoding. */
  lemma HexDecodeEncode(b: seq<Byte>)
    ensures HexDecode(HexEncode(b)) == b
  {
  }

  /** Encoding what was decoded gives the digits back, in lower case. */
  lemma HexEncodeDecode(hex: JsString)
    requires |hex| % 2 == 0 && AllHex(hex)
    ensures HexEncode(HexDecode(hex)) == LowerHex(hex)
  {
  }

  /** `Buffer.toString("binary")`: one code unit per byte, of the same value. */
  function Latin1(b: seq<Byte>): (s: JsString)
    ensures |s| == |b| && forall i :: 0 <= i < |b| ==> s[i] as int == b[i] as int
  {
    seq(|b|, i requires 0 <= i < |b| => b[i] as int as CodeUnit)
  }

  /**
   * `field` is the packed certificate for `hash` and `name`: the SHA-256 tag, the
   * 32 bytes the hex digits spell, the name's length as one code unit
   * (String.fromCharCode, so modulo 2^16), then the name.
   */
  ghost predicate PackedField(field: JsString, hash: JsString, name: JsString)
    requires |hash| == 64 && AllHex(hash)
  {
    && |field| == 34 + |name|
    && field[0] == 2
    && (forall i :: 0 <= i < 32 ==>
          field[1 + i] as int == 16 * HexDigitValue(hash[2 * i]) + HexDigitValue(hash[2 * i + 1]))
    && field[33] as int == |name| % 0x1_0000
    && field[34..] == name
  }

  /**
   * The `--certificate` block of `main`: the value of "User Defined Certificate
   * Addition", or the error for an option that does not match the pattern. The
   * name's length is not checked.
   */
  function PackCertificate(spec: JsString): (r: Result<JsString>)
    ensures r.Success? <==> exists hash, name :: IsCertificateSpec(spec, hash, name)
    ensures r.Failure? ==> r.error == MalformedCertificate
    ensures r.Success? ==> forall hash, name :: IsCertificateSpec(spec, hash, name) ==> PackedField(r.value, hash, name)
  {
    match MatchSpec(spec)
    case None => Failure(MalformedCertificate)
    case Some((hash, name)) =>
      var field := [FromCharCode(Sha256Tag)] + Latin1(HexDecode(hash)) + [FromCharCode(|name|)] + name;
      assert forall h, n :: IsCertificateSpec(spec, h, n) ==> h == hash && n == name;
      assert field[34..] == name;
      Success(field)
  }

  /** Code units below 256 as the bytes they stand for (the inverse of `Latin1`). */
  function Latin1Bytes(s: JsString): (b: seq<Byte>)
    requires forall i :: 0 <= i < |s| ==> s[i] < 0x100
    ensures Latin1(b) == s
  {
    seq(|s|, i requires 0 <= i < |s| => s[i] as int as Byte)
  }

  /**
   * The 32 code units after the tag of a packed certificate are bytes, and they
   * are the hash's digest: hex-encoding them gives the hash back in lower case.
   */
  lemma PackedDigestIsHash(spec: JsString, hash: JsString, name: JsString)
    requires IsCertificateSpec(spec, hash, name)
    ensures PackCertificate(spec).Success?
    ensures forall i :: 1 <= i < 33 ==> PackCertificate(spec).value[i] < 0x100
    ensures HexEncode(Latin1Bytes(PackCertificate(spec).value[1..33])) == LowerHex(hash)
  {
    var field := PackCertificate(spec).value;
    assert PackedField(field, hash, name);
    var digest := field[1..33];
    var bytes := HexDecode(hash);
    assert forall i :: 0 <= i < 32 ==> digest[i] as int == bytes[i] as int by {
      forall i | 0 <= i < 32 ensures digest[i] as int == bytes[i] as int {
        assert digest[i] == field[1 + i];
      }
    }
    assert Latin1Bytes(digest) == bytes;
    HexEncodeDecode(hash);
  }

  /** A hash of 63 digits is refused, whatever follows the space. */
  lemma ShortHashRefused(hash: JsString, name: JsString)
    requires |hash| == 63
    ensures PackCertificate(hash + [Space] + name) == Failure(MalformedCertificate)
  {
    var s := hash + [Space] + name;
    assert s[63] == Space;
  }
}

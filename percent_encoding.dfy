/** `special_url_encode`: the provider's strict percent-encoding, built from the
    form serializer and three textual replacements, and proved equal to the
    per-byte encoding of RFC 3986 (unreserved set of section 2.3, percent-encoding
    of section 2.1). */
module PercentEncoding {
  import opened Bytes
  import opened Strings
  import FormUrlencoded

  /** The unreserved characters of section 2.3 of RFC 3986:
      `A-Z a-z 0-9 - . _ ~`. */
  predicate Unreserved(b: Byte) {
    0x41 <= b <= 0x5A || 0x61 <= b <= 0x7A || 0x30 <= b <= 0x39 ||
    b == 0x2D || b == 0x2E || b == 0x5F || b == TILDE
  }

  /** RFC 3986 encoding of one byte: unreserved bytes stand for themselves, every
      other byte becomes `%` and two upper-case hexadecimal digits. */
  function EncodeByte(b: Byte): Bytes {
    if Unreserved(b) then [b] else [PERCENT, HexDigit(b / 16), HexDigit(b % 16)]
  }

  /** The reference encoding: each byte encoded on its own. */
  function Rfc3986Encode(s: Bytes): Bytes {
    if |s| == 0 then [] else EncodeByte(s[0]) + Rfc3986Encode(s[1..])
  }

  const PCT_20: Bytes := [PERCENT, 0x32, 0x30]  // "%20"
  const PCT_2A: Bytes := [PERCENT, 0x32, 0x41]  // "%2A"
  const PCT_7E: Bytes := [PERCENT, 0x37, 0x45]  // "%7E"

  /** The three replacements applied to the serializer's output, in order:
      `+` to `%20`, `*` to `%2A`, `%7E` to `~`. No `+` and no `*` is left. */
  function ProviderFixups(s: Bytes): (fixed: Bytes)
    ensures PLUS !in fixed && STAR !in fixed
  {
    var s1 := Replace(s, [PLUS], PCT_20);
    var s2 := Replace(s1, [STAR], PCT_2A);
    ReplaceBytes(s, [PLUS], PCT_20);
    ReplaceBytes(s1, [STAR], PCT_2A);
    ReplaceBytes(s2, PCT_7E, [TILDE]);
    Replace(Replace(Replace(s, [PLUS], PCT_20), [STAR], PCT_2A), PCT_7E, [TILDE])
  }

  /** `special_url_encode(value)`: a fresh serializer, the value appended as a
      key without a value, then the replacements. The result is exactly the
      RFC 3986 per-byte encoding of `value`. */
  function SpecialUrlEncode(value: Bytes): (encoded: Bytes)
    ensures encoded == Rfc3986Encode(value)
  {
    FixupsOfSerializationIsRfc3986(value);
    ProviderFixups(FormUrlencoded.AppendKeyOnly([], 0, value))
  }

  // ---------------------------------------------------------------------------
  // The replacements only touch what the serializer wrote for space, `*` and `~`

  /** The first two replacements, on one serialized byte: only the serializations
      of space and `*` change, and the result is still one token. */
  lemma FirstFixupsOnByte(b: Byte)
    ensures var t := Replace(Replace(FormUrlencoded.SerializeByte(b), [PLUS], PCT_20), [STAR], PCT_2A);
      Token(t) && Replace(t, PCT_7E, [TILDE]) == EncodeByte(b)
  {
    var f := FormUrlencoded.SerializeByte(b);
    var t1 := Replace(f, [PLUS], PCT_20);
    var t := Replace(t1, [STAR], PCT_2A);
    if b == SPACE {
      assert f == [PLUS] && f[..1] == [PLUS] && f[1..] == [];
      assert t1 == PCT_20 + Replace([], [PLUS], PCT_20);
      ReplaceAbsent(t1, [STAR], PCT_2A);
      assert t == [PERCENT, 0x32, 0x30];
      assert Replace(t, PCT_7E, [TILDE]) == [PERCENT] + Replace(t[1..], PCT_7E, [TILDE]);
      ReplaceAbsent(t[1..], PCT_7E, [TILDE]);
    } else if b == STAR {
      assert f == [STAR];
      ReplaceAbsent(f, [PLUS], PCT_20);
      assert t == PCT_2A + Replace([], [STAR], PCT_2A);
      assert t == [PERCENT, 0x32, 0x41];
      assert Replace(t, PCT_7E, [TILDE]) == [PERCENT] + Replace(t[1..], PCT_7E, [TILDE]);
      ReplaceAbsent(t[1..], PCT_7E, [TILDE]);
    } else if FormUrlencoded.ByteSerializedUnchanged(b) {
      assert f == [b];
      ReplaceAbsent(f, [PLUS], PCT_20);
      ReplaceAbsent(f, [STAR], PCT_2A);
      ReplaceAbsent(f, PCT_7E, [TILDE]);
    } else {
      assert f == [PERCENT, HexDigit(b / 16), HexDigit(b % 16)];
      ReplaceAbsent(f, [PLUS], PCT_20);
      ReplaceAbsent(f, [STAR], PCT_2A);
      assert t == f;
      if b == TILDE {
        assert f == PCT_7E;
        assert Replace(t, PCT_7E, [TILDE]) == [TILDE] + Replace([], PCT_7E, [TILDE]);
      } else {
        assert f != PCT_7E;
        assert Replace(t, PCT_7E, [TILDE]) == [PERCENT] + Replace(t[1..], PCT_7E, [TILDE]);
        ReplaceAbsent(t[1..], PCT_7E, [TILDE]);
      }
    }
  }

  /** The replacements act on the serialization of one byte independently of
      what follows it. */
  lemma FixupsSplit(b: Byte, rest: Bytes)
    ensures ProviderFixups(FormUrlencoded.SerializeByte(b) + rest)
         == EncodeByte(b) + ProviderFixups(rest)
  {
    var f := FormUrlencoded.SerializeByte(b);
    ReplaceByteConcat(f, rest, [PLUS], PCT_20);
    var t1 := Replace(f, [PLUS], PCT_20);
    var r1 := Replace(rest, [PLUS], PCT_20);
    ReplaceByteConcat(t1, r1, [STAR], PCT_2A);
    var t := Replace(t1, [STAR], PCT_2A);
    var r2 := Replace(r1, [STAR], PCT_2A);
    FirstFixupsOnByte(b);
    ReplaceTokenConcat(t, r2, PCT_7E, [TILDE]);
  }

  /** The form serializer followed by the three replacements is exactly the
      RFC 3986 per-byte encoding. */
  lemma {:induction false} FixupsOfSerializationIsRfc3986(s: Bytes)
    ensures ProviderFixups(FormUrlencoded.ByteSerialize(s)) == Rfc3986Encode(s)
  {
    if |s| == 0 {
      assert ProviderFixups([]) == [];
    } else {
      FixupsSplit(s[0], FormUrlencoded.ByteSerialize(s[1..]));
      FixupsOfSerializationIsRfc3986(s[1..]);
    }
  }

  // ---------------------------------------------------------------------------
  // Consequences of the per-byte characterisation

  lemma {:induction false} Rfc3986EncodeConcat(a: Bytes, b: Bytes)
    ensures Rfc3986Encode(a + b) == Rfc3986Encode(a) + Rfc3986Encode(b)
  {
    if |a| == 0 {
      assert a + b == b;
    } else {
      assert (a + b)[1..] == a[1..] + b;
      Rfc3986EncodeConcat(a[1..], b);
    }
  }

  /** Each byte is encoded independently of its neighbours. */
  lemma SpecialUrlEncodeConcat(a: Bytes, b: Bytes)
    ensures SpecialUrlEncode(a + b) == SpecialUrlEncode(a) + SpecialUrlEncode(b)
  {
    Rfc3986EncodeConcat(a, b);
  }

  /** One byte: an unreserved byte is copied, any other byte becomes `%` and two
      upper-case hexadecimal digits that spell its value. */
  lemma SpecialUrlEncodeByte(b: Byte)
    ensures Unreserved(b) ==> SpecialUrlEncode([b]) == [b]
    ensures !Unreserved(b) ==>
      var r := SpecialUrlEncode([b]);
      |r| == 3 && r[0] == PERCENT &&
      (0x30 <= r[1] <= 0x39 || 0x41 <= r[1] <= 0x46) &&
      (0x30 <= r[2] <= 0x39 || 0x41 <= r[2] <= 0x46) &&
      HexValue(r[1]).Some? && HexValue(r[2]).Some? &&
      HexValue(r[1]).value * 16 + HexValue(r[2]).value == b
  {
    SpecialUrlEncodeSingle(b);
  }

  lemma SpecialUrlEncodeSingle(b: Byte)
    ensures SpecialUrlEncode([b]) == EncodeByte(b)
  {
    assert [b][1..] == [];
    assert Rfc3986Encode([b]) == EncodeByte(b) + Rfc3986Encode([]);
  }

  /** What differs from the plain form serializer: space, `*` and `~` come out as
      `%20`, `%2A` and `~`, while a literal `+` or `%` is still escaped. */
  lemma ProviderDeviations(b: Byte)
    ensures b == SPACE ==> SpecialUrlEncode([b]) == PCT_20
    ensures b == STAR ==> SpecialUrlEncode([b]) == PCT_2A
    ensures b == TILDE ==> SpecialUrlEncode([b]) == [TILDE]
    ensures b == PLUS ==> SpecialUrlEncode([b]) == [PERCENT, 0x32, 0x42]     // "%2B"
    ensures b == PERCENT ==> SpecialUrlEncode([b]) == [PERCENT, 0x32, 0x35]  // "%25"
  {
    SpecialUrlEncodeSingle(b);
  }

  /** The number of bytes of `s` outside the unreserved set. */
  function ReservedCount(s: Bytes): (n: nat)
    ensures n <= |s|
  {
    if |s| == 0 then 0 else (if Unreserved(s[0]) then 0 else 1) + ReservedCount(s[1..])
  }

  lemma {:induction false} Rfc3986EncodeLength(s: Bytes)
    ensures |Rfc3986Encode(s)| == |s| + 2 * ReservedCount(s)
  {
    if |s| > 0 {
      Rfc3986EncodeLength(s[1..]);
    }
  }

  /** Every byte outside the unreserved set grows by two. */
  lemma SpecialUrlEncodeLength(s: Bytes)
    ensures |SpecialUrlEncode(s)| == |s| + 2 * ReservedCount(s)
  {
    Rfc3986EncodeLength(s);
  }

  lemma {:induction false} Rfc3986EncodeAlphabet(s: Bytes)
    ensures forall c :: c in Rfc3986Encode(s) ==> Unreserved(c) || c == PERCENT
  {
    if |s| > 0 {
      Rfc3986EncodeAlphabet(s[1..]);
    }
  }

  /** The output holds only unreserved bytes and `%`, so never `&`, `=`, `+` or
      `*`: the separators of a query stay unambiguous. */
  lemma SpecialUrlEncodeAlphabet(s: Bytes)
    ensures forall c :: c in SpecialUrlEncode(s) ==> Unreserved(c) || c == PERCENT
    ensures AMPERSAND !in SpecialUrlEncode(s) && EQUALS !in SpecialUrlEncode(s)
    ensures PLUS !in SpecialUrlEncode(s) && STAR !in SpecialUrlEncode(s)
  {
    Rfc3986EncodeAlphabet(s);
  }

  /** Percent-decoding as in section 2.1 of RFC 3986: `%` and two hexadecimal
      digits stand for one byte, every other byte for itself; a `%` without two
      digits after it is an error. */
  function PercentDecode(s: Bytes): Option<Bytes>
    decreases |s|
  {
    if |s| == 0 then Some([])
    else if s[0] != PERCENT then
      match PercentDecode(s[1..])
      case None => None
      case Some(rest) => Some([s[0]] + rest)
    else if |s| < 3 then None
    else match (HexValue(s[1]), HexValue(s[2]))
      case (Some(hi), Some(lo)) =>
        (match PercentDecode(s[3..])
         case None => None
         case Some(rest) => Some([hi * 16 + lo] + rest))
      case _ => None
  }

  lemma {:induction false} DecodeRfc3986Encode(s: Bytes)
    ensures PercentDecode(Rfc3986Encode(s)) == Some(s)
  {
    if |s| > 0 {
      var b, e, r := s[0], EncodeByte(s[0]), Rfc3986Encode(s[1..]);
      DecodeRfc3986Encode(s[1..]);
      if Unreserved(b) {
        assert (e + r)[1..] == r;
      } else {
        assert (e + r)[3..] == r;
        assert b / 16 * 16 + b % 16 == b;
      }
      assert [b] + s[1..] == s;
    }
  }

  /** Decoding the encoder's output gives the input back. */
  lemma DecodeSpecialUrlEncode(s: Bytes)
    ensures PercentDecode(SpecialUrlEncode(s)) == Some(s)
  {
    DecodeRfc3986Encode(s);
  }

  /** Different inputs have different encodings. */
  lemma SpecialUrlEncodeInjective(a: Bytes, b: Bytes)
    requires SpecialUrlEncode(a) == SpecialUrlEncode(b)
    ensures a == b
  {
    DecodeSpecialUrlEncode(a);
    DecodeSpecialUrlEncode(b);
  }

  predicate AllUnreserved(s: Bytes) {
    forall i :: 0 <= i < |s| ==> Unreserved(s[i])
  }

  lemma {:induction false} Rfc3986EncodeUnreserved(s: Bytes)
    requires AllUnreserved(s)
    ensures Rfc3986Encode(s) == s
  {
    if |s| > 0 {
      Rfc3986EncodeUnreserved(s[1..]);
      assert [s[0]] + s[1..] == s;
    }
  }

  /** A string of unreserved bytes, such as every fixed parameter name, encodes
      to itself. */
  lemma SpecialUrlEncodeUnreserved(s: Bytes)
    requires AllUnreserved(s)
    ensures SpecialUrlEncode(s) == s
  {
    Rfc3986EncodeUnreserved(s);
  }

  predicate IsLetters(s: string) {
    forall i :: 0 <= i < |s| ==> 'A' <= s[i] <= 'Z' || 'a' <= s[i] <= 'z'
  }

  /** A name made of ASCII letters, as every fixed parameter name is, encodes to
      its own bytes. */
  lemma SpecialUrlEncodeLetters(s: string)
    requires IsLetters(s)
    ensures IsAscii(s) && SpecialUrlEncode(Ascii(s)) == Ascii(s)
  {
    assert AllUnreserved(Ascii(s));
    SpecialUrlEncodeUnreserved(Ascii(s));
  }
}

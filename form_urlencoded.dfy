/** The `form_urlencoded` crate's serializer, which `special_url_encode` starts
    from. It implements the application/x-www-form-urlencoded byte serializer of
    section 5.2 of the WHATWG URL Standard. */
module FormUrlencoded {
  import opened Bytes
  import opened Strings

  /** The bytes the serializer copies unchanged: `*`, `-`, `.`, digits, upper-case
      letters, `_` and lower-case letters. */
  predicate ByteSerializedUnchanged(b: Byte) {
    b == 0x2A || b == 0x2D || b == 0x2E || 0x30 <= b <= 0x39 ||
    0x41 <= b <= 0x5A || b == 0x5F || 0x61 <= b <= 0x7A
  }

  /** `%` and the byte's value in two upper-case hexadecimal digits. */
  function PercentEncodeByte(b: Byte): Bytes {
    [PERCENT, HexDigit(b / 16), HexDigit(b % 16)]
  }

  /** What the serializer writes for one byte. */
  function SerializeByte(b: Byte): Bytes {
    if ByteSerializedUnchanged(b) then [b]
    else if b == SPACE then [PLUS]
    else PercentEncodeByte(b)
  }

  /** `byte_serialize`: every byte is serialized on its own and the pieces are
      concatenated. */
  function ByteSerialize(input: Bytes): (output: Bytes)
    ensures |input| <= |output| <= 3 * |input|
    ensures forall b :: b in output ==> ByteSerializedUnchanged(b) || b == PLUS || b == PERCENT
  {
    if |input| == 0 then [] else SerializeByte(input[0]) + ByteSerialize(input[1..])
  }

  /** `Serializer::append_key_only` on a target whose serialization started at
      `startPosition`: an `&` before the name unless the serialization is still
      empty, then the serialized name. `finish` hands back the target. */
  function AppendKeyOnly(target: Bytes, startPosition: nat, name: Bytes): (serialization: Bytes)
    ensures target == [] ==> serialization == ByteSerialize(name)
    ensures |target| <= |serialization| && serialization[..|target|] == target
    ensures Count(serialization, AMPERSAND) ==
      Count(target, AMPERSAND) + (if |target| > startPosition then 1 else 0)
  {
    var sep: Bytes := if |target| > startPosition then [AMPERSAND] else [];
    CountConcat(target + sep, ByteSerialize(name), AMPERSAND);
    CountConcat(target, sep, AMPERSAND);
    target + sep + ByteSerialize(name)
  }
}

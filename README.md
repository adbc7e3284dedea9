# Aliyun SMS request signing, modelled in Dafny

This project models how the Rust crate's Aliyun SMS client (`src/aliyun.rs`)
builds a signed `SendSms` request:

- `special_url_encode` is the `form_urlencoded` serializer followed by the
  replacements `+` → `%20`, `*` → `%2A` and `%7E` → `~`.
- `get_param_str` turns a name and a value into `name=value`, both encoded.
- `send_sms` works up to the HTTP call:
  - it pushes thirteen pairs and sorts them;
  - it joins them with `&` into the canonical query string;
  - it derives the string-to-sign `GET&%2F&<encoded query>` and signs it with
    HMAC-SHA1 under the key `secret&`, then base64-encodes the result;
  - it pushes the `Signature` pair and forms the URL on
    `https://dysmsapi.aliyuncs.com/?`.

Text is modelled as the UTF-8 bytes of the Rust strings (`Bytes.Bytes`).

Modules:

- `Bytes`: octets, `Option`, ASCII literals and hexadecimal digits.
- `Strings`: `str::replace`, `join`, splitting, and the byte order of `String`
  with sortedness.
- `FormUrlencoded`: the byte serializer of the `form_urlencoded` crate, as in
  section 5.2 of the WHATWG URL Standard.
- `PercentEncoding`: `special_url_encode`, and its proof that it equals per-byte
  RFC 3986 encoding.
- `AliyunSms`: `get_param_str`, the request parameters, the vector (a class
  with `Push` and an in-place `Sort`), and `send_sms`.

The main results:

- `special_url_encode` equals the RFC 3986 encoding in which only the
  unreserved characters of section 2.3 stay literal. It is length-predictable,
  never emits `&`, `=`, `+` or `*`, percent-decodes back to its input, and is
  therefore injective.
- Every pair holds exactly one `=` and no `&`, and splits back into its name
  and value.
- The canonical query string splits back into the sorted pairs.
- The four caller-supplied parameters occur exactly once, both in the sorted
  pairs and in the final vector, and no pushed pair is named `Signature`.
- The string-to-sign is the three fields `GET`, `%2F` and the encoded query.
- The URL is the endpoint, then the canonical query, then `&Signature=…`. The
  final vector is no longer sorted: `Signature=` orders before
  `SignatureMethod=`.

## Model

| member | source | states |
|---|---|---|
| PercentEncoding.SpecialUrlEncode | src/aliyun.rs:111-118 | the result is exactly the per-byte RFC 3986 encoding of the input, in which only `A-Z a-z 0-9 - . _ ~` stay literal |
| PercentEncoding.FixupsOfSerializationIsRfc3986 | src/aliyun.rs:112-117 | for every input, the three replacements applied to the form serializer's output give the per-byte RFC 3986 encoding |
| PercentEncoding.ProviderFixups | src/aliyun.rs:115-117 | after the three replacements no `+` and no `*` is left, whatever the text |
| FormUrlencoded.ByteSerialize | src/aliyun.rs:112-114 | the output is at least as long as the input and at most three times as long, and holds only the bytes the serializer keeps, `+` and `%` |
| FormUrlencoded.AppendKeyOnly | src/aliyun.rs:112-114 | on a fresh, empty target the result is the serialized name; otherwise the earlier serialization is kept as a prefix, and exactly one `&` is added when it was not empty, none by the name itself |
| PercentEncoding.SpecialUrlEncodeByte | src/aliyun.rs:111-118 | one byte: an unreserved byte is copied, any other becomes `%` and two upper-case hexadecimal digits of its value |
| PercentEncoding.SpecialUrlEncodeSingle | src/aliyun.rs:111-118 | encoding a one-byte string is the per-byte RFC 3986 encoding of that byte |
| PercentEncoding.SpecialUrlEncodeConcat | src/aliyun.rs:111-118 | the encoding of a concatenation is the concatenation of the encodings: no replacement straddles two bytes' output |
| PercentEncoding.ProviderDeviations | src/aliyun.rs:115-117 | after the replacements, a space byte is `%20`, `*` is `%2A` and `~` is `~`, while a literal `+` or `%` in the input stays `%2B` or `%25` |
| PercentEncoding.FirstFixupsOnByte | src/aliyun.rs:115-117 | on one byte's serialization, the first two replacements leave a single token (one byte, or `%` and two digits), and the third then yields that byte's RFC 3986 encoding |
| PercentEncoding.FixupsSplit | src/aliyun.rs:115-117 | the replacements turn one byte's serialization followed by any text into that byte's RFC 3986 encoding followed by the replaced text |
| PercentEncoding.SpecialUrlEncodeLength | src/aliyun.rs:111-118 | the output length is the input length plus two per byte outside the unreserved set |
| PercentEncoding.SpecialUrlEncodeAlphabet | src/aliyun.rs:111-118 | the output holds only unreserved bytes and `%`, so never `&`, `=`, `+` or `*` |
| PercentEncoding.DecodeSpecialUrlEncode | src/aliyun.rs:111-118 | RFC 3986 percent-decoding of the output gives back the input |
| PercentEncoding.SpecialUrlEncodeInjective | src/aliyun.rs:111-118 | two inputs with the same encoding are equal |
| PercentEncoding.SpecialUrlEncodeUnreserved | src/aliyun.rs:111-118 | a string of unreserved bytes encodes to itself |
| PercentEncoding.SpecialUrlEncodeLetters | src/aliyun.rs:58-76 | every fixed parameter name, made of ASCII letters only, encodes to itself |
| Strings.ReplaceBytes | src/aliyun.rs:115-117 | every byte `replace` writes comes from the text or the replacement, and a one-byte pattern that the replacement lacks no longer occurs |
| Strings.ReplaceAbsent | src/aliyun.rs:115-117 | `replace` leaves unchanged a string that does not contain the pattern's first byte |
| Strings.ReplaceByteConcat | src/aliyun.rs:115-116 | with a one-byte pattern, `replace` distributes over concatenation |
| Strings.ReplaceTokenConcat | src/aliyun.rs:117 | a three-byte pattern starting with `%` is replaced in a token followed by any text as in each part separately |
| AliyunSms.GetParamStr | src/aliyun.rs:107-109 | a pair holds exactly one `=` and no `&` |
| AliyunSms.GetParamStrSplits | src/aliyun.rs:107-109 | a pair's key is the encoded name, and splitting at the first `=` and decoding gives back the name and the value |
| AliyunSms.EncodeParams | src/aliyun.rs:58-76 | one pair per pushed parameter |
| AliyunSms.EncodeParamsSplit | src/aliyun.rs:57-76 | every pushed pair holds one `=` and no `&`, and splits back into its own name and value |
| AliyunSms.EncodeParamsAt | src/aliyun.rs:57-76 | the `i`-th pushed pair is `get_param_str` of the `i`-th parameter |
| AliyunSms.RequestParams | src/aliyun.rs:58-76 | `send_sms` pushes thirteen parameters |
| AliyunSms.EncodeThirteen | src/aliyun.rs:58-76 | thirteen pushes on an empty vector leave exactly the thirteen pairs, in push order |
| AliyunSms.RequestNamesDistinct | src/aliyun.rs:58-76 | the thirteen parameter names are pairwise distinct and none is `Signature` |
| AliyunSms.PairKeyedByName | src/aliyun.rs:73-78 | with distinct names, in any arrangement of the pairs the only pair carrying a parameter's encoded name is that parameter's pair |
| AliyunSms.PairOnce | src/aliyun.rs:73-78 | with distinct names, each parameter's pair occurs exactly once in any arrangement of the pairs |
| AliyunSms.NameAbsent | src/aliyun.rs:78 | a name that no parameter has keys no pair of any arrangement |
| AliyunSms.BusinessParametersOnce | src/aliyun.rs:73-78 | after sorting, `SignName`, `TemplateCode`, `TemplateParam` and `PhoneNumbers` each have exactly one pair, the one built from the caller's value; no pair is named `Signature` |
| AliyunSms.QuerySplits | src/aliyun.rs:80 | the pairs, in any order, joined with `&` split back at `&` into the same list |
| AliyunSms.StringVec.constructor | src/aliyun.rs:57 | `Vec::new()` starts empty |
| AliyunSms.StringVec.Push | src/aliyun.rs:58-76 | `push` appends one pair at the end and changes nothing else |
| AliyunSms.StringVec.Sort | src/aliyun.rs:78 | `sort` leaves the same pairs (as a multiset) in ascending byte order |
| Strings.SortedPermutationUnique | src/aliyun.rs:78 | two sorted arrangements of the same pairs are equal, so the sort's result does not depend on the algorithm |
| Strings.LexLeTotal | src/aliyun.rs:78 | the byte order of `String` is total |
| Strings.LexLeTransitive | src/aliyun.rs:78 | the byte order of `String` is transitive |
| Strings.LexLeAntisymmetric | src/aliyun.rs:78 | the byte order of `String` is antisymmetric |
| Strings.Join | src/aliyun.rs:80 | parts without `&`, joined with `&`, hold one `&` fewer than there are parts |
| Strings.SplitOnJoin | src/aliyun.rs:80 | parts without `&`, joined with `&`, split back into the same parts |
| Strings.JoinAppend | src/aliyun.rs:94-96 | joining after one more push appends `&` and the new part |
| AliyunSms.PushRequestParameters | src/aliyun.rs:57-76 | the thirteen pushes leave the vector holding exactly the request's pairs, in push order |
| AliyunSms.StringToSignFields | src/aliyun.rs:82 | the string-to-sign is the `&`-join of `GET`, the encoded `/` (which is `%2F`) and the encoded query; it splits back into those three fields, and the last decodes to the query |
| AliyunSms.SignaturePairBeforeMethodPair | src/aliyun.rs:94 | whatever the values, a `Signature` pair orders strictly before a `SignatureMethod` pair |
| AliyunSms.FinalBusinessParametersOnce | src/aliyun.rs:94-96 | after the `Signature` pair is pushed, `SignName`, `TemplateCode`, `TemplateParam` and `PhoneNumbers` still each have exactly one pair, the one built from the caller's value |
| AliyunSms.FinalParametersUnsorted | src/aliyun.rs:94-96 | once the `Signature` pair is pushed after the sort, the vector is no longer sorted |
| AliyunSms.SendSms | src/aliyun.rs:57-96 | the first thirteen pairs are the request's pairs, sorted; the query string is their `&`-join and splits back into them; the string-to-sign is `GET&%2F&` plus the encoded query; the signature is the keyed MAC under `secret&` of the string-to-sign; the last pair is `Signature=`…; the URL is the endpoint, the query, `&` and the signature pair; in the final vector each of the four caller-supplied parameters has exactly one pair; the final vector is not sorted |

## Left out

- The HMAC-SHA1 computation and the base64 encoding (src/aliyun.rs:85-91) are
  not modelled. They appear as the function parameter `hmacSha1Base64`, applied
  to the key `secret&` and to the string-to-sign.
- The random UUID nonce (line 63) and the clock-based UTC timestamp (line 67)
  are not modelled. They are inputs to `SendSms`; their formatting is not
  modelled.
- The HTTP request and the JSON response (lines 98-103) are not modelled: they
  are network I/O. `SendSms` returns the URL it would fetch.
- `async`, lifetimes and the `Result` error path of the network call are not
  modelled. Nothing before line 98 can fail.
- `Aliyun::new` (lines 28-33) only stores its two arguments. It is the
  `AliyunSms.Aliyun` datatype constructor.
- `AliyunSms.StringVec.Sort` is an insertion sort, whereas Rust's `sort` is a
  stable merge sort. Both yield the unique sorted arrangement
  (`Strings.SortedPermutationUnique`), so the result is the same.
- `StringVec` holds its strings in a sequence field, not in a growable buffer.
  Capacity and reallocation are not modelled.
- The `form_urlencoded` crate and `str::replace` are not part of this model as
  source. They are modelled from their documented behaviour:
  - the serializer keeps `* - . 0-9 A-Z _ a-z`, writes space as `+`, and
    writes every other byte as `%XX`;
  - `replace` replaces leftmost non-overlapping matches.
- Strings are modelled as UTF-8 bytes. Characters outside ASCII are therefore
  encoded byte by byte, as the serializer does.
- AliyunSms.PushRequestParameters: the thirteen pushes of `send_sms` form a
  separate method called from `SendSms`. The behaviour is the same.
- The live test `tests/aliyun.rs` sends a real SMS. It is not part of this
  model.

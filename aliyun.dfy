/** The request side of the Aliyun SMS client (`src/aliyun.rs`): each parameter is
    encoded as a pair, the pairs are sorted and joined into the canonical query
    string, the string-to-sign is derived from it, and the signature pair and the
    endpoint complete the URL. The nonce, the timestamp and HMAC-SHA1 with base64
    come in as parameters; sending the request is not modelled. */
module AliyunSms {
  import opened Bytes
  import opened Strings
  import opened PercentEncoding

  /** `Aliyun::new(access_key_id, access_secret)`: the key id is sent with every
      request, the secret only keys the signature. */
  datatype Aliyun = Aliyun(accessKeyId: Bytes, accessSecret: Bytes)

  /** `get_param_str(key, value)`: `encode(key)=encode(value)`. The pair holds
      exactly one `=` and no `&`, so it can be told apart inside a query. */
  function GetParamStr(key: Bytes, value: Bytes): (pair: Bytes)
    ensures Count(pair, EQUALS) == 1
    ensures AMPERSAND !in pair
  {
    var k, v := SpecialUrlEncode(key), SpecialUrlEncode(value);
    SpecialUrlEncodeAlphabet(key);
    SpecialUrlEncodeAlphabet(value);
    CountConcat(k + [EQUALS], v, EQUALS);
    CountConcat(k, [EQUALS], EQUALS);
    k + [EQUALS] + v
  }

  /** How a pair is read back: split at the first `=` and decode both sides. */
  function SplitParam(pair: Bytes): Option<(Bytes, Bytes)> {
    match SplitFirst(pair, EQUALS)
    case None => None
    case Some((k, v)) =>
      match (PercentDecode(k), PercentDecode(v))
      case (Some(key), Some(value)) => Some((key, value))
      case _ => None
  }

  /** The encoded key of a pair: what stands before its first `=`. */
  function KeyOf(pair: Bytes): Bytes {
    match SplitFirst(pair, EQUALS)
    case Some((k, _)) => k
    case None => pair
  }

  /** A pair's key is the encoded name, and splitting the pair at its first `=`
      and decoding both sides gives back the name and the value. */
  lemma GetParamStrSplits(key: Bytes, value: Bytes)
    ensures KeyOf(GetParamStr(key, value)) == SpecialUrlEncode(key)
    ensures SplitParam(GetParamStr(key, value)) == Some((key, value))
  {
    var k, v := SpecialUrlEncode(key), SpecialUrlEncode(value);
    SpecialUrlEncodeAlphabet(key);
    SplitFirstAt(k, v, EQUALS);
    DecodeSpecialUrlEncode(key);
    DecodeSpecialUrlEncode(value);
  }

  // ---------------------------------------------------------------------------
  // Lists of parameters

  /** A parameter name and value, as `send_sms` hands them to `get_param_str`. */
  datatype Param = Param(key: Bytes, value: Bytes)

  /** The pairs for `ps`, one `get_param_str` per parameter, pushed in order. */
  function EncodeParams(ps: seq<Param>): (pairs: seq<Bytes>)
    ensures |pairs| == |ps|
  {
    if |ps| == 0 then []
    else EncodeParams(ps[..|ps| - 1]) + [GetParamStr(ps[|ps| - 1].key, ps[|ps| - 1].value)]
  }

  lemma {:induction false} EncodeParamsAt(ps: seq<Param>, i: int)
    requires 0 <= i < |ps|
    ensures EncodeParams(ps)[i] == GetParamStr(ps[i].key, ps[i].value)
  {
    if i < |ps| - 1 {
      EncodeParamsAt(ps[..|ps| - 1], i);
    }
  }

  /** `pair` holds one `=` and no `&`, is keyed by the encoded name of `p`, and
      splits back into the name and value of `p`. */
  predicate PairOf(pair: Bytes, p: Param) {
    && Count(pair, EQUALS) == 1
    && AMPERSAND !in pair
    && KeyOf(pair) == SpecialUrlEncode(p.key)
    && SplitParam(pair) == Some((p.key, p.value))
  }

  /** Every pair of a parameter list holds one `=` and no `&`, is keyed by its
      encoded name, and splits back into its name and value. */
  lemma EncodeParamsSplit(ps: seq<Param>)
    ensures forall i :: 0 <= i < |ps| ==> PairOf(EncodeParams(ps)[i], ps[i])
  {
    forall i | 0 <= i < |ps| ensures PairOf(EncodeParams(ps)[i], ps[i]) {
      EncodeParamsAt(ps, i);
      GetParamStrSplits(ps[i].key, ps[i].value);
    }
  }

  /** The pair of parameter `i` carries that parameter's encoded name. */
  lemma EncodeParamsKey(ps: seq<Param>, i: int)
    requires 0 <= i < |ps|
    ensures KeyOf(EncodeParams(ps)[i]) == SpecialUrlEncode(ps[i].key)
  {
    EncodeParamsAt(ps, i);
    GetParamStrSplits(ps[i].key, ps[i].value);
  }

  /** Whatever order the pairs are put in, joining them with `&` and splitting
      the result at `&` gives them back. */
  lemma QuerySplits(sorted: seq<Bytes>, ps: seq<Param>)
    requires |ps| > 0
    requires multiset(sorted) == multiset(EncodeParams(ps))
    ensures SplitOn(Join(sorted, AMPERSAND), AMPERSAND) == sorted
  {
    assert |sorted| == |multiset(sorted)| == |multiset(EncodeParams(ps))| == |ps|;
    forall i | 0 <= i < |sorted|
      ensures AMPERSAND !in sorted[i]
    {
      var k := IndexOfMember(sorted, EncodeParams(ps), sorted[i]);
      EncodeParamsAt(ps, k);
    }
    SplitOnJoin(sorted, AMPERSAND);
  }

  /** Each element of a rearrangement sits at some index of the original list. */
  lemma IndexOfMember(sorted: seq<Bytes>, pairs: seq<Bytes>, p: Bytes) returns (k: int)
    requires multiset(sorted) == multiset(pairs) && p in sorted
    ensures 0 <= k < |pairs| && pairs[k] == p
  {
    assert p in multiset(pairs);
    k :| 0 <= k < |pairs| && pairs[k] == p;
  }

  /** A value that occurs at only one index occurs once in the multiset. */
  lemma {:induction false} MultisetSingle(s: seq<Bytes>, j: int)
    requires 0 <= j < |s|
    requires forall i :: 0 <= i < |s| && i != j ==> s[i] != s[j]
    ensures multiset(s)[s[j]] == 1
  {
    var x := s[j];
    var t := s[..|s| - 1];
    assert s == t + [s[|s| - 1]];
    if j == |s| - 1 {
      assert x !in t by {
        forall i | 0 <= i < |t| ensures t[i] != x {
          assert t[i] == s[i];
        }
      }
    } else {
      forall i | 0 <= i < |t| && i != j ensures t[i] != t[j] {
        assert t[i] == s[i] && t[j] == s[j];
      }
      MultisetSingle(t, j);
      assert t[j] == x;
    }
  }

  /** When the names of a parameter list are pairwise distinct, the pair that
      carries the encoded name of parameter `j`, in any arrangement of the pairs,
      is that parameter's pair. */
  lemma PairKeyedByName(sorted: seq<Bytes>, ps: seq<Param>, j: int)
    requires 0 <= j < |ps|
    requires forall i :: 0 <= i < |ps| && i != j ==> ps[i].key != ps[j].key
    requires multiset(sorted) == multiset(EncodeParams(ps))
    ensures forall p :: p in sorted && KeyOf(p) == SpecialUrlEncode(ps[j].key) ==> p == EncodeParams(ps)[j]
  {
    var pairs := EncodeParams(ps);
    forall p | p in sorted && KeyOf(p) == SpecialUrlEncode(ps[j].key)
      ensures p == pairs[j]
    {
      assert p in multiset(pairs);
      var k :| 0 <= k < |pairs| && pairs[k] == p;
      EncodeParamsKey(ps, k);
      SpecialUrlEncodeInjective(ps[k].key, ps[j].key);
    }
  }

  /** ... and that pair occurs exactly once. */
  lemma PairOnce(sorted: seq<Bytes>, ps: seq<Param>, j: int)
    requires 0 <= j < |ps|
    requires forall i :: 0 <= i < |ps| && i != j ==> ps[i].key != ps[j].key
    requires multiset(sorted) == multiset(EncodeParams(ps))
    ensures multiset(sorted)[EncodeParams(ps)[j]] == 1
  {
    var pairs := EncodeParams(ps);
    EncodeParamsSplit(ps);
    forall i | 0 <= i < |pairs| && i != j ensures pairs[i] != pairs[j] {
      if pairs[i] == pairs[j] {
        SpecialUrlEncodeInjective(ps[i].key, ps[j].key);
      }
    }
    MultisetSingle(pairs, j);
  }

  /** A name that no parameter of the list has keys no pair. */
  lemma NameAbsent(sorted: seq<Bytes>, ps: seq<Param>, name: Bytes)
    requires forall i :: 0 <= i < |ps| ==> ps[i].key != name
    requires multiset(sorted) == multiset(EncodeParams(ps))
    ensures forall p :: p in sorted ==> KeyOf(p) != SpecialUrlEncode(name)
  {
    forall p | p in sorted
      ensures KeyOf(p) != SpecialUrlEncode(name)
    {
      var k := IndexOfMember(sorted, EncodeParams(ps), p);
      PairNotKeyedBy(ps, k, name);
    }
  }

  /** The pair of a parameter is not keyed by any other name. */
  lemma PairNotKeyedBy(ps: seq<Param>, k: int, name: Bytes)
    requires 0 <= k < |ps| && ps[k].key != name
    ensures KeyOf(EncodeParams(ps)[k]) != SpecialUrlEncode(name)
  {
    EncodeParamsKey(ps, k);
    if KeyOf(EncodeParams(ps)[k]) == SpecialUrlEncode(name) {
      SpecialUrlEncodeInjective(ps[k].key, name);
    }
  }

  // ---------------------------------------------------------------------------
  // The parameters of one request

  const ACCESS_KEY_ID: Bytes := Ascii("AccessKeyId")
  const SIGNATURE_VERSION: Bytes := Ascii("SignatureVersion")
  const SIGNATURE_METHOD: Bytes := Ascii("SignatureMethod")
  const SIGNATURE_NONCE: Bytes := Ascii("SignatureNonce")
  const TIMESTAMP: Bytes := Ascii("Timestamp")
  const FORMAT: Bytes := Ascii("Format")
  const ACTION: Bytes := Ascii("Action")
  const VERSION: Bytes := Ascii("Version")
  const REGION_ID: Bytes := Ascii("RegionId")
  const SIGN_NAME: Bytes := Ascii("SignName")
  const TEMPLATE_CODE: Bytes := Ascii("TemplateCode")
  const TEMPLATE_PARAM: Bytes := Ascii("TemplateParam")
  const PHONE_NUMBERS: Bytes := Ascii("PhoneNumbers")
  const SIGNATURE: Bytes := Ascii("Signature")

  // The fixed values of the protocol parameters.
  const SIGNATURE_VERSION_1_0: Bytes := Ascii("1.0")
  const HMAC_SHA1: Bytes := Ascii("HMAC-SHA1")
  const JSON: Bytes := Ascii("json")
  const SEND_SMS: Bytes := Ascii("SendSms")
  const API_VERSION: Bytes := Ascii("2017-05-25")
  const CN_HANGZHOU: Bytes := Ascii("cn-hangzhou")

  /** The thirteen parameters `send_sms` pushes, in push order; the nonce and the
      formatted UTC timestamp are supplied by the caller. */
  function RequestParams(client: Aliyun, phoneNum: Bytes, signName: Bytes, templateCode: Bytes,
                         templateParam: Bytes, nonce: Bytes, timestamp: Bytes): (ps: seq<Param>)
    ensures |ps| == 13
  {
    [Param(ACCESS_KEY_ID, client.accessKeyId),
     Param(SIGNATURE_VERSION, SIGNATURE_VERSION_1_0),
     Param(SIGNATURE_METHOD, HMAC_SHA1),
     Param(SIGNATURE_NONCE, nonce),
     Param(TIMESTAMP, timestamp),
     Param(FORMAT, JSON),
     Param(ACTION, SEND_SMS),
     Param(VERSION, API_VERSION),
     Param(REGION_ID, CN_HANGZHOU),
     Param(SIGN_NAME, signName),
     Param(TEMPLATE_CODE, templateCode),
     Param(TEMPLATE_PARAM, templateParam),
     Param(PHONE_NUMBERS, phoneNum)]
  }

  /** The pairs pushed before sorting. */
  function RequestPairs(client: Aliyun, phoneNum: Bytes, signName: Bytes, templateCode: Bytes,
                        templateParam: Bytes, nonce: Bytes, timestamp: Bytes): seq<Bytes>
  {
    EncodeParams(RequestParams(client, phoneNum, signName, templateCode, templateParam, nonce, timestamp))
  }

  /** The thirteen names are pairwise distinct and none of them is `Signature`. */
  lemma RequestNamesDistinct(client: Aliyun, phoneNum: Bytes, signName: Bytes, templateCode: Bytes,
                             templateParam: Bytes, nonce: Bytes, timestamp: Bytes)
    ensures var ps := RequestParams(client, phoneNum, signName, templateCode, templateParam, nonce, timestamp);
      && (forall i, j :: 0 <= i < j < |ps| ==> ps[i].key != ps[j].key)
      && (forall i :: 0 <= i < |ps| ==> ps[i].key != SIGNATURE)
  {
    var ps := RequestParams(client, phoneNum, signName, templateCode, templateParam, nonce, timestamp);
    // Length and first letter already tell the fourteen names apart.
    forall i, j | 0 <= i < j < |ps| ensures ps[i].key != ps[j].key {
      assert |ps[i].key| != |ps[j].key| || ps[i].key[0] != ps[j].key[0];
    }
    forall i | 0 <= i < |ps| ensures ps[i].key != SIGNATURE {
      assert |ps[i].key| != |SIGNATURE| || ps[i].key[0] != SIGNATURE[0];
    }
  }

  /** A list of thirteen elements is its elements appended one by one. A solver
      hint, stated on a generic list so that the pairs need not be unfolded. */
  lemma ThirteenAppends<T>(s: seq<T>)
    requires |s| == 13
    ensures s == [] + [s[0]] + [s[1]] + [s[2]] + [s[3]] + [s[4]] + [s[5]] + [s[6]]
                  + [s[7]] + [s[8]] + [s[9]] + [s[10]] + [s[11]] + [s[12]]
  {
  }

  /** The pushes spelled out: thirteen `push` calls leave exactly these pairs. */
  lemma EncodeThirteen(ps: seq<Param>)
    requires |ps| == 13
    ensures EncodeParams(ps)
         == [] + [GetParamStr(ps[0].key, ps[0].value)] + [GetParamStr(ps[1].key, ps[1].value)]
               + [GetParamStr(ps[2].key, ps[2].value)] + [GetParamStr(ps[3].key, ps[3].value)]
               + [GetParamStr(ps[4].key, ps[4].value)] + [GetParamStr(ps[5].key, ps[5].value)]
               + [GetParamStr(ps[6].key, ps[6].value)] + [GetParamStr(ps[7].key, ps[7].value)]
               + [GetParamStr(ps[8].key, ps[8].value)] + [GetParamStr(ps[9].key, ps[9].value)]
               + [GetParamStr(ps[10].key, ps[10].value)] + [GetParamStr(ps[11].key, ps[11].value)]
               + [GetParamStr(ps[12].key, ps[12].value)]
  {
    ThirteenAppends(EncodeParams(ps));
    EncodeParamsAt(ps, 0);
    EncodeParamsAt(ps, 1);
    EncodeParamsAt(ps, 2);
    EncodeParamsAt(ps, 3);
    EncodeParamsAt(ps, 4);
    EncodeParamsAt(ps, 5);
    EncodeParamsAt(ps, 6);
    EncodeParamsAt(ps, 7);
    EncodeParamsAt(ps, 8);
    EncodeParamsAt(ps, 9);
    EncodeParamsAt(ps, 10);
    EncodeParamsAt(ps, 11);
    EncodeParamsAt(ps, 12);
  }

  /** In any arrangement of the request's pairs, each of the four caller-supplied
      parameters has exactly one pair, and it is the only pair carrying that
      name; no pair carries the name `Signature`. */
  lemma BusinessParametersOnce(sorted: seq<Bytes>, client: Aliyun, phoneNum: Bytes, signName: Bytes,
                               templateCode: Bytes, templateParam: Bytes, nonce: Bytes, timestamp: Bytes)
    requires multiset(sorted)
          == multiset(RequestPairs(client, phoneNum, signName, templateCode, templateParam, nonce, timestamp))
    ensures multiset(sorted)[GetParamStr(SIGN_NAME, signName)] == 1
    ensures multiset(sorted)[GetParamStr(TEMPLATE_CODE, templateCode)] == 1
    ensures multiset(sorted)[GetParamStr(TEMPLATE_PARAM, templateParam)] == 1
    ensures multiset(sorted)[GetParamStr(PHONE_NUMBERS, phoneNum)] == 1
    ensures forall p :: p in sorted && KeyOf(p) == SpecialUrlEncode(SIGN_NAME) ==> p == GetParamStr(SIGN_NAME, signName)
    ensures forall p :: p in sorted && KeyOf(p) == SpecialUrlEncode(TEMPLATE_CODE) ==>
      p == GetParamStr(TEMPLATE_CODE, templateCode)
    ensures forall p :: p in sorted && KeyOf(p) == SpecialUrlEncode(TEMPLATE_PARAM) ==>
      p == GetParamStr(TEMPLATE_PARAM, templateParam)
    ensures forall p :: p in sorted && KeyOf(p) == SpecialUrlEncode(PHONE_NUMBERS) ==>
      p == GetParamStr(PHONE_NUMBERS, phoneNum)
    ensures forall p :: p in sorted ==> KeyOf(p) != SpecialUrlEncode(SIGNATURE)
  {
    var ps := RequestParams(client, phoneNum, signName, templateCode, templateParam, nonce, timestamp);
    RequestNamesDistinct(client, phoneNum, signName, templateCode, templateParam, nonce, timestamp);
    PairKeyedByName(sorted, ps, 9);
    PairOnce(sorted, ps, 9);
    EncodeParamsAt(ps, 9);
    PairKeyedByName(sorted, ps, 10);
    PairOnce(sorted, ps, 10);
    EncodeParamsAt(ps, 10);
    PairKeyedByName(sorted, ps, 11);
    PairOnce(sorted, ps, 11);
    EncodeParamsAt(ps, 11);
    PairKeyedByName(sorted, ps, 12);
    PairOnce(sorted, ps, 12);
    EncodeParamsAt(ps, 12);
    NameAbsent(sorted, ps, SIGNATURE);
  }

  // ---------------------------------------------------------------------------
  // The vector of pairs

  /** `Vec<String>` as `send_sms` uses it: pushed to, sorted in place, joined. */
  class StringVec {
    var elems: seq<Bytes>

    /** `Vec::new()` */
    constructor ()
      ensures elems == []
    {
      elems := [];
    }

    /** `push` */
    method Push(x: Bytes)
      modifies this
      ensures elems == old(elems) + [x]
    {
      elems := elems + [x];
    }

    /** `sort`: the same strings in ascending byte order. */
    method Sort()
      modifies this
      ensures Sorted(elems)
      ensures multiset(elems) == multiset(old(elems))
      ensures |elems| == |old(elems)|
    {
      var a := elems;
      var i := 0;
      while i < |a|
        invariant 0 <= i <= |a| == |old(elems)|
        decreases |a| - i
        invariant forall k, l :: 0 <= k < l < i ==> LexLe(a[k], a[l])
        invariant multiset(a) == multiset(old(elems))
      {
        var j := i;
        while j > 0 && !LexLe(a[j - 1], a[j])
          invariant 0 <= j <= i < |a| == |old(elems)|
          invariant forall k, l :: 0 <= k < l <= i && k != j && l != j ==> LexLe(a[k], a[l])
          invariant forall l :: j < l <= i ==> LexLe(a[j], a[l])
          invariant multiset(a) == multiset(old(elems))
        {
          LexLeTotal(a[j - 1], a[j]);
          a := a[j - 1 := a[j]][j := a[j - 1]];
          j := j - 1;
        }
        forall k, l | 0 <= k < l <= i
          ensures LexLe(a[k], a[l])
        {
          if l == j && k < j - 1 {
            LexLeTransitive(a[k], a[j - 1], a[j]);
          }
        }
        i := i + 1;
      }
      elems := a;
    }
  }

  // ---------------------------------------------------------------------------
  // send_sms, up to the network call

  /** The thirteen `push` calls of `send_sms`, on the fresh vector. */
  method PushRequestParameters(vec: StringVec, client: Aliyun, phoneNum: Bytes, signName: Bytes,
                               templateCode: Bytes, templateParam: Bytes, nonce: Bytes, timestamp: Bytes)
    requires vec.elems == []
    modifies vec
    ensures vec.elems == RequestPairs(client, phoneNum, signName, templateCode, templateParam, nonce, timestamp)
  {
    EncodeThirteen(RequestParams(client, phoneNum, signName, templateCode, templateParam, nonce, timestamp));
    vec.Push(GetParamStr(ACCESS_KEY_ID, client.accessKeyId));
    vec.Push(GetParamStr(SIGNATURE_VERSION, SIGNATURE_VERSION_1_0));
    vec.Push(GetParamStr(SIGNATURE_METHOD, HMAC_SHA1));
    vec.Push(GetParamStr(SIGNATURE_NONCE, nonce));
    vec.Push(GetParamStr(TIMESTAMP, timestamp));
    vec.Push(GetParamStr(FORMAT, JSON));
    vec.Push(GetParamStr(ACTION, SEND_SMS));
    vec.Push(GetParamStr(VERSION, API_VERSION));
    vec.Push(GetParamStr(REGION_ID, CN_HANGZHOU));
    vec.Push(GetParamStr(SIGN_NAME, signName));
    vec.Push(GetParamStr(TEMPLATE_CODE, templateCode));
    vec.Push(GetParamStr(TEMPLATE_PARAM, templateParam));
    vec.Push(GetParamStr(PHONE_NUMBERS, phoneNum));
  }

  const STRING_TO_SIGN_PREFIX: Bytes := Ascii("GET&%2F&")
  const ENDPOINT: Bytes := Ascii("https://dysmsapi.aliyuncs.com/?")

  const GET: Bytes := Ascii("GET")
  const SLASH: Bytes := Ascii("/")

  /** The encoded path `/` is `%2F`. */
  lemma SlashEncoded()
    ensures SpecialUrlEncode(SLASH) == Ascii("%2F")
  {
    assert SLASH == [0x2F];
    SpecialUrlEncodeSingle(0x2F);
  }

  /** The fixed prefix is the method, the encoded path and two separators. A
      solver hint: the constants are compared once, here. */
  lemma PrefixFields()
    ensures STRING_TO_SIGN_PREFIX == GET + [AMPERSAND] + Ascii("%2F") + [AMPERSAND]
    ensures AMPERSAND !in GET && AMPERSAND !in Ascii("%2F")
  {
  }

  /** The string-to-sign is three `&`-separated fields: the method `GET`, the
      encoded path `/` (which is `%2F`), and the encoded canonical query string;
      it splits back into those fields, and the last one decodes to the query. */
  lemma StringToSignFields(query: Bytes)
    ensures SpecialUrlEncode(SLASH) == Ascii("%2F")
    ensures STRING_TO_SIGN_PREFIX + SpecialUrlEncode(query)
         == Join([GET, SpecialUrlEncode(SLASH), SpecialUrlEncode(query)], AMPERSAND)
    ensures SplitOn(STRING_TO_SIGN_PREFIX + SpecialUrlEncode(query), AMPERSAND)
         == [GET, SpecialUrlEncode(SLASH), SpecialUrlEncode(query)]
    ensures PercentDecode(SpecialUrlEncode(query)) == Some(query)
  {
    SlashEncoded();
    PrefixFields();
    SpecialUrlEncodeAlphabet(query);
    ThreeFields(GET, SpecialUrlEncode(SLASH), SpecialUrlEncode(query), AMPERSAND);
    DecodeSpecialUrlEncode(query);
  }

  /** The name `Signature` is letters only and encodes to itself. */
  lemma SignatureEncodesToItself()
    ensures SpecialUrlEncode(SIGNATURE) == SIGNATURE
  {
    SpecialUrlEncodeLetters("Signature");
  }

  /** The name `SignatureMethod` is letters only and encodes to itself. */
  lemma SignatureMethodEncodesToItself()
    ensures SpecialUrlEncode(SIGNATURE_METHOD) == SIGNATURE_METHOD
  {
    SpecialUrlEncodeLetters("SignatureMethod");
  }

  const METHOD_SUFFIX: Bytes := Ascii("Method")

  /** `SignatureMethod` is `Signature` followed by `Method`, whose first byte `M`
      is 0x4D. A solver hint: the constants are compared once, here. */
  lemma SignatureMethodName()
    ensures SIGNATURE_METHOD == SIGNATURE + METHOD_SUFFIX && METHOD_SUFFIX[0] == 0x4D
  {
  }

  /** When one name extends another by a suffix that starts above `=`, and both
      encode to themselves, every pair of the shorter name orders before every
      pair of the longer one. */
  lemma PairBeforeLongerNamePair(name: Bytes, longer: Bytes, suffix: Bytes, v: Bytes, w: Bytes)
    requires longer == name + suffix && |suffix| > 0 && suffix[0] > EQUALS
    requires SpecialUrlEncode(name) == name && SpecialUrlEncode(longer) == longer
    ensures LexLe(GetParamStr(name, v), GetParamStr(longer, w))
    ensures !LexLe(GetParamStr(longer, w), GetParamStr(name, v))
  {
    PairShape(name, name, [], v);
    PairShape(longer, name, suffix, w);
    OrderedAfterPrefix(GetParamStr(name, v), GetParamStr(longer, w),
                       name, [] + [EQUALS] + SpecialUrlEncode(v), suffix + [EQUALS] + SpecialUrlEncode(w));
  }

  /** A pair whose name encodes to itself is that name, `=` and the encoded value. */
  lemma PairShape(key: Bytes, name: Bytes, suffix: Bytes, value: Bytes)
    requires key == name + suffix && SpecialUrlEncode(key) == key
    ensures GetParamStr(key, value) == name + (suffix + [EQUALS] + SpecialUrlEncode(value))
  {
    ConcatRegroup(name, suffix, [EQUALS], SpecialUrlEncode(value));
  }

  /** `Signature=` orders before `SignatureMethod=`, since `=` (0x3D) is below
      `M` (0x4D): whatever the signature and the method, the signature pair
      belongs before the `SignatureMethod` pair in byte order. */
  lemma SignaturePairBeforeMethodPair(signature: Bytes, method_: Bytes)
    ensures LexLe(GetParamStr(SIGNATURE, signature), GetParamStr(SIGNATURE_METHOD, method_))
    ensures !LexLe(GetParamStr(SIGNATURE_METHOD, method_), GetParamStr(SIGNATURE, signature))
  {
    SignatureEncodesToItself();
    SignatureMethodEncodesToItself();
    SignatureMethodName();
    PairBeforeLongerNamePair(SIGNATURE, SIGNATURE_METHOD, METHOD_SUFFIX, signature, method_);
  }

  /** Pushed after the sort, the signature pair leaves the final parameter
      vector out of order: the signature is not part of the canonical query. */
  lemma FinalParametersUnsorted(parameters: seq<Bytes>, signature: Bytes, client: Aliyun, phoneNum: Bytes,
                                signName: Bytes, templateCode: Bytes, templateParam: Bytes, nonce: Bytes,
                                timestamp: Bytes)
    requires |parameters| == 14
    requires multiset(parameters[..13])
          == multiset(RequestPairs(client, phoneNum, signName, templateCode, templateParam, nonce, timestamp))
    requires parameters[13] == GetParamStr(SIGNATURE, signature)
    ensures !Sorted(parameters)
  {
    var ps := RequestParams(client, phoneNum, signName, templateCode, templateParam, nonce, timestamp);
    RequestMethodParam(client, phoneNum, signName, templateCode, templateParam, nonce, timestamp);
    UnsortedAfterMethodPair(parameters, ps, 2, signature);
  }

  /** The third parameter pushed is the `SignatureMethod` one. A solver hint,
      kept apart so that the request's parameters are unfolded only here. */
  lemma RequestMethodParam(client: Aliyun, phoneNum: Bytes, signName: Bytes, templateCode: Bytes,
                           templateParam: Bytes, nonce: Bytes, timestamp: Bytes)
    ensures RequestParams(client, phoneNum, signName, templateCode, templateParam, nonce, timestamp)[2].key
         == SIGNATURE_METHOD
  {
  }

  /** A vector whose last pair is a `Signature` pair, and whose earlier pairs
      include a `SignatureMethod` pair, is not sorted. */
  lemma UnsortedAfterMethodPair(parameters: seq<Bytes>, ps: seq<Param>, i: int, signature: Bytes)
    requires 0 <= i < |ps| && ps[i].key == SIGNATURE_METHOD
    requires |parameters| > 0 && multiset(parameters[..|parameters| - 1]) == multiset(EncodeParams(ps))
    requires parameters[|parameters| - 1] == GetParamStr(SIGNATURE, signature)
    ensures !Sorted(parameters)
  {
    var pairs := EncodeParams(ps);
    EncodeParamsAt(ps, i);
    assert pairs[i] in multiset(pairs);
    SignaturePairBeforeMethodPair(signature, ps[i].value);
    UnsortedWhenLastBelow(parameters, pairs[i]);
  }

  /** When the last pair is keyed by a name that no earlier pair carries, a pair
      that occurred once before it still occurs once. */
  lemma OnceAfterAppend(parameters: seq<Bytes>, x: Bytes, key: Bytes)
    requires |parameters| > 0
    requires multiset(parameters[..|parameters| - 1])[x] == 1
    requires forall p :: p in parameters[..|parameters| - 1] ==> KeyOf(p) != key
    requires KeyOf(parameters[|parameters| - 1]) == key
    ensures multiset(parameters)[x] == 1
  {
    var init, last := parameters[..|parameters| - 1], parameters[|parameters| - 1];
    assert parameters == init + [last];
    assert x in multiset(init);
  }

  /** After the `Signature` pair is pushed, each of the four caller-supplied
      parameters still has exactly one pair in the final vector. */
  lemma FinalBusinessParametersOnce(parameters: seq<Bytes>, signature: Bytes, client: Aliyun, phoneNum: Bytes,
                                    signName: Bytes, templateCode: Bytes, templateParam: Bytes, nonce: Bytes,
                                    timestamp: Bytes)
    requires |parameters| == 14
    requires multiset(parameters[..13])
          == multiset(RequestPairs(client, phoneNum, signName, templateCode, templateParam, nonce, timestamp))
    requires parameters[13] == GetParamStr(SIGNATURE, signature)
    ensures multiset(parameters)[GetParamStr(SIGN_NAME, signName)] == 1
    ensures multiset(parameters)[GetParamStr(TEMPLATE_CODE, templateCode)] == 1
    ensures multiset(parameters)[GetParamStr(TEMPLATE_PARAM, templateParam)] == 1
    ensures multiset(parameters)[GetParamStr(PHONE_NUMBERS, phoneNum)] == 1
  {
    BusinessParametersOnce(parameters[..13], client, phoneNum, signName, templateCode, templateParam, nonce,
                           timestamp);
    GetParamStrSplits(SIGNATURE, signature);
    var key := SpecialUrlEncode(SIGNATURE);
    OnceAfterAppend(parameters, GetParamStr(SIGN_NAME, signName), key);
    OnceAfterAppend(parameters, GetParamStr(TEMPLATE_CODE, templateCode), key);
    OnceAfterAppend(parameters, GetParamStr(TEMPLATE_PARAM, templateParam), key);
    OnceAfterAppend(parameters, GetParamStr(PHONE_NUMBERS, phoneNum), key);
  }

  /** `Aliyun::send_sms` without the request itself: returns the final vector of
      pairs, the canonical query string, the string-to-sign, the signature and
      the URL. `hmacSha1Base64(key, message)` stands for
      `base64::encode(hmac::sign(key, message))`. */
  method SendSms(client: Aliyun, phoneNum: Bytes, signName: Bytes, templateCode: Bytes,
                 templateParam: Bytes, nonce: Bytes, timestamp: Bytes,
                 hmacSha1Base64: (Bytes, Bytes) -> Bytes)
    returns (parameters: seq<Bytes>, sortQueryString: Bytes, stringToSign: Bytes,
             signature: Bytes, url: Bytes)
    ensures |parameters| == 14
    ensures Sorted(parameters[..13])
    ensures multiset(parameters[..13])
         == multiset(RequestPairs(client, phoneNum, signName, templateCode, templateParam, nonce, timestamp))
    ensures sortQueryString == Join(parameters[..13], AMPERSAND)
    ensures SplitOn(sortQueryString, AMPERSAND) == parameters[..13]
    ensures stringToSign == STRING_TO_SIGN_PREFIX + SpecialUrlEncode(sortQueryString)
    ensures signature == hmacSha1Base64(client.accessSecret + [AMPERSAND], stringToSign)
    ensures parameters[13] == GetParamStr(SIGNATURE, signature)
    ensures url == ENDPOINT + Join(parameters, AMPERSAND)
    ensures url == ENDPOINT + sortQueryString + [AMPERSAND] + parameters[13]
    ensures !Sorted(parameters)
    ensures multiset(parameters)[GetParamStr(SIGN_NAME, signName)] == 1
    ensures multiset(parameters)[GetParamStr(TEMPLATE_CODE, templateCode)] == 1
    ensures multiset(parameters)[GetParamStr(TEMPLATE_PARAM, templateParam)] == 1
    ensures multiset(parameters)[GetParamStr(PHONE_NUMBERS, phoneNum)] == 1
  {
    var vec := new StringVec();
    PushRequestParameters(vec, client, phoneNum, signName, templateCode, templateParam, nonce, timestamp);

    vec.Sort();
    var sorted := vec.elems;

    sortQueryString := Join(sorted, AMPERSAND);
    stringToSign := STRING_TO_SIGN_PREFIX + SpecialUrlEncode(sortQueryString);
    signature := hmacSha1Base64(client.accessSecret + [AMPERSAND], stringToSign);

    vec.Push(GetParamStr(SIGNATURE, signature));
    parameters := vec.elems;
    url := ENDPOINT + Join(parameters, AMPERSAND);

    AppendParts(sorted, GetParamStr(SIGNATURE, signature));
    QuerySplits(sorted, RequestParams(client, phoneNum, signName, templateCode, templateParam, nonce, timestamp));
    JoinAppend(sorted, parameters[13], AMPERSAND);
    ConcatAssoc(ENDPOINT, sortQueryString, AMPERSAND, parameters[13]);
    FinalParametersUnsorted(parameters, signature, client, phoneNum, signName, templateCode, templateParam,
                            nonce, timestamp);
    FinalBusinessParametersOnce(parameters, signature, client, phoneNum, signName, templateCode, templateParam,
                                nonce, timestamp);
  }
}

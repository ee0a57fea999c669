/** crates/zkack-spec/src/lib.rs: the delivery acknowledgment token (DAT),
    its JWS header, and the compact JWS envelope of section 7.1 of RFC 7515
    with `alg = "EdDSA"` (RFC 8037): base64url(header) "." base64url(payload)
    "." base64url(signature), the signature taken over the first two
    segments exactly as transmitted. */
module ZkackSpec {
  import opened Text
  import opened Json
  import B64 = Base64Url
  import opened Foreign

  datatype Policy = Policy(ackBySecs: u64, fallbacks: seq<string>)

  datatype DatPayload = DatPayload(
    v: u8,
    saltB64: string,
    addrHashB64: string,
    msgDigestB64: string,
    digestAlg: string,
    exp: string,
    nonceB64: string,
    policy: Policy)

  datatype JwsHeader = JwsHeader(alg: string, kid: string)

  /** The message digest a DAT binds, with the name of how it was obtained. */
  datatype MsgDigest = MsgDigest(alg: string, b64: string)

  const DkimBh: string := "dkim-bh"
  const Blake3: string := "blake3"

  /** The one signature algorithm the envelope supports. */
  const Alg: string := "EdDSA"

  /** The ways `jws_verify` fails, in the order it checks them; `segment` says
      which of the three segments (0 header, 1 payload, 2 signature) failed. */
  datatype JwsError =
    | BadFormat
    | BadBase64(segment: nat)
    | BadUtf8(segment: nat)
    | BadJson(segment: nat)
    | UnsupportedAlg
    | UnknownKid
    | SigParse
    | VerifyFailed
  {
    /** The failures detected before the key lookup. */
    predicate BeforeKeyLookup() {
      || BadFormat?
      || (BadBase64? && segment <= 1)
      || (BadUtf8? && segment <= 1)
      || (BadJson? && segment == 0)
      || UnsupportedAlg?
    }
  }

  // ---------------------------------------------------------------------
  // serde's derived (De)Serialize for the three structs, through Json.Value.
  // A struct deserialises from an object holding every field (other members
  // are ignored) or from an array with exactly one element per field.

  const HeaderFields: seq<string> := ["alg", "kid"]
  const PolicyFields: seq<string> := ["ack_by_secs", "fallbacks"]
  const PayloadFields: seq<string> :=
    ["v", "salt_b64", "addr_hash_b64", "msg_digest_b64", "digest_alg", "exp", "nonce_b64", "policy"]

  /** The field values of a struct, in declaration order. */
  function Members(v: Value, names: seq<string>): (r: Option<seq<Value>>)
    ensures r.Some? ==> |r.value| == |names|
  {
    match v
    case Object(m) =>
      if forall i :: 0 <= i < |names| ==> names[i] in m
      then Some(seq(|names|, i requires 0 <= i < |names| => m[names[i]]))
      else None
    case Array(xs) => if |xs| == |names| then Some(xs) else None
    case _ => None
  }

  function U8Of(v: Value): Option<u8> {
    if v.Number? && 0 <= v.n < 0x100 then Some(v.n) else None
  }

  function U64Of(v: Value): Option<u64> {
    if v.Number? && 0 <= v.n < 0x1_0000_0000_0000_0000 then Some(v.n) else None
  }

  function StringList(xs: seq<Value>): Option<seq<string>> {
    if xs == [] then Some([])
    else
      var h :- xs[0].AsStr();
      var t :- StringList(xs[1..]);
      Some([h] + t)
  }

  function StringsOf(v: Value): Option<seq<string>> {
    if v.Array? then StringList(v.items) else None
  }

  function StringsToJson(ss: seq<string>): Value {
    Array(seq(|ss|, i requires 0 <= i < |ss| => Str(ss[i])))
  }

  function HeaderToJson(h: JwsHeader): Value {
    Object(map["alg" := Str(h.alg), "kid" := Str(h.kid)])
  }

  function HeaderFromJson(v: Value): Option<JwsHeader> {
    var f :- Members(v, HeaderFields);
    var alg :- f[0].AsStr();
    var kid :- f[1].AsStr();
    Some(JwsHeader(alg, kid))
  }

  function PolicyToJson(p: Policy): Value {
    Object(map["ack_by_secs" := Number(p.ackBySecs), "fallbacks" := StringsToJson(p.fallbacks)])
  }

  function PolicyFromJson(v: Value): Option<Policy> {
    var f :- Members(v, PolicyFields);
    var ack :- U64Of(f[0]);
    var fallbacks :- StringsOf(f[1]);
    Some(Policy(ack, fallbacks))
  }

  function PayloadToJson(d: DatPayload): Value {
    Object(map[
      "v" := Number(d.v),
      "salt_b64" := Str(d.saltB64),
      "addr_hash_b64" := Str(d.addrHashB64),
      "msg_digest_b64" := Str(d.msgDigestB64),
      "digest_alg" := Str(d.digestAlg),
      "exp" := Str(d.exp),
      "nonce_b64" := Str(d.nonceB64),
      "policy" := PolicyToJson(d.policy)])
  }

  function PayloadFromJson(v: Value): Option<DatPayload> {
    var f :- Members(v, PayloadFields);
    var ver :- U8Of(f[0]);
    var salt :- f[1].AsStr();
    var addrHash :- f[2].AsStr();
    var digest :- f[3].AsStr();
    var digestAlg :- f[4].AsStr();
    var exp :- f[5].AsStr();
    var nonce :- f[6].AsStr();
    var policy :- PolicyFromJson(f[7]);
    Some(DatPayload(ver, salt, addrHash, digest, digestAlg, exp, nonce, policy))
  }

  lemma {:induction false} StringListRoundTrip(ss: seq<string>)
    ensures StringsOf(StringsToJson(ss)) == Some(ss)
  {
    if ss != [] {
      var xs := StringsToJson(ss).items;
      StringListRoundTrip(ss[1..]);
      assert xs[0] == Str(ss[0]);
      assert xs[1..] == StringsToJson(ss[1..]).items;
      assert [ss[0]] + ss[1..] == ss;
    }
  }

  lemma HeaderJsonRoundTrip(h: JwsHeader)
    ensures HeaderFromJson(HeaderToJson(h)) == Some(h)
  {
  }

  lemma PayloadJsonRoundTrip(d: DatPayload)
    ensures PayloadFromJson(PayloadToJson(d)) == Some(d)
  {
    StringListRoundTrip(d.policy.fallbacks);
    PayloadMembers(d);
  }

  /** The object a payload serialises to holds each field under its name. */
  lemma PayloadMembers(d: DatPayload)
    ensures Members(PayloadToJson(d), PayloadFields) == Some([
      Number(d.v), Str(d.saltB64), Str(d.addrHashB64), Str(d.msgDigestB64),
      Str(d.digestAlg), Str(d.exp), Str(d.nonceB64), PolicyToJson(d.policy)])
  {
    var m := PayloadToJson(d).fields;
    assert forall i :: 0 <= i < |PayloadFields| ==> PayloadFields[i] in m;
    var f := Members(PayloadToJson(d), PayloadFields).value;
    assert f[0] == Number(d.v) && f[1] == Str(d.saltB64) && f[2] == Str(d.addrHashB64);
    assert f[3] == Str(d.msgDigestB64) && f[4] == Str(d.digestAlg) && f[5] == Str(d.exp);
    assert f[6] == Str(d.nonceB64) && f[7] == PolicyToJson(d.policy);
    var expected := [
      Number(d.v), Str(d.saltB64), Str(d.addrHashB64), Str(d.msgDigestB64),
      Str(d.digestAlg), Str(d.exp), Str(d.nonceB64), PolicyToJson(d.policy)];
    assert f == expected;
  }

  // ---------------------------------------------------------------------
  // Text forms.

  /** `serde_json::to_string(&dat)`: the payload text the signer signs. */
  function PayloadText(L: Libs, d: DatPayload): string {
    L.json.render(PayloadToJson(d))
  }

  /** `serde_json::from_str::<DatPayload>`. */
  function ParsePayload(L: Libs, text: string): Option<DatPayload> {
    var v :- L.json.parse(text);
    PayloadFromJson(v)
  }

  /** `serde_json::from_str::<JwsHeader>`. */
  function ParseHeader(L: Libs, text: string): Option<JwsHeader> {
    var v :- L.json.parse(text);
    HeaderFromJson(v)
  }

  /** The bytes of `serde_json::to_vec(&header)`. */
  function HeaderBytes(L: Libs, h: JwsHeader): seq<byte> {
    L.utf8.encode(L.json.render(HeaderToJson(h)))
  }

  lemma PayloadTextRoundTrip(L: Libs, d: DatPayload)
    requires Lawful(L)
    ensures ParsePayload(L, PayloadText(L, d)) == Some(d)
  {
    PayloadJsonRoundTrip(d);
  }

  // ---------------------------------------------------------------------
  // The envelope.

  /** `jws_sign`: header `{alg: "EdDSA", kid}` and the payload text, each
      base64url-encoded, joined by '.', then the base64url signature over
      exactly those two segments and the '.' between them. */
  function JwsSign(L: Libs, payloadJson: string, kid: string, sk: seq<byte>): (jws: string)
    ensures var parts := Split(jws, '.');
      && |parts| == 3
      && B64.Decode(parts[0]) == Some(HeaderBytes(L, JwsHeader(Alg, kid)))
      && B64.Decode(parts[1]) == Some(L.utf8.encode(payloadJson))
      && B64.Decode(parts[2]) == Some(L.ed25519.sign(sk, L.utf8.encode(parts[0] + "." + parts[1])))
  {
    var headerB64 := B64.Encode(HeaderBytes(L, JwsHeader(Alg, kid)));
    var payloadB64 := B64.Encode(L.utf8.encode(payloadJson));
    var signingInput := headerB64 + "." + payloadB64;
    var sig := L.ed25519.sign(sk, L.utf8.encode(signingInput));
    var sigB64 := B64.Encode(sig);
    B64.NoDot(HeaderBytes(L, JwsHeader(Alg, kid)));
    B64.NoDot(L.utf8.encode(payloadJson));
    B64.NoDot(sig);
    SplitThree(headerB64, payloadB64, sigB64, '.');
    B64.DecodeEncode(HeaderBytes(L, JwsHeader(Alg, kid)));
    B64.DecodeEncode(L.utf8.encode(payloadJson));
    B64.DecodeEncode(sig);
    signingInput + "." + sigB64
  }

  /** `jws_verify`: split on '.', decode and check the header, decode the
      payload text, look the key up by `kid`, decode and verify the signature
      over the transmitted first two segments, and only then parse the
      payload. Expiry is not examined. */
  function JwsVerify(L: Libs, jws: string, getVk: string -> Option<seq<byte>>)
    : (r: Result<(JwsHeader, DatPayload), JwsError>)
    ensures |Split(jws, '.')| != 3 ==> r == Err(BadFormat)
    ensures r.Ok? ==> var parts := Split(jws, '.');
      && |parts| == 3
      && r.value.0.alg == Alg
      && getVk(r.value.0.kid).Some?
      && B64.Decode(parts[0]).Some?
      && L.utf8.decode(B64.Decode(parts[0]).value).Some?
      && ParseHeader(L, L.utf8.decode(B64.Decode(parts[0]).value).value) == Some(r.value.0)
      && B64.Decode(parts[2]).Some?
      && |B64.Decode(parts[2]).value| == 64
      && L.ed25519.verify(getVk(r.value.0.kid).value, L.utf8.encode(parts[0] + "." + parts[1]),
                          B64.Decode(parts[2]).value)
      && B64.Decode(parts[1]).Some?
      && L.utf8.decode(B64.Decode(parts[1]).value).Some?
      && ParsePayload(L, L.utf8.decode(B64.Decode(parts[1]).value).value) == Some(r.value.1)
  {
    var parts := Split(jws, '.');
    if |parts| != 3 then Err(BadFormat)
    else
      var headerBytes :- OkOr(B64.Decode(parts[0]), BadBase64(0));
      var headerJson :- OkOr(L.utf8.decode(headerBytes), BadUtf8(0));
      var header :- OkOr(ParseHeader(L, headerJson), BadJson(0));
      if header.alg != Alg then Err(UnsupportedAlg)
      else
        var payloadBytes :- OkOr(B64.Decode(parts[1]), BadBase64(1));
        var payloadJson :- OkOr(L.utf8.decode(payloadBytes), BadUtf8(1));
        var vk :- OkOr(getVk(header.kid), UnknownKid);
        var signingInput := parts[0] + "." + parts[1];
        var sigBytes :- OkOr(B64.Decode(parts[2]), BadBase64(2));
        if |sigBytes| != 64 then Err(SigParse)
        else if !L.ed25519.verify(vk, L.utf8.encode(signingInput), sigBytes) then Err(VerifyFailed)
        else
          var payload :- OkOr(ParsePayload(L, payloadJson), BadJson(1));
          Ok((header, payload))
  }

  /** A segment's text: base64url-decoded, then read as UTF-8. */
  function SegmentText(L: Libs, seg: string): Option<string> {
    var bytes :- B64.Decode(seg);
    L.utf8.decode(bytes)
  }

  /** A well-formed header naming any algorithm but EdDSA is refused as
      UnsupportedAlg, whatever the key store holds. */
  lemma UnsupportedAlgRejected(L: Libs, jws: string, getVk: string -> Option<seq<byte>>, h: JwsHeader)
    requires |Split(jws, '.')| == 3
    requires SegmentText(L, Split(jws, '.')[0]).Some?
    requires ParseHeader(L, SegmentText(L, Split(jws, '.')[0]).value) == Some(h)
    requires h.alg != Alg
    ensures JwsVerify(L, jws, getVk) == Err(UnsupportedAlg)
  {
  }

  /** An EdDSA header whose `kid` the key store does not know is refused as
      UnknownKid, once the payload segment decodes to text. */
  lemma UnknownKidRejected(L: Libs, jws: string, getVk: string -> Option<seq<byte>>, h: JwsHeader)
    requires |Split(jws, '.')| == 3
    requires SegmentText(L, Split(jws, '.')[0]).Some?
    requires ParseHeader(L, SegmentText(L, Split(jws, '.')[0]).value) == Some(h)
    requires h.alg == Alg
    requires SegmentText(L, Split(jws, '.')[1]).Some?
    requires getVk(h.kid).None?
    ensures JwsVerify(L, jws, getVk) == Err(UnknownKid)
  {
  }

  /** With the key found, a signature segment that decodes to anything but
      64 bytes is refused as SigParse. */
  lemma SigParseRejected(L: Libs, jws: string, getVk: string -> Option<seq<byte>>, h: JwsHeader,
                         sig: seq<byte>)
    requires |Split(jws, '.')| == 3
    requires SegmentText(L, Split(jws, '.')[0]).Some?
    requires ParseHeader(L, SegmentText(L, Split(jws, '.')[0]).value) == Some(h)
    requires h.alg == Alg
    requires SegmentText(L, Split(jws, '.')[1]).Some?
    requires getVk(h.kid).Some?
    requires B64.Decode(Split(jws, '.')[2]) == Some(sig) && |sig| != 64
    ensures JwsVerify(L, jws, getVk) == Err(SigParse)
  {
  }

  /** With the key found, a 64-byte signature that Ed25519 rejects over the
      transmitted first two segments is refused as VerifyFailed, before the
      payload is parsed. */
  lemma VerifyFailedRejected(L: Libs, jws: string, getVk: string -> Option<seq<byte>>, h: JwsHeader,
                             sig: seq<byte>)
    requires |Split(jws, '.')| == 3
    requires SegmentText(L, Split(jws, '.')[0]).Some?
    requires ParseHeader(L, SegmentText(L, Split(jws, '.')[0]).value) == Some(h)
    requires h.alg == Alg
    requires SegmentText(L, Split(jws, '.')[1]).Some?
    requires getVk(h.kid).Some?
    requires B64.Decode(Split(jws, '.')[2]) == Some(sig) && |sig| == 64
    requires !L.ed25519.verify(getVk(h.kid).value,
                               L.utf8.encode(Split(jws, '.')[0] + "." + Split(jws, '.')[1]), sig)
    ensures JwsVerify(L, jws, getVk) == Err(VerifyFailed)
  {
  }

  /** A token from `jws_sign` whose `kid` the key store does not know is
      refused as UnknownKid, not as a signature failure. */
  lemma SignedUnknownKid(L: Libs, payloadJson: string, kid: string, sk: seq<byte>,
                         getVk: string -> Option<seq<byte>>)
    requires Lawful(L)
    requires getVk(kid).None?
    ensures JwsVerify(L, JwsSign(L, payloadJson, kid, sk), getVk) == Err(UnknownKid)
  {
    HeaderJsonRoundTrip(JwsHeader(Alg, kid));
  }

  /** Format, base64, UTF-8, header-JSON and algorithm failures are decided
      before the key lookup: the lookup cannot change them. */
  lemma KeyLookupAfterAlgorithmCheck(L: Libs, jws: string, g1: string -> Option<seq<byte>>,
                                     g2: string -> Option<seq<byte>>)
    requires JwsVerify(L, jws, g1).Err? && JwsVerify(L, jws, g1).error.BeforeKeyLookup()
    ensures JwsVerify(L, jws, g2) == JwsVerify(L, jws, g1)
  {
  }

  /** An unknown `kid` is reported before the signature segment is decoded:
      whatever the third segment holds, the answer is UnknownKid. */
  lemma UnknownKidBeforeSignature(L: Libs, h: string, p: string, s1: string, s2: string,
                                  getVk: string -> Option<seq<byte>>)
    requires '.' !in h && '.' !in p && '.' !in s1 && '.' !in s2
    requires JwsVerify(L, h + "." + p + "." + s1, getVk) == Err(UnknownKid)
    ensures JwsVerify(L, h + "." + p + "." + s2, getVk) == Err(UnknownKid)
  {
    SplitThree(h, p, s1, '.');
    SplitThree(h, p, s2, '.');
  }

  /** The round trip: a token signed with `sk` for `kid` verifies against any
      lookup that maps `kid` to the public key of `sk`, giving back the header
      `{alg: "EdDSA", kid}` and whatever the signed text parses to; a text that
      does not parse as a DatPayload fails only at the very end. */
  lemma VerifySigned(L: Libs, payloadJson: string, kid: string, sk: seq<byte>,
                     getVk: string -> Option<seq<byte>>)
    requires Lawful(L)
    requires getVk(kid) == Some(L.ed25519.publicKey(sk))
    ensures JwsVerify(L, JwsSign(L, payloadJson, kid, sk), getVk)
         == match ParsePayload(L, payloadJson)
            case Some(d) => Ok((JwsHeader(Alg, kid), d))
            case None => Err(BadJson(1))
  {
    HeaderJsonRoundTrip(JwsHeader(Alg, kid));
  }

  /** The round trip for a DatPayload serialised by serde_json, whatever its
      `exp`: verification returns the payload unchanged. */
  lemma VerifySignedPayload(L: Libs, d: DatPayload, kid: string, sk: seq<byte>,
                            getVk: string -> Option<seq<byte>>)
    requires Lawful(L)
    requires getVk(kid) == Some(L.ed25519.publicKey(sk))
    ensures JwsVerify(L, JwsSign(L, PayloadText(L, d), kid, sk), getVk) == Ok((JwsHeader(Alg, kid), d))
  {
    VerifySigned(L, PayloadText(L, d), kid, sk, getVk);
    PayloadTextRoundTrip(L, d);
  }

  // ---------------------------------------------------------------------
  // Hashes.

  /** `blake3_b64`: the BLAKE3 digest of the bytes, base64url-encoded. */
  function Blake3B64(L: Libs, data: seq<byte>): string {
    B64.Encode(L.blake3(data))
  }

  /** `addr_hash_b64`: BLAKE3 over the salt followed by the address bytes
      (two `update` calls hash their concatenation), base64url-encoded. */
  function AddrHashB64(L: Libs, salt: seq<byte>, addr: string): string {
    B64.Encode(L.blake3(salt + L.utf8.encode(addr)))
  }

  /** A 32-byte digest encodes to 43 URL-safe characters, none of them '.'. */
  lemma DigestShape(L: Libs, data: seq<byte>)
    requires Lawful(L)
    ensures |Blake3B64(L, data)| == 43 && '.' !in Blake3B64(L, data)
    ensures B64.Decode(Blake3B64(L, data)) == Some(L.blake3(data))
  {
    B64.NoDot(L.blake3(data));
    B64.DecodeEncode(L.blake3(data));
  }
}

/** crates/zkack-signer/src/main.rs: the signer. It takes the DKIM body hash
    with its own extractor (a different one from the digest selector's) or
    falls back to BLAKE3, resolves the key id, builds and signs the DAT, and
    inserts an `X-ZK-DAT` header line before the first blank line. */
module Signer {
  import opened Text
  import opened Foreign
  import opened ZkackSpec
  import B64 = Base64Url
  import DigestBin

  // ---------------------------------------------------------------------
  // find_dkim_bh, the signer's version.

  /** The collected field: from the first line anywhere in the message that
      opens a DKIM-Signature field, that line and the folded lines right after
      it, each followed by "\r\n". */
  function Joined(lines: seq<string>, start: nat, end: nat): string
    requires start <= end <= |lines|
    decreases end - start
  {
    if end == start then [] else Joined(lines, start, end - 1) + lines[end - 1] + "\r\n"
  }

  function Collected(lines: seq<string>): (buf: string)
    ensures buf == [] <==> FirstIndex(lines, DigestBin.IsDkimStart).None?
  {
    match FirstIndex(lines, DigestBin.IsDkimStart)
    case None => []
    case Some(i) => Joined(lines, i, RunEnd(lines, DigestBin.IsFolded, i + 1))
  }

  /** `\w` of the `regex` crate, on ASCII. */
  predicate IsWordChar(c: char) {
    ('a' <= c <= 'z') || ('A' <= c <= 'Z') || ('0' <= c <= '9') || c == '_'
  }

  /** A character of the class `[^;\s\r\n]`. */
  predicate IsTagChar(c: char) {
    c != ';' && !IsWhitespace(c)
  }

  /** `(?i)\bbh=([^;\s\r\n]+)` matches at `p`: a word boundary before the 'b'
      (which is a word character), "bh=" in any letter case, and at least one
      character of the value class after it. */
  predicate MatchesAt(buf: string, p: nat) {
    && p + 3 < |buf|
    && (p == 0 || !IsWordChar(buf[p - 1]))
    && buf[p] in "bB" && buf[p + 1] in "hH" && buf[p + 2] == '='
    && IsTagChar(buf[p + 3])
  }

  /** The leftmost match at or after `from`. */
  function FirstMatch(buf: string, from: nat): (r: Option<nat>)
    requires from <= |buf|
    ensures r.Some? ==> from <= r.value && MatchesAt(buf, r.value)
    ensures r.Some? ==> forall p :: from <= p < r.value ==> !MatchesAt(buf, p)
    ensures r.None? ==> forall p :: from <= p <= |buf| ==> !MatchesAt(buf, p)
    decreases |buf| - from
  {
    if from == |buf| then None
    else if MatchesAt(buf, from) then Some(from)
    else FirstMatch(buf, from + 1)
  }

  /** `re.captures(&buf)` and capture group 1: the value of the leftmost
      match, as long as the value class allows (greedy). */
  function Capture(buf: string): (r: Option<string>)
    ensures r.Some? <==> FirstMatch(buf, 0).Some?
    ensures r.Some? ==> r.value != [] && forall i :: 0 <= i < |r.value| ==> IsTagChar(r.value[i])
    ensures r.Some? ==>
      var p := FirstMatch(buf, 0).value;
      && p + 3 + |r.value| <= |buf|
      && buf[p + 3..p + 3 + |r.value|] == r.value
      && (p + 3 + |r.value| == |buf| || !IsTagChar(buf[p + 3 + |r.value|]))
  {
    match FirstMatch(buf, 0)
    case None => None
    case Some(p) =>
      var e := RunEnd(buf, IsTagChar, p + 3);
      var v := buf[p + 3..e];
      assert forall i :: 0 <= i < |v| ==> IsTagChar(v[i]) by {
        forall i | 0 <= i < |v| ensures IsTagChar(v[i]) {
          assert v[i] == buf[p + 3 + i];
        }
      }
      Some(v)
  }

  /** The body hash the signer takes from a message (reference definition for
      FindDkimBh). */
  function BodyHash(emlStr: string): Option<string> {
    var buf := Collected(Lines(emlStr));
    if buf == [] then None else Capture(buf)
  }

  /** `find_dkim_bh`. */
  method FindDkimBh(emlStr: string) returns (bh: Option<string>)
    ensures bh == BodyHash(emlStr)
  {
    var lines := Lines(emlStr);
    var collecting := false;
    var buf := "";
    ghost var start: nat := 0;
    var k := 0;
    while k < |lines|
      invariant k <= |lines|
      invariant !collecting ==> buf == [] && forall j :: 0 <= j < k ==> !DigestBin.IsDkimStart(lines[j])
      invariant collecting ==> start < k && DigestBin.IsDkimStart(lines[start])
      invariant collecting ==> forall j :: 0 <= j < start ==> !DigestBin.IsDkimStart(lines[j])
      invariant collecting ==> forall j :: start < j < k ==> DigestBin.IsFolded(lines[j])
      invariant collecting ==> buf == Joined(lines, start, k)
    {
      var line := lines[k];
      if !collecting {
        if DigestBin.IsDkimStart(line) {
          collecting := true;
          start := k;
          buf := buf + line + "\r\n";
        }
      } else {
        if DigestBin.IsFolded(line) {
          buf := buf + line + "\r\n";
        } else {
          CollectedFromScan(lines, start, k);
          break;
        }
      }
      k := k + 1;
    }
    if !collecting {
      assert FirstIndex(lines, DigestBin.IsDkimStart).None?;
    } else if k == |lines| {
      CollectedFromScan(lines, start, k);
    }
    if buf == [] {
      return None;
    }
    bh := Capture(buf);
  }

  lemma CollectedFromScan(lines: seq<string>, start: nat, k: nat)
    requires start < k <= |lines| && DigestBin.IsDkimStart(lines[start])
    requires forall j :: 0 <= j < start ==> !DigestBin.IsDkimStart(lines[j])
    requires forall j :: start < j < k ==> DigestBin.IsFolded(lines[j])
    requires k < |lines| ==> !DigestBin.IsFolded(lines[k])
    ensures Collected(lines) == Joined(lines, start, k)
  {
    FirstIndexUnique(lines, DigestBin.IsDkimStart, start);
    RunEndUnique(lines, DigestBin.IsFolded, start + 1, k);
  }

  // ---------------------------------------------------------------------
  // Digest selection, key id, signing key and the payload.

  /** The selection in `main`: the signer's DKIM body hash when there is one,
      otherwise BLAKE3 of the raw bytes. */
  method SelectDigest(L: Libs, eml: seq<byte>) returns (d: MsgDigest)
    ensures d.alg == DkimBh <==> BodyHash(L.utf8.decodeLossy(eml)).Some?
    ensures d.alg == DkimBh ==> d.b64 == BodyHash(L.utf8.decodeLossy(eml)).value
    ensures d.alg != DkimBh ==> d == MsgDigest(Blake3, Blake3B64(L, eml))
  {
    var emlStr := L.utf8.decodeLossy(eml);
    var found := FindDkimBh(emlStr);
    if found.Some? {
      d := MsgDigest(DkimBh, found.value);
    } else {
      d := MsgDigest(Blake3, Blake3B64(L, eml));
    }
  }

  /** The signer's failures, in the order it can meet them. */
  datatype SignerError = KidMismatch | BadKeyBase64 | BadKeyLength

  /** The private key file: `{kid, sk_b64, vk_b64}`. */
  datatype PrivKeyJson = PrivKeyJson(kid: string, skB64: string, vkB64: string)

  /** The key id: `--kid` must agree with the key file; without it, the
      file's id is used. */
  function ResolveKid(argKid: Option<string>, fileKid: string): (r: Result<string, SignerError>)
    ensures r.Err? <==> argKid.Some? && argKid.value != fileKid
    ensures r.Err? ==> r.error == KidMismatch
    ensures r.Ok? ==> r.value == fileKid
  {
    match argKid
    case Some(k) => if k != fileKid then Err(KidMismatch) else Ok(k)
    case None => Ok(fileKid)
  }

  /** The 32-byte Ed25519 secret key from `sk_b64`. */
  function SigningKey(skB64: string): (r: Result<seq<byte>, SignerError>)
    ensures r.Ok? <==> B64.Decode(skB64).Some? && |B64.Decode(skB64).value| == 32
    ensures r.Ok? ==> r.value == B64.Decode(skB64).value
    ensures r.Err? ==> (r.error == BadKeyBase64 <==> B64.Decode(skB64).None?)
  {
    var bytes :- OkOr(B64.Decode(skB64), BadKeyBase64);
    if |bytes| != 32 then Err(BadKeyLength) else Ok(bytes)
  }

  /** `ack_by_secs as i64`: a u64 reinterpreted in two's complement. */
  function AsI64(x: u64): (r: int)
    ensures -0x8000_0000_0000_0000 <= r < 0x8000_0000_0000_0000
    ensures r % 0x1_0000_0000_0000_0000 == x
  {
    if x < 0x8000_0000_0000_0000 then x else x - 0x1_0000_0000_0000_0000
  }

  const NanosPerSecond: int := 1_000_000_000
  const Fallbacks: seq<string> := ["portal", "sms"]

  /** The DAT the signer builds, from the fresh salt and nonce, the clock
      reading `now` (nanoseconds) and the selected digest. */
  function BuildDat(L: Libs, to: string, ackBySecs: u64, now: int, salt: seq<byte>,
                    nonce: seq<byte>, digest: MsgDigest): (dat: DatPayload)
    ensures dat.v == 1 && dat.policy == Policy(ackBySecs, ["portal", "sms"])
    ensures dat.msgDigestB64 == digest.b64 && dat.digestAlg == digest.alg
    ensures dat.addrHashB64 == AddrHashB64(L, salt, to)
    ensures B64.Decode(dat.saltB64) == Some(salt) && B64.Decode(dat.nonceB64) == Some(nonce)
    ensures dat.exp == L.time.format(now + AsI64(ackBySecs) * NanosPerSecond)
  {
    B64.DecodeEncode(salt);
    B64.DecodeEncode(nonce);
    DatPayload(
      v := 1,
      saltB64 := B64.Encode(salt),
      addrHashB64 := AddrHashB64(L, salt, to),
      msgDigestB64 := digest.b64,
      digestAlg := digest.alg,
      exp := L.time.format(now + AsI64(ackBySecs) * NanosPerSecond),
      nonceB64 := B64.Encode(nonce),
      policy := Policy(ackBySecs, Fallbacks))
  }

  // ---------------------------------------------------------------------
  // Header injection.

  const HeaderName: string := "X-ZK-DAT: "

  /** The inserted header line. */
  function DatHeader(jws: string): string {
    HeaderName + jws + "\r\n"
  }

  /** lines[start..end], each followed by "\r\n". */
  function CrLfLines(lines: seq<string>, start: nat, end: nat): string
    requires start <= end <= |lines|
    decreases end - start
  {
    if end == start then [] else CrLfLines(lines, start, end - 1) + lines[end - 1] + "\r\n"
  }

  /** What the signer prints (reference definition for InjectHeader). */
  function Injected(emlStr: string, jws: string): string {
    var lines := Lines(emlStr);
    match FirstIndex(lines, IsBlank)
    case None => DatHeader(jws) + emlStr
    case Some(i) => CrLfLines(lines, 0, i) + DatHeader(jws) + CrLfLines(lines, i, |lines|)
  }

  /** The injection loop of `main`. */
  method InjectHeader(emlStr: string, jws: string) returns (out: string)
    ensures out == Injected(emlStr, jws)
  {
    var lines := Lines(emlStr);
    out := "";
    var inserted := false;
    ghost var at: nat := 0;
    ghost var prefix: string := [];
    for k := 0 to |lines|
      invariant !inserted ==> out == CrLfLines(lines, 0, k) && forall j :: 0 <= j < k ==> !IsBlank(lines[j])
      invariant inserted ==> at < k && IsBlank(lines[at]) && forall j :: 0 <= j < at ==> !IsBlank(lines[j])
      invariant inserted ==> prefix == CrLfLines(lines, 0, at) + DatHeader(jws)
      invariant inserted ==> out == prefix + CrLfLines(lines, at, k)
    {
      var line := lines[k];
      TrimEmptyIffBlank(line);
      if !inserted && Trim(line) == [] {
        out := out + DatHeader(jws);
        inserted := true;
        at := k;
        prefix := out;
      }
      out := out + line + "\r\n";
      if inserted {
        assert out == prefix + (CrLfLines(lines, at, k) + line + "\r\n");
      }
    }
    if !inserted {
      out := DatHeader(jws) + emlStr;
    } else {
      FirstIndexUnique(lines, IsBlank, at);
    }
  }

  // ---------------------------------------------------------------------
  // The whole signer.

  /** The compact token the signer emits for a DAT. */
  function SignedToken(L: Libs, dat: DatPayload, kid: string, sk: seq<byte>): string {
    JwsSign(L, PayloadText(L, dat), kid, sk)
  }

  /** `main` after reading its inputs: select the digest, resolve the key id,
      decode the secret key, build and sign the DAT, inject the header. The
      salt and nonce are the fresh random values and `now` the clock. */
  method Sign(L: Libs, eml: seq<byte>, pkj: PrivKeyJson, argKid: Option<string>, to: string,
              ackBySecs: u64, now: int, salt: seq<byte>, nonce: seq<byte>)
    returns (r: Result<string, SignerError>)
    requires |salt| == 32 && |nonce| == 16
    ensures r.Err? <==> ResolveKid(argKid, pkj.kid).Err? || SigningKey(pkj.skB64).Err?
    ensures r.Err? ==> r.error == if ResolveKid(argKid, pkj.kid).Err? then KidMismatch
                                  else SigningKey(pkj.skB64).error
    ensures r.Ok? ==> exists digest: MsgDigest ::
      && (digest.alg == DkimBh <==> BodyHash(L.utf8.decodeLossy(eml)).Some?)
      && (digest.alg == DkimBh ==> BodyHash(L.utf8.decodeLossy(eml)) == Some(digest.b64))
      && (digest.alg != DkimBh ==> digest == MsgDigest(Blake3, Blake3B64(L, eml)))
      && r.value == Injected(L.utf8.decodeLossy(eml),
           SignedToken(L, BuildDat(L, to, ackBySecs, now, salt, nonce, digest), pkj.kid,
                       SigningKey(pkj.skB64).value))
  {
    var digest := SelectDigest(L, eml);
    var kidR := ResolveKid(argKid, pkj.kid);
    if kidR.Err? {
      return Err(kidR.error);
    }
    var kid := kidR.value;
    var skR := SigningKey(pkj.skB64);
    if skR.Err? {
      return Err(skR.error);
    }
    var sk := skR.value;
    var dat := BuildDat(L, to, ackBySecs, now, salt, nonce, digest);
    var jws := SignedToken(L, dat, kid, sk);
    var out := InjectHeader(L.utf8.decodeLossy(eml), jws);
    r := Ok(out);
  }

  // ---------------------------------------------------------------------
  // Properties.

  /** Without a line opening a DKIM-Signature field there is no body hash. */
  lemma NoSignatureNoHash(emlStr: string)
    requires forall i :: 0 <= i < |Lines(emlStr)| ==> !DigestBin.IsDkimStart(Lines(emlStr)[i])
    ensures BodyHash(emlStr) == None
  {
  }

  /** The first line after the opening one that is not folded ends the
      collection: only the opening line is kept. */
  lemma FirstNonFoldedStops(lines: seq<string>, i: nat)
    requires i + 1 < |lines| && DigestBin.IsDkimStart(lines[i])
    requires forall j :: 0 <= j < i ==> !DigestBin.IsDkimStart(lines[j])
    requires !DigestBin.IsFolded(lines[i + 1])
    ensures Collected(lines) == lines[i] + "\r\n"
  {
    CollectedFromScan(lines, i, i + 1);
    JoinedOne(lines, i);
  }

  /** Unlike the digest selector, the signer stops at a second
      DKIM-Signature line: only the first line is collected. */
  lemma SecondSignatureStops(lines: seq<string>, i: nat)
    requires i + 1 < |lines| && DigestBin.IsDkimStart(lines[i])
    requires forall j :: 0 <= j < i ==> !DigestBin.IsDkimStart(lines[j])
    requires DigestBin.IsDkimStart(lines[i + 1])
    ensures Collected(lines) == lines[i] + "\r\n"
  {
    DkimStartNotFolded(lines[i + 1]);
    FirstNonFoldedStops(lines, i);
  }

  /** A line opening a DKIM-Signature field starts with 'd' or 'D', so it is
      not a folded line. */
  lemma DkimStartNotFolded(line: string)
    requires DigestBin.IsDkimStart(line)
    ensures !DigestBin.IsFolded(line)
  {
    assert AsciiLower(line)[0] == 'd';
    assert line[0] == 'd' || line[0] == 'D';
  }

  lemma JoinedOne(lines: seq<string>, i: nat)
    requires i < |lines|
    ensures Joined(lines, i, i + 1) == lines[i] + "\r\n"
  {
    assert Joined(lines, i, i) == [];
    assert [] + lines[i] == lines[i];
  }

  /** The leftmost match is the first position that matches. */
  lemma {:induction false} FirstMatchUnique(buf: string, from: nat, p: nat)
    requires from <= p <= |buf| && MatchesAt(buf, p)
    requires forall q :: from <= q < p ==> !MatchesAt(buf, q)
    ensures FirstMatch(buf, from) == Some(p)
    decreases p - from
  {
    if from < p {
      FirstMatchUnique(buf, from + 1, p);
    }
  }

  /** The capture is returned as it stands: padding, '+' and '/' survive.
      With the leftmost match right after `pre`, the value is the whole run
      `v` of tag characters up to `stop`. */
  lemma CaptureNotNormalised(pre: string, tag: string, v: string, stop: string)
    requires tag == "bh=" || tag == "BH=" || tag == "bH=" || tag == "Bh="
    requires pre == [] || !IsWordChar(pre[|pre| - 1])
    requires v != [] && forall i :: 0 <= i < |v| ==> IsTagChar(v[i])
    requires stop == [] || !IsTagChar(stop[0])
    requires forall q :: 0 <= q < |pre| ==> !MatchesAt(pre + tag + v + stop, q)
    ensures Capture(pre + tag + v + stop) == Some(v)
  {
    var buf := pre + tag + v + stop;
    var p := |pre|;
    assert buf[p] == tag[0] && buf[p + 1] == tag[1] && buf[p + 2] == tag[2];
    assert buf[p + 3] == v[0];
    assert p > 0 ==> buf[p - 1] == pre[p - 1];
    assert MatchesAt(buf, p);
    FirstMatchUnique(buf, 0, p);
    assert forall j :: p + 3 <= j < p + 3 + |v| ==> IsTagChar(buf[j]) by {
      forall j | p + 3 <= j < p + 3 + |v| ensures IsTagChar(buf[j]) {
        assert buf[j] == v[j - p - 3];
      }
    }
    assert p + 3 + |v| < |buf| ==> buf[p + 3 + |v|] == stop[0];
    RunEndUnique(buf, IsTagChar, p + 3, p + 3 + |v|);
    assert buf[p + 3..p + 3 + |v|] == v;
  }

  /** A body hash the signer takes with its base64 padding is never what the
      digest selector produces for the same message, whose results carry no
      trailing '='. */
  lemma PaddedHashDisagrees(emlStr: string)
    requires BodyHash(emlStr).Some?
    requires var v := BodyHash(emlStr).value; v[|v| - 1] == '='
    ensures DigestBin.BodyHash(emlStr) != BodyHash(emlStr)
  {
  }

  lemma {:induction false} CrLfLinesSplit(lines: seq<string>, a: nat, b: nat, c: nat)
    requires a <= b <= c <= |lines|
    ensures CrLfLines(lines, a, b) + CrLfLines(lines, b, c) == CrLfLines(lines, a, c)
    decreases c - b
  {
    if c > b {
      CrLfLinesSplit(lines, a, b, c - 1);
    }
  }

  /** With a blank line: the header is inserted once, immediately before the
      first blank line, and taking it out leaves every input line, in order,
      each followed by "\r\n". */
  lemma InjectionBeforeFirstBlank(emlStr: string, jws: string, i: nat)
    requires FirstIndex(Lines(emlStr), IsBlank) == Some(i)
    ensures var lines := Lines(emlStr);
      && (forall j :: 0 <= j < i ==> !IsBlank(lines[j])) && IsBlank(lines[i])
      && Injected(emlStr, jws) == CrLfLines(lines, 0, i) + DatHeader(jws) + CrLfLines(lines, i, |lines|)
      && CrLfLines(lines, 0, i) + CrLfLines(lines, i, |lines|) == CrLfLines(lines, 0, |lines|)
  {
    CrLfLinesSplit(Lines(emlStr), 0, i, |Lines(emlStr)|);
  }

  /** Without a blank line the header is put in front of the text, which is
      otherwise unmodified. */
  lemma InjectionWithoutBlank(emlStr: string, jws: string)
    requires forall j :: 0 <= j < |Lines(emlStr)| ==> !IsBlank(Lines(emlStr)[j])
    ensures Injected(emlStr, jws) == "X-ZK-DAT: " + jws + "\r\n" + emlStr
  {
  }

  /** The token the signer emits verifies, under the public key of the
      signing key, to the header {alg: "EdDSA", kid} and the very DAT built. */
  lemma SignedTokenVerifies(L: Libs, dat: DatPayload, kid: string, sk: seq<byte>,
                            getVk: string -> Option<seq<byte>>)
    requires Lawful(L)
    requires getVk(kid) == Some(L.ed25519.publicKey(sk))
    ensures JwsVerify(L, SignedToken(L, dat, kid, sk), getVk) == Ok((JwsHeader(Alg, kid), dat))
  {
    VerifySignedPayload(L, dat, kid, sk, getVk);
  }
}

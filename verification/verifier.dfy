/** crates/zkack-verifier/src/main.rs: the verification service's decisions
    and its receipt ledger. `POST /ack` admits a DAT envelope with a
    non-empty proof and stores one receipt; `POST /verify` checks an envelope
    without storing anything; `GET /receipts` lists the stored receipts and
    `GET /receipts/search` filters, orders and caps them.

    The sled database is a `Ledger` object whose entries are kept in the
    order its iterator yields them; the storage layer's outcome for each
    insert and flush, the clock readings and the fresh receipt id are
    parameters. */
module Verifier {
  import opened Text
  import opened Json
  import opened Foreign
  import opened ZkackSpec
  import Order = ReceiptOrder

  // ---------------------------------------------------------------------
  // Keys and receipt ids.

  /** The key store loaded at start-up: kid to Ed25519 verifying key. */
  type KeyStore = map<string, seq<byte>>

  /** `|kid| state.keys.get(kid).cloned()`. */
  function Lookup(keys: KeyStore): string -> Option<seq<byte>> {
    kid => if kid in keys then Some(keys[kid]) else None
  }

  predicate IsHexDigit(c: char) {
    ('0' <= c <= '9') || ('a' <= c <= 'f')
  }

  /** The lower-case hexadecimal digit of a nibble. */
  function HexDigit(n: nat): (c: char)
    requires n < 16
    ensures IsHexDigit(c)
  {
    if n < 10 then (48 + n) as char else (87 + n) as char
  }

  /** Lower-case hexadecimal, two digits per byte. */
  function Hex(bs: seq<byte>): (h: string)
    ensures |h| == 2 * |bs|
    ensures forall i :: 0 <= i < |h| ==> IsHexDigit(h[i])
  {
    if bs == [] then []
    else [HexDigit(bs[0] / 16), HexDigit(bs[0] % 16)] + Hex(bs[1..])
  }

  /** Byte `j` is spelt at positions 2j and 2j+1, high nibble first. */
  lemma {:induction false} HexAt(bs: seq<byte>, j: nat)
    requires j < |bs|
    ensures Hex(bs)[2 * j] == HexDigit(bs[j] / 16)
    ensures Hex(bs)[2 * j + 1] == HexDigit(bs[j] % 16)
  {
    var t := Hex(bs[1..]);
    assert Hex(bs) == [HexDigit(bs[0] / 16), HexDigit(bs[0] % 16)] + t;
    if j > 0 {
      HexAt(bs[1..], j - 1);
      assert bs[1..][j - 1] == bs[j];
      assert Hex(bs)[2 * j] == t[2 * (j - 1)] && Hex(bs)[2 * j + 1] == t[2 * (j - 1) + 1];
    }
  }

  /** Where the high digit of byte `i` of a UUID stands in its text: after
      two digits per earlier byte and the dashes after bytes 4, 6, 8 and 10. */
  function Slot(i: nat): nat {
    2 * i + (if i < 4 then 0 else if i < 6 then 1 else if i < 8 then 2 else if i < 10 then 3 else 4)
  }

  /** The hyphenated groups of a UUID's digits. */
  function UuidGroups(id: seq<byte>): string
    requires |id| == 16
  {
    Hex(id[..4]) + ("-" + (Hex(id[4..6]) + ("-" + (Hex(id[6..8]) + ("-" + (Hex(id[8..10]) + ("-" + Hex(id[10..]))))))))
  }

  /** A UUID as serialised into JSON: 32 lower-case hex digits in the groups
      8-4-4-4-12, joined by '-'. */
  function UuidText(id: seq<byte>): (t: string)
    requires |id| == 16
    ensures |t| == 36
    ensures forall i :: 0 <= i < 36 ==> (t[i] == '-' <==> i in {8, 13, 18, 23})
  {
    var t := UuidGroups(id);
    assert forall i :: 0 <= i < 36 && i !in {8, 13, 18, 23} ==> IsHexDigit(t[i]);
    t
  }

  /** Each byte of the id is spelt, high digit first, at its Slot. */
  lemma UuidTextDigits(id: seq<byte>)
    requires |id| == 16
    ensures forall i :: 0 <= i < 16 ==>
      UuidText(id)[Slot(i)] == HexDigit(id[i] / 16) && UuidText(id)[Slot(i) + 1] == HexDigit(id[i] % 16)
  {
    forall i | 0 <= i < 16
      ensures UuidText(id)[Slot(i)] == HexDigit(id[i] / 16) && UuidText(id)[Slot(i) + 1] == HexDigit(id[i] % 16)
    {
      UuidDigit(id, i);
    }
  }

  /** Byte `i` of the id is spelt at Slot(i). */
  lemma UuidDigit(id: seq<byte>, i: nat)
    requires |id| == 16 && i < 16
    ensures UuidGroups(id)[Slot(i)] == HexDigit(id[i] / 16)
    ensures UuidGroups(id)[Slot(i) + 1] == HexDigit(id[i] % 16)
  {
    var g0, g1, g2, g3, g4 := Hex(id[..4]), Hex(id[4..6]), Hex(id[6..8]), Hex(id[8..10]), Hex(id[10..]);
    var t := UuidGroups(id);
    if i < 4 {
      HexAt(id[..4], i);
      assert id[..4][i] == id[i];
      assert t[Slot(i)] == g0[2 * i] && t[Slot(i) + 1] == g0[2 * i + 1];
    } else if i < 6 {
      HexAt(id[4..6], i - 4);
      assert id[4..6][i - 4] == id[i];
      assert t[Slot(i)] == g1[2 * (i - 4)] && t[Slot(i) + 1] == g1[2 * (i - 4) + 1];
    } else if i < 8 {
      HexAt(id[6..8], i - 6);
      assert id[6..8][i - 6] == id[i];
      assert t[Slot(i)] == g2[2 * (i - 6)] && t[Slot(i) + 1] == g2[2 * (i - 6) + 1];
    } else if i < 10 {
      HexAt(id[8..10], i - 8);
      assert id[8..10][i - 8] == id[i];
      assert t[Slot(i)] == g3[2 * (i - 8)] && t[Slot(i) + 1] == g3[2 * (i - 8) + 1];
    } else {
      HexAt(id[10..], i - 10);
      assert id[10..][i - 10] == id[i];
      assert t[Slot(i)] == g4[2 * (i - 10)] && t[Slot(i) + 1] == g4[2 * (i - 10) + 1];
    }
  }

  /** The sixteen hex digits are distinct, so a digit names its value. */
  lemma HexDigitDistinct(x: nat, y: nat)
    requires x < 16 && y < 16 && HexDigit(x) == HexDigit(y)
    ensures x == y
  {
  }

  /** Distinct receipt ids give distinct `ack_id` texts. */
  lemma UuidTextInjective(a: seq<byte>, b: seq<byte>)
    requires |a| == 16 && |b| == 16
    requires UuidText(a) == UuidText(b)
    ensures a == b
  {
    UuidTextDigits(a);
    UuidTextDigits(b);
    forall i | 0 <= i < 16 ensures a[i] == b[i] {
      HexDigitDistinct(a[i] / 16, b[i] / 16);
      HexDigitDistinct(a[i] % 16, b[i] % 16);
    }
  }

  // ---------------------------------------------------------------------
  // The ledger.

  /** One stored receipt: the key (the receipt id's 16 bytes) and the
      serialised JSON record. */
  datatype Entry = Entry(key: seq<byte>, value: seq<byte>)

  /** `Db::get`: the value stored under `k`. */
  function Get(es: seq<Entry>, k: seq<byte>): (r: Option<seq<byte>>)
    ensures r.None? <==> forall i :: 0 <= i < |es| ==> es[i].key != k
    ensures r.Some? ==> exists i :: 0 <= i < |es| && es[i] == Entry(k, r.value)
  {
    if es == [] then None
    else if es[0].key == k then Some(es[0].value)
    else
      var r := Get(es[1..], k);
      assert forall i :: 0 < i < |es| ==> es[i] == es[1..][i - 1];
      r
  }

  /** Every key is stored once. */
  ghost predicate DistinctKeys(es: seq<Entry>) {
    forall i, j :: 0 <= i < j < |es| ==> es[i].key != es[j].key
  }

  /** `Db::insert`: the value under an existing key is replaced where it is;
      a new key is added at the end, insertion order standing in for sled's
      key order. */
  function Put(es: seq<Entry>, k: seq<byte>, v: seq<byte>): (r: seq<Entry>)
    ensures |r| == if Get(es, k).None? then |es| + 1 else |es|
  {
    if es == [] then [Entry(k, v)]
    else if es[0].key == k then [Entry(k, v)] + es[1..]
    else [es[0]] + Put(es[1..], k, v)
  }

  /** After a put, `k` holds the new value. */
  lemma {:induction false} PutGetSame(es: seq<Entry>, k: seq<byte>, v: seq<byte>)
    ensures Get(Put(es, k, v), k) == Some(v)
  {
    if es != [] && es[0].key != k {
      var t := Put(es[1..], k, v);
      PutGetSame(es[1..], k, v);
      assert ([es[0]] + t)[1..] == t;
    }
  }

  /** A put leaves every other key's value as it was. */
  lemma {:induction false} PutGetOther(es: seq<Entry>, k: seq<byte>, v: seq<byte>, k': seq<byte>)
    requires k' != k
    ensures Get(Put(es, k, v), k') == Get(es, k')
  {
    if es != [] && es[0].key != k {
      var t := Put(es[1..], k, v);
      PutGetOther(es[1..], k, v, k');
      assert ([es[0]] + t)[1..] == t;
    } else if es != [] {
      assert ([Entry(k, v)] + es[1..])[1..] == es[1..];
    }
  }

  /** A new key is appended after the existing entries. */
  lemma {:induction false} PutAppends(es: seq<Entry>, k: seq<byte>, v: seq<byte>)
    requires Get(es, k).None?
    ensures Put(es, k, v) == es + [Entry(k, v)]
  {
    if es != [] {
      assert es[0].key != k;
      assert Get(es[1..], k).None?;
      PutAppends(es[1..], k, v);
      assert es + [Entry(k, v)] == [es[0]] + (es[1..] + [Entry(k, v)]);
    }
  }

  lemma {:induction false} PutKeepsDistinct(es: seq<Entry>, k: seq<byte>, v: seq<byte>)
    requires DistinctKeys(es)
    ensures DistinctKeys(Put(es, k, v))
  {
    if es != [] && es[0].key != k {
      var t := Put(es[1..], k, v);
      PutKeepsDistinct(es[1..], k, v);
      PutKeys(es[1..], k, v);
      var r := [es[0]] + t;
      forall j | 0 < j < |r| ensures r[0].key != r[j].key {
        assert r[j] == t[j - 1];
        if t[j - 1].key != k {
          assert r[j].key == es[j].key;
        }
      }
    }
  }

  /** Put changes no key but possibly adds `k` at the end. */
  lemma {:induction false} PutKeys(es: seq<Entry>, k: seq<byte>, v: seq<byte>)
    ensures forall i :: 0 <= i < |Put(es, k, v)| ==>
      Put(es, k, v)[i].key == k || (i < |es| && Put(es, k, v)[i].key == es[i].key)
  {
    if es != [] && es[0].key != k {
      PutKeys(es[1..], k, v);
    }
  }

  /** With distinct keys, `Get` finds the one entry holding a key. */
  lemma {:induction false} GetDistinct(es: seq<Entry>, i: nat)
    requires DistinctKeys(es) && i < |es|
    ensures Get(es, es[i].key) == Some(es[i].value)
  {
    if i > 0 {
      assert es[0].key != es[i].key;
      assert es[1..][i - 1] == es[i];
      assert DistinctKeys(es[1..]) by {
        forall a, b | 0 <= a < b < |es[1..]| ensures es[1..][a].key != es[1..][b].key {
          assert es[1..][a] == es[a + 1] && es[1..][b] == es[b + 1];
        }
      }
      GetDistinct(es[1..], i - 1);
    }
  }

  /** The sled database. */
  class Ledger {
    var entries: seq<Entry>

    /** Every key is stored once, so each entry is what `Get` returns for its
        key (GetDistinct). */
    ghost predicate Valid()
      reads this
    {
      DistinctKeys(entries)
    }

    constructor ()
      ensures Valid() && entries == []
    {
      entries := [];
    }

    /** `Db::insert(key, value)`; `ok` is whether the storage layer accepts
        the write. A refused write changes nothing. */
    method Insert(key: seq<byte>, value: seq<byte>, ok: bool) returns (done: bool)
      requires Valid()
      modifies this
      ensures Valid()
      ensures done == ok
      ensures entries == if ok then Put(old(entries), key, value) else old(entries)
    {
      done := ok;
      if ok {
        PutKeepsDistinct(entries, key, value);
        entries := Put(entries, key, value);
      }
    }
  }

  /** What the storage layer does with this request's writes. */
  datatype StoreIo = StoreIo(insertOk: bool, flushOk: bool)

  /** `String::from_utf8` then `serde_json::from_str::<Value>`. */
  function DecodeEntry(L: Libs, bytes: seq<byte>): Option<Value> {
    var s :- L.utf8.decode(bytes);
    L.json.parse(s)
  }

  /** `serde_json::to_vec`. */
  function RecordBytes(L: Libs, v: Value): seq<byte> {
    L.utf8.encode(L.json.render(v))
  }

  // ---------------------------------------------------------------------
  // POST /ack.

  datatype AckReq = AckReq(
    datJws: string,
    proof: string,
    receivedTs: string,
    recvDomain: string,
    recvDomainSig: Option<string>,
    msgId: Option<string>,
    dkimPass: Option<bool>)

  const Delivered: string := "DELIVERED"

  datatype AckResp = AckResp(ackId: seq<byte>, status: string)

  /** Why `handle_ack` refuses a request, in the order it checks. */
  datatype AckError =
    | EmptyProof
    | Envelope(e: JwsError)
    | BadExp
    | Expired
    | DbInsert
    | DbFlush

  /** The HTTP status of each refusal. */
  function AckStatus(e: AckError): (code: int)
    ensures code in {400, 422, 500}
    ensures code == 400 <==> e == EmptyProof
    ensures code == 500 <==> e.DbInsert? || e.DbFlush?
  {
    match e
    case EmptyProof => 400
    case Envelope(_) => 422
    case BadExp => 422
    case Expired => 422
    case DbInsert => 500
    case DbFlush => 500
  }

  /** The checks `handle_ack` makes before it writes: a proof that is not
      blank (its content is never examined), an envelope that verifies
      against the key store, an `exp` that parses, and a clock reading `now`
      not after it. */
  function Admit(L: Libs, keys: KeyStore, req: AckReq, now: int): (r: Result<(JwsHeader, DatPayload), AckError>)
    ensures r == Err(EmptyProof) <==> IsBlank(req.proof)
    ensures r.Err? && r.error.Envelope? <==>
      !IsBlank(req.proof) && JwsVerify(L, req.datJws, Lookup(keys)).Err?
    ensures r.Err? && r.error.Envelope? ==> JwsVerify(L, req.datJws, Lookup(keys)) == Err(r.error.e)
    ensures r.Ok? ==>
      && JwsVerify(L, req.datJws, Lookup(keys)) == Ok(r.value)
      && L.time.parse(r.value.1.exp).Some?
      && now <= L.time.parse(r.value.1.exp).value
    ensures r.Err? ==> !r.error.DbInsert? && !r.error.DbFlush?
  {
    TrimEmptyIffBlank(req.proof);
    if Trim(req.proof) == [] then Err(EmptyProof)
    else
      match JwsVerify(L, req.datJws, Lookup(keys))
      case Err(e) => Err(Envelope(e))
      case Ok(verified) =>
        match L.time.parse(verified.1.exp)
        case None => Err(BadExp)
        case Some(exp) => if now > exp then Err(Expired) else Ok(verified)
  }

  /** The stored record: the receipt id, the header's `kid`, the payload,
      the request's fields with `dkim_pass` defaulting to true, and the time
      of storage. */
  function Record(ackId: seq<byte>, hdr: JwsHeader, dat: DatPayload, req: AckReq, storedAt: string): (v: Value)
    requires |ackId| == 16
    ensures StrField(v, "ack_id") == Some(UuidText(ackId))
    ensures StrField(v, "kid") == Some(hdr.kid)
    ensures StrField(v, "stored_at") == Some(storedAt)
    ensures v.Get("dat") == Some(PayloadToJson(dat))
    ensures v.Get("dkim_pass") == Some(Bool(req.dkimPass.Some? ==> req.dkimPass.value))
  {
    Object(map[
      "ack_id" := Str(UuidText(ackId)),
      "kid" := Str(hdr.kid),
      "dat" := PayloadToJson(dat),
      "received_ts" := Str(req.receivedTs),
      "recv_domain" := Str(req.recvDomain),
      "recv_domain_sig" := OptStr(req.recvDomainSig),
      "msg_id" := OptStr(req.msgId),
      "dkim_pass" := Bool(if req.dkimPass.Some? then req.dkimPass.value else true),
      "stored_at" := Str(storedAt)])
  }

  /** The record has exactly the nine members `handle_ack` writes, and the
      request's own fields are copied into it, an absent optional one as
      `null`. */
  lemma RecordMembers(ackId: seq<byte>, hdr: JwsHeader, dat: DatPayload, req: AckReq, storedAt: string)
    requires |ackId| == 16
    ensures var v := Record(ackId, hdr, dat, req, storedAt);
      && v.Object?
      && v.fields.Keys ==
         {"ack_id", "kid", "dat", "received_ts", "recv_domain", "recv_domain_sig", "msg_id", "dkim_pass", "stored_at"}
  {
  }

  lemma RecordRequestFields(ackId: seq<byte>, hdr: JwsHeader, dat: DatPayload, req: AckReq, storedAt: string)
    requires |ackId| == 16
    ensures var v := Record(ackId, hdr, dat, req, storedAt);
      && StrField(v, "received_ts") == Some(req.receivedTs)
      && StrField(v, "recv_domain") == Some(req.recvDomain)
      && StrField(v, "recv_domain_sig") == req.recvDomainSig
      && StrField(v, "msg_id") == req.msgId
      && (req.recvDomainSig.None? ==> v.Get("recv_domain_sig") == Some(Null))
      && (req.msgId.None? ==> v.Get("msg_id") == Some(Null))
  {
  }

  /** `handle_ack`. `now` and `stamp` are the two clock readings (the expiry
      check and the record's `stored_at`), `ackId` the fresh receipt id and
      `io` the storage layer's outcome. A refusal before the write leaves the
      ledger as it was; otherwise exactly the new record is put under
      `ackId`, and it stays there even when the flush then fails. */
  method HandleAck(L: Libs, keys: KeyStore, db: Ledger, req: AckReq, now: int, stamp: int,
                   ackId: seq<byte>, io: StoreIo) returns (r: Result<AckResp, AckError>)
    requires db.Valid() && |ackId| == 16
    modifies db
    ensures db.Valid()
    ensures Admit(L, keys, req, now).Err? ==>
      r == Err(Admit(L, keys, req, now).error) && db.entries == old(db.entries)
    ensures Admit(L, keys, req, now).Ok? ==>
      var hdr := Admit(L, keys, req, now).value.0;
      var dat := Admit(L, keys, req, now).value.1;
      var bytes := RecordBytes(L, Record(ackId, hdr, dat, req, L.time.format(stamp)));
      && db.entries == (if io.insertOk then Put(old(db.entries), ackId, bytes) else old(db.entries))
      && r == (if !io.insertOk then Err(DbInsert)
               else if !io.flushOk then Err(DbFlush)
               else Ok(AckResp(ackId, Delivered)))
  {
    TrimEmptyIffBlank(req.proof);
    if Trim(req.proof) == [] {
      return Err(EmptyProof);
    }
    var verified := JwsVerify(L, req.datJws, Lookup(keys));
    if verified.Err? {
      return Err(Envelope(verified.error));
    }
    var (hdr, dat) := verified.value;
    var exp := L.time.parse(dat.exp);
    if exp.None? {
      return Err(BadExp);
    }
    if now > exp.value {
      return Err(Expired);
    }
    var nowIso := L.time.format(stamp);
    var record := Record(ackId, hdr, dat, req, nowIso);
    var inserted := db.Insert(ackId, RecordBytes(L, record), io.insertOk);
    if !inserted {
      return Err(DbInsert);
    }
    if !io.flushOk {
      return Err(DbFlush);
    }
    return Ok(AckResp(ackId, Delivered));
  }

  // ---------------------------------------------------------------------
  // Properties of /ack.

  /** Expiry is inclusive: once the proof and envelope pass, the request is
      admitted exactly when `now` is not after `exp`, and refused as
      Expired otherwise. */
  lemma ExpiryRule(L: Libs, keys: KeyStore, req: AckReq, now: int, hdr: JwsHeader, dat: DatPayload, exp: int)
    requires !IsBlank(req.proof)
    requires JwsVerify(L, req.datJws, Lookup(keys)) == Ok((hdr, dat))
    requires L.time.parse(dat.exp) == Some(exp)
    ensures Admit(L, keys, req, now) == if now <= exp then Ok((hdr, dat)) else Err(Expired)
  {
    TrimEmptyIffBlank(req.proof);
  }

  /** An `exp` that does not parse is refused after the envelope check. */
  lemma UnparseableExp(L: Libs, keys: KeyStore, req: AckReq, now: int, hdr: JwsHeader, dat: DatPayload)
    requires !IsBlank(req.proof)
    requires JwsVerify(L, req.datJws, Lookup(keys)) == Ok((hdr, dat))
    requires L.time.parse(dat.exp).None?
    ensures Admit(L, keys, req, now) == Err(BadExp)
  {
    TrimEmptyIffBlank(req.proof);
  }

  /** The proof is only checked for being non-blank: any two non-blank
      proofs lead to the same decision. */
  lemma ProofContentIgnored(L: Libs, keys: KeyStore, req: AckReq, proof: string, now: int)
    requires !IsBlank(req.proof) && !IsBlank(proof)
    ensures Admit(L, keys, req.(proof := proof), now) == Admit(L, keys, req, now)
  {
    TrimEmptyIffBlank(req.proof);
    TrimEmptyIffBlank(proof);
  }

  /** A DAT signed by a key in the store, not yet expired, with a non-blank
      proof is admitted with its header and payload. */
  lemma SignedDatAdmitted(L: Libs, keys: KeyStore, req: AckReq, now: int, d: DatPayload,
                          kid: string, sk: seq<byte>, exp: int)
    requires Lawful(L)
    requires kid in keys && keys[kid] == L.ed25519.publicKey(sk)
    requires req.datJws == JwsSign(L, PayloadText(L, d), kid, sk)
    requires !IsBlank(req.proof)
    requires L.time.parse(d.exp) == Some(exp) && now <= exp
    ensures Admit(L, keys, req, now) == Ok((JwsHeader(Alg, kid), d))
  {
    VerifySignedPayload(L, d, kid, sk, Lookup(keys));
    ExpiryRule(L, keys, req, now, JwsHeader(Alg, kid), d, exp);
  }

  // ---------------------------------------------------------------------
  // POST /verify.

  datatype VerifyReq = VerifyReq(datJws: string, msgDigestB64: Option<string>)

  datatype VerifyResp = VerifyResp(kid: string, dat: DatPayload, digestMatch: Option<bool>)

  /** `handle_verify`: the envelope's header and payload, and whether the
      client's digest (when it sent one) is the one the DAT binds. It reads
      the key store only; refusals are status 400. */
  function HandleVerify(L: Libs, keys: KeyStore, req: VerifyReq): (r: Result<VerifyResp, JwsError>)
    ensures r.Err? <==> JwsVerify(L, req.datJws, Lookup(keys)).Err?
    ensures r.Err? ==> JwsVerify(L, req.datJws, Lookup(keys)) == Err(r.error)
    ensures r.Ok? ==> JwsVerify(L, req.datJws, Lookup(keys)) == Ok((JwsHeader(Alg, r.value.kid), r.value.dat))
    ensures r.Ok? ==> (r.value.digestMatch.None? <==> req.msgDigestB64.None?)
    ensures r.Ok? && req.msgDigestB64.Some? ==>
      r.value.digestMatch == Some(req.msgDigestB64.value == r.value.dat.msgDigestB64)
  {
    var verified :- JwsVerify(L, req.datJws, Lookup(keys));
    var digestMatch :=
      match req.msgDigestB64
      case None => None
      case Some(d) => Some(d == verified.1.msgDigestB64);
    Ok(VerifyResp(verified.0.kid, verified.1, digestMatch))
  }

  /** The response body of /verify: `{"ok": true, "kid", "dat",
      "digest_match"}`, where `digest_match` is null when no digest was sent. */
  function VerifyRespJson(resp: VerifyResp): (r: Value)
    ensures r.Object? && r.fields.Keys == {"ok", "kid", "dat", "digest_match"}
    ensures r.fields["ok"] == Bool(true)
    ensures r.fields["digest_match"] == Null <==> resp.digestMatch.None?
  {
    Object(map[
      "ok" := Bool(true),
      "kid" := Str(resp.kid),
      "dat" := PayloadToJson(resp.dat),
      "digest_match" := match resp.digestMatch case None => Null case Some(b) => Bool(b)])
  }

  /** A /verify body as a client reads it back. */
  function VerifyRespFromJson(v: Value): Option<VerifyResp> {
    var f :- Members(v, ["ok", "kid", "dat", "digest_match"]);
    if f[0] != Bool(true) then None
    else
      var kid :- f[1].AsStr();
      var dat :- PayloadFromJson(f[2]);
      match f[3]
      case Null => Some(VerifyResp(kid, dat, None))
      case Bool(b) => Some(VerifyResp(kid, dat, Some(b)))
      case _ => None
  }

  /** The /verify body carries the whole response: reading it back gives the
      header's kid, the DAT and the digest check. */
  lemma VerifyRespJsonRoundTrip(resp: VerifyResp)
    ensures VerifyRespFromJson(VerifyRespJson(resp)) == Some(resp)
  {
    PayloadJsonRoundTrip(resp.dat);
  }

  /** The body /verify sends for an accepted envelope: the verified kid and
      DAT, and `digest_match` null without a client digest, otherwise whether
      it equals the DAT's digest. */
  lemma VerifyBody(L: Libs, keys: KeyStore, req: VerifyReq)
    requires HandleVerify(L, keys, req).Ok?
    ensures var verified := JwsVerify(L, req.datJws, Lookup(keys)).value;
      var body := VerifyRespJson(HandleVerify(L, keys, req).value);
      && body.fields["kid"] == Str(verified.0.kid)
      && body.fields["digest_match"] ==
           (match req.msgDigestB64
            case None => Null
            case Some(d) => Bool(d == verified.1.msgDigestB64))
      && VerifyRespFromJson(body) == Some(VerifyResp(verified.0.kid, verified.1, HandleVerify(L, keys, req).value.digestMatch))
  {
    VerifyRespJsonRoundTrip(HandleVerify(L, keys, req).value);
  }

  /** A DAT signed for a known kid verifies, and the digest check is true
      exactly for the digest the DAT was built with; expiry plays no part. */
  lemma SignedDigestMatch(L: Libs, keys: KeyStore, d: DatPayload, kid: string, sk: seq<byte>, digest: string)
    requires Lawful(L)
    requires kid in keys && keys[kid] == L.ed25519.publicKey(sk)
    ensures var r := HandleVerify(L, keys, VerifyReq(JwsSign(L, PayloadText(L, d), kid, sk), Some(digest)));
      r == Ok(VerifyResp(kid, d, Some(digest == d.msgDigestB64)))
  {
    VerifySignedPayload(L, d, kid, sk, Lookup(keys));
  }

  // ---------------------------------------------------------------------
  // GET /receipts.

  /** The receipts a full scan yields: every entry that decodes as UTF-8
      JSON, in ledger order. */
  function Decoded(L: Libs, es: seq<Entry>): (items: seq<Value>)
    ensures |items| <= |es|
  {
    if es == [] then []
    else
      Decoded(L, es[..|es| - 1]) +
      match DecodeEntry(L, es[|es| - 1].value) case Some(j) => [j] case None => []
  }

  /** `list_receipts`: the body `{"receipts": [...]}` over a full scan. */
  method ListReceipts(L: Libs, db: Ledger) returns (body: Value)
    ensures body == ReceiptsJson(Decoded(L, db.entries))
  {
    var items := [];
    var k := 0;
    while k < |db.entries|
      invariant k <= |db.entries|
      invariant items == Decoded(L, db.entries[..k])
    {
      var v := db.entries[k].value;
      assert db.entries[..k + 1][..k] == db.entries[..k];
      var s := L.utf8.decode(v);
      if s.Some? {
        var j := L.json.parse(s.value);
        if j.Some? {
          items := items + [j.value];
        }
      }
      k := k + 1;
    }
    assert db.entries[..k] == db.entries;
    body := ReceiptsJson(items);
  }

  /** The response body of /receipts and /receipts/search: one member,
      "receipts", holding the items in order. */
  function ReceiptsJson(items: seq<Value>): (r: Value)
    ensures r.Object? && r.fields.Keys == {"receipts"}
    ensures r.Get("receipts") == Some(Array(items))
  {
    Object(map["receipts" := Array(items)])
  }

  /** A value is listed exactly when some stored entry decodes to it. */
  lemma {:induction false} DecodedMembers(L: Libs, es: seq<Entry>, v: Value)
    ensures v in Decoded(L, es) <==> exists i :: 0 <= i < |es| && DecodeEntry(L, es[i].value) == Some(v)
  {
    if es != [] {
      var init := es[..|es| - 1];
      DecodedMembers(L, init, v);
      if exists i :: 0 <= i < |init| && DecodeEntry(L, init[i].value) == Some(v) {
        var i :| 0 <= i < |init| && DecodeEntry(L, init[i].value) == Some(v);
        assert es[i] == init[i];
      }
      if exists i :: 0 <= i < |es| && DecodeEntry(L, es[i].value) == Some(v) {
        var i :| 0 <= i < |es| && DecodeEntry(L, es[i].value) == Some(v);
        if i < |init| {
          assert init[i] == es[i];
        }
      }
    }
  }

  /** After a successful /ack, the stored record is among the listed
      receipts (the storage layer's text forms are faithful). */
  lemma StoredRecordListed(L: Libs, es: seq<Entry>, ackId: seq<byte>, record: Value)
    requires Lawful(L)
    ensures record in Decoded(L, Put(es, ackId, RecordBytes(L, record)))
  {
    var r := Put(es, ackId, RecordBytes(L, record));
    PutGetSame(es, ackId, RecordBytes(L, record));
    var i :| 0 <= i < |r| && r[i] == Entry(ackId, RecordBytes(L, record));
    assert DecodeEntry(L, r[i].value) == Some(record);
    DecodedMembers(L, r, record);
  }

  // ---------------------------------------------------------------------
  // GET /receipts/search.

  datatype ReceiptQuery = ReceiptQuery(kid: Option<string>, since: Option<string>, limit: Option<nat>)

  /** A receipt's `stored_at`, when it is a string that parses. */
  function StoredAt(L: Libs, j: Value): Option<int> {
    var s :- StrField(j, "stored_at");
    L.time.parse(s)
  }

  /** The sort key of `search_receipts`. */
  function ReceiptKey(L: Libs): Value -> Option<int> {
    j => StoredAt(L, j)
  }

  /** `q.since`, when it parses; otherwise there is no time filter. */
  function SinceInstant(L: Libs, q: ReceiptQuery): Option<int> {
    var s :- q.since;
    L.time.parse(s)
  }

  /** The two filters: a receipt is dropped by `since` only when its
      `stored_at` parses to an earlier instant, and by `kid` only when it has
      a string `kid` that differs. */
  predicate Kept(L: Libs, j: Value, since: Option<int>, kid: Option<string>) {
    && !(since.Some? && StoredAt(L, j).Some? && StoredAt(L, j).value < since.value)
    && !(kid.Some? && StrField(j, "kid").Some? && StrField(j, "kid").value != kid.value)
  }

  /** The decodable receipts that pass both filters, in ledger order. */
  function Filtered(L: Libs, es: seq<Entry>, since: Option<int>, kid: Option<string>): seq<Value> {
    if es == [] then []
    else
      Filtered(L, es[..|es| - 1], since, kid) +
      match DecodeEntry(L, es[|es| - 1].value)
      case Some(j) => if Kept(L, j, since, kid) then [j] else []
      case None => []
  }

  /** `Vec::truncate` when the vector is longer than the limit. */
  function Truncate<T>(xs: seq<T>, limit: Option<nat>): (r: seq<T>)
    ensures limit.None? ==> r == xs
    ensures limit.Some? ==> |r| == (if |xs| < limit.value then |xs| else limit.value)
    ensures r == xs[..|r|]
  {
    if limit.Some? && |xs| > limit.value then xs[..limit.value] else xs
  }

  /** The result of a search: the filtered receipts, newest first, capped. */
  function Search(L: Libs, es: seq<Entry>, q: ReceiptQuery): seq<Value> {
    Truncate(Order.SortDesc(Filtered(L, es, SinceInstant(L, q), q.kid), ReceiptKey(L)), q.limit)
  }

  /** `search_receipts`: the body `{"receipts": [...]}` over the search. */
  method SearchReceipts(L: Libs, db: Ledger, q: ReceiptQuery) returns (body: Value)
    ensures body == ReceiptsJson(Search(L, db.entries, q))
  {
    var items := [];
    var sinceTs := if q.since.Some? then L.time.parse(q.since.value) else None;
    var k := 0;
    while k < |db.entries|
      invariant k <= |db.entries|
      invariant items == Filtered(L, db.entries[..k], sinceTs, q.kid)
    {
      var v := db.entries[k].value;
      assert db.entries[..k + 1][..k] == db.entries[..k];
      var s := L.utf8.decode(v);
      if s.Some? {
        var parsed := L.json.parse(s.value);
        if parsed.Some? {
          var j := parsed.value;
          var keep := true;
          var stxt := StrField(j, "stored_at");
          if stxt.Some? && sinceTs.Some? {
            var st := L.time.parse(stxt.value);
            if st.Some? && st.value < sinceTs.value {
              keep := false;
            }
          }
          if keep && q.kid.Some? {
            var kid := StrField(j, "kid");
            if kid.Some? && kid.value != q.kid.value {
              keep := false;
            }
          }
          assert keep == Kept(L, j, sinceTs, q.kid);
          if keep {
            items := items + [j];
          }
        }
      }
      k := k + 1;
    }
    assert db.entries[..k] == db.entries;
    items := Order.SortDesc(items, ReceiptKey(L));
    if q.limit.Some? && |items| > q.limit.value {
      items := items[..q.limit.value];
    }
    body := ReceiptsJson(items);
  }

  // ---------------------------------------------------------------------
  // Properties of the search.

  /** A receipt passes the search filters exactly when it is a stored,
      decodable receipt that is kept by both filters. */
  lemma {:induction false} FilteredMembers(L: Libs, es: seq<Entry>, since: Option<int>, kid: Option<string>, v: Value)
    ensures v in Filtered(L, es, since, kid) <==>
      Kept(L, v, since, kid) && exists i :: 0 <= i < |es| && DecodeEntry(L, es[i].value) == Some(v)
  {
    if es != [] {
      var init := es[..|es| - 1];
      FilteredMembers(L, init, since, kid, v);
      if exists i :: 0 <= i < |init| && DecodeEntry(L, init[i].value) == Some(v) {
        var i :| 0 <= i < |init| && DecodeEntry(L, init[i].value) == Some(v);
        assert es[i] == init[i];
      }
      if exists i :: 0 <= i < |es| && DecodeEntry(L, es[i].value) == Some(v) {
        var i :| 0 <= i < |es| && DecodeEntry(L, es[i].value) == Some(v);
        if i < |init| {
          assert init[i] == es[i];
        }
      }
    }
  }

  /** Receipts without a usable `stored_at` pass the time filter, and
      receipts without a string `kid` pass the kid filter. */
  lemma UndatedAndUnattributedKept(L: Libs, j: Value, since: Option<int>, kid: Option<string>)
    requires StoredAt(L, j).None? || since.None?
    requires StrField(j, "kid").None? || kid.None? || StrField(j, "kid") == kid
    ensures Kept(L, j, since, kid)
  {
  }

  /** A `since` that does not parse filters nothing by time: the search is
      the one without `since`. */
  lemma UnparseableSinceIgnored(L: Libs, es: seq<Entry>, q: ReceiptQuery)
    requires q.since.Some? && L.time.parse(q.since.value).None?
    ensures Search(L, es, q) == Search(L, es, q.(since := None))
  {
  }

  /** With no filters every decodable receipt passes: the unfiltered
      search holds the listed receipts, each as often as listed. */
  lemma {:induction false} NoFilterKeepsAll(L: Libs, es: seq<Entry>)
    ensures Filtered(L, es, None, None) == Decoded(L, es)
  {
    if es != [] {
      NoFilterKeepsAll(L, es[..|es| - 1]);
    }
  }

  lemma UnfilteredSearchIsListing(L: Libs, es: seq<Entry>)
    ensures multiset(Search(L, es, ReceiptQuery(None, None, None))) == multiset(Decoded(L, es))
  {
    NoFilterKeepsAll(L, es);
    Order.SortPermutes(Decoded(L, es), ReceiptKey(L));
  }

  /** The search result is newest first, is a prefix of the full ordered
      result, has length min(matches, limit), and holds only receipts that
      pass the filters. */
  lemma SearchShape(L: Libs, es: seq<Entry>, q: ReceiptQuery)
    ensures var all := Order.SortDesc(Filtered(L, es, SinceInstant(L, q), q.kid), ReceiptKey(L));
      var r := Search(L, es, q);
      && Order.SortedDesc(r, ReceiptKey(L))
      && r == all[..|r|]
      && |r| == (if q.limit.Some? && q.limit.value < |all| then q.limit.value else |all|)
      && forall v :: v in r ==> Kept(L, v, SinceInstant(L, q), q.kid)
  {
    var f := Filtered(L, es, SinceInstant(L, q), q.kid);
    var all := Order.SortDesc(f, ReceiptKey(L));
    var r := Search(L, es, q);
    Order.SortSorted(f, ReceiptKey(L));
    Order.SortPermutes(f, ReceiptKey(L));
    forall v | v in r ensures Kept(L, v, SinceInstant(L, q), q.kid) {
      assert v in all;
      assert v in multiset(f);
      FilteredMembers(L, es, SinceInstant(L, q), q.kid, v);
    }
  }

  /** Receipts stored at the same instant (or all undated ones) come out in
      ledger order when no limit is set. */
  lemma SearchStable(L: Libs, es: seq<Entry>, q: ReceiptQuery, k: Option<int>)
    requires q.limit.None?
    ensures Order.WithKey(Search(L, es, q), ReceiptKey(L), k)
         == Order.WithKey(Filtered(L, es, SinceInstant(L, q), q.kid), ReceiptKey(L), k)
  {
    Order.SortStable(Filtered(L, es, SinceInstant(L, q), q.kid), ReceiptKey(L), k);
  }

  /** `limit=1` returns one newest matching receipt. */
  lemma LimitOneNewest(L: Libs, es: seq<Entry>, q: ReceiptQuery)
    requires q.limit == Some(1)
    requires Filtered(L, es, SinceInstant(L, q), q.kid) != []
    ensures |Search(L, es, q)| == 1
    ensures forall v :: v in Filtered(L, es, SinceInstant(L, q), q.kid) ==>
      !Order.Less(StoredAt(L, Search(L, es, q)[0]), StoredAt(L, v))
  {
    var f := Filtered(L, es, SinceInstant(L, q), q.kid);
    Order.SortHeadNewest(f, ReceiptKey(L));
    Order.SortPermutes(f, ReceiptKey(L));
    assert f[0] in multiset(Order.SortDesc(f, ReceiptKey(L)));
  }
}

# zkack-demo-phase0 in Dafny

zkack-demo-phase0 is a delivery-acknowledgment prototype. A sender's
signer binds a message to a signed *delivery acknowledgment token* (DAT).
The DAT is a compact JWS (EdDSA) over a JSON payload. That payload holds a
salted hash of the recipient address, the message digest, an expiry, a
nonce and a fallback policy. The signer injects the DAT into the message as
an `X-ZK-DAT` header. On the receiving side, the verification service checks
acknowledgments that carry the DAT and a (mock) proof, and records each
accepted one as a receipt in a sled-backed ledger. The same service also
verifies DATs on request and lists and searches the stored receipts.

This project models the core of that system and proves properties of it:

- the DAT data model and its JSON forms;
- the JWS envelope (`jws_sign` / `jws_verify`), including its error order;
- the digest selector binary and its DKIM body-hash extractor;
- the signer's own extractor, kid resolution, payload construction and
  header injection;
- the verification service's `/ack`, `/verify`, `/receipts` and
  `/receipts/search` logic over a ledger object;
- the mock proof system.

Files (one module each):

| file | module | models |
|---|---|---|
| `text.dfy` | `Text` | Option/Result, and the Rust `str` operations the code uses (`trim`, `lines`, `find`, `split`, `split_once`, ASCII lower-casing) |
| `base64url.dfy` | `Base64Url` | unpadded base64url of section 5 of RFC 4648, with the strict decoder of the `base64` crate |
| `json.dfy` | `Json` | `serde_json::Value` |
| `foreign.dfy` | `Foreign` | UTF-8, serde_json text, Ed25519, BLAKE3 and RFC 3339 as function-valued parameters, with their laws in `Lawful` |
| `spec_lib.dfy` | `ZkackSpec` | `crates/zkack-spec/src/lib.rs` |
| `digest.dfy` | `DigestBin` | `crates/zkack-spec/src/bin/digest.rs` |
| `signer.dfy` | `Signer` | `crates/zkack-signer/src/main.rs` |
| `receipt_order.dfy` | `ReceiptOrder` | the stable newest-first sort of `search_receipts` |
| `verifier.dfy` | `Verifier` | `crates/zkack-verifier/src/main.rs` |
| `circuits.dfy` | `Circuits` | `crates/zkack-circuits/src/lib.rs` |

Design choices:

- The foreign libraries (UTF-8, serde_json's text form, ed25519-dalek,
  blake3, the `time` crate's RFC 3339) have no Dafny code. Each is a
  function-valued field of `Foreign.Libs`. The only facts assumed about
  them are the laws in `Foreign.Lawful`:
  - decoding undoes encoding;
  - parsing undoes rendering;
  - an Ed25519 signature is 64 bytes and verifies under the signer's own
    public key;
  - a BLAKE3 digest is 32 bytes.

  Every theorem that needs one of these laws takes `Lawful(L)` as a
  precondition.
- Base64url and the JSON value tree are written out concretely.
- Instants are integers counting nanoseconds.
- Clock readings, the fresh receipt id and the random salt and nonce are
  parameters.
- The outcome of each storage write is a parameter.
- The sled database is the class `Verifier.Ledger`. It holds a sequence of
  key/value entries in insertion order, standing in for sled's key order.
  `Ledger.Insert` changes it in place.
- The scanning loops are methods with loop invariants, each proved equal
  to a reference function. This covers both `find_dkim_bh` functions, the
  header injection, `list_receipts` and `search_receipts`.
- Character positions stand in for the byte positions Rust uses. Every
  position computed in the core is just after an ASCII match, so the two
  agree.

Behaviour of the code that a reader might not expect, which the model keeps:

- `search_receipts` keeps receipts whose `stored_at` does not parse, even
  when `since` is given. It drops a receipt only when a parsed `stored_at`
  is earlier. `Verifier.UndatedAndUnattributedKept` states this.
- The digest selector splits the header block at the first "\r\n\r\n"
  anywhere in the message, and looks for "\n\n" only when there is none.
  In a message that mixes line endings, a blank line written "\n\n" does
  not end the headers if a "\r\n\r\n" comes later, so a DKIM-Signature
  in what reads as the body can supply the hash.
  `DigestBin.MixedLineEndings` and `DigestBin.MixedLineEndingsExample`
  state this.
- When the flush fails after a successful insert, `handle_ack` answers 500,
  but the receipt stays in the ledger. `Verifier.HandleAck` states this.
- The signer returns the DKIM `bh=` value exactly as written. It does not
  convert it to unpadded base64url the way the digest selector does. So for
  a padded body hash (every SHA-256 `bh=` ends in `=`), the signer's
  `msg_digest_b64` differs from the digest selector's.
  `Signer.CaptureNotNormalised` and `Signer.PaddedHashDisagrees` state
  this.

## Model

| member | source | states |
|---|---|---|
| Text.TrimEmptyIffBlank | crates/zkack-verifier/src/main.rs:55 | `s.trim().is_empty()` holds exactly when every character of `s` is Unicode white space |
| Text.TrimStartSpec | crates/zkack-spec/src/bin/digest.rs:43 | `trim_start` removes a maximal run of leading white space and keeps the rest as a suffix |
| Text.TrimEndSpec | crates/zkack-spec/src/bin/digest.rs:43 | `trim_end` removes a maximal run of trailing white space and keeps the rest as a prefix |
| Base64Url.DecodeEncode | crates/zkack-spec/src/lib.rs:9-14 | decoding the unpadded base64url encoding of any bytes gives those bytes back |
| Base64Url.EncodeDecode | crates/zkack-spec/src/lib.rs:9-14 | any text the strict decoder accepts is exactly the encoding of what it decodes to |
| Base64Url.DecodeInjective | crates/zkack-spec/src/lib.rs:12-14 | two texts that decode to the same bytes are the same text |
| Base64Url.NoDot | crates/zkack-spec/src/lib.rs:9-11 | an encoding never contains '.', so it can be a JWS segment |
| ZkackSpec.StringListRoundTrip | crates/zkack-spec/src/lib.rs:17-20 | a `Vec<String>` read back from its JSON array is the same list |
| ZkackSpec.HeaderJsonRoundTrip | crates/zkack-spec/src/lib.rs:34-38 | a `JwsHeader` read back from its JSON object is the same header |
| ZkackSpec.PayloadMembers | crates/zkack-spec/src/lib.rs:22-32 | the serialised payload holds each of the eight fields under its serde name |
| ZkackSpec.PayloadJsonRoundTrip | crates/zkack-spec/src/lib.rs:16-32 | a `DatPayload` read back from its JSON value is the same payload |
| ZkackSpec.PayloadTextRoundTrip | crates/zkack-spec/src/lib.rs:16-32 | under faithful serde_json, `from_str(to_string(d))` is `d` |
| ZkackSpec.JwsSign | crates/zkack-spec/src/lib.rs:41-52 | the token has exactly three '.'-separated segments: they decode to the `{alg: EdDSA, kid}` header bytes, to the payload bytes, and to the signature over the first two segments as transmitted |
| ZkackSpec.JwsVerify | crates/zkack-spec/src/lib.rs:54-76 | anything other than three segments is BadFormat; success means the header decodes and parses with alg EdDSA, the kid is known, the 64-byte signature verifies over the transmitted segments, and the payload parses to the returned DAT; the four lemmas below say when each later error is returned |
| ZkackSpec.UnsupportedAlgRejected | crates/zkack-spec/src/lib.rs:62-66 | a well-formed header naming any algorithm but EdDSA gives UnsupportedAlg, for every key lookup |
| ZkackSpec.UnknownKidRejected | crates/zkack-spec/src/lib.rs:64-68 | an EdDSA header, a payload segment that decodes to text and a lookup returning None for the kid give UnknownKid |
| ZkackSpec.SigParseRejected | crates/zkack-spec/src/lib.rs:68-71 | with the key found, a signature segment decoding to anything but 64 bytes gives SigParse |
| ZkackSpec.VerifyFailedRejected | crates/zkack-spec/src/lib.rs:68-73 | with the key found, a 64-byte signature that Ed25519 rejects over the transmitted first two segments gives VerifyFailed, before the payload is parsed |
| ZkackSpec.SignedUnknownKid | crates/zkack-spec/src/lib.rs:41-68 | a token from `jws_sign` whose kid the key store lacks gives UnknownKid, kept apart from a signature failure |
| ZkackSpec.KeyLookupAfterAlgorithmCheck | crates/zkack-spec/src/lib.rs:58-67 | format, base64, UTF-8, header-JSON and algorithm failures happen before the key lookup, so no key store can change them |
| ZkackSpec.UnknownKidBeforeSignature | crates/zkack-spec/src/lib.rs:68-70 | an unknown kid is reported whatever the signature segment holds |
| ZkackSpec.VerifySigned | crates/zkack-spec/src/lib.rs:41-76 | a token signed for `kid` verifies against a lookup giving the signer's public key, returning `{EdDSA, kid}` and the parsed payload; a payload text that does not parse fails only at the last step |
| ZkackSpec.VerifySignedPayload | crates/zkack-spec/src/lib.rs:41-76 | round trip: `jws_verify(jws_sign(to_string(d), kid, sk))` returns `({EdDSA, kid}, d)` for every `d`, whatever its `exp` |
| ZkackSpec.DigestShape | crates/zkack-spec/src/lib.rs:79-82 | `blake3_b64` is 43 URL-safe characters with no '.', and it decodes to the 32-byte digest |
| DigestBin.HeaderBlock | crates/zkack-spec/src/bin/digest.rs:9-11 | there is no header block exactly when neither "\r\n\r\n" nor "\n\n" occurs; when "\r\n\r\n" occurs, the block is the text before its first occurrence, and otherwise the text before the first "\n\n" |
| DigestBin.Piece | crates/zkack-spec/src/bin/digest.rs:17-28 | each collected line adds a non-empty piece that ends with a space |
| DigestBin.Collected | crates/zkack-spec/src/bin/digest.rs:14-33 | the collected value is empty exactly when no header line opens a DKIM-Signature field |
| DigestBin.CollectDkim | crates/zkack-spec/src/bin/digest.rs:14-33 | the scan collects the first DKIM-Signature line and the following folded or DKIM-Signature lines, up to the first other line |
| DigestBin.CollectedFromScan | crates/zkack-spec/src/bin/digest.rs:16-31 | a scan that starts at the first opening line and stops at the first line that neither folds nor opens a field yields the reference value |
| DigestBin.SecondSignatureAppended | crates/zkack-spec/src/bin/digest.rs:16-22 | a second DKIM-Signature line right after the first is appended to the value rather than ending it |
| DigestBin.CollectedNone | crates/zkack-spec/src/bin/digest.rs:34-36 | without an opening line nothing is collected |
| DigestBin.TagEnd | crates/zkack-spec/src/bin/digest.rs:42 | the end is the position of the first ';' (no ';' before it), or the length when the text holds no ';' |
| DigestBin.Normalize | crates/zkack-spec/src/bin/digest.rs:50-54 | each character of the result is the input's character at the same position, with '+' mapped to '-', '/' to '_' and every other character kept; only the trailing run of '=' is dropped, so the result has no '+' or '/' and no trailing '=' |
| DigestBin.BhTag | crates/zkack-spec/src/bin/digest.rs:39-55 | every body hash found is in unpadded URL-safe form |
| DigestBin.BhTagValue | crates/zkack-spec/src/bin/digest.rs:39-55 | with the first case-insensitive "bh=" followed by `v` up to the next ';' or the end, the result is `v` trimmed and normalised, or None when `v` is blank |
| DigestBin.BhTagAbsent | crates/zkack-spec/src/bin/digest.rs:39-40 | a value with no "bh=" in any letter case gives None |
| DigestBin.FindDkimBh | crates/zkack-spec/src/bin/digest.rs:7-56 | the method computes exactly the reference body hash of the message |
| DigestBin.SelectDigest | crates/zkack-spec/src/bin/digest.rs:63-67 | the result is ("dkim-bh", bh) exactly when a body hash is found, and ("blake3", blake3_b64(raw bytes)) otherwise |
| DigestBin.NoBlankLineNoHash | crates/zkack-spec/src/bin/digest.rs:9-11 | with neither separator in the text, there is no body hash |
| DigestBin.NoSignatureNoHash | crates/zkack-spec/src/bin/digest.rs:34-36 | without a DKIM-Signature line in the header block, there is no body hash |
| DigestBin.BodyIgnored | crates/zkack-spec/src/bin/digest.rs:9-16 | when the first "\r\n\r\n" ends the headers, whatever follows it (a DKIM-Signature included) does not change the result |
| DigestBin.BodyIgnoredLf | crates/zkack-spec/src/bin/digest.rs:9-16 | when the message has no "\r\n\r\n" at all and the first "\n\n" ends the headers, whatever follows it does not change the result |
| DigestBin.FirstBlankLineLf | crates/zkack-spec/src/bin/digest.rs:9-11 | with no "\r\n\r\n" anywhere, the header block is exactly the headers before the first "\n\n" |
| DigestBin.MixedLineEndings | crates/zkack-spec/src/bin/digest.rs:9-32 | a "\r\n\r\n" later in the message wins over an earlier "\n\n" blank line: the header block runs past that blank line and the body hash is read from a DKIM-Signature line that follows it |
| DigestBin.MixedLineEndingsExample | crates/zkack-spec/src/bin/digest.rs:7-55 | the message "From: a\n\nDKIM-Signature: bh=X;\r\n\r\nz" gets the body hash "X", although its signature follows the first blank line |
| DigestBin.FirstBlankLine | crates/zkack-spec/src/bin/digest.rs:9-10 | when "\r\n\r\n" first occurs right after the headers, the header block is exactly those headers |
| DigestBin.LowerCasePositionValid | crates/zkack-spec/src/bin/digest.rs:39-41 | a "bh=" position found in the lower-cased copy is in range in the original, which holds "bh=" there in some letter case |
| DigestBin.NormalizeKeepsUrlSafe | crates/zkack-spec/src/bin/digest.rs:50-54 | an already URL-safe, unpadded hash is left unchanged |
| DigestBin.NormalizeIdempotent | crates/zkack-spec/src/bin/digest.rs:50-54 | normalising twice is the same as normalising once |
| Signer.Collected | crates/zkack-signer/src/main.rs:36-53 | the buffer is empty exactly when no line of the message opens a DKIM-Signature field |
| Signer.FirstMatch | crates/zkack-signer/src/main.rs:58-59 | the leftmost position where the `bh=` pattern matches at a word boundary, if there is one |
| Signer.Capture | crates/zkack-signer/src/main.rs:58-60 | there is a capture exactly when the pattern matches; the capture is the whole run of tag characters right after that leftmost match's "bh=": non-empty, with no ';' or white space, and followed by the end or a character outside the class |
| Signer.FirstMatchUnique | crates/zkack-signer/src/main.rs:58-59 | the leftmost match is the first position where the pattern matches |
| Signer.FindDkimBh | crates/zkack-signer/src/main.rs:34-61 | the method computes exactly the reference body hash: the first DKIM-Signature line and the folded lines right after it are collected, then the first `bh=` value is captured |
| Signer.CollectedFromScan | crates/zkack-signer/src/main.rs:38-52 | a scan that starts at the first opening line anywhere in the message and stops at the first non-folded line yields the reference buffer |
| Signer.SelectDigest | crates/zkack-signer/src/main.rs:69-73 | the result is ("dkim-bh", bh) exactly when the signer's extractor finds one, and ("blake3", blake3_b64(raw bytes)) otherwise |
| Signer.ResolveKid | crates/zkack-signer/src/main.rs:79-87 | it fails exactly when `--kid` is given and differs from the key file's kid; otherwise it yields the file's kid |
| Signer.SigningKey | crates/zkack-signer/src/main.rs:89-90 | it succeeds exactly when `sk_b64` decodes to 32 bytes, which are the key; a base64 failure is reported as such, before the length check |
| Signer.AsI64 | crates/zkack-signer/src/main.rs:96 | `ack_by_secs as i64` is the two's-complement reading of the u64 |
| Signer.BuildDat | crates/zkack-signer/src/main.rs:93-113 | v = 1, policy = (ack_by_secs, ["portal", "sms"]), digest fields from the selection, the salt and nonce recoverable from their encodings, the salted address hash, and exp = now + ack_by_secs seconds |
| Signer.InjectHeader | crates/zkack-signer/src/main.rs:117-130 | the loop computes exactly the reference output: the header goes before the first blank line, or in front of the text when there is none |
| Signer.Sign | crates/zkack-signer/src/main.rs:69-130 | it fails exactly on a kid mismatch or a bad key, in that order; on success the output is the message with the header carrying the token signed over the built DAT, whose digest is the DKIM bh exactly when the signer's extractor finds one, and BLAKE3 of the raw bytes otherwise |
| Signer.NoSignatureNoHash | crates/zkack-signer/src/main.rs:54-56 | without a DKIM-Signature line there is no body hash |
| Signer.FirstNonFoldedStops | crates/zkack-signer/src/main.rs:46-51 | the first line after the opening one that is not folded ends collection, and only the opening line is kept |
| Signer.SecondSignatureStops | crates/zkack-signer/src/main.rs:46-51 | a second DKIM-Signature line right after the first stops collection, and only the first line is kept |
| Signer.DkimStartNotFolded | crates/zkack-signer/src/main.rs:40-46 | a line opening a DKIM-Signature field is never a folded line |
| Signer.CaptureNotNormalised | crates/zkack-signer/src/main.rs:58-60 | with the leftmost match after `pre` at a word boundary and `v` ended by `stop`, the capture is `v` as written, padding and '+' or '/' included |
| Signer.PaddedHashDisagrees | crates/zkack-signer/src/main.rs:58-60 | a padded body hash from the signer never equals the digest selector's result for the same message |
| Signer.CrLfLinesSplit | crates/zkack-signer/src/main.rs:120-127 | the copied lines split at any point into the part before and the part after |
| Signer.InjectionBeforeFirstBlank | crates/zkack-signer/src/main.rs:118-127 | with a blank line, the output is every input line in order, each followed by "\r\n", with exactly one `X-ZK-DAT` line inserted immediately before the first blank line |
| Signer.InjectionWithoutBlank | crates/zkack-signer/src/main.rs:128-130 | without a blank line, the output is `X-ZK-DAT: <jws>\r\n` followed by the unmodified text |
| Signer.SignedTokenVerifies | crates/zkack-signer/src/main.rs:114-115 | the emitted token verifies, under the signing key's public key, to `{EdDSA, kid}` and the very DAT built |
| ReceiptOrder.InsertPermutes | crates/zkack-verifier/src/main.rs:199-207 | inserting adds exactly the one receipt |
| ReceiptOrder.InsertSorted | crates/zkack-verifier/src/main.rs:199-207 | inserting into a newest-first sequence keeps it newest first |
| ReceiptOrder.InsertStable | crates/zkack-verifier/src/main.rs:199-207 | the inserted receipt goes after all receipts with the same key, and their order is kept |
| ReceiptOrder.NoneWithKey | crates/zkack-verifier/src/main.rs:199-207 | in a newest-first sequence whose head is older than `k`, no receipt has key `k` |
| ReceiptOrder.WithKeyAppend | crates/zkack-verifier/src/main.rs:199-207 | selecting the receipts with one key distributes over concatenation |
| ReceiptOrder.SortPermutes | crates/zkack-verifier/src/main.rs:199-207 | the sort returns the same receipts, each as often as given |
| ReceiptOrder.SortSorted | crates/zkack-verifier/src/main.rs:199-207 | the result is newest first by parsed `stored_at`, with receipts lacking one last |
| ReceiptOrder.SortStable | crates/zkack-verifier/src/main.rs:199-207 | the sort is stable: receipts with equal keys keep their input order |
| ReceiptOrder.SortHeadNewest | crates/zkack-verifier/src/main.rs:199-207 | the first result has a key no smaller than any input receipt's |
| Verifier.HexDigit | crates/zkack-verifier/src/main.rs:80 | each nibble's digit is a lower-case hex digit |
| Verifier.Hex | crates/zkack-verifier/src/main.rs:80 | two lower-case hex digits per byte |
| Verifier.HexAt | crates/zkack-verifier/src/main.rs:80 | byte `j` is spelt at positions 2j and 2j+1, high nibble first |
| Verifier.UuidText | crates/zkack-verifier/src/main.rs:80 | the receipt id's JSON text has 36 characters, with '-' exactly at positions 8, 13, 18 and 23 |
| Verifier.UuidDigit | crates/zkack-verifier/src/main.rs:80 | byte `i` of the id is spelt, high nibble first, at its place in the 8-4-4-4-12 groups |
| Verifier.UuidTextDigits | crates/zkack-verifier/src/main.rs:80 | every byte of the id is spelt at its place in the text |
| Verifier.HexDigitDistinct | crates/zkack-verifier/src/main.rs:80 | different nibbles have different digits |
| Verifier.UuidTextInjective | crates/zkack-verifier/src/main.rs:74-80 | different receipt ids give different `ack_id` texts |
| Verifier.Get | crates/zkack-verifier/src/main.rs:91-93 | the lookup fails exactly when no entry has the key; otherwise it returns that entry's value |
| Verifier.GetDistinct | crates/zkack-verifier/src/main.rs:91-93 | in a ledger with distinct keys, each entry is what the lookup returns for its key |
| Verifier.Put | crates/zkack-verifier/src/main.rs:91-93 | an insert grows the ledger by one exactly when the key is new |
| Verifier.PutGetSame | crates/zkack-verifier/src/main.rs:91-93 | after an insert, the key holds the new value |
| Verifier.PutGetOther | crates/zkack-verifier/src/main.rs:91-93 | an insert leaves every other key's value as it was |
| Verifier.PutAppends | crates/zkack-verifier/src/main.rs:91-93 | a new key adds exactly one entry, at the end of the sequence (insertion order, standing in for sled's key order) |
| Verifier.PutKeys | crates/zkack-verifier/src/main.rs:91-93 | an insert changes no existing key |
| Verifier.PutKeepsDistinct | crates/zkack-verifier/src/main.rs:91-93 | an insert keeps every key stored once |
| Verifier.Ledger.Insert | crates/zkack-verifier/src/main.rs:91-99 | a refused write changes nothing; an accepted one puts the value under the key, keeping keys distinct |
| Verifier.AckStatus | crates/zkack-verifier/src/main.rs:46-105 | an empty proof is 400, storage failures are 500, and every other refusal is 422 |
| Verifier.Admit | crates/zkack-verifier/src/main.rs:54-71 | EmptyProof exactly for a blank proof; an envelope error exactly when the proof is not blank and `jws_verify` fails, carrying its error; admission means the envelope verifies and `exp` parses to an instant not before `now` |
| Verifier.Record | crates/zkack-verifier/src/main.rs:73-89 | the record carries the receipt id's text, the header's kid, the DAT, `dkim_pass` defaulting to true, and `stored_at` |
| Verifier.RecordMembers | crates/zkack-verifier/src/main.rs:79-89 | the record is an object with exactly the nine members `ack_id`, `kid`, `dat`, `received_ts`, `recv_domain`, `recv_domain_sig`, `msg_id`, `dkim_pass` and `stored_at` |
| Verifier.RecordRequestFields | crates/zkack-verifier/src/main.rs:83-86 | `received_ts` and `recv_domain` are copied from the request; `recv_domain_sig` and `msg_id` are its strings when given and `null` when absent |
| Verifier.HandleAck | crates/zkack-verifier/src/main.rs:50-111 | refusals before the write leave the ledger unchanged; otherwise exactly the new record goes under the new id; an insert failure writes nothing; a flush failure answers 500 but keeps the record; success answers (id, DELIVERED) |
| Verifier.ExpiryRule | crates/zkack-verifier/src/main.rs:63-71 | after the envelope passes, the request is admitted exactly when `now <= exp` (`now == exp` is accepted), and is Expired otherwise |
| Verifier.UnparseableExp | crates/zkack-verifier/src/main.rs:64-65 | an `exp` that does not parse is refused with 422 |
| Verifier.ProofContentIgnored | crates/zkack-verifier/src/main.rs:54-57 | the proof is only checked for being non-blank: any two non-blank proofs give the same decision |
| Verifier.SignedDatAdmitted | crates/zkack-verifier/src/main.rs:59-71 | an unexpired DAT signed by a key in the store, sent with a non-blank proof, is admitted with its header and payload |
| Verifier.HandleVerify | crates/zkack-verifier/src/main.rs:113-131 | it fails exactly when `jws_verify` fails (status 400); `digest_match` is None exactly when no digest was sent, and otherwise whether it equals the DAT's `msg_digest_b64` |
| Verifier.VerifyRespJson | crates/zkack-verifier/src/main.rs:125-130 | the /verify body has exactly the members "ok", "kid", "dat" and "digest_match"; "ok" is true, and "digest_match" is null exactly when no digest was sent |
| Verifier.VerifyRespJsonRoundTrip | crates/zkack-verifier/src/main.rs:125-130 | reading the /verify body back gives the kid, the DAT and the digest check it was built from |
| Verifier.VerifyBody | crates/zkack-verifier/src/main.rs:117-130 | for an accepted envelope the body carries the verified kid and DAT, and "digest_match" is null without a client digest, otherwise whether it equals the DAT's digest |
| Verifier.SignedDigestMatch | crates/zkack-verifier/src/main.rs:117-123 | a DAT signed for a known kid verifies, and the digest check is true exactly for the DAT's own digest; expiry plays no part |
| Verifier.Decoded | crates/zkack-verifier/src/main.rs:136-146 | a listing has no more receipts than the ledger has entries |
| Verifier.ListReceipts | crates/zkack-verifier/src/main.rs:133-147 | the body is `{"receipts": [...]}` over exactly the entries that decode as UTF-8 JSON, in the ledger's order (insertion order, standing in for sled's key order) |
| Verifier.ReceiptsJson | crates/zkack-verifier/src/main.rs:146 | the body of /receipts and /receipts/search is an object whose one member, "receipts", holds the items in order |
| Verifier.DecodedMembers | crates/zkack-verifier/src/main.rs:136-146 | a value is listed exactly when some stored entry decodes to it |
| Verifier.StoredRecordListed | crates/zkack-verifier/src/main.rs:91-93 | after an accepted insert, the stored record is among the listed receipts |
| Verifier.Truncate | crates/zkack-verifier/src/main.rs:209-213 | the capped result is a prefix of length min(len, limit), or everything when there is no limit |
| Verifier.SearchReceipts | crates/zkack-verifier/src/main.rs:158-216 | the body is `{"receipts": [...]}` over exactly the reference search: filter, then stable newest-first sort, then cap |
| Verifier.FilteredMembers | crates/zkack-verifier/src/main.rs:167-196 | a receipt passes the scan exactly when it is a stored, decodable receipt that both filters keep |
| Verifier.UndatedAndUnattributedKept | crates/zkack-verifier/src/main.rs:171-191 | receipts without a parseable `stored_at` pass the time filter, and receipts without a string kid pass the kid filter |
| Verifier.UnparseableSinceIgnored | crates/zkack-verifier/src/main.rs:163-165 | a `since` that does not parse filters nothing by time |
| Verifier.NoFilterKeepsAll | crates/zkack-verifier/src/main.rs:167-196 | with no `kid` and no `since`, the scan keeps exactly the listed receipts |
| Verifier.UnfilteredSearchIsListing | crates/zkack-verifier/src/main.rs:158-216 | a search with no parameters returns the listed receipts, each as often as listed |
| Verifier.SearchShape | crates/zkack-verifier/src/main.rs:198-213 | the result is newest first, is a prefix of the full ordered result of length min(matches, limit), and holds only receipts the filters keep |
| Verifier.SearchStable | crates/zkack-verifier/src/main.rs:199-207 | receipts with the same `stored_at`, or with none, come out in the ledger's order (insertion order, standing in for sled's key order) |
| Verifier.LimitOneNewest | crates/zkack-verifier/src/main.rs:199-213 | `limit=1` returns a single receipt whose `stored_at` is no older than any matching receipt's |
| Circuits.Prove | crates/zkack-circuits/src/lib.rs:17-19 | `prove` never fails |
| Circuits.Verify | crates/zkack-circuits/src/lib.rs:20-22 | `verify` never fails |
| Circuits.SentinelSpellsMockProofOk | crates/zkack-circuits/src/lib.rs:18 | the sentinel is the ASCII bytes of "mock-proof-ok" |
| Circuits.ProveIsConstant | crates/zkack-circuits/src/lib.rs:17-19 | every statement gets the sentinel as its proof |
| Circuits.VerifyIffSentinel | crates/zkack-circuits/src/lib.rs:20-22 | a proof is accepted exactly when it is the sentinel |
| Circuits.ProveThenVerify | crates/zkack-circuits/src/lib.rs:17-22 | whatever `prove` returns, `verify` accepts, for that statement and for any other |
| Circuits.VerifyIgnoresStatement | crates/zkack-circuits/src/lib.rs:20-22 | the verdict does not depend on the address hash, digest or nonce |

## Left out

- Internals of Ed25519, BLAKE3, UTF-8 conversion, serde_json's text
  format and the `time` crate's RFC 3339 parsing and formatting. These are
  function-valued parameters, and only the laws in `Foreign.Lawful` are
  assumed about them.
- JSON numbers are integers only (serde_json's floats are not modelled),
  and objects are maps (one value per key).
- `parse_iso` (`crates/zkack-spec/src/lib.rs:94-99`) is the same RFC 3339
  parse that the model passes as a parameter. `generate_keypair` is random
  key generation.
- Error message texts. Errors are datatype values and HTTP status codes.
- axum routing, request deserialisation, tokio and concurrent requests.
  Each handler is one call on its inputs. The /verify and /receipts bodies
  are modelled as JSON values (`Verifier.VerifyRespJson`,
  `Verifier.ReceiptsJson`). The /ack response is the `AckResp` record.
  Rendering any body to text is left to axum and is not modelled.
- The `/healthz` handler and the start-up keystore loading
  (`crates/zkack-verifier/src/main.rs:218-286`). These are I/O and
  configuration, and the key store is a map parameter.
- sled's persistence, durability and key-ordered iteration. The ledger is a
  sequence in insertion order, standing in for sled's key order, and
  insert/flush outcomes are parameters. "Storage order" below means that
  insertion order, not sled's byte order on keys.
  Iterator errors on individual entries are not modelled, and neither is
  the `unwrap` on `to_vec`.
- `Uuid::new_v4`, `OsRng` and `OffsetDateTime::now_utc`. Their values are
  parameters.
- Signer: reading the `.eml` and key files, parsing the key file's JSON,
  command-line parsing and printing. The parsed key file is a parameter.
- Signer.BuildDat: the `time` crate panics when `now + ack_by_secs`
  leaves its range, and the `unwrap` on formatting can panic. Neither is
  modelled; the sum is passed to the formatting parameter as is.
- Signer.Capture: `\w` and `\s` are used in their ASCII / Unicode
  White_Space readings. Non-ASCII word characters before "bh=" are not
  treated as word characters.
- Ed25519 signing-key validation (`SigningKey::from_bytes` accepts any 32
  bytes). `Signature::from_slice` is modelled by its 64-byte length check.
- The digest tool's and the signer's `main` I/O (argument handling,
  printing the JSON line).
- The watcher, `keygen` and `dump_receipts` binaries. They are network and
  file I/O, and the watcher's header lookup is done by a mail-parsing
  library.
- The `ProofSystem` trait is not modelled as a Dafny trait. Its one
  implementation, `MockProof`, is the pair of functions `Circuits.Prove`
  and `Circuits.Verify`.

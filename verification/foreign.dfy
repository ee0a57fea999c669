/** The foreign libraries the zkack crates call — `std`'s UTF-8 conversions,
    serde_json's text form, ed25519-dalek, blake3 and the `time` crate's
    RFC 3339 support — as function-valued parameters. Nothing is assumed about
    them except the laws in `Lawful`, which every theorem that needs them
    takes as a precondition. */
module Foreign {
  import opened Text
  import Json

  /** `str::as_bytes`, `String::from_utf8` and `String::from_utf8_lossy`. */
  datatype Utf8 = Utf8(
    encode: string -> seq<byte>,
    decode: seq<byte> -> Option<string>,
    decodeLossy: seq<byte> -> string)

  /** serde_json: `to_string`/`to_vec` (rendering) and `from_str` (parsing). */
  datatype JsonText = JsonText(
    render: Json.Value -> string,
    parse: string -> Option<Json.Value>)

  /** ed25519-dalek: `SigningKey::verifying_key`, `Signer::sign` and
      `Verifier::verify`, on raw key, message and signature bytes. */
  datatype Ed25519 = Ed25519(
    publicKey: seq<byte> -> seq<byte>,
    sign: (seq<byte>, seq<byte>) -> seq<byte>,
    verify: (seq<byte>, seq<byte>, seq<byte>) -> bool)

  /** `OffsetDateTime::parse` and `format` with the `Rfc3339` description, on
      instants counted in nanoseconds since the Unix epoch. */
  datatype Rfc3339 = Rfc3339(
    parse: string -> Option<int>,
    format: int -> string)

  datatype Libs = Libs(
    utf8: Utf8,
    json: JsonText,
    ed25519: Ed25519,
    blake3: seq<byte> -> seq<byte>,
    time: Rfc3339)

  /** The laws the model relies on: the decoders undo the encoders, an
      Ed25519 signature is 64 bytes and verifies under the signer's own
      public key, and a BLAKE3 digest is 32 bytes. */
  ghost predicate Lawful(L: Libs) {
    && (forall s :: L.utf8.decode(L.utf8.encode(s)) == Some(s))
    && (forall v :: L.json.parse(L.json.render(v)) == Some(v))
    && (forall sk, m :: |L.ed25519.sign(sk, m)| == 64)
    && (forall sk, m :: L.ed25519.verify(L.ed25519.publicKey(sk), m, L.ed25519.sign(sk, m)))
    && (forall d :: |L.blake3(d)| == 32)
    && (forall t :: L.time.parse(L.time.format(t)) == Some(t))
  }
}

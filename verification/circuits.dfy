/** crates/zkack-circuits/src/lib.rs: the proof-system interface and its
    placeholder implementation `MockProof`. The placeholder proves every
    statement with the same fixed bytes and accepts exactly those bytes, so
    its proofs are bound to nothing. The interface is a Rust trait with one
    implementation; here that implementation's two operations are
    functions. */
module Circuits {
  import opened Text

  /** The ASCII bytes of "mock-proof-ok". */
  const Sentinel: seq<byte> := [109, 111, 99, 107, 45, 112, 114, 111, 111, 102, 45, 111, 107]

  /** The `anyhow::Error` a proof system may return; MockProof never does. */
  datatype ProofError = ProofError

  /** `MockProof::prove`. */
  function Prove(addrHashB64: string, msgDigestB64: string, nonceB64: string): (r: Result<seq<byte>, ProofError>)
    ensures r.Ok?
  {
    Ok(Sentinel)
  }

  /** `MockProof::verify`. */
  function Verify(addrHashB64: string, msgDigestB64: string, nonceB64: string, proof: seq<byte>)
    : (r: Result<bool, ProofError>)
    ensures r.Ok?
  {
    Ok(proof == Sentinel)
  }

  /** The sentinel spells "mock-proof-ok". */
  lemma SentinelSpellsMockProofOk()
    ensures |Sentinel| == |"mock-proof-ok"|
    ensures forall i :: 0 <= i < |Sentinel| ==> Sentinel[i] == "mock-proof-ok"[i] as int
  {
  }

  /** Every statement gets the same proof: the sentinel. */
  lemma ProveIsConstant(a: string, m: string, n: string)
    ensures Prove(a, m, n) == Ok(Sentinel)
  {
  }

  /** A proof is accepted exactly when it is the sentinel. */
  lemma VerifyIffSentinel(a: string, m: string, n: string, proof: seq<byte>)
    ensures Verify(a, m, n, proof) == Ok(true) <==> proof == Sentinel
    ensures Verify(a, m, n, proof) == Ok(false) <==> proof != Sentinel
  {
  }

  /** Round trip: what `prove` returns, `verify` accepts, for the same
      statement and indeed for any other. */
  lemma ProveThenVerify(a: string, m: string, n: string, a': string, m': string, n': string)
    ensures Verify(a', m', n', Prove(a, m, n).value) == Ok(true)
  {
  }

  /** The verdict depends on the proof bytes only, not on the address hash,
      digest or nonce. */
  lemma VerifyIgnoresStatement(a: string, m: string, n: string, a': string, m': string, n': string,
                               proof: seq<byte>)
    ensures Verify(a, m, n, proof) == Verify(a', m', n', proof)
  {
  }
}

/** crates/zkack-spec/src/bin/digest.rs: the digest selector. The DKIM
    body hash (the `bh=` tag of section 3.5 of RFC 6376) is taken from the
    DKIM-Signature header, with its folded continuation lines (section 2.2.3
    of RFC 5322), found in the header block, and normalised to unpadded
    base64url; without one the BLAKE3 digest of the whole message is used. */
module DigestBin {
  import opened Text
  import opened Foreign
  import opened ZkackSpec

  const CrLfCrLf: string := "\r\n\r\n"
  const LfLf: string := "\n\n"
  const DkimPrefix: string := "dkim-signature:"
  const BhPrefix: string := "bh="

  /** A line opening a DKIM-Signature field, in any letter case. */
  predicate IsDkimStart(line: string) {
    StartsWith(AsciiLower(line), DkimPrefix)
  }

  /** A folded continuation line. */
  predicate IsFolded(line: string) {
    StartsWith(line, " ") || StartsWith(line, "\t")
  }

  /** The lines that keep a collection going: continuation lines and, in this
      parser, further DKIM-Signature lines. */
  predicate Continues(line: string) {
    IsDkimStart(line) || IsFolded(line)
  }

  /** The header block: the text before the first "\r\n\r\n", or, only when
      there is none, before the first "\n\n". */
  function HeaderBlock(eml: string): (r: Option<string>)
    ensures r.None? <==> (forall k :: !OccursAt(eml, CrLfCrLf, k)) && (forall k :: !OccursAt(eml, LfLf, k))
    ensures Find(eml, CrLfCrLf).Some? ==> r == Some(eml[..Find(eml, CrLfCrLf).value])
    ensures Find(eml, CrLfCrLf).None? && Find(eml, LfLf).Some? ==> r == Some(eml[..Find(eml, LfLf).value])
  {
    match SplitOnce(eml, CrLfCrLf)
    case Some(parts) => Some(parts.0)
    case None =>
      match SplitOnce(eml, LfLf)
      case Some(parts) => Some(parts.0)
      case None => None
  }

  /** `line.splitn(2, ':').nth(1).unwrap_or("")`. */
  function AfterColon(line: string): string {
    match Find(line, ":")
    case None => []
    case Some(k) => line[k + 1..]
  }

  /** What one collected line adds to the header value: its trimmed text
      (after the field name for a DKIM-Signature line) and a space. */
  function Piece(line: string): (r: string)
    ensures r != [] && r[|r| - 1] == ' '
  {
    (if IsDkimStart(line) then Trim(AfterColon(line)) else Trim(line)) + " "
  }

  /** The pieces of lines[start..end], in order. */
  function Pieces(lines: seq<string>, start: nat, end: nat): string
    requires start <= end <= |lines|
    decreases end - start
  {
    if end == start then [] else Pieces(lines, start, end - 1) + Piece(lines[end - 1])
  }

  /** The collected DKIM-Signature value: the pieces of the first line that
      opens the field and of the run of lines after it that continue it; empty
      exactly when no line opens the field. */
  function Collected(lines: seq<string>): (val: string)
    ensures val == [] <==> FirstIndex(lines, IsDkimStart).None?
  {
    match FirstIndex(lines, IsDkimStart)
    case None => []
    case Some(i) => Pieces(lines, i, RunEnd(lines, Continues, i + 1))
  }

  /** Where a tag value ends: at the first ';' or at the end. */
  function TagEnd(after: string): (e: nat)
    ensures e <= |after| && ';' !in after[..e]
    ensures e < |after| ==> after[e] == ';'
    ensures e == |after| ==> ';' !in after
  {
    match Find(after, ";")
    case Some(e) =>
      assert after[e..e + 1] == ";";
      assert ';' !in after[..e] by {
        forall j | 0 <= j < e ensures after[j] != ';' {
          assert !OccursAt(after, ";", j);
          assert after[j..j + 1][0] == after[j];
        }
      }
      e
    case None =>
      assert ';' !in after by {
        forall j | 0 <= j < |after| ensures after[j] != ';' {
          assert !OccursAt(after, ";", j);
          assert after[j..j + 1][0] == after[j];
        }
      }
      |after|
  }

  /** No '+' or '/', and no trailing '='. */
  predicate UrlSafe(s: string) {
    '+' !in s && '/' !in s && (s == [] || s[|s| - 1] != '=')
  }

  /** The base64url character for a standard base64 one. */
  function UrlChar(c: char): char {
    if c == '+' then '-' else if c == '/' then '_' else c
  }

  /** Standard base64 to unpadded base64url: '+' to '-', '/' to '_', and the
      trailing '=' removed. Every character up to the trailing run of '=' is
      kept in place, mapped by UrlChar. */
  function Normalize(bh: string): (r: string)
    ensures UrlSafe(r)
    ensures |r| <= |bh|
    ensures forall i :: 0 <= i < |r| ==> r[i] == UrlChar(bh[i])
    ensures forall i :: |r| <= i < |bh| ==> bh[i] == '='
  {
    var swapped := ReplaceChar(ReplaceChar(bh, '+', '-'), '/', '_');
    var r := TrimEndChar(swapped, '=');
    assert forall i :: 0 <= i < |r| ==> r[i] == swapped[i];
    r
  }

  /** The `bh=` tag: the text after the first case-insensitive "bh=" up to
      the next ';', trimmed, and normalised; None when there is no tag or its
      value is blank. */
  function BhTag(val: string): (r: Option<string>)
    ensures r.Some? ==> UrlSafe(r.value)
  {
    var pos :- Find(AsciiLower(val), BhPrefix);
    var after := val[pos + 3..];
    var bh := Trim(after[..TagEnd(after)]);
    if bh == [] then None else Some(Normalize(bh))
  }

  /** Without a "bh=" in any letter case there is no tag. */
  lemma BhTagAbsent(val: string)
    requires forall k :: !OccursAt(AsciiLower(val), BhPrefix, k)
    ensures BhTag(val) == None
  {
  }

  /** The tag's value: with the first case-insensitive "bh=" right after
      `pre`, and `v` running up to the next ';' or the end, the result is `v`
      trimmed and normalised, or None when `v` is blank. */
  lemma BhTagValue(pre: string, tag: string, v: string, stop: string)
    requires |tag| == 3 && AsciiLower(tag) == BhPrefix
    requires ';' !in v
    requires stop == [] || stop[0] == ';'
    requires forall k :: 0 <= k < |pre| ==> !OccursAt(AsciiLower(pre + tag + v + stop), BhPrefix, k)
    ensures BhTag(pre + tag + v + stop) == if Trim(v) == [] then None else Some(Normalize(Trim(v)))
  {
    var val := pre + tag + v + stop;
    var low := AsciiLower(val);
    assert val[|pre|..|pre| + 3] == tag;
    AsciiLowerSlice(val, |pre|, |pre| + 3);
    assert OccursAt(low, BhPrefix, |pre|);
    assert Find(low, BhPrefix) == Some(|pre|);
    var after := val[|pre| + 3..];
    assert after == v + stop;
    assert forall j :: 0 <= j < |v| ==> after[j] != ';';
    assert stop != [] ==> after[|v|] == ';' && after[|v|] in after[..|v| + 1];
    assert TagEnd(after) == |v|;
    assert after[..|v|] == v;
  }

  /** The body hash the selector takes from a message (reference definition
      for FindDkimBh). */
  function BodyHash(eml: string): Option<string> {
    var hdrs :- HeaderBlock(eml);
    var val := Collected(Lines(hdrs));
    if val == [] then None else BhTag(val)
  }

  /** `find_dkim_bh`. */
  method FindDkimBh(emlStr: string) returns (bh: Option<string>)
    ensures bh == BodyHash(emlStr)
  {
    var split := SplitOnce(emlStr, CrLfCrLf);
    if split.None? {
      split := SplitOnce(emlStr, LfLf);
    }
    if split.None? {
      return None;
    }
    var hdrs := split.value.0;
    assert HeaderBlock(emlStr) == Some(hdrs);
    var val := CollectDkim(Lines(hdrs));
    if val == [] {
      return None;
    }
    bh := BhTag(val);
  }

  /** The line scan of `find_dkim_bh`: collects the first DKIM-Signature
      field with its continuation lines. */
  method CollectDkim(lines: seq<string>) returns (val: string)
    ensures val == Collected(lines)
  {
    var inDkim := false;
    val := "";
    ghost var start: nat := 0;
    var k := 0;
    while k < |lines|
      invariant k <= |lines|
      invariant !inDkim ==> val == [] && forall j :: 0 <= j < k ==> !IsDkimStart(lines[j])
      invariant inDkim ==> start < k && IsDkimStart(lines[start])
      invariant inDkim ==> forall j :: 0 <= j < start ==> !IsDkimStart(lines[j])
      invariant inDkim ==> forall j :: start < j < k ==> Continues(lines[j])
      invariant inDkim ==> val == Pieces(lines, start, k)
    {
      var line := lines[k];
      if IsDkimStart(line) {
        if !inDkim {
          start := k;
        }
        inDkim := true;
        val := val + (Trim(AfterColon(line)) + " ");
      } else if inDkim {
        if IsFolded(line) {
            val := val + (Trim(line) + " ");
        } else {
          CollectedFromScan(lines, start, k);
          break;
        }
      }
      k := k + 1;
    }
    if !inDkim {
      CollectedNone(lines);
    } else if k == |lines| {
      CollectedFromScan(lines, start, k);
    }
  }

  /** A scan that found the first opening line at `start` and stopped at `k`
      has collected exactly the reference value. */
  lemma CollectedFromScan(lines: seq<string>, start: nat, k: nat)
    requires start < k <= |lines| && IsDkimStart(lines[start])
    requires forall j :: 0 <= j < start ==> !IsDkimStart(lines[j])
    requires forall j :: start < j < k ==> Continues(lines[j])
    requires k < |lines| ==> !Continues(lines[k])
    ensures Collected(lines) == Pieces(lines, start, k)
  {
    FirstIndexUnique(lines, IsDkimStart, start);
    RunEndUnique(lines, Continues, start + 1, k);
  }

  lemma CollectedNone(lines: seq<string>)
    requires forall j :: 0 <= j < |lines| ==> !IsDkimStart(lines[j])
    ensures Collected(lines) == []
  {
  }

  /** A second DKIM-Signature line right after the first is appended to the
      value, not treated as the end of the field. */
  lemma SecondSignatureAppended(lines: seq<string>, i: nat)
    requires i + 1 < |lines| && IsDkimStart(lines[i]) && IsDkimStart(lines[i + 1])
    requires forall j :: 0 <= j < i ==> !IsDkimStart(lines[j])
    requires i + 2 < |lines| ==> !Continues(lines[i + 2])
    ensures Collected(lines) == Piece(lines[i]) + Piece(lines[i + 1])
  {
    CollectedFromScan(lines, i, i + 2);
    assert Pieces(lines, i, i) == [];
    assert Pieces(lines, i, i + 1) == Piece(lines[i]);
  }

  /** The selection in `main`: the DKIM body hash of the (lossily decoded)
      message when there is one, otherwise BLAKE3 of the raw bytes. */
  method SelectDigest(L: Libs, eml: seq<byte>) returns (d: MsgDigest)
    ensures d.alg == DkimBh <==> BodyHash(L.utf8.decodeLossy(eml)).Some?
    ensures d.alg == DkimBh ==> d.b64 == BodyHash(L.utf8.decodeLossy(eml)).value
    ensures d.alg != DkimBh ==> d == MsgDigest(Blake3, Blake3B64(L, eml))
  {
    var emlStr := L.utf8.decodeLossy(eml);
    var found := FindDkimBh(emlStr);
    if found.Some? {
      d := MsgDigest(DkimBh, found.value);
    } else {
      d := MsgDigest(Blake3, Blake3B64(L, eml));
    }
  }

  // ---------------------------------------------------------------------
  // Properties.

  /** Without a blank line there is no header block and no body hash. */
  lemma NoBlankLineNoHash(eml: string)
    requires forall k :: !OccursAt(eml, CrLfCrLf, k)
    requires forall k :: !OccursAt(eml, LfLf, k)
    ensures BodyHash(eml) == None
  {
  }

  /** Without a DKIM-Signature line in the header block there is no body hash. */
  lemma NoSignatureNoHash(eml: string)
    requires HeaderBlock(eml).Some?
    requires forall i :: 0 <= i < |Lines(HeaderBlock(eml).value)| ==> !IsDkimStart(Lines(HeaderBlock(eml).value)[i])
    ensures BodyHash(eml) == None
  {
  }

  /** Only the header block is searched: whatever follows the first
      "\r\n\r\n" (a DKIM-Signature in the body included) does not matter. */
  lemma BodyIgnored(headers: string, body1: string, body2: string)
    requires forall k :: 0 <= k < |headers| ==> !OccursAt(headers + CrLfCrLf, CrLfCrLf, k)
    ensures BodyHash(headers + CrLfCrLf + body1) == BodyHash(headers + CrLfCrLf + body2)
  {
    FirstBlankLine(headers, body1);
    FirstBlankLine(headers, body2);
  }

  lemma FirstBlankLine(headers: string, body: string)
    requires forall k :: 0 <= k < |headers| ==> !OccursAt(headers + CrLfCrLf, CrLfCrLf, k)
    ensures HeaderBlock(headers + CrLfCrLf + body) == Some(headers)
  {
    var eml := headers + CrLfCrLf + body;
    assert OccursAt(eml, CrLfCrLf, |headers|);
    forall k | 0 <= k < |headers| ensures !OccursAt(eml, CrLfCrLf, k) {
      assert !OccursAt(headers + CrLfCrLf, CrLfCrLf, k);
      assert eml[k..k + 4] == (headers + CrLfCrLf)[k..k + 4];
    }
    assert Find(eml, CrLfCrLf) == Some(|headers|);
    assert eml[..|headers|] == headers;
  }

  /** With no "\r\n\r\n" anywhere, the header block ends at the first
      "\n\n", and whatever follows it does not matter. */
  lemma BodyIgnoredLf(headers: string, body1: string, body2: string)
    requires forall k :: 0 <= k < |headers| ==> !OccursAt(headers + LfLf, LfLf, k)
    requires forall k :: !OccursAt(headers + LfLf + body1, CrLfCrLf, k)
    requires forall k :: !OccursAt(headers + LfLf + body2, CrLfCrLf, k)
    ensures BodyHash(headers + LfLf + body1) == BodyHash(headers + LfLf + body2)
  {
    FirstBlankLineLf(headers, body1);
    FirstBlankLineLf(headers, body2);
  }

  lemma FirstBlankLineLf(headers: string, body: string)
    requires forall k :: 0 <= k < |headers| ==> !OccursAt(headers + LfLf, LfLf, k)
    requires forall k :: !OccursAt(headers + LfLf + body, CrLfCrLf, k)
    ensures HeaderBlock(headers + LfLf + body) == Some(headers)
  {
    var eml := headers + LfLf + body;
    assert OccursAt(eml, LfLf, |headers|);
    forall k | 0 <= k < |headers| ensures !OccursAt(eml, LfLf, k) {
      assert !OccursAt(headers + LfLf, LfLf, k);
      assert eml[k..k + 2] == (headers + LfLf)[k..k + 2];
    }
    assert Find(eml, LfLf) == Some(|headers|);
    assert eml[..|headers|] == headers;
  }

  /** A "\r\n\r\n" anywhere wins over an earlier "\n\n": the header block
      then runs past the first blank line, written "\n\n", and a
      DKIM-Signature line after it is the one whose tag is read. */
  lemma MixedLineEndings(from: string, sig: string, body: string)
    requires '\n' !in from && '\r' !in from && !IsDkimStart(from)
    requires '\n' !in sig && '\r' !in sig && IsDkimStart(sig)
    ensures HeaderBlock(from + LfLf + sig + CrLfCrLf + body) == Some(from + LfLf + sig)
    ensures BodyHash(from + LfLf + sig + CrLfCrLf + body) == BhTag(Piece(sig))
  {
    MixedHeaderBlock(from, sig, body);
    var hdrs := from + "\n" + ("\n" + sig);
    assert from + LfLf + sig == hdrs;
    LinesCons(from, "\n" + sig);
    LinesCons("", sig);
    LinesOne(sig);
    var lines := Lines(hdrs);
    assert lines == [from, "", sig];
    assert !IsDkimStart(lines[0]) && !IsDkimStart(lines[1]) && IsDkimStart(lines[2]);
    assert lines[1..][1..] == [sig];
    assert FirstIndex(lines, IsDkimStart) == Some(2);
    assert RunEnd(lines, Continues, 3) == 3;
    assert Collected(lines) == Piece(sig);
  }

  lemma MixedHeaderBlock(from: string, sig: string, body: string)
    requires '\r' !in from && '\r' !in sig
    ensures HeaderBlock(from + LfLf + sig + CrLfCrLf + body) == Some(from + LfLf + sig)
  {
    var hdrs := from + LfLf + sig;
    forall k | 0 <= k < |hdrs| ensures !OccursAt(hdrs + CrLfCrLf, CrLfCrLf, k) {
      assert (hdrs + CrLfCrLf)[k] == hdrs[k];
      assert hdrs[k] != '\r' by {
        if k < |from| { assert hdrs[k] == from[k]; }
        else if k >= |from| + 2 { assert hdrs[k] == sig[k - |from| - 2]; }
      }
    }
    FirstBlankLine(hdrs, body);
  }

  /** An instance: "From: a\n\nDKIM-Signature: bh=X;\r\n\r\nz" has the body
      hash "X". */
  lemma MixedLineEndingsExample()
    ensures BodyHash("From: a" + LfLf + ("DKIM-Signature" + ":" + " bh=X;") + CrLfCrLf + "z") == Some("X")
  {
    var sig := "DKIM-Signature" + ":" + " bh=X;";
    ExampleOpens();
    MixedLineEndings("From: a", sig, "z");
    ExamplePiece();
    ExampleTag();
  }

  lemma ExamplePiece()
    ensures Piece("DKIM-Signature" + ":" + " bh=X;") == "bh=X;" + " "
  {
    var name := "DKIM-Signature";
    ExampleOpens();
    assert ':' !in name;
    AfterColonSplit(name, " bh=X;");
    ExampleTrim();
  }

  lemma ExampleTag()
    ensures BhTag("bh=X;" + " ") == Some("X")
  {
    BhTagValue([], "bh=", "X", "; ");
    assert [] + "bh=" + "X" + "; " == "bh=X;" + " ";
    NormalizeKeepsUrlSafe("X");
  }

  lemma ExampleOpens()
    ensures IsDkimStart("DKIM-Signature" + ":" + " bh=X;")
  {
    assert AsciiLower("DKIM-Signature" + ":" + " bh=X;")[..15] == DkimPrefix;
  }

  lemma ExampleTrim()
    ensures Trim(" bh=X;") == "bh=X;"
  {
    assert " bh=X;"[1..] == "bh=X;";
    assert TrimStart("bh=X;") == "bh=X;";
  }

  /** The text after the first ':' of a field line. */
  lemma AfterColonSplit(name: string, rest: string)
    requires ':' !in name
    ensures AfterColon(name + ":" + rest) == rest
  {
    var line := name + ":" + rest;
    assert OccursAt(line, ":", |name|);
    forall k | 0 <= k < |name| ensures !OccursAt(line, ":", k) {
      assert line[k..k + 1][0] == name[k];
    }
    assert line[|name| + 1..] == rest;
  }

  /** The position found in the lower-cased copy is valid in the original,
      and there the original holds "bh=" in some letter case. */
  lemma LowerCasePositionValid(val: string, pos: nat)
    requires OccursAt(AsciiLower(val), BhPrefix, pos)
    ensures pos + 3 <= |val|
    ensures val[pos] in "bB" && val[pos + 1] in "hH" && val[pos + 2] == '='
  {
    var low := AsciiLower(val);
    assert low[pos..pos + 3] == "bh=";
    assert low[pos] == 'b' && low[pos + 1] == 'h' && low[pos + 2] == '=';
  }

  /** A string already in unpadded base64url form is left as it is. */
  lemma NormalizeKeepsUrlSafe(s: string)
    requires UrlSafe(s)
    ensures Normalize(s) == s
  {
    assert ReplaceChar(s, '+', '-') == s;
    assert ReplaceChar(s, '/', '_') == s;
  }

  /** Normalising twice is normalising once. */
  lemma NormalizeIdempotent(s: string)
    ensures Normalize(Normalize(s)) == Normalize(s)
  {
    NormalizeKeepsUrlSafe(Normalize(s));
  }
}

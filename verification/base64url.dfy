/** Unpadded base64url, the `URL_SAFE_NO_PAD` engine of the `base64` crate
    that `b64e`/`b64d` in crates/zkack-spec/src/lib.rs wrap: the alphabet of
    section 5 of RFC 4648, no '=' padding on output, and a strict decoder that
    rejects padding, characters outside the alphabet, a length of 4k+1 and
    non-zero trailing bits (the crate's default). */
module Base64Url {
  import opened Text

  type sextet = x: int | 0 <= x < 64

  /** The 64-character URL-safe alphabet: A-Z, a-z, 0-9, '-', '_'. */
  function CharOf(v: sextet): char {
    if v < 26 then ('A' as int + v) as char
    else if v < 52 then ('a' as int + (v - 26)) as char
    else if v < 62 then ('0' as int + (v - 52)) as char
    else if v == 62 then '-'
    else '_'
  }

  /** The inverse of CharOf; None for every character outside the alphabet. */
  function ValueOf(c: char): Option<sextet> {
    if 'A' <= c <= 'Z' then Some(c as int - 'A' as int)
    else if 'a' <= c <= 'z' then Some(c as int - 'a' as int + 26)
    else if '0' <= c <= '9' then Some(c as int - '0' as int + 52)
    else if c == '-' then Some(62)
    else if c == '_' then Some(63)
    else None
  }

  predicate InAlphabet(c: char) {
    ValueOf(c).Some?
  }

  lemma ValueOfCharOf(v: sextet)
    ensures ValueOf(CharOf(v)) == Some(v)
  {
  }

  lemma CharOfValueOf(c: char)
    requires InAlphabet(c)
    ensures CharOf(ValueOf(c).value) == c
  {
  }

  /** Encoding: every 3 bytes become 4 characters; a final 1 or 2 bytes become
      2 or 3 characters with zero fill bits and no padding. */
  function Encode(b: seq<byte>): (s: string)
    ensures |s| == (4 * |b| + 2) / 3
    ensures forall i :: 0 <= i < |s| ==> InAlphabet(s[i])
    decreases |b|
  {
    if |b| == 0 then []
    else if |b| == 1 then
      ValueOfCharOf(b[0] / 4);
      ValueOfCharOf((b[0] % 4) * 16);
      [CharOf(b[0] / 4), CharOf((b[0] % 4) * 16)]
    else if |b| == 2 then
      ValueOfCharOf(b[0] / 4);
      ValueOfCharOf((b[0] % 4) * 16 + b[1] / 16);
      ValueOfCharOf((b[1] % 16) * 4);
      [CharOf(b[0] / 4), CharOf((b[0] % 4) * 16 + b[1] / 16), CharOf((b[1] % 16) * 4)]
    else
      ValueOfCharOf(b[0] / 4);
      ValueOfCharOf((b[0] % 4) * 16 + b[1] / 16);
      ValueOfCharOf((b[1] % 16) * 4 + b[2] / 64);
      ValueOfCharOf(b[2] % 64);
      [CharOf(b[0] / 4), CharOf((b[0] % 4) * 16 + b[1] / 16),
       CharOf((b[1] % 16) * 4 + b[2] / 64), CharOf(b[2] % 64)] + Encode(b[3..])
  }

  /** Strict decoding; None for any string the crate's decoder rejects. */
  function Decode(s: string): (r: Option<seq<byte>>)
    decreases |s|
  {
    if |s| == 0 then Some([])
    else if |s| == 1 then None
    else if ValueOf(s[0]).None? || ValueOf(s[1]).None? then None
    else
      var v0, v1 := ValueOf(s[0]).value, ValueOf(s[1]).value;
      if |s| == 2 then
        if v1 % 16 != 0 then None else Some([v0 * 4 + v1 / 16])
      else if ValueOf(s[2]).None? then None
      else
        var v2 := ValueOf(s[2]).value;
        if |s| == 3 then
          if v2 % 4 != 0 then None else Some([v0 * 4 + v1 / 16, (v1 % 16) * 16 + v2 / 4])
        else if ValueOf(s[3]).None? then None
        else
          var v3 := ValueOf(s[3]).value;
          match Decode(s[4..])
          case None => None
          case Some(rest) =>
            Some([v0 * 4 + v1 / 16, (v1 % 16) * 16 + v2 / 4, (v2 % 4) * 64 + v3] + rest)
  }

  /** The encoder never emits the JWS segment separator. */
  lemma NoDot(b: seq<byte>)
    ensures '.' !in Encode(b)
  {
    var s := Encode(b);
    forall i | 0 <= i < |s| ensures s[i] != '.' {
      assert InAlphabet(s[i]);
    }
  }

  /** Decoding undoes encoding. */
  lemma {:induction false} DecodeEncode(b: seq<byte>)
    ensures Decode(Encode(b)) == Some(b)
    decreases |b|
  {
    if |b| == 1 {
      DecodeEncodeOne(b[0]);
      assert b == [b[0]];
    } else if |b| == 2 {
      DecodeEncodeTwo(b[0], b[1]);
      assert b == [b[0], b[1]];
    } else if |b| >= 3 {
      DecodeEncode(b[3..]);
      DecodeEncodeBlock(b[0], b[1], b[2], b[3..]);
      assert b == [b[0], b[1], b[2]] + b[3..];
    }
  }

  lemma DecodeEncodeOne(x: byte)
    ensures Decode(Encode([x])) == Some([x])
  {
    var v0: sextet, v1: sextet := x / 4, (x % 4) * 16;
    ValueOfCharOf(v0);
    ValueOfCharOf(v1);
    assert Encode([x]) == [CharOf(v0), CharOf(v1)];
    assert v1 % 16 == 0 && v0 * 4 + v1 / 16 == x;
  }

  lemma DecodeEncodeTwo(x: byte, y: byte)
    ensures Decode(Encode([x, y])) == Some([x, y])
  {
    var v0: sextet, v1: sextet, v2: sextet := x / 4, (x % 4) * 16 + y / 16, (y % 16) * 4;
    ValueOfCharOf(v0);
    ValueOfCharOf(v1);
    ValueOfCharOf(v2);
    assert Encode([x, y]) == [CharOf(v0), CharOf(v1), CharOf(v2)];
    assert v2 % 4 == 0;
    assert v0 * 4 + v1 / 16 == x;
    assert (v1 % 16) * 16 + v2 / 4 == y;
  }

  lemma DecodeEncodeBlock(x: byte, y: byte, z: byte, rest: seq<byte>)
    requires Decode(Encode(rest)) == Some(rest)
    ensures Decode(Encode([x, y, z] + rest)) == Some([x, y, z] + rest)
  {
    var b := [x, y, z] + rest;
    var v0: sextet, v1: sextet := x / 4, (x % 4) * 16 + y / 16;
    var v2: sextet, v3: sextet := (y % 16) * 4 + z / 64, z % 64;
    ValueOfCharOf(v0);
    ValueOfCharOf(v1);
    ValueOfCharOf(v2);
    ValueOfCharOf(v3);
    assert b[3..] == rest;
    var s := Encode(b);
    assert s == [CharOf(v0), CharOf(v1), CharOf(v2), CharOf(v3)] + Encode(rest);
    assert s[4..] == Encode(rest);
    assert v0 * 4 + v1 / 16 == x;
    assert (v1 % 16) * 16 + v2 / 4 == y;
    assert (v2 % 4) * 64 + v3 == z;
  }

  /** Decoding is canonical: a string that decodes is the encoding of what it
      decodes to, so two different strings never decode to the same bytes. */
  lemma {:induction false} EncodeDecode(s: string)
    requires Decode(s).Some?
    ensures Encode(Decode(s).value) == s
    decreases |s|
  {
    if |s| == 2 {
      EncodeDecodeShort(s);
    } else if |s| == 3 {
      EncodeDecodeShort(s);
    } else if |s| >= 4 {
      EncodeDecode(s[4..]);
      EncodeDecodeBlock(s);
    }
  }

  /** Division by 4 and 16 of a value assembled from a quotient and a
      remainder, spelled out for the solver. */
  lemma DivMod4(a: int, q: int)
    requires 0 <= q < 4
    ensures (a * 4 + q) / 4 == a && (a * 4 + q) % 4 == q
  {
  }

  lemma DivMod64(a: int, q: int)
    requires 0 <= q < 64
    ensures (a * 64 + q) / 64 == a && (a * 64 + q) % 64 == q
  {
  }

  lemma DivMod16(a: int, q: int)
    requires 0 <= q < 16
    ensures (a * 16 + q) / 16 == a && (a * 16 + q) % 16 == q
  {
  }

  /** The final 2 or 3 characters re-encode to themselves. */
  lemma EncodeDecodeShort(s: string)
    requires 2 <= |s| <= 3 && Decode(s).Some?
    ensures Encode(Decode(s).value) == s
  {
    if |s| == 2 {
      EncodeDecodeTwoChars(s[0], s[1]);
      assert s == [s[0], s[1]];
    } else {
      EncodeDecodeThreeChars(s[0], s[1], s[2]);
      assert s == [s[0], s[1], s[2]];
    }
  }

  lemma EncodeDecodeTwoChars(c0: char, c1: char)
    requires Decode([c0, c1]).Some?
    ensures Encode(Decode([c0, c1]).value) == [c0, c1]
  {
    CharOfValueOf(c0);
    CharOfValueOf(c1);
    var v0: int, v1: int := ValueOf(c0).value, ValueOf(c1).value;
    var q1 := v1 / 16;
    assert v1 == q1 * 16;
    DivMod4(v0, q1);
    var x: int := v0 * 4 + q1;
    assert Decode([c0, c1]) == Some([x]);
  }

  lemma EncodeDecodeThreeChars(c0: char, c1: char, c2: char)
    requires Decode([c0, c1, c2]).Some?
    ensures Encode(Decode([c0, c1, c2]).value) == [c0, c1, c2]
  {
    CharOfValueOf(c0);
    CharOfValueOf(c1);
    CharOfValueOf(c2);
    var v0: int, v1: int, v2: int := ValueOf(c0).value, ValueOf(c1).value, ValueOf(c2).value;
    var q1, r1 := v1 / 16, v1 % 16;
    var q2 := v2 / 4;
    assert v1 == q1 * 16 + r1;
    assert v2 == q2 * 4;
    DivMod4(v0, q1);
    DivMod16(r1, q2);
    var x: int := v0 * 4 + q1;
    var y: int := r1 * 16 + q2;
    assert Decode([c0, c1, c2]) == Some([x, y]);
  }

  /** A leading block of 4 characters re-encodes to itself. */
  lemma EncodeDecodeBlock(s: string)
    requires |s| >= 4 && Decode(s).Some?
    requires Decode(s[4..]).Some? && Encode(Decode(s[4..]).value) == s[4..]
    ensures Encode(Decode(s).value) == s
  {
    var x, y, z := BlockBytes(s[0], s[1], s[2], s[3]);
    var rest := Decode(s[4..]).value;
    DecodeFirstBlock(s, x, y, z);
    EncodeFirstBlock(x, y, z, rest);
    assert s == [s[0], s[1], s[2], s[3]] + s[4..];
  }

  lemma DecodeFirstBlock(s: string, x: int, y: int, z: int)
    requires |s| >= 4 && Decode(s).Some?
    requires var v0, v1, v2, v3 := ValueOf(s[0]).value, ValueOf(s[1]).value, ValueOf(s[2]).value, ValueOf(s[3]).value;
      x == v0 * 4 + v1 / 16 && y == (v1 % 16) * 16 + v2 / 4 && z == (v2 % 4) * 64 + v3
    ensures Decode(s[4..]).Some? && Decode(s).value == [x, y, z] + Decode(s[4..]).value
  {
  }

  lemma EncodeFirstBlock(x: byte, y: byte, z: byte, rest: seq<byte>)
    ensures Encode([x, y, z] + rest)
      == [CharOf(x / 4), CharOf((x % 4) * 16 + y / 16), CharOf((y % 16) * 4 + z / 64), CharOf(z % 64)] + Encode(rest)
  {
    var b := [x, y, z] + rest;
    assert b[0] == x && b[1] == y && b[2] == z && b[3..] == rest;
  }

  /** The three bytes four alphabet characters decode to, and their
      re-encoding. */
  lemma BlockBytes(c0: char, c1: char, c2: char, c3: char) returns (x: byte, y: byte, z: byte)
    requires InAlphabet(c0) && InAlphabet(c1) && InAlphabet(c2) && InAlphabet(c3)
    ensures var v0, v1, v2, v3 := ValueOf(c0).value, ValueOf(c1).value, ValueOf(c2).value, ValueOf(c3).value;
      x == v0 * 4 + v1 / 16 && y == (v1 % 16) * 16 + v2 / 4 && z == (v2 % 4) * 64 + v3
    ensures CharOf(x / 4) == c0 && CharOf((x % 4) * 16 + y / 16) == c1
    ensures CharOf((y % 16) * 4 + z / 64) == c2 && CharOf(z % 64) == c3
  {
    CharOfValueOf(c0);
    CharOfValueOf(c1);
    CharOfValueOf(c2);
    CharOfValueOf(c3);
    var v0: int, v1: int := ValueOf(c0).value, ValueOf(c1).value;
    var v2: int, v3: int := ValueOf(c2).value, ValueOf(c3).value;
    var q1, r1 := v1 / 16, v1 % 16;
    var q2, r2 := v2 / 4, v2 % 4;
    DivMod4(v0, q1);
    DivMod16(r1, q2);
    DivMod64(r2, v3);
    DivMod16(q1, r1);
    DivMod4(q2, r2);
    x, y, z := v0 * 4 + q1, r1 * 16 + q2, r2 * 64 + v3;
  }

  lemma DecodeInjective(s: string, t: string)
    requires Decode(s).Some? && Decode(s) == Decode(t)
    ensures s == t
  {
    EncodeDecode(s);
    EncodeDecode(t);
  }
}

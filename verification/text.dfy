/** Option/Result wrappers, bytes, and the few Rust `str` operations the
    zkack crates rely on (`trim`, `lines`, `split`, `find`, `split_once`,
    `starts_with`, `to_ascii_lowercase`, `replace`, `trim_end_matches`),
    written out with the semantics of Rust's standard library. Strings are
    sequences of Unicode scalar values; positions are character positions. */
module Text {

  datatype Option<+T> = None | Some(value: T) {
    predicate IsFailure() {
      None?
    }

    function PropagateFailure<U>(): Option<U>
      requires None?
    {
      None
    }

    function Extract(): T
      requires Some?
    {
      value
    }
  }

  datatype Result<+T, +E> = Ok(value: T) | Err(error: E) {
    predicate IsFailure() {
      Err?
    }

    function PropagateFailure<U>(): Result<U, E>
      requires Err?
    {
      Err(error)
    }

    function Extract(): T
      requires Ok?
    {
      value
    }
  }

  /** `Option::ok_or`: a missing value becomes the given error. */
  function OkOr<T, E>(o: Option<T>, e: E): (r: Result<T, E>)
    ensures r.Ok? <==> o.Some?
    ensures r.Ok? ==> r.value == o.value
    ensures r.Err? ==> r.error == e
  {
    match o
    case Some(v) => Ok(v)
    case None => Err(e)
  }

  type byte = x: int | 0 <= x < 256

  /** Rust `u8` and `u64`. */
  type u8 = x: int | 0 <= x < 0x100
  type u64 = x: int | 0 <= x < 0x1_0000_0000_0000_0000

  /** The Unicode White_Space property: Rust's `char::is_whitespace`, used by
      `str::trim` and by `\s` in the `regex` crate. */
  predicate IsWhitespace(c: char) {
    ('\t' <= c <= '\r') || c == ' ' || c == '\U{85}' || c == '\U{A0}' || c == '\U{1680}'
    || ('\U{2000}' <= c <= '\U{200A}') || c == '\U{2028}' || c == '\U{2029}'
    || c == '\U{202F}' || c == '\U{205F}' || c == '\U{3000}'
  }

  /** `str::trim_start`. Its properties are stated by TrimStartSpec, apart
      from the definition, so that unfolding it stays cheap. */
  function TrimStart(s: string): string
    decreases |s|
  {
    if s != [] && IsWhitespace(s[0]) then TrimStart(s[1..]) else s
  }

  /** `str::trim_end`; see TrimEndSpec. */
  function TrimEnd(s: string): string
    decreases |s|
  {
    if s != [] && IsWhitespace(s[|s| - 1]) then TrimEnd(s[..|s| - 1]) else s
  }

  /** `str::trim`. */
  function Trim(s: string): string {
    TrimEnd(TrimStart(s))
  }

  /** trim_start removes exactly the leading run of white space. */
  lemma {:induction false} TrimStartSpec(s: string)
    ensures |TrimStart(s)| <= |s| && TrimStart(s) == s[|s| - |TrimStart(s)|..]
    ensures TrimStart(s) == [] || !IsWhitespace(TrimStart(s)[0])
    ensures forall i :: 0 <= i < |s| - |TrimStart(s)| ==> IsWhitespace(s[i])
    decreases |s|
  {
    if s != [] && IsWhitespace(s[0]) {
      TrimStartSpec(s[1..]);
      assert s[1..][|s| - 1 - |TrimStart(s)|..] == s[|s| - |TrimStart(s)|..];
      forall i | 0 <= i < |s| - |TrimStart(s)| ensures IsWhitespace(s[i]) {
        if i > 0 {
          assert s[1..][i - 1] == s[i];
        }
      }
    }
  }

  /** trim_end removes exactly the trailing run of white space. */
  lemma {:induction false} TrimEndSpec(s: string)
    ensures |TrimEnd(s)| <= |s| && TrimEnd(s) == s[..|TrimEnd(s)|]
    ensures TrimEnd(s) == [] || !IsWhitespace(TrimEnd(s)[|TrimEnd(s)| - 1])
    ensures forall i :: |TrimEnd(s)| <= i < |s| ==> IsWhitespace(s[i])
    decreases |s|
  {
    if s != [] && IsWhitespace(s[|s| - 1]) {
      TrimEndSpec(s[..|s| - 1]);
      assert s[..|s| - 1][..|TrimEnd(s)|] == s[..|TrimEnd(s)|];
      forall i | |TrimEnd(s)| <= i < |s| ensures IsWhitespace(s[i]) {
        if i < |s| - 1 {
          assert s[..|s| - 1][i] == s[i];
        }
      }
    }
  }

  /** A line that is empty after trimming: nothing but white space. */
  predicate IsBlank(s: string) {
    forall i :: 0 <= i < |s| ==> IsWhitespace(s[i])
  }

  /** `s.trim().is_empty()` holds exactly for the blank strings. */
  lemma TrimEmptyIffBlank(s: string)
    ensures Trim(s) == [] <==> IsBlank(s)
  {
    TrimStartSpec(s);
    TrimEndSpec(TrimStart(s));
  }

  /** `str::to_ascii_lowercase`: only 'A'..'Z' change. */
  function AsciiLowerChar(c: char): char {
    if 'A' <= c <= 'Z' then (c as int + 32) as char else c
  }

  function AsciiLower(s: string): (r: string)
    ensures |r| == |s|
    ensures forall i :: 0 <= i < |s| ==> r[i] == AsciiLowerChar(s[i])
  {
    seq(|s|, i requires 0 <= i < |s| => AsciiLowerChar(s[i]))
  }

  lemma AsciiLowerSlice(s: string, i: nat, j: nat)
    requires i <= j <= |s|
    ensures AsciiLower(s)[i..j] == AsciiLower(s[i..j])
  {
  }

  predicate StartsWith(s: string, prefix: string) {
    |prefix| <= |s| && s[..|prefix|] == prefix
  }

  predicate EndsWith(s: string, suffix: string) {
    |suffix| <= |s| && s[|s| - |suffix|..] == suffix
  }

  /** `pat` occurs in `s` starting at position `k`. */
  predicate OccursAt(s: string, pat: string, k: int) {
    0 <= k && k + |pat| <= |s| && s[k..k + |pat|] == pat
  }

  /** The first occurrence of `pat` in `s` at or after `from`. */
  function FindFrom(s: string, pat: string, from: nat): (r: Option<nat>)
    requires from <= |s|
    ensures r.Some? ==> from <= r.value && OccursAt(s, pat, r.value)
    ensures r.Some? ==> forall k :: from <= k < r.value ==> !OccursAt(s, pat, k)
    ensures r.None? ==> forall k :: from <= k ==> !OccursAt(s, pat, k)
    decreases |s| - from
  {
    if from + |pat| > |s| then None
    else if s[from..from + |pat|] == pat then Some(from)
    else if from == |s| then None
    else FindFrom(s, pat, from + 1)
  }

  /** `str::find`: the first occurrence of `pat`. */
  function Find(s: string, pat: string): (r: Option<nat>)
    ensures r.Some? ==> OccursAt(s, pat, r.value)
    ensures r.Some? ==> forall k :: 0 <= k < r.value ==> !OccursAt(s, pat, k)
    ensures r.None? ==> forall k :: !OccursAt(s, pat, k)
  {
    FindFrom(s, pat, 0)
  }

  /** `str::split_once`: the text before and after the first occurrence of `pat`. */
  function SplitOnce(s: string, pat: string): (r: Option<(string, string)>)
    ensures r.None? <==> forall k :: !OccursAt(s, pat, k)
    ensures r.Some? ==> exists k :: OccursAt(s, pat, k) && r.value.0 == s[..k]
  {
    match Find(s, pat)
    case None => None
    case Some(k) => Some((s[..k], s[k + |pat|..]))
  }

  /** `str::split` on one character: always at least one piece. */
  function Split(s: string, sep: char): (parts: seq<string>)
    ensures |parts| >= 1
    decreases |s|
  {
    match Find(s, [sep])
    case None => [s]
    case Some(k) => [s[..k]] + Split(s[k + 1..], sep)
  }

  lemma NotOccursChar(s: string, c: char)
    requires c !in s
    ensures forall k :: !OccursAt(s, [c], k)
  {
    forall k | 0 <= k < |s| ensures !OccursAt(s, [c], k) {
      assert s[k] != c;
      assert s[k..k + 1][0] == s[k];
    }
  }

  lemma {:induction false} SplitThree(a: string, b: string, c: string, sep: char)
    requires sep !in a && sep !in b && sep !in c
    ensures Split(a + [sep] + b + [sep] + c, sep) == [a, b, c]
  {
    SplitCons(a, b + [sep] + c, sep);
    assert a + [sep] + b + [sep] + c == a + [sep] + (b + [sep] + c);
    SplitCons(b, c, sep);
    NotOccursChar(c, sep);
  }

  /** Splitting `a . rest`, where `a` holds no separator, peels off `a`. */
  lemma SplitCons(a: string, rest: string, sep: char)
    requires sep !in a
    ensures Split(a + [sep] + rest, sep) == [a] + Split(rest, sep)
  {
    var s := a + [sep] + rest;
    assert OccursAt(s, [sep], |a|);
    forall k | 0 <= k < |a| ensures !OccursAt(s, [sep], k) {
      assert s[k] == a[k];
    }
    assert s[..|a|] == a;
    assert s[|a| + 1..] == rest;
  }

  /** The line terminator of `str::lines`: "\n", with a preceding "\r" removed. */
  function StripCr(line: string): string {
    if line != [] && line[|line| - 1] == '\r' then line[..|line| - 1] else line
  }

  /** `str::lines`: split at "\n" or "\r\n"; a final line ending is optional and
      yields no empty last line; a lone "\r" stays in the line. */
  function Lines(s: string): (ls: seq<string>)
    ensures forall i :: 0 <= i < |ls| ==> '\n' !in ls[i]
    decreases |s|
  {
    if s == [] then []
    else
      match Find(s, "\n")
      case None =>
        assert '\n' !in s by {
          forall k | 0 <= k < |s| ensures s[k] != '\n' { assert !OccursAt(s, "\n", k); }
        }
        [s]
      case Some(k) =>
        assert '\n' !in s[..k] by {
          forall j | 0 <= j < k ensures s[j] != '\n' { assert !OccursAt(s, "\n", j); }
        }
        [StripCr(s[..k])] + Lines(s[k + 1..])
  }

  /** A line without "\n" followed by "\n" is peeled off as the first line. */
  lemma LinesCons(a: string, rest: string)
    requires '\n' !in a
    ensures Lines(a + "\n" + rest) == [StripCr(a)] + Lines(rest)
  {
    var s := a + "\n" + rest;
    assert OccursAt(s, "\n", |a|);
    forall k | 0 <= k < |a| ensures !OccursAt(s, "\n", k) {
      assert s[k..k + 1][0] == a[k];
    }
    assert s[..|a|] == a;
    assert s[|a| + 1..] == rest;
  }

  /** Text without "\n" is one line. */
  lemma LinesOne(a: string)
    requires a != [] && '\n' !in a
    ensures Lines(a) == [a]
  {
    forall k | 0 <= k < |a| ensures !OccursAt(a, "\n", k) {
      assert a[k..k + 1][0] == a[k];
    }
  }

  /** `str::replace` of one character by another. */
  function ReplaceChar(s: string, from: char, to: char): (r: string)
    ensures |r| == |s|
    ensures forall i :: 0 <= i < |s| ==> r[i] == (if s[i] == from then to else s[i])
  {
    seq(|s|, i requires 0 <= i < |s| => if s[i] == from then to else s[i])
  }

  /** `str::trim_end_matches` of one character. */
  function TrimEndChar(s: string, c: char): (r: string)
    ensures |r| <= |s| && r == s[..|r|]
    ensures r == [] || r[|r| - 1] != c
    ensures forall i :: |r| <= i < |s| ==> s[i] == c
    decreases |s|
  {
    if s != [] && s[|s| - 1] == c then TrimEndChar(s[..|s| - 1], c) else s
  }

  /** Concatenation of a sequence of strings. */
  function Concat(parts: seq<string>): string
  {
    if parts == [] then [] else parts[0] + Concat(parts[1..])
  }

  lemma {:induction false} ConcatAppend(a: seq<string>, b: seq<string>)
    ensures Concat(a + b) == Concat(a) + Concat(b)
  {
    if a != [] {
      assert (a + b)[1..] == a[1..] + b;
      ConcatAppend(a[1..], b);
    } else {
      assert a + b == b;
    }
  }

  /** The position of the first element satisfying `p`. */
  function FirstIndex<T>(s: seq<T>, p: T -> bool): (r: Option<nat>)
    ensures r.Some? ==> r.value < |s| && p(s[r.value])
    ensures r.Some? ==> forall j :: 0 <= j < r.value ==> !p(s[j])
    ensures r.None? ==> forall j :: 0 <= j < |s| ==> !p(s[j])
    decreases |s|
  {
    if s == [] then None
    else if p(s[0]) then Some(0)
    else
      match FirstIndex(s[1..], p)
      case None => None
      case Some(i) => Some(i + 1)
  }

  /** The end of the run of elements satisfying `p` that starts at `from`. */
  function RunEnd<T>(s: seq<T>, p: T -> bool, from: nat): (r: nat)
    requires from <= |s|
    ensures from <= r <= |s|
    ensures forall j :: from <= j < r ==> p(s[j])
    ensures r < |s| ==> !p(s[r])
    decreases |s| - from
  {
    if from == |s| || !p(s[from]) then from else RunEnd(s, p, from + 1)
  }

  /** RunEnd is the only position that ends the run. */
  lemma RunEndUnique<T>(s: seq<T>, p: T -> bool, from: nat, k: nat)
    requires from <= k <= |s|
    requires forall j :: from <= j < k ==> p(s[j])
    requires k < |s| ==> !p(s[k])
    ensures RunEnd(s, p, from) == k
  {
  }

  /** FirstIndex is the only position that starts the first match. */
  lemma {:induction false} FirstIndexUnique<T>(s: seq<T>, p: T -> bool, i: nat)
    requires i < |s| && p(s[i])
    requires forall j :: 0 <= j < i ==> !p(s[j])
    ensures FirstIndex(s, p) == Some(i)
    decreases i
  {
    if i > 0 {
      FirstIndexUnique(s[1..], p, i - 1);
    }
  }
}

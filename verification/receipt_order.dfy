/** The order `search_receipts` leaves its results in. `Vec::sort_by` is a
    stable sort; the comparator `pb.cmp(&pa)` compares the parsed `stored_at`
    instants in reverse, and Rust orders `None` below every `Some`, so the
    newest receipts come first and those without a usable `stored_at` last.
    The sort is modelled by a stable insertion sort on a key function. */
module ReceiptOrder {
  import opened Text

  /** `a < b` in Rust's `Ord` for `Option<OffsetDateTime>`: `None` is the
      least value, and two `Some`s compare by their instants. */
  predicate Less(a: Option<int>, b: Option<int>) {
    b.Some? && (a.None? || a.value < b.value)
  }

  /** Newest first: no element has a smaller key than one after it. */
  predicate SortedDesc<T>(xs: seq<T>, key: T -> Option<int>) {
    forall i, j :: 0 <= i < j < |xs| ==> !Less(key(xs[i]), key(xs[j]))
  }

  /** Inserts `x` into a newest-first sequence behind every element whose
      key is not smaller than its own. */
  function Insert<T>(s: seq<T>, x: T, key: T -> Option<int>): seq<T> {
    if s == [] then [x]
    else if Less(key(s[0]), key(x)) then [x] + s
    else [s[0]] + Insert(s[1..], x, key)
  }

  /** `xs.sort_by(|a, b| key(b).cmp(&key(a)))`. */
  function SortDesc<T>(xs: seq<T>, key: T -> Option<int>): seq<T> {
    if xs == [] then []
    else Insert(SortDesc(xs[..|xs| - 1], key), xs[|xs| - 1], key)
  }

  /** The elements of `xs` whose key is `k`, in their order in `xs`. */
  function WithKey<T>(xs: seq<T>, key: T -> Option<int>, k: Option<int>): seq<T> {
    if xs == [] then []
    else (if key(xs[0]) == k then [xs[0]] else []) + WithKey(xs[1..], key, k)
  }

  // ---------------------------------------------------------------------
  // Insert.

  lemma {:induction false} InsertPermutes<T>(s: seq<T>, x: T, key: T -> Option<int>)
    ensures multiset(Insert(s, x, key)) == multiset(s) + multiset{x}
  {
    if s != [] && !Less(key(s[0]), key(x)) {
      InsertPermutes(s[1..], x, key);
      assert s == [s[0]] + s[1..];
    }
  }

  lemma {:induction false} InsertSorted<T>(s: seq<T>, x: T, key: T -> Option<int>)
    requires SortedDesc(s, key)
    ensures SortedDesc(Insert(s, x, key), key)
  {
    if s != [] && !Less(key(s[0]), key(x)) {
      var t := Insert(s[1..], x, key);
      assert SortedDesc(s[1..], key) by {
        forall i, j | 0 <= i < j < |s[1..]| ensures !Less(key(s[1..][i]), key(s[1..][j])) {
          assert s[1..][i] == s[i + 1] && s[1..][j] == s[j + 1];
        }
      }
      InsertSorted(s[1..], x, key);
      InsertPermutes(s[1..], x, key);
      var r := [s[0]] + t;
      forall j | 0 < j < |r| ensures !Less(key(r[0]), key(r[j])) {
        assert r[j] == t[j - 1];
        assert r[j] in multiset(s[1..]) + multiset{x} by {
          assert r[j] in multiset(t);
        }
        if r[j] != x {
          var m :| 0 <= m < |s[1..]| && s[1..][m] == r[j];
          assert s[m + 1] == r[j];
        }
      }
      forall i, j | 0 < i < j < |r| ensures !Less(key(r[i]), key(r[j])) {
        assert r[i] == t[i - 1] && r[j] == t[j - 1];
      }
    }
  }

  /** Inserting into a newest-first sequence keeps the relative order of the
      elements that share `x`'s key and puts `x` after all of them. */
  lemma {:induction false} InsertStable<T>(s: seq<T>, x: T, key: T -> Option<int>, k: Option<int>)
    requires SortedDesc(s, key)
    ensures WithKey(Insert(s, x, key), key, k) == WithKey(s, key, k) + (if key(x) == k then [x] else [])
  {
    var tail := if key(x) == k then [x] else [];
    if s == [] {
      assert WithKey([x], key, k) == tail + WithKey([x][1..], key, k);
    } else if Less(key(s[0]), key(x)) {
      var r := [x] + s;
      assert r[1..] == s;
      assert WithKey(r, key, k) == tail + WithKey(s, key, k);
      if key(x) == k {
        NoneWithKey(s, key, k);
      }
    } else {
      var t := Insert(s[1..], x, key);
      var head := if key(s[0]) == k then [s[0]] else [];
      assert SortedDesc(s[1..], key) by {
        forall i, j | 0 <= i < j < |s[1..]| ensures !Less(key(s[1..][i]), key(s[1..][j])) {
          assert s[1..][i] == s[i + 1] && s[1..][j] == s[j + 1];
        }
      }
      InsertStable(s[1..], x, key, k);
      assert ([s[0]] + t)[1..] == t;
      calc {
        WithKey(Insert(s, x, key), key, k);
        WithKey([s[0]] + t, key, k);
        head + WithKey(t, key, k);
        head + (WithKey(s[1..], key, k) + tail);
        (head + WithKey(s[1..], key, k)) + tail;
        WithKey(s, key, k) + tail;
      }
    }
  }

  /** In a newest-first sequence whose head is older than `k`, no element has key `k`. */
  lemma {:induction false} NoneWithKey<T>(s: seq<T>, key: T -> Option<int>, k: Option<int>)
    requires SortedDesc(s, key)
    requires s != [] ==> Less(key(s[0]), k)
    ensures WithKey(s, key, k) == []
  {
    if s != [] {
      assert key(s[0]) != k;
      if |s| > 1 {
        assert !Less(key(s[0]), key(s[1]));
      }
      NoneWithKey(s[1..], key, k);
    }
  }

  lemma {:induction false} WithKeyAppend<T>(a: seq<T>, b: seq<T>, key: T -> Option<int>, k: Option<int>)
    ensures WithKey(a + b, key, k) == WithKey(a, key, k) + WithKey(b, key, k)
  {
    if a == [] {
      assert a + b == b;
    } else {
      var head := if key(a[0]) == k then [a[0]] else [];
      WithKeyAppend(a[1..], b, key, k);
      assert (a + b)[0] == a[0];
      assert (a + b)[1..] == a[1..] + b;
      calc {
        WithKey(a + b, key, k);
        head + WithKey(a[1..] + b, key, k);
        head + (WithKey(a[1..], key, k) + WithKey(b, key, k));
        (head + WithKey(a[1..], key, k)) + WithKey(b, key, k);
      }
    }
  }

  // ---------------------------------------------------------------------
  // The sort.

  /** The sort returns the receipts it was given, each as often as given. */
  lemma {:induction false} SortPermutes<T>(xs: seq<T>, key: T -> Option<int>)
    ensures multiset(SortDesc(xs, key)) == multiset(xs)
  {
    if xs != [] {
      SortPermutes(xs[..|xs| - 1], key);
      InsertPermutes(SortDesc(xs[..|xs| - 1], key), xs[|xs| - 1], key);
      assert xs == xs[..|xs| - 1] + [xs[|xs| - 1]];
    }
  }

  /** The sort puts the receipts newest first. */
  lemma {:induction false} SortSorted<T>(xs: seq<T>, key: T -> Option<int>)
    ensures SortedDesc(SortDesc(xs, key), key)
  {
    if xs != [] {
      SortSorted(xs[..|xs| - 1], key);
      InsertSorted(SortDesc(xs[..|xs| - 1], key), xs[|xs| - 1], key);
    }
  }

  /** The sort is stable: receipts with equal keys keep their input order. */
  lemma {:induction false} SortStable<T>(xs: seq<T>, key: T -> Option<int>, k: Option<int>)
    ensures WithKey(SortDesc(xs, key), key, k) == WithKey(xs, key, k)
  {
    if xs != [] {
      var init := xs[..|xs| - 1];
      var x := xs[|xs| - 1];
      SortStable(init, key, k);
      SortSorted(init, key);
      InsertStable(SortDesc(init, key), x, key, k);
      WithKeyAppend(init, [x], key, k);
      assert xs == init + [x];
    }
  }

  /** The head of a non-empty sorted result is a newest receipt of the input:
      no input receipt has a greater key. */
  lemma SortHeadNewest<T>(xs: seq<T>, key: T -> Option<int>)
    requires xs != []
    ensures SortDesc(xs, key) != []
    ensures forall y :: y in xs ==> !Less(key(SortDesc(xs, key)[0]), key(y))
  {
    var s := SortDesc(xs, key);
    SortPermutes(xs, key);
    SortSorted(xs, key);
    assert xs[0] in multiset(s);
    forall y | y in xs ensures !Less(key(s[0]), key(y)) {
      assert y in multiset(xs);
      var j :| 0 <= j < |s| && s[j] == y;
    }
  }
}

/** The Rust standard-library string operations the signer relies on, over bytes:
    `str::replace`, `[String]::join`, and the ordering `Ord for String` that
    `Vec::sort` uses. Splitting is the inverse a server applies to a query. */
module Strings {
  import opened Bytes

  /** Number of occurrences of `b` in `s`. */
  function Count(s: Bytes, b: Byte): (n: nat)
    ensures n <= |s|
    ensures n == 0 <==> b !in s
  {
    if |s| == 0 then 0 else (if s[0] == b then 1 else 0) + Count(s[1..], b)
  }

  lemma {:induction false} CountConcat(a: Bytes, c: Bytes, b: Byte)
    ensures Count(a + c, b) == Count(a, b) + Count(c, b)
  {
    if |a| > 0 {
      assert (a + c)[1..] == a[1..] + c;
      CountConcat(a[1..], c, b);
    } else {
      assert a + c == c;
    }
  }

  // ---------------------------------------------------------------------------
  // str::replace

  /** `s.replace(pat, rep)`: the occurrences of `pat` are found left to right,
      never overlapping, and each is replaced by `rep`. */
  function Replace(s: Bytes, pat: Bytes, rep: Bytes): Bytes
    requires |pat| > 0
    decreases |s|
  {
    if |s| < |pat| then s
    else if s[..|pat|] == pat then rep + Replace(s[|pat|..], pat, rep)
    else [s[0]] + Replace(s[1..], pat, rep)
  }

  /** Every byte of the result comes from the input or from the replacement, and
      a one-byte pattern that the replacement does not contain is gone. */
  lemma {:induction false} ReplaceBytes(s: Bytes, pat: Bytes, rep: Bytes)
    requires |pat| > 0
    ensures forall b :: b in Replace(s, pat, rep) ==> b in s || b in rep
    ensures |pat| == 1 && pat[0] !in rep ==> pat[0] !in Replace(s, pat, rep)
    decreases |s|
  {
    if |s| < |pat| {
    } else if s[..|pat|] == pat {
      ReplaceBytes(s[|pat|..], pat, rep);
    } else {
      ReplaceBytes(s[1..], pat, rep);
      if |pat| == 1 {
        assert s[..1] == [s[0]];
      }
    }
  }

  /** A byte that cannot start the pattern is copied and the search goes on after it. */
  lemma ReplaceHeadMiss(s: Bytes, pat: Bytes, rep: Bytes)
    requires |pat| > 0 && |s| > 0 && s[0] != pat[0]
    ensures Replace(s, pat, rep) == [s[0]] + Replace(s[1..], pat, rep)
  {
    if |s| < |pat| {
      assert Replace(s[1..], pat, rep) == s[1..];
      assert [s[0]] + s[1..] == s;
    } else {
      assert s[..|pat|][0] == s[0];
    }
  }

  /** Replacing a string that does not contain the pattern's first byte is the identity. */
  lemma {:induction false} ReplaceAbsent(s: Bytes, pat: Bytes, rep: Bytes)
    requires |pat| > 0 && pat[0] !in s
    ensures Replace(s, pat, rep) == s
  {
    if |s| > 0 {
      ReplaceHeadMiss(s, pat, rep);
      ReplaceAbsent(s[1..], pat, rep);
      assert [s[0]] + s[1..] == s;
    }
  }

  /** With a one-byte pattern no occurrence can straddle a boundary, so replacing
      distributes over concatenation. */
  lemma {:induction false} ReplaceByteConcat(a: Bytes, c: Bytes, pat: Bytes, rep: Bytes)
    requires |pat| == 1
    ensures Replace(a + c, pat, rep) == Replace(a, pat, rep) + Replace(c, pat, rep)
  {
    if |a| > 0 {
      assert (a + c)[1..] == a[1..] + c;
      assert (a + c)[..1] == a[..1];
      ReplaceByteConcat(a[1..], c, pat, rep);
    } else {
      assert a + c == c;
    }
  }

  /** A piece of percent-encoded text: one byte other than `%`, or `%` followed by
      two bytes other than `%`. */
  predicate Token(t: Bytes) {
    (|t| == 1 && t[0] != PERCENT) ||
    (|t| == 3 && t[0] == PERCENT && t[1] != PERCENT && t[2] != PERCENT)
  }

  /** A three-byte pattern that starts with `%` can only match at the start of a
      token, so replacing it distributes over a token followed by anything. */
  lemma ReplaceTokenConcat(t: Bytes, c: Bytes, pat: Bytes, rep: Bytes)
    requires Token(t) && |pat| == 3 && pat[0] == PERCENT
    ensures Replace(t + c, pat, rep) == Replace(t, pat, rep) + Replace(c, pat, rep)
  {
    if |t| == 1 {
      ReplaceSingleConcat(t, c, pat, rep);
    } else if t == pat {
      var s := t + c;
      assert s[..3] == pat && s[3..] == c;
      assert Replace(t, pat, rep) == rep + Replace([], pat, rep);
    } else {
      ReplaceTripleMissConcat(t, c, pat, rep);
    }
  }

  lemma ReplaceSingleConcat(t: Bytes, c: Bytes, pat: Bytes, rep: Bytes)
    requires |t| == 1 && |pat| == 3 && t[0] != pat[0]
    ensures Replace(t + c, pat, rep) == Replace(t, pat, rep) + Replace(c, pat, rep)
  {
    var s := t + c;
    ReplaceHeadMiss(s, pat, rep);
    assert s[1..] == c;
    ReplaceHeadMiss(t, pat, rep);
    assert t[1..] == [];
  }

  lemma ReplaceTripleMissConcat(t: Bytes, c: Bytes, pat: Bytes, rep: Bytes)
    requires |t| == 3 && |pat| == 3 && t != pat && t[1] != pat[0] && t[2] != pat[0]
    ensures Replace(t + c, pat, rep) == Replace(t, pat, rep) + Replace(c, pat, rep)
  {
    var s := t + c;
    assert s[..3] == t && s[3..] == c;
    ReplaceTripleMiss(s, pat, rep);
    ReplaceTripleMiss(t, pat, rep);
    assert t[3..] == [];
  }

  /** Three bytes that are not the pattern, and whose last two cannot start it,
      are copied. */
  lemma ReplaceTripleMiss(s: Bytes, pat: Bytes, rep: Bytes)
    requires |s| >= 3 && |pat| == 3 && s[..3] != pat && s[1] != pat[0] && s[2] != pat[0]
    ensures Replace(s, pat, rep) == s[..3] + Replace(s[3..], pat, rep)
  {
    assert Replace(s, pat, rep) == [s[0]] + Replace(s[1..], pat, rep);
    ReplaceHeadMiss(s[1..], pat, rep);
    ReplaceHeadMiss(s[2..], pat, rep);
    assert s[1..][1..] == s[2..] && s[2..][1..] == s[3..];
    assert s[..3] == [s[0]] + [s[1]] + [s[2]];
  }

  // ---------------------------------------------------------------------------
  // [String]::join and its inverse

  /** `parts.join(sep)`: the parts with one `sep` between neighbours. */
  function Join(parts: seq<Bytes>, sep: Byte): (joined: Bytes)
    ensures |parts| > 0 && (forall i :: 0 <= i < |parts| ==> sep !in parts[i]) ==>
      Count(joined, sep) == |parts| - 1
  {
    if |parts| == 0 then []
    else if |parts| == 1 then parts[0]
    else
      var rest := Join(parts[1..], sep);
      CountConcat(parts[0] + [sep], rest, sep);
      CountConcat(parts[0], [sep], sep);
      parts[0] + [sep] + rest
  }

  /** Appending one more part after a non-empty list puts one separator before it. */
  lemma {:induction false} JoinAppend(parts: seq<Bytes>, x: Bytes, sep: Byte)
    requires |parts| > 0
    ensures Join(parts + [x], sep) == Join(parts, sep) + [sep] + x
  {
    if |parts| > 1 {
      assert (parts + [x])[1..] == parts[1..] + [x];
      JoinAppend(parts[1..], x, sep);
    } else {
      assert (parts + [x])[1..] == [x];
    }
  }

  /** Cut `s` at every `sep`; a string with k separators gives k + 1 pieces. */
  function SplitOn(s: Bytes, sep: Byte): (pieces: seq<Bytes>)
    ensures |pieces| == Count(s, sep) + 1
  {
    if |s| == 0 then [[]]
    else if s[0] == sep then [[]] + SplitOn(s[1..], sep)
    else
      var rest := SplitOn(s[1..], sep);
      [[s[0]] + rest[0]] + rest[1..]
  }

  lemma {:induction false} SplitOnPlain(a: Bytes, sep: Byte)
    requires sep !in a
    ensures SplitOn(a, sep) == [a]
  {
    if |a| > 0 {
      SplitOnPlain(a[1..], sep);
      assert [a[0]] + a[1..] == a;
    }
  }

  lemma {:induction false} SplitOnAfterPlain(a: Bytes, c: Bytes, sep: Byte)
    requires sep !in a
    ensures SplitOn(a + [sep] + c, sep) == [a] + SplitOn(c, sep)
  {
    var s := a + [sep] + c;
    if |a| == 0 {
      assert s[1..] == c;
    } else {
      assert s[1..] == a[1..] + [sep] + c;
      SplitOnAfterPlain(a[1..], c, sep);
      var rest := SplitOn(s[1..], sep);
      assert rest[0] == a[1..] && rest[1..] == SplitOn(c, sep);
      assert s[0] == a[0] != sep;
      assert [a[0]] + a[1..] == a;
    }
  }

  /** Joining parts free of the separator and splitting again gives the parts
      back: the separator is unambiguous. */
  lemma {:induction false} SplitOnJoin(parts: seq<Bytes>, sep: Byte)
    requires |parts| > 0
    requires forall i :: 0 <= i < |parts| ==> sep !in parts[i]
    ensures SplitOn(Join(parts, sep), sep) == parts
  {
    if |parts| == 1 {
      SplitOnPlain(parts[0], sep);
    } else {
      SplitOnJoin(parts[1..], sep);
      SplitOnAfterPlain(parts[0], Join(parts[1..], sep), sep);
      assert [parts[0]] + parts[1..] == parts;
    }
  }

  lemma JoinThree(a: Bytes, b: Bytes, c: Bytes, sep: Byte)
    ensures a + [sep] + b + [sep] + c == Join([a, b, c], sep)
  {
    var fields := [a, b, c];
    assert fields[1..] == [b, c] && fields[1..][1..] == [c];
    assert Join([b, c], sep) == b + [sep] + c;
  }

  /** Three fields free of the separator, joined by it, split back into them. */
  lemma ThreeFields(a: Bytes, b: Bytes, c: Bytes, sep: Byte)
    requires sep !in a && sep !in b && sep !in c
    ensures a + [sep] + b + [sep] + c == Join([a, b, c], sep)
    ensures SplitOn(a + [sep] + b + [sep] + c, sep) == [a, b, c]
  {
    var fields := [a, b, c];
    JoinThree(a, b, c, sep);
    forall i | 0 <= i < |fields| ensures sep !in fields[i] {
    }
    SplitOnJoin(fields, sep);
  }

  /** The text before the first `sep` and the text after it, if `sep` occurs. */
  function SplitFirst(s: Bytes, sep: Byte): Option<(Bytes, Bytes)> {
    if |s| == 0 then None
    else if s[0] == sep then Some(([], s[1..]))
    else match SplitFirst(s[1..], sep)
      case None => None
      case Some((before, after)) => Some(([s[0]] + before, after))
  }

  lemma {:induction false} SplitFirstAt(a: Bytes, c: Bytes, sep: Byte)
    requires sep !in a
    ensures SplitFirst(a + [sep] + c, sep) == Some((a, c))
  {
    var s := a + [sep] + c;
    if |a| == 0 {
      assert s[1..] == c;
    } else {
      assert s[1..] == a[1..] + [sep] + c;
      SplitFirstAt(a[1..], c, sep);
      assert [a[0]] + a[1..] == a;
    }
  }

  // ---------------------------------------------------------------------------
  // Ord for String: byte-wise lexicographic order

  /** `a <= b` for Rust strings: the first differing byte decides, and a proper
      prefix comes first. */
  predicate LexLe(a: Bytes, b: Bytes)
    decreases |a|
  {
    |a| == 0 || (|b| > 0 && (a[0] < b[0] || (a[0] == b[0] && LexLe(a[1..], b[1..]))))
  }

  lemma {:induction false} LexLeReflexive(a: Bytes)
    ensures LexLe(a, a)
    decreases |a|
  {
    if |a| > 0 {
      LexLeReflexive(a[1..]);
    }
  }

  lemma {:induction false} LexLeTotal(a: Bytes, b: Bytes)
    ensures LexLe(a, b) || LexLe(b, a)
    decreases |a|
  {
    if |a| > 0 && |b| > 0 && a[0] == b[0] {
      LexLeTotal(a[1..], b[1..]);
    }
  }

  lemma {:induction false} LexLeTransitive(a: Bytes, b: Bytes, c: Bytes)
    requires LexLe(a, b) && LexLe(b, c)
    ensures LexLe(a, c)
    decreases |a|
  {
    if |a| > 0 && a[0] == b[0] && b[0] == c[0] {
      LexLeTransitive(a[1..], b[1..], c[1..]);
    }
  }

  lemma {:induction false} LexLeAntisymmetric(a: Bytes, b: Bytes)
    requires LexLe(a, b) && LexLe(b, a)
    ensures a == b
    decreases |a|
  {
    if |a| > 0 {
      LexLeAntisymmetric(a[1..], b[1..]);
      assert a == [a[0]] + a[1..] && b == [b[0]] + b[1..];
    }
  }

  /** Ascending order, as `Vec::sort` leaves a vector of strings. */
  predicate Sorted(s: seq<Bytes>) {
    forall i, j :: 0 <= i < j < |s| ==> LexLe(s[i], s[j])
  }

  lemma MultisetTail(a: seq<Bytes>)
    requires |a| > 0
    ensures multiset(a[1..]) == multiset(a) - multiset{a[0]}
  {
    assert a == [a[0]] + a[1..];
  }

  lemma SortedTail(a: seq<Bytes>)
    requires |a| > 0 && Sorted(a)
    ensures Sorted(a[1..])
  {
    forall i, j | 0 <= i < j < |a| - 1 ensures LexLe(a[1..][i], a[1..][j]) {
      assert a[1..][i] == a[i + 1] && a[1..][j] == a[j + 1];
    }
  }

  /** The first element of a sorted sequence is its least. */
  lemma SortedHeadLeast(a: seq<Bytes>, x: Bytes)
    requires Sorted(a) && x in a
    ensures LexLe(a[0], x)
  {
    var i :| 0 <= i < |a| && a[i] == x;
    if i == 0 {
      LexLeReflexive(x);
    }
  }

  /** For a total order there is only one sorted arrangement of a multiset, so
      the outcome of sorting does not depend on the algorithm. */
  lemma {:induction false} SortedPermutationUnique(a: seq<Bytes>, b: seq<Bytes>)
    requires Sorted(a) && Sorted(b) && multiset(a) == multiset(b)
    ensures a == b
    decreases |a|
  {
    if |a| == 0 {
      assert |b| == |multiset(b)|;
    } else {
      assert |b| == |multiset(b)| == |multiset(a)| == |a|;
      assert a[0] in multiset(b) && b[0] in multiset(a);
      SortedHeadLeast(b, a[0]);
      SortedHeadLeast(a, b[0]);
      LexLeAntisymmetric(a[0], b[0]);
      MultisetTail(a);
      MultisetTail(b);
      SortedTail(a);
      SortedTail(b);
      SortedPermutationUnique(a[1..], b[1..]);
      assert a == [a[0]] + a[1..] && b == [b[0]] + b[1..];
    }
  }

  /** After a common prefix, the first differing byte decides the order. */
  lemma {:induction false} LexLeAfterPrefix(p: Bytes, a: Bytes, b: Bytes)
    requires |a| > 0 && |b| > 0 && b[0] < a[0]
    ensures LexLe(p + b, p + a) && !LexLe(p + a, p + b)
    decreases |p|
  {
    if |p| == 0 {
      assert p + a == a && p + b == b;
    } else {
      assert (p + a)[1..] == p[1..] + a && (p + b)[1..] == p[1..] + b;
      assert (p + a)[0] == p[0] == (p + b)[0];
      LexLeAfterPrefix(p[1..], a, b);
    }
  }

  lemma OrderedAfterPrefix(x: Bytes, y: Bytes, p: Bytes, b: Bytes, a: Bytes)
    requires |a| > 0 && |b| > 0 && b[0] < a[0]
    requires x == p + b && y == p + a
    ensures LexLe(x, y) && !LexLe(y, x)
  {
    LexLeAfterPrefix(p, a, b);
  }

  // Solver hint: regrouping a concatenation, stated once on variables so that
  // callers with long concrete operands need not prove it in their own context.
  lemma ConcatRegroup(p: Bytes, s: Bytes, e: Bytes, x: Bytes)
    ensures p + s + e + x == p + (s + e + x)
  {
  }

  /** A sequence whose last element orders below one of the earlier ones is not
      sorted. */
  lemma UnsortedWhenLastBelow(s: seq<Bytes>, m: Bytes)
    requires |s| > 0 && m in multiset(s[..|s| - 1]) && !LexLe(m, s[|s| - 1])
    ensures !Sorted(s)
  {
    var k :| 0 <= k < |s| - 1 && s[..|s| - 1][k] == m;
    assert s[k] == m;
  }

  // Solver hint: as ConcatRegroup, for a separator between two parts.
  lemma ConcatAssoc(a: Bytes, b: Bytes, sep: Byte, c: Bytes)
    ensures a + (b + [sep] + c) == a + b + [sep] + c
  {
  }

  // Solver hint: the parts of a list with one element appended, stated on
  // variables for the same reason.
  lemma AppendParts(init: seq<Bytes>, x: Bytes)
    ensures (init + [x])[..|init|] == init && (init + [x])[|init|] == x
  {
  }
}

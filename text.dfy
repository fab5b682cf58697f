/** The parts of Python's `str` that the modelled code relies on:
    `isspace`, `strip`, `startswith`, `split` and `join`. */
module Text {
  import opened Wrappers

  /** Python's truth value of a `str` or `None`: neither `None` nor empty. */
  predicate Truthy(s: Option<string>)
  {
    s.Some? && s.value != ""
  }

  /** Python's `str.isspace()` on one character; the regular-expression
      class `\s` of a `str` pattern is the same set. */
  predicate IsSpace(c: char)
  {
    || ('\t' <= c <= '\r')
    || ('\U{1C}' <= c <= '\U{1F}')
    || c == ' '
    || c == '\U{85}'
    || c == '\U{A0}'
    || c == '\U{1680}'
    || ('\U{2000}' <= c <= '\U{200A}')
    || c == '\U{2028}'
    || c == '\U{2029}'
    || c == '\U{202F}'
    || c == '\U{205F}'
    || c == '\U{3000}'
  }

  predicate AllSpace(s: string)
  {
    forall k :: 0 <= k < |s| ==> IsSpace(s[k])
  }

  /** `s.strip()` is non-empty */
  predicate HasNonSpace(s: string)
  {
    exists k :: 0 <= k < |s| && !IsSpace(s[k])
  }

  predicate IsAsciiDigit(c: char)
  {
    '0' <= c <= '9'
  }

  /** `s.startswith(prefix)` */
  predicate StartsWith(s: string, prefix: string)
  {
    |prefix| <= |s| && s[..|prefix|] == prefix
  }

  /** Number of leading whitespace characters of `s`. */
  function LeadingSpaces(s: string): (n: nat)
    ensures n <= |s|
    ensures AllSpace(s[..n])
    ensures n == |s| || !IsSpace(s[n])
  {
    if s == [] || !IsSpace(s[0]) then 0
    else
      var n := 1 + LeadingSpaces(s[1..]);
      assert s[..n] == [s[0]] + s[1..][..n - 1];
      n
  }

  /** Where the trailing white space of `s[a..b]` begins, given that
      `s[b..]` is all white space. */
  function TrimEnd(s: string, a: nat, b: nat): (e: nat)
    requires a <= b <= |s| && AllSpace(s[b..])
    ensures a <= e <= b && AllSpace(s[e..])
    ensures e == a || !IsSpace(s[e - 1])
    decreases b
  {
    if b == a || !IsSpace(s[b - 1]) then b
    else
      assert s[b - 1..] == [s[b - 1]] + s[b..];
      TrimEnd(s, a, b - 1)
  }

  /** `s[a..b]` is `s` with only white space cut off at either end. */
  predicate Trims(s: string, a: nat, b: nat)
  {
    a <= b <= |s| && AllSpace(s[..a]) && AllSpace(s[b..])
  }

  /** `s.strip()`: `s` with its leading and trailing whitespace removed. */
  function Strip(s: string): (r: string)
    ensures exists a: nat, b: nat :: Trims(s, a, b) && r == s[a..b]
    ensures r == [] || (!IsSpace(r[0]) && !IsSpace(r[|r| - 1]))
    ensures r == [] <==> AllSpace(s)
  {
    var (a, b) := StripBounds(s);
    StripEnds(s, a, b);
    s[a..b]
  }

  /** Where `s.strip()` starts and ends in `s`. */
  function StripBounds(s: string): (p: (nat, nat))
    ensures Trims(s, p.0, p.1)
    ensures p.0 == |s| || !IsSpace(s[p.0])
    ensures p.1 == p.0 || !IsSpace(s[p.1 - 1])
  {
    var a := LeadingSpaces(s);
    assert s[|s|..] == [];
    (a, TrimEnd(s, a, |s|))
  }

  lemma AllSpaceConcat(s: string, a: nat)
    requires a <= |s| && AllSpace(s[..a]) && AllSpace(s[a..])
    ensures AllSpace(s)
  {
    forall k | 0 <= k < |s| ensures IsSpace(s[k]) {
      if k < a {
        assert s[..a][k] == s[k];
      } else {
        assert s[a..][k - a] == s[k];
      }
    }
  }

  /** The slice between the first and the last non-space character. */
  lemma StripEnds(s: string, a: nat, b: nat)
    requires a <= b <= |s| && AllSpace(s[..a]) && AllSpace(s[b..])
    requires a == |s| || !IsSpace(s[a])
    requires b == a || !IsSpace(s[b - 1])
    ensures s[a..b] == [] || (!IsSpace(s[a..b][0]) && !IsSpace(s[a..b][|s[a..b]| - 1]))
    ensures s[a..b] == [] <==> AllSpace(s)
  {
    if a == b {
      AllSpaceConcat(s, a);
    }
  }

  /** `sep.join(parts)` */
  function Join(parts: seq<string>, sep: string): string
  {
    if |parts| == 0 then ""
    else if |parts| == 1 then parts[0]
    else parts[0] + sep + Join(parts[1..], sep)
  }

  /** Index of the first occurrence of `c` in `s`. */
  function IndexOf(s: string, c: char): (k: nat)
    requires c in s
    ensures k < |s| && s[k] == c && c !in s[..k]
  {
    if s[0] == c then 0
    else
      var k := 1 + IndexOf(s[1..], c);
      assert s[..k] == [s[0]] + s[1..][..k - 1];
      k
  }

  /** `s.split(c)` for a one-character separator: the pieces between the
      occurrences of `c`, so that joining them with `c` gives `s` back. */
  function Split(s: string, c: char): (parts: seq<string>)
    ensures |parts| >= 1
    ensures c !in s ==> parts == [s]
    ensures c in s ==> |parts| >= 2
    ensures Join(parts, [c]) == s
    decreases |s|
  {
    if c !in s then [s]
    else
      var k := IndexOf(s, c);
      var rest := Split(s[k + 1..], c);
      assert s == s[..k] + [c] + s[k + 1..];
      [s[..k]] + rest
  }

  /** No piece of `s.split(c)` contains `c`. */
  lemma {:induction false} SplitPiecesFree(s: string, c: char)
    ensures forall k :: 0 <= k < |Split(s, c)| ==> c !in Split(s, c)[k]
    decreases |s|
  {
    if c in s {
      SplitPiecesFree(s[IndexOf(s, c) + 1..], c);
    }
  }

  /** A string made of pieces free of `c`, glued with `c`, splits back
      into exactly those pieces. */
  lemma {:induction false} SplitJoin(parts: seq<string>, c: char)
    requires |parts| >= 1
    requires forall k :: 0 <= k < |parts| ==> c !in parts[k]
    ensures Split(Join(parts, [c]), c) == parts
  {
    if |parts| == 1 {
    } else {
      var s := Join(parts, [c]);
      var tail := Join(parts[1..], [c]);
      assert s == parts[0] + [c] + tail;
      assert c in s by { assert s[|parts[0]|] == c; }
      IndexOfAfter(parts[0], c, tail);
      var k := IndexOf(s, c);
      assert s[..k] == parts[0];
      assert s[k + 1..] == tail;
      SplitJoin(parts[1..], c);
    }
  }

  lemma IndexOfAfter(a: string, c: char, b: string)
    requires c !in a
    ensures c in a + [c] + b && IndexOf(a + [c] + b, c) == |a|
  {
    var s := a + [c] + b;
    assert s[|a|] == c;
    assert s[..|a|] == a;
  }

  /** `s.count(c)` */
  function Count(s: string, c: char): nat
  {
    if s == [] then 0 else (if s[0] == c then 1 else 0) + Count(s[1..], c)
  }

  lemma {:induction false} CountAppend(a: string, b: string, c: char)
    ensures Count(a + b, c) == Count(a, c) + Count(b, c)
  {
    if a == [] {
      assert a + b == b;
    } else {
      assert (a + b)[0] == a[0];
      assert (a + b)[1..] == a[1..] + b;
      CountAppend(a[1..], b, c);
    }
  }

  lemma {:induction false} CountAbsent(s: string, c: char)
    requires c !in s
    ensures Count(s, c) == 0
  {
    if s != [] {
      CountAbsent(s[1..], c);
    }
  }

  /** Where the piece `k` of `sep.join(parts)` starts. */
  function JoinOffset(parts: seq<string>, sep: string, k: nat): nat
    requires k <= |parts|
  {
    if k == 0 then 0 else JoinOffset(parts, sep, k - 1) + |parts[k - 1]| + |sep|
  }

  lemma {:induction false} JoinOffsetShift(parts: seq<string>, sep: string, k: nat)
    requires 1 <= k <= |parts|
    ensures JoinOffset(parts, sep, k) == |parts[0]| + |sep| + JoinOffset(parts[1..], sep, k - 1)
  {
    if k > 1 {
      JoinOffsetShift(parts, sep, k - 1);
      assert parts[1..][k - 2] == parts[k - 1];
    }
  }

  lemma SliceBefore(x: string, y: string)
    ensures (x + y)[..|x|] == x
  {
  }

  lemma SliceAfter(x: string, y: string, i: nat, m: nat)
    requires i <= m <= |y|
    ensures (x + y)[|x| + i..|x| + m] == y[i..m]
  {
  }

  /** Piece `k` of `sep.join(parts)` sits at `JoinOffset(parts, sep, k)`. */
  lemma {:induction false} JoinPiece(parts: seq<string>, sep: string, k: nat)
    requires k < |parts|
    ensures JoinOffset(parts, sep, k) + |parts[k]| <= |Join(parts, sep)|
    ensures Join(parts, sep)[JoinOffset(parts, sep, k)..JoinOffset(parts, sep, k) + |parts[k]|] == parts[k]
  {
    if k == 0 {
      JoinFirstPiece(parts, sep);
    } else {
      var rest := parts[1..];
      JoinOffsetShift(parts, sep, k);
      JoinPiece(rest, sep, k - 1);
      assert rest[k - 1] == parts[k];
      var o := JoinOffset(rest, sep, k - 1);
      JoinTailSlice(parts, sep, o, o + |parts[k]|);
    }
  }

  /** The join ends right after its last piece: nothing follows it. */
  lemma {:induction false} JoinLength(parts: seq<string>, sep: string)
    requires |parts| >= 1
    ensures |Join(parts, sep)| == JoinOffset(parts, sep, |parts| - 1) + |parts[|parts| - 1]|
  {
    if |parts| > 1 {
      JoinLength(parts[1..], sep);
      JoinOffsetShift(parts, sep, |parts| - 1);
    }
  }

  /** `sep.join(parts)` is the first piece and `sep` followed by the join
      of the rest. */
  lemma JoinTailSlice(parts: seq<string>, sep: string, i: nat, m: nat)
    requires |parts| >= 2 && i <= m <= |Join(parts[1..], sep)|
    ensures |parts[0]| + |sep| + m <= |Join(parts, sep)|
    ensures Join(parts, sep)[|parts[0]| + |sep| + i..|parts[0]| + |sep| + m] == Join(parts[1..], sep)[i..m]
  {
    var x := parts[0] + sep;
    assert Join(parts, sep) == x + Join(parts[1..], sep);
    SliceAfter(x, Join(parts[1..], sep), i, m);
  }

  lemma JoinFirstPiece(parts: seq<string>, sep: string)
    requires |parts| >= 1
    ensures |parts[0]| <= |Join(parts, sep)| && Join(parts, sep)[..|parts[0]|] == parts[0]
  {
    if |parts| > 1 {
      assert Join(parts, sep) == parts[0] + (sep + Join(parts[1..], sep));
      SliceBefore(parts[0], sep + Join(parts[1..], sep));
    }
  }

  /** Between pieces `k` and `k + 1` there is exactly `sep`. */
  lemma {:induction false} JoinSeparator(parts: seq<string>, sep: string, k: nat)
    requires k + 1 < |parts|
    ensures JoinOffset(parts, sep, k + 1) <= |Join(parts, sep)|
    ensures Join(parts, sep)[JoinOffset(parts, sep, k) + |parts[k]|..JoinOffset(parts, sep, k + 1)] == sep
  {
    if k == 0 {
      JoinFirstSeparator(parts, sep);
    } else {
      var rest := parts[1..];
      JoinOffsetShift(parts, sep, k + 1);
      JoinOffsetShift(parts, sep, k);
      JoinSeparator(rest, sep, k - 1);
      assert rest[k - 1] == parts[k];
      JoinTailSlice(parts, sep, JoinOffset(rest, sep, k - 1) + |parts[k]|, JoinOffset(rest, sep, k));
    }
  }

  lemma JoinFirstSeparator(parts: seq<string>, sep: string)
    requires |parts| >= 2
    ensures |parts[0]| + |sep| <= |Join(parts, sep)|
    ensures Join(parts, sep)[|parts[0]|..|parts[0]| + |sep|] == sep
  {
    var tail := Join(parts[1..], sep);
    assert Join(parts, sep) == parts[0] + (sep + tail);
    SliceAfter(parts[0], sep + tail, 0, |sep|);
    SliceBefore(sep, tail);
  }

  lemma IndexOfFirst(s: string, c: char, k: nat)
    requires k < |s| && s[k] == c && c !in s[..k]
    ensures IndexOf(s, c) == k
  {
  }

  /** `s.split(c)` takes off the piece before the first `c`. */
  lemma SplitFirst(s: string, c: char)
    requires c in s
    ensures Split(s, c) == [s[..IndexOf(s, c)]] + Split(s[IndexOf(s, c) + 1..], c)
  {
  }

  /** The text before the first `c`, or all of `s` when it has none. */
  function BeforeFirst(s: string, c: char): (r: string)
    ensures c !in r
    ensures c !in s ==> r == s
    ensures c in s ==> |r| < |s| && s == r + [c] + s[|r| + 1..]
  {
    if c in s then s[..IndexOf(s, c)] else s
  }

  /** The first piece of `s.split(c)` is the text before the first `c`. */
  lemma SplitHead(s: string, c: char)
    ensures Split(s, c)[0] == BeforeFirst(s, c)
  {
  }

  lemma ConcatAssoc<T>(x: seq<T>, y: seq<T>, z: seq<T>)
    ensures x + (y + z) == (x + y) + z
  {
  }

  /** Splitting at a final separator: the pieces of `a`, then `b`. */
  lemma {:induction false} SplitAfter(a: string, c: char, b: string)
    requires c !in b
    ensures Split(a + [c] + b, c) == Split(a, c) + [b]
    decreases |a|
  {
    if c !in a {
      SplitAfterLast(a, c, b);
    } else {
      var k := IndexOf(a, c);
      var rest := a[k + 1..];
      SplitAfterFirst(a, c, b);
      SplitFirst(a, c);
      SplitAfter(rest, c, b);
      ConcatAssoc([a[..k]], Split(rest, c), [b]);
    }
  }

  lemma SplitAfterLast(a: string, c: char, b: string)
    requires c !in a && c !in b
    ensures Split(a + [c] + b, c) == Split(a, c) + [b]
  {
    SplitCut(a + [c] + b, c, |a|, a, b);
  }

  /** The first separator of `a + [c] + b` is the first one of `a` when
      `a` has one. */
  lemma SplitAfterFirst(a: string, c: char, b: string)
    requires c in a
    ensures Split(a + [c] + b, c) == [a[..IndexOf(a, c)]] + Split(a[IndexOf(a, c) + 1..] + [c] + b, c)
  {
    var s := a + [c] + b;
    var k := IndexOf(a, c);
    var head := a[..k];
    var tail := a[k + 1..] + [c] + b;
    SplitCut(s, c, k, head, tail);
  }

  lemma SplitCut(s: string, c: char, k: nat, head: string, tail: string)
    requires k < |s| && s[k] == c && c !in s[..k] && head == s[..k] && tail == s[k + 1..]
    ensures Split(s, c) == [head] + Split(tail, c)
  {
    IndexOfFirst(s, c, k);
  }
}

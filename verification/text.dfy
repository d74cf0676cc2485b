/**
 * The string operations the retriever relies on, over `string = seq<char>`:
 * ASCII upper-casing, the `.`-to-`-` rewrite of guide versions, Python's `sep in s`,
 * `s.split(sep)` and `sep.join(xs)`, and Python's code-point string order.
 */
module Text {

  /** ASCII upper-casing of one character (Python's `str.upper` restricted to ASCII). */
  function UpperChar(c: char): char {
    if 'a' <= c <= 'z' then (c as int - 32) as char else c
  }

  function Upper(s: string): string {
    seq(|s|, i requires 0 <= i < |s| => UpperChar(s[i]))
  }

  /** Python's `str.replace` of every dot by a hyphen (lines 92 and 130). */
  function Hyphenate(s: string): (r: string)
    ensures |r| == |s|
    ensures forall i :: 0 <= i < |s| ==> r[i] != '.'
    ensures forall i :: 0 <= i < |s| && s[i] == '.' ==> r[i] == '-'
    ensures forall i :: 0 <= i < |s| && s[i] != '.' ==> r[i] == s[i]
  {
    if s == [] then []
    else [if s[0] == '.' then '-' else s[0]] + Hyphenate(s[1..])
  }

  /** Rewriting an already rewritten version changes nothing. */
  lemma {:induction false} HyphenateIdempotent(s: string)
    ensures Hyphenate(Hyphenate(s)) == Hyphenate(s)
  {
    if s != [] {
      HyphenateIdempotent(s[1..]);
      assert Hyphenate(s)[1..] == Hyphenate(s[1..]);
    }
  }

  predicate IsAsciiDigit(c: char) {
    '0' <= c <= '9'
  }

  /** `s.isdigit()` for ASCII: non-empty and every character a digit. */
  predicate IsDigits(s: string) {
    |s| > 0 && forall i :: 0 <= i < |s| ==> IsAsciiDigit(s[i])
  }

  predicate StartsWith(s: string, p: string) {
    |p| <= |s| && s[..|p|] == p
  }

  /** `sep` occurs in `s` starting at index `i`. */
  predicate OccursAt(s: string, sep: string, i: nat) {
    i <= |s| && StartsWith(s[i..], sep)
  }

  /** Python's `sep in s`. */
  predicate Contains(s: string, sep: string)
    decreases |s|
  {
    StartsWith(s, sep) || (|s| > 0 && Contains(s[1..], sep))
  }

  /**
   * Python's `s.split(sep)`: scanning left to right, an occurrence of `sep` ends the
   * current piece; any other character extends it.
   */
  function Split(s: string, sep: string): (r: seq<string>)
    requires |sep| > 0
    decreases |s|
    ensures |r| >= 1
  {
    if |s| < |sep| then [s]
    else if StartsWith(s, sep) then [""] + Split(s[|sep|..], sep)
    else
      var rest := Split(s[1..], sep);
      [[s[0]] + rest[0]] + rest[1..]
  }

  /** Python's `sep.join(xs)`. */
  function Join(xs: seq<string>, sep: string): string {
    if |xs| == 0 then ""
    else if |xs| == 1 then xs[0]
    else xs[0] + sep + Join(xs[1..], sep)
  }

  function Last<T>(xs: seq<T>): T
    requires |xs| > 0
  {
    xs[|xs| - 1]
  }

  /** Prepending to the first piece prepends to the joined string. */
  lemma {:induction false} JoinConsFirst(c: char, xs: seq<string>, sep: string)
    requires |xs| > 0
    ensures Join([[c] + xs[0]] + xs[1..], sep) == [c] + Join(xs, sep)
  {
    var ys := [[c] + xs[0]] + xs[1..];
    if |xs| > 1 {
      assert ys[1..] == xs[1..];
    }
  }

  /** Joining the pieces of a split with the same separator gives back the string. */
  lemma {:induction false} JoinSplit(s: string, sep: string)
    requires |sep| > 0
    ensures Join(Split(s, sep), sep) == s
    decreases |s|
  {
    if |s| < |sep| {
    } else if StartsWith(s, sep) {
      var rest := s[|sep|..];
      JoinSplit(rest, sep);
      assert ([""] + Split(rest, sep))[1..] == Split(rest, sep);
      assert s == sep + rest;
    } else {
      JoinSplit(s[1..], sep);
      JoinConsFirst(s[0], Split(s[1..], sep), sep);
      assert s == [s[0]] + s[1..];
    }
  }

  /** A split has more than one piece exactly when the separator occurs. */
  lemma {:induction false} SplitCountsOccurrence(s: string, sep: string)
    requires |sep| > 0
    ensures Contains(s, sep) <==> |Split(s, sep)| >= 2
    decreases |s|
  {
    if |s| >= |sep| && !StartsWith(s, sep) {
      SplitCountsOccurrence(s[1..], sep);
    } else if |s| < |sep| && |s| > 0 {
      SplitCountsOccurrence(s[1..], sep);
    }
  }

  /** Where the last piece of `Split(s, sep)` starts in `s`. */
  function LastPieceStart(s: string, sep: string): nat
    requires |sep| > 0
    decreases |s|
  {
    if |s| < |sep| then 0
    else if StartsWith(s, sep) then |sep| + LastPieceStart(s[|sep|..], sep)
    else if |Split(s[1..], sep)| >= 2 then 1 + LastPieceStart(s[1..], sep)
    else 0
  }

  /** What `SplitLastIsSuffix` promises about one string. */
  predicate LastPieceFacts(s: string, sep: string)
    requires |sep| > 0
  {
    && LastPieceStart(s, sep) <= |s|
    && Last(Split(s, sep)) == s[LastPieceStart(s, sep)..]
    && !Contains(Last(Split(s, sep)), sep)
    && (|Split(s, sep)| >= 2 ==>
          LastPieceStart(s, sep) >= |sep| && OccursAt(s, sep, LastPieceStart(s, sep) - |sep|))
  }

  /**
   * The last piece of a split is the text after some occurrence of `sep`, or all of
   * `s` when `sep` does not occur; either way it holds no occurrence of `sep`.
   */
  lemma {:induction false} SplitLastIsSuffix(s: string, sep: string)
    requires |sep| > 0
    ensures LastPieceFacts(s, sep)
    decreases |s|, 1
  {
    if |s| < |sep| {
      NotContainsShort(s, sep);
    } else if StartsWith(s, sep) {
      SplitLastAfterSep(s, sep);
    } else {
      SplitLastAfterChar(s, sep);
    }
  }

  /** The case where `s` opens with the separator. */
  lemma {:induction false} SplitLastAfterSep(s: string, sep: string)
    requires |sep| > 0 && |s| >= |sep| && StartsWith(s, sep)
    ensures LastPieceFacts(s, sep)
    decreases |s|, 0
  {
    var rest := s[|sep|..];
    SplitLastIsSuffix(rest, sep);
    var k := LastPieceStart(rest, sep);
    assert Last(Split(s, sep)) == Last(Split(rest, sep));
    assert rest[k..] == s[|sep| + k..];
    if k > 0 {
      assert s[|sep| + k - |sep|..] == rest[k - |sep|..];
    } else {
      assert s[|sep| + k - |sep|..] == s;
    }
  }

  /** The case where the first character of `s` extends the first piece. */
  lemma {:induction false} SplitLastAfterChar(s: string, sep: string)
    requires |sep| > 0 && |s| >= |sep| && !StartsWith(s, sep)
    ensures LastPieceFacts(s, sep)
    decreases |s|, 0
  {
    SplitLastIsSuffix(s[1..], sep);
    SplitExtendsFirst(s, sep);
    if |Split(s[1..], sep)| >= 2 {
      SplitLastCharMany(s, sep);
    } else {
      SplitLastCharOne(s, sep);
    }
  }

  /** ... when the rest of `s` still contains the separator. */
  lemma SplitLastCharMany(s: string, sep: string)
    requires |sep| > 0 && |s| >= |sep| && !StartsWith(s, sep)
    requires LastPieceFacts(s[1..], sep) && |Split(s[1..], sep)| >= 2
    requires Split(s, sep) == [[s[0]] + Split(s[1..], sep)[0]] + Split(s[1..], sep)[1..]
    ensures LastPieceFacts(s, sep)
  {
    var rest := s[1..];
    var k := LastPieceStart(rest, sep);
    var last := Last(Split(rest, sep));
    assert LastPieceStart(s, sep) == 1 + k;
    assert |Split(s, sep)| >= 2 && Last(Split(s, sep)) == last;
    assert last == s[1 + k..] by {
      assert rest[k..] == s[1 + k..];
    }
    assert OccursAt(s, sep, 1 + k - |sep|) by {
      assert OccursAt(rest, sep, k - |sep|);
      assert s[1 + k - |sep|..] == rest[k - |sep|..];
    }
  }

  /** ... when the rest of `s` is a single piece. */
  lemma SplitLastCharOne(s: string, sep: string)
    requires |sep| > 0 && |s| >= |sep| && !StartsWith(s, sep)
    requires |Split(s[1..], sep)| == 1
    requires Split(s, sep) == [[s[0]] + Split(s[1..], sep)[0]] + Split(s[1..], sep)[1..]
    ensures LastPieceFacts(s, sep)
  {
    var rest := s[1..];
    assert LastPieceStart(s, sep) == 0;
    assert Split(rest, sep)[0] == rest by {
      JoinSplit(rest, sep);
    }
    assert Last(Split(s, sep)) == s by {
      assert [s[0]] + rest == s;
    }
    assert !Contains(rest, sep) by {
      SplitCountsOccurrence(rest, sep);
    }
  }

  lemma NotContainsShort(s: string, sep: string)
    requires |s| < |sep|
    ensures !Contains(s, sep)
    decreases |s|
  {
    if |s| > 0 {
      NotContainsShort(s[1..], sep);
    }
  }

  /** Splitting on a one-character separator distributes over a join at that character. */
  lemma {:induction false} SplitCharAppend(a: string, c: char, b: string)
    ensures Split(a + [c] + b, [c]) == Split(a, [c]) + Split(b, [c])
    decreases |a|, 1
  {
    if a == [] {
      var s := a + [c] + b;
      assert StartsWith(s, [c]);
      assert s[1..] == b;
    } else if a[0] == c {
      SplitCharAppendSep(a, c, b);
    } else {
      SplitCharAppendChar(a, c, b);
    }
  }

  lemma {:induction false} SplitCharAppendSep(a: string, c: char, b: string)
    requires a != [] && a[0] == c
    ensures Split(a + [c] + b, [c]) == Split(a, [c]) + Split(b, [c])
    decreases |a|, 0
  {
    var s := a + [c] + b;
    assert StartsWith(s, [c]) && StartsWith(a, [c]);
    assert s[1..] == a[1..] + [c] + b;
    SplitCharAppend(a[1..], c, b);
    var A, B := Split(a[1..], [c]), Split(b, [c]);
    assert [""] + (A + B) == ([""] + A) + B;
  }

  lemma {:induction false} SplitCharAppendChar(a: string, c: char, b: string)
    requires a != [] && a[0] != c
    ensures Split(a + [c] + b, [c]) == Split(a, [c]) + Split(b, [c])
    decreases |a|, 0
  {
    var s := a + [c] + b;
    var A, B := Split(a[1..], [c]), Split(b, [c]);
    var R := Split(s[1..], [c]);
    assert R == A + B by {
      assert s[1..] == a[1..] + [c] + b;
      SplitCharAppend(a[1..], c, b);
    }
    assert Split(s, [c]) == [[a[0]] + R[0]] + R[1..] by {
      assert s[..1] == [a[0]];
      SplitExtendsFirst(s, [c]);
    }
    assert Split(a, [c]) == [[a[0]] + A[0]] + A[1..] by {
      assert a[..1] == [a[0]];
      SplitExtendsFirst(a, [c]);
    }
    assert R[0] == A[0] && R[1..] == A[1..] + B;
    var h := [[a[0]] + A[0]];
    assert h + (A[1..] + B) == (h + A[1..]) + B;
  }

  /** One step of `Split` when `s` does not open with the separator. */
  lemma SplitExtendsFirst(s: string, sep: string)
    requires |sep| > 0 && |s| >= |sep| && !StartsWith(s, sep)
    ensures Split(s, sep) == [[s[0]] + Split(s[1..], sep)[0]] + Split(s[1..], sep)[1..]
  {
  }

  /** A string without the separator character splits into itself alone. */
  lemma {:induction false} SplitCharAbsent(s: string, c: char)
    requires c !in s
    ensures Split(s, [c]) == [s]
    decreases |s|
  {
    if |s| >= 1 {
      assert !StartsWith(s, [c]) by { assert s[..1] == [s[0]]; }
      SplitCharAbsent(s[1..], c);
      assert [s[0]] + s[1..] == s;
    }
  }

  /** No piece of a split on a one-character separator holds that character. */
  lemma {:induction false} SplitCharPiecesFree(s: string, c: char)
    ensures forall k :: 0 <= k < |Split(s, [c])| ==> c !in Split(s, [c])[k]
    decreases |s|
  {
    if |s| >= 1 {
      SplitCharPiecesFree(s[1..], c);
      if !StartsWith(s, [c]) {
        assert s[..1] == [s[0]];
        var rest := Split(s[1..], [c]);
        assert forall k :: 1 <= k < |Split(s, [c])| ==> Split(s, [c])[k] == rest[k];
      }
    }
  }

  /**
   * Python's string comparison `a <= b`: lexicographic on code points, a proper
   * prefix sorting first.
   */
  predicate LexLe(a: string, b: string)
    decreases |a|
  {
    |a| == 0 || (|b| > 0 && (a[0] < b[0] || (a[0] == b[0] && LexLe(a[1..], b[1..]))))
  }

  lemma {:induction false} LexLeRefl(a: string)
    ensures LexLe(a, a)
    decreases |a|
  {
    if |a| > 0 {
      LexLeRefl(a[1..]);
    }
  }

  lemma {:induction false} LexLeTotal(a: string, b: string)
    ensures LexLe(a, b) || LexLe(b, a)
    decreases |a|
  {
    if |a| > 0 && |b| > 0 && a[0] == b[0] {
      LexLeTotal(a[1..], b[1..]);
    }
  }

  lemma {:induction false} LexLeTrans(a: string, b: string, c: string)
    requires LexLe(a, b) && LexLe(b, c)
    ensures LexLe(a, c)
    decreases |a|
  {
    if |a| > 0 && a[0] == b[0] && b[0] == c[0] {
      LexLeTrans(a[1..], b[1..], c[1..]);
    }
  }

  lemma {:induction false} LexLeAntisym(a: string, b: string)
    requires LexLe(a, b) && LexLe(b, a)
    ensures a == b
    decreases |a|
  {
    if |a| > 0 {
      LexLeAntisym(a[1..], b[1..]);
      assert a == [a[0]] + a[1..];
      assert b == [b[0]] + b[1..];
    }
  }
}

/** The handful of Rust `str` operations the DNS core leans on (`trim`,
    `contains`, `split`, `split_whitespace`, `lines`, `join`, decimal
    numerals and `f64` parsing), written out so that their behaviour is
    explicit rather than assumed. */
module Text {

  /** Unicode `White_Space`, the set `char::is_whitespace` and `str::trim` use. */
  predicate IsWhitespace(c: char) {
    ('\U{9}' <= c <= '\U{D}') || c == ' ' || c == '\U{85}' || c == '\U{A0}' || c == '\U{1680}'
    || ('\U{2000}' <= c <= '\U{200A}') || c == '\U{2028}' || c == '\U{2029}'
    || c == '\U{202F}' || c == '\U{205F}' || c == '\U{3000}'
  }

  /** The number of whitespace characters `s` starts with. */
  function LeadingWhitespace(s: string): (n: nat)
    ensures n <= |s|
    ensures forall i :: 0 <= i < n ==> IsWhitespace(s[i])
    ensures n < |s| ==> !IsWhitespace(s[n])
  {
    if |s| == 0 || !IsWhitespace(s[0]) then 0 else 1 + LeadingWhitespace(s[1..])
  }

  /** The number of whitespace characters `s` ends with. */
  function TrailingWhitespace(s: string): (n: nat)
    ensures n <= |s|
    ensures forall i :: |s| - n <= i < |s| ==> IsWhitespace(s[i])
    ensures n < |s| ==> !IsWhitespace(s[|s| - n - 1])
  {
    if |s| == 0 || !IsWhitespace(s[|s| - 1]) then 0 else 1 + TrailingWhitespace(s[..|s| - 1])
  }

  /** `str::trim_start`: `s` without the whitespace it starts with. */
  function TrimStart(s: string): (r: string)
    ensures r == [] || !IsWhitespace(r[0])
  {
    s[LeadingWhitespace(s)..]
  }

  /** `str::trim_end`: `s` without the whitespace it ends with. */
  function TrimEnd(s: string): (r: string)
    ensures r == [] || !IsWhitespace(r[|r| - 1])
  {
    s[..|s| - TrailingWhitespace(s)]
  }

  /** `str::trim`: `s` without its leading and trailing whitespace. */
  function Trim(s: string): (r: string)
    ensures |r| <= |s|
    ensures r == [] || (!IsWhitespace(r[0]) && !IsWhitespace(r[|r| - 1]))
  {
    TrimEnd(TrimStart(s))
  }

  /** Trimming removes only whitespace, from both ends, and keeps the middle intact. */
  lemma TrimIsSlice(s: string)
    ensures exists i :: TrimmedAt(s, i, Trim(s))
  {
    var i := LeadingWhitespace(s);
    var a := s[i..];
    var n := TrailingWhitespace(a);
    var r := a[..|a| - n];
    assert Trim(s) == r;
    assert r == s[i..i + |r|];
    assert forall k :: i + |r| <= k < |s| ==> IsWhitespace(s[k]) by {
      forall k | i + |r| <= k < |s|
        ensures IsWhitespace(s[k])
      {
        assert s[k] == a[k - i];
      }
    }
    assert TrimmedAt(s, i, r);
  }

  /** `r` is the slice of `s` at `i`, and everything around it is whitespace. */
  ghost predicate TrimmedAt(s: string, i: int, r: string) {
    0 <= i && i + |r| <= |s| && r == s[i..i + |r|]
    && (forall k :: 0 <= k < i ==> IsWhitespace(s[k]))
    && (forall k :: i + |r| <= k < |s| ==> IsWhitespace(s[k]))
  }

  /** A string without surrounding whitespace is its own trim. */
  lemma TrimOfTrimmed(s: string)
    requires s == [] || (!IsWhitespace(s[0]) && !IsWhitespace(s[|s| - 1]))
    ensures Trim(s) == s
  {
  }

  lemma TrimIdempotent(s: string)
    ensures Trim(Trim(s)) == Trim(s)
  {
    TrimOfTrimmed(Trim(s));
  }

  predicate StartsWith(s: string, p: string) {
    |p| <= |s| && s[..|p|] == p
  }

  ghost predicate OccursAt(s: string, t: string, i: int) {
    0 <= i && i + |t| <= |s| && s[i..i + |t|] == t
  }

  /** `str::contains` with a string pattern. */
  predicate Contains(s: string, t: string)
    decreases |s|
  {
    StartsWith(s, t) || (|s| > 0 && Contains(s[1..], t))
  }

  /** `Contains` holds exactly when `t` occurs in `s` at some position. */
  lemma {:induction false} ContainsIffOccurs(s: string, t: string)
    ensures Contains(s, t) <==> exists i :: OccursAt(s, t, i)
    decreases |s|
  {
    if StartsWith(s, t) {
      assert OccursAt(s, t, 0);
    } else if |s| == 0 {
      assert |t| > 0;
    } else {
      ContainsIffOccurs(s[1..], t);
      if exists i :: OccursAt(s[1..], t, i) {
        var i :| OccursAt(s[1..], t, i);
        assert s[i + 1..i + 1 + |t|] == s[1..][i..i + |t|];
        assert OccursAt(s, t, i + 1);
      }
      if exists i :: OccursAt(s, t, i) {
        var i :| OccursAt(s, t, i);
        assert i != 0;
        assert s[1..][i - 1..i - 1 + |t|] == s[i..i + |t|];
        assert OccursAt(s[1..], t, i - 1);
      }
    }
  }

  /** A pattern found in a part of a string is found in the whole. */
  lemma ContainsInSlice(s: string, lo: int, hi: int, t: string)
    requires 0 <= lo <= hi <= |s|
    requires Contains(s[lo..hi], t)
    ensures Contains(s, t)
  {
    ContainsIffOccurs(s[lo..hi], t);
    var i :| OccursAt(s[lo..hi], t, i);
    forall k | 0 <= k < |t| ensures s[lo + i..lo + i + |t|][k] == t[k] {
      assert t[k] == s[lo..hi][i + k];
    }
    assert s[lo + i..lo + i + |t|] == t;
    assert OccursAt(s, t, lo + i);
    ContainsIffOccurs(s, t);
  }

  /** Every slice of a string is contained in it. */
  lemma ContainsSlice(s: string, lo: int, hi: int)
    requires 0 <= lo <= hi <= |s|
    ensures Contains(s, s[lo..hi])
  {
    assert OccursAt(s, s[lo..hi], lo);
    ContainsIffOccurs(s, s[lo..hi]);
  }

  lemma ContainsTransitive(s: string, m: string, t: string)
    requires Contains(s, m) && Contains(m, t)
    ensures Contains(s, t)
  {
    ContainsIffOccurs(s, m);
    var i :| OccursAt(s, m, i);
    ContainsInSlice(s, i, i + |m|, t);
  }

  /** A contained string has only characters of the string containing it. */
  lemma ContainsChars(s: string, t: string)
    requires Contains(s, t)
    ensures forall c :: c in t ==> c in s
  {
    ContainsIffOccurs(s, t);
    var i :| OccursAt(s, t, i);
    forall c | c in t ensures c in s {
      var k :| 0 <= k < |t| && t[k] == c;
      assert s[i..i + |t|][k] == s[i + k];
    }
  }

  /** The trimmed text is part of the text. */
  lemma TrimContained(s: string)
    ensures Contains(s, Trim(s))
  {
    TrimIsSlice(s);
    var i :| TrimmedAt(s, i, Trim(s));
    ContainsSlice(s, i, i + |Trim(s)|);
  }

  /** A pattern that shares no character with the separator is found in
      `a + sep + b` exactly when it is found in `a` or in `b`. */
  lemma ContainsAround(a: string, sep: string, b: string, p: string)
    requires |sep| > 0 && |p| > 0
    requires forall i, j :: 0 <= i < |p| && 0 <= j < |sep| ==> p[i] != sep[j]
    ensures Contains(a + sep + b, p) <==> Contains(a, p) || Contains(b, p)
  {
    var s := a + sep + b;
    var m := |a| + |sep|;
    assert s[0..|a|] == a && s[m..|s|] == b;
    if Contains(a, p) {
      ContainsInSlice(s, 0, |a|, p);
    }
    if Contains(b, p) {
      ContainsInSlice(s, m, |s|, p);
    }
    if Contains(s, p) {
      ContainsIffOccurs(s, p);
      var i :| OccursAt(s, p, i);
      if i + |p| <= |a| {
        OccursInSlice(s, 0, |a|, p, i);
      } else if i >= m {
        OccursInSlice(s, m, |s|, p, i);
      } else {
        var j := if i >= |a| then i else |a|;
        OccurrenceChar(s, p, i, j);
        MiddleChar(a, sep, b, j);
        assert false;
      }
    }
  }

  lemma OccurrenceChar(s: string, p: string, i: int, j: int)
    requires OccursAt(s, p, i) && i <= j < i + |p|
    ensures s[j] == p[j - i]
  {
    assert s[i..i + |p|][j - i] == s[j];
  }

  lemma MiddleChar(a: string, sep: string, b: string, j: int)
    requires |a| <= j < |a| + |sep|
    ensures (a + sep + b)[j] == sep[j - |a|]
  {
  }

  /** An occurrence that lies within a slice is found in that slice. */
  lemma OccursInSlice(s: string, lo: int, hi: int, p: string, i: int)
    requires 0 <= lo <= i && i + |p| <= hi <= |s| && OccursAt(s, p, i)
    ensures Contains(s[lo..hi], p)
  {
    var t := s[lo..hi];
    forall k | 0 <= k < |p| ensures t[i - lo + k] == p[k] {
      assert t[i - lo + k] == s[i + k] == s[i..i + |p|][k];
    }
    assert t[i - lo..i - lo + |p|] == p;
    assert OccursAt(t, p, i - lo);
    ContainsIffOccurs(t, p);
  }

  /** Such a pattern is found in a join exactly when it is found in one of the pieces. */
  lemma {:induction false} ContainsJoin(xs: seq<string>, sep: string, p: string)
    requires |sep| > 0 && |p| > 0
    requires forall i, j :: 0 <= i < |p| && 0 <= j < |sep| ==> p[i] != sep[j]
    ensures Contains(Join(xs, sep), p) <==> exists k :: 0 <= k < |xs| && Contains(xs[k], p)
    decreases |xs|
  {
    if |xs| == 0 {
      assert !Contains([], p);
    } else if |xs| == 1 {
    } else {
      ContainsJoin(xs[1..], sep, p);
      ContainsAround(xs[0], sep, Join(xs[1..], sep), p);
      if exists k :: 0 <= k < |xs| && Contains(xs[k], p) {
        var k :| 0 <= k < |xs| && Contains(xs[k], p);
        if k > 0 {
          assert xs[1..][k - 1] == xs[k];
        }
      }
      if exists k :: 0 <= k < |xs[1..]| && Contains(xs[1..][k], p) {
        var k :| 0 <= k < |xs[1..]| && Contains(xs[1..][k], p);
        assert Contains(xs[k + 1], p);
      }
    }
  }

  /** A slice is the concatenation of its two halves. */
  lemma SliceSplit(s: string, a: int, b: int, c: int)
    requires 0 <= a <= b <= c <= |s|
    ensures s[a..c] == s[a..b] + s[b..c]
  {
  }

  /** `<[String]>::join(sep)`. */
  function Join(xs: seq<string>, sep: string): string {
    if |xs| == 0 then []
    else if |xs| == 1 then xs[0]
    else xs[0] + sep + Join(xs[1..], sep)
  }

  /** `str::split` with a non-empty pattern: the pieces between the
      leftmost non-overlapping occurrences of `sep`; always one piece more
      than there are occurrences, so at least one. */
  function Split(s: string, sep: string): (r: seq<string>)
    requires |sep| > 0
    ensures |r| >= 1
    decreases |s|
  {
    if |s| < |sep| then [s]
    else if s[..|sep|] == sep then [[]] + Split(s[|sep|..], sep)
    else
      var rest := Split(s[1..], sep);
      [[s[0]] + rest[0]] + rest[1..]
  }

  /** Joining the pieces of a split with the same separator gives back the text. */
  lemma {:induction false} JoinSplit(s: string, sep: string)
    requires |sep| > 0
    ensures Join(Split(s, sep), sep) == s
    decreases |s|
  {
    if |s| < |sep| {
    } else if s[..|sep|] == sep {
      var rest := Split(s[|sep|..], sep);
      var xs := [[]] + rest;
      assert Split(s, sep) == xs;
      JoinSplit(s[|sep|..], sep);
      assert xs[0] == [] && xs[1..] == rest;
      assert Join(xs, sep) == [] + sep + Join(rest, sep);
      assert s == s[..|sep|] + s[|sep|..];
    } else {
      var rest := Split(s[1..], sep);
      assert Split(s, sep) == [[s[0]] + rest[0]] + rest[1..];
      JoinSplit(s[1..], sep);
      JoinConsChar(s[0], rest, sep);
      assert s == [s[0]] + s[1..];
    }
  }

  /** A character put in front of the first piece goes in front of the join. */
  lemma JoinConsChar(c: char, xs: seq<string>, sep: string)
    requires |xs| >= 1
    ensures Join([[c] + xs[0]] + xs[1..], sep) == [c] + Join(xs, sep)
  {
    var ys := [[c] + xs[0]] + xs[1..];
    if |xs| == 1 {
      assert ys == [[c] + xs[0]];
    } else {
      assert ys[1..] == xs[1..];
      assert Join(ys, sep) == ([c] + xs[0]) + sep + Join(xs[1..], sep);
    }
  }

  /** No occurrence of `sep` starts inside `x` when `x` is followed by `sep`:
      then, in a join, the separator after `x` is the first one found. */
  ghost predicate Separable(x: string, sep: string) {
    forall i :: 0 <= i < |x| ==> !OccursAt(x + sep, sep, i)
  }

  /** A piece without the separator's first character is separable. */
  lemma SeparableByFirst(x: string, sep: string)
    requires |sep| > 0 && sep[0] !in x
    ensures Separable(x, sep)
  {
    forall i | 0 <= i < |x| ensures !OccursAt(x + sep, sep, i) {
      if i + |sep| <= |x + sep| {
        assert (x + sep)[i..i + |sep|][0] == x[i] != sep[0];
      }
    }
  }

  /** A piece without the second character of a two-character separator
      whose characters differ is separable. */
  lemma SeparableBySecond(x: string, sep: string)
    requires |sep| == 2 && sep[0] != sep[1] && sep[1] !in x
    ensures Separable(x, sep)
  {
    forall i | 0 <= i < |x| ensures !OccursAt(x + sep, sep, i) {
      var w := (x + sep)[i..i + 2];
      assert w[1] == (x + sep)[i + 1];
      if i + 1 < |x| {
        assert (x + sep)[i + 1] == x[i + 1] != sep[1];
      } else {
        assert (x + sep)[i + 1] == sep[0] != sep[1];
      }
    }
  }

  /** Splitting text that starts with `a`, when no separator starts inside
      `a`, puts `a` in front of the first piece of the rest. */
  lemma {:induction false} SplitPrefix(a: string, rest: string, sep: string)
    requires |sep| > 0
    requires SeparatorFree(a + rest, sep, |a|)
    ensures Split(a + rest, sep) == [a + Split(rest, sep)[0]] + Split(rest, sep)[1..]
    decreases |a|
  {
    var s := a + rest;
    var q := Split(rest, sep);
    if |a| == 0 {
      assert s == rest;
      assert a + q[0] == q[0];
      assert [q[0]] + q[1..] == q;
    } else if |s| < |sep| {
      assert |rest| < |sep| && q == [rest];
    } else {
      NotAtStart(s, sep, |a|);
      ShiftNoOccurrence(a, rest, sep);
      SplitPrefix(a[1..], rest, sep);
      SplitStep(s, sep);
      assert s[1..] == a[1..] + rest && s[0] == a[0];
      ConsFirstPiece(a, q[0], q[1..], Split(s[1..], sep));
    }
  }

  /** No occurrence of `sep` in `s` starts before position `n`. */
  ghost predicate SeparatorFree(s: string, sep: string, n: int) {
    forall i :: 0 <= i < n ==> !OccursAt(s, sep, i)
  }

  lemma NotAtStart(s: string, sep: string, n: int)
    requires 0 < n && |s| >= |sep| && SeparatorFree(s, sep, n)
    ensures s[..|sep|] != sep
  {
    assert !OccursAt(s, sep, 0);
    assert s[0..|sep|] == s[..|sep|];
  }

  /** Dropping the first character of `a` keeps separators from starting inside it. */
  lemma ShiftNoOccurrence(a: string, rest: string, sep: string)
    requires |a| > 0
    requires SeparatorFree(a + rest, sep, |a|)
    ensures SeparatorFree(a[1..] + rest, sep, |a| - 1)
  {
    var s := a + rest;
    assert s[1..] == a[1..] + rest;
    forall i | 0 <= i < |a[1..]| ensures !OccursAt(s[1..], sep, i) {
      assert !OccursAt(s, sep, i + 1);
      if i + |sep| <= |s[1..]| {
        assert s[1..][i..i + |sep|] == s[i + 1..i + 1 + |sep|];
      }
    }
  }

  lemma ConsFirstPiece(a: string, q0: string, qs: seq<string>, r: seq<string>)
    requires |a| > 0 && r == [a[1..] + q0] + qs
    ensures [[a[0]] + r[0]] + r[1..] == [a + q0] + qs
  {
    assert [a[0]] + (a[1..] + q0) == a + q0;
    assert r[1..] == qs;
  }

  /** One step of `Split` over a text that does not start with the separator. */
  lemma SplitStep(s: string, sep: string)
    requires |sep| > 0 && |s| >= |sep| && s[..|sep|] != sep
    ensures Split(s, sep) == [[s[0]] + Split(s[1..], sep)[0]] + Split(s[1..], sep)[1..]
  {
  }

  /** Splitting the join of separable pieces gives back the pieces. */
  lemma {:induction false} SplitJoin(xs: seq<string>, sep: string)
    requires |sep| > 0 && |xs| >= 1
    requires forall k :: 0 <= k < |xs| ==> Separable(xs[k], sep)
    ensures Split(Join(xs, sep), sep) == xs
    decreases |xs|
  {
    var x := xs[0];
    if |xs| == 1 {
      NoSeparatorInside(x, [], sep);
      SplitPrefix(x, [], sep);
      assert Split([], sep) == [[]];
      assert x + [] == x;
    } else {
      var j := Join(xs[1..], sep);
      var rest := sep + j;
      assert Join(xs, sep) == x + rest;
      NoSeparatorInside(x, j, sep);
      SplitPrefix(x, rest, sep);
      assert rest[..|sep|] == sep;
      assert rest[|sep|..] == j;
      SplitJoin(xs[1..], sep);
      assert |rest| >= |sep|;
      var q := Split(rest, sep);
      assert q == [[]] + Split(j, sep);
      assert q[0] == [] && q[1..] == xs[1..];
      assert x + q[0] == x;
      assert [x] + xs[1..] == xs;
    }
  }

  /** In `x + sep + j`, or in `x` alone, no separator starts inside a separable `x`. */
  lemma NoSeparatorInside(x: string, j: string, sep: string)
    requires |sep| > 0 && Separable(x, sep)
    ensures SeparatorFree(x + (sep + j), sep, |x|)
    ensures SeparatorFree(x + [], sep, |x|)
  {
    forall i | 0 <= i < |x| ensures !OccursAt(x + (sep + j), sep, i) {
      if OccursAt(x + (sep + j), sep, i) {
        assert (x + (sep + j))[i..i + |sep|] == (x + sep)[i..i + |sep|];
        assert OccursAt(x + sep, sep, i);
      }
    }
    forall i | 0 <= i < |x| ensures !OccursAt(x + [], sep, i) {
      if OccursAt(x + [], sep, i) {
        assert (x + [])[i..i + |sep|] == (x + sep)[i..i + |sep|];
        assert OccursAt(x + sep, sep, i);
      }
    }
  }

  /** The first piece of a split is a prefix of the text. */
  lemma {:induction false} SplitFirstPrefix(s: string, sep: string)
    requires |sep| > 0
    ensures StartsWith(s, Split(s, sep)[0])
    decreases |s|
  {
    if |s| < |sep| {
    } else if s[..|sep|] == sep {
    } else {
      var r := Split(s[1..], sep);
      SplitFirstPrefix(s[1..], sep);
      assert Split(s, sep)[0] == [s[0]] + r[0];
      assert s[..1 + |r[0]|] == [s[0]] + s[1..][..|r[0]|];
    }
  }

  /** Every piece of a split is part of the text. */
  lemma {:induction false} SplitPiecesContained(s: string, sep: string)
    requires |sep| > 0
    ensures forall k :: 0 <= k < |Split(s, sep)| ==> Contains(s, Split(s, sep)[k])
    decreases |s|
  {
    var xs := Split(s, sep);
    if |s| < |sep| {
      assert xs == [s] && StartsWith(s, s);
    } else if s[..|sep|] == sep {
      var rest := s[|sep|..];
      SplitPiecesContained(rest, sep);
      assert xs == [[]] + Split(rest, sep);
      forall k | 0 <= k < |xs| ensures Contains(s, xs[k]) {
        if k == 0 {
          assert StartsWith(s, []);
        } else {
          assert xs[k] == Split(rest, sep)[k - 1];
          assert s[|sep|..|s|] == rest;
          ContainsInSlice(s, |sep|, |s|, xs[k]);
        }
      }
    } else {
      var r := Split(s[1..], sep);
      SplitPiecesContained(s[1..], sep);
      SplitFirstPrefix(s[1..], sep);
      assert xs == [[s[0]] + r[0]] + r[1..];
      forall k | 0 <= k < |xs| ensures Contains(s, xs[k]) {
        if k == 0 {
          assert s[..1 + |r[0]|] == [s[0]] + r[0];
          assert StartsWith(s, xs[0]);
        } else {
          assert xs[k] == r[k];
          assert s[1..|s|] == s[1..];
          ContainsInSlice(s, 1, |s|, xs[k]);
        }
      }
    }
  }

  /** Splitting on one character leaves that character in no piece. */
  lemma {:induction false} SplitAvoidsSeparator(s: string, c: char)
    ensures forall k, i :: 0 <= k < |Split(s, [c])| && 0 <= i < |Split(s, [c])[k]| ==> Split(s, [c])[k][i] != c
    decreases |s|
  {
    if |s| < 1 {
    } else if s[..1] == [c] {
      SplitAvoidsSeparator(s[1..], c);
    } else {
      SplitAvoidsSeparator(s[1..], c);
      assert s[0] != c by { assert s[..1] == [s[0]]; }
    }
  }

  /** A text shorter than a pattern does not contain it. */
  lemma {:induction false} ShorterNotContained(s: string, t: string)
    requires |s| < |t|
    ensures !Contains(s, t)
    decreases |s|
  {
    if |s| > 0 {
      ShorterNotContained(s[1..], t);
    }
  }

  /** No piece of a split contains the separator, whatever its length. */
  lemma {:induction false} SplitPiecesAvoidSeparator(s: string, sep: string)
    requires |sep| > 0
    ensures forall k :: 0 <= k < |Split(s, sep)| ==> !Contains(Split(s, sep)[k], sep)
    decreases |s|
  {
    var xs := Split(s, sep);
    if |s| < |sep| {
      ShorterNotContained(s, sep);
    } else if s[..|sep|] == sep {
      var rest := Split(s[|sep|..], sep);
      SplitPiecesAvoidSeparator(s[|sep|..], sep);
      ShorterNotContained([], sep);
      assert xs == [[]] + rest;
      forall k | 0 <= k < |xs| ensures !Contains(xs[k], sep) {
        if k > 0 {
          assert xs[k] == rest[k - 1];
        }
      }
    } else {
      var r := Split(s[1..], sep);
      SplitPiecesAvoidSeparator(s[1..], sep);
      SplitFirstPrefix(s[1..], sep);
      var p := [s[0]] + r[0];
      assert p == s[..1 + |r[0]|];
      assert !StartsWith(p, sep) by {
        if |sep| <= |p| {
          assert p[..|sep|] == s[..|sep|];
        }
      }
      assert p[1..] == r[0];
      assert xs == [p] + r[1..];
      forall k | 0 <= k < |xs| ensures !Contains(xs[k], sep) {
        if k > 0 {
          assert xs[k] == r[k];
        }
      }
    }
  }

  /** `str::split_whitespace`: the maximal runs of non-whitespace characters. */
  function SplitWhitespace(s: string): (r: seq<string>)
    ensures forall k :: 0 <= k < |r| ==> r[k] != [] && NoWhitespace(r[k])
    decreases |s|
  {
    if |s| == 0 then []
    else if IsWhitespace(s[0]) then SplitWhitespace(s[1..])
    else
      var n := WordLength(s);
      [s[..n]] + SplitWhitespace(s[n..])
  }

  predicate NoWhitespace(s: string) {
    forall i :: 0 <= i < |s| ==> !IsWhitespace(s[i])
  }

  /** Length of the run of non-whitespace characters that starts `s`. */
  function WordLength(s: string): (n: nat)
    ensures n <= |s| && NoWhitespace(s[..n])
    ensures n < |s| ==> IsWhitespace(s[n])
    ensures |s| > 0 && !IsWhitespace(s[0]) ==> n > 0
  {
    if |s| == 0 || IsWhitespace(s[0]) then 0 else 1 + WordLength(s[1..])
  }

  function Concat(xs: seq<string>): string {
    if |xs| == 0 then [] else xs[0] + Concat(xs[1..])
  }

  function NonWhitespace(s: string): string {
    if |s| == 0 then [] else (if IsWhitespace(s[0]) then [] else [s[0]]) + NonWhitespace(s[1..])
  }

  lemma {:induction false} NonWhitespaceAppend(a: string, b: string)
    ensures NonWhitespace(a + b) == NonWhitespace(a) + NonWhitespace(b)
  {
    if |a| == 0 {
      assert a + b == b;
    } else {
      assert (a + b)[1..] == a[1..] + b;
      NonWhitespaceAppend(a[1..], b);
    }
  }

  lemma NonWhitespaceOfWord(w: string)
    requires NoWhitespace(w)
    ensures NonWhitespace(w) == w
  {
  }

  /** The tokens, put back together, are exactly the non-whitespace characters in order. */
  lemma {:induction false} SplitWhitespaceKeepsText(s: string)
    ensures Concat(SplitWhitespace(s)) == NonWhitespace(s)
    decreases |s|
  {
    if |s| == 0 {
    } else if IsWhitespace(s[0]) {
      SplitWhitespaceKeepsText(s[1..]);
    } else {
      var n := WordLength(s);
      SplitWhitespaceKeepsText(s[n..]);
      assert s == s[..n] + s[n..];
      NonWhitespaceAppend(s[..n], s[n..]);
      NonWhitespaceOfWord(s[..n]);
      assert SplitWhitespace(s) == [s[..n]] + SplitWhitespace(s[n..]);
    }
  }

  /** `str::lines`: pieces between '\n's; a piece ended by '\n' also loses
      one '\r' before it; a final empty piece is not a line. */
  function Lines(s: string): (r: seq<string>)
    ensures forall k :: 0 <= k < |r| ==> '\n' !in r[k]
  {
    var pieces := Split(s, "\n");
    var n := |pieces|;
    SplitAvoidsSeparator(s, '\n');
    assert forall k :: 0 <= k < n ==> '\n' !in pieces[k] by {
      forall k | 0 <= k < n ensures '\n' !in pieces[k] {
        assert forall i :: 0 <= i < |pieces[k]| ==> pieces[k][i] != '\n';
      }
    }
    seq(n - 1, k requires 0 <= k < n - 1 => StripCarriageReturn(pieces[k]))
    + (if pieces[n - 1] == [] then [] else [pieces[n - 1]])
  }

  function StripCarriageReturn(line: string): (r: string)
    ensures r == line || r + "\r" == line
  {
    if |line| > 0 && line[|line| - 1] == '\r' then line[..|line| - 1] else line
  }

  // ---- Decimal numerals -------------------------------------------------

  predicate IsDigit(c: char) {
    '0' <= c <= '9'
  }

  predicate AllDigits(s: string) {
    forall i :: 0 <= i < |s| ==> IsDigit(s[i])
  }

  function DigitChar(d: nat): (c: char)
    requires d < 10
    ensures IsDigit(c) && c as int - '0' as int == d
  {
    ('0' as int + d) as char
  }

  function DigitValue(c: char): (d: nat)
    requires IsDigit(c)
    ensures d < 10 && DigitChar(d) == c
  {
    (c as int - '0' as int)
  }

  /** Value of a string of decimal digits, most significant first. */
  function DecimalValue(ds: string): nat
    requires AllDigits(ds)
  {
    if |ds| == 0 then 0 else DecimalValue(ds[..|ds| - 1]) * 10 + DigitValue(ds[|ds| - 1])
  }

  /** The shortest decimal numeral of `n` (Rust's `{}` for unsigned integers). */
  function NatToDecimal(n: nat): (s: string)
    ensures |s| > 0 && AllDigits(s)
    ensures |s| == 1 || s[0] != '0'
  {
    if n < 10 then [DigitChar(n)] else NatToDecimal(n / 10) + [DigitChar(n % 10)]
  }

  lemma {:induction false} DecimalOfNumeral(n: nat)
    ensures DecimalValue(NatToDecimal(n)) == n
  {
    if n >= 10 {
      DecimalOfNumeral(n / 10);
      var s := NatToDecimal(n);
      var p := NatToDecimal(n / 10);
      assert s == p + [DigitChar(n % 10)];
      assert s[..|s| - 1] == p;
      assert DigitValue(s[|s| - 1]) == n % 10;
      assert DecimalValue(s) == DecimalValue(p) * 10 + n % 10;
    }
  }

  lemma {:induction false} DecimalValueBounds(ds: string)
    requires AllDigits(ds) && |ds| > 1 && ds[0] != '0'
    ensures DecimalValue(ds[..|ds| - 1]) >= 1
    decreases |ds|
  {
    var p := ds[..|ds| - 1];
    if |p| > 1 {
      DecimalValueBounds(p);
      assert p[..|p| - 1] == ds[..|ds| - 2];
    } else {
      assert p == [ds[0]];
    }
  }

  /** A numeral without superfluous leading zeros is the numeral of its value. */
  lemma {:induction false} NumeralOfDecimal(ds: string)
    requires |ds| > 0 && AllDigits(ds)
    requires |ds| == 1 || ds[0] != '0'
    ensures NatToDecimal(DecimalValue(ds)) == ds
    decreases |ds|
  {
    if |ds| > 1 {
      var p := ds[..|ds| - 1];
      var v := DecimalValue(p);
      var d := DigitValue(ds[|ds| - 1]);
      DecimalValueBounds(ds);
      NumeralOfDecimal(p);
      var n := v * 10 + d;
      assert DecimalValue(ds) == n;
      assert n / 10 == v && n % 10 == d;
      assert NatToDecimal(n) == NatToDecimal(v) + [DigitChar(d)];
      assert ds == p + [ds[|ds| - 1]];
    }
  }

  lemma DecimalValueBelow(ds: string)
    requires AllDigits(ds)
    ensures DecimalValue(ds) < Pow10(|ds|)
  {
    if |ds| > 0 {
      DecimalValueBelow(ds[..|ds| - 1]);
    }
  }

  function Pow10(k: nat): (p: nat)
    ensures p >= 1
  {
    if k == 0 then 1 else 10 * Pow10(k - 1)
  }

  /** Length of the run of decimal digits that starts `s`. */
  function DigitRun(s: string): (n: nat)
    ensures n <= |s| && AllDigits(s[..n])
    ensures n < |s| ==> !IsDigit(s[n])
  {
    if |s| == 0 || !IsDigit(s[0]) then 0 else 1 + DigitRun(s[1..])
  }

  /** `str::parse::<f64>` on plain decimal text: an optional sign, digits,
      and an optional '.' with more digits, at least one digit in all. */
  function ParseF64(s: string): (r: Option<real>)
    ensures r.Some? ==> |s| > 0
  {
    var negative := |s| > 0 && s[0] == '-';
    var body := if |s| > 0 && (s[0] == '+' || s[0] == '-') then s[1..] else s;
    var n := DigitRun(body);
    var whole := DecimalValue(body[..n]) as real;
    var magnitude :=
      if n == |body| then (if n == 0 then None else Some(whole))
      else if body[n] != '.' then None
      else
        var frac := body[n + 1..];
        if AllDigits(frac) && (n > 0 || |frac| > 0)
        then Some(whole + DecimalValue(frac) as real / Pow10(|frac|) as real)
        else None;
    match magnitude
    case None => None
    case Some(m) => Some(if negative then -m else m)
  }

  /** A whole number of milliseconds printed in decimal parses back to itself. */
  lemma ParseNumeral(n: nat)
    ensures ParseF64(NatToDecimal(n)) == Some(n as real)
  {
    var s := NatToDecimal(n);
    DigitRunOfDigits(s);
    assert s[..|s|] == s;
    DecimalOfNumeral(n);
  }

  lemma DigitRunOfDigits(s: string)
    requires AllDigits(s)
    ensures DigitRun(s) == |s|
  {
    if |s| > 0 {
      DigitRunOfDigits(s[1..]);
    }
  }

  datatype Option<+T> = None | Some(value: T)

  datatype Result<+T, +E> = Ok(value: T) | Err(error: E)
}

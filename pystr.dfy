/** The few Python `str` operations the heading parser relies on, with the
    semantics CPython gives them: slicing prefix tests, `sep in s`,
    `s.split(sep)` with an explicit separator, and `s.strip()` without
    arguments. Strings are sequences of code points. */
module PyStr {

  /** `s[0:|p|] == p`: the slice is shorter than `p` when `s` is, so the
      test fails on short strings rather than raising. */
  predicate StartsWith(s: string, p: string)
  {
    |p| <= |s| && s[..|p|] == p
  }

  /** `s[0:n]`: Python clamps the upper bound to the length. */
  function Take(s: string, n: nat): (r: string)
    ensures |r| == if n <= |s| then n else |s|
    ensures r == s[..|r|]
  {
    if n <= |s| then s[..n] else s
  }

  /** An occurrence of `sep` in `s` starting at index `i`. */
  predicate MatchAt(s: string, sep: string, i: nat)
  {
    i + |sep| <= |s| && s[i..i + |sep|] == sep
  }

  /** `sep in s` */
  predicate Contains(s: string, sep: string)
  {
    exists i: nat | i <= |s| :: MatchAt(s, sep, i)
  }

  /** `s.split(sep)` for a non-empty separator (Python raises ValueError on an
      empty one): cut at every leftmost non-overlapping occurrence of `sep`,
      keeping empty pieces; the result always has at least one piece. */
  function Split(s: string, sep: string): (r: seq<string>)
    requires |sep| > 0
    ensures |r| >= 1
    decreases |s|
  {
    if |s| < |sep| then [s]
    else if s[..|sep|] == sep then [""] + Split(s[|sep|..], sep)
    else
      var rest := Split(s[1..], sep);
      [[s[0]] + rest[0]] + rest[1..]
  }

  /** `sep.join(pieces)`, the inverse of `Split`. */
  function Join(pieces: seq<string>, sep: string): (r: string)
  {
    if |pieces| == 0 then ""
    else if |pieces| == 1 then pieces[0]
    else pieces[0] + sep + Join(pieces[1..], sep)
  }

  lemma JoinConsFirst(c: char, p: string, ps: seq<string>, sep: string)
    ensures Join([[c] + p] + ps, sep) == [c] + Join([p] + ps, sep)
  {
    if |ps| > 0 {
      assert ([[c] + p] + ps)[1..] == ps;
      assert ([p] + ps)[1..] == ps;
    }
  }

  /** Joining the pieces of a split with the same separator gives back the
      string: `sep.join(s.split(sep)) == s`. */
  lemma {:induction false} SplitJoin(s: string, sep: string)
    requires |sep| > 0
    ensures Join(Split(s, sep), sep) == s
    decreases |s|
  {
    if |s| < |sep| {
    } else if s[..|sep|] == sep {
      var rest := Split(s[|sep|..], sep);
      SplitJoin(s[|sep|..], sep);
      assert ([""] + rest)[1..] == rest;
      assert s == sep + s[|sep|..];
    } else {
      var rest := Split(s[1..], sep);
      SplitJoin(s[1..], sep);
      JoinConsFirst(s[0], rest[0], rest[1..], sep);
      assert [rest[0]] + rest[1..] == rest;
      assert s == [s[0]] + s[1..];
    }
  }

  /** The first piece of a split is a prefix of the string, and when there
      are further pieces the separator follows it. */
  lemma {:induction false} SplitFirstPiece(s: string, sep: string)
    requires |sep| > 0
    ensures var r := Split(s, sep);
      |r[0]| <= |s| && r[0] == s[..|r[0]|] &&
      (|r| > 1 ==> MatchAt(s, sep, |r[0]|))
    decreases |s|
  {
    if |s| < |sep| {
    } else if s[..|sep|] == sep {
    } else {
      SplitFirstPiece(s[1..], sep);
      var rest := Split(s[1..], sep);
      assert s[1..][..|rest[0]|] == s[1..|rest[0]| + 1];
      if |rest| > 1 {
        assert s[1..][|rest[0]|..|rest[0]| + |sep|] == s[|rest[0]| + 1..|rest[0]| + 1 + |sep|];
      }
    }
  }

  /** A character in front of a string free of `sep` does not create an
      occurrence unless one starts right at the front. */
  lemma ConsAvoidsSep(c: char, p: string, sep: string)
    requires |sep| > 0
    requires !Contains(p, sep)
    requires !MatchAt([c] + p, sep, 0)
    ensures !Contains([c] + p, sep)
  {
    var q := [c] + p;
    forall i: nat | 0 < i <= |q| ensures !MatchAt(q, sep, i) {
      if i + |sep| <= |q| {
        assert q[i..i + |sep|] == p[i - 1..i - 1 + |sep|];
        assert !MatchAt(p, sep, i - 1);
      }
    }
  }

  /** No piece of a split contains the separator. */
  lemma {:induction false} SplitPiecesAvoidSep(s: string, sep: string)
    requires |sep| > 0
    ensures forall k :: 0 <= k < |Split(s, sep)| ==> !Contains(Split(s, sep)[k], sep)
    decreases |s|
  {
    var r := Split(s, sep);
    if |s| < |sep| {
      assert r == [s];
      forall i: nat ensures !MatchAt(s, sep, i) { }
    } else if s[..|sep|] == sep {
      SplitPiecesAvoidSep(s[|sep|..], sep);
      var rest := Split(s[|sep|..], sep);
      assert r == [""] + rest;
      assert !Contains("", sep);
    } else {
      SplitPiecesAvoidSep(s[1..], sep);
      SplitFirstPiece(s[1..], sep);
      var rest := Split(s[1..], sep);
      var p := [s[0]] + rest[0];
      assert r == [p] + rest[1..];
      if |sep| <= |p| {
        assert p[..|sep|] == s[..|sep|];
      }
      ConsAvoidsSep(s[0], rest[0], sep);
    }
  }

  /** A split yields a single piece exactly when the separator does not
      occur, which is when indexing piece 1 raises `IndexError`. */
  lemma SplitSingleIff(s: string, sep: string)
    requires |sep| > 0
    ensures |Split(s, sep)| == 1 <==> !Contains(s, sep)
  {
    var r := Split(s, sep);
    SplitJoin(s, sep);
    if |r| == 1 {
      SplitPiecesAvoidSep(s, sep);
      assert s == r[0];
    } else {
      SplitFirstPiece(s, sep);
      assert MatchAt(s, sep, |r[0]|);
    }
  }

  /** Dropping the first character cannot create an occurrence. */
  lemma NoMatchTail(t: string, sep: string)
    requires |t| > 0
    requires !Contains(t, sep)
    ensures !Contains(t[1..], sep)
  {
    forall i: nat | i <= |t[1..]| ensures !MatchAt(t[1..], sep, i) {
      if MatchAt(t[1..], sep, i) {
        assert t[i + 1..i + 1 + |sep|] == t[1..][i..i + |sep|];
        assert MatchAt(t, sep, i + 1);
      }
    }
  }

  /** When `sep` does not begin anywhere inside `a` (an occurrence that
      starts in `a` ends at the latest one character short of the following
      separator), the split of `a + sep + b` cuts right after `a`. */
  lemma {:induction false} SplitAfter(a: string, sep: string, b: string)
    requires |sep| > 0
    requires !Contains(a + sep[..|sep| - 1], sep)
    ensures Split(a + sep + b, sep) == [a] + Split(b, sep)
    decreases |a|
  {
    var s := a + sep + b;
    if |a| == 0 {
      assert s[..|sep|] == sep;
      assert s[|sep|..] == b;
    } else {
      var t := a + sep[..|sep| - 1];
      assert !MatchAt(t, sep, 0);
      assert s[..|sep|] == t[..|sep|];
      NoMatchTail(t, sep);
      assert t[1..] == a[1..] + sep[..|sep| - 1];
      SplitAfter(a[1..], sep, b);
      assert s[1..] == a[1..] + sep + b;
      assert [s[0]] + a[1..] == a;
    }
  }

  /** The characters `str.isspace()` accepts, which `str.strip()` removes. */
  predicate IsSpace(c: char)
  {
    ('\t' <= c <= '\r') || ('\U{1c}' <= c <= ' ') || c == '\U{85}' || c == '\U{a0}' ||
    c == '\U{1680}' || ('\U{2000}' <= c <= '\U{200a}') || c == '\U{2028}' || c == '\U{2029}' ||
    c == '\U{202f}' || c == '\U{205f}' || c == '\U{3000}'
  }

  predicate AllSpace(s: string)
  {
    forall k :: 0 <= k < |s| ==> IsSpace(s[k])
  }

  /** `s.lstrip()`: the longest suffix of `s` that does not begin with
      whitespace, what is dropped being all whitespace. */
  function StripStart(s: string): (r: string)
    ensures |r| <= |s| && r == s[|s| - |r|..]
    ensures AllSpace(s[..|s| - |r|])
    ensures r == [] || !IsSpace(r[0])
  {
    if |s| > 0 && IsSpace(s[0]) then
      var r := StripStart(s[1..]);
      assert s[..|s| - |r|] == [s[0]] + s[1..][..|s[1..]| - |r|];
      r
    else s
  }

  /** `s.rstrip()`: the longest prefix of `s` that does not end with
      whitespace, what is dropped being all whitespace. */
  function StripEnd(s: string): (r: string)
    ensures |r| <= |s| && r == s[..|r|]
    ensures AllSpace(s[|r|..])
    ensures r == [] || !IsSpace(r[|r| - 1])
  {
    if |s| > 0 && IsSpace(s[|s| - 1]) then
      var r := StripEnd(s[..|s| - 1]);
      assert s[|r|..] == s[..|s| - 1][|r|..] + [s[|s| - 1]];
      r
    else s
  }

  /** `s.strip()` */
  function Strip(s: string): (r: string)
  {
    StripEnd(StripStart(s))
  }

  lemma TrimmedSlice(s: string, t: string, r: string)
    requires |t| <= |s| && t == s[|s| - |t|..] && AllSpace(s[..|s| - |t|])
    requires |r| <= |t| && r == t[..|r|] && AllSpace(t[|r|..])
    ensures exists i, j ::
      0 <= i <= j <= |s| && r == s[i..j] && AllSpace(s[..i]) && AllSpace(s[j..])
  {
    var i := |s| - |t|;
    var j := i + |r|;
    assert s[i..j] == r;
    assert s[j..] == t[|r|..];
  }

  /** `s.strip()` is the slice of `s` left after removing whitespace from both
      ends, and it neither begins nor ends with whitespace. */
  lemma StripIsTrimmedSlice(s: string)
    ensures exists i, j ::
      0 <= i <= j <= |s| && Strip(s) == s[i..j] && AllSpace(s[..i]) && AllSpace(s[j..])
    ensures Strip(s) == [] || (!IsSpace(Strip(s)[0]) && !IsSpace(Strip(s)[|Strip(s)| - 1]))
  {
    var t := StripStart(s);
    var r := StripEnd(t);
    TrimmedSlice(s, t, r);
    assert r == [] || r[0] == t[0];
  }

  lemma NoSpaceEndsStripStart(s: string)
    requires s == [] || !IsSpace(s[0])
    ensures StripStart(s) == s
  {
  }

  /** A string that neither begins nor ends with whitespace is left as it is
      by `strip()`. */
  lemma StripUnchanged(s: string)
    requires s == [] || (!IsSpace(s[0]) && !IsSpace(s[|s| - 1]))
    ensures Strip(s) == s
  {
    NoSpaceEndsStripStart(s);
  }

  /** `strip()` is idempotent. */
  lemma StripIdempotent(s: string)
    ensures Strip(Strip(s)) == Strip(s)
  {
    StripIsTrimmedSlice(s);
    StripUnchanged(Strip(s));
  }

  /** Leading whitespace does not change the result of `strip()`. */
  lemma {:induction false} StripLeadingSpace(c: char, s: string)
    requires IsSpace(c)
    ensures Strip([c] + s) == Strip(s)
  {
    assert ([c] + s)[1..] == s;
  }
}

/**
 * The two `str` operations the script relies on, `s.replace('\\', '/')` and
 * `s.replace(old, new)` with a non-empty `old`; and chunks joined with a
 * separator between consecutive ones, the shape the chapter loop builds.
 */
module Text {

  /** `s.replace('\\', '/')`: every backslash becomes a slash, nothing else moves. */
  function ToForwardSlashes(s: string): (r: string)
    ensures |r| == |s|
    ensures '\\' !in r
    ensures forall i :: 0 <= i < |s| ==> r[i] == (if s[i] == '\\' then '/' else s[i])
  {
    if s == [] then []
    else (if s[0] == '\\' then "/" else [s[0]]) + ToForwardSlashes(s[1..])
  }

  /** `pat` occurs somewhere in `s`. */
  predicate Occurs(pat: string, s: string)
    decreases |s|
  {
    pat <= s || (s != [] && Occurs(pat, s[1..]))
  }

  /**
   * `s.replace(pat, rep)`: scans left to right and replaces every
   * non-overlapping occurrence of `pat`.
   */
  function ReplaceAll(s: string, pat: string, rep: string): string
    requires pat != []
    decreases |s|
  {
    if |s| < |pat| then s
    else if pat <= s then rep + ReplaceAll(s[|pat|..], pat, rep)
    else [s[0]] + ReplaceAll(s[1..], pat, rep)
  }

  /** A text in which `pat` does not occur comes back from `replace` unchanged. */
  lemma {:induction false} ReplaceAllWithoutOccurrence(s: string, pat: string, rep: string)
    requires pat != []
    requires !Occurs(pat, s)
    ensures ReplaceAll(s, pat, rep) == s
    decreases |s|
  {
    if |s| >= |pat| {
      ReplaceAllWithoutOccurrence(s[1..], pat, rep);
    }
  }

  /** A text without the first character of `pat` holds no occurrence of it. */
  lemma {:induction false} NoOccurrenceWithoutFirstChar(pat: string, s: string)
    requires pat != [] && pat[0] !in s
    ensures !Occurs(pat, s)
    decreases |s|
  {
    if s != [] {
      assert s[0] in s;
      assert forall c :: c in s[1..] ==> c in s;
      NoOccurrenceWithoutFirstChar(pat, s[1..]);
    }
  }

  /**
   * `replace` distributes over a concatenation when no occurrence of `pat`
   * can straddle the seam: the last character of `a`, or the first of `b`,
   * is not a character of `pat`.
   */
  lemma {:induction false} ReplaceAllSplit(a: string, b: string, pat: string, rep: string)
    requires pat != []
    requires a == [] || a[|a| - 1] !in pat || (b != [] && b[0] !in pat)
    ensures ReplaceAll(a + b, pat, rep) == ReplaceAll(a, pat, rep) + ReplaceAll(b, pat, rep)
    decreases |a|
  {
    var s := a + b;
    if a == [] {
      assert s == b;
    } else if |s| < |pat| {
    } else if pat <= s {
      if |pat| > |a| {
        StraddlingOccurrence(a, b, pat);
        assert false;
      }
      assert pat <= a;
      assert s[|pat|..] == a[|pat|..] + b;
      ReplaceAllSplit(a[|pat|..], b, pat, rep);
    } else {
      assert s[1..] == a[1..] + b;
      ReplaceAllSplit(a[1..], b, pat, rep);
    }
  }

  /** An occurrence at the start of `a + b` that is longer than `a` holds the characters on both sides of the seam. */
  lemma StraddlingOccurrence(a: string, b: string, pat: string)
    requires a != [] && pat <= a + b && |pat| > |a|
    ensures a[|a| - 1] in pat
    ensures b != [] ==> b[0] in pat
  {
    assert pat[|a| - 1] == (a + b)[|a| - 1];
    if b != [] {
      assert pat[|a|] == (a + b)[|a|];
    }
  }

  /** The pattern itself is replaced by the replacement. */
  lemma ReplaceAllOfPattern(pat: string, rep: string)
    requires pat != []
    ensures ReplaceAll(pat, pat, rep) == rep
  {
    assert pat[|pat|..] == [];
  }

  /** An occurrence needs room for the whole pattern. */
  lemma {:induction false} OccursNeedsLength(pat: string, s: string)
    requires Occurs(pat, s)
    ensures |pat| <= |s|
    decreases |s|
  {
    if !(pat <= s) {
      OccursNeedsLength(pat, s[1..]);
    }
  }

  /** An occurrence in `a + b` lies inside `a` when `b` lacks the last character of the pattern. */
  lemma {:induction false} OccursBeforeSuffix(pat: string, a: string, b: string)
    requires pat != [] && pat[|pat| - 1] !in b && Occurs(pat, a + b)
    ensures Occurs(pat, a)
    decreases |a|
  {
    if a == [] {
      assert a + b == b;
      OccursHoldsLastChar(pat, b);
      assert false;
    } else if pat <= a + b {
      if |pat| > |a| {
        PrefixEndsPastSeam(pat, a, b);
        assert false;
      }
      assert pat <= a;
    } else {
      assert (a + b)[1..] == a[1..] + b;
      OccursBeforeSuffix(pat, a[1..], b);
    }
  }

  /** An occurrence in `a + b` lies in `a` or in `b` when `a` ends with a character outside the pattern. */
  lemma {:induction false} OccursAcrossSeam(pat: string, a: string, b: string)
    requires a != [] && a[|a| - 1] !in pat && Occurs(pat, a + b)
    ensures Occurs(pat, a) || Occurs(pat, b)
    decreases |a|
  {
    if pat <= a + b {
      if |pat| > |a| {
        PrefixCoversSeam(pat, a, b);
        assert false;
      }
      assert pat <= a;
    } else {
      assert (a + b)[1..] == a[1..] + b;
      if a[1..] == [] {
        assert a[1..] + b == b;
      } else {
        assert a[1..][|a[1..]| - 1] == a[|a| - 1];
        OccursAcrossSeam(pat, a[1..], b);
      }
    }
  }

  /** A prefix of `a + b` longer than a non-empty `a` holds the last character of `a`. */
  lemma PrefixCoversSeam(pat: string, a: string, b: string)
    requires a != [] && pat <= a + b && |pat| > |a|
    ensures a[|a| - 1] in pat
  {
    assert pat[|a| - 1] == (a + b)[|a| - 1] == a[|a| - 1];
  }

  /** A prefix of `a + b` longer than `a` ends with a character of `b`. */
  lemma PrefixEndsPastSeam(pat: string, a: string, b: string)
    requires pat <= a + b && |pat| > |a|
    ensures pat[|pat| - 1] in b
  {
    assert pat[|pat| - 1] == (a + b)[|pat| - 1] == b[|pat| - 1 - |a|];
  }

  /** A non-empty prefix of `a + b`, with `a` not empty, starts with the first character of `a`. */
  lemma PrefixStartsInside(q: string, a: string, b: string)
    requires q != [] && a != [] && q <= a + b
    ensures q[0] == a[0] && q[0] in q
  {
    assert q[0] == (a + b)[0] == a[0];
  }

  /** Agreeing on the first character and then on the rest is being a prefix. */
  lemma PrefixByHead(q: string, s: string)
    requires q != [] && s != [] && q[0] == s[0] && q[1..] <= s[1..]
    ensures q <= s
  {
    assert q == [q[0]] + q[1..];
    assert s == [s[0]] + s[1..];
  }

  /** Every text holding the pattern holds its last character. */
  lemma {:induction false} OccursHoldsLastChar(pat: string, s: string)
    requires pat != [] && Occurs(pat, s)
    ensures pat[|pat| - 1] in s
    decreases |s|
  {
    if pat <= s {
      assert s[|pat| - 1] == pat[|pat| - 1];
    } else {
      OccursHoldsLastChar(pat, s[1..]);
      assert forall c :: c in s[1..] ==> c in s;
    }
  }

  /** A prefix without the first character of a non-empty replacement survives `replace` only if it was there before. */
  lemma {:induction false} PrefixSurvives(q: string, s: string, pat: string, rep: string)
    requires pat != [] && rep != []
    requires rep[0] !in q
    requires q <= ReplaceAll(s, pat, rep)
    ensures q <= s
    decreases |s|
  {
    if q != [] && |s| >= |pat| {
      if pat <= s {
        assert ReplaceAll(s, pat, rep) == rep + ReplaceAll(s[|pat|..], pat, rep);
        PrefixStartsInside(q, rep, ReplaceAll(s[|pat|..], pat, rep));
        assert false;
      }
      assert q[0] == s[0];
      assert forall c :: c in q[1..] ==> c in q;
      PrefixSurvives(q[1..], s[1..], pat, rep);
      assert q == [q[0]] + q[1..];
    }
  }

  /**
   * No occurrence of `pat` is left after `replace` when the replacement is
   * not empty, holds no occurrence itself, and starts and ends with
   * characters outside `pat`: every occurrence was replaced and none was
   * formed across a replacement's edge.
   */
  lemma {:induction false} ReplaceAllLeavesNone(s: string, pat: string, rep: string)
    requires pat != [] && rep != [] && !Occurs(pat, rep)
    requires rep[0] !in pat && rep[|rep| - 1] !in pat
    ensures !Occurs(pat, ReplaceAll(s, pat, rep))
    decreases |s|
  {
    var r := ReplaceAll(s, pat, rep);
    if |s| < |pat| {
      if Occurs(pat, r) {
        OccursNeedsLength(pat, r);
        assert false;
      }
    } else if pat <= s {
      ReplaceAllLeavesNone(s[|pat|..], pat, rep);
      if Occurs(pat, r) {
        OccursAcrossSeam(pat, rep, ReplaceAll(s[|pat|..], pat, rep));
        assert false;
      }
    } else {
      var t := ReplaceAll(s[1..], pat, rep);
      ReplaceAllLeavesNone(s[1..], pat, rep);
      assert r == [s[0]] + t && r[1..] == t;
      if pat <= r {
        assert pat[1..] <= t;
        assert forall c :: c in pat[1..] ==> c in pat;
        PrefixSurvives(pat[1..], s[1..], pat, rep);
        PrefixByHead(pat, s);
        assert false;
      }
    }
  }

  /** The chunks `xs` with one `sep` between each consecutive pair. */
  function Join(xs: seq<string>, sep: string): string
  {
    if |xs| == 0 then ""
    else if |xs| == 1 then xs[0]
    else xs[0] + sep + Join(xs[1..], sep)
  }

  /** Appending one more chunk costs exactly one more separator. */
  lemma {:induction false} JoinSnoc(xs: seq<string>, x: string, sep: string)
    requires xs != []
    ensures Join(xs + [x], sep) == Join(xs, sep) + sep + x
    decreases |xs|
  {
    if |xs| == 1 {
      assert xs + [x] == [xs[0], x];
    } else {
      assert (xs + [x])[1..] == xs[1..] + [x];
      JoinSnoc(xs[1..], x, sep);
    }
  }

  /** Total length of all chunks. */
  function TotalLength(xs: seq<string>): nat
  {
    if xs == [] then 0 else |xs[0]| + TotalLength(xs[1..])
  }

  /**
   * The joined text is the chunks plus exactly |xs| - 1 separators: nothing
   * is lost and no separator is doubled or missing.
   */
  lemma {:induction false} JoinLength(xs: seq<string>, sep: string)
    requires xs != []
    ensures |Join(xs, sep)| == TotalLength(xs) + (|xs| - 1) * |sep|
    decreases |xs|
  {
    if |xs| > 1 {
      JoinLength(xs[1..], sep);
      assert (|xs| - 1) * |sep| == (|xs| - 2) * |sep| + |sep|;
    }
  }
}

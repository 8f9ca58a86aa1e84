/**
 * Source discovery (`obtener_archivos_markdown`): the files the directory
 * pattern matches, sorted in place by Python's string order. The sorted
 * list is the chapter order of the final document.
 */
module Discovery {
  import opened Host

  /** The pattern used when the caller gives none. */
  const DefaultPattern: string := "*.md"

  /** Python's `a <= b` on `str`: code-point lexicographic order. */
  predicate LexLe(a: string, b: string)
    decreases |a|
  {
    a == [] || (b != [] && (a[0] < b[0] || (a[0] == b[0] && LexLe(a[1..], b[1..]))))
  }

  lemma {:induction false} LexLeReflexive(a: string)
    ensures LexLe(a, a)
    decreases |a|
  {
    if a != [] {
      LexLeReflexive(a[1..]);
    }
  }

  /** Any two strings compare, so `sort` has a single answer to give. */
  lemma {:induction false} LexLeTotal(a: string, b: string)
    ensures LexLe(a, b) || LexLe(b, a)
    decreases |a|
  {
    if a != [] && b != [] && a[0] == b[0] {
      LexLeTotal(a[1..], b[1..]);
    }
  }

  lemma {:induction false} LexLeAntisymmetric(a: string, b: string)
    requires LexLe(a, b) && LexLe(b, a)
    ensures a == b
    decreases |a|
  {
    if a != [] {
      LexLeAntisymmetric(a[1..], b[1..]);
      assert a == [a[0]] + a[1..] && b == [b[0]] + b[1..];
    }
  }

  lemma {:induction false} LexLeTransitive(a: string, b: string, c: string)
    requires LexLe(a, b) && LexLe(b, c)
    ensures LexLe(a, c)
    decreases |a|
  {
    if a != [] && a[0] == b[0] && b[0] == c[0] {
      LexLeTransitive(a[1..], b[1..], c[1..]);
    }
  }

  /** Ascending order: every earlier entry is at most every later one. */
  ghost predicate Sorted(s: seq<string>)
  {
    forall i, j :: 0 <= i < j < |s| ==> LexLe(s[i], s[j])
  }

  /** Ordered neighbour by neighbour is ordered throughout. */
  lemma {:induction false} NeighboursSorted(s: seq<string>)
    requires forall k :: 0 < k < |s| ==> LexLe(s[k - 1], s[k])
    ensures Sorted(s)
    decreases |s|
  {
    if |s| > 1 {
      NeighboursSorted(s[1..]);
      forall j | 0 < j < |s|
        ensures LexLe(s[0], s[j])
      {
        if j > 1 {
          assert s[1..][0] == s[1] && s[1..][j - 1] == s[j];
          LexLeTransitive(s[0], s[1], s[j]);
        }
      }
    }
  }

  /** Exchanges the neighbours at `j - 1` and `j`. */
  method SwapDown(a: array<string>, j: int)
    requires 0 < j < a.Length
    modifies a
    ensures a[..] == old(a[..])[j - 1 := old(a[j])][j := old(a[j - 1])]
    ensures multiset(a[..]) == old(multiset(a[..]))
  {
    a[j - 1], a[j] := a[j], a[j - 1];
  }

  /**
   * One round of the sort: moves `a[i]` left past every greater neighbour,
   * so that the first `i + 1` entries end up ordered.
   */
  method InsertDown(a: array<string>, i: int)
    requires 0 <= i < a.Length
    requires forall k :: 0 < k < i ==> LexLe(a[k - 1], a[k])
    modifies a
    ensures forall k :: 0 < k <= i ==> LexLe(a[k - 1], a[k])
    ensures multiset(a[..]) == old(multiset(a[..]))
    ensures a[i + 1..] == old(a[i + 1..])
  {
    var j := i;
    while 0 < j && !LexLe(a[j - 1], a[j])
      invariant 0 <= j <= i
      invariant forall k :: 0 < k <= i && k != j ==> LexLe(a[k - 1], a[k])
      invariant 0 < j < i ==> LexLe(a[j - 1], a[j + 1])
      invariant multiset(a[..]) == old(multiset(a[..]))
      invariant a[i + 1..] == old(a[i + 1..])
    {
      LexLeTotal(a[j - 1], a[j]);
      SwapDown(a, j);
      j := j - 1;
    }
  }

  /** `list.sort()`: an insertion sort in place. */
  method SortInPlace(a: array<string>)
    modifies a
    ensures Sorted(a[..])
    ensures multiset(a[..]) == old(multiset(a[..]))
  {
    var i := 0;
    while i < a.Length
      invariant 0 <= i <= a.Length
      invariant forall k :: 0 < k < i ==> LexLe(a[k - 1], a[k])
      invariant multiset(a[..]) == old(multiset(a[..]))
    {
      InsertDown(a, i);
      i := i + 1;
    }
    NeighboursSorted(a[..]);
  }

  /**
   * `obtener_archivos_markdown(directorio, extension)`: the matches of
   * `join(directorio, extension)`, each exactly as often as the listing
   * gives it, in ascending order.
   */
  method ListMarkdownFiles(fs: Filesystem, ops: PathOps, directory: string, pattern: string)
    returns (files: seq<string>)
    ensures multiset(files) == multiset(fs.glob(ops.join(directory, pattern)))
    ensures Sorted(files)
  {
    var matches := fs.glob(ops.join(directory, pattern));
    var a := new string[|matches|](i requires 0 <= i < |matches| => matches[i]);
    assert a[..] == matches;
    SortInPlace(a);
    files := a[..];
  }

  /** `obtener_archivos_markdown(directorio)`: the same with the default pattern `*.md`. */
  method ListMarkdownFilesDefault(fs: Filesystem, ops: PathOps, directory: string)
    returns (files: seq<string>)
    ensures multiset(files) == multiset(fs.glob(ops.join(directory, DefaultPattern)))
    ensures Sorted(files)
  {
    files := ListMarkdownFiles(fs, ops, directory, DefaultPattern);
  }

  /** The first entry of a sorted list is at most every entry. */
  lemma SortedHeadIsLeast(s: seq<string>, x: string)
    requires Sorted(s) && x in s
    ensures LexLe(s[0], x)
  {
    var i :| 0 <= i < |s| && s[i] == x;
    if i == 0 { LexLeReflexive(x); }
  }

  lemma MultisetOfTail(s: seq<string>)
    requires s != []
    ensures multiset(s[1..]) == multiset(s) - multiset{s[0]}
  {
    assert s == [s[0]] + s[1..];
  }

  /** Two sorted lists with the same entries start with the same entry. */
  lemma SameHead(a: seq<string>, b: seq<string>)
    requires Sorted(a) && Sorted(b) && a != []
    requires multiset(a) == multiset(b)
    ensures b != [] && a[0] == b[0]
  {
    assert a[0] in multiset(a);
    assert b[0] in multiset(b);
    SortedHeadIsLeast(a, b[0]);
    SortedHeadIsLeast(b, a[0]);
    LexLeAntisymmetric(a[0], b[0]);
  }

  /** The tail of a sorted list is sorted. */
  lemma SortedTail(s: seq<string>)
    requires Sorted(s) && s != []
    ensures Sorted(s[1..])
  {
    forall i, j | 0 <= i < j < |s[1..]|
      ensures LexLe(s[1..][i], s[1..][j])
    {
      assert s[1..][i] == s[i + 1] && s[1..][j] == s[j + 1];
    }
  }

  /**
   * The chapter order depends on the set of names alone: two sorted lists
   * holding the same names are the same list, whatever order the
   * directory listing produced them in.
   */
  lemma {:induction false} SortedOrderIsUnique(a: seq<string>, b: seq<string>)
    requires Sorted(a) && Sorted(b)
    requires multiset(a) == multiset(b)
    ensures a == b
    decreases |a|
  {
    if a == [] {
      assert |multiset(b)| == 0;
    } else {
      SameHead(a, b);
      MultisetOfTail(a);
      MultisetOfTail(b);
      SortedTail(a);
      SortedTail(b);
      SortedOrderIsUnique(a[1..], b[1..]);
      assert a == [a[0]] + a[1..] && b == [b[0]] + b[1..];
    }
  }
}

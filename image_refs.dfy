/**
 * Image-reference rewriting (`ajustar_rutas_imagenes`): one `re.sub` with
 * the pattern `!\[.*?\]\((.*?)\)` and the callback `reemplazar`.
 *
 * The regular expression is modelled as the scanner Python runs over
 * positions of the text: at position `i` it needs `![`, then grows the lazy
 * alt text one character at a time until `](` follows and the lazy target
 * can reach a `)`; `.` matches every character except a newline. Matches
 * do not overlap and are taken left to right; text between them is copied.
 */
module ImageRefs {
  import opened Host
  import opened Text

  /** One match: `![alt](target)`, the target being `match.group(1)`. */
  datatype ImageRef = ImageRef(alt: string, target: string)

  /** The text of an image reference written out. */
  function Source(m: ImageRef): string
  {
    "![" + m.alt + "](" + m.target + ")"
  }

  /**
   * The lazy group `(.*?)\)` started at `j`: the length of the target, which
   * ends at the first `)`, provided no newline comes before it.
   */
  function CloseFrom(w: string, j: nat): (r: Option<nat>)
    requires j <= |w|
    ensures r.Some? ==> j + r.value < |w| && w[j + r.value] == ')'
    decreases |w| - j
  {
    if j == |w| || w[j] == '\n' then None
    else if w[j] == ')' then Some(0)
    else match CloseFrom(w, j + 1)
      case Some(k) => Some(k + 1)
      case None => None
  }

  /** The target that closes at `j` holds no `)` and no newline. */
  lemma {:induction false} CloseFromBody(w: string, j: nat)
    requires j <= |w| && CloseFrom(w, j).Some?
    ensures forall d :: j <= d < j + CloseFrom(w, j).value ==> w[d] != ')' && w[d] != '\n'
    decreases |w| - j
  {
    if w[j] != ')' {
      CloseFromBody(w, j + 1);
    }
  }

  /**
   * The lazy alt text `.*?` started at `p`, followed by `](` and the target:
   * the lengths of the alt text and of the target, for the shortest alt
   * text after which the target can close.
   */
  function BracketFrom(w: string, p: nat): (r: Option<(nat, nat)>)
    requires p <= |w|
    ensures r.Some? ==> p + r.value.0 + r.value.1 + 3 <= |w|
    decreases |w| - p
  {
    if p + 2 <= |w| && w[p] == ']' && w[p + 1] == '(' && CloseFrom(w, p + 2).Some? then
      Some((0, CloseFrom(w, p + 2).value))
    else if p < |w| && w[p] != '\n' then
      match BracketFrom(w, p + 1)
        case Some((a, t)) => Some((a + 1, t))
        case None => None
    else None
  }

  /** A bracket found from `p`: the alt text is followed by `](` and a target that closes. */
  lemma {:induction false} BracketFromFacts(w: string, p: nat)
    requires p <= |w| && BracketFrom(w, p).Some?
    ensures var (a, t) := BracketFrom(w, p).value;
      w[p + a] == ']' && w[p + a + 1] == '(' && CloseFrom(w, p + a + 2) == Some(t)
    decreases |w| - p
  {
    if !(p + 2 <= |w| && w[p] == ']' && w[p + 1] == '(' && CloseFrom(w, p + 2).Some?) {
      BracketFromFacts(w, p + 1);
    }
  }

  /** The alt text of a bracket found from `p` holds no newline. */
  lemma {:induction false} BracketFromLine(w: string, p: nat)
    requires p <= |w| && BracketFrom(w, p).Some?
    ensures forall d :: p <= d < p + BracketFrom(w, p).value.0 ==> w[d] != '\n'
    decreases |w| - p
  {
    if !(p + 2 <= |w| && w[p] == ']' && w[p + 1] == '(' && CloseFrom(w, p + 2).Some?) {
      BracketFromLine(w, p + 1);
    }
  }

  /** A match of the whole pattern at position `i`: the lengths of its alt text and target. */
  function MatchAt(w: string, i: nat): (r: Option<(nat, nat)>)
    requires i <= |w|
    ensures r.Some? ==> i + r.value.0 + r.value.1 + 5 <= |w|
  {
    if i + 2 <= |w| && w[i] == '!' && w[i + 1] == '[' then BracketFrom(w, i + 2) else None
  }

  /** A match starts with `![` and continues with the bracket found after it. */
  lemma MatchAtFacts(w: string, i: nat)
    requires i <= |w| && MatchAt(w, i).Some?
    ensures w[i] == '!' && w[i + 1] == '[' && BracketFrom(w, i + 2) == MatchAt(w, i)
  {
  }

  /**
   * An alt text of length `a` from `p`, on one line and followed by `](` and
   * a target that closes, is found: the lazy alt text found is at most that
   * long.
   */
  lemma {:induction false} BracketFound(w: string, p: nat, a: nat)
    requires p + a + 2 <= |w| && w[p + a] == ']' && w[p + a + 1] == '('
    requires CloseFrom(w, p + a + 2).Some?
    requires forall d :: p <= d < p + a ==> w[d] != '\n'
    ensures BracketFrom(w, p).Some? && BracketFrom(w, p).value.0 <= a
    decreases a
  {
    if a > 0 && !(w[p] == ']' && w[p + 1] == '(' && CloseFrom(w, p + 2).Some?) {
      assert w[p] != '\n';
      BracketFound(w, p + 1, a - 1);
    }
  }

  /** The lazy alt text is the shortest: no shorter one is followed by `](` and a target that closes. */
  lemma {:induction false} BracketShortest(w: string, p: nat, a: nat)
    requires p <= |w| && BracketFrom(w, p).Some? && a < BracketFrom(w, p).value.0
    ensures !(p + a + 2 <= |w| && w[p + a] == ']' && w[p + a + 1] == '(' && CloseFrom(w, p + a + 2).Some?)
    decreases a
  {
    if a > 0 {
      BracketShortest(w, p + 1, a - 1);
    }
  }

  /**
   * A reference written out at `i`, with an alt text on one line and a
   * target without `)` and newline, is matched there, with an alt text at
   * most as long as its own.
   */
  lemma MatchFound(w: string, i: nat, m: ImageRef)
    requires i + |Source(m)| <= |w| && w[i..i + |Source(m)|] == Source(m)
    requires '\n' !in m.alt && ')' !in m.target && '\n' !in m.target
    ensures MatchAt(w, i).Some? && MatchAt(w, i).value.0 <= |m.alt|
  {
    var a := |m.alt|;
    SourceShape(w, i, m);
    BracketFound(w, i + 2, a);
  }

  /**
   * When the alt text holds no `]` either, the match at `i` is exactly that
   * reference, with both groups.
   */
  lemma MatchExactly(w: string, i: nat, m: ImageRef)
    requires i + |Source(m)| <= |w| && w[i..i + |Source(m)|] == Source(m)
    requires '\n' !in m.alt && ']' !in m.alt && ')' !in m.target && '\n' !in m.target
    ensures MatchAt(w, i) == Some((|m.alt|, |m.target|))
    ensures Captured(w, i, (|m.alt|, |m.target|)) == m
  {
    SourceShape(w, i, m);
    MatchLengths(w, i, m);
    SourceGroups(w, i, m);
  }

  /** The lengths found for such a reference are those of its alt text and target. */
  lemma MatchLengths(w: string, i: nat, m: ImageRef)
    requires i + 4 + |m.alt| <= |w| && ']' !in m.alt
    requires w[i] == '!' && w[i + 1] == '[' && w[i + 2 + |m.alt|] == ']' && w[i + 3 + |m.alt|] == '('
    requires CloseFrom(w, i + |m.alt| + 4) == Some(|m.target|)
    requires forall d :: i + 2 <= d < i + 2 + |m.alt| ==> w[d] == m.alt[d - i - 2] && w[d] != '\n'
    ensures MatchAt(w, i) == Some((|m.alt|, |m.target|))
  {
    var a := |m.alt|;
    BracketFound(w, i + 2, a);
    BracketFromFacts(w, i + 2);
    var a' := BracketFrom(w, i + 2).value.0;
    if a' < a {
      assert false;
    }
  }

  /** The characters of a reference written out at `i`, as the scanner reads them. */
  lemma SourceShape(w: string, i: nat, m: ImageRef)
    requires i + |Source(m)| <= |w| && w[i..i + |Source(m)|] == Source(m)
    requires '\n' !in m.alt && ')' !in m.target && '\n' !in m.target
    ensures var a := |m.alt|;
      w[i] == '!' && w[i + 1] == '[' && w[i + 2 + a] == ']' && w[i + 3 + a] == '('
      && CloseFrom(w, i + a + 4) == Some(|m.target|)
      && forall d :: i + 2 <= d < i + 2 + a ==> w[d] == m.alt[d - i - 2] && w[d] != '\n'
  {
    var a, t := |m.alt|, |m.target|;
    forall d | 0 <= d < a + t + 5
      ensures w[i + d] == Source(m)[d]
    {
      assert w[i + d] == w[i..i + |Source(m)|][d];
    }
    SourceIndex(m, 0);
    SourceIndex(m, 1);
    SourceIndex(m, a + 2);
    SourceIndex(m, a + 3);
    SourceIndex(m, a + t + 4);
    forall d | i + 2 <= d < i + 2 + a
      ensures w[d] == m.alt[d - i - 2] && w[d] != '\n'
    {
      SourceIndex(m, d - i);
      assert m.alt[d - i - 2] in m.alt;
    }
    forall d | i + a + 4 <= d < i + a + 4 + t
      ensures w[d] != ')' && w[d] != '\n'
    {
      SourceIndex(m, d - i);
      assert m.target[d - i - a - 4] in m.target;
    }
    CloseAt(w, i + a + 4, t);
  }

  /** The groups of a reference written out at `i` are its alt text and target. */
  lemma SourceGroups(w: string, i: nat, m: ImageRef)
    requires i + |Source(m)| <= |w| && w[i..i + |Source(m)|] == Source(m)
    ensures Captured(w, i, (|m.alt|, |m.target|)) == m
  {
    var a, t := |m.alt|, |m.target|;
    SourceIndex(m, 0);
    forall d | 0 <= d < a
      ensures w[i + 2 + d] == m.alt[d]
    {
      SourceIndex(m, d + 2);
      assert w[i + 2 + d] == w[i..i + |Source(m)|][d + 2];
    }
    forall d | 0 <= d < t
      ensures w[i + a + 4 + d] == m.target[d]
    {
      SourceIndex(m, a + 4 + d);
      assert w[i + a + 4 + d] == w[i..i + |Source(m)|][a + 4 + d];
    }
    assert w[i + 2..i + 2 + a] == m.alt;
    assert w[i + a + 4..i + a + 4 + t] == m.target;
  }

  /** Length of a match: `![`, alt text, `](`, target, `)`. */
  function MatchLength(at: (nat, nat)): nat
  {
    at.0 + at.1 + 5
  }

  /** The groups of the match at `i`. */
  function Captured(w: string, i: nat, at: (nat, nat)): ImageRef
    requires i + MatchLength(at) <= |w|
  {
    ImageRef(w[i + 2..i + 2 + at.0], w[i + at.0 + 4..i + at.0 + 4 + at.1])
  }

  /** A piece of the text as `re.sub` sees it: a copied character, or a match with its whole text. */
  datatype Piece = Verbatim(c: char) | Image(ref: ImageRef, text: string)

  function PieceText(p: Piece): string
  {
    match p
    case Verbatim(c) => [c]
    case Image(_, text) => text
  }

  /**
   * What `re.sub` takes at position `i`: the match found there, or else the
   * single character it copies; with the length consumed.
   */
  function Step(w: string, i: nat): (r: (Piece, nat))
    requires i < |w|
    ensures 0 < r.1 && i + r.1 <= |w|
  {
    match MatchAt(w, i)
    case Some(at) => (Image(Captured(w, i, at), w[i..i + MatchLength(at)]), MatchLength(at))
    case None => (Verbatim(w[i]), 1)
  }

  /** The test in `reemplazar` that keeps a reference as it is: a web address or an absolute path. */
  predicate LeftAsIs(ops: PathOps, target: string)
  {
    "http" <= target || ops.isabs(target)
  }

  /**
   * `abspath(join(ruta_actual, target)).replace('\\', '/')`: the target
   * resolved against the directory of the file that holds it.
   */
  function Resolve(ops: PathOps, dir: string, target: string): (r: string)
    ensures '\\' !in r
    ensures |r| == |ops.abspath(ops.join(dir, target))|
  {
    ToForwardSlashes(ops.abspath(ops.join(dir, target)))
  }

  /** `reemplazar`: what one match is replaced by. */
  function Substitute(ops: PathOps, dir: string, m: ImageRef, text: string): string
  {
    if LeftAsIs(ops, m.target) then text
    else Source(ImageRef("", Resolve(ops, dir, m.target)))
  }

  /** What one piece becomes in the output. */
  function Emit(ops: PathOps, dir: string, p: Piece): string
  {
    match p
    case Verbatim(c) => [c]
    case Image(m, text) => Substitute(ops, dir, m, text)
  }

  /** `reemplazar` with the directory of the file fixed, as a function of the piece. */
  function EmitIn(ops: PathOps, dir: string): Piece -> string
  {
    p => Emit(ops, dir, p)
  }

  /** Each step's piece passed through `emit`, from position `i` to the end of the text. */
  function EmittedBy(emit: Piece -> string, w: string, i: nat): string
    requires i <= |w|
    decreases |w| - i
  {
    if i == |w| then []
    else emit(Step(w, i).0) + EmittedBy(emit, w, i + Step(w, i).1)
  }

  /**
   * The output `re.sub` produces from position `i` on: each step's piece
   * emitted, then the output from past the step.
   */
  function RewriteFrom(ops: PathOps, dir: string, w: string, i: nat): string
    requires i <= |w|
  {
    EmittedBy(EmitIn(ops, dir), w, i)
  }

  /** `ajustar_rutas_imagenes(contenido_md, ruta_actual)`. */
  function Rewrite(ops: PathOps, dir: string, w: string): string
  {
    RewriteFrom(ops, dir, w, 0)
  }

  /** One step of the traversal. */
  lemma RewriteStep(ops: PathOps, dir: string, w: string, i: nat)
    requires i < |w|
    ensures RewriteFrom(ops, dir, w, i) ==
      Emit(ops, dir, Step(w, i).0) + RewriteFrom(ops, dir, w, i + Step(w, i).1)
  {
  }

  /** A character where no match starts is copied. */
  lemma {:induction false} CopiedCharacter(ops: PathOps, dir: string, w: string, i: nat)
    requires i < |w| && MatchAt(w, i).None?
    ensures RewriteFrom(ops, dir, w, i) == [w[i]] + RewriteFrom(ops, dir, w, i + 1)
  {
    RewriteStep(ops, dir, w, i);
  }

  /** The traversal takes a match exactly where the pattern matches, consuming all of it. */
  lemma StepAtMatch(w: string, i: nat)
    requires i < |w|
    ensures Step(w, i).0.Image? <==> MatchAt(w, i).Some?
    ensures MatchAt(w, i).Some? ==>
      Step(w, i).0.ref == Captured(w, i, MatchAt(w, i).value) && Step(w, i).1 == MatchLength(MatchAt(w, i).value)
  {
  }

  /** A match whose target is a web address or an absolute path comes out as its own matched text. */
  lemma {:induction false} KeptReference(ops: PathOps, dir: string, w: string, i: nat)
    requires i < |w| && Step(w, i).0.Image? && LeftAsIs(ops, Step(w, i).0.ref.target)
    ensures RewriteFrom(ops, dir, w, i) == w[i..i + Step(w, i).1] + RewriteFrom(ops, dir, w, i + Step(w, i).1)
  {
    RewriteStep(ops, dir, w, i);
  }

  /**
   * A match with any other target becomes a reference with an empty alt
   * text and the resolved target, which holds no backslash.
   */
  lemma {:induction false} RelativeReference(ops: PathOps, dir: string, w: string, i: nat)
    requires i < |w| && Step(w, i).0.Image? && !LeftAsIs(ops, Step(w, i).0.ref.target)
    ensures RewriteFrom(ops, dir, w, i) ==
      Source(ImageRef("", Resolve(ops, dir, Step(w, i).0.ref.target))) + RewriteFrom(ops, dir, w, i + Step(w, i).1)
    ensures '\\' !in Resolve(ops, dir, Step(w, i).0.ref.target)
  {
    RewriteStep(ops, dir, w, i);
  }

  /**
   * A relative reference written out at `i`, its alt text on one line and
   * without `]`, its target without `)` and newline, is rewritten to
   * `![](P)` with `P` its resolved target, and the scan goes on after it.
   */
  lemma ReferenceRewritten(ops: PathOps, dir: string, w: string, i: nat, m: ImageRef)
    requires i + |Source(m)| <= |w| && w[i..i + |Source(m)|] == Source(m)
    requires '\n' !in m.alt && ']' !in m.alt && ')' !in m.target && '\n' !in m.target
    requires !LeftAsIs(ops, m.target)
    ensures RewriteFrom(ops, dir, w, i) ==
      Source(ImageRef("", Resolve(ops, dir, m.target))) + RewriteFrom(ops, dir, w, i + |Source(m)|)
  {
    MatchExactly(w, i, m);
    SourceIndex(m, 0);
    StepAtMatch(w, i);
    RelativeReference(ops, dir, w, i);
  }

  /** Such a reference whose target starts with `http` or is absolute comes out as written. */
  lemma ReferenceKept(ops: PathOps, dir: string, w: string, i: nat, m: ImageRef)
    requires i + |Source(m)| <= |w| && w[i..i + |Source(m)|] == Source(m)
    requires '\n' !in m.alt && ']' !in m.alt && ')' !in m.target && '\n' !in m.target
    requires LeftAsIs(ops, m.target)
    ensures RewriteFrom(ops, dir, w, i) == Source(m) + RewriteFrom(ops, dir, w, i + |Source(m)|)
  {
    MatchExactly(w, i, m);
    SourceIndex(m, 0);
    StepAtMatch(w, i);
    KeptReference(ops, dir, w, i);
  }

  /** Every match `re.sub` finds from position `i` on is one `reemplazar` keeps. */
  predicate KeptFrom(ops: PathOps, w: string, i: nat)
    requires i <= |w|
    decreases |w| - i
  {
    i == |w| ||
    ((Step(w, i).0.Image? ==> LeftAsIs(ops, Step(w, i).0.ref.target)) && KeptFrom(ops, w, i + Step(w, i).1))
  }

  /** What a kept piece emits is its own text. */
  lemma KeptPiece(ops: PathOps, dir: string, p: Piece)
    requires p.Image? ==> LeftAsIs(ops, p.ref.target)
    ensures Emit(ops, dir, p) == PieceText(p)
  {
  }

  /** A kept step emits the text it consumed. */
  lemma KeptStep(ops: PathOps, dir: string, w: string, i: nat)
    requires i < |w| && (Step(w, i).0.Image? ==> LeftAsIs(ops, Step(w, i).0.ref.target))
    ensures Emit(ops, dir, Step(w, i).0) == w[i..i + Step(w, i).1]
  {
    KeptPiece(ops, dir, Step(w, i).0);
  }

  /** The first step of a kept traversal is kept, and so is the rest. */
  lemma KeptFromStep(ops: PathOps, w: string, i: nat)
    requires i < |w| && KeptFrom(ops, w, i)
    ensures Step(w, i).0.Image? ==> LeftAsIs(ops, Step(w, i).0.ref.target)
    ensures KeptFrom(ops, w, i + Step(w, i).1)
  {
  }

  /** From a position past which every match is kept, the rest of the text comes back unchanged. */
  lemma {:induction false} KeptUnchanged(ops: PathOps, dir: string, w: string, i: nat)
    requires i <= |w| && KeptFrom(ops, w, i)
    ensures RewriteFrom(ops, dir, w, i) == w[i..]
    decreases |w| - i
  {
    if i < |w| {
      KeptFromStep(ops, w, i);
      KeptUnchanged(ops, dir, w, i + Step(w, i).1);
      KeptStepUnchanged(ops, dir, w, i);
    }
  }

  /** A kept step followed by an unchanged rest leaves the text from `i` unchanged. */
  lemma KeptStepUnchanged(ops: PathOps, dir: string, w: string, i: nat)
    requires i < |w| && (Step(w, i).0.Image? ==> LeftAsIs(ops, Step(w, i).0.ref.target))
    requires RewriteFrom(ops, dir, w, i + Step(w, i).1) == w[i + Step(w, i).1..]
    ensures RewriteFrom(ops, dir, w, i) == w[i..]
  {
    RewriteStep(ops, dir, w, i);
    KeptStep(ops, dir, w, i);
    SliceSplit(w, i, i + Step(w, i).1);
  }

  /** The text from `i` is the text up to `j` followed by the text from `j`. */
  lemma SliceSplit(s: string, i: nat, j: nat)
    requires i <= j <= |s|
    ensures s[i..] == s[i..j] + s[j..]
  {
  }

  /** A text whose every match is kept comes back unchanged. */
  lemma NothingToRewrite(ops: PathOps, dir: string, w: string)
    requires KeptFrom(ops, w, 0)
    ensures Rewrite(ops, dir, w) == w
  {
    KeptUnchanged(ops, dir, w, 0);
  }

  lemma SliceOfSuffix(u: string, p: nat, x: nat, y: nat)
    requires x <= y && p + y <= |u|
    ensures u[p..][x..y] == u[p + x..p + y]
  {
  }

  /** The text of a match is `![alt](target)` written out from its groups. */
  lemma MatchText(w: string, i: nat)
    requires i <= |w| && MatchAt(w, i).Some?
    ensures var at := MatchAt(w, i).value;
      w[i..i + MatchLength(at)] == Source(Captured(w, i, at))
  {
    var at := MatchAt(w, i).value;
    var (a, t) := at;
    MatchAtFacts(w, i);
    BracketFromFacts(w, i + 2);
    TextOfParts(w, i, at);
  }

  /** Text laid out as `![`, `a` characters, `](`, `t` characters and `)` is the reference it captures written out. */
  lemma TextOfParts(w: string, i: nat, at: (nat, nat))
    requires i + MatchLength(at) <= |w|
    requires w[i] == '!' && w[i + 1] == '[' && w[i + at.0 + 2] == ']' && w[i + at.0 + 3] == '('
    requires w[i + at.0 + 4 + at.1] == ')'
    ensures w[i..i + MatchLength(at)] == Source(Captured(w, i, at))
  {
    var (a, t) := at;
    var m := Captured(w, i, at);
    var s := w[i..i + a + t + 5];
    forall d | 0 <= d < a + t + 5
      ensures s[d] == Source(m)[d]
    {
      SourceIndex(m, d);
      if 2 <= d < a + 2 {
        assert m.alt[d - 2] == w[i + d];
      } else if a + 4 <= d < a + t + 4 {
        assert m.target[d - a - 4] == w[i + d];
      }
    }
    SourceIndex(m, 0);
  }

  /** Character `d` of a reference written out. */
  lemma SourceIndex(m: ImageRef, d: nat)
    requires d < |m.alt| + |m.target| + 5
    ensures |Source(m)| == |m.alt| + |m.target| + 5
    ensures var a, t := |m.alt|, |m.target|;
      Source(m)[d] ==
        if d == 0 then '!' else if d == 1 then '['
        else if d < a + 2 then m.alt[d - 2]
        else if d == a + 2 then ']' else if d == a + 3 then '('
        else if d < a + t + 4 then m.target[d - a - 4]
        else ')'
  {
  }

  /** A captured target never holds `)` or a newline, and an alt text no newline. */
  lemma CaptureShape(w: string, i: nat)
    requires i <= |w| && MatchAt(w, i).Some?
    ensures var m := Captured(w, i, MatchAt(w, i).value);
      '\n' !in m.alt && '\n' !in m.target && ')' !in m.target
  {
    var (a, t) := MatchAt(w, i).value;
    var m := Captured(w, i, (a, t));
    BracketFromFacts(w, i + 2);
    BracketFromLine(w, i + 2);
    CloseFromBody(w, i + a + 4);
    assert CloseFrom(w, i + a + 4) == Some(t);
    assert forall c :: c in m.alt ==> c != '\n';
    assert forall c :: c in m.target ==> c != ')' && c != '\n';
  }

  /** Position `i` of `s` is the end of a line: the end of the text or a newline. */
  predicate AtLineEnd(s: string, i: nat)
    requires i <= |s|
  {
    i == |s| || s[i] == '\n'
  }

  /** `u` from `p` and `v` from `q` read the same up to the end of the line. */
  predicate LineAgree(u: string, p: nat, v: string, q: nat)
    requires p <= |u| && q <= |v|
    decreases |u| - p
  {
    if AtLineEnd(u, p) then AtLineEnd(v, q)
    else q < |v| && v[q] == u[p] && LineAgree(u, p + 1, v, q + 1)
  }

  /** The target group never looks past the end of its line. */
  lemma {:induction false} CloseLine(u: string, p: nat, v: string, q: nat)
    requires p <= |u| && q <= |v| && LineAgree(u, p, v, q)
    ensures CloseFrom(u, p) == CloseFrom(v, q)
    decreases |u| - p
  {
    if !AtLineEnd(u, p) && u[p] != ')' {
      CloseLine(u, p + 1, v, q + 1);
    }
  }

  /** Neither does the alt text: a match is decided by its own line. */
  lemma {:induction false} BracketLine(u: string, p: nat, v: string, q: nat)
    requires p <= |u| && q <= |v| && LineAgree(u, p, v, q)
    ensures BracketFrom(u, p) == BracketFrom(v, q)
    decreases |u| - p
  {
    if !AtLineEnd(u, p) {
      if !AtLineEnd(u, p + 1) {
        CloseLine(u, p + 2, v, q + 2);
      }
      BracketLine(u, p + 1, v, q + 1);
    }
  }

  /** Equal suffixes read the same on their first line. */
  lemma {:induction false} SuffixLine(u: string, p: nat, v: string, q: nat)
    requires p <= |u| && q <= |v| && u[p..] == v[q..]
    ensures LineAgree(u, p, v, q)
    decreases |u| - p
  {
    if p < |u| {
      assert u[p] == u[p..][0] == v[q..][0] == v[q];
      assert u[p + 1..] == u[p..][1..] == v[q..][1..] == v[q + 1..];
      SuffixLine(u, p + 1, v, q + 1);
    }
  }

  /** What the scanner finds from a position depends only on the text from there on. */
  lemma MatchSuffix(u: string, p: nat, v: string, q: nat)
    requires p <= |u| && q <= |v| && u[p..] == v[q..]
    ensures MatchAt(u, p) == MatchAt(v, q)
  {
    if p + 2 <= |u| {
      assert u[p] == u[p..][0] == v[q..][0] == v[q];
      assert u[p + 1] == u[p..][1] == v[q..][1] == v[q + 1];
      assert u[p + 2..] == u[p..][2..] == v[q..][2..] == v[q + 2..];
      SuffixLine(u, p + 2, v, q + 2);
      BracketLine(u, p + 2, v, q + 2);
    }
  }

  /** So are the groups and the text of a match found there. */
  lemma CapturedSuffix(u: string, p: nat, v: string, q: nat, at: (nat, nat))
    requires p + MatchLength(at) <= |u| && q <= |v| && u[p..] == v[q..]
    ensures Captured(u, p, at) == Captured(v, q, at)
    ensures u[p..p + MatchLength(at)] == v[q..q + MatchLength(at)]
  {
    var a, t := at.0, at.1;
    SliceOfSuffix(u, p, 2, 2 + a);
    SliceOfSuffix(v, q, 2, 2 + a);
    SliceOfSuffix(u, p, a + 4, a + 4 + t);
    SliceOfSuffix(v, q, a + 4, a + 4 + t);
    SliceOfSuffix(u, p, 0, a + t + 5);
    SliceOfSuffix(v, q, 0, a + t + 5);
  }

  /** The piece taken at a position depends only on the text from there on. */
  lemma StepSuffix(u: string, p: nat, v: string, q: nat)
    requires p < |u| && q <= |v| && u[p..] == v[q..]
    ensures q < |v| && Step(u, p) == Step(v, q)
  {
    MatchSuffix(u, p, v, q);
    if MatchAt(u, p).Some? {
      CapturedSuffix(u, p, v, q, MatchAt(u, p).value);
    } else {
      assert u[p] == u[p..][0] == v[q..][0] == v[q];
    }
  }

  /** Equal windows agree on their first character and on the rest of the window. */
  lemma WindowShift(u: string, i: nat, v: string, j: nat, n: nat)
    requires 0 < n && i + n <= |u| && j + n <= |v| && u[i..i + n] == v[j..j + n]
    ensures u[i] == v[j] && u[i + 1..i + n] == v[j + 1..j + n]
  {
    assert u[i] == u[i..i + n][0] == v[j..j + n][0] == v[j];
    assert u[i + 1..i + n] == u[i..i + n][1..] == v[j..j + n][1..] == v[j + 1..j + n];
  }

  /** A target that closes inside a window closes the same way in any copy of the window. */
  lemma {:induction false} CloseWindow(u: string, i: nat, v: string, j: nat, n: nat)
    requires i + n <= |u| && j + n <= |v| && u[i..i + n] == v[j..j + n]
    requires CloseFrom(u, i).Some? && CloseFrom(u, i).value < n
    ensures CloseFrom(v, j) == CloseFrom(u, i)
    decreases n
  {
    WindowShift(u, i, v, j, n);
    if u[i] != ')' {
      CloseWindow(u, i + 1, v, j + 1, n - 1);
    }
  }

  /** A bracket followed by a closing target can always close from where the alt text starts. */
  lemma {:induction false} BracketImpliesClose(w: string, p: nat)
    requires p <= |w| && BracketFrom(w, p).Some?
    ensures CloseFrom(w, p).Some?
    decreases |w| - p
  {
    if w[p] != ')' {
      if BracketFrom(w, p).value.0 == 0 {
        assert CloseFrom(w, p + 2).Some?;
        assert CloseFrom(w, p + 1).Some?;
      } else {
        BracketImpliesClose(w, p + 1);
      }
    }
  }

  /** An alt text that is empty: `](` and the target right at `p`. */
  lemma EmptyAltWindow(u: string, p: nat, v: string, q: nat, n: nat)
    requires p + n <= |u| && q + n <= |v| && u[p..p + n] == v[q..q + n]
    requires BracketFrom(u, p).Some? && BracketFrom(u, p).value.0 == 0
    requires BracketFrom(u, p).value.1 + 3 <= n
    ensures BracketFrom(v, q) == BracketFrom(u, p)
  {
    WindowShift(u, p, v, q, n);
    WindowShift(u, p + 1, v, q + 1, n - 1);
    CloseWindow(u, p + 2, v, q + 2, n - 2);
  }

  /** Where a longer alt text is needed, no target closes right after a `](` at `p`. */
  lemma NoEarlierClose(u: string, p: nat)
    requires p <= |u| && BracketFrom(u, p).Some? && BracketFrom(u, p).value.0 > 0
    ensures !(p + 2 <= |u| && u[p] == ']' && u[p + 1] == '(')
  {
    if p + 2 <= |u| && u[p] == ']' && u[p + 1] == '(' {
      assert BracketFrom(u, p + 2).Some?;
      BracketImpliesClose(u, p + 2);
    }
  }

  /** An alt text and target found inside a window are found the same way in any copy of it. */
  lemma {:induction false} BracketWindow(u: string, p: nat, v: string, q: nat, n: nat)
    requires p + n <= |u| && q + n <= |v| && u[p..p + n] == v[q..q + n]
    requires BracketFrom(u, p).Some?
    requires BracketFrom(u, p).value.0 + BracketFrom(u, p).value.1 + 3 <= n
    ensures BracketFrom(v, q) == BracketFrom(u, p)
    decreases n
  {
    if BracketFrom(u, p).value.0 == 0 {
      EmptyAltWindow(u, p, v, q, n);
    } else {
      NoEarlierClose(u, p);
      WindowShift(u, p, v, q, n);
      WindowShift(u, p + 1, v, q + 1, n - 1);
      BracketWindow(u, p + 1, v, q + 1, n - 1);
    }
  }

  /** `u[i..i + n][x..y]` is `u[i + x..i + y]`. */
  lemma SliceOfWindow(u: string, i: nat, n: nat, x: nat, y: nat)
    requires x <= y <= n && i + n <= |u|
    ensures u[i..i + n][x..y] == u[i + x..i + y]
  {
    var s1 := u[i..i + n][x..y];
    var s2 := u[i + x..i + y];
    forall k | 0 <= k < |s1|
      ensures s1[k] == s2[k]
    {
    }
  }

  /** The groups of a match at `i` are read from its window alone. */
  lemma CapturedWindow(u: string, i: nat, v: string, j: nat, at: (nat, nat))
    requires i + MatchLength(at) <= |u| && j + MatchLength(at) <= |v|
    requires u[i..i + MatchLength(at)] == v[j..j + MatchLength(at)]
    ensures Captured(v, j, at) == Captured(u, i, at)
  {
    var n := MatchLength(at);
    SliceOfWindow(u, i, n, 2, 2 + at.0);
    SliceOfWindow(v, j, n, 2, 2 + at.0);
    SliceOfWindow(u, i, n, at.0 + 4, at.0 + 4 + at.1);
    SliceOfWindow(v, j, n, at.0 + 4, at.0 + 4 + at.1);
  }

  /** A match is decided by its own text: any copy of it matches with the same groups. */
  lemma MatchWindow(u: string, i: nat, v: string, j: nat, at: (nat, nat))
    requires i <= |u| && MatchAt(u, i) == Some(at)
    requires j + MatchLength(at) <= |v|
    requires u[i..i + MatchLength(at)] == v[j..j + MatchLength(at)]
    ensures MatchAt(v, j) == Some(at)
    ensures Captured(v, j, at) == Captured(u, i, at)
  {
    var n := MatchLength(at);
    WindowShift(u, i, v, j, n);
    WindowShift(u, i + 1, v, j + 1, n - 1);
    BracketWindow(u, i + 2, v, j + 2, n - 2);
    CapturedWindow(u, i, v, j, at);
  }

  /** A target group closes at the first `)` when no newline comes before it. */
  lemma {:induction false} CloseAt(v: string, j: nat, n: nat)
    requires j + n < |v| && v[j + n] == ')'
    requires forall d :: j <= d < j + n ==> v[d] != ')' && v[d] != '\n'
    ensures CloseFrom(v, j) == Some(n)
    decreases n
  {
    if n > 0 {
      CloseAt(v, j + 1, n - 1);
    }
  }

  /**
   * A rewritten reference `![](P)`, whatever follows it, is matched again as
   * itself, provided `P` holds no `)` and no newline.
   */
  lemma ResolvedMatch(path: string, rest: string)
    requires ')' !in path && '\n' !in path
    ensures var out := Source(ImageRef("", path)) + rest;
      var at: (nat, nat) := (0, |path|);
      MatchAt(out, 0) == Some(at)
      && Captured(out, 0, at) == ImageRef("", path)
      && out[..MatchLength(at)] == Source(ImageRef("", path))
  {
    var src := Source(ImageRef("", path));
    var out := src + rest;
    assert src == "![](" + path + ")";
    assert out[0] == '!' && out[1] == '[' && out[2] == ']' && out[3] == '(';
    assert out[4 + |path|] == ')';
    forall d | 4 <= d < 4 + |path|
      ensures out[d] != ')' && out[d] != '\n'
    {
      assert out[d] == path[d - 4];
    }
    CloseAt(out, 4, |path|);
    assert out[4..4 + |path|] == path;
    assert out[..|path| + 5] == src;
  }

  /** The first character `re.sub` emits from a position: `!` for a match, else the character copied. */
  lemma RewriteHead(ops: PathOps, dir: string, w: string, j: nat)
    requires j < |w|
    ensures RewriteFrom(ops, dir, w, j) != []
    ensures RewriteFrom(ops, dir, w, j)[0] == if MatchAt(w, j).Some? then '!' else w[j]
  {
    var st := Step(w, j);
    StepAtMatch(w, j);
    RewriteStep(ops, dir, w, j);
    var e := Emit(ops, dir, st.0);
    if st.0.Image? {
      assert w[j] == '!';
      assert st.0.text == w[j..j + st.1];
      assert st.0.text[0] == w[j];
      if LeftAsIs(ops, st.0.ref.target) {
        assert e == st.0.text;
      } else {
        var src := Source(ImageRef("", Resolve(ops, dir, st.0.ref.target)));
        assert e == src && src[0] == '!';
      }
    } else {
      assert e == [w[j]];
    }
  }

  /** The output from a position depends only on the text from there on. */
  lemma RewriteSuffix(ops: PathOps, dir: string, u: string, p: nat, v: string, q: nat)
    requires p <= |u| && q <= |v| && u[p..] == v[q..]
    ensures RewriteFrom(ops, dir, u, p) == RewriteFrom(ops, dir, v, q)
  {
    SameFromSuffix(u, p, v, q);
    EmittedSuffix(EmitIn(ops, dir), u, p, v, q);
  }

  /** `u` from `p` on and `v` from `q` on are the same text, compared one character at a time. */
  predicate SameFrom(u: string, p: nat, v: string, q: nat)
    decreases |u| - p
  {
    p <= |u| && q <= |v| && |u| - p == |v| - q
    && (p < |u| ==> u[p] == v[q] && SameFrom(u, p + 1, v, q + 1))
  }

  /** Equal suffixes are the same text from there on. */
  lemma {:induction false} SameFromSuffix(u: string, p: nat, v: string, q: nat)
    requires p <= |u| && q <= |v| && u[p..] == v[q..]
    ensures SameFrom(u, p, v, q)
    decreases |u| - p
  {
    assert |u[p..]| == |v[q..]|;
    if p < |u| {
      assert u[p] == u[p..][0] == v[q..][0] == v[q];
      SuffixNext(u, p, v, q, 1);
      SameFromSuffix(u, p + 1, v, q + 1);
    }
  }

  /** And the other way round. */
  lemma {:induction false} SuffixOfSameFrom(u: string, p: nat, v: string, q: nat)
    requires SameFrom(u, p, v, q)
    ensures u[p..] == v[q..]
    decreases |u| - p
  {
    if p < |u| {
      SuffixOfSameFrom(u, p + 1, v, q + 1);
      SliceSplit(u, p, p + 1);
      SliceSplit(v, q, q + 1);
      assert u[p..p + 1] == [u[p]] && v[q..q + 1] == [v[q]];
    }
  }

  /** The piece taken at two positions with the same text from there on is the same, and so is the text after it. */
  lemma SameFromStep(u: string, p: nat, v: string, q: nat)
    requires p < |u| && SameFrom(u, p, v, q)
    ensures q < |v| && Step(u, p) == Step(v, q)
    ensures SameFrom(u, p + Step(u, p).1, v, q + Step(u, p).1)
  {
    SuffixOfSameFrom(u, p, v, q);
    StepSuffix(u, p, v, q);
    SuffixNext(u, p, v, q, Step(u, p).1);
    SameFromSuffix(u, p + Step(u, p).1, v, q + Step(u, p).1);
  }

  /** Whatever each piece becomes, the output from a position depends only on the text from there on. */
  lemma {:induction false} EmittedSuffix(emit: Piece -> string, u: string, p: nat, v: string, q: nat)
    requires SameFrom(u, p, v, q)
    ensures EmittedBy(emit, u, p) == EmittedBy(emit, v, q)
    decreases |u| - p
  {
    if p < |u| {
      var n := EmittedNext(emit, u, p, v, q);
      EmittedSuffix(emit, u, p + n, v, q + n);
    }
  }

  /**
   * One step of that argument: the first piece is `n` characters long on
   * both sides, the texts agree after it, and equal outputs after it mean
   * equal outputs from the start.
   */
  lemma EmittedNext(emit: Piece -> string, u: string, p: nat, v: string, q: nat) returns (n: nat)
    requires p < |u| && SameFrom(u, p, v, q)
    ensures 0 < n && p + n <= |u| && SameFrom(u, p + n, v, q + n)
    ensures EmittedBy(emit, u, p + n) == EmittedBy(emit, v, q + n) ==> EmittedBy(emit, u, p) == EmittedBy(emit, v, q)
  {
    SameFromStep(u, p, v, q);
    n := Step(u, p).1;
    SameStepSameOutput(emit, u, p, v, q, n);
  }

  /** Equal suffixes stay equal past the same number of characters. */
  lemma SuffixNext(u: string, p: nat, v: string, q: nat, n: nat)
    requires p + n <= |u| && q <= |v| && u[p..] == v[q..]
    ensures q + n <= |v| && u[p + n..] == v[q + n..]
  {
    assert |u[p..]| == |v[q..]|;
    assert u[p + n..] == u[p..][n..];
    assert v[q + n..] == v[q..][n..];
  }

  /** Taking the same piece at two positions, and emitting the same after it, emits the same from both. */
  lemma SameStepSameOutput(emit: Piece -> string, u: string, p: nat, v: string, q: nat, n: nat)
    requires p < |u| && q < |v| && Step(u, p) == Step(v, q) && Step(u, p).1 == n
    ensures EmittedBy(emit, u, p + n) == EmittedBy(emit, v, q + n) ==> EmittedBy(emit, u, p) == EmittedBy(emit, v, q)
  {
    EmittedStep(emit, u, p);
    EmittedStep(emit, v, q);
  }

  lemma EmittedStep(emit: Piece -> string, w: string, i: nat)
    requires i < |w|
    ensures EmittedBy(emit, w, i) == emit(Step(w, i).0) + EmittedBy(emit, w, i + Step(w, i).1)
  {
  }

  /** Line agreement carries over to an equal suffix on the right. */
  lemma {:induction false} LineAgreeShift(u: string, p: nat, x: string, q: nat, v: string, r: nat)
    requires p <= |u| && q <= |x| && r <= |v| && LineAgree(u, p, x, q) && x[q..] == v[r..]
    ensures LineAgree(u, p, v, r)
    decreases |u| - p
  {
    if !AtLineEnd(u, p) {
      assert x[q] == x[q..][0] == v[r..][0] == v[r];
      assert x[q + 1..] == x[q..][1..] == v[r..][1..] == v[r + 1..];
      LineAgreeShift(u, p + 1, x, q + 1, v, r + 1);
    } else if q < |x| {
      assert x[q] == x[q..][0] == v[r..][0] == v[r];
    }
  }

  /**
   * Where no alt text can start a match, `re.sub` copies the rest of the
   * line untouched.
   */
  lemma {:induction false} CopyLine(ops: PathOps, dir: string, w: string, p: nat)
    requires p <= |w| && BracketFrom(w, p).None?
    ensures LineAgree(w, p, RewriteFrom(ops, dir, w, p), 0)
    decreases |w| - p
  {
    var v := RewriteFrom(ops, dir, w, p);
    if p == |w| {
    } else if w[p] == '\n' {
      RewriteHead(ops, dir, w, p);
    } else {
      assert BracketFrom(w, p + 1).None?;
      if p + 2 <= |w| && w[p] == '!' && w[p + 1] == '[' {
        assert BracketFrom(w, p + 2).None?;
      }
      assert MatchAt(w, p).None?;
      RewriteStep(ops, dir, w, p);
      var x := RewriteFrom(ops, dir, w, p + 1);
      assert v == [w[p]] + x;
      CopyLine(ops, dir, w, p + 1);
      assert x[0..] == v[1..];
      LineAgreeShift(w, p + 1, x, 0, v, 1);
    }
  }

  /** Where nothing matches, nothing matches in the output either. */
  lemma NoMatchPreserved(ops: PathOps, dir: string, w: string, i: nat)
    requires i < |w| && MatchAt(w, i).None?
    ensures MatchAt([w[i]] + RewriteFrom(ops, dir, w, i + 1), 0).None?
  {
    if w[i] == '!' && i + 1 < |w| {
      RewriteHead(ops, dir, w, i + 1);
      if w[i + 1] == '[' {
        NoBracketAfter(ops, dir, w, i + 1, w[i]);
      }
    }
  }

  /** A `[` that starts no alt text is followed, in the output, by text that starts none either. */
  lemma NoBracketAfter(ops: PathOps, dir: string, w: string, j: nat, c: char)
    requires j < |w| && w[j] == '[' && BracketFrom(w, j + 1).None?
    ensures var out := [c] + RewriteFrom(ops, dir, w, j);
      2 <= |out| && BracketFrom(out, 2).None?
  {
    var x := RewriteFrom(ops, dir, w, j);
    var out := [c] + x;
    assert MatchAt(w, j).None?;
    RewriteStep(ops, dir, w, j);
    var y := RewriteFrom(ops, dir, w, j + 1);
    assert x == ['['] + y;
    assert out[2..] == y[0..];
    SuffixLine(out, 2, y, 0);
    BracketLine(out, 2, y, 0);
    CopyLine(ops, dir, w, j + 1);
    BracketLine(w, j + 1, y, 0);
  }

  /**
   * Every target a match can capture (one without `)` and newline, as
   * `CaptureShape` shows) resolves to an absolute path that holds no `)` and
   * no newline either. The first is what `abspath` promises; the other two
   * hold for a path library that adds no such characters of its own and a
   * directory without them, as `ResolvesToAbsoluteMet` shows.
   */
  ghost predicate ResolvesToAbsolute(ops: PathOps, dir: string)
  {
    forall t {:trigger Resolve(ops, dir, t)} :: ')' !in t && '\n' !in t ==>
      ops.isabs(Resolve(ops, dir, t)) && ')' !in Resolve(ops, dir, t) && '\n' !in Resolve(ops, dir, t)
  }

  /**
   * POSIX `join` of two parts: an absolute second part replaces the first,
   * otherwise a `/` goes between them unless the first is empty or already
   * ends with one.
   */
  function SlashJoin(a: string, b: string): string
  {
    if b != [] && b[0] == '/' then b
    else if a == [] || a[|a| - 1] == '/' then a + b
    else a + "/" + b
  }

  /** POSIX `isabs`: a leading `/`. */
  predicate SlashIsAbs(p: string)
  {
    p != [] && p[0] == '/'
  }

  /**
   * A POSIX path library: `join` as `SlashJoin` (at least for the directory
   * at hand), `isabs` as `SlashIsAbs`, and an `abspath` that keeps an
   * absolute path absolute and adds no character of its own, as normalising
   * `.` and `..` components does.
   */
  ghost predicate SlashPaths(ops: PathOps, dir: string)
  {
    (forall b :: ops.join(dir, b) == SlashJoin(dir, b))
    && (forall p :: SlashIsAbs(p) ==> SlashIsAbs(ops.abspath(p)) && forall c :: c in ops.abspath(p) ==> c in p)
    && (forall p :: ops.isabs(p) == SlashIsAbs(p))
  }

  /** The assumption of the idempotence lemmas holds for such a library and any absolute directory without `)` and newline. */
  lemma ResolvesToAbsoluteMet(ops: PathOps, dir: string)
    requires SlashPaths(ops, dir)
    requires SlashIsAbs(dir) && ')' !in dir && '\n' !in dir
    ensures ResolvesToAbsolute(ops, dir)
  {
    forall t | ')' !in t && '\n' !in t
      ensures ops.isabs(Resolve(ops, dir, t)) && ')' !in Resolve(ops, dir, t) && '\n' !in Resolve(ops, dir, t)
    {
      SlashResolve(ops, dir, t);
    }
  }

  /** One target resolved by such a library. */
  lemma SlashResolve(ops: PathOps, dir: string, t: string)
    requires SlashPaths(ops, dir)
    requires SlashIsAbs(dir) && ')' !in dir && '\n' !in dir && ')' !in t && '\n' !in t
    ensures var p := Resolve(ops, dir, t); ops.isabs(p) && ')' !in p && '\n' !in p
  {
    var j := ops.join(dir, t);
    SlashJoinShape(dir, t);
    var q := ops.abspath(j);
    assert SlashIsAbs(q) && forall c :: c in q ==> c in j;
    SlashesKeep(q);
  }

  /** Joining to an absolute directory gives an absolute path, with no `)` or newline unless the parts had one. */
  lemma SlashJoinShape(dir: string, t: string)
    requires SlashIsAbs(dir) && ')' !in dir && '\n' !in dir && ')' !in t && '\n' !in t
    ensures var j := SlashJoin(dir, t); SlashIsAbs(j) && ')' !in j && '\n' !in j
  {
    if !(t != [] && t[0] == '/') {
      var sep := if dir[|dir| - 1] == '/' then "" else "/";
      assert SlashJoin(dir, t) == dir + sep + t;
      assert (dir + sep + t)[0] == dir[0];
    }
  }

  /** Turning backslashes into slashes keeps a leading `/` and adds neither `)` nor a newline. */
  lemma SlashesKeep(p: string)
    requires SlashIsAbs(p) && ')' !in p && '\n' !in p
    ensures var r := ToForwardSlashes(p); SlashIsAbs(r) && ')' !in r && '\n' !in r
  {
    var r := ToForwardSlashes(p);
    forall k | 0 <= k < |r|
      ensures r[k] != ')' && r[k] != '\n'
    {
      assert p[k] in p;
    }
  }

  /** A copy of a match's text, at the start of another text, is the same step there. */
  lemma StepOfCopy(w: string, i: nat, out: string)
    requires i < |w| && Step(w, i).0.Image?
    requires Step(w, i).1 <= |out| && out[..Step(w, i).1] == w[i..i + Step(w, i).1]
    ensures 0 < |out| && Step(out, 0) == Step(w, i)
  {
    StepAtMatch(w, i);
    var at := MatchAt(w, i).value;
    assert out[0..MatchLength(at)] == out[..Step(w, i).1];
    MatchWindow(w, i, out, 0, at);
    StepAtMatch(out, 0);
  }

  /** A kept match followed by an already stable rest is stable. */
  lemma IdempotentKept(ops: PathOps, dir: string, w: string, i: nat)
    requires i < |w| && Step(w, i).0.Image? && LeftAsIs(ops, Step(w, i).0.ref.target)
    requires var r := RewriteFrom(ops, dir, w, i + Step(w, i).1); Rewrite(ops, dir, r) == r
    ensures Rewrite(ops, dir, RewriteFrom(ops, dir, w, i)) == RewriteFrom(ops, dir, w, i)
  {
    var n := Step(w, i).1;
    var r := RewriteFrom(ops, dir, w, i + n);
    var out := RewriteFrom(ops, dir, w, i);
    KeptReference(ops, dir, w, i);
    assert out == w[i..i + n] + r;
    assert out[..n] == w[i..i + n];
    StepOfCopy(w, i, out);
    KeptReference(ops, dir, out, 0);
    assert out[n..] == r[0..];
    RewriteSuffix(ops, dir, out, n, r, 0);
  }

  /** A rewritten match followed by an already stable rest is stable. */
  lemma IdempotentRelative(ops: PathOps, dir: string, w: string, i: nat)
    requires ResolvesToAbsolute(ops, dir)
    requires i < |w| && Step(w, i).0.Image? && !LeftAsIs(ops, Step(w, i).0.ref.target)
    requires var r := RewriteFrom(ops, dir, w, i + Step(w, i).1); Rewrite(ops, dir, r) == r
    ensures Rewrite(ops, dir, RewriteFrom(ops, dir, w, i)) == RewriteFrom(ops, dir, w, i)
  {
    ResolvedPathShape(ops, dir, w, i);
    RelativeStable(ops, dir, w, i);
  }

  /** The path a relative match resolves to is absolute and holds no `)` and no newline. */
  lemma ResolvedPathShape(ops: PathOps, dir: string, w: string, i: nat)
    requires ResolvesToAbsolute(ops, dir)
    requires i < |w| && Step(w, i).0.Image?
    ensures var path := Resolve(ops, dir, Step(w, i).0.ref.target);
      ops.isabs(path) && ')' !in path && '\n' !in path
  {
    StepAtMatch(w, i);
    CaptureShape(w, i);
  }

  /** A match rewritten to an absolute path free of `)` and newline, followed by a stable rest, is stable. */
  lemma RelativeStable(ops: PathOps, dir: string, w: string, i: nat)
    requires i < |w| && Step(w, i).0.Image? && !LeftAsIs(ops, Step(w, i).0.ref.target)
    requires var path := Resolve(ops, dir, Step(w, i).0.ref.target);
      ops.isabs(path) && ')' !in path && '\n' !in path
    requires var r := RewriteFrom(ops, dir, w, i + Step(w, i).1); Rewrite(ops, dir, r) == r
    ensures Rewrite(ops, dir, RewriteFrom(ops, dir, w, i)) == RewriteFrom(ops, dir, w, i)
  {
    var path := Resolve(ops, dir, Step(w, i).0.ref.target);
    var r := RewriteFrom(ops, dir, w, i + Step(w, i).1);
    var src := Source(ImageRef("", path));
    var out := RewriteFrom(ops, dir, w, i);
    RelativeReference(ops, dir, w, i);
    assert out == src + r;
    ResolvedMatch(path, r);
    StepAtMatch(out, 0);
    assert Step(out, 0).0.ref.target == path && Step(out, 0).1 == |src|;
    KeptReference(ops, dir, out, 0);
    assert out[|src|..] == r[0..];
    RewriteSuffix(ops, dir, out, |src|, r, 0);
  }

  /** A copied character followed by an already stable rest is stable. */
  lemma IdempotentCopied(ops: PathOps, dir: string, w: string, i: nat)
    requires i < |w| && MatchAt(w, i).None?
    requires var r := RewriteFrom(ops, dir, w, i + 1); Rewrite(ops, dir, r) == r
    ensures Rewrite(ops, dir, RewriteFrom(ops, dir, w, i)) == RewriteFrom(ops, dir, w, i)
  {
    var r := RewriteFrom(ops, dir, w, i + 1);
    var out := RewriteFrom(ops, dir, w, i);
    CopiedCharacter(ops, dir, w, i);
    assert out == [w[i]] + r;
    NoMatchPreserved(ops, dir, w, i);
    CopiedCharacter(ops, dir, out, 0);
    assert out[1..] == r[0..];
    RewriteSuffix(ops, dir, out, 1, r, 0);
  }

  /** Rewriting from a position twice gives what rewriting once gave. */
  lemma {:induction false} RewriteFromIdempotent(ops: PathOps, dir: string, w: string, i: nat)
    requires i <= |w| && ResolvesToAbsolute(ops, dir)
    ensures Rewrite(ops, dir, RewriteFrom(ops, dir, w, i)) == RewriteFrom(ops, dir, w, i)
    decreases |w| - i
  {
    if i < |w| {
      RewriteFromIdempotent(ops, dir, w, i + Step(w, i).1);
      StepAtMatch(w, i);
      if !Step(w, i).0.Image? {
        IdempotentCopied(ops, dir, w, i);
      } else if LeftAsIs(ops, Step(w, i).0.ref.target) {
        IdempotentKept(ops, dir, w, i);
      } else {
        IdempotentRelative(ops, dir, w, i);
      }
    }
  }

  /**
   * Adjusting the image paths of a text a second time changes nothing:
   * every reference the first pass rewrote is now absolute.
   */
  lemma RewriteIdempotent(ops: PathOps, dir: string, w: string)
    requires ResolvesToAbsolute(ops, dir)
    ensures Rewrite(ops, dir, Rewrite(ops, dir, w)) == Rewrite(ops, dir, w)
  {
    RewriteFromIdempotent(ops, dir, w, 0);
  }
}

/**
 * What the two pages `combinar_markdown_a_html` returns look like: the
 * shared head, the cover's fields in their fixed order, the body's chapters
 * with their page breaks, and the table of contents put in place of every
 * placeholder.
 */
module Layout {
  import opened Host
  import opened Text
  import opened ImageRefs
  import opened Assembly

  /** Every chapter's HTML with the table of contents put in place of its placeholders. */
  function Substituted(htmls: seq<string>, toc: string): (r: seq<string>)
    ensures |r| == |htmls|
    ensures forall i :: 0 <= i < |htmls| ==> r[i] == ReplaceAll(htmls[i], Placeholder, toc)
  {
    seq(|htmls|, i requires 0 <= i < |htmls| => ReplaceAll(htmls[i], Placeholder, toc))
  }

  /** The head is shown with a style block exactly when the stylesheet is used, and the CSS text is inside it verbatim. */
  lemma StyleBlockWhenUsed(fs: Filesystem, cssPath: Option<string>)
    ensures Head(fs, cssPath) == HeadOpen + HeadClose <==> !StylesheetUsed(fs, cssPath)
    ensures StylesheetUsed(fs, cssPath) ==>
      Head(fs, cssPath)[|HeadOpen| + 8..|HeadOpen| + 8 + |fs.read(cssPath.value)|] == fs.read(cssPath.value)
  {
    if StylesheetUsed(fs, cssPath) {
      var css := fs.read(cssPath.value);
      var h := Head(fs, cssPath);
      assert |h| == |HeadOpen| + |StyleBlock(css)| + |HeadClose|;
      assert h == HeadOpen + ("<style>\n" + css + "\n</style>\n") + HeadClose;
      assert h[|HeadOpen| + 8..|HeadOpen| + 8 + |css|] == css by {
        forall k | 0 <= k < |css|
          ensures h[|HeadOpen| + 8 + k] == css[k]
        {
          assert h[|HeadOpen| + 8 + k] == StyleBlock(css)[8 + k];
        }
      }
    }
  }

  /**
   * The cover: the head and the tail around nothing when there is no
   * metadata; otherwise around the `portada` block holding, in this order,
   * the logo, the code, the course, the institution and the date, each one
   * only when the metadata has it.
   */
  lemma CoverLayout(fs: Filesystem, ops: PathOps, head: string, logoDir: Option<string>, metadata: Option<Metadata>)
    requires NeedsLogoDirectory(metadata) ==> logoDir.Some?
    ensures !MetadataTruthy(metadata) ==> Cover(fs, ops, head, logoDir, metadata) == head + Tail
    ensures MetadataTruthy(metadata) ==>
      var md := metadata.value;
      Cover(fs, ops, head, logoDir, metadata) ==
        head + CoverOpen + FieldIfPresent(fs, ops, logoDir, md, Logo) + FieldIfPresent(fs, ops, logoDir, md, Code)
        + FieldIfPresent(fs, ops, logoDir, md, Course) + FieldIfPresent(fs, ops, logoDir, md, Institution)
        + FieldIfPresent(fs, ops, logoDir, md, Date) + CoverClose + Tail
  {
    if MetadataTruthy(metadata) {
      CoverFieldsInOrder(fs, ops, logoDir, metadata.value, head + CoverOpen);
    }
  }

  /** The cover always starts with the head and ends with the tail. */
  lemma CoverFrame(fs: Filesystem, ops: PathOps, head: string, logoDir: Option<string>, metadata: Option<Metadata>)
    requires NeedsLogoDirectory(metadata) ==> logoDir.Some?
    ensures var cover := Cover(fs, ops, head, logoDir, metadata);
      head <= cover && |Tail| <= |cover| && cover[|cover| - |Tail|..] == Tail
  {
    var cover := Cover(fs, ops, head, logoDir, metadata);
    var inner := if MetadataTruthy(metadata) then
        CoverOpen + FieldsHtml(fs, ops, logoDir, metadata.value, Present(metadata.value, CoverFields)) + CoverClose
      else "";
    assert cover == head + inner + Tail;
    assert (head + inner + Tail)[|cover| - |Tail|..] == Tail;
  }

  /** `replace` leaves a literal without a `{` as it is. */
  lemma LiteralKept(lit: string, rep: string)
    requires '{' !in lit
    ensures ReplaceAll(lit, Placeholder, rep) == lit
  {
    NoOccurrenceWithoutFirstChar(Placeholder, lit);
    ReplaceAllWithoutOccurrence(lit, Placeholder, rep);
  }

  /** Ends with a character that is not one of the placeholder's. */
  predicate EndsOutside(s: string)
  {
    s != [] && s[|s| - 1] !in Placeholder
  }

  /** Literals that `replace` leaves alone and that end with a character outside the placeholder. */
  predicate Inert(lit: string, rep: string)
  {
    EndsOutside(lit) && ReplaceAll(lit, Placeholder, rep) == lit
  }

  /** The literals around the table of contents and between the chapters are inert. */
  lemma InertLiterals(rep: string)
    ensures Inert(TocOpen, rep) && Inert(TocClose, rep) && Inert(TocBreak, rep) && Inert(PageBreak, rep)
    ensures Inert("\n", rep)
    ensures TocClose[0] !in Placeholder
  {
    InertTocOpen(rep);
    InertDivClose(rep);
    InertTocBreak(rep);
    InertPageBreak(rep);
    LiteralKept("\n", rep);
  }

  lemma InertTocOpen(rep: string)
    ensures Inert(TocOpen, rep)
  {
    LiteralKept(TocOpen, rep);
  }

  lemma InertDivClose(rep: string)
    ensures Inert(DivClose, rep) && DivClose[0] !in Placeholder
  {
    LiteralKept(DivClose, rep);
  }

  lemma InertTocBreak(rep: string)
    ensures Inert(TocBreak, rep)
  {
    LiteralKept(TocBreak, rep);
  }

  lemma InertPageBreak(rep: string)
    ensures Inert(PageBreak, rep)
  {
    LiteralKept(PageBreak, rep);
  }

  /** `replace` across a seam whose left side ends outside the placeholder. */
  lemma SplitAfter(a: string, b: string, rep: string)
    requires EndsOutside(a)
    ensures ReplaceAll(a + b, Placeholder, rep) == ReplaceAll(a, Placeholder, rep) + ReplaceAll(b, Placeholder, rep)
  {
    ReplaceAllSplit(a, b, Placeholder, rep);
  }

  /** A concatenation ends where its right side ends. */
  lemma EndsOutsideConcat(a: string, b: string)
    requires EndsOutside(b)
    ensures EndsOutside(a + b)
  {
    assert (a + b)[|a + b| - 1] == b[|b| - 1];
  }

  /** The TOC heading after `replace`: the placeholder has become the table of contents. */
  lemma TocHeadingSubstituted(toc: string)
    ensures ReplaceAll(TocHeading(), Placeholder, toc) == TocOpen + toc + TocClose
    ensures EndsOutside(TocHeading())
  {
    InertLiterals(toc);
    HeadingShape(TocOpen, TocClose, toc);
  }

  /** The heading's shape with its literals abstracted. */
  lemma HeadingShape(open: string, close: string, toc: string)
    requires Inert(open, toc) && Inert(close, toc) && close[0] !in Placeholder
    ensures ReplaceAll(open + Placeholder + close, Placeholder, toc) == open + toc + close
    ensures EndsOutside(open + Placeholder + close)
  {
    ReplaceAllSplit(open + Placeholder, close, Placeholder, toc);
    SplitAfter(open, Placeholder, toc);
    ReplaceAllOfPattern(Placeholder, toc);
    EndsOutsideConcat(open + Placeholder, close);
  }

  /** One chapter line after `replace`: the chapter's HTML substituted, its newline kept. */
  lemma LineSubstituted(html: string, toc: string)
    ensures ReplaceAll(html + "\n", Placeholder, toc) == ReplaceAll(html, Placeholder, toc) + "\n"
    ensures EndsOutside(html + "\n")
  {
    InertLiterals(toc);
    ReplaceAllSplit(html, "\n", Placeholder, toc);
    EndsOutsideConcat(html, "\n");
  }

  /** One chapter, a separator and the rest after `replace`, with the separator abstracted. */
  lemma JoinStepShape(line: string, subLine: string, sep: string, rest: string, subRest: string, toc: string)
    requires EndsOutside(line) && Inert(sep, toc)
    requires ReplaceAll(line, Placeholder, toc) == subLine && ReplaceAll(rest, Placeholder, toc) == subRest
    ensures ReplaceAll(line + sep + rest, Placeholder, toc) == subLine + sep + subRest
  {
    EndsOutsideConcat(line, sep);
    SplitAfter(line + sep, rest, toc);
    SplitAfter(line, sep, toc);
  }

  /** `replace` over the chapters is `replace` over each chapter's HTML; the page breaks stay. */
  lemma {:induction false} ChaptersSubstituted(htmls: seq<string>, toc: string)
    ensures ReplaceAll(Chapters(htmls), Placeholder, toc) == Chapters(Substituted(htmls, toc))
    decreases |htmls|
  {
    var subs := Substituted(htmls, toc);
    if |htmls| == 1 {
      LineSubstituted(htmls[0], toc);
    } else if |htmls| > 1 {
      assert Lines(htmls)[1..] == Lines(htmls[1..]);
      assert Lines(subs)[1..] == Lines(subs[1..]);
      assert subs[1..] == Substituted(htmls[1..], toc);
      ChaptersSubstituted(htmls[1..], toc);
      LineSubstituted(htmls[0], toc);
      InertLiterals(toc);
      JoinStepShape(htmls[0] + "\n", subs[0] + "\n", PageBreak, Chapters(htmls[1..]), Chapters(subs[1..]), toc);
    }
  }

  /** The body's shape with its literals abstracted. */
  lemma BodyShape(head: string, heading: string, subHeading: string, brk: string, ch: string, subCh: string, toc: string)
    requires head == [] || EndsOutside(head)
    requires EndsOutside(heading) && ReplaceAll(heading, Placeholder, toc) == subHeading
    requires Inert(brk, toc) && ReplaceAll(ch, Placeholder, toc) == subCh
    ensures ReplaceAll(head + heading + brk + ch, Placeholder, toc) ==
      ReplaceAll(head, Placeholder, toc) + subHeading + brk + subCh
  {
    EndsOutsideConcat(head, heading);
    EndsOutsideConcat(head + heading, brk);
    SplitAfter(head + heading + brk, ch, toc);
    SplitAfter(head + heading, brk, toc);
    if head == [] {
      assert head + heading == heading;
      assert ReplaceAll(head, Placeholder, toc) == [];
    } else {
      SplitAfter(head, heading, toc);
    }
  }

  /**
   * The body: the head and the TOC heading with the table of contents in it,
   * the break after the TOC, the chapters with their page breaks, the tail;
   * `replace` has acted on the head and on every chapter's HTML as well.
   */
  lemma BodyLayout(head: string, toc: string, htmls: seq<string>)
    requires head == [] || head[|head| - 1] == '\n'
    ensures BodyPage(head, toc, htmls) ==
      ReplaceAll(head, Placeholder, toc) + (TocOpen + toc + TocClose) + TocBreak + Chapters(Substituted(htmls, toc)) + Tail
  {
    InertLiterals(toc);
    TocHeadingSubstituted(toc);
    ChaptersSubstituted(htmls, toc);
    BodyShape(head, TocHeading(), TocOpen + toc + TocClose, TocBreak, Chapters(htmls), Chapters(Substituted(htmls, toc)), toc);
  }

  /**
   * No placeholder is left in the body when the table of contents is not
   * empty, holds no placeholder itself, and starts and ends with characters
   * that are not in the placeholder.
   */
  lemma TocFullySubstituted(head: string, toc: string, htmls: seq<string>)
    requires toc != [] && !Occurs(Placeholder, toc)
    requires toc[0] !in Placeholder && toc[|toc| - 1] !in Placeholder
    ensures !Occurs(Placeholder, BodyPage(head, toc, htmls))
  {
    var before := head + TocHeading() + TocBreak + Chapters(htmls);
    ReplaceAllLeavesNone(before, Placeholder, toc);
    TailAddsNoPlaceholder(ReplaceAll(before, Placeholder, toc));
  }

  /** The tail cannot complete a placeholder: it holds no `}`. */
  lemma TailAddsNoPlaceholder(r: string)
    requires !Occurs(Placeholder, r)
    ensures !Occurs(Placeholder, r + Tail)
  {
    if Occurs(Placeholder, r + Tail) {
      assert '}' !in Tail;
      OccursBeforeSuffix(Placeholder, r, Tail);
      assert false;
    }
  }

  /** Each chapter line with its newline: their total length. */
  lemma {:induction false} LinesLength(htmls: seq<string>)
    ensures TotalLength(Lines(htmls)) == TotalLength(htmls) + |htmls|
    decreases |htmls|
  {
    if htmls != [] {
      assert Lines(htmls)[1..] == Lines(htmls[1..]);
      LinesLength(htmls[1..]);
    }
  }

  /**
   * The chapters of `n` files are their HTML, one newline each, and exactly
   * `n - 1` page breaks.
   */
  lemma ChaptersLength(htmls: seq<string>)
    requires htmls != []
    ensures |Chapters(htmls)| == TotalLength(htmls) + |htmls| + (|htmls| - 1) * |PageBreak|
  {
    JoinLength(Lines(htmls), PageBreak);
    LinesLength(htmls);
  }

  /** One more file adds one page break, then its HTML and a newline, at the end. */
  lemma ChaptersSnoc(htmls: seq<string>, html: string)
    requires htmls != []
    ensures Chapters(htmls + [html]) == Chapters(htmls) + PageBreak + (html + "\n")
  {
    assert Lines(htmls + [html]) == Lines(htmls) + [html + "\n"];
    JoinSnoc(Lines(htmls), html + "\n", PageBreak);
  }

  /**
   * The pages `combinar_markdown_a_html` returns: both start from the same
   * head; the cover as `CoverLayout` says; the body with each file's text
   * image-adjusted, converted in list order and substituted, the table of
   * contents being the converter's after all the files.
   */
  lemma AssembledPages(fs: Filesystem, ops: PathOps, conv: Converter, files: seq<string>,
                       cssPath: Option<string>, logoDir: Option<string>, metadata: Option<Metadata>)
    requires !(NeedsLogoDirectory(metadata) && logoDir.None?)
    ensures var r := Assemble(fs, ops, conv, files, cssPath, logoDir, metadata);
      var head := Head(fs, cssPath);
      var texts := Prepared(fs, ops, files);
      var toc := conv.toc(texts);
      r.Ok? && head <= r.value.cover
      && r.value.body == ReplaceAll(head, Placeholder, toc) + (TocOpen + toc + TocClose) + TocBreak
         + Chapters(Substituted(Converted(conv, texts), toc)) + Tail
  {
    var head := Head(fs, cssPath);
    var texts := Prepared(fs, ops, files);
    CoverFrame(fs, ops, head, logoDir, metadata);
    BodyLayout(head, conv.toc(texts), Converted(conv, texts));
  }

  /** When the head holds no placeholder (the stylesheet has none), the body starts with the very head the cover starts with. */
  lemma SharedHead(fs: Filesystem, ops: PathOps, conv: Converter, files: seq<string>,
                   cssPath: Option<string>, logoDir: Option<string>, metadata: Option<Metadata>)
    requires !(NeedsLogoDirectory(metadata) && logoDir.None?)
    requires !Occurs(Placeholder, Head(fs, cssPath))
    ensures var r := Assemble(fs, ops, conv, files, cssPath, logoDir, metadata);
      r.Ok? && Head(fs, cssPath) <= r.value.cover && Head(fs, cssPath) <= r.value.body
  {
    var head := Head(fs, cssPath);
    var toc := conv.toc(Prepared(fs, ops, files));
    var texts := Prepared(fs, ops, files);
    AssembledPages(fs, ops, conv, files, cssPath, logoDir, metadata);
    ReplaceAllWithoutOccurrence(head, Placeholder, toc);
    PrefixOfChain(head, TocOpen + toc + TocClose, TocBreak, Chapters(Substituted(Converted(conv, texts), toc)), Tail);
  }

  lemma PrefixOfChain(a: string, b: string, c: string, d: string, e: string)
    ensures a <= a + b + c + d + e
  {
    assert a + b + c + d + e == a + (b + c + d + e);
  }
}

/**
 * HTML assembly (`combinar_markdown_a_html`): the cover page and the body
 * page, both built by appending to string accumulators. The body collects
 * every chapter's converted HTML with a page break between consecutive
 * chapters, and finally substitutes the converter's table of contents for
 * every `{{TOC}}` placeholder.
 */
module Assembly {
  import opened Host
  import opened Text
  import opened ImageRefs

  /** The YAML metadata, with every value already formatted as `str()` formats it. */
  type Metadata = map<string, string>

  /** The two pages returned as `(portada, cuerpo)`. */
  datatype Pages = Pages(cover: string, body: string)

  /** `os.path.join(None, ...)` raises `TypeError` when a logo is named but no logo directory given. */
  datatype AssemblyError = LogoDirectoryIsNone

  datatype Result<T> = Ok(value: T) | Err(error: AssemblyError)

  const HeadOpen: string := "<!DOCTYPE html>\n<html>\n<head>\n<meta charset='utf-8'>\n"
  const HeadClose: string := "</head>\n<body>\n"
  const Tail: string := "\n</body>\n</html>"
  /** The closing tag of every `div`, with its newline. */
  const DivClose: string := "</div>\n"
  const CoverOpen: string := "<div class='portada'>\n"
  const CoverClose: string := DivClose
  const Placeholder: string := "{{TOC}}"
  const TocTitle: string := "<h1>Tabla de Contenidos</h1>\n"
  const TocOpen: string := TocTitle + "<div class='toc'>"
  const TocClose: string := DivClose
  const TocBreak: string := "<div class=\"salto-pagina\">" + DivClose
  const PageBreak: string := "<div style=\"page-break-after: always;\">" + DivClose

  /** The table-of-contents heading with the placeholder the converter's TOC replaces. */
  function TocHeading(): string
  {
    TocOpen + Placeholder + TocClose
  }

  /** The stylesheet verbatim inside a `<style>` element. */
  function StyleBlock(css: string): string
  {
    "<style>\n" + css + "\n</style>\n"
  }

  /** `ruta_css and os.path.exists(ruta_css)`: a non-empty path to an existing file. */
  predicate StylesheetUsed(fs: Filesystem, cssPath: Option<string>)
  {
    cssPath.Some? && cssPath.value != "" && fs.pathExists(cssPath.value)
  }

  /** The head both pages share. */
  function Head(fs: Filesystem, cssPath: Option<string>): (r: string)
    ensures HeadOpen <= r
    ensures r != [] && r[|r| - 1] == '\n'
  {
    if StylesheetUsed(fs, cssPath) then HeadOpen + StyleBlock(fs.read(cssPath.value)) + HeadClose
    else HeadOpen + HeadClose
  }

  /** `if metadatos:`: metadata given and not empty. */
  predicate MetadataTruthy(metadata: Option<Metadata>)
  {
    metadata.Some? && metadata.value != map[]
  }

  /** The fields a cover can show. */
  datatype Field = Logo | Code | Course | Institution | Date

  /** The metadata key that holds each field. */
  function Key(f: Field): string
  {
    match f
    case Logo => "logo"
    case Code => "codigo"
    case Course => "curso"
    case Institution => "institucion"
    case Date => "fecha"
  }

  /** The fields in the order the cover shows them. */
  const CoverFields: seq<Field> := [Logo, Code, Course, Institution, Date]

  /** `r` lists some of the entries of `s`, in the order `s` has them. */
  predicate IsSubsequence(r: seq<Field>, s: seq<Field>)
    decreases |s|
  {
    r == [] || (s != [] && ((r[0] == s[0] && IsSubsequence(r[1..], s[1..])) || IsSubsequence(r, s[1..])))
  }

  /** The fields of `fields` whose key the metadata holds, in the order of `fields`. */
  function Present(md: Metadata, fields: seq<Field>): (r: seq<Field>)
    ensures forall f :: f in r <==> f in fields && Key(f) in md
    ensures IsSubsequence(r, fields)
  {
    if fields == [] then []
    else if Key(fields[0]) in md then [fields[0]] + Present(md, fields[1..])
    else Present(md, fields[1..])
  }

  /** The logo element, its source a `file:///` address. */
  function LogoHtml(src: string): string
  {
    "<img src='file:///" + src + "' alt='Logotipo' class='logo'>\n"
  }

  /** The blank lines put before the course code. */
  const CodeGap: string := "\n \n"

  function CodeHtml(v: string): string
  {
    "<h3>" + v + ":</h3>\n"
  }

  function CourseHtml(v: string): string
  {
    "<h1>" + v + "</h1>\n"
  }

  function InstitutionHtml(v: string): string
  {
    "<h3>" + v + "</h3>\n"
  }

  function DateHtml(v: string): string
  {
    "<p>" + v + "</p>\n"
  }

  /** The path of the logo file: the logo directory joined with the name the metadata gives. */
  function LogoPath(ops: PathOps, logoDir: string, md: Metadata): string
    requires "logo" in md
  {
    ops.join(logoDir, md["logo"])
  }

  /** The element that shows one field of the cover; the logo only when its file exists. */
  function FieldHtml(fs: Filesystem, ops: PathOps, logoDir: Option<string>, md: Metadata, f: Field): string
    requires Key(f) in md
    requires f == Logo ==> logoDir.Some?
  {
    match f
    case Logo =>
      if fs.pathExists(LogoPath(ops, logoDir.value, md)) then
        LogoHtml(ToForwardSlashes(ops.abspath(LogoPath(ops, logoDir.value, md))))
      else ""
    case Code => CodeGap + CodeHtml(md["codigo"])
    case Course => CourseHtml(md["curso"])
    case Institution => InstitutionHtml(md["institucion"])
    case Date => DateHtml(md["fecha"])
  }

  /** The elements of `fields`, one after the other. */
  function FieldsHtml(fs: Filesystem, ops: PathOps, logoDir: Option<string>, md: Metadata, fields: seq<Field>): string
    requires forall f :: f in fields ==> Key(f) in md
    requires Logo in fields ==> logoDir.Some?
  {
    if fields == [] then ""
    else FieldHtml(fs, ops, logoDir, md, fields[0]) + FieldsHtml(fs, ops, logoDir, md, fields[1..])
  }

  /** A logo directory is needed exactly when the cover is shown and names a logo. */
  predicate NeedsLogoDirectory(metadata: Option<Metadata>)
  {
    MetadataTruthy(metadata) && "logo" in metadata.value
  }

  /** `portada`: the head, the `portada` block when there is metadata, the tail. */
  function Cover(fs: Filesystem, ops: PathOps, head: string, logoDir: Option<string>, metadata: Option<Metadata>): string
    requires NeedsLogoDirectory(metadata) ==> logoDir.Some?
  {
    if MetadataTruthy(metadata) then
      head + CoverOpen + FieldsHtml(fs, ops, logoDir, metadata.value, Present(metadata.value, CoverFields)) + CoverClose + Tail
    else head + Tail
  }

  /** `ajustar_rutas_imagenes` as a function value. */
  function ImageAdjuster(ops: PathOps): (string, string) -> string
  {
    (dir, text) => Rewrite(ops, dir, text)
  }

  /** Every file's text with `adjust` applied to it and the file's own directory. */
  function PreparedBy(fs: Filesystem, ops: PathOps, adjust: (string, string) -> string, files: seq<string>): (r: seq<string>)
    ensures |r| == |files|
  {
    seq(|files|, i requires 0 <= i < |files| => adjust(ops.dirname(files[i]), fs.read(files[i])))
  }

  /** Every file's text with its image paths adjusted to the file's own directory. */
  function Prepared(fs: Filesystem, ops: PathOps, files: seq<string>): (r: seq<string>)
    ensures |r| == |files|
    ensures forall i :: 0 <= i < |files| ==> r[i] == Rewrite(ops, ops.dirname(files[i]), fs.read(files[i]))
  {
    PreparedBy(fs, ops, ImageAdjuster(ops), files)
  }

  /** What the one converter object returns for each text, having seen the texts before it. */
  function Converted(conv: Converter, texts: seq<string>): (r: seq<string>)
    ensures |r| == |texts|
  {
    seq(|texts|, i requires 0 <= i < |texts| => conv.convert(texts[..i], texts[i]))
  }

  /** Each chapter's HTML followed by a newline. */
  function Lines(htmls: seq<string>): (r: seq<string>)
    ensures |r| == |htmls|
    ensures forall i :: 0 <= i < |htmls| ==> r[i] == htmls[i] + "\n"
  {
    seq(|htmls|, i requires 0 <= i < |htmls| => htmls[i] + "\n")
  }

  /** The chapters with a page break between each consecutive pair. */
  function Chapters(htmls: seq<string>): string
  {
    Join(Lines(htmls), PageBreak)
  }

  /** `cuerpo`: the head, the TOC heading, a break, the chapters; the TOC substituted; the tail. */
  function BodyPage(head: string, toc: string, htmls: seq<string>): string
  {
    ReplaceAll(head + TocHeading() + TocBreak + Chapters(htmls), Placeholder, toc) + Tail
  }

  /** `combinar_markdown_a_html(archivos, ruta_css, ruta_logo, metadatos)` as a value. */
  function Assemble(fs: Filesystem, ops: PathOps, conv: Converter, files: seq<string>,
                    cssPath: Option<string>, logoDir: Option<string>, metadata: Option<Metadata>): Result<Pages>
  {
    if NeedsLogoDirectory(metadata) && logoDir.None? then Err(LogoDirectoryIsNone)
    else
      var head := Head(fs, cssPath);
      var texts := Prepared(fs, ops, files);
      Ok(Pages(Cover(fs, ops, head, logoDir, metadata), BodyPage(head, conv.toc(texts), Converted(conv, texts))))
  }

  /** What the body holds after the first `k` of `n` chapters were appended. */
  function ChaptersSoFar(htmls: seq<string>, k: nat): string
    requires k <= |htmls|
  {
    if k == 0 then "" else Join(Lines(htmls)[..k], PageBreak) + (if k < |htmls| then PageBreak else "")
  }

  /** Appending chapter `k`, and a page break unless it is the last, extends the chapters so far. */
  lemma ChaptersSoFarStep(htmls: seq<string>, k: nat)
    requires k < |htmls|
    ensures k < |htmls| - 1 ==> ChaptersSoFar(htmls, k + 1) == ChaptersSoFar(htmls, k) + (htmls[k] + "\n") + PageBreak
    ensures k == |htmls| - 1 ==> ChaptersSoFar(htmls, k + 1) == ChaptersSoFar(htmls, k) + (htmls[k] + "\n")
  {
    var ls := Lines(htmls);
    if k > 0 {
      assert ls[..k + 1] == ls[..k] + [ls[k]];
      JoinSnoc(ls[..k], ls[k], PageBreak);
    } else {
      assert ls[..1] == [ls[0]];
    }
  }

  /** Field `f` when the metadata holds its key, and nothing otherwise. */
  function FieldIfPresent(fs: Filesystem, ops: PathOps, logoDir: Option<string>, md: Metadata, f: Field): string
    requires "logo" in md ==> logoDir.Some?
  {
    if Key(f) in md then FieldHtml(fs, ops, logoDir, md, f) else ""
  }

  /**
   * A field shows up exactly when the metadata holds its key, the logo only
   * when its file also exists, and the logo's address has no backslash.
   */
  lemma FieldShown(fs: Filesystem, ops: PathOps, logoDir: Option<string>, md: Metadata, f: Field)
    requires "logo" in md ==> logoDir.Some?
    ensures var r := FieldIfPresent(fs, ops, logoDir, md, f);
      && (f != Logo ==> (r != "" <==> Key(f) in md))
      && (f == Logo ==> (r != "" <==> "logo" in md && fs.pathExists(LogoPath(ops, logoDir.value, md))))
      && (f == Logo && r != "" ==> '\\' !in r)
  {
    if Key(f) in md {
      match f
      case Logo =>
        if fs.pathExists(LogoPath(ops, logoDir.value, md)) {
          LogoHasNoBackslash(ToForwardSlashes(ops.abspath(LogoPath(ops, logoDir.value, md))));
        }
      case Code => assert |CodeGap + CodeHtml(md["codigo"])| > 0;
      case Course => assert |CourseHtml(md["curso"])| > 0;
      case Institution => assert |InstitutionHtml(md["institucion"])| > 0;
      case Date => assert |DateHtml(md["fecha"])| > 0;
    }
  }

  /** The logo element of an address without backslashes has none, and is not empty. */
  lemma LogoHasNoBackslash(src: string)
    requires '\\' !in src
    ensures LogoHtml(src) != [] && '\\' !in LogoHtml(src)
  {
    var pre, post := "<img src='file:///", "' alt='Logotipo' class='logo'>\n";
    assert LogoHtml(src) == pre + src + post;
    assert '\\' !in pre && '\\' !in post;
  }

  /** After `base`, showing the present fields is trying the first field and then showing the rest. */
  lemma {:induction false} FieldsOfPresent(fs: Filesystem, ops: PathOps, logoDir: Option<string>, md: Metadata, base: string, fields: seq<Field>)
    requires "logo" in md ==> logoDir.Some?
    requires fields != []
    ensures base + FieldsHtml(fs, ops, logoDir, md, Present(md, fields)) ==
      base + FieldIfPresent(fs, ops, logoDir, md, fields[0]) + FieldsHtml(fs, ops, logoDir, md, Present(md, fields[1..]))
  {
    if Key(fields[0]) in md {
      var r := Present(md, fields);
      assert r == [fields[0]] + Present(md, fields[1..]);
      assert r[1..] == Present(md, fields[1..]);
    }
  }

  /** The cover block's fields written out one field at a time, in the order of `CoverFields`. */
  lemma CoverFieldsInOrder(fs: Filesystem, ops: PathOps, logoDir: Option<string>, md: Metadata, base: string)
    requires "logo" in md ==> logoDir.Some?
    ensures base + FieldsHtml(fs, ops, logoDir, md, Present(md, CoverFields)) ==
      base + FieldIfPresent(fs, ops, logoDir, md, Logo) + FieldIfPresent(fs, ops, logoDir, md, Code)
      + FieldIfPresent(fs, ops, logoDir, md, Course) + FieldIfPresent(fs, ops, logoDir, md, Institution)
      + FieldIfPresent(fs, ops, logoDir, md, Date)
  {
    var f0 := CoverFields;
    var f1 := [Code, Course, Institution, Date];
    var f2 := [Course, Institution, Date];
    var f3 := [Institution, Date];
    var f4 := [Date];
    assert f0[1..] == f1 && f1[1..] == f2 && f2[1..] == f3 && f3[1..] == f4 && f4[1..] == [];
    var b1 := base + FieldIfPresent(fs, ops, logoDir, md, Logo);
    var b2 := b1 + FieldIfPresent(fs, ops, logoDir, md, Code);
    var b3 := b2 + FieldIfPresent(fs, ops, logoDir, md, Course);
    var b4 := b3 + FieldIfPresent(fs, ops, logoDir, md, Institution);
    var b5 := b4 + FieldIfPresent(fs, ops, logoDir, md, Date);
    FieldsOfPresent(fs, ops, logoDir, md, base, f0);
    FieldsOfPresent(fs, ops, logoDir, md, b1, f1);
    FieldsOfPresent(fs, ops, logoDir, md, b2, f2);
    FieldsOfPresent(fs, ops, logoDir, md, b3, f3);
    FieldsOfPresent(fs, ops, logoDir, md, b4, f4);
    assert Present(md, []) == [];
    assert b5 + FieldsHtml(fs, ops, logoDir, md, []) == b5;
  }

  /**
   * Appends field `f` when the metadata holds its key, as each
   * `if 'key' in metadatos:` of the cover does.
   */
  method AppendField(fs: Filesystem, ops: PathOps, logoDir: Option<string>, md: Metadata, cover: string, f: Field)
    returns (cover': string)
    requires "logo" in md ==> logoDir.Some?
    ensures cover' == cover + FieldIfPresent(fs, ops, logoDir, md, f)
  {
    cover' := cover;
    if Key(f) in md {
      match f
      case Logo =>
        var logoPath := LogoPath(ops, logoDir.value, md);
        if fs.pathExists(logoPath) {
          var src := ToForwardSlashes(ops.abspath(logoPath));
          cover' := cover' + LogoHtml(src);
        }
      case Code =>
        cover' := cover' + CodeGap;
        cover' := cover' + CodeHtml(md["codigo"]);
      case Course =>
        cover' := cover' + CourseHtml(md["curso"]);
      case Institution =>
        cover' := cover' + InstitutionHtml(md["institucion"]);
      case Date =>
        cover' := cover' + DateHtml(md["fecha"]);
    }
  }

  /** The head: the opening lines, the stylesheet when one is used, the closing lines. */
  method BuildHead(fs: Filesystem, cssPath: Option<string>) returns (head: string)
    ensures head == Head(fs, cssPath)
  {
    head := HeadOpen;
    if cssPath.Some? && cssPath.value != "" && fs.pathExists(cssPath.value) {
      var css := fs.read(cssPath.value);
      head := head + StyleBlock(css);
    }
    head := head + HeadClose;
  }

  /**
   * The cover page: the head, then, when there is metadata, the `portada`
   * block with its fields in the order of `CoverFields`, then the tail.
   */
  method BuildCover(fs: Filesystem, ops: PathOps, head: string, logoDir: Option<string>, metadata: Option<Metadata>)
    returns (cover: string)
    requires NeedsLogoDirectory(metadata) ==> logoDir.Some?
    ensures cover == Cover(fs, ops, head, logoDir, metadata)
  {
    cover := head;
    if metadata.Some? && metadata.value != map[] {
      var md := metadata.value;
      cover := cover + CoverOpen;
      ghost var base := cover;
      cover := AppendField(fs, ops, logoDir, md, cover, Logo);
      cover := AppendField(fs, ops, logoDir, md, cover, Code);
      cover := AppendField(fs, ops, logoDir, md, cover, Course);
      cover := AppendField(fs, ops, logoDir, md, cover, Institution);
      cover := AppendField(fs, ops, logoDir, md, cover, Date);
      CoverFieldsInOrder(fs, ops, logoDir, md, base);
      cover := cover + CoverClose;
    }
    cover := cover + Tail;
  }

  /** One round of the loop: the chapter's HTML, a newline, and a page break unless it is the last file. */
  method AppendChapter(ghost htmls: seq<string>, index: nat, count: nat, start: string, body: string, html: string)
    returns (body': string)
    requires count == |htmls| && index < count && html == htmls[index]
    requires body == start + ChaptersSoFar(htmls, index)
    ensures body' == start + ChaptersSoFar(htmls, index + 1)
  {
    ChaptersSoFarStep(htmls, index);
    ghost var before := ChaptersSoFar(htmls, index);
    body' := body + (html + "\n");
    Associate(start, before, html + "\n");
    if index < count - 1 {
      Associate(start, before + (html + "\n"), PageBreak);
      body' := body' + PageBreak;
    }
  }

  /** Concatenation is associative. */
  lemma Associate(a: string, b: string, c: string)
    ensures a + b + c == a + (b + c)
  {
  }

  /**
   * The loop over the files: each one read, adjusted by `adjust` (the
   * image-path rewrite) and converted in list order, with a page break
   * after each file but the last. Returns the texts handed to the
   * converter as well.
   */
  method AppendChapters(fs: Filesystem, ops: PathOps, conv: Converter, adjust: (string, string) -> string,
                        files: seq<string>, start: string)
    returns (body: string, seen: seq<string>)
    ensures seen == PreparedBy(fs, ops, adjust, files)
    ensures body == start + Chapters(Converted(conv, seen))
  {
    body := start;
    ghost var texts := PreparedBy(fs, ops, adjust, files);
    ghost var htmls := Converted(conv, texts);
    seen := [];
    for index := 0 to |files|
      invariant seen == texts[..index]
      invariant body == start + ChaptersSoFar(htmls, index)
    {
      var dir := ops.dirname(files[index]);
      var text := fs.read(files[index]);
      text := adjust(dir, text);
      var html := conv.convert(seen, text);
      assert html == htmls[index];
      seen := seen + [text];
      assert texts[..index + 1] == texts[..index] + [texts[index]];
      body := AppendChapter(htmls, index, |files|, start, body, html);
    }
    assert seen == texts;
    assert Lines(htmls)[..|files|] == Lines(htmls);
  }

  /** The body page: the TOC heading and a break after the head, the chapters, the TOC substituted, the tail. */
  method BuildBody(fs: Filesystem, ops: PathOps, conv: Converter, files: seq<string>, head: string)
    returns (body: string)
    ensures var texts := Prepared(fs, ops, files);
      body == BodyPage(head, conv.toc(texts), Converted(conv, texts))
  {
    body := head;
    body := body + TocHeading();
    body := body + TocBreak;
    var seen;
    body, seen := AppendChapters(fs, ops, conv, ImageAdjuster(ops), files, body);
    var toc := conv.toc(seen);
    body := ReplaceAll(body, Placeholder, toc);
    body := body + Tail;
  }

  /** `combinar_markdown_a_html(archivos, ruta_css, ruta_logo, metadatos)`. */
  method CombineMarkdownToHtml(fs: Filesystem, ops: PathOps, conv: Converter, files: seq<string>,
                               cssPath: Option<string>, logoDir: Option<string>, metadata: Option<Metadata>)
    returns (r: Result<Pages>)
    ensures r == Assemble(fs, ops, conv, files, cssPath, logoDir, metadata)
    ensures r.Err? <==> NeedsLogoDirectory(metadata) && logoDir.None?
  {
    var head := BuildHead(fs, cssPath);
    if NeedsLogoDirectory(metadata) && logoDir.None? {
      return Err(LogoDirectoryIsNone);
    }
    var cover := BuildCover(fs, ops, head, logoDir, metadata);
    var body := BuildBody(fs, ops, conv, files, head);
    return Ok(Pages(cover, body));
  }
}

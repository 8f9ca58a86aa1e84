# Notes to PDF: a verified model of the assembly core

`pasar_notas_a_pdf.py` turns a directory of Markdown notes into one PDF.
The model covers the three steps that decide what the document contains:

- **Source discovery** (`obtener_archivos_markdown`): the files matching
  `directorio/*.md`, sorted in place. The sorted list is the chapter order.
- **Image-reference rewriting** (`ajustar_rutas_imagenes` with its callback
  `reemplazar`): one `re.sub` over the pattern `!\[.*?\]\((.*?)\)`.
  - A target that starts with `http` (a web address, but also a relative
    path such as `http_diagram.png`) or is absolute is kept as it is.
  - Any other target is resolved against the note's own directory, with
    backslashes turned into slashes, and written back as `![](path)`.
- **HTML assembly** (`combinar_markdown_a_html`): two string accumulators.
  - The cover page: the shared head, an optional `portada` block and the tail.
  - The body page: the head, the table-of-contents heading with its
    `{{TOC}}` placeholder, a page break, every chapter's converted HTML with
    a page break between consecutive chapters, and the tail. Finally the
    converter's table of contents replaces every placeholder.

Files:

- `host.dfy`: the collaborators, passed in as records of functions.
  - `PathOps`: `os.path.join`, `abspath`, `isabs` and `dirname`.
  - `Filesystem`: `exists`, `read` and `glob`.
  - `Converter`: the one stateful `markdown.Markdown` object.
  - Every property below holds for every implementation of them, with one
    exception: the idempotence lemmas assume a path library that resolves
    any target without `)` and newline to an absolute path without them
    (`ResolvesToAbsolute`). `ResolvesToAbsoluteMet` shows that POSIX
    `join` and `isabs`, with any `abspath` that keeps absolute paths
    absolute and adds no characters of its own (normalising `.` and `..`
    does neither), meet it for an absolute directory without those
    characters.
- `text.dfy`: the `str` operations used.
  - `replace('\\', '/')`.
  - `replace(old, new)`, which scans left to right without overlaps.
  - Chunks joined with a separator between consecutive ones. The script
    does not call `str.join`; this is the shape the chapter loop (lines
    93-96) builds.
- `discovery.dfy`: Python's code-point order on strings, and an in-place
  insertion sort on an array.
- `image_refs.dfy`: the regular expression as the scanner Python runs.
  - `![`, then a lazy alt text grown one character at a time until `](` and
    a closing `)` can follow; `.` matches anything but a newline.
  - `re.sub` copies the text between matches.
  - `reemplazar` decides what each match becomes.
- `assembly.dfy`: the cover and the body.
  - Each is built by methods that append to the accumulator as the function
    does, and each is specified by a function of the inputs.
- `layout.dfy`: what the two pages look like, stated about those functions.

## Model

| member | source | states |
|---|---|---|
| Text.ReplaceAll | pasar_notas_a_pdf.py:100 | definition of `str.replace`, scanning left to right without overlaps; its properties are the four `ReplaceAll…` lemmas below |
| Text.ToForwardSlashes | pasar_notas_a_pdf.py:28 | every backslash becomes `/`, every other character is kept in place, the length is unchanged and no backslash is left |
| Text.ReplaceAllWithoutOccurrence | pasar_notas_a_pdf.py:100 | `replace` returns a text holding no occurrence of the pattern unchanged |
| Text.ReplaceAllSplit | pasar_notas_a_pdf.py:100 | `replace` distributes over a concatenation when no occurrence can straddle the seam |
| Text.ReplaceAllOfPattern | pasar_notas_a_pdf.py:100 | the pattern on its own becomes the replacement |
| Text.ReplaceAllLeavesNone | pasar_notas_a_pdf.py:100 | no occurrence is left after `replace` when the replacement is non-empty, holds no occurrence itself, and starts and ends with characters outside the pattern |
| Text.JoinSnoc | pasar_notas_a_pdf.py:93-96 | one more chunk adds exactly one separator and the chunk at the end |
| Text.JoinLength | pasar_notas_a_pdf.py:93-96 | the joined text is all the chunks plus exactly one separator fewer than there are chunks |
| Discovery.LexLe | pasar_notas_a_pdf.py:18 | definition of Python's `<=` on `str` as `list.sort()` uses it: code-point lexicographic order; `LexLeTotal`, `LexLeAntisymmetric` and `LexLeTransitive` make it a total order |
| Discovery.LexLeTotal | pasar_notas_a_pdf.py:18 | any two strings are ordered one way or the other |
| Discovery.LexLeAntisymmetric | pasar_notas_a_pdf.py:18 | strings ordered both ways are equal |
| Discovery.LexLeTransitive | pasar_notas_a_pdf.py:18 | the string order is transitive |
| Discovery.InsertDown | pasar_notas_a_pdf.py:18 | one insertion round leaves the first `i + 1` entries ordered, every entry past `i` where it was, and the array a permutation of what it was |
| Discovery.SortInPlace | pasar_notas_a_pdf.py:18 | `list.sort()` leaves the array in ascending order and a permutation of what it was |
| Discovery.ListMarkdownFiles | pasar_notas_a_pdf.py:14-19 | the list returned holds each glob match as often as the listing gives it, in ascending order |
| Discovery.ListMarkdownFilesDefault | pasar_notas_a_pdf.py:14-19 | with the default pattern `*.md`, the list returned holds each match of `join(directorio, '*.md')` as often as the listing gives it, in ascending order |
| Discovery.SortedOrderIsUnique | pasar_notas_a_pdf.py:17-19 | two sorted lists with the same entries are equal, so the chapter order does not depend on the order `glob` lists the files in |
| ImageRefs.MatchAt | pasar_notas_a_pdf.py:23 | the pattern tried at one position: a match found lies inside the text; `MatchText` and `CaptureShape` state what it matches, `MatchFound` and `MatchExactly` that every reference of the pattern's shape is matched |
| ImageRefs.CloseFrom | pasar_notas_a_pdf.py:23 | a lazy target group found from `j` ends just before a `)` |
| ImageRefs.CloseFromBody | pasar_notas_a_pdf.py:23 | the target group holds neither `)` nor a newline |
| ImageRefs.BracketFrom | pasar_notas_a_pdf.py:23 | definition of the lazy alt text `.*?` followed by `\]\(` and the target group; `BracketFromFacts`, `BracketFromLine`, `BracketFound` and `BracketShortest` state that it finds the shortest alt text that works |
| ImageRefs.BracketFromFacts | pasar_notas_a_pdf.py:23 | the lazy alt text is followed by `](` and a target group that closes |
| ImageRefs.BracketFromLine | pasar_notas_a_pdf.py:23 | the alt text holds no newline |
| ImageRefs.BracketFound | pasar_notas_a_pdf.py:23 | any alt text on one line followed by `](` and a target that closes is found, or a shorter one is |
| ImageRefs.BracketShortest | pasar_notas_a_pdf.py:23 | no alt text shorter than the one found is followed by `](` and a target that closes, as the lazy `.*?` demands |
| ImageRefs.MatchFound | pasar_notas_a_pdf.py:23 | a reference `![alt](target)` written out, with the alt text on one line and the target free of `)` and newline, is matched where it starts, with an alt text no longer than its own |
| ImageRefs.MatchExactly | pasar_notas_a_pdf.py:23 | when that alt text also holds no `]`, the match is exactly that reference, with both its groups |
| ImageRefs.MatchText | pasar_notas_a_pdf.py:23 | the matched text (`match.group(0)`) is `![alt](target)` written out from its two groups |
| ImageRefs.CaptureShape | pasar_notas_a_pdf.py:23-25 | the captured target (`match.group(1)`) never holds `)` or a newline, and the alt text never holds a newline |
| ImageRefs.Resolve | pasar_notas_a_pdf.py:27-28 | the resolved target holds no backslash and is as long as `abspath(join(dir, target))` |
| ImageRefs.Step | pasar_notas_a_pdf.py:32 | one step of `re.sub`'s scan always moves forward and stays inside the text; `CopiedCharacter` and `CopyLine` state what it copies, `KeptReference` and `RelativeReference` what a match becomes |
| ImageRefs.CopiedCharacter | pasar_notas_a_pdf.py:32 | where no match starts, the character is copied and the scan moves on by one |
| ImageRefs.CopyLine | pasar_notas_a_pdf.py:32 | where no alt text can start a match, the rest of the line comes out unchanged |
| ImageRefs.Substitute | pasar_notas_a_pdf.py:24-31 | definition of `reemplazar`; `KeptReference` and `RelativeReference` state its two branches |
| ImageRefs.EmittedBy | pasar_notas_a_pdf.py:32 | definition of `re.sub`'s output: the scan's pieces, each made into text by the callback; `EmittedSuffix` states that it depends only on the rest of the text |
| ImageRefs.Rewrite | pasar_notas_a_pdf.py:21-33 | definition of `ajustar_rutas_imagenes`; `NothingToRewrite`, `RelativeReference`, `RewriteSuffix` and `RewriteIdempotent` state what it does |
| ImageRefs.LeftAsIs | pasar_notas_a_pdf.py:26 | definition of the test `startswith('http')` or `os.path.isabs`; `KeptReference` and `RelativeReference` state its two outcomes |
| ImageRefs.KeptReference | pasar_notas_a_pdf.py:26-31 | a match whose target starts with `http` or is absolute comes out as its own matched text |
| ImageRefs.RelativeReference | pasar_notas_a_pdf.py:26-29 | any other match becomes `![](P)`, where `P` is the resolved target (the alt text is dropped), and `P` holds no backslash |
| ImageRefs.ReferenceRewritten | pasar_notas_a_pdf.py:24-32 | such a reference with a relative target becomes `![](P)`, `P` its resolved target, and the scan goes on right after it |
| ImageRefs.ReferenceKept | pasar_notas_a_pdf.py:24-32 | such a reference whose target starts with `http` or is absolute comes out as written |
| ImageRefs.KeptUnchanged | pasar_notas_a_pdf.py:24-32 | from a position past which every match is kept, the text comes back unchanged |
| ImageRefs.NothingToRewrite | pasar_notas_a_pdf.py:21-33 | a text in which every match is kept comes back unchanged |
| ImageRefs.RewriteSuffix | pasar_notas_a_pdf.py:32 | the output from a position depends only on the text from that position on |
| ImageRefs.EmittedSuffix | pasar_notas_a_pdf.py:32 | the same holds whatever the callback makes of each match |
| ImageRefs.ResolvedMatch | pasar_notas_a_pdf.py:29 | a rewritten reference `![](P)`, with `P` free of `)` and newline, is matched again as itself with target `P`, whatever follows it |
| ImageRefs.NoMatchPreserved | pasar_notas_a_pdf.py:23-32 | where no match starts in the input, none starts at the copied character in the output either |
| ImageRefs.ResolvesToAbsoluteMet | pasar_notas_a_pdf.py:27-28 | POSIX `join` and `isabs` with an `abspath` that keeps absolute paths absolute and adds no characters, and an absolute directory free of `)` and newline, resolve every target a match can capture to an absolute path free of both |
| ImageRefs.ResolvedPathShape | pasar_notas_a_pdf.py:26-29 | under that assumption the path a rewritten match writes back is absolute and holds no `)` or newline |
| ImageRefs.IdempotentKept | pasar_notas_a_pdf.py:30-32 | a kept match followed by a stable rest gives stable output |
| ImageRefs.IdempotentRelative | pasar_notas_a_pdf.py:26-32 | a rewritten match followed by a stable rest gives stable output |
| ImageRefs.RelativeStable | pasar_notas_a_pdf.py:26-32 | the same, given that the written-back path is absolute and free of `)` and newline |
| ImageRefs.IdempotentCopied | pasar_notas_a_pdf.py:32 | a copied character followed by a stable rest gives stable output |
| ImageRefs.RewriteFromIdempotent | pasar_notas_a_pdf.py:24-32 | rewriting the output from any position a second time changes nothing |
| ImageRefs.RewriteIdempotent | pasar_notas_a_pdf.py:21-33 | `ajustar_rutas_imagenes` applied twice gives what it gives once, when the path library resolves every capturable target to an absolute path free of `)` and newline |
| Assembly.FieldHtml | pasar_notas_a_pdf.py:52-66 | definition of each field's HTML element; `FieldShown` states when it shows and what the logo's address is |
| Assembly.Cover | pasar_notas_a_pdf.py:48-68 | definition of the cover page; `BuildCover` computes it, `Layout.CoverLayout` and `Layout.CoverFrame` state its layout |
| Assembly.BodyPage | pasar_notas_a_pdf.py:70-102 | definition of the body page; `BuildBody` computes it, `Layout.BodyLayout` and `Layout.TocFullySubstituted` state its layout |
| Assembly.Assemble | pasar_notas_a_pdf.py:35-104 | definition of both pages or the error; `CombineMarkdownToHtml` computes it, `Layout.AssembledPages` states its layout |
| Assembly.Head | pasar_notas_a_pdf.py:38-43 | the head starts with the fixed opening lines and ends with a newline |
| Assembly.Present | pasar_notas_a_pdf.py:52-66 | the fields shown are exactly the cover fields whose key the metadata holds, in cover order |
| Assembly.FieldShown | pasar_notas_a_pdf.py:52-66 | a field shows up exactly when its key is present; the logo also needs its file to exist, and its address holds no backslash |
| Assembly.CoverFieldsInOrder | pasar_notas_a_pdf.py:52-66 | the cover block is the logo, the code, the course, the institution and the date, each written when present, in that order |
| Assembly.AppendField | pasar_notas_a_pdf.py:52-66 | each `if 'key' in metadatos:` appends exactly that field's element or nothing |
| Assembly.BuildHead | pasar_notas_a_pdf.py:38-43 | the accumulated head is `Head` |
| Assembly.BuildCover | pasar_notas_a_pdf.py:48-68 | the accumulated cover is `Cover` |
| Assembly.ChaptersSoFarStep | pasar_notas_a_pdf.py:93-96 | appending a chapter, and a page break unless it is the last, extends the chapters so far by one |
| Assembly.AppendChapter | pasar_notas_a_pdf.py:93-96 | one loop round extends the body from `k` chapters to `k + 1` |
| Assembly.AppendChapters | pasar_notas_a_pdf.py:87-96 | the loop converts every file's adjusted text in list order and leaves the chapters joined by page breaks |
| Assembly.Prepared | pasar_notas_a_pdf.py:88-91 | definition of the texts handed to the converter: each file's contents, image-adjusted against the file's directory; `AppendChapters` proves the loop hands over exactly these, and `BuildBody` carries that to the body |
| Assembly.BuildBody | pasar_notas_a_pdf.py:70-102 | the accumulated body is `BodyPage` with the converter's TOC after all files |
| Assembly.CombineMarkdownToHtml | pasar_notas_a_pdf.py:35-104 | the result is `Assemble`, and an error arises exactly when a non-empty metadata names a logo but no logo directory is given |
| Layout.StyleBlockWhenUsed | pasar_notas_a_pdf.py:38-43 | the head has a style block exactly when a CSS path is given and exists, and the CSS text sits in it verbatim |
| Layout.CoverLayout | pasar_notas_a_pdf.py:48-68 | without metadata the cover is head and tail; with metadata the `portada` block holds the five fields in fixed order, each only if present |
| Layout.CoverFrame | pasar_notas_a_pdf.py:48-68 | the cover starts with the head and ends with the tail |
| Layout.TocHeadingSubstituted | pasar_notas_a_pdf.py:73-100 | after `replace`, the TOC heading holds the table of contents where its placeholder was |
| Layout.ChaptersSubstituted | pasar_notas_a_pdf.py:100 | `replace` over the chapters is `replace` over each chapter's HTML, with the page breaks kept |
| Layout.BodyLayout | pasar_notas_a_pdf.py:70-102 | the body is the substituted head, the TOC heading holding the TOC, the break, the substituted chapters and the tail |
| Layout.TocFullySubstituted | pasar_notas_a_pdf.py:99-100 | no placeholder is left in the body when the TOC is non-empty, holds no placeholder, and starts and ends with characters outside the placeholder |
| Layout.ChaptersLength | pasar_notas_a_pdf.py:93-96 | `n` chapters take their HTML, `n` newlines and exactly `n - 1` page breaks |
| Layout.ChaptersSnoc | pasar_notas_a_pdf.py:93-96 | one more file adds a page break, then its HTML and a newline, at the end |
| Layout.AssembledPages | pasar_notas_a_pdf.py:35-104 | the cover starts with the head; the body is laid out as `BodyLayout` says, over the converted, image-adjusted files |
| Layout.SharedHead | pasar_notas_a_pdf.py:49-71 | both pages start with the same head when the stylesheet holds no placeholder |

## Left out

- `cargar_metadatos` (lines 8-12) is not modelled. It is YAML loading, which is file I/O plus a foreign parser. The metadata is an optional map from keys to text.
- Metadata values are taken as already formatted by `str()`. A non-text value, or a metadata document that is not a mapping, is not modelled.
- `convertir_html_a_pdf` (lines 106-152) is not modelled. It writes files and runs `pdfkit`/`wkhtmltopdf`.
- `main` (lines 154-181) is not modelled (fixed paths and printing).
- `glob.glob`, `os.path.exists` and `open(...).read()` are parameters (`Filesystem`). Reading the files never fails in the model.
- The `os.path` functions are parameters too (`PathOps`).
- Text decoding (UTF-8) is outside the model: texts are sequences of code points.
- `markdown.Markdown` is a parameter (`Converter`).
  - A chapter's HTML may depend on every text converted before it, and the TOC on all the texts.
  - This covers any behaviour of the stateful object, including a TOC that only reflects the last document converted.
- ImageRefs.RewriteIdempotent: its assumption is stronger than "`abspath` returns an absolute path". It asks that every target without `)` and newline (the only targets a match can capture) resolves to an absolute path without `)` and newline too. Without that, the second pass would capture only a prefix of such a path and rewrite it again. A directory holding `)` breaks it for `os.path`, whose resolved paths contain the directory; `ResolvesToAbsoluteMet` shows that POSIX `join` and `isabs` with a normalising `abspath` meet it otherwise.
- Assembly.CombineMarkdownToHtml: a metadata that names a logo while the logo directory is `None` makes `os.path.join` raise `TypeError`. The model returns `Err(LogoDirectoryIsNone)` at that point.
- Layout.SharedHead: its assumption that the head holds no placeholder follows the code. The body's `replace` also acts on the head, so a stylesheet containing `{{TOC}}` would make the body's head differ from the cover's.
- Layout.TocFullySubstituted: a TOC that starts or ends with a character of the placeholder can form a new placeholder with the text beside it. For example a TOC `{` put in front of a `{TOC}}` that `replace` left standing gives `{{TOC}}`. The lemma asks for a TOC whose first and last characters are not in the placeholder and that holds no placeholder itself.
- The alt text is dropped from rewritten references and only the logo gets a `file:///` address, as the code does (lines 29 and 57).

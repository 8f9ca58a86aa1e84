/**
 * The collaborators the assembler calls but does not implement: the
 * operating system's path functions, the file system, and the Markdown
 * converter. Each is a record of functions supplied by the caller, so every
 * property proved about the assembler holds for any implementation of them.
 */
module Host {

  datatype Option<T> = None | Some(value: T)

  /** `os.path.join`, `os.path.abspath`, `os.path.isabs` and `os.path.dirname`. */
  datatype PathOps = PathOps(
    join: (string, string) -> string,
    abspath: string -> string,
    isabs: string -> bool,
    dirname: string -> string)

  /**
   * `os.path.exists`, the whole contents of a text file as `open(p).read()`
   * returns them, and `glob.glob` (the matches in whatever order the
   * operating system lists them).
   */
  datatype Filesystem = Filesystem(
    pathExists: string -> bool,
    read: string -> string,
    glob: string -> seq<string>)

  /**
   * One `markdown.Markdown` object with the "extra", "toc" and "tables"
   * extensions (table of contents over heading levels 1 and 2). The object
   * keeps state between calls, so `convert(before, text)` is the HTML
   * produced for `text` after the texts `before` were converted by the same
   * object, and `toc(all)` is its `toc` attribute once `all` were converted.
   */
  datatype Converter = Converter(
    convert: (seq<string>, string) -> string,
    toc: seq<string> -> string)
}

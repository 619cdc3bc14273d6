/**
  * What the blog's code takes from its surroundings and the model takes as given:
  * the working directory, today's date, and the libraries whose behaviour is not
  * part of the model (gray-matter, `Date`, `decodeURIComponent`, `JSON.stringify`).
  */
module Platform {
  import opened Wrappers
  import opened JsValues
  import opened FileTree

  /** A Markdown file split by gray-matter into its front matter and its body. */
  datatype Matter = Matter(data: Data, content: string)

  datatype Env = Env(
    /** `process.cwd()`, as the names of the directories from the file-system root. */
    cwd: Path,
    /** `format(new Date(), 'yyyy-MM-dd')` at the time of the request. */
    today: string,
    /** `matter(text)`. */
    parseMatter: string -> Matter,
    /** `matter.stringify(content, data)`; `None` where the YAML dump throws (a value it
        cannot represent, such as `undefined`). */
    stringifyMatter: (Value, Data) -> Option<string>,
    /** `decodeURIComponent(s)`; `None` where it throws a `URIError`. */
    decodeUri: string -> Option<string>,
    /** `new Date(v).toISOString().split('T')[0]`. */
    isoDay: Value -> string,
    /** `JSON.stringify(list)` for a list of strings. */
    jsonTags: seq<string> -> string)
  {
    /** `path.join(process.cwd(), 'blog')`. */
    function BlogDir(): Path {
      cwd + ["blog"]
    }
  }
}

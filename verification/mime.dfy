/**
 * MIME guessing by file extension (`mime_guess`, also behind actix's
 * `file_extension_to_mime`), reduced to the one thing the source reads: the
 * top-level type. The guessing table itself is an input.
 */
module Mime {
  import opened Text

  /** The fallback of `first_or_octet_stream`: `application/octet-stream`. */
  const OCTET_STREAM_TYPE: string := "application"

  /**
   * A table from lower-case extension to top-level type (`image`, `video`, ...).
   * The lookup ignores ASCII case, as the guessing library does.
   */
  type Table = map<string, string>

  function TopLevelType(table: Table, ext: string): (t: string)
    ensures AsciiLower(ext) in table ==> t == table[AsciiLower(ext)]
    ensures AsciiLower(ext) !in table ==> t == OCTET_STREAM_TYPE
  {
    var key := AsciiLower(ext);
    if key in table then table[key] else OCTET_STREAM_TYPE
  }
}

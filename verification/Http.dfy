/** Header maps, and the text libraries the gateway calls, as values. */
module Http {
  import opened Common

  /** A header value is readable as text or not (`to_str` fails on non-visible characters). */
  datatype HeaderText = Readable(text: string) | Unreadable

  /** Headers by their normalised name. */
  type Headers = map<string, HeaderText>

  /** A compiled regular expression remembers what it was compiled from. */
  datatype Regex = Regex(pattern: string)

  /** The regular-expression and string-splitting libraries, whatever they compute. */
  datatype Library = Library(
    compiles: string -> bool,
    isMatch: (Regex, string) -> bool,
    replace: (Regex, string, string) -> string,
    split: (string, string) -> seq<string>)
  {
    /** `Regex::new(pattern).ok()`. */
    function Compile(pattern: string): Option<Regex> {
      if compiles(pattern) then Some(Regex(pattern)) else None
    }
  }
}

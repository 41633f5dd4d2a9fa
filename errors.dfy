/** Go `error` values as they occur in the TOTP-info resolver.
    An error is either one built by `fmt.Errorf` (or handed back by a
    collaborator whose internals are not modelled), or one of the two errors
    that `net/url` raises while parsing a query string. */
module Errors {

  datatype Error =
    | Errorf(text: string)               // fmt.Errorf(...) or a collaborator's error
    | SemicolonSeparator                 // net/url: ';' inside a query segment
    | EscapeError(fragment: string)      // net/url: malformed "%XX" escape

  /** The string `err.Error()` returns. */
  function Text(e: Error): (r: string)
    ensures e.Errorf? ==> r == e.text
    ensures !e.Errorf? ==> |r| > 0
  {
    match e
    case Errorf(text) => text
    case SemicolonSeparator => "invalid semicolon separator in query"
    case EscapeError(fragment) => "invalid URL escape " + Quote(fragment)
  }

  /** strconv.Quote, for fragments made of printable characters other than
      the double quote and the backslash. */
  function Quote(s: string): string
  {
    "\"" + s + "\""
  }
}

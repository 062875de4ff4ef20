/** Results of the parser's rules: a value, or the error the JavaScript code throws. */
module Outcomes {

  datatype Option<+T> = None | Some(value: T)

  /** Every way a rule of the parser can end without a value. */
  datatype Error =
    /** `match(s)` did not find `s`: the expected text and the rest of the input (src/bibtex_js.js:76). */
    | TokenMismatch(expected: string, found: string)
    /** `value_braces` reached the last character without closing (src/bibtex_js.js:119). */
    | UnterminatedBraces
    /** `value_quotes` reached the last character without closing; the text after the quote (src/bibtex_js.js:141). */
    | UnterminatedQuotes(rest: string)
    /** A bare value that is neither a defined macro nor a number (src/bibtex_js.js:160). */
    | ValueExpected(rest: string)
    /** `key` reached the end of the input (src/bibtex_js.js:179). */
    | RunawayKey
    /** `key_equals_value` found no `=` (src/bibtex_js.js:199). */
    | EqualsExpected(rest: string)
    /** `entries[currentEntry]` is undefined when BIBTEXRAW is written, a TypeError (src/bibtex_js.js:288). */
    | UndefinedEntry
    /** The JavaScript loop never ends: the cursor runs past the end of the input without a way out. */
    | Diverges

  datatype Outcome<+T> = Ok(value: T) | Fail(error: Error) {
    predicate IsFailure() { Fail? }
    function PropagateFailure<U>(): Outcome<U> requires Fail? { Fail(error) }
    function Extract(): T requires Ok? { value }
  }
}

/** The fields of `BibtexParser` other than the input (src/bibtex_js.js:27-48), as one value. */
module ParserState {
  import opened Outcomes

  /** One entry: upper-cased field name to text. */
  type Fields = map<string, string>
  /** `entries`: upper-cased citation key to the entry's fields. */
  type Table = map<string, Fields>
  /** `strings`: upper-cased macro name to its text. */
  type Macros = map<string, string>

  /** The twelve month macros every parser starts with (src/bibtex_js.js:32-45). */
  const Months: Macros := map[
    "JAN" := "January", "FEB" := "February", "MAR" := "March", "APR" := "April",
    "MAY" := "May", "JUN" := "June", "JUL" := "July", "AUG" := "August",
    "SEP" := "September", "OCT" := "October", "NOV" := "November", "DEC" := "December"]

  /** Every month macro has a non-empty text, so each one resolves. */
  lemma MonthsNonEmpty(k: string)
    requires k in Months
    ensures Months[k] != "" && |k| == 3
  {
  }

  /** The cursor `pos`, `entries`, `strings`, `currentEntry` and `rawCurrentKey`. */
  datatype State = State(pos: int, entries: Table, strings: Macros, currentEntry: string, rawKey: string)

  /** The state of a freshly constructed parser (src/bibtex_js.js:28-48). */
  const Initial: State := State(0, map[], Months, "", "")

  /** The state after a rule, with the value the rule returns. */
  datatype Parsed<T> = Parsed(state: State, value: T)

  /** A method's result paired with the state it leaves. */
  function Attach<T>(r: Outcome<T>, st: State): Outcome<Parsed<T>>
  {
    match r
    case Ok(v) => Ok(Parsed(st, v))
    case Fail(e) => Fail(e)
  }

  /** A void method's result paired with the state it leaves. */
  function Settle(r: Outcome<()>, st: State): Outcome<State>
  {
    match r
    case Ok(_) => Ok(st)
    case Fail(e) => Fail(e)
  }

  /** A result that only moves the cursor, with the position the cursor reached. */
  function AtPos(r: Outcome<()>, p: int): Outcome<int>
  {
    match r
    case Ok(_) => Ok(p)
    case Fail(e) => Fail(e)
  }

  /** A result that moves the cursor and answers `v`, with the position the cursor reached. */
  function WithPos<T>(r: Outcome<T>, p: int): Outcome<(int, T)>
  {
    match r
    case Ok(v) => Ok((p, v))
    case Fail(e) => Fail(e)
  }

  /** The state a rule leaves, forgetting its value. */
  function Final<T>(o: Outcome<Parsed<T>>): Outcome<State>
  {
    match o
    case Ok(p) => Ok(p.state)
    case Fail(e) => Fail(e)
  }
}

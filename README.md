# bibtex-js parser, modelled in Dafny

This project models the BibTeX reader of bibtex-js: the `BibtexParser` object in
`src/bibtex_js.js` (lines 27-291). It also models the author formatter
`BibtexDisplay.displayAuthor` (lines 353-366).

The parser is a hand-written recursive-descent reader. Its rules share one cursor, `pos`, over the
text `input`. They build `entries`, a table from upper-cased citation key to a table from
upper-cased field name to text. They also grow `strings`, the macro table, which starts with the
twelve month abbreviations. Every entry also gets the synthesized fields BIBTEXKEY, BIBTEXTYPE
(for four known types), BIBTEXTYPEKEY and BIBTEXRAW.

## Layout

- `outcomes.dfy` (`Outcomes`): `Outcome<T>`, either a value or the `Error` the JavaScript code
  throws. `Diverges` stands for the cases where the JavaScript loops forever.
- `js_text.dfy` (`JsText`): the JavaScript string operations the parser relies on, with their edge
  cases. These are `s[i]` (undefined outside the string), `substring` (argument clamping and
  swapping), `indexOf` (-1 when absent), ASCII `toUpperCase` and the `^[0-9]+$` test.
- `state.dfy` (`ParserState`): the parser's fields as one value `State`, and the month macros.
- `scanner.dfy` (`Scanner`), `values.dfy` (`ValueGrammar`) and `entries.dfy` (`EntryGrammar`):
  each rule of the parser as a function from the text and a `State` to an `Outcome`. The lemmas
  about these functions carry the properties.
- `parser.dfy` (`Parser`): the class `BibtexParser`. Its fields are the JavaScript fields, with
  the same loops and in-place updates. Most methods are the JavaScript methods. `NewEntry`,
  `OpenDirective`, `DirectiveBody`, `CloseDelimiter` and `CloseDirective` are pieces of
  `entry_body` and `bibtex`, and `isWhitespace` and `entry` are inlined into their callers. Each
  method is proved to do to `St()` (its fields as a `State`) what its rule function does, whenever
  it succeeds. The rule function has the same name or is one of `BaseFields`, `Opening`, `Body`,
  `Closing` and `Finish`. On a failure only the error is stated (see "## Left out").
- `roundtrip.dfy` (`RoundTrip`): an entry `@T{K,F1={v1},...,Fn={vn}}` with n at least 1, braced
  values and no blanks parses to one entry under the upper-cased `K`. That entry holds the
  synthesized fields, overwritten in order by the upper-cased pairs, plus BIBTEXRAW holding the
  text itself.
- `parse_example.dfy` (`ParseExample`): a whole parse of `@MISC{k, a=1,}`, worked through.
- `display.dfy` (`Display`): `displayAuthor`. Its two regular-expression replacements and its
  `split` are written out as functions, and the `for` loop that joins the names is a method.
- `display_example.dfy` (`DisplayExample`): the two-author example of the test suite, worked
  through.

## Behaviour kept as the code has it

The model follows the code where it departs from the usual reading of BibTeX:

- `entries` is keyed by the upper-cased citation key. Only BIBTEXKEY keeps the key as written.
- The closer of a directive is `}` when one follows, else `)`. It does not depend on whether
  `{` or `(` opened the directive.
- BIBTEXRAW is written onto `currentEntry` after every directive, including `@STRING`,
  `@PREAMBLE` and `@COMMENT`. Those overwrite the raw text of the entry parsed before them. On a
  fresh parser no such entry exists, and the write fails (`UndefinedEntry`, a TypeError in
  JavaScript).
- A `%` comment that runs to the end of the text without a newline never ends in the source. The
  same holds for an unterminated quoted value whose last character is a brace, and for an
  unterminated brace value whose last character is a `{` or a `}` without a backslash before it.
  The model answers `Fail(Diverges)` for all of these.
- A `@COMMENT` without a later `}` sets the cursor to -1, so `pos` is an `int`. The closer is then
  not found, and the parse fails with a token mismatch.
- A macro whose text is empty counts as undefined, because the source tests the text for truth.
- A key may be empty when its first character is outside the key class.
- `\}` and `\"` are recognised by looking at the one character before them, so `\\}` also counts
  as escaped.

## Model

| member | source | states |
|---|---|---|
| JsText.At | src/bibtex_js.js:92-96 | `input[i]` is a character exactly when `i` is inside the text, else undefined |
| JsText.Substring | src/bibtex_js.js:73-76 | `substring` gives `s[a..b]` for ordered in-range bounds, the empty text when both bounds are at most 0, and never a text longer than `s` |
| JsText.IndexOf | src/bibtex_js.js:250 | `indexOf` gives the first position at or after the start that holds the character, and -1 exactly when there is none |
| JsText.Upper | src/bibtex_js.js:186 | upper-casing keeps the length and maps each character on its own |
| JsText.UpperIdempotent | src/bibtex_js.js:155-156 | upper-casing an upper-cased key changes nothing, so `strings[k.toUpperCase()]` and `strings[k]` are the same lookup |
| JsText.UpperDigits | src/bibtex_js.js:157-158 | an all-digit token is its own upper-cased form |
| ParserState.MonthsNonEmpty | src/bibtex_js.js:32-45 | every predefined month macro has a three-letter name and non-empty text |
| Scanner.SkipEnd | src/bibtex_js.js:91-101 | skipping ends at the end of the text or on a character that is neither whitespace nor `%`, never before its start, and fails only by looping forever |
| Scanner.SkipEndSkipsTo | src/bibtex_js.js:91-101 | skipping from `p` lands on `q` exactly when every character in `[p, q)` is whitespace or comment text (after a `%` at or after `p`, with no newline since), the one at `q` is neither, and a landing at the end is not inside an unfinished comment; when no such `q` exists it loops forever |
| Scanner.CommentSkipsTo | src/bibtex_js.js:95-100 | inside a comment opened at `i`, the comment loop runs to the first newline and then lands exactly where skipping from `i` lands |
| Scanner.SkipComment | src/bibtex_js.js:95-99 | when the comment loop ends, the cursor is inside the text where skipping stops; its only failure is looping forever; the exact landing is stated by `Scanner.CommentSkipsTo` |
| Scanner.SkipEndIdempotent | src/bibtex_js.js:91-101 | skipping again where skipping stopped moves nothing |
| Scanner.SkipEndFixedPoint | src/bibtex_js.js:91-101 | skipping stays put exactly on the positions where it can stop |
| Scanner.SkipWithoutComments | src/bibtex_js.js:92-94 | with no `%` ahead, skipping stops at the first character that is not a space, tab, CR or newline |
| Scanner.SkipTrailingComment | src/bibtex_js.js:95-98 | a `%` reached through whitespace with no newline after it makes skipping loop forever |
| Scanner.SkipDivergesOnlyInComment | src/bibtex_js.js:95-98 | skipping loops forever only if some `%` ahead has no newline after it |
| Scanner.TokenAtIsSubstring | src/bibtex_js.js:73 | testing one character equals comparing `substring(pos, pos + 1)`, also at -1 and at the end |
| Scanner.MatchEnd | src/bibtex_js.js:71-79 | a successful `match` moves past the token and lands on a position where skipping stops |
| Scanner.TryMatchAt | src/bibtex_js.js:81-89 | `tryMatch` answers true exactly when the character where skipping stops is the token; the cursor moves forward to that position; its only failure is looping forever |
| Scanner.MatchAgreesWithTryMatch | src/bibtex_js.js:71-89 | `match` succeeds exactly when `tryMatch` answers true, then skips past the token; otherwise it throws "Token mismatch" with the rest of the text |
| Scanner.TryMatchLands | src/bibtex_js.js:81-89 | `tryMatch` from `p` answers the landing position of skipping from `p`, and true exactly when the token stands there |
| Scanner.MatchEndLands | src/bibtex_js.js:71-79 | with skipping from `p` landing on `q`, `match` succeeds exactly when the token is at `q`, and then lands where skipping from `q + 1` lands |
| ValueGrammar.KeyScan | src/bibtex_js.js:177-188 | the key loop stops on the first character outside the key class, or throws "Runaway key" when all the rest is key characters |
| ValueGrammar.Key | src/bibtex_js.js:175-189 | `key` takes the maximal run of key characters, keeps it raw in `rawCurrentKey`, returns it upper-cased and changes nothing else |
| ValueGrammar.KeyReads | src/bibtex_js.js:175-189 | a run of key characters ending before a non-key character is read as one key |
| ValueGrammar.BraceScan | src/bibtex_js.js:106-121 | the brace loop ends only on a `}` not preceded by `\` |
| ValueGrammar.BraceScanFindsFirstClose | src/bibtex_js.js:106-121 | the brace loop ends exactly at the first unescaped `}` met at depth 0, the depth never going below 0 |
| ValueGrammar.BraceScanUnterminated | src/bibtex_js.js:117-120 | with no closing brace ahead it throws "Unterminated value" on the last character, or loops forever when that character is a `{` or a `}` without a backslash before it |
| ValueGrammar.ValueBraces | src/bibtex_js.js:103-123 | `value_braces` moves the cursor forward and changes only the cursor |
| ValueGrammar.ValueBracesIsFirstClose | src/bibtex_js.js:103-123 | `value_braces` returns the text from after the `{` and its blanks up to `e` exactly when `e` is the first `}` that closes the value and the blanks after it can be skipped |
| ValueGrammar.QuoteScan | src/bibtex_js.js:128-143 | the quote loop ends only on a `"` not preceded by `\` |
| ValueGrammar.QuoteScanFindsFirstQuote | src/bibtex_js.js:128-143 | the quote loop ends exactly at the first unescaped `"` met at brace count 0; a `}` lowers the count only when it is positive |
| ValueGrammar.QuoteScanUnterminated | src/bibtex_js.js:139-141 | with no closing quote ahead it throws "Unterminated value" with the text after the quote, or loops forever when the last character is a brace |
| ValueGrammar.ValueQuotes | src/bibtex_js.js:125-145 | `value_quotes` moves the cursor forward and changes only the cursor |
| ValueGrammar.ValueQuotesIsFirstQuote | src/bibtex_js.js:125-145 | `value_quotes` returns the text up to `e` exactly when `e` is the first quote that ends the value and the blanks after it can be skipped |
| ValueGrammar.SingleValue | src/bibtex_js.js:147-163 | `single_value` moves the cursor forward and changes only the cursor and `rawCurrentKey` |
| ValueGrammar.Resolve | src/bibtex_js.js:154-161 | the bare-token branch leaves the state as the key left it |
| ValueGrammar.BareValue | src/bibtex_js.js:152-161 | a bare token becomes the text of its upper-cased macro when that text is non-empty, else itself when all digits, else "Value expected" |
| ValueGrammar.MonthsCaseInsensitive | src/bibtex_js.js:32-45 | a bare token whose upper-cased form is a month name resolves to that month, whatever its case (`jan`, `Jan`, `JAN`), while the macros are the months |
| ValueGrammar.ValueTail | src/bibtex_js.js:167-172 | the `#` loop changes only the cursor and `rawCurrentKey` and stops where skipping stops |
| ValueGrammar.Value | src/bibtex_js.js:165-173 | `value` changes only the cursor and `rawCurrentKey` |
| ValueGrammar.ValueTailPrefix | src/bibtex_js.js:165-173 | the text joined so far stands, unchanged, in front of what the rest of the loop adds |
| ValueGrammar.ValueConcat | src/bibtex_js.js:165-173 | `x # rest` gives the text of `x` directly followed by the text of `rest`, with no separator |
| EntryGrammar.EqualsValue | src/bibtex_js.js:194-200 | the part after the key changes only the cursor and `rawCurrentKey` |
| EntryGrammar.KeyEqualsValue | src/bibtex_js.js:192-201 | `key_equals_value` changes only the cursor and `rawCurrentKey` |
| EntryGrammar.EqualsMissing | src/bibtex_js.js:198-200 | a key not followed by `=` throws, with the text where `=` was expected |
| EntryGrammar.AssignLastWins | src/bibtex_js.js:203-215 | of several pairs naming the same field, the last one written wins |
| EntryGrammar.AssignUntouched | src/bibtex_js.js:203-215 | a field that no pair names keeps its value, or stays absent |
| EntryGrammar.ListClosed | src/bibtex_js.js:209 | after a `,`, the list ends exactly when `}` or `)` follows the blanks |
| EntryGrammar.ListStep | src/bibtex_js.js:207-214 | one pass of the list loop reads one pair or ends the list, and changes only the cursor and `rawCurrentKey` |
| EntryGrammar.KeyValueTail | src/bibtex_js.js:207-214 | the rest of the list writes its pairs into the current entry in order, and changes nothing else |
| EntryGrammar.KeyValueList | src/bibtex_js.js:203-215 | `key_value_list` writes at least one pair, and all its pairs in order, into the current entry; other entries and the macros stay as they were |
| EntryGrammar.TrailingComma | src/bibtex_js.js:208-211 | a `,` followed by `}` or `)` ends the list without error, before the closer |
| EntryGrammar.BaseFieldsMeta | src/bibtex_js.js:219-230 | a new entry holds the key as written, the directive, and BIBTEXTYPE exactly for the four known directives, with their labels |
| EntryGrammar.EntryBody | src/bibtex_js.js:217-233 | `entry_body` replaces whatever was filed under the upper-cased key with a fresh entry: synthesized fields, then the pairs; the macros stay |
| EntryGrammar.OpenEntry | src/bibtex_js.js:218-232 | after the key, a fresh field map, then `,` and the pairs, become the current entry |
| EntryGrammar.EntryMeta | src/bibtex_js.js:219-230 | unless a field itself is named BIBTEXKEY or BIBTEXTYPEKEY, the entry keeps the synthesized key and directive |
| EntryGrammar.Directive | src/bibtex_js.js:235-238 | `directive` matches `@` and returns `@` followed by the upper-cased key it reads right after the `@` and its blanks: a maximal run of key characters, kept as written in `rawCurrentKey`; it changes only the cursor and `rawCurrentKey` |
| EntryGrammar.StringDirective | src/bibtex_js.js:240-243 | `@STRING` stores its value under the upper-cased name and changes nothing else but the cursor and `rawCurrentKey` |
| EntryGrammar.Preamble | src/bibtex_js.js:245-247 | `@PREAMBLE` reads a value and keeps nothing of it |
| EntryGrammar.Comment | src/bibtex_js.js:249-251 | `@COMMENT` moves the cursor to the next `}`, or to -1 exactly when there is none |
| EntryGrammar.Body | src/bibtex_js.js:268-276 | the dispatch never removes an entry or a macro; `@STRING`, `@PREAMBLE` and `@COMMENT` leave the entries alone |
| EntryGrammar.Opening | src/bibtex_js.js:262-267 | the directive and its opener change only the cursor and `rawCurrentKey` |
| EntryGrammar.Closing | src/bibtex_js.js:278-285 | the closer is found only where the body stopped, and is `}` or `)` |
| EntryGrammar.Resume | src/bibtex_js.js:287 | the loop resumes at the next `@` at or after `end`, or at `end - 1` when there is none |
| EntryGrammar.Finish | src/bibtex_js.js:277-288 | the raw span runs from the `@` through the closer; BIBTEXRAW of the current entry is set to it, and an undefined current entry fails |
| EntryGrammar.Item | src/bibtex_js.js:260-289 | one pass starts at its `@`, moves the cursor forward, and never removes an entry or a macro |
| EntryGrammar.ItemWritesRaw | src/bibtex_js.js:277-288 | every pass that succeeds ends on `}` or `)` and leaves its raw text in BIBTEXRAW of the entry that is then current |
| EntryGrammar.ItemSteps | src/bibtex_js.js:260-289 | a pass fails with the first of its opening, body and closing that fails |
| EntryGrammar.BibtexLoop | src/bibtex_js.js:257-290 | the driver never removes an entry or a macro |
| EntryGrammar.LoopStep | src/bibtex_js.js:260-289 | after a pass that succeeds, the loop goes on from where the pass left the cursor |
| EntryGrammar.LoopStops | src/bibtex_js.js:260 | the loop ends, leaving the tables as they are, when no `@` follows the blanks |
| EntryGrammar.StopsAfterLastDirective | src/bibtex_js.js:287 | with no `@` after the last closer, the loop stops on that closer |
| EntryGrammar.NonEntryOverwritesRaw | src/bibtex_js.js:288 | `@STRING`, `@PREAMBLE` and `@COMMENT` overwrite BIBTEXRAW of the entry parsed before them, and fail when there is none |
| EntryGrammar.EntryReplaces | src/bibtex_js.js:218-219 | an entry whose key is already present replaces the earlier entry outright |
| EntryGrammar.FirstNonEntryFails | src/bibtex_js.js:288 | on a fresh parser, a text that starts with `@STRING`, `@PREAMBLE` or `@COMMENT` cannot be parsed |
| EntryGrammar.Parse | src/bibtex_js.js:671-676 | a parse that succeeds returns a table in which every entry holds BIBTEXKEY, BIBTEXTYPEKEY and BIBTEXRAW |
| EntryGrammar.ItemStamped | src/bibtex_js.js:216-233 | one pass of the loop keeps every entry holding BIBTEXKEY, BIBTEXTYPEKEY and BIBTEXRAW: a new entry gets the first two from `entry_body` and the third after its closer |
| EntryGrammar.LoopStamped | src/bibtex_js.js:257-290 | the whole loop keeps every entry holding BIBTEXKEY, BIBTEXTYPEKEY and BIBTEXRAW |
| RoundTrip.BracedValue | src/bibtex_js.js:103-173 | a braced text `{v}`, where `v` has balanced braces, does not start with a blank or `%` and does not end in a backslash, followed by `,` or `}`, is read by `value` as `v` itself, and the cursor ends just after the closing brace |
| RoundTrip.FieldReads | src/bibtex_js.js:192-201 | `F={v}` is read by `key_equals_value` as the pair of upper-cased `F` and `v`, with `F` kept as written in `rawCurrentKey` |
| RoundTrip.FieldsRead | src/bibtex_js.js:207-214 | the list loop over `,F1={v1},...,Fn={vn}` followed by `}` appends the n pairs, in order, to those read before, and stops on the `}` |
| RoundTrip.ListRead | src/bibtex_js.js:203-215 | `key_value_list` over `F1={v1},...,Fn={vn}` followed by `}` returns exactly the n pairs and stops on the `}` |
| RoundTrip.BodyReads | src/bibtex_js.js:217-233 | the body `K,F1={v1},...` of a directive that is not `@STRING`, `@PREAMBLE` or `@COMMENT` files, under upper-cased `K`, the synthesized fields overwritten by the pairs in order, makes it the current entry, and stops on the `}` |
| RoundTrip.EntryRoundTrip | src/bibtex_js.js:192-290 | the text `@T{K,F1={v1},...,Fn={vn}}`, for n at least 1, key-character names and texts that `RoundTrip.BracedValue` reads back, parses to one entry under upper-cased `K`: the synthesized fields, then each upper-cased `Fi` with `vi`, the last one written winning, then BIBTEXRAW holding the whole text, so that parsing the stored BIBTEXRAW again gives the same table |
| ParseExample.TrailingCommaParses | src/bibtex_js.js:208-211 | `@MISC{k, a=1,}` parses to one entry `K` with `A` = "1", BIBTEXKEY "k", BIBTEXTYPEKEY "@MISC", no BIBTEXTYPE, and the whole text as BIBTEXRAW |
| ParseExample.ExampleFieldList | src/bibtex_js.js:203-215 | the example's field list writes `A` = "1" and stops cleanly on the trailing comma |
| ParseExample.ExampleClosing | src/bibtex_js.js:277-288 | the example's closer is its last character and no `@` follows |
| Parser.BibtexParser.constructor | src/bibtex_js.js:27-48 | a new parser has its cursor at 0, no entries and the twelve month macros |
| Parser.BibtexParser.SetInput | src/bibtex_js.js:51-53 | `setInput` replaces the text and nothing else |
| Parser.BibtexParser.GetEntries | src/bibtex_js.js:55-57 | `getEntries` returns the entry table |
| Parser.BibtexParser.SkipWhitespace | src/bibtex_js.js:91-101 | the loops move `pos` to where `SkipEnd` says, and change nothing else |
| Parser.BibtexParser.Match | src/bibtex_js.js:71-79 | `match` moves `pos` as `MatchEnd` says, or throws the same mismatch |
| Parser.BibtexParser.TryMatch | src/bibtex_js.js:81-89 | `tryMatch` answers and moves `pos` as `TryMatchAt` says |
| Parser.BibtexParser.ValueBraces | src/bibtex_js.js:103-123 | the brace loop answers and updates the fields as `ValueBraces` says |
| Parser.BibtexParser.ValueQuotes | src/bibtex_js.js:125-145 | the quote loop answers and updates the fields as `ValueQuotes` says |
| Parser.BibtexParser.Key | src/bibtex_js.js:175-189 | the key loop answers and updates `pos` and `rawCurrentKey` as `Key` says |
| Parser.BibtexParser.SingleValue | src/bibtex_js.js:147-163 | `single_value` answers as `SingleValue` says |
| Parser.BibtexParser.Value | src/bibtex_js.js:165-173 | the `#` loop answers as `Value` says: the values read, concatenated in order |
| Parser.BibtexParser.KeyEqualsValue | src/bibtex_js.js:192-201 | `key_equals_value` answers as `KeyEqualsValue` says |
| Parser.BibtexParser.KeyValueList | src/bibtex_js.js:203-215 | the list loop writes into `entries[currentEntry]` as `KeyValueList` says |
| Parser.BibtexParser.EntryBody | src/bibtex_js.js:217-233 | `entry_body` updates the entries and `currentEntry` as `EntryBody` says |
| Parser.BibtexParser.NewEntry | src/bibtex_js.js:219-230 | the field-by-field writes produce the synthesized fields under `currentEntry` |
| Parser.BibtexParser.Directive | src/bibtex_js.js:235-238 | `directive` answers as `Directive` says |
| Parser.BibtexParser.StringDirective | src/bibtex_js.js:240-243 | `string` updates the macros as `StringDirective` says |
| Parser.BibtexParser.Preamble | src/bibtex_js.js:245-247 | `preamble` moves only the cursor, as `Preamble` says |
| Parser.BibtexParser.Comment | src/bibtex_js.js:249-251 | `comment` moves the cursor as `Comment` says |
| Parser.BibtexParser.DirectiveBody | src/bibtex_js.js:268-276 | the dispatch, through `entry`, does what `Body` says |
| Parser.BibtexParser.OpenDirective | src/bibtex_js.js:262-267 | the directive and its opener, as `Opening` says |
| Parser.BibtexParser.CloseDelimiter | src/bibtex_js.js:278-285 | the closer and an optional comma, as `Closing` says |
| Parser.BibtexParser.CloseDirective | src/bibtex_js.js:277-288 | the end of a pass, with the BIBTEXRAW write, as `Finish` says |
| Parser.BibtexParser.Bibtex | src/bibtex_js.js:257-290 | the driver loop ends as `BibtexLoop` says, with the same tables |
| Display.SpaceRun | src/bibtex_js.js:354-355 | the run of spaces at the start of a text is maximal |
| Display.WsRun | src/bibtex_js.js:356 | the run of `\s` characters at the start of a text is maximal |
| Display.BreakMatch | src/bibtex_js.js:354 | a match of `[ ]*[\n\t][ ]*` covers only blanks and holds one tab or newline; without a match the first tab or newline comes after a non-space |
| Display.JoinBreaksClean | src/bibtex_js.js:354 | after the first replacement no tab or newline is left, the non-blank text is as before, and every run of blanks is still a run of blanks: collapsing its result gives the collapse of the input |
| Display.JoinBreaksKeeps | src/bibtex_js.js:354 | a text without tabs and newlines passes the first replacement unchanged |
| Display.SqueezeSpaces | src/bibtex_js.js:355 | the second replacement brings in no new character |
| Display.SqueezeSpacesClean | src/bibtex_js.js:355 | after the second replacement no two spaces stand together, and the non-blank text is as before |
| Display.SqueezeIsCollapse | src/bibtex_js.js:355 | on a text without tabs and newlines, the second replacement writes each maximal run of spaces as exactly one space and keeps every other character |
| Display.CollapseJoinBreaks | src/bibtex_js.js:354 | the first replacement writes each run of blanks as a non-empty run of spaces and keeps everything else |
| Display.ReplacementsCollapse | src/bibtex_js.js:354-355 | the two replacements together write every maximal run of spaces, tabs and newlines as exactly one space and keep everything else in order |
| Display.SqueezeSpacesKeeps | src/bibtex_js.js:355 | a text without double spaces passes the second replacement unchanged |
| Display.SepMatch | src/bibtex_js.js:356 | a match of `[\s]+and[\s]+` is at least five characters long |
| Display.SepMatchExtends | src/bibtex_js.js:356 | a separator found in a prefix is a separator of the whole text |
| Display.SplitAnd | src/bibtex_js.js:356-357 | the split never returns an empty list, so `arrayString[0]` exists |
| Display.SplitAndPieces | src/bibtex_js.js:356 | no piece of the split holds a separator: it cuts at every one |
| Display.SplitAndNoSep | src/bibtex_js.js:356 | a text without a separator comes back whole, as one author |
| Display.SplitAndCut | src/bibtex_js.js:356 | the split cuts at the first separator, and goes on after it |
| Display.DisplayAuthor | src/bibtex_js.js:353-366 | the loop joins the names with ", " and puts ", and " before the last one |
| Display.SerialShapes | src/bibtex_js.js:358-364 | two names give "A, and B"; three give "A, B, and C" |
| Display.DisplayedNames | src/bibtex_js.js:353-356 | `displayAuthor` returns the pieces of the input with every blank run collapsed to one space, joined "A, B, and C"; the names hold no separator, and the text they come from has no tab, newline or double space but every non-blank character of the input |
| Display.SingleAuthorUnchanged | src/bibtex_js.js:353-366 | a single plain author is returned unchanged |
| Display.DisplayedTwo | src/bibtex_js.js:353-366 | two plain names around one separator are written "A, and B" |
| DisplayExample.TwoAuthors | test/test.js:33 | "Sammet, J.E. and Hemmendinger, D." is shown as "Sammet, J.E., and Hemmendinger, D." |

## Left out

- `errorThrown` (src/bibtex_js.js:63-65) writes to the page. It is outside the parser's logic.
- `getBibTexRaw` (src/bibtex_js.js:59-61) returns a field that nothing ever sets, so it is always
  undefined.
- `currentKey` is declared and set to "" (src/bibtex_js.js:46) but never used. The class keeps it
  as a constant field "" that nothing reads.
- `match` and `tryMatch` are modelled for one-character tokens. Every call in the parser passes a
  one-character literal.
- `toUpperCase` is modelled on ASCII letters only. It is only ever applied to key characters,
  which are all ASCII.
- Parser.BibtexParser.Bibtex: when a rule throws, the fields are left in whatever state the
  JavaScript leaves them. The model states only the error, not the state. This holds for every
  method of `Parser.BibtexParser`. The only caller, `displayBibtex`, discards the parser after an
  error.
- Parser.BibtexParser.Value appends each value to one string as it is read. The source pushes the
  values into an array and joins them with "" at the end (src/bibtex_js.js:165-173). The text
  returned is the same; the array itself is not modelled.
- Positions count characters. JavaScript strings count UTF-16 code units, so for a text with
  characters outside the Basic Multilingual Plane, `pos`, the offsets passed to `substring` and the
  position of a `}` found by `indexOf` differ from the source's numbers. The texts returned and
  stored are the same.
- RoundTrip.EntryRoundTrip covers one entry written without blanks, with `{` as its opener and
  every value in braces. Quoted values, macros, `#` concatenation, blanks and comments between the
  tokens, and texts holding several directives are covered only by the rule-by-rule lemmas above.
  An entry with no field is not a round trip: `entry_body` demands a `,` after the key.
- `entries` and each entry's field table are JavaScript objects in the source. Their property
  order (insertion order, a replaced key keeping its first place, integer-like keys first) decides
  the order in which the page shows the entries (src/bibtex_js.js:689-697). A Dafny `map` has no
  order, so the model does not keep it. The parser itself never reads that order.
- Looping forever is reported as `Fail(Diverges)`. The model does not say how long the source
  runs first.
- `Display.DisplayAuthor` is a free method. In the source it is a method of `BibtexDisplay`, an
  object with no fields of its own.
- `fixValue`, the LaTeX-to-Unicode table, `createTemplate`, `createStructure`, `displayBibtex`,
  `createArray`, `sortArray`, the search, storage and loader code, and the page bootstrap are not
  part of this model. They are presentation, DOM, network and timer code built on the parser's
  output.

/** The value grammar of `BibtexParser`: keys, brace and quote values, macros, numbers and
    `#` concatenation (src/bibtex_js.js:103-189). */
module ValueGrammar {
  import opened Outcomes
  import opened JsText
  import opened Scanner
  import opened ParserState

  /** The key character class `[a-zA-Z0-9_:?./'+\-*]` (src/bibtex_js.js:182). */
  predicate KeyChar(c: char)
  {
    || ('a' <= c <= 'z') || ('A' <= c <= 'Z') || ('0' <= c <= '9')
    || c == '_' || c == ':' || c == '?' || c == '.' || c == '/' || c == '\'' || c == '+' || c == '-' || c == '*'
  }

  /** A rule of the value grammar changes only the cursor and `rawCurrentKey`. */
  predicate SameTables(st: State, st': State)
  {
    st' == st.(pos := st'.pos, rawKey := st'.rawKey)
  }

  // ----- key (src/bibtex_js.js:175-189) -----

  /** The loop of `key`: the end of the run of key characters from `p`. */
  function KeyScan(src: string, p: int): (r: Outcome<int>)
    requires 0 <= p <= |src|
    ensures r.Ok? ==> p <= r.value < |src| && !KeyChar(src[r.value])
    ensures r.Ok? ==> forall k :: p <= k < r.value ==> KeyChar(src[k])
    ensures r.Fail? ==> r.error == RunawayKey && forall k :: p <= k < |src| ==> KeyChar(src[k])
    decreases |src| - p
  {
    if p == |src| then Fail(RunawayKey)
    else if KeyChar(src[p]) then KeyScan(src, p + 1)
    else Ok(p)
  }

  /** `key`: consumes the maximal run of key characters, keeps it raw in `rawCurrentKey` and
      returns it upper-cased; "Runaway key" when the run reaches the end of the input. */
  function Key(src: string, st: State): (r: Outcome<Parsed<string>>)
    requires 0 <= st.pos <= |src|
    ensures r.Ok? ==> var e := r.value.state.pos;
      && st.pos <= e < |src| && !KeyChar(src[e])
      && (forall k :: st.pos <= k < e ==> KeyChar(src[k]))
      && r.value.state == st.(pos := e, rawKey := src[st.pos..e])
      && r.value.value == Upper(src[st.pos..e])
    ensures r.Fail? ==> r.error == RunawayKey && forall k :: st.pos <= k < |src| ==> KeyChar(src[k])
  {
    var e :- KeyScan(src, st.pos);
    var raw := Substring(src, st.pos, e);
    Ok(Parsed(st.(pos := e, rawKey := raw), Upper(raw)))
  }

  /** A run of key characters ending before a non-key character is read as one key. */
  lemma KeyReads(src: string, st: State, e: int)
    requires 0 <= st.pos <= e < |src| && !KeyChar(src[e])
    requires forall k :: st.pos <= k < e ==> KeyChar(src[k])
    ensures Key(src, st) == Ok(Parsed(st.(pos := e, rawKey := src[st.pos..e]), Upper(src[st.pos..e])))
  {
  }

  // ----- value_braces (src/bibtex_js.js:103-123) -----

  /** A `}` that the scan may take as closing: not preceded by a backslash. */
  predicate UnescapedClose(src: string, k: int)
    requires 0 <= k < |src|
  {
    src[k] == '}' && At(src, k - 1) != Some('\\')
  }

  /** A character that changes the brace count of `value_braces`. */
  predicate CountedBrace(src: string, k: int)
    requires 0 <= k < |src|
  {
    src[k] == '{' || UnescapedClose(src, k)
  }

  /** The loop of `value_braces` from `p` with brace count `depth`: the position of the closing brace. */
  function BraceScan(src: string, p: int, depth: nat): (r: Outcome<int>)
    requires 0 <= p
    ensures r.Ok? ==> p <= r.value < |src| && UnescapedClose(src, r.value)
    ensures r.Fail? ==> r.error == UnterminatedBraces || r.error == Diverges
    decreases |src| - p
  {
    if p >= |src| then Fail(Diverges)
    else if UnescapedClose(src, p) then (if depth > 0 then BraceScan(src, p + 1, depth - 1) else Ok(p))
    else if src[p] == '{' then BraceScan(src, p + 1, depth + 1)
    else if p == |src| - 1 then Fail(UnterminatedBraces)
    else BraceScan(src, p + 1, depth)
  }

  /** The brace count `value_braces` holds after reading `src[p..k)`; never negative. */
  function BraceDepth(src: string, p: nat, k: nat): nat
    requires p <= k <= |src|
    decreases k
  {
    if k == p then 0
    else
      var d := BraceDepth(src, p, k - 1);
      if UnescapedClose(src, k - 1) then (if d > 0 then d - 1 else 0)
      else if src[k - 1] == '{' then d + 1
      else d
  }

  /** Position `k` closes the value opened just before `p`. */
  predicate ClosesValue(src: string, p: nat, k: nat)
    requires p <= k < |src|
  {
    UnescapedClose(src, k) && BraceDepth(src, p, k) == 0
  }

  /** `e` is the first position that closes the value opened just before `p`. */
  predicate IsFirstClose(src: string, p: nat, e: int)
  {
    p <= e < |src| && ClosesValue(src, p, e) && forall k :: p <= k < e ==> !ClosesValue(src, p, k)
  }

  /** While nothing has closed and nothing was thrown, the scan stands at `k` with the count
      `BraceDepth` gives. */
  lemma {:induction false} BraceScanReaches(src: string, p: nat, k: nat)
    requires p <= k <= |src|
    requires forall j :: p <= j < k ==> !ClosesValue(src, p, j)
    requires forall j :: p <= j < k && j == |src| - 1 ==> CountedBrace(src, j)
    ensures BraceScan(src, p, 0) == BraceScan(src, k, BraceDepth(src, p, k))
    decreases k
  {
    if k > p {
      BraceScanReaches(src, p, k - 1);
      BraceScanStep(src, p, k - 1);
    }
  }

  /** One step of the scan over a character that neither closes the value nor throws. */
  lemma BraceScanStep(src: string, p: nat, j: nat)
    requires p <= j < |src| && !ClosesValue(src, p, j)
    requires j == |src| - 1 ==> CountedBrace(src, j)
    ensures BraceScan(src, j, BraceDepth(src, p, j)) == BraceScan(src, j + 1, BraceDepth(src, p, j + 1))
  {
  }

  lemma {:induction false} BraceScanOkFrom(src: string, p: nat, k: nat, e: int)
    requires p <= k <= |src|
    requires forall j :: p <= j < k ==> !ClosesValue(src, p, j)
    requires BraceScan(src, k, BraceDepth(src, p, k)) == Ok(e)
    ensures IsFirstClose(src, p, e)
    decreases |src| - k
  {
    var d := BraceDepth(src, p, k);
    assert BraceDepth(src, p, k + 1) == (if UnescapedClose(src, k) then (if d > 0 then d - 1 else 0)
      else if src[k] == '{' then d + 1 else d);
    if !(UnescapedClose(src, k) && d == 0) {
      BraceScanOkFrom(src, p, k + 1, e);
    }
  }

  /** `value_braces` ends exactly at the first `}` that is not escaped and stands at brace count 0. */
  lemma BraceScanFindsFirstClose(src: string, p: nat, e: int)
    ensures BraceScan(src, p, 0) == Ok(e) <==> IsFirstClose(src, p, e)
  {
    if BraceScan(src, p, 0) == Ok(e) {
      BraceScanOkFrom(src, p, p, e);
    }
    if IsFirstClose(src, p, e) {
      BraceScanReaches(src, p, e);
    }
  }

  /** With no closing brace ahead, `value_braces` throws "Unterminated value" when it reaches the
      last character, unless that character changes the brace count: then the source loops forever. */
  lemma BraceScanUnterminated(src: string, p: nat)
    requires forall k :: p <= k < |src| ==> !ClosesValue(src, p, k)
    ensures BraceScan(src, p, 0) ==
      if p < |src| && !CountedBrace(src, |src| - 1) then Fail(UnterminatedBraces) else Fail(Diverges)
  {
    if p < |src| {
      var j := |src| - 1;
      BraceScanReaches(src, p, j);
      var d := BraceDepth(src, p, j);
      assert !ClosesValue(src, p, j);
      if UnescapedClose(src, j) {
        assert d > 0 && BraceScan(src, j, d) == BraceScan(src, j + 1, d - 1);
      }
    }
  }

  /** `value_braces`: the text between `{` and its closing `}`, inner braces kept. */
  function ValueBraces(src: string, st: State): (r: Outcome<Parsed<string>>)
    requires 0 <= st.pos <= |src|
    ensures r.Ok? ==> st.pos < r.value.state.pos <= |src| && Stopped(src, r.value.state.pos)
    ensures r.Ok? ==> r.value.state == st.(pos := r.value.state.pos)
  {
    var p :- MatchEnd(src, st.pos, '{');
    var e :- BraceScan(src, p, 0);
    var q :- MatchEnd(src, e, '}');
    Ok(Parsed(st.(pos := q), Substring(src, p, e)))
  }

  /** `value_braces` returns `src[p..e]`, `p` just after the `{` and its blanks, exactly when `e` is
      the first closing brace and the blanks after it can be skipped. */
  lemma ValueBracesIsFirstClose(src: string, st: State, p: nat, e: int)
    requires 0 <= st.pos <= |src|
    requires MatchEnd(src, st.pos, '{') == Ok(p)
    ensures (ValueBraces(src, st).Ok? && p <= e <= |src| && ValueBraces(src, st).value.value == src[p..e])
        <==> (IsFirstClose(src, p, e) && SkipEnd(src, e + 1).Ok?)
  {
    BraceScanFindsFirstClose(src, p, e);
    match BraceScan(src, p, 0)
    case Fail(_) =>
      assert ValueBraces(src, st).Fail?;
    case Ok(e') =>
      BraceScanFindsFirstClose(src, p, e');
      FirstCloseUnique(src, p, e, e');
      assert SkipEnd(src, e') == Ok(e');
      assert MatchEnd(src, e', '}') == SkipEnd(src, e' + 1);
  }

  lemma FirstCloseUnique(src: string, p: nat, e: int, e': int)
    requires IsFirstClose(src, p, e')
    ensures IsFirstClose(src, p, e) <==> e == e'
  {
  }

  // ----- value_quotes (src/bibtex_js.js:125-145) -----

  /** A `"` not preceded by a backslash. */
  predicate UnescapedQuote(src: string, k: int)
    requires 0 <= k < |src|
  {
    src[k] == '"' && At(src, k - 1) != Some('\\')
  }

  /** The loop of `value_quotes` from `p` with brace count `depth`; `start` is where the text began. */
  function QuoteScan(src: string, start: int, p: int, depth: nat): (r: Outcome<int>)
    requires 0 <= p
    ensures r.Ok? ==> p <= r.value < |src| && UnescapedQuote(src, r.value)
    ensures r.Fail? ==> r.error == UnterminatedQuotes(Substring(src, start, |src|)) || r.error == Diverges
    decreases |src| - p
  {
    if p >= |src| then Fail(Diverges)
    else if UnescapedQuote(src, p) && depth == 0 then Ok(p)
    else if src[p] == '{' then QuoteScan(src, start, p + 1, depth + 1)
    else if src[p] == '}' then QuoteScan(src, start, p + 1, if depth > 0 then depth - 1 else 0)
    else if p == |src| - 1 then Fail(UnterminatedQuotes(Substring(src, start, |src|)))
    else QuoteScan(src, start, p + 1, depth)
  }

  /** One character of `value_quotes`' loop that neither ends nor fails it. */
  lemma QuoteScanNext(src: string, start: int, p: nat, depth: nat, next: nat)
    requires p < |src| && !(UnescapedQuote(src, p) && depth == 0)
    requires src[p] == '{' || src[p] == '}' || p != |src| - 1
    requires next == if src[p] == '{' then depth + 1 else if src[p] == '}' then (if depth > 0 then depth - 1 else 0) else depth
    ensures QuoteScan(src, start, p, depth) == QuoteScan(src, start, p + 1, next)
  {
  }

  /** The brace count `value_quotes` holds after reading `src[p..k)`: a `}` lowers it only when positive. */
  function QuoteDepth(src: string, p: nat, k: nat): nat
    requires p <= k <= |src|
    decreases k
  {
    if k == p then 0
    else
      var d := QuoteDepth(src, p, k - 1);
      if src[k - 1] == '{' then d + 1
      else if src[k - 1] == '}' then (if d > 0 then d - 1 else 0)
      else d
  }

  /** Position `k` ends the quoted value begun at `p`. */
  predicate EndsQuote(src: string, p: nat, k: nat)
    requires p <= k < |src|
  {
    UnescapedQuote(src, k) && QuoteDepth(src, p, k) == 0
  }

  /** `e` is the first position that ends the quoted value begun at `p`. */
  predicate IsFirstQuote(src: string, p: nat, e: int)
  {
    p <= e < |src| && EndsQuote(src, p, e) && forall k :: p <= k < e ==> !EndsQuote(src, p, k)
  }

  lemma {:induction false} QuoteScanReaches(src: string, start: int, p: nat, k: nat)
    requires p <= k <= |src|
    requires forall j :: p <= j < k ==> !EndsQuote(src, p, j)
    requires forall j :: p <= j < k && j == |src| - 1 ==> src[j] == '{' || src[j] == '}'
    ensures QuoteScan(src, start, p, 0) == QuoteScan(src, start, k, QuoteDepth(src, p, k))
    decreases k
  {
    if k > p {
      QuoteScanReaches(src, start, p, k - 1);
      QuoteScanStep(src, start, p, k - 1);
    }
  }

  /** One step of the scan over a character that neither ends the value nor throws. */
  lemma QuoteScanStep(src: string, start: int, p: nat, j: nat)
    requires p <= j < |src| && !EndsQuote(src, p, j)
    requires j == |src| - 1 ==> src[j] == '{' || src[j] == '}'
    ensures QuoteScan(src, start, j, QuoteDepth(src, p, j)) == QuoteScan(src, start, j + 1, QuoteDepth(src, p, j + 1))
  {
  }

  lemma {:induction false} QuoteScanOkFrom(src: string, start: int, p: nat, k: nat, e: int)
    requires p <= k <= |src|
    requires forall j :: p <= j < k ==> !EndsQuote(src, p, j)
    requires QuoteScan(src, start, k, QuoteDepth(src, p, k)) == Ok(e)
    ensures IsFirstQuote(src, p, e)
    decreases |src| - k
  {
    var d := QuoteDepth(src, p, k);
    assert QuoteDepth(src, p, k + 1) == (if src[k] == '{' then d + 1
      else if src[k] == '}' then (if d > 0 then d - 1 else 0) else d);
    if !(UnescapedQuote(src, k) && d == 0) {
      QuoteScanOkFrom(src, start, p, k + 1, e);
    }
  }

  /** `value_quotes` ends exactly at the first `"` that is not escaped and stands at brace count 0. */
  lemma QuoteScanFindsFirstQuote(src: string, start: int, p: nat, e: int)
    ensures QuoteScan(src, start, p, 0) == Ok(e) <==> IsFirstQuote(src, p, e)
  {
    if QuoteScan(src, start, p, 0) == Ok(e) {
      QuoteScanOkFrom(src, start, p, p, e);
    }
    if IsFirstQuote(src, p, e) {
      QuoteScanReaches(src, start, p, e);
    }
  }

  /** With no closing quote ahead, `value_quotes` throws when it reaches the last character,
      unless that character is a brace: then the source loops forever. */
  lemma QuoteScanUnterminated(src: string, start: int, p: nat)
    requires forall k :: p <= k < |src| ==> !EndsQuote(src, p, k)
    ensures QuoteScan(src, start, p, 0) ==
      if p < |src| && src[|src| - 1] != '{' && src[|src| - 1] != '}'
      then Fail(UnterminatedQuotes(Substring(src, start, |src|))) else Fail(Diverges)
  {
    if p < |src| {
      var j := |src| - 1;
      QuoteScanReaches(src, start, p, j);
      assert !EndsQuote(src, p, j);
    }
  }

  /** `value_quotes`: the text between the quotes. */
  function ValueQuotes(src: string, st: State): (r: Outcome<Parsed<string>>)
    requires 0 <= st.pos <= |src|
    ensures r.Ok? ==> st.pos < r.value.state.pos <= |src| && Stopped(src, r.value.state.pos)
    ensures r.Ok? ==> r.value.state == st.(pos := r.value.state.pos)
  {
    var p :- MatchEnd(src, st.pos, '"');
    var e :- QuoteScan(src, p, p, 0);
    var q :- MatchEnd(src, e, '"');
    Ok(Parsed(st.(pos := q), Substring(src, p, e)))
  }

  /** `ValueQuotes` after its opening quote, stated from the end of the scan. */
  lemma ValueQuotesSteps(src: string, st: State, p: int)
    requires 0 <= st.pos <= |src| && MatchEnd(src, st.pos, '"') == Ok(p)
    ensures QuoteScan(src, p, p, 0).Fail? ==> ValueQuotes(src, st) == Fail(QuoteScan(src, p, p, 0).error)
    ensures QuoteScan(src, p, p, 0).Ok? ==> var e := QuoteScan(src, p, p, 0).value;
      ValueQuotes(src, st) ==
        if MatchEnd(src, e, '"').Fail? then Fail(MatchEnd(src, e, '"').error)
        else Ok(Parsed(st.(pos := MatchEnd(src, e, '"').value), Substring(src, p, e)))
  {
  }

  /** `value_quotes` returns `src[p..e]` exactly when `e` is the first ending quote and the blanks
      after it can be skipped. */
  lemma ValueQuotesIsFirstQuote(src: string, st: State, p: nat, e: int)
    requires 0 <= st.pos <= |src|
    requires MatchEnd(src, st.pos, '"') == Ok(p)
    ensures (ValueQuotes(src, st).Ok? && p <= e <= |src| && ValueQuotes(src, st).value.value == src[p..e])
        <==> (IsFirstQuote(src, p, e) && SkipEnd(src, e + 1).Ok?)
  {
    QuoteScanFindsFirstQuote(src, p, p, e);
    match QuoteScan(src, p, p, 0)
    case Fail(_) =>
      assert ValueQuotes(src, st).Fail?;
    case Ok(e') =>
      QuoteScanFindsFirstQuote(src, p, p, e');
      FirstQuoteUnique(src, p, e, e');
      assert SkipEnd(src, e') == Ok(e');
      assert MatchEnd(src, e', '"') == SkipEnd(src, e' + 1);
  }

  lemma FirstQuoteUnique(src: string, p: nat, e: int, e': int)
    requires IsFirstQuote(src, p, e')
    ensures IsFirstQuote(src, p, e) <==> e == e'
  {
  }

  // ----- single_value and value (src/bibtex_js.js:147-173) -----

  /** `single_value`: a brace value, a quoted value, or a bare token that is a defined, non-empty
      macro or a number. */
  function SingleValue(src: string, st: State): (r: Outcome<Parsed<string>>)
    requires 0 <= st.pos <= |src|
    ensures r.Ok? ==> st.pos <= r.value.state.pos <= |src| && SameTables(st, r.value.state)
  {
    var (q1, brace) :- TryMatchAt(src, st.pos, '{');
    if brace then ValueBraces(src, st.(pos := q1))
    else
      var (q2, quote) :- TryMatchAt(src, q1, '"');
      if quote then ValueQuotes(src, st.(pos := q2))
      else
        var Parsed(st1, k) :- Key(src, st.(pos := q2));
        Resolve(src, st.pos, st1, k)
  }

  /** The bare-token branch of `single_value`: `k` is the upper-cased token just read. A macro
      whose text is empty counts as undefined, as the source tests the text for truth. */
  function Resolve(src: string, start: int, st1: State, k: string): (r: Outcome<Parsed<string>>)
    requires k == Upper(st1.rawKey)
    ensures r.Ok? ==> r.value.state == st1
  {
    UpperIdempotent(st1.rawKey);
    if Upper(k) in st1.strings && st1.strings[Upper(k)] != "" then Ok(Parsed(st1, st1.strings[k]))
    else if IsDigits(k) then Ok(Parsed(st1, k))
    else Fail(ValueExpected(Substring(src, start, |src|)))
  }

  /** The `#` loop of `value`, with the text joined so far. */
  function ValueTail(src: string, st: State, acc: string): (r: Outcome<Parsed<string>>)
    requires 0 <= st.pos <= |src|
    ensures r.Ok? ==> st.pos <= r.value.state.pos <= |src| && Stopped(src, r.value.state.pos)
    ensures r.Ok? ==> SameTables(st, r.value.state)
    decreases |src| - st.pos
  {
    var (q, more) :- TryMatchAt(src, st.pos, '#');
    if !more then Ok(Parsed(st.(pos := q), acc))
    else
      var p :- MatchEnd(src, q, '#');
      var Parsed(st2, v) :- SingleValue(src, st.(pos := p));
      ValueTail(src, st2, acc + v)
  }

  /** `value`: single values separated by `#`, joined with no separator. */
  function Value(src: string, st: State): (r: Outcome<Parsed<string>>)
    requires 0 <= st.pos <= |src|
    ensures r.Ok? ==> st.pos <= r.value.state.pos <= |src| && Stopped(src, r.value.state.pos)
    ensures r.Ok? ==> SameTables(st, r.value.state)
  {
    var Parsed(st1, v) :- SingleValue(src, st);
    ValueTail(src, st1, v)
  }

  /** Puts `a` in front of a parsed text. */
  function Prepend(a: string, o: Outcome<Parsed<string>>): Outcome<Parsed<string>>
  {
    match o
    case Ok(Parsed(st, v)) => Ok(Parsed(st, a + v))
    case Fail(e) => Fail(e)
  }

  /** The text joined so far only ever stands in front of what the rest of the loop adds. */
  lemma {:induction false} ValueTailPrefix(src: string, st: State, a: string, b: string)
    requires 0 <= st.pos <= |src|
    ensures ValueTail(src, st, a + b) == Prepend(a, ValueTail(src, st, b))
    decreases |src| - st.pos
  {
    match TryMatchAt(src, st.pos, '#')
    case Fail(_) =>
    case Ok((q, more)) =>
      if more {
        match MatchEnd(src, q, '#')
        case Fail(_) =>
        case Ok(p) =>
          match SingleValue(src, st.(pos := p))
          case Fail(_) =>
          case Ok(Parsed(st2, v)) =>
            assert a + b + v == a + (b + v);
            ValueTailPrefix(src, st2, a, b + v);
      }
  }

  /** `x # rest` is the text of `x` followed directly by the text of `rest`. */
  lemma ValueConcat(src: string, st: State, st1: State, v: string, q: int, p: int)
    requires 0 <= st.pos <= |src|
    requires SingleValue(src, st) == Ok(Parsed(st1, v))
    requires TryMatchAt(src, st1.pos, '#') == Ok((q, true))
    requires MatchEnd(src, q, '#') == Ok(p)
    ensures p <= |src|
    ensures Value(src, st) == Prepend(v, Value(src, st1.(pos := p)))
  {
    match SingleValue(src, st1.(pos := p))
    case Fail(_) =>
    case Ok(Parsed(st2, w)) =>
      ValueTailPrefix(src, st2, v, w);
  }

  /** A bare token `t` (a maximal run of key characters, not starting a brace or quote value) is
      replaced by the macro named by its upper-cased form when that macro is non-empty, kept when
      it is all digits, and rejected with "Value expected" otherwise. */
  lemma BareValue(src: string, st: State, q: int, e: int)
    requires 0 <= st.pos <= |src|
    requires SkipEnd(src, st.pos) == Ok(q)
    requires q <= e < |src| && !KeyChar(src[e]) && forall k :: q <= k < e ==> KeyChar(src[k])
    requires src[q] != '{' && src[q] != '"'
    ensures var t := src[q..e]; var st1 := st.(pos := e, rawKey := t);
      SingleValue(src, st) ==
        if Upper(t) in st.strings && st.strings[Upper(t)] != "" then Ok(Parsed(st1, st.strings[Upper(t)]))
        else if IsDigits(t) then Ok(Parsed(st1, t))
        else Fail(ValueExpected(Substring(src, st.pos, |src|)))
  {
    var t := src[q..e];
    var st1 := st.(pos := e, rawKey := t);
    BareValueReadsToken(src, st, q, e);
    UpperIdempotent(t);
    if IsDigits(t) {
      UpperDigits(t);
    }
    assert SingleValue(src, st) == Resolve(src, st.pos, st1, Upper(t));
  }

  lemma BareValueReadsToken(src: string, st: State, q: int, e: int)
    requires 0 <= st.pos <= |src|
    requires SkipEnd(src, st.pos) == Ok(q)
    requires q <= e < |src| && !KeyChar(src[e]) && forall k :: q <= k < e ==> KeyChar(src[k])
    requires src[q] != '{' && src[q] != '"'
    ensures SingleValue(src, st) == Resolve(src, st.pos, st.(pos := e, rawKey := src[q..e]), Upper(src[q..e]))
  {
    SkipEndFixedPoint(src, q);
    assert TryMatchAt(src, st.pos, '{') == Ok((q, false));
    assert TryMatchAt(src, q, '"') == Ok((q, false));
    KeyReads(src, st.(pos := q), e);
  }

  /** The month macros resolve whatever the case of the token: `jan`, `Jan` and `JAN` all give
      "January" while the table still holds the months. */
  lemma MonthsCaseInsensitive(src: string, st: State, q: int, e: int)
    requires 0 <= st.pos <= |src|
    requires SkipEnd(src, st.pos) == Ok(q)
    requires q <= e < |src| && !KeyChar(src[e]) && forall k :: q <= k < e ==> KeyChar(src[k])
    requires Upper(src[q..e]) in Months && st.strings == Months
    ensures SingleValue(src, st).Ok? && SingleValue(src, st).value.value == Months[Upper(src[q..e])]
  {
    MonthsNonEmpty(Upper(src[q..e]));
    assert KeyChar(src[q]);
    BareValue(src, st, q, e);
  }
}

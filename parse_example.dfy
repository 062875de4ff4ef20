/** A whole parse worked through: `@MISC{k, a=1,}`, an entry whose field list ends in a comma. */
module ParseExample {
  import opened Outcomes
  import opened JsText
  import opened Scanner
  import opened ParserState
  import opened ValueGrammar
  import opened EntryGrammar

  /** `src` is the text `@MISC{k, a=1,}`, character by character. */
  predicate IsExample(src: string)
  {
    |src| == 14 && src[0] == '@' && src[1] == 'M' && src[2] == 'I' && src[3] == 'S' && src[4] == 'C'
    && src[5] == '{' && src[6] == 'k' && src[7] == ',' && src[8] == ' ' && src[9] == 'a'
    && src[10] == '=' && src[11] == '1' && src[12] == ',' && src[13] == '}'
  }

  /** The key `MISC` after the `@`. */
  lemma ExampleKey(src: string)
    requires IsExample(src)
    ensures Key(src, Initial.(pos := 1)) == Ok(Parsed(Initial.(pos := 5, rawKey := src[1..5]), Upper(src[1..5])))
  {
    KeyReads(src, Initial.(pos := 1), 5);
  }

  /** `@MISC`: the `@`, then the key. */
  lemma ExampleDirective(src: string)
    requires IsExample(src)
    ensures Directive(src, Initial) == Ok(Parsed(Initial.(pos := 5, rawKey := src[1..5]), "@" + Upper(src[1..5])))
  {
    assert SkipEnd(src, 0) == Ok(0);
    assert SkipEnd(src, 1) == Ok(1);
    assert MatchEnd(src, 0, '@') == Ok(1);
    ExampleKey(src);
  }

  /** The directive, upper-cased once more by the driver, is `@MISC`. */
  lemma ExampleDirectiveName(src: string)
    requires IsExample(src)
    ensures Upper("@" + Upper(src[1..5])) == "@MISC"
  {
    var d := "@" + Upper(src[1..5]);
    assert d[0] == '@' && d[1] == 'M' && d[2] == 'I' && d[3] == 'S' && d[4] == 'C';
  }

  /** `@MISC` and its `{`: the directive is upper-cased and the cursor stops on the key. */
  lemma ExampleOpening(src: string)
    requires IsExample(src)
    ensures Opening(src, Initial) == Ok(Parsed(Initial.(pos := 6, rawKey := src[1..5]), "@MISC"))
  {
    ExampleDirective(src);
    ExampleDirectiveName(src);
    assert SkipEnd(src, 5) == Ok(5);
    assert SkipEnd(src, 6) == Ok(6);
    assert TryMatchAt(src, 5, '{') == Ok((5, true));
    assert MatchEnd(src, 5, '{') == Ok(6);
  }

  /** The bare number `1` passes through as it is. */
  lemma ExampleNumber(src: string, st: State)
    requires IsExample(src) && st.pos == 11 && "1" !in st.strings
    ensures SingleValue(src, st) == Ok(Parsed(st.(pos := 12, rawKey := src[11..12]), "1"))
  {
    assert SkipEnd(src, 11) == Ok(11);
    BareValue(src, st, 11, 12);
    assert src[11..12] == "1" && Upper("1") == "1" && IsDigits("1");
  }

  /** `=1`: the equals sign, then the value. */
  lemma ExampleEqualsValue(src: string, st: State)
    requires IsExample(src) && st.pos == 10 && "1" !in st.strings
    ensures EqualsValue(src, st) == Ok(Parsed(st.(pos := 12, rawKey := src[11..12]), "1"))
  {
    assert SkipEnd(src, 10) == Ok(10);
    assert SkipEnd(src, 11) == Ok(11);
    assert TryMatchAt(src, 10, '=') == Ok((10, true));
    assert MatchEnd(src, 10, '=') == Ok(11);
    ExampleNumber(src, st.(pos := 11));
    assert SkipEnd(src, 12) == Ok(12);
    assert TryMatchAt(src, 12, '#') == Ok((12, false));
  }

  /** `a=1`: the field name is upper-cased and the bare number passes through. */
  lemma ExampleField(src: string, st: State)
    requires IsExample(src) && st.pos == 9 && "1" !in st.strings
    ensures KeyEqualsValue(src, st) == Ok(Parsed(st.(pos := 12, rawKey := src[11..12]), ("A", "1")))
  {
    KeyReads(src, st, 10);
    assert src[9..10] == "a" && Upper("a") == "A";
    ExampleEqualsValue(src, st.(pos := 10, rawKey := src[9..10]));
  }

  /** `a=1,` before `}`: one pair written, the trailing comma ends the list without error. */
  lemma ExampleFieldList(src: string, st: State)
    requires IsExample(src) && st.pos == 9 && "1" !in st.strings && st.currentEntry in st.entries
    ensures KeyValueList(src, st) == Ok(Parsed(st.(pos := 13, rawKey := src[11..12],
      entries := st.entries[st.currentEntry := st.entries[st.currentEntry]["A" := "1"]]), [("A", "1")]))
  {
    ExampleField(src, st);
    var st1 := Put(st.(pos := 12, rawKey := src[11..12]), ("A", "1"));
    assert SkipEnd(src, 12) == Ok(12);
    assert SkipEnd(src, 13) == Ok(13);
    TrailingComma(src, st1, [("A", "1")], 12, 13, 13);
  }

  /** After the key `k`: a fresh entry under `K`, the `,` and the field list. */
  lemma ExampleOpenEntry(src: string, st: State)
    requires IsExample(src) && st == Initial.(pos := 7, rawKey := "k")
    ensures OpenEntry(src, st, "K", "@MISC") ==
      Ok(Parsed(Initial.(pos := 13, rawKey := src[11..12], currentEntry := "K",
        entries := map["K" := BaseFields("k", "@MISC")["A" := "1"]]), [("A", "1")]))
  {
    var st2 := st.(currentEntry := "K", entries := map["K" := BaseFields("k", "@MISC")]);
    assert SkipEnd(src, 7) == Ok(7);
    assert SkipEnd(src, 8) == Ok(9);
    assert MatchEnd(src, 7, ',') == Ok(9);
    assert "1" !in Months;
    ExampleFieldList(src, st2.(pos := 9));
  }

  /** `k, a=1,`: a fresh entry under `K` with the key as written, the directive and field `A`. */
  lemma ExampleEntryBody(src: string)
    requires IsExample(src)
    ensures EntryBody(src, Initial.(pos := 6, rawKey := src[1..5]), "@MISC") ==
      Ok(Parsed(Initial.(pos := 13, rawKey := src[11..12], currentEntry := "K",
        entries := map["K" := BaseFields("k", "@MISC")["A" := "1"]]), (7, [("A", "1")])))
  {
    var st := Initial.(pos := 6, rawKey := src[1..5]);
    KeyReads(src, st, 7);
    assert src[6..7] == "k" && Upper("k") == "K";
    ExampleOpenEntry(src, st.(pos := 7, rawKey := "k"));
  }

  /** The closing `}`: BIBTEXRAW is the whole text and the cursor rests on the `}`, as no `@` follows. */
  lemma ExampleClosing(src: string, st: State)
    requires IsExample(src) && st.pos == 13 && st.currentEntry in st.entries
    ensures Finish(src, 0, st) == Ok(Parsed(st.(pos := 13,
      entries := st.entries[st.currentEntry := st.entries[st.currentEntry]["BIBTEXRAW" := src]]), (0, 14)))
  {
    assert SkipEnd(src, 13) == Ok(13);
    assert SkipEnd(src, 14) == Ok(14);
    assert Closing(src, 13) == Ok(14);
    assert Substring(src, 0, 14) == src;
    assert Resume(src, 14) == 13 by {
      assert src[14..] == [];
    }
  }

  /** The parser state after the one pass of the loop. */
  function Closed(src: string): State
    requires IsExample(src)
  {
    Initial.(pos := 13, rawKey := src[11..12], currentEntry := "K",
      entries := map["K" := BaseFields("k", "@MISC")["A" := "1"]["BIBTEXRAW" := src]])
  }

  /** The parser state after the entry body, before the closer. */
  function Bodied(src: string): State
    requires IsExample(src)
  {
    Initial.(pos := 13, rawKey := src[11..12], currentEntry := "K",
      entries := map["K" := BaseFields("k", "@MISC")["A" := "1"]])
  }

  /** The dispatch sends `@MISC` to the entry body. */
  lemma ExampleBody(src: string)
    requires IsExample(src)
    ensures Body(src, Initial.(pos := 6, rawKey := src[1..5]), "@MISC") == Ok(Bodied(src))
  {
    ExampleEntryBody(src);
  }

  /** The end of the pass writes BIBTEXRAW onto the entry `K` just parsed. */
  lemma ExampleFinish(src: string)
    requires IsExample(src)
    ensures Finish(src, 0, Bodied(src)) == Ok(Parsed(Closed(src), (0, 14)))
  {
    var b := Bodied(src);
    ExampleClosing(src, b);
    assert b.entries["K" := b.entries["K"]["BIBTEXRAW" := src]] == Closed(src).entries;
  }

  /** The one pass of the `bibtex` loop. */
  lemma ExamplePass(src: string)
    requires IsExample(src)
    ensures Item(src, Initial) == Ok(Parsed(Closed(src), (0, 14)))
  {
    ExampleOpening(src);
    ExampleBody(src);
    ExampleFinish(src);
    ItemSteps(src, Initial);
  }

  /** The loop makes its one pass and stops on the closer, as no `@` follows. */
  lemma ExampleLoop(src: string)
    requires IsExample(src)
    ensures BibtexLoop(src, Initial) == Ok(Closed(src))
  {
    ExamplePass(src);
    assert SkipEnd(src, 0) == Ok(0);
    assert TryMatchAt(src, 0, '@') == Ok((0, true));
    LoopStep(src, Initial, 0, Closed(src), (0, 14));
    assert SkipEnd(src, 13) == Ok(13);
    LoopStops(src, Closed(src), 13);
  }

  /** `@MISC{k, a=1,}` parses to one entry, filed under the upper-cased key `K`, with field `A`
      equal to "1", the synthesized fields and no BIBTEXTYPE. */
  lemma TrailingCommaParses(src: string)
    requires IsExample(src)
    ensures Parse(src) == Ok(map["K" := map["BIBTEXKEY" := "k", "BIBTEXTYPEKEY" := "@MISC", "A" := "1", "BIBTEXRAW" := src]])
  {
    ExampleLoop(src);
    assert BaseFields("k", "@MISC")["A" := "1"]["BIBTEXRAW" := src]
      == map["BIBTEXKEY" := "k", "BIBTEXTYPEKEY" := "@MISC", "A" := "1", "BIBTEXRAW" := src];
  }
}

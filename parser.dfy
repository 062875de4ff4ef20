/** The `BibtexParser` object (src/bibtex_js.js:27-291) with its fields updated in place. Every
    method is proved to do to the abstract state `St()`, when it succeeds, what its rule in
    `Scanner`, `ValueGrammar` or `EntryGrammar` does. That rule has the same name, or is
    `BaseFields`, `Opening`, `Body`, `Closing` or `Finish` for the pieces cut out of `entry_body`
    and `bibtex`. */
module Parser {
  import opened Outcomes
  import opened JsText
  import opened Scanner
  import opened ParserState
  import opened ValueGrammar
  import opened EntryGrammar

  class BibtexParser {
    var input: string
    var pos: int
    var entries: Table
    var strings: Macros
    /** Set to "" when the object is made and never read or written afterwards, so no method
        can change it. */
    const currentKey: string := ""
    var rawCurrentKey: string
    var currentEntry: string

    /** The fields the grammar works on, as one value. */
    function St(): State
      reads this
    {
      State(pos, entries, strings, currentEntry, rawCurrentKey)
    }

    /** `new BibtexParser()`: cursor at 0, no entries, the twelve month macros. */
    constructor ()
      ensures St() == Initial && input == "" && currentKey == ""
    {
      pos := 0;
      input := "";
      entries := map[];
      strings := Months;
      rawCurrentKey := "";
      currentEntry := "";
    }

    /** `setInput(t)`: replaces the text and nothing else; the cursor stays where it was. */
    method SetInput(t: string)
      modifies this
      ensures input == t && St() == old(St())
    {
      input := t;
    }

    /** `getEntries()`. */
    method GetEntries() returns (r: Table)
      ensures r == entries
    {
      r := entries;
    }

    // ----- scanner (src/bibtex_js.js:71-101) -----

    /** `skipWhitespace`: blanks, then a `%` comment up to its newline and blanks again. A comment
        that reaches the end of the input makes the source loop forever: `Fail(Diverges)`. */
    method SkipWhitespace() returns (r: Outcome<()>)
      modifies this
      ensures AtPos(r, pos) == SkipEnd(input, old(pos))
      ensures input == old(input) && St() == old(St()).(pos := pos)
      decreases |input| - pos
    {
      while 0 <= pos < |input| && IsWhitespace(input[pos])
        invariant SkipEnd(input, pos) == SkipEnd(input, old(pos)) && old(pos) <= pos
        invariant input == old(input) && St() == old(St()).(pos := pos)
        decreases |input| - pos
      {
        pos := pos + 1;
      }
      if At(input, pos) == Some('%') {
        while pos < |input| && input[pos] != '\n'
          invariant old(pos) <= pos <= |input|
          invariant SkipComment(input, pos) == SkipEnd(input, old(pos))
          invariant input == old(input) && St() == old(St()).(pos := pos)
          decreases |input| - pos
        {
          pos := pos + 1;
        }
        if pos == |input| {
          return Fail(Diverges);
        }
        r := SkipWhitespace();
      } else {
        r := Ok(());
      }
    }

    /** `match(s)` for a one-character token `c`. */
    method Match(c: char) returns (r: Outcome<()>)
      modifies this
      ensures AtPos(r, pos) == MatchEnd(input, old(pos), c)
      ensures input == old(input) && St() == old(St()).(pos := pos)
    {
      var s := SkipWhitespace();
      if s.Fail? {
        return Fail(s.error);
      }
      TokenAtIsSubstring(input, pos, c);
      if Substring(input, pos, pos + 1) == [c] {
        pos := pos + 1;
      } else {
        return Fail(TokenMismatch([c], Substring(input, pos, |input|)));
      }
      r := SkipWhitespace();
    }

    /** `tryMatch(s)` for a one-character token `c`: skips the blanks and looks. */
    method TryMatch(c: char) returns (r: Outcome<bool>)
      modifies this
      ensures WithPos(r, pos) == TryMatchAt(input, old(pos), c)
      ensures input == old(input) && St() == old(St()).(pos := pos)
    {
      var s := SkipWhitespace();
      if s.Fail? {
        return Fail(s.error);
      }
      TokenAtIsSubstring(input, pos, c);
      r := Ok(Substring(input, pos, pos + 1) == [c]);
    }

    // ----- values (src/bibtex_js.js:103-189) -----

    /** `value_braces`: the text up to the `}` that closes the opening `{`. */
    method ValueBraces() returns (r: Outcome<string>)
      requires 0 <= pos <= |input|
      modifies this
      ensures input == old(input)
      ensures Attach(r, St()) == ValueGrammar.ValueBraces(input, old(St()))
    {
      var bracecount: nat := 0;
      var m := Match('{');
      if m.Fail? {
        return Fail(m.error);
      }
      var start := pos;
      while pos < |input|
        invariant 0 <= start <= pos <= |input|
        invariant BraceScan(input, start, 0) == BraceScan(input, pos, bracecount)
        invariant input == old(input) && St() == old(St()).(pos := pos)
        decreases |input| - pos
      {
        if input[pos] == '}' && At(input, pos - 1) != Some('\\') {
          if bracecount > 0 {
            bracecount := bracecount - 1;
          } else {
            var end := pos;
            m := Match('}');
            if m.Fail? {
              return Fail(m.error);
            }
            return Ok(Substring(input, start, end));
          }
        } else if input[pos] == '{' {
          bracecount := bracecount + 1;
        } else if pos == |input| - 1 {
          return Fail(UnterminatedBraces);
        }
        pos := pos + 1;
      }
      r := Fail(Diverges);
    }

    /** `value_quotes`: the text up to the first `"` outside braces. */
    method ValueQuotes() returns (r: Outcome<string>)
      requires 0 <= pos <= |input|
      modifies this
      ensures input == old(input)
      ensures Attach(r, St()) == ValueGrammar.ValueQuotes(input, old(St()))
    {
      var bracecount: nat := 0;
      var m := Match('"');
      if m.Fail? {
        return Fail(m.error);
      }
      var start := pos;
      var text := input;
      ValueQuotesSteps(text, old(St()), start);
      while pos < |text|
        invariant 0 <= start <= pos <= |text|
        invariant QuoteScan(text, start, start, 0) == QuoteScan(text, start, pos, bracecount)
        invariant input == text == old(input) && St() == old(St()).(pos := pos)
        modifies this`pos
        decreases |text| - pos
      {
        ghost var depth := bracecount;
        if text[pos] == '"' && At(text, pos - 1) != Some('\\') && bracecount == 0 {
          break;
        } else if text[pos] == '{' {
          bracecount := bracecount + 1;
        } else if text[pos] == '}' {
          if bracecount > 0 {
            bracecount := bracecount - 1;
          }
        } else if pos == |text| - 1 {
          assert QuoteScan(text, start, start, 0) == Fail(UnterminatedQuotes(Substring(text, start, |text|)));
          return Fail(UnterminatedQuotes(Substring(text, start, |text|)));
        }
        QuoteScanNext(text, start, pos, depth, bracecount);
        pos := pos + 1;
      }
      if pos == |text| {
        return Fail(Diverges);
      }
      // the loop stopped at the closing quote
      var end := pos;
      assert QuoteScan(text, start, start, 0) == Ok(end);
      m := Match('"');
      if m.Fail? {
        return Fail(m.error);
      }
      r := Ok(Substring(text, start, end));
    }

    /** `key`: the run of key characters, kept raw in `rawCurrentKey`, returned upper-cased. */
    method Key() returns (r: Outcome<string>)
      requires 0 <= pos <= |input|
      modifies this
      ensures input == old(input)
      ensures Attach(r, St()) == ValueGrammar.Key(input, old(St()))
    {
      var start := pos;
      while true
        invariant start <= pos <= |input|
        invariant KeyScan(input, start) == KeyScan(input, pos)
        invariant input == old(input) && St() == old(St()).(pos := pos)
        decreases |input| - pos
      {
        if pos == |input| {
          assert KeyScan(input, start) == Fail(RunawayKey);
          return Fail(RunawayKey);
        }
        if KeyChar(input[pos]) {
          pos := pos + 1;
        } else {
          assert KeyScan(input, start) == Ok(pos);
          rawCurrentKey := Substring(input, start, pos);
          return Ok(Upper(rawCurrentKey));
        }
      }
    }

    /** `single_value`: a brace value, a quoted value, or a defined macro or a number. */
    method SingleValue() returns (r: Outcome<string>)
      requires 0 <= pos <= |input|
      modifies this
      ensures input == old(input)
      ensures Attach(r, St()) == ValueGrammar.SingleValue(input, old(St()))
    {
      var start := pos;
      var brace := TryMatch('{');
      if brace.Fail? {
        return Fail(brace.error);
      }
      if brace.value {
        r := ValueBraces();
        return;
      }
      var quote := TryMatch('"');
      if quote.Fail? {
        return Fail(quote.error);
      }
      if quote.value {
        r := ValueQuotes();
        return;
      }
      var k := Key();
      if k.Fail? {
        return Fail(k.error);
      }
      UpperIdempotent(rawCurrentKey);
      if Upper(k.value) in strings && strings[Upper(k.value)] != "" {
        r := Ok(strings[k.value]);
      } else if IsDigits(k.value) {
        r := Ok(k.value);
      } else {
        r := Fail(ValueExpected(Substring(input, start, |input|)));
      }
    }

    /** `value`: single values joined across `#`. */
    method Value() returns (r: Outcome<string>)
      requires 0 <= pos <= |input|
      modifies this
      ensures input == old(input)
      ensures Attach(r, St()) == ValueGrammar.Value(input, old(St()))
    {
      var first := SingleValue();
      if first.Fail? {
        return Fail(first.error);
      }
      var joined := first.value;
      while true
        invariant 0 <= pos <= |input| && input == old(input)
        invariant ValueTail(input, St(), joined) == ValueGrammar.Value(input, old(St()))
        decreases |input| - pos
      {
        var more := TryMatch('#');
        if more.Fail? {
          return Fail(more.error);
        }
        if !more.value {
          return Ok(joined);
        }
        var m := Match('#');
        if m.Fail? {
          return Fail(m.error);
        }
        var next := SingleValue();
        if next.Fail? {
          return Fail(next.error);
        }
        joined := joined + next.value;
      }
    }

    // ----- fields and entries (src/bibtex_js.js:192-233) -----

    /** `key_equals_value`: an upper-cased key, `=` and a value. */
    method KeyEqualsValue() returns (r: Outcome<Pair>)
      requires 0 <= pos <= |input|
      modifies this
      ensures input == old(input)
      ensures Attach(r, St()) == EntryGrammar.KeyEqualsValue(input, old(St()))
    {
      var key := Key();
      if key.Fail? {
        return Fail(key.error);
      }
      ghost var afterKey := St();
      var equals := TryMatch('=');
      if equals.Fail? {
        return Fail(equals.error);
      }
      if equals.value {
        var m := Match('=');
        if m.Fail? {
          return Fail(m.error);
        }
        var val := Value();
        if val.Fail? {
          return Fail(val.error);
        }
        assert EqualsValue(input, afterKey) == Attach(val, St());
        r := Ok((key.value, val.value));
      } else {
        r := Fail(EqualsExpected(Substring(input, pos, |input|)));
      }
    }

    /** `key_value_list`: the pairs, written into the current entry in order, up to a missing
        `,` or a `,` followed by `}` or `)`. */
    method KeyValueList() returns (r: Outcome<()>)
      requires 0 <= pos <= |input| && currentEntry in entries
      modifies this
      ensures input == old(input)
      ensures Settle(r, St()) == Final(EntryGrammar.KeyValueList(input, old(St())))
    {
      var kv := KeyEqualsValue();
      if kv.Fail? {
        return Fail(kv.error);
      }
      entries := entries[currentEntry := entries[currentEntry][kv.value.0 := kv.value.1]];
      ghost var pairs := [kv.value];
      while true
        invariant 0 <= pos <= |input| && input == old(input) && currentEntry in entries
        invariant KeyValueTail(input, St(), pairs) == EntryGrammar.KeyValueList(input, old(St()))
        decreases |input| - pos
      {
        ghost var before := St();
        var comma := TryMatch(',');
        if comma.Fail? {
          return Fail(comma.error);
        }
        if !comma.value {
          return Ok(());
        }
        var m := Match(',');
        if m.Fail? {
          return Fail(m.error);
        }
        ghost var afterComma := pos;
        var closed := TryMatch('}');
        if closed.Fail? {
          return Fail(closed.error);
        }
        if !closed.value {
          closed := TryMatch(')');
          if closed.Fail? {
            return Fail(closed.error);
          }
        }
        assert ListClosed(input, afterComma) == Ok((pos, closed.value));
        if closed.value {
          return Ok(());
        }
        kv := KeyEqualsValue();
        if kv.Fail? {
          return Fail(kv.error);
        }
        assert ListStep(input, before) == Ok(Parsed(St(), Some(kv.value)));
        entries := entries[currentEntry := entries[currentEntry][kv.value.0 := kv.value.1]];
        pairs := pairs + [kv.value];
      }
    }

    /** `entry_body(directive)`: the citation key becomes `currentEntry`, a fresh field map with
        the synthesized fields replaces whatever was stored under it, then `,` and the fields. */
    method EntryBody(directive: string) returns (r: Outcome<()>)
      requires 0 <= pos <= |input|
      modifies this
      ensures input == old(input)
      ensures Settle(r, St()) == Final(EntryGrammar.EntryBody(input, old(St()), directive))
    {
      EntryGrammar.EntryBodySteps(input, St(), directive);
      var key := Key();
      if key.Fail? {
        return Fail(key.error);
      }
      ghost var afterKey := St();
      ghost var begun := afterKey.(currentEntry := key.value,
        entries := afterKey.entries[key.value := BaseFields(afterKey.rawKey, directive)]);
      EntryGrammar.OpenEntrySteps(input, afterKey, key.value, directive);
      currentEntry := key.value;
      NewEntry(directive);
      assert St() == begun;
      var m := Match(',');
      if m.Fail? {
        return Fail(m.error);
      }
      assert St() == begun.(pos := pos);
      r := KeyValueList();
    }

    /** The first half of `entry_body` after the key: a fresh object under `currentEntry`, filled
        with the key as written, the type of the four known directives and the directive. */
    method NewEntry(directive: string)
      modifies this`entries
      ensures entries == old(entries)[currentEntry := BaseFields(rawCurrentKey, directive)]
    {
      ghost var others := entries;
      entries := entries[currentEntry := map[]];
      entries := entries[currentEntry := entries[currentEntry]["BIBTEXKEY" := rawCurrentKey]];
      Rewrite(others, others[currentEntry := map[]], currentEntry, map[], map["BIBTEXKEY" := rawCurrentKey]);
      if directive == "@INCOLLECTION" {
        entries := entries[currentEntry := entries[currentEntry]["BIBTEXTYPE" := "book chapter"]];
      } else if directive == "@INPROCEEDINGS" {
        entries := entries[currentEntry := entries[currentEntry]["BIBTEXTYPE" := "conference, workshop"]];
      } else if directive == "@ARTICLE" {
        entries := entries[currentEntry := entries[currentEntry]["BIBTEXTYPE" := "journal"]];
      } else if directive == "@TECHREPORT" {
        entries := entries[currentEntry := entries[currentEntry]["BIBTEXTYPE" := "technical report"]];
      }
      UpdateTwice(others, currentEntry, map["BIBTEXKEY" := rawCurrentKey]);
      ghost var fields := entries[currentEntry];
      assert entries == others[currentEntry := fields];
      entries := entries[currentEntry := entries[currentEntry]["BIBTEXTYPEKEY" := directive]];
      UpdateTwice(others, currentEntry, fields);
    }

    // ----- directives (src/bibtex_js.js:235-255) -----

    /** `directive`: `@` and a key, returned as `@` followed by the upper-cased key. */
    method Directive() returns (r: Outcome<string>)
      requires 0 <= pos <= |input|
      modifies this
      ensures input == old(input)
      ensures Attach(r, St()) == EntryGrammar.Directive(input, old(St()))
    {
      var m := Match('@');
      if m.Fail? {
        return Fail(m.error);
      }
      var key := Key();
      if key.Fail? {
        return Fail(key.error);
      }
      r := Ok("@" + key.value);
    }

    /** `string`: a `name = value` pair stored as the macro `name`, upper-cased. */
    method StringDirective() returns (r: Outcome<()>)
      requires 0 <= pos <= |input|
      modifies this
      ensures input == old(input)
      ensures Settle(r, St()) == Final(EntryGrammar.StringDirective(input, old(St())))
    {
      var kv := KeyEqualsValue();
      if kv.Fail? {
        return Fail(kv.error);
      }
      strings := strings[Upper(kv.value.0) := kv.value.1];
      r := Ok(());
    }

    /** `preamble`: a value, read and dropped. */
    method Preamble() returns (r: Outcome<()>)
      requires 0 <= pos <= |input|
      modifies this
      ensures input == old(input)
      ensures Settle(r, St()) == EntryGrammar.Preamble(input, old(St()))
    {
      var v := Value();
      if v.Fail? {
        return Fail(v.error);
      }
      r := Ok(());
    }

    /** `comment`: the cursor jumps to the next `}`, or to -1. */
    method Comment()
      modifies this
      ensures input == old(input)
      ensures St() == EntryGrammar.Comment(input, old(St()))
    {
      pos := IndexOf(input, '}', pos);
    }

    // ----- the driver (src/bibtex_js.js:257-290) -----

    /** The dispatch of `bibtex` on the upper-cased directive `d`. */
    method DirectiveBody(d: string) returns (r: Outcome<()>)
      requires 0 <= pos <= |input|
      modifies this
      ensures input == old(input)
      ensures Settle(r, St()) == Body(input, old(St()), d)
    {
      if d == "@STRING" {
        r := StringDirective();
      } else if d == "@PREAMBLE" {
        r := Preamble();
      } else if d == "@COMMENT" {
        Comment();
        r := Ok(());
      } else {
        r := EntryBody(d);
      }
    }

    /** The start of a pass of `bibtex`: the directive, upper-cased, and `{`, or else `(`. */
    method OpenDirective() returns (r: Outcome<string>)
      requires 0 <= pos <= |input|
      modifies this
      ensures input == old(input)
      ensures Attach(r, St()) == Opening(input, old(St()))
    {
      var d := Directive();
      if d.Fail? {
        return Fail(d.error);
      }
      var directive := Upper(d.value);
      var brace := TryMatch('{');
      if brace.Fail? {
        return Fail(brace.error);
      }
      var m;
      if brace.value {
        m := Match('{');
      } else {
        m := Match('(');
      }
      if m.Fail? {
        return Fail(m.error);
      }
      r := Ok(directive);
    }

    /** The closer of a directive, `}` or else `)`, and an optional `,` after it. */
    method CloseDelimiter() returns (r: Outcome<()>)
      requires Stopped(input, pos)
      modifies this
      ensures input == old(input) && St() == old(St()).(pos := pos)
      ensures AtPos(r, pos) == Closing(input, old(pos))
    {
      var close := TryMatch('}');
      if close.Fail? {
        return Fail(close.error);
      }
      var m;
      if close.value {
        m := Match('}');
      } else {
        m := Match(')');
      }
      if m.Fail? {
        return Fail(m.error);
      }
      var comma := TryMatch(',');
      if comma.Fail? {
        return Fail(comma.error);
      }
      if comma.value {
        r := Match(',');
      } else {
        r := Ok(());
      }
    }

    /** The end of a pass of `bibtex` that began at `start`: the closer, the jump to the next `@`
        and BIBTEXRAW, the raw text from `start` through the closer, on the current entry. */
    method CloseDirective(start: int) returns (r: Outcome<(int, int)>)
      requires 0 <= start && (pos == -1 || start < pos) && Stopped(input, pos)
      modifies this
      ensures input == old(input)
      ensures Attach(r, St()) == Finish(input, start, old(St()))
    {
      ghost var st0 := St();
      var end := pos + 1;
      var c := CloseDelimiter();
      if c.Fail? {
        assert Closing(input, st0.pos) == Fail(c.error);
        return Fail(c.error);
      }
      FinishSteps(input, start, st0, pos);
      var raw := Substring(input, start, end);
      assert Substring(input, end, |input|) == input[end..];
      pos := end + IndexOf(Substring(input, end, |input|), '@', 0);
      assert pos == Resume(input, end);
      if currentEntry !in entries {
        return Fail(UndefinedEntry);
      }
      entries := entries[currentEntry := entries[currentEntry]["BIBTEXRAW" := raw]];
      r := Ok((start, end));
    }

    /** `bibtex`: directives, as long as `tryMatch("@")` finds one. */
    method Bibtex() returns (r: Outcome<()>)
      modifies this
      ensures input == old(input)
      ensures Settle(r, St()) == BibtexLoop(input, old(St()))
    {
      while true
        invariant input == old(input)
        invariant BibtexLoop(input, St()) == BibtexLoop(input, old(St()))
        decreases |input| - pos
      {
        ghost var before := St();
        var more := TryMatch('@');
        if more.Fail? {
          return Fail(more.error);
        }
        if !more.value {
          return Ok(());
        }
        ghost var at := St();
        ItemSteps(input, at);
        var start := pos;
        var d := OpenDirective();
        if d.Fail? {
          return Fail(d.error);
        }
        var body := DirectiveBody(d.value);
        if body.Fail? {
          return Fail(body.error);
        }
        var span := CloseDirective(start);
        if span.Fail? {
          return Fail(span.error);
        }
        LoopStep(input, before, at.pos, St(), span.value);
      }
    }
  }
}

/** The directive and entry grammar of `BibtexParser` and the `bibtex` driver loop
    (src/bibtex_js.js:192-290). */
module EntryGrammar {
  import opened Outcomes
  import opened JsText
  import opened Scanner
  import opened ParserState
  import opened ValueGrammar

  type Pair = (string, string)

  // ----- key_equals_value (src/bibtex_js.js:192-201) -----

  /** The part of `key_equals_value` after the key: `=` and a value. */
  function EqualsValue(src: string, st: State): (r: Outcome<Parsed<string>>)
    requires 0 <= st.pos <= |src|
    ensures r.Ok? ==> st.pos < r.value.state.pos <= |src| && Stopped(src, r.value.state.pos)
    ensures r.Ok? ==> SameTables(st, r.value.state)
  {
    var t :- TryMatchAt(src, st.pos, '=');
    if !t.1 then Fail(EqualsExpected(Substring(src, t.0, |src|)))
    else
      var p :- MatchEnd(src, t.0, '=');
      Value(src, st.(pos := p))
  }

  /** `key_equals_value`: an upper-cased key, `=`, and a value. */
  function KeyEqualsValue(src: string, st: State): (r: Outcome<Parsed<Pair>>)
    requires 0 <= st.pos <= |src|
    ensures r.Ok? ==> st.pos < r.value.state.pos <= |src| && Stopped(src, r.value.state.pos)
    ensures r.Ok? ==> SameTables(st, r.value.state)
  {
    var kr :- Key(src, st);
    var vr :- EqualsValue(src, kr.state);
    Ok(Parsed(vr.state, (kr.value, vr.value)))
  }

  /** A key not followed by `=` is reported with the text where the `=` was expected. */
  lemma EqualsMissing(src: string, st: State, st1: State, k: string, q: int)
    requires 0 <= st.pos <= |src|
    requires Key(src, st) == Ok(Parsed(st1, k))
    requires SkipEnd(src, st1.pos) == Ok(q) && (q == |src| || src[q] != '=')
    ensures KeyEqualsValue(src, st) == Fail(EqualsExpected(Substring(src, q, |src|)))
  {
    assert TryMatchAt(src, st1.pos, '=') == Ok((q, false));
    assert EqualsValue(src, st1) == Fail(EqualsExpected(Substring(src, q, |src|)));
  }

  // ----- key_value_list (src/bibtex_js.js:203-215) -----

  /** `entries[currentEntry][k] = v`. */
  function Put(st: State, kv: Pair): (r: State)
    requires st.currentEntry in st.entries
    ensures r.currentEntry in r.entries
  {
    st.(entries := st.entries[st.currentEntry := st.entries[st.currentEntry][kv.0 := kv.1]])
  }

  /** Writing an entry twice keeps only the second write. */
  lemma UpdateTwice(m: Table, k: string, a: Fields)
    ensures forall b {:trigger m[k := b]} :: m[k := a][k := b] == m[k := b]
  {
  }

  /** The same, for one table `m2` that already holds the first write. */
  lemma Rewrite(m: Table, m2: Table, k: string, a: Fields, b: Fields)
    requires m2 == m[k := a]
    ensures m2[k := b] == m[k := b]
  {
    UpdateTwice(m, k, a);
  }

  /** The fields after writing `pairs` into `m` one after the other. */
  function Assign(m: Fields, pairs: seq<Pair>): Fields
    decreases |pairs|
  {
    if pairs == [] then m else Assign(m[pairs[0].0 := pairs[0].1], pairs[1..])
  }

  /** Of several pairs with the same field name, the last one written wins. */
  lemma {:induction false} AssignLastWins(m: Fields, pairs: seq<Pair>, i: nat)
    requires i < |pairs|
    requires forall j :: i < j < |pairs| ==> pairs[j].0 != pairs[i].0
    ensures pairs[i].0 in Assign(m, pairs) && Assign(m, pairs)[pairs[i].0] == pairs[i].1
    decreases |pairs|
  {
    if i == 0 {
      AssignUntouched(m[pairs[0].0 := pairs[0].1], pairs[1..], pairs[0].0);
    } else {
      AssignLastWins(m[pairs[0].0 := pairs[0].1], pairs[1..], i - 1);
    }
  }

  /** A field that no pair names keeps what it had, or stays absent. */
  lemma {:induction false} AssignUntouched(m: Fields, pairs: seq<Pair>, k: string)
    requires forall j :: 0 <= j < |pairs| ==> pairs[j].0 != k
    ensures k in Assign(m, pairs) <==> k in m
    ensures k in m ==> Assign(m, pairs)[k] == m[k]
    decreases |pairs|
  {
    if pairs != [] {
      AssignUntouched(m[pairs[0].0 := pairs[0].1], pairs[1..], k);
    }
  }

  /** `tryMatch("}") || tryMatch(")")` after the `,` of a field list. */
  function ListClosed(src: string, p: int): (r: Outcome<(int, bool)>)
    requires 0 <= p <= |src|
    ensures r.Ok? ==> p <= r.value.0 <= |src| && Stopped(src, r.value.0)
    ensures r.Ok? ==> (r.value.1 <==> r.value.0 < |src| && (src[r.value.0] == '}' || src[r.value.0] == ')'))
  {
    var t :- TryMatchAt(src, p, '}');
    assert t.1 <==> t.0 < |src| && src[t.0] == '}' by {
      if t.0 < |src| { assert src[t.0..t.0 + 1][0] == src[t.0]; }
    }
    if t.1 then Ok(t)
    else
      var u :- TryMatchAt(src, t.0, ')');
      assert u.1 <==> u.0 < |src| && src[u.0] == ')' by {
        if u.0 < |src| { assert src[u.0..u.0 + 1][0] == src[u.0]; }
      }
      assert u.0 == t.0 by { SkipEndIdempotent(src, p); }
      Ok(u)
  }

  /** One pass of the `key_value_list` loop: `None` where it breaks, else the pair it read. */
  function ListStep(src: string, st: State): (r: Outcome<Parsed<Option<Pair>>>)
    requires 0 <= st.pos <= |src|
    ensures r.Ok? ==> st.pos <= r.value.state.pos <= |src| && Stopped(src, r.value.state.pos)
    ensures r.Ok? && r.value.value.Some? ==> st.pos < r.value.state.pos
    ensures r.Ok? ==> SameTables(st, r.value.state)
    ensures r.Ok? && r.value.value.None? ==> r.value.state == st.(pos := r.value.state.pos)
  {
    var t :- TryMatchAt(src, st.pos, ',');
    if !t.1 then Ok(Parsed(st.(pos := t.0), None))
    else
      var p :- MatchEnd(src, t.0, ',');
      var c :- ListClosed(src, p);
      if c.1 then Ok(Parsed(st.(pos := c.0), None))
      else
        var kr :- KeyEqualsValue(src, st.(pos := c.0));
        Ok(Parsed(kr.state, Some(kr.value)))
  }

  /** The loop of `key_value_list`; `pairs` are the pairs written so far. A `,` followed by `}`
      or `)` ends the list without error. */
  function KeyValueTail(src: string, st: State, pairs: seq<Pair>): (r: Outcome<Parsed<seq<Pair>>>)
    requires 0 <= st.pos <= |src| && st.currentEntry in st.entries
    ensures r.Ok? ==> st.pos <= r.value.state.pos <= |src| && Stopped(src, r.value.state.pos)
    ensures r.Ok? ==> pairs <= r.value.value
    ensures r.Ok? ==> var st' := r.value.state; var cur := st.currentEntry;
      st' == st.(pos := st'.pos, rawKey := st'.rawKey,
                 entries := st.entries[cur := Assign(st.entries[cur], r.value.value[|pairs|..])])
    decreases |src| - st.pos
  {
    var s :- ListStep(src, st);
    match s.value
    case None =>
      TailDone(st, s.state, pairs);
      Ok(Parsed(s.state, pairs))
    case Some(kv) =>
      var r := KeyValueTail(src, Put(s.state, kv), pairs + [kv]);
      TailFrame(st, s.state, kv, pairs, r);
      r
  }

  /** Where the list ends, the pairs read so far are all that was written. */
  lemma TailDone(st: State, st0: State, pairs: seq<Pair>)
    requires st.currentEntry in st.entries && st0 == st.(pos := st0.pos)
    ensures var cur := st.currentEntry;
      st0 == st.(pos := st0.pos, rawKey := st0.rawKey,
                 entries := st.entries[cur := Assign(st.entries[cur], pairs[|pairs|..])])
  {
    assert pairs[|pairs|..] == [];
    assert st.entries[st.currentEntry := st.entries[st.currentEntry]] == st.entries;
  }

  /** The state the rest of the list leaves, after `kv` was written onto `st0`, stated from `st`. */
  lemma TailFrame(st: State, st0: State, kv: Pair, pairs: seq<Pair>, r: Outcome<Parsed<seq<Pair>>>)
    requires st.currentEntry in st.entries && SameTables(st, st0)
    requires r.Ok? ==> pairs + [kv] <= r.value.value
    requires r.Ok? ==> var st' := r.value.state; var cur := Put(st0, kv).currentEntry;
      st' == Put(st0, kv).(pos := st'.pos, rawKey := st'.rawKey,
        entries := Put(st0, kv).entries[cur := Assign(Put(st0, kv).entries[cur], r.value.value[|pairs + [kv]|..])])
    ensures r.Ok? ==> pairs <= r.value.value
    ensures r.Ok? ==> var st' := r.value.state; var cur := st.currentEntry;
      st' == st.(pos := st'.pos, rawKey := st'.rawKey,
                 entries := st.entries[cur := Assign(st.entries[cur], r.value.value[|pairs|..])])
  {
    if r.Ok? {
      var cur := st.currentEntry;
      var m := st.entries[cur];
      var st1 := Put(st0, kv);
      assert st1.currentEntry == cur;
      assert st1.entries == st.entries[cur := m[kv.0 := kv.1]];
      assert |pairs + [kv]| == |pairs| + 1;
      TailStep(m, pairs, kv, r);
      UpdateTwice(st.entries, cur, m[kv.0 := kv.1]);
    }
  }

  lemma TailStep(m: Fields, pairs: seq<Pair>, kv: Pair, r: Outcome<Parsed<seq<Pair>>>)
    requires r.Ok? ==> pairs + [kv] <= r.value.value
    ensures r.Ok? ==> pairs <= r.value.value
    ensures r.Ok? ==> Assign(m[kv.0 := kv.1], r.value.value[|pairs| + 1..]) == Assign(m, r.value.value[|pairs|..])
  {
    if r.Ok? {
      var all := r.value.value;
      assert all[|pairs|..][1..] == all[|pairs| + 1..];
      assert all[|pairs|..][0] == kv;
    }
  }

  /** `key_value_list`: the pairs are written into the current entry in order, a later duplicate
      overwriting an earlier one; the other entries and the macros are untouched. */
  function KeyValueList(src: string, st: State): (r: Outcome<Parsed<seq<Pair>>>)
    requires 0 <= st.pos <= |src| && st.currentEntry in st.entries
    ensures r.Ok? ==> st.pos < r.value.state.pos <= |src| && Stopped(src, r.value.state.pos)
    ensures r.Ok? ==> |r.value.value| >= 1
    ensures r.Ok? ==> var st' := r.value.state; var cur := st.currentEntry;
      st' == st.(pos := st'.pos, rawKey := st'.rawKey,
                 entries := st.entries[cur := Assign(st.entries[cur], r.value.value)])
  {
    var kr :- KeyEqualsValue(src, st);
    var r := KeyValueTail(src, Put(kr.state, kr.value), [kr.value]);
    UpdateTwice(st.entries, st.currentEntry, st.entries[st.currentEntry][kr.value.0 := kr.value.1]);
    HeadStep(st.entries[st.currentEntry], kr.value, r);
    r
  }

  lemma HeadStep(m: Fields, kv: Pair, r: Outcome<Parsed<seq<Pair>>>)
    requires r.Ok? ==> [kv] <= r.value.value
    ensures r.Ok? ==> Assign(m[kv.0 := kv.1], r.value.value[1..]) == Assign(m, r.value.value)
  {
    if r.Ok? {
      assert r.value.value[0] == kv;
    }
  }

  /** A `,` followed by `}` or `)` ends the list cleanly, before the closing delimiter. */
  lemma TrailingComma(src: string, st: State, pairs: seq<Pair>, q: int, p: int, c: int)
    requires 0 <= st.pos <= |src| && st.currentEntry in st.entries
    requires TryMatchAt(src, st.pos, ',') == Ok((q, true))
    requires MatchEnd(src, q, ',') == Ok(p)
    requires SkipEnd(src, p) == Ok(c) && c < |src| && (src[c] == '}' || src[c] == ')')
    ensures KeyValueTail(src, st, pairs) == Ok(Parsed(st.(pos := c), pairs))
  {
    assert TryMatchAt(src, p, '}') == Ok((c, src[c] == '}'));
    assert SkipEnd(src, c) == Ok(c);
  }

  // ----- entry_body (src/bibtex_js.js:217-233) -----

  /** The human-readable `BIBTEXTYPE` of the four directives that have one. */
  function TypeLabel(d: string): Option<string>
  {
    if d == "@INCOLLECTION" then Some("book chapter")
    else if d == "@INPROCEEDINGS" then Some("conference, workshop")
    else if d == "@ARTICLE" then Some("journal")
    else if d == "@TECHREPORT" then Some("technical report")
    else None
  }

  /** The fresh field map `entry_body` starts an entry with. */
  function BaseFields(raw: string, d: string): Fields
  {
    var m := map["BIBTEXKEY" := raw];
    var m := if TypeLabel(d).Some? then m["BIBTEXTYPE" := TypeLabel(d).value] else m;
    m["BIBTEXTYPEKEY" := d]
  }

  /** The synthesized fields: the key as written, the directive, and a type only for the four
      known directives. */
  lemma BaseFieldsMeta(raw: string, d: string)
    ensures BaseFields(raw, d)["BIBTEXKEY"] == raw && BaseFields(raw, d)["BIBTEXTYPEKEY"] == d
    ensures "BIBTEXTYPE" in BaseFields(raw, d) <==> d in {"@INCOLLECTION", "@INPROCEEDINGS", "@ARTICLE", "@TECHREPORT"}
    ensures d == "@ARTICLE" ==> BaseFields(raw, d)["BIBTEXTYPE"] == "journal"
    ensures d == "@INCOLLECTION" ==> BaseFields(raw, d)["BIBTEXTYPE"] == "book chapter"
    ensures d == "@INPROCEEDINGS" ==> BaseFields(raw, d)["BIBTEXTYPE"] == "conference, workshop"
    ensures d == "@TECHREPORT" ==> BaseFields(raw, d)["BIBTEXTYPE"] == "technical report"
    ensures BaseFields(raw, d).Keys <= {"BIBTEXKEY", "BIBTEXTYPE", "BIBTEXTYPEKEY"}
  {
  }

  /** `entry_body`: the citation key, a fresh field map under its upper-cased form, `,`, and the
      field list. The value is where the key ends and the pairs read. */
  function EntryBody(src: string, st: State, d: string): (r: Outcome<Parsed<(int, seq<Pair>)>>)
    requires 0 <= st.pos <= |src|
    ensures r.Ok? ==> st.pos < r.value.state.pos <= |src| && Stopped(src, r.value.state.pos)
    ensures r.Ok? ==> var e := r.value.value.0;
      st.pos <= e < |src| && !KeyChar(src[e]) && forall k :: st.pos <= k < e ==> KeyChar(src[k])
    ensures r.Ok? ==> var raw := src[st.pos..r.value.value.0];
      && r.value.state.currentEntry == Upper(raw)
      && r.value.state.entries == st.entries[Upper(raw) := Assign(BaseFields(raw, d), r.value.value.1)]
      && r.value.state.strings == st.strings
  {
    var kr :- Key(src, st);
    var lr :- OpenEntry(src, kr.state, kr.value, d);
    Ok(Parsed(lr.state, (kr.state.pos, lr.value)))
  }

  /** The part of `entry_body` after the key `k`, read as `st.rawKey`: the fresh field map, `,`
      and the field list. */
  function OpenEntry(src: string, st: State, k: string, d: string): (r: Outcome<Parsed<seq<Pair>>>)
    requires 0 <= st.pos <= |src|
    ensures r.Ok? ==> st.pos < r.value.state.pos <= |src| && Stopped(src, r.value.state.pos)
    ensures r.Ok? ==> var st' := r.value.state;
      st' == st.(pos := st'.pos, rawKey := st'.rawKey, currentEntry := k,
                 entries := st.entries[k := Assign(BaseFields(st.rawKey, d), r.value.value)])
  {
    var st2 := st.(currentEntry := k, entries := st.entries[k := BaseFields(st.rawKey, d)]);
    var p :- MatchEnd(src, st2.pos, ',');
    UpdateTwice(st.entries, k, BaseFields(st.rawKey, d));
    KeyValueList(src, st2.(pos := p))
  }

  /** `EntryBody` one step at a time: the key, then the rest of the entry. */
  lemma EntryBodySteps(src: string, st: State, d: string)
    requires 0 <= st.pos <= |src|
    ensures Final(EntryBody(src, st, d)) ==
      match Key(src, st)
      case Fail(e) => Fail(e)
      case Ok(kr) => Final(OpenEntry(src, kr.state, kr.value, d))
  {
  }

  /** `OpenEntry` one step at a time: the fresh field map, `,`, then the field list. */
  lemma OpenEntrySteps(src: string, st: State, k: string, d: string)
    requires 0 <= st.pos <= |src|
    ensures var st2 := st.(currentEntry := k, entries := st.entries[k := BaseFields(st.rawKey, d)]);
      Final(OpenEntry(src, st, k, d)) ==
        match MatchEnd(src, st.pos, ',')
        case Fail(e) => Fail(e)
        case Ok(p) => Final(KeyValueList(src, st2.(pos := p)))
  {
  }

  /** When no field of the entry is itself named like a synthesized field, the entry keeps the
      synthesized values. */
  lemma EntryMeta(raw: string, d: string, pairs: seq<Pair>)
    requires forall j :: 0 <= j < |pairs| ==> pairs[j].0 != "BIBTEXKEY" && pairs[j].0 != "BIBTEXTYPEKEY"
    ensures "BIBTEXKEY" in Assign(BaseFields(raw, d), pairs) && Assign(BaseFields(raw, d), pairs)["BIBTEXKEY"] == raw
    ensures "BIBTEXTYPEKEY" in Assign(BaseFields(raw, d), pairs) && Assign(BaseFields(raw, d), pairs)["BIBTEXTYPEKEY"] == d
  {
    BaseFieldsMeta(raw, d);
    AssignUntouched(BaseFields(raw, d), pairs, "BIBTEXKEY");
    AssignUntouched(BaseFields(raw, d), pairs, "BIBTEXTYPEKEY");
  }

  // ----- directive, string, preamble, comment (src/bibtex_js.js:235-255) -----

  /** `directive`: `@` and a key, upper-cased with its `@`. */
  function Directive(src: string, st: State): (r: Outcome<Parsed<string>>)
    requires 0 <= st.pos <= |src|
    ensures r.Ok? ==> st.pos < r.value.state.pos < |src| && SameTables(st, r.value.state)
    ensures r.Ok? ==> r.value.value == "@" + Upper(r.value.state.rawKey)
    ensures r.Ok? ==> var e := r.value.state.pos; var k := r.value.state.rawKey;
      |k| <= e - st.pos - 1 && src[e - |k|..e] == k && !KeyChar(src[e])
    ensures r.Ok? ==> MatchEnd(src, st.pos, '@').Ok?
    ensures r.Ok? && MatchEnd(src, st.pos, '@').Ok? ==>
      var q := MatchEnd(src, st.pos, '@').value; var e := r.value.state.pos;
      q <= e && r.value.state.rawKey == src[q..e] && (forall k :: q <= k < e ==> KeyChar(src[k]))
  {
    var p :- MatchEnd(src, st.pos, '@');
    var Parsed(st1, k) :- Key(src, st.(pos := p));
    Ok(Parsed(st1, "@" + k))
  }

  /** `string`: defines the macro under its upper-cased name. The value is the name and the text. */
  function StringDirective(src: string, st: State): (r: Outcome<Parsed<Pair>>)
    requires 0 <= st.pos <= |src|
    ensures r.Ok? ==> st.pos < r.value.state.pos <= |src| && Stopped(src, r.value.state.pos)
    ensures r.Ok? ==> var st' := r.value.state; var (name, text) := r.value.value;
      && Upper(name) == name
      && st' == st.(pos := st'.pos, rawKey := st'.rawKey, strings := st.strings[name := text])
  {
    var Parsed(st1, kv) :- KeyEqualsValue(src, st);
    var name := Upper(kv.0);
    Ok(Parsed(st1.(strings := st1.strings[name := kv.1]), (name, kv.1)))
  }

  /** `preamble`: a value, parsed and dropped. */
  function Preamble(src: string, st: State): (r: Outcome<State>)
    requires 0 <= st.pos <= |src|
    ensures r.Ok? ==> st.pos <= r.value.pos <= |src| && Stopped(src, r.value.pos)
    ensures r.Ok? ==> SameTables(st, r.value)
  {
    var Parsed(st1, _) :- Value(src, st);
    Ok(st1)
  }

  /** `comment`: the cursor jumps to the next `}`, or to -1 when there is none. */
  function Comment(src: string, st: State): (r: State)
    ensures r == st.(pos := r.pos) && Stopped(src, r.pos)
    ensures r.pos == -1 <==> forall k :: Clamp(st.pos, |src|) <= k < |src| ==> src[k] != '}'
    ensures r.pos != -1 ==> Clamp(st.pos, |src|) <= r.pos < |src| && src[r.pos] == '}'
    ensures r.pos != -1 ==> forall k :: Clamp(st.pos, |src|) <= k < r.pos ==> src[k] != '}'
  {
    st.(pos := IndexOf(src, '}', st.pos))
  }

  // ----- bibtex (src/bibtex_js.js:257-290) -----

  /** The directives that do not start an entry. */
  predicate NonEntry(d: string)
  {
    d == "@STRING" || d == "@PREAMBLE" || d == "@COMMENT"
  }

  /** The dispatch of `bibtex` on the upper-cased directive. */
  function Body(src: string, st: State, d: string): (r: Outcome<State>)
    requires 0 <= st.pos <= |src|
    ensures r.Ok? ==> (r.value.pos == -1 || st.pos <= r.value.pos <= |src|) && Stopped(src, r.value.pos)
    ensures r.Ok? ==> st.entries.Keys <= r.value.entries.Keys && st.strings.Keys <= r.value.strings.Keys
    ensures r.Ok? && NonEntry(d) ==> r.value.entries == st.entries && r.value.currentEntry == st.currentEntry
  {
    if d == "@STRING" then Final(StringDirective(src, st))
    else if d == "@PREAMBLE" then Preamble(src, st)
    else if d == "@COMMENT" then Ok(Comment(src, st))
    else Final(EntryBody(src, st, d))
  }

  /** The character just before `end` closes a directive: `}`, or else `)`. */
  predicate ClosedAt(src: string, end: int)
  {
    0 < end <= |src| && (src[end - 1] == '}' || src[end - 1] == ')')
  }

  /** The position the driver resumes at: the next `@` at or after `end`, else `end - 1`. */
  predicate ResumesAt(src: string, end: int, np: int)
    requires 0 <= end <= |src|
  {
    || (np == end - 1 && forall k :: end <= k < |src| ==> src[k] != '@')
    || (end <= np < |src| && src[np] == '@' && forall k :: end <= k < np ==> src[k] != '@')
  }

  /** The state after the directive, where BIBTEXRAW is written onto `currentEntry`. */
  function WriteRaw(st: State, raw: string): (r: Outcome<State>)
  {
    if st.currentEntry !in st.entries then Fail(UndefinedEntry)
    else Ok(st.(entries := st.entries[st.currentEntry := st.entries[st.currentEntry]["BIBTEXRAW" := raw]]))
  }

  /** One pass of the `bibtex` loop, from the `@` that `tryMatch` found. The value is the raw span
      `[start, end)` written to BIBTEXRAW. */
  function Item(src: string, st: State): (r: Outcome<Parsed<(int, int)>>)
    requires 0 <= st.pos < |src| && src[st.pos] == '@'
    ensures r.Ok? ==> var end := r.value.value.1; var st' := r.value.state;
      && r.value.value.0 == st.pos && st.pos + 2 <= end <= |src|
      && ResumesAt(src, end, st'.pos) && st.pos < st'.pos < |src|
      && st.entries.Keys <= st'.entries.Keys && st.strings.Keys <= st'.strings.Keys
  {
    var o :- Opening(src, st);
    var st2 :- Body(src, o.state, o.value);
    Finish(src, st.pos, st2)
  }

  /** Every pass that succeeds ends on a `}` or `)` and leaves its raw text, from the `@` through
      that closer, in BIBTEXRAW of the entry that is current afterwards. */
  lemma ItemWritesRaw(src: string, st: State, o: Parsed<string>, b: State)
    requires 0 <= st.pos < |src| && src[st.pos] == '@'
    requires Opening(src, st) == Ok(o) && Body(src, o.state, o.value) == Ok(b) && Item(src, st).Ok?
    ensures ClosedAt(src, Item(src, st).value.value.1)
    ensures var st' := Item(src, st).value.state; st'.currentEntry in st'.entries
    ensures var st' := Item(src, st).value.state; "BIBTEXRAW" in st'.entries[st'.currentEntry]
    ensures var end := Item(src, st).value.value.1; var st' := Item(src, st).value.state;
      st'.entries[st'.currentEntry]["BIBTEXRAW"] == src[st.pos..end]
  {
    assert Item(src, st) == Finish(src, st.pos, b);
  }

  /** The end of a pass, once the directive's body has left `st`: the closer, the raw text
      `input.substring(start, end)` written onto `currentEntry`, and the jump to the next `@`. */
  function Finish(src: string, start: int, st: State): (r: Outcome<Parsed<(int, int)>>)
    requires 0 <= start && (st.pos == -1 || start < st.pos) && Stopped(src, st.pos)
    ensures r.Ok? ==> var end := r.value.value.1; var cur := st.currentEntry;
      && r.value.value == (start, st.pos + 1) && start + 2 <= end <= |src|
      && ClosedAt(src, end) && cur in st.entries && ResumesAt(src, end, r.value.state.pos)
      && r.value.state == st.(pos := r.value.state.pos,
                              entries := st.entries[cur := st.entries[cur]["BIBTEXRAW" := src[start..end]]])
    ensures st.currentEntry !in st.entries ==> r.Fail?
  {
    var c :- Closing(src, st.pos);
    var end := st.pos + 1;
    var st3 :- WriteRaw(st, Substring(src, start, end));
    Ok(Parsed(st3.(pos := Resume(src, end)), (start, end)))
  }

  /** `Finish` once the closer has matched: the raw text is written, then the cursor jumps. */
  lemma FinishSteps(src: string, start: int, st: State, p: int)
    requires 0 <= start && (st.pos == -1 || start < st.pos) && Stopped(src, st.pos)
    requires Closing(src, st.pos) == Ok(p)
    ensures 0 < st.pos + 1 <= |src|
    ensures var end := st.pos + 1; var cur := st.currentEntry;
      Finish(src, start, st) ==
        if cur !in st.entries then Fail(UndefinedEntry)
        else Ok(Parsed(st.(pos := Resume(src, end),
                           entries := st.entries[cur := st.entries[cur]["BIBTEXRAW" := Substring(src, start, end)]]),
                       (start, end)))
  {
  }

  /** The directive, upper-cased, and its opening `{`, or else `(`. */
  function Opening(src: string, st: State): (r: Outcome<Parsed<string>>)
    requires 0 <= st.pos <= |src|
    ensures r.Ok? ==> st.pos < r.value.state.pos <= |src| && SameTables(st, r.value.state)
  {
    var dr :- Directive(src, st);
    var t :- TryMatchAt(src, dr.state.pos, '{');
    var p :- MatchEnd(src, t.0, if t.1 then '{' else '(');
    Ok(Parsed(dr.state.(pos := p), Upper(dr.value)))
  }

  /** The closing `}`, or else `)`, and an optional `,`; the closer must sit at `c` itself, where
      the directive's body stopped. */
  function Closing(src: string, c: int): (r: Outcome<int>)
    requires Stopped(src, c)
    ensures r.Ok? ==> 0 <= c < |src| && (src[c] == '}' || src[c] == ')')
  {
    var t :- TryMatchAt(src, c, '}');
    var p :- MatchEnd(src, t.0, if t.1 then '}' else ')');
    assert SkipEnd(src, c) == Ok(c);
    var u :- TryMatchAt(src, p, ',');
    if u.1 then MatchEnd(src, u.0, ',') else Ok(u.0)
  }

  /** `end + input.substring(end).indexOf("@")`. */
  function Resume(src: string, end: int): (r: int)
    requires 0 < end <= |src|
    ensures ResumesAt(src, end, r)
  {
    var rest := src[end..];
    assert Substring(src, end, |src|) == rest;
    var i := IndexOf(rest, '@', 0);
    assert forall k :: end <= k < |src| ==> src[k] == rest[k - end];
    end + i
  }

  /** The `bibtex` loop: directives as long as `tryMatch("@")` finds one. */
  function BibtexLoop(src: string, st: State): (r: Outcome<State>)
    ensures r.Ok? ==> st.entries.Keys <= r.value.entries.Keys && st.strings.Keys <= r.value.strings.Keys
    decreases |src| - st.pos
  {
    var (q, at) :- TryMatchAt(src, st.pos, '@');
    if !at then Ok(st.(pos := q))
    else
      var Parsed(st1, _) :- Item(src, st.(pos := q));
      BibtexLoop(src, st1)
  }

  /** What `new BibtexParser()`, `setInput(src)`, `bibtex()` and `getEntries()` produce. Every
      entry of a successful parse carries the fields the parser itself writes. */
  function Parse(src: string): (r: Outcome<Table>)
    ensures r.Ok? ==> Stamped(r.value)
  {
    var st :- BibtexLoop(src, Initial);
    LoopStamped(src, Initial);
    Ok(st.entries)
  }

  /** Every entry holds BIBTEXKEY, BIBTEXTYPEKEY and BIBTEXRAW. */
  predicate Stamped(t: Table)
  {
    forall k :: k in t ==> "BIBTEXKEY" in t[k] && "BIBTEXTYPEKEY" in t[k] && "BIBTEXRAW" in t[k]
  }

  /** As `Stamped`, except that `cur` may still lack BIBTEXRAW. */
  predicate StampedBut(t: Table, cur: string)
  {
    forall k :: k in t ==> "BIBTEXKEY" in t[k] && "BIBTEXTYPEKEY" in t[k] && (k != cur ==> "BIBTEXRAW" in t[k])
  }

  /** Writing pairs never removes a field. */
  lemma {:induction false} AssignKeys(m: Fields, pairs: seq<Pair>)
    ensures m.Keys <= Assign(m, pairs).Keys
    decreases |pairs|
  {
    if pairs != [] {
      AssignKeys(m[pairs[0].0 := pairs[0].1], pairs[1..]);
    }
  }

  /** A directive's body leaves every entry but the current one as stamped as before. */
  lemma BodyStamped(src: string, st: State, d: string, b: State)
    requires 0 <= st.pos <= |src| && Stamped(st.entries) && Body(src, st, d) == Ok(b)
    ensures StampedBut(b.entries, b.currentEntry)
  {
    if !NonEntry(d) {
      var e := EntryBody(src, st, d).value;
      var raw := src[st.pos..e.value.0];
      BaseFieldsMeta(raw, d);
      AssignKeys(BaseFields(raw, d), e.value.1);
      assert b.entries == st.entries[Upper(raw) := Assign(BaseFields(raw, d), e.value.1)];
    }
  }

  /** One pass of the driver keeps every entry stamped. */
  lemma ItemStamped(src: string, st: State)
    requires 0 <= st.pos < |src| && src[st.pos] == '@'
    requires Stamped(st.entries) && Item(src, st).Ok?
    ensures Stamped(Item(src, st).value.state.entries)
  {
    var o := Opening(src, st).value;
    var b := Body(src, o.state, o.value).value;
    BodyStamped(src, o.state, o.value, b);
    assert Item(src, st) == Finish(src, st.pos, b);
  }

  /** The driver keeps every entry stamped. */
  lemma {:induction false} LoopStamped(src: string, st: State)
    requires Stamped(st.entries)
    ensures BibtexLoop(src, st).Ok? ==> Stamped(BibtexLoop(src, st).value.entries)
    decreases |src| - st.pos
  {
    var t := TryMatchAt(src, st.pos, '@');
    if t.Ok? && t.value.1 {
      var q := t.value.0;
      var it := Item(src, st.(pos := q));
      if it.Ok? {
        ItemStamped(src, st.(pos := q));
        LoopStamped(src, it.value.state);
      }
    }
  }

  // ----- properties of the driver -----

  /** A `@STRING`, `@PREAMBLE` or `@COMMENT` writes its raw text over the BIBTEXRAW of whatever
      entry was parsed last, and fails when no entry has been parsed yet. */
  lemma NonEntryOverwritesRaw(src: string, st: State, o: Parsed<string>)
    requires 0 <= st.pos < |src| && src[st.pos] == '@'
    requires Opening(src, st) == Ok(o) && NonEntry(o.value)
    ensures st.currentEntry !in st.entries ==> Item(src, st).Fail?
    ensures Item(src, st).Ok? ==> var (start, end) := Item(src, st).value.value; var cur := st.currentEntry;
      cur in st.entries &&
      Item(src, st).value.state.entries == st.entries[cur := st.entries[cur]["BIBTEXRAW" := src[start..end]]]
  {
    var b := Body(src, o.state, o.value);
    if b.Ok? {
      assert b.value.entries == st.entries && b.value.currentEntry == st.currentEntry;
      assert Item(src, st) == Finish(src, st.pos, b.value);
    }
  }

  /** An entry whose key is already present replaces the earlier entry outright: its fields are
      the synthesized ones, its own pairs and BIBTEXRAW, and nothing of the earlier entry. */
  lemma EntryReplaces(src: string, st: State, o: Parsed<string>, st2: State, e: int, pairs: seq<Pair>)
    requires 0 <= st.pos < |src| && src[st.pos] == '@'
    requires Opening(src, st) == Ok(o) && !NonEntry(o.value)
    requires EntryBody(src, o.state, o.value) == Ok(Parsed(st2, (e, pairs)))
    requires Closing(src, st2.pos).Ok?
    ensures Item(src, st).Ok?
    ensures var raw := src[o.state.pos..e]; var end := Item(src, st).value.value.1;
      Item(src, st).value.state.entries
        == st.entries[Upper(raw) := Assign(BaseFields(raw, o.value), pairs)["BIBTEXRAW" := src[st.pos..end]]]
  {
    var raw := src[o.state.pos..e];
    assert Body(src, o.state, o.value) == Ok(st2);
    var f := Finish(src, st.pos, st2);
    assert Item(src, st) == f;
    var a := Assign(BaseFields(raw, o.value), pairs);
    assert st2.currentEntry == Upper(raw) && st2.entries == st.entries[Upper(raw) := a];
    assert st2.entries[Upper(raw)] == a;
    var end := f.value.value.1;
    var v := a["BIBTEXRAW" := src[st.pos..end]];
    assert f.value.state.entries == st2.entries[Upper(raw) := v];
    Rewrite(st.entries, st2.entries, Upper(raw), a, v);
  }

  /** A pass is its opening, the directive's body and the closing, and fails with the first
      of them that fails. */
  lemma ItemSteps(src: string, st: State)
    requires 0 <= st.pos < |src| && src[st.pos] == '@'
    ensures Opening(src, st).Fail? ==> Item(src, st) == Fail(Opening(src, st).error)
    ensures Opening(src, st).Ok? ==> var o := Opening(src, st).value;
      Body(src, o.state, o.value).Fail? ==> Item(src, st) == Fail(Body(src, o.state, o.value).error)
    ensures Opening(src, st).Ok? ==> var o := Opening(src, st).value;
      Body(src, o.state, o.value).Ok? ==> Item(src, st) == Finish(src, st.pos, Body(src, o.state, o.value).value)
  {
  }

  /** One pass of the loop: a `@` after the blanks, a pass that succeeds, and the loop goes on
      from where the pass left off. */
  lemma LoopStep(src: string, st: State, q: int, st1: State, span: (int, int))
    requires TryMatchAt(src, st.pos, '@') == Ok((q, true))
    requires 0 <= q < |src| && Item(src, st.(pos := q)) == Ok(Parsed(st1, span))
    ensures BibtexLoop(src, st) == BibtexLoop(src, st1)
  {
  }

  /** The loop ends, leaving the tables as they are, when no `@` follows the blanks. */
  lemma LoopStops(src: string, st: State, q: int)
    requires SkipEnd(src, st.pos) == Ok(q) && (q < 0 || q >= |src| || src[q] != '@')
    ensures BibtexLoop(src, st) == Ok(st.(pos := q))
  {
    assert TryMatchAt(src, st.pos, '@') == Ok((q, false));
  }

  /** After a directive that ends at `end` with no `@` anywhere behind it, the loop stops at its
      closer, where `Item` resumes. */
  lemma StopsAfterLastDirective(src: string, st: State, end: int)
    requires ClosedAt(src, end)
    requires ResumesAt(src, end, st.pos)
    requires forall k :: end <= k < |src| ==> src[k] != '@'
    ensures st.pos == end - 1
    ensures BibtexLoop(src, st) == Ok(st)
  {
    assert st.pos == end - 1;
    SkipEndFixedPoint(src, st.pos);
    LoopStops(src, st, st.pos);
  }

  /** On a fresh parser, a text that starts with a `@STRING`, `@PREAMBLE` or `@COMMENT`
      directive cannot be parsed: no entry exists to take its raw text. */
  lemma FirstNonEntryFails(src: string, q: int)
    requires TryMatchAt(src, 0, '@') == Ok((q, true))
    requires Opening(src, Initial.(pos := q)).Ok? && NonEntry(Opening(src, Initial.(pos := q)).value.value)
    ensures Parse(src).Fail?
  {
    assert 0 <= q < |src| && src[q] == '@' by {
      assert src[q..q + 1][0] == src[q];
    }
    NonEntryOverwritesRaw(src, Initial.(pos := q), Opening(src, Initial.(pos := q)).value);
  }
}

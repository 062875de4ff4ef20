/** The single-entry round trip. An entry written out as `@T{K,F1={v1},...,Fn={vn}}` has n at
    least 1, braced values and no blanks. It is read back as one entry under the upper-cased `K`,
    which holds the synthesized fields overwritten in order by the upper-cased pairs. Its
    BIBTEXRAW is the text itself, so parsing BIBTEXRAW again gives the same table. */
module RoundTrip {
  import opened Outcomes
  import opened JsText
  import opened Scanner
  import opened ParserState
  import opened ValueGrammar
  import opened EntryGrammar

  // ----- writing an entry -----

  /** A field as written: its name and its text. */
  type Field = (string, string)

  /** A run of key characters, as `key` reads it whole. */
  predicate IsKey(s: string)
  {
    forall i :: 0 <= i < |s| ==> KeyChar(s[i])
  }

  /** A text that `value_braces` gives back unchanged between `{` and `}`: it starts with neither
      a blank nor `%` (which the scan would skip), it does not end in a backslash (which would
      escape the closing brace), and its braces balance, so no `}` inside it closes the value. */
  predicate Braced(v: string)
  {
    && (|v| > 0 ==> !IsWhitespace(v[0]) && v[0] != '%' && v[|v| - 1] != '\\')
    && (forall n :: 0 <= n < |v| ==> !ClosesValue(v, 0, n))
    && BraceDepth(v, 0, |v|) == 0
  }

  /** Every field has a key-character name and a braced text. */
  predicate Writable(fs: seq<Field>)
  {
    forall i :: 0 <= i < |fs| ==> IsKey(fs[i].0) && Braced(fs[i].1)
  }

  /** `{v}`. */
  function ValueText(v: string): string
  {
    "{" + v + "}"
  }

  /** `F={v}`. */
  function KeyValueText(f: Field): string
  {
    f.0 + "=" + ValueText(f.1)
  }

  /** `,F={v}`. */
  function FieldText(f: Field): string
  {
    "," + KeyValueText(f)
  }

  /** The fields one after the other, each after its comma. */
  function FieldsText(fs: seq<Field>): string
    decreases |fs|
  {
    if fs == [] then "" else FieldText(fs[0]) + FieldsText(fs[1..])
  }

  /** `@T{K,F1={v1},...,Fn={vn}}`. */
  function EntryText(t: string, k: string, fs: seq<Field>): string
  {
    "@" + t + "{" + (k + FieldsText(fs)) + "}"
  }

  /** The pairs the parser is expected to write: upper-cased names, texts as written. */
  function Pairs(fs: seq<Field>): (r: seq<Pair>)
    ensures |r| == |fs|
    decreases |fs|
  {
    if fs == [] then [] else [(Upper(fs[0].0), fs[0].1)] + Pairs(fs[1..])
  }

  // ----- text at a position -----

  /** `w` stands in `src` from position `p` on. */
  predicate HasAt(src: string, p: int, w: string)
  {
    0 <= p && p + |w| <= |src| && src[p..p + |w|] == w
  }

  /** The characters that may follow a value inside an entry. */
  predicate AfterValue(ch: char)
  {
    ch == ',' || ch == '}'
  }

  lemma HasAtChar(src: string, p: int, w: string, i: int)
    requires HasAt(src, p, w) && 0 <= i < |w|
    ensures src[p + i] == w[i]
  {
    assert src[p..p + |w|][i] == src[p + i];
  }

  /** Two texts stand one after the other exactly when their concatenation stands there. */
  lemma HasAtSplit(src: string, p: int, a: string, b: string)
    ensures HasAt(src, p, a + b) <==> HasAt(src, p, a) && HasAt(src, p + |a|, b)
  {
    if 0 <= p && p + |a| + |b| <= |src| {
      assert src[p..p + |a + b|] == src[p..p + |a|] + src[p + |a|..p + |a| + |b|];
      if src[p..p + |a + b|] == a + b {
        assert src[p..p + |a|] == (a + b)[..|a|];
        assert src[p + |a|..p + |a| + |b|] == (a + b)[|a|..];
      }
    }
  }

  /** A text written as three parts: where each part stands. */
  lemma Framed(src: string, a: string, m: string, z: string)
    requires src == a + m + z
    ensures |src| == |a| + |m| + |z|
    ensures HasAt(src, 0, a) && HasAt(src, |a|, m) && HasAt(src, |a| + |m|, z)
  {
    assert HasAt(src, 0, src);
    HasAtSplit(src, 0, a + m, z);
    HasAtSplit(src, 0, a, m);
  }

  /** Three texts one after the other: where each stands, and where the last two stand. */
  lemma Split3(src: string, p: int, a: string, b: string, c: string)
    requires HasAt(src, p, a + b + c)
    ensures HasAt(src, p, a) && HasAt(src, p + |a|, b) && HasAt(src, p + |a| + |b|, c)
    ensures HasAt(src, p + |a|, b + c)
  {
    HasAtSplit(src, p, a + b, c);
    HasAtSplit(src, p, a, b);
    HasAtSplit(src, p + |a|, b, c);
  }

  /** A key character or one of the delimiters around keys and values stops skipping. */
  lemma StopsAt(src: string, q: int)
    requires 0 <= q < |src|
    requires KeyChar(src[q]) || src[q] == '@' || src[q] == '=' || src[q] == '{' || src[q] == '}' || src[q] == ','
    ensures SkipEnd(src, q) == Ok(q)
  {
    SkipEndFixedPoint(src, q);
  }

  /** A token with nothing to skip before or after it is matched in place. */
  lemma TokenIn(src: string, q: int, c: char)
    requires 0 <= q < |src| && src[q] == c && Stopped(src, q) && Stopped(src, q + 1)
    ensures TryMatchAt(src, q, c) == Ok((q, true)) && MatchEnd(src, q, c) == Ok(q + 1)
  {
    SkipEndFixedPoint(src, q);
    SkipEndFixedPoint(src, q + 1);
  }

  // ----- one value, one field -----

  /** Inside a brace value whose opening `{` sits just before `p`, the brace count over
      `src[p..p+n)` is the brace count over the first `n` characters of the value on its own. */
  lemma {:induction false} DepthAt(src: string, p: int, v: string, n: nat)
    requires 1 <= p && HasAt(src, p, v) && src[p - 1] == '{' && n <= |v|
    ensures BraceDepth(src, p, p + n) == BraceDepth(v, 0, n)
    decreases n
  {
    if n > 0 {
      DepthAt(src, p, v, n - 1);
      HasAtChar(src, p, v, n - 1);
      if n >= 2 {
        HasAtChar(src, p, v, n - 2);
      }
      assert UnescapedClose(src, p + n - 1) == UnescapedClose(v, n - 1);
    }
  }

  /** `value_braces` stops at the `}` written after a braced text. */
  lemma BracedCloses(src: string, p: int, v: string)
    requires 1 <= p && HasAt(src, p, v) && src[p - 1] == '{' && Braced(v)
    requires p + |v| < |src| && src[p + |v|] == '}'
    ensures BraceScan(src, p, 0) == Ok(p + |v|)
  {
    var e := p + |v|;
    forall j | p <= j < e
      ensures !ClosesValue(src, p, j)
    {
      DepthAt(src, p, v, j - p);
      HasAtChar(src, p, v, j - p);
      if j > p {
        HasAtChar(src, p, v, j - p - 1);
      }
      assert UnescapedClose(src, j) == UnescapedClose(v, j - p);
      assert !ClosesValue(v, 0, j - p);
    }
    DepthAt(src, p, v, |v|);
    if |v| > 0 {
      HasAtChar(src, p, v, |v| - 1);
    }
    assert ClosesValue(src, p, e);
    BraceScanFindsFirstClose(src, p, e);
  }

  /** `{v}` followed by `,` or `}`: `value` returns `v` and stops on that delimiter. */
  lemma BracedValue(src: string, st: State, v: string, st': State)
    requires HasAt(src, st.pos, ValueText(v)) && Braced(v)
    requires st.pos + |v| + 2 < |src| && AfterValue(src[st.pos + |v| + 2])
    requires st' == st.(pos := st.pos + |v| + 2)
    ensures Value(src, st) == Ok(Parsed(st', v))
  {
    var a := st.pos;
    var e := a + 1 + |v|;
    assert src[a] == '{' && HasAt(src, a + 1, v) && src[e] == '}' by {
      HasAtSplit(src, a, "{" + v, "}");
      HasAtSplit(src, a, "{", v);
      HasAtChar(src, a, "{", 0);
      HasAtChar(src, e, "}", 0);
    }
    NoConcatenation(src, st', v);
    BracedBraces(src, st, v, st');
    BracedSingle(src, st, Parsed(st', v));
    ValueSteps(src, st, Parsed(st', v));
  }

  /** A `,` or `}` after a value: no `#` follows, so the value is complete. */
  lemma NoConcatenation(src: string, st: State, v: string)
    requires 0 <= st.pos < |src| && AfterValue(src[st.pos])
    ensures ValueTail(src, st, v) == Ok(Parsed(st, v))
  {
    StopsAt(src, st.pos);
    assert TryMatchAt(src, st.pos, '#') == Ok((st.pos, false));
  }

  /** A value that starts with `{` is a brace value. */
  lemma BracedSingle(src: string, st: State, r: Parsed<string>)
    requires 0 <= st.pos < |src| && src[st.pos] == '{'
    requires ValueBraces(src, st) == Ok(r)
    ensures SingleValue(src, st) == Ok(r)
  {
    StopsAt(src, st.pos);
    assert TryMatchAt(src, st.pos, '{') == Ok((st.pos, true));
  }

  /** `value` once its first single value is read: the `#` loop. */
  lemma ValueSteps(src: string, st: State, r: Parsed<string>)
    requires 0 <= st.pos <= |src| && SingleValue(src, st) == Ok(r)
    ensures Value(src, st) == ValueTail(src, r.state, r.value)
  {
  }

  /** `{v}` followed by `,` or `}`: `value_braces` returns `v` and stops on that delimiter. */
  lemma BracedBraces(src: string, st: State, v: string, st': State)
    requires 0 <= st.pos && st.pos + |v| + 2 < |src| && HasAt(src, st.pos + 1, v) && Braced(v)
    requires src[st.pos] == '{' && src[st.pos + |v| + 1] == '}' && AfterValue(src[st.pos + |v| + 2])
    requires st' == st.(pos := st.pos + |v| + 2)
    ensures ValueBraces(src, st) == Ok(Parsed(st', v))
  {
    var a := st.pos;
    var e := a + 1 + |v|;
    assert Substring(src, a + 1, e) == v;
    BracedStops(src, a, v);
    BracedCloses(src, a + 1, v);
    TokenIn(src, a, '{');
    TokenIn(src, e, '}');
  }

  /** Nothing is skipped on either side of the braces around a braced text. */
  lemma BracedStops(src: string, a: int, v: string)
    requires 0 <= a && a + |v| + 2 < |src| && HasAt(src, a + 1, v) && Braced(v)
    requires src[a] == '{' && src[a + |v| + 1] == '}' && AfterValue(src[a + |v| + 2])
    ensures Stopped(src, a) && Stopped(src, a + 1)
    ensures Stopped(src, a + |v| + 1) && Stopped(src, a + |v| + 2)
  {
    if |v| > 0 {
      HasAtChar(src, a + 1, v, 0);
    }
  }

  /** `F={v}` followed by `,` or `}`: `key_equals_value` returns the upper-cased name and `v`,
      keeps `F` as the raw key, and stops on that delimiter. */
  lemma FieldReads(src: string, st: State, f: Field, st': State)
    requires HasAt(src, st.pos, KeyValueText(f)) && IsKey(f.0) && Braced(f.1)
    requires var b := st.pos + |KeyValueText(f)|; b < |src| && AfterValue(src[b])
    requires st' == st.(pos := st.pos + |KeyValueText(f)|, rawKey := f.0)
    ensures KeyEqualsValue(src, st) == Ok(Parsed(st', (Upper(f.0), f.1)))
  {
    var a := st.pos;
    var m := a + |f.0|;
    var st1 := st.(pos := m, rawKey := f.0);
    KeyValueLayout(src, a, f);
    KeyRun(src, st, f.0, st1);
    FieldEquals(src, st1, f.1, st');
    KeyEqualsSteps(src, st, Parsed(st1, Upper(f.0)), Parsed(st', f.1));
  }

  /** Where the name, the `=` and the braced text of `F={v}` stand. */
  lemma KeyValueLayout(src: string, a: int, f: Field)
    requires HasAt(src, a, KeyValueText(f))
    ensures |KeyValueText(f)| == |f.0| + |f.1| + 3
    ensures HasAt(src, a, f.0) && HasAt(src, a + |f.0| + 1, ValueText(f.1))
    ensures src[a + |f.0|] == '=' && !KeyChar(src[a + |f.0|])
  {
    Split3(src, a, f.0, "=", ValueText(f.1));
    HasAtChar(src, a + |f.0|, "=", 0);
  }

  /** A run of key characters followed by something else: `key` reads it whole. */
  lemma KeyRun(src: string, st: State, name: string, st1: State)
    requires HasAt(src, st.pos, name) && IsKey(name)
    requires st.pos + |name| < |src| && !KeyChar(src[st.pos + |name|])
    requires st1 == st.(pos := st.pos + |name|, rawKey := name)
    ensures Key(src, st) == Ok(Parsed(st1, Upper(name)))
  {
    var m := st.pos + |name|;
    forall j | st.pos <= j < m
      ensures KeyChar(src[j])
    {
      HasAtChar(src, st.pos, name, j - st.pos);
    }
    KeyReads(src, st, m);
  }

  /** `={v}` followed by `,` or `}`: the rest of `key_equals_value` returns `v`. */
  lemma FieldEquals(src: string, st: State, v: string, st': State)
    requires 0 <= st.pos && st.pos + 1 < |src| && src[st.pos] == '='
    requires HasAt(src, st.pos + 1, ValueText(v)) && Braced(v)
    requires st.pos + |v| + 3 < |src| && AfterValue(src[st.pos + |v| + 3])
    requires st' == st.(pos := st.pos + |v| + 3)
    ensures EqualsValue(src, st) == Ok(Parsed(st', v))
  {
    var m := st.pos;
    BracedValue(src, st.(pos := m + 1), v, st');
    assert TryMatchAt(src, m, '=') == Ok((m, true)) && MatchEnd(src, m, '=') == Ok(m + 1) by {
      assert ValueText(v)[0] == '{';
      HasAtChar(src, m + 1, ValueText(v), 0);
      StopsAt(src, m);
      StopsAt(src, m + 1);
    }
    EqualsSteps(src, st, m, m + 1);
  }

  /** `=` found and matched: the rest of `key_equals_value` is the value. */
  lemma EqualsSteps(src: string, st: State, q: int, p: int)
    requires 0 <= st.pos <= |src|
    requires TryMatchAt(src, st.pos, '=') == Ok((q, true)) && MatchEnd(src, q, '=') == Ok(p)
    ensures p <= |src| && EqualsValue(src, st) == Value(src, st.(pos := p))
  {
  }

  /** `key_equals_value` once its key and its value are read. */
  lemma KeyEqualsSteps(src: string, st: State, kr: Parsed<string>, vr: Parsed<string>)
    requires 0 <= st.pos <= |src| && Key(src, st) == Ok(kr) && EqualsValue(src, kr.state) == Ok(vr)
    ensures KeyEqualsValue(src, st) == Ok(Parsed(vr.state, (kr.value, vr.value)))
  {
  }

  // ----- the field list -----

  lemma WritableTail(fs: seq<Field>)
    requires |fs| >= 1 && Writable(fs)
    ensures IsKey(fs[0].0) && Braced(fs[0].1) && Writable(fs[1..])
  {
    assert forall i :: 0 <= i < |fs[1..]| ==> fs[1..][i] == fs[i + 1];
  }

  /** A non-empty list of fields starts with its comma. */
  lemma FieldsTextHead(fs: seq<Field>)
    requires fs != []
    ensures |FieldsText(fs)| > 0 && FieldsText(fs)[0] == ','
  {
  }

  /** `F={v}` starts with a key character, or with `=` when the name is empty. */
  lemma KeyValueTextHead(f: Field)
    requires IsKey(f.0)
    ensures |KeyValueText(f)| == |f.0| + |f.1| + 3
    ensures KeyChar(KeyValueText(f)[0]) || KeyValueText(f)[0] == '='
  {
    if |f.0| > 0 {
      assert KeyValueText(f)[0] == f.0[0];
    } else {
      assert KeyValueText(f)[0] == '=';
    }
  }

  /** A pass of the list loop that finds `,` and then a field. */
  lemma ListStepField(src: string, st: State, kr: Parsed<Pair>)
    requires 0 <= st.pos && st.pos + 1 < |src|
    requires TryMatchAt(src, st.pos, ',') == Ok((st.pos, true)) && MatchEnd(src, st.pos, ',') == Ok(st.pos + 1)
    requires ListClosed(src, st.pos + 1) == Ok((st.pos + 1, false))
    requires KeyEqualsValue(src, st.(pos := st.pos + 1)) == Ok(kr)
    ensures ListStep(src, st) == Ok(Parsed(kr.state, Some(kr.value)))
  {
  }

  /** A `,` with nothing to skip on either side is matched in place. */
  lemma CommaAt(src: string, q: int)
    requires 0 <= q && q + 1 < |src| && src[q] == ','
    requires KeyChar(src[q + 1]) || src[q + 1] == '='
    ensures TryMatchAt(src, q, ',') == Ok((q, true)) && MatchEnd(src, q, ',') == Ok(q + 1)
  {
    StopsAt(src, q);
    StopsAt(src, q + 1);
  }

  /** A key character or `=` does not close the list. */
  lemma ListOpen(src: string, q: int)
    requires 0 <= q < |src| && (KeyChar(src[q]) || src[q] == '=')
    ensures ListClosed(src, q) == Ok((q, false))
  {
    StopsAt(src, q);
    assert TryMatchAt(src, q, '}') == Ok((q, false));
    assert TryMatchAt(src, q, ')') == Ok((q, false));
  }

  /** The list loop goes on after a pass that read a pair. */
  lemma TailGoesOn(src: string, st: State, pairs: seq<Pair>, s1: State, kv: Pair)
    requires 0 <= st.pos <= |src| && st.currentEntry in st.entries
    requires ListStep(src, st) == Ok(Parsed(s1, Some(kv)))
    ensures s1.currentEntry in s1.entries
    ensures KeyValueTail(src, st, pairs) == KeyValueTail(src, Put(s1, kv), pairs + [kv])
  {
  }

  /** The list loop ends, with the pairs read so far, on a pass that breaks. */
  lemma TailStops(src: string, st: State, pairs: seq<Pair>, s1: State)
    requires 0 <= st.pos <= |src| && st.currentEntry in st.entries
    requires ListStep(src, st) == Ok(Parsed(s1, None))
    ensures KeyValueTail(src, st, pairs) == Ok(Parsed(s1, pairs))
  {
  }

  /** The loop of `key_value_list` over `,F1={v1},...,Fn={vn}` up to the closing `}` appends
      exactly the written pairs and stops on that `}`. */
  lemma {:induction false} FieldsRead(src: string, st: State, pairs: seq<Pair>, fs: seq<Field>, c: int)
    returns (r: Parsed<seq<Pair>>)
    requires st.currentEntry in st.entries
    requires HasAt(src, st.pos, FieldsText(fs)) && Writable(fs)
    requires c == st.pos + |FieldsText(fs)| && c < |src| && src[c] == '}'
    ensures KeyValueTail(src, st, pairs) == Ok(r)
    ensures r.value == pairs + Pairs(fs) && r.state.pos == c
    decreases |fs|
  {
    if fs == [] {
      TailEmpty(src, st, pairs);
      assert pairs + Pairs(fs) == pairs;
      r := Parsed(st, pairs);
    } else {
      var kv := (Upper(fs[0].0), fs[0].1);
      var s2 := Put(st.(pos := st.pos + |FieldText(fs[0])|, rawKey := fs[0].0), kv);
      FieldsNext(src, st, fs, c, s2);
      FieldsHead(src, st, pairs, fs, c, s2);
      r := FieldsRead(src, s2, pairs + [kv], fs[1..], c);
      PairsStep(pairs, fs);
    }
  }

  /** After the first field of `,F={v},...`, the rest of the fields follow. */
  lemma FieldsNext(src: string, st: State, fs: seq<Field>, c: int, s2: State)
    requires st.currentEntry in st.entries && fs != []
    requires HasAt(src, st.pos, FieldsText(fs)) && Writable(fs)
    requires c == st.pos + |FieldsText(fs)| && c < |src| && src[c] == '}'
    requires s2 == Put(st.(pos := st.pos + |FieldText(fs[0])|, rawKey := fs[0].0), (Upper(fs[0].0), fs[0].1))
    ensures HasAt(src, s2.pos, FieldsText(fs[1..])) && Writable(fs[1..])
    ensures c == s2.pos + |FieldsText(fs[1..])| && |fs[1..]| < |fs|
  {
    WritableTail(fs);
    FieldLayout(src, st.pos, fs);
  }

  lemma PairsStep(pairs: seq<Pair>, fs: seq<Field>)
    requires fs != []
    ensures pairs + [(Upper(fs[0].0), fs[0].1)] + Pairs(fs[1..]) == pairs + Pairs(fs)
  {
  }

  /** The list loop stops, with the pairs read so far, on the closing `}`. */
  lemma TailEmpty(src: string, st: State, pairs: seq<Pair>)
    requires st.currentEntry in st.entries
    requires 0 <= st.pos < |src| && src[st.pos] == '}'
    ensures KeyValueTail(src, st, pairs) == Ok(Parsed(st, pairs))
  {
    assert ListStep(src, st) == Ok(Parsed(st, None)) by {
      StopsAt(src, st.pos);
      assert TryMatchAt(src, st.pos, ',') == Ok((st.pos, true)) || TryMatchAt(src, st.pos, ',') == Ok((st.pos, false));
    }
    TailStops(src, st, pairs, st);
  }

  /** The first pass of the list loop over `,F={v},...` writes the pair and goes on. */
  lemma FieldsHead(src: string, st: State, pairs: seq<Pair>, fs: seq<Field>, c: int, s2: State)
    requires st.currentEntry in st.entries && fs != []
    requires HasAt(src, st.pos, FieldsText(fs)) && Writable(fs)
    requires c == st.pos + |FieldsText(fs)| && c < |src| && src[c] == '}'
    requires s2 == Put(st.(pos := st.pos + |FieldText(fs[0])|, rawKey := fs[0].0), (Upper(fs[0].0), fs[0].1))
    ensures KeyValueTail(src, st, pairs) == KeyValueTail(src, s2, pairs + [(Upper(fs[0].0), fs[0].1)])
  {
    WritableTail(fs);
    FieldLayout(src, st.pos, fs);
    FieldStep(src, st, pairs, fs[0], st.(pos := st.pos + |FieldText(fs[0])|, rawKey := fs[0].0), (Upper(fs[0].0), fs[0].1), s2);
  }

  /** One pass of the list loop over `,F={v}`: the pair `(Upper(F), v)` is written and the loop
      goes on after it. */
  lemma FieldStep(src: string, st: State, pairs: seq<Pair>, f: Field, s1: State, kv: Pair, s2: State)
    requires st.currentEntry in st.entries && IsKey(f.0) && Braced(f.1)
    requires 0 <= st.pos && st.pos + 1 < |src| && src[st.pos] == ',' && HasAt(src, st.pos + 1, KeyValueText(f))
    requires KeyChar(src[st.pos + 1]) || src[st.pos + 1] == '='
    requires var b := st.pos + 1 + |KeyValueText(f)|; b < |src| && AfterValue(src[b])
    requires s1 == st.(pos := st.pos + 1 + |KeyValueText(f)|, rawKey := f.0)
    requires kv == (Upper(f.0), f.1) && s2 == Put(s1, kv)
    ensures KeyValueTail(src, st, pairs) == KeyValueTail(src, s2, pairs + [kv])
  {
    CommaAt(src, st.pos);
    ListOpen(src, st.pos + 1);
    FieldReads(src, st.(pos := st.pos + 1), f, s1);
    ListStepField(src, st, Parsed(s1, kv));
    TailGoesOn(src, st, pairs, s1, kv);
  }

  /** Where the parts of `,F={v}` and of the fields after it stand. */
  lemma FieldLayout(src: string, pos: int, fs: seq<Field>)
    requires fs != [] && IsKey(fs[0].0) && HasAt(src, pos, FieldsText(fs))
    requires pos + |FieldsText(fs)| < |src| && src[pos + |FieldsText(fs)|] == '}'
    ensures var f := fs[0]; var b := pos + |FieldText(f)|;
      && src[pos] == ',' && (KeyChar(src[pos + 1]) || src[pos + 1] == '=')
      && HasAt(src, pos + 1, KeyValueText(f)) && b == pos + 1 + |KeyValueText(f)|
      && HasAt(src, b, FieldsText(fs[1..])) && b + |FieldsText(fs[1..])| == pos + |FieldsText(fs)|
      && b < |src| && AfterValue(src[b])
  {
    var tail := FieldsText(fs[1..]);
    assert FieldsText(fs) == "," + KeyValueText(fs[0]) + tail;
    KeyValueTextHead(fs[0]);
    if fs[1..] != [] {
      FieldsTextHead(fs[1..]);
    }
    CommaField(src, pos, KeyValueText(fs[0]), tail);
  }

  /** The text layout behind `FieldLayout`, for any texts: `,` then a field text that starts
      with a key character or `=`, then a tail that is empty or starts with `,`, then `}`. */
  lemma CommaField(src: string, pos: int, kv: string, tail: string)
    requires HasAt(src, pos, "," + kv + tail) && |kv| > 0 && (KeyChar(kv[0]) || kv[0] == '=')
    requires (tail == [] || tail[0] == ',')
    requires pos + 1 + |kv| + |tail| < |src| && src[pos + 1 + |kv| + |tail|] == '}'
    ensures src[pos] == ',' && (KeyChar(src[pos + 1]) || src[pos + 1] == '=')
    ensures HasAt(src, pos + 1, kv) && HasAt(src, pos + 1 + |kv|, tail)
    ensures pos + 1 + |kv| < |src| && AfterValue(src[pos + 1 + |kv|])
  {
    Split3(src, pos, ",", kv, tail);
    HasAtChar(src, pos, ",", 0);
    HasAtChar(src, pos + 1, kv, 0);
    if tail != [] {
      HasAtChar(src, pos + 1 + |kv|, tail, 0);
    }
  }


  /** `key_value_list` over `F1={v1},...,Fn={vn}` up to the closing `}` reads exactly the
      written pairs and stops on that `}`. */
  lemma ListRead(src: string, st: State, fs: seq<Field>, c: int) returns (r: Parsed<seq<Pair>>)
    requires st.currentEntry in st.entries && |fs| >= 1 && Writable(fs)
    requires HasAt(src, st.pos, KeyValueText(fs[0]) + FieldsText(fs[1..]))
    requires c == st.pos + |KeyValueText(fs[0]) + FieldsText(fs[1..])| && c < |src| && src[c] == '}'
    ensures KeyValueList(src, st) == Ok(r)
    ensures r.value == Pairs(fs) && r.state.pos == c
  {
    var kv := (Upper(fs[0].0), fs[0].1);
    var s2 := Put(st.(pos := st.pos + |KeyValueText(fs[0])|, rawKey := fs[0].0), kv);
    ListNext(src, st, fs, c, s2);
    ListFirst(src, st, fs, c, s2);
    r := FieldsRead(src, s2, [kv], fs[1..], c);
    assert [kv] + Pairs(fs[1..]) == Pairs(fs);
  }

  /** After the first field of `key_value_list`, the rest of the fields follow. */
  lemma ListNext(src: string, st: State, fs: seq<Field>, c: int, s2: State)
    requires st.currentEntry in st.entries && |fs| >= 1 && Writable(fs)
    requires HasAt(src, st.pos, KeyValueText(fs[0]) + FieldsText(fs[1..]))
    requires c == st.pos + |KeyValueText(fs[0]) + FieldsText(fs[1..])| && c < |src| && src[c] == '}'
    requires s2 == Put(st.(pos := st.pos + |KeyValueText(fs[0])|, rawKey := fs[0].0), (Upper(fs[0].0), fs[0].1))
    ensures HasAt(src, s2.pos, FieldsText(fs[1..])) && Writable(fs[1..])
    ensures c == s2.pos + |FieldsText(fs[1..])|
  {
    ListLayout(src, st.pos, fs, c);
  }

  /** The first pair of `key_value_list` is written, then the loop goes on. */
  lemma ListFirst(src: string, st: State, fs: seq<Field>, c: int, s2: State)
    requires st.currentEntry in st.entries && |fs| >= 1 && Writable(fs)
    requires HasAt(src, st.pos, KeyValueText(fs[0]) + FieldsText(fs[1..]))
    requires c == st.pos + |KeyValueText(fs[0]) + FieldsText(fs[1..])| && c < |src| && src[c] == '}'
    requires s2 == Put(st.(pos := st.pos + |KeyValueText(fs[0])|, rawKey := fs[0].0), (Upper(fs[0].0), fs[0].1))
    ensures KeyValueList(src, st) == KeyValueTail(src, s2, [(Upper(fs[0].0), fs[0].1)])
  {
    var f := fs[0];
    var s1 := st.(pos := st.pos + |KeyValueText(f)|, rawKey := f.0);
    ListLayout(src, st.pos, fs, c);
    FieldReads(src, st, f, s1);
    ListHead(src, st, Parsed(s1, (Upper(f.0), f.1)));
  }

  /** Where the first field and the fields after it stand. */
  lemma ListLayout(src: string, p: int, fs: seq<Field>, c: int)
    requires |fs| >= 1 && Writable(fs)
    requires HasAt(src, p, KeyValueText(fs[0]) + FieldsText(fs[1..]))
    requires c == p + |KeyValueText(fs[0]) + FieldsText(fs[1..])| && c < |src| && src[c] == '}'
    ensures var b := p + |KeyValueText(fs[0])|;
      && IsKey(fs[0].0) && Braced(fs[0].1) && Writable(fs[1..])
      && HasAt(src, p, KeyValueText(fs[0])) && HasAt(src, b, FieldsText(fs[1..]))
      && c == b + |FieldsText(fs[1..])| && b < |src| && AfterValue(src[b])
  {
    var f := fs[0];
    var rest := fs[1..];
    var b := p + |KeyValueText(f)|;
    WritableTail(fs);
    HasAtSplit(src, p, KeyValueText(f), FieldsText(rest));
    if rest != [] {
      FieldsTextHead(rest);
      HasAtChar(src, b, FieldsText(rest), 0);
    }
  }

  /** `key_value_list` once its first pair is read: the loop over the rest. */
  lemma ListHead(src: string, st: State, kr: Parsed<Pair>)
    requires 0 <= st.pos <= |src| && st.currentEntry in st.entries
    requires KeyEqualsValue(src, st) == Ok(kr)
    ensures kr.state.currentEntry in kr.state.entries && 0 <= kr.state.pos <= |src|
    ensures KeyValueList(src, st) == KeyValueTail(src, Put(kr.state, kr.value), [kr.value])
  {
  }

  // ----- the entry -----

  /** `K,F1={v1},...,Fn={vn}` up to the closing `}`: the entry's body creates the entry under the
      upper-cased key, with the synthesized fields and the written pairs, and stops on the `}`. */
  lemma BodyReads(src: string, st: State, d: string, k: string, fs: seq<Field>, c: int)
    requires !NonEntry(d) && IsKey(k) && |fs| >= 1 && Writable(fs)
    requires HasAt(src, st.pos, k + FieldsText(fs))
    requires c == st.pos + |k + FieldsText(fs)| && c < |src| && src[c] == '}'
    ensures Body(src, st, d).Ok?
    ensures var b := Body(src, st, d).value;
      && b.pos == c
      && b.currentEntry == Upper(k)
      && b.entries == st.entries[Upper(k) := Assign(BaseFields(k, d), Pairs(fs))]
  {
    var r := BodyParts(src, st, d, k, fs, c);
    EntryBodyOf(src, st, d, Parsed(st.(pos := st.pos + |k|, rawKey := k), Upper(k)), r);
  }

  /** The key, and the field list after its `,`, read up to the closing `}`. */
  lemma BodyParts(src: string, st: State, d: string, k: string, fs: seq<Field>, c: int) returns (r: Parsed<seq<Pair>>)
    requires IsKey(k) && |fs| >= 1 && Writable(fs)
    requires HasAt(src, st.pos, k + FieldsText(fs))
    requires c == st.pos + |k + FieldsText(fs)| && c < |src| && src[c] == '}'
    ensures var kst := st.(pos := st.pos + |k|, rawKey := k);
      && Key(src, st) == Ok(Parsed(kst, Upper(k)))
      && OpenEntry(src, kst, Upper(k), d) == Ok(r)
    ensures r.state.pos == c && r.value == Pairs(fs)
  {
    var st2 := st.(pos := st.pos + |k| + 1, rawKey := k, currentEntry := Upper(k),
                   entries := st.entries[Upper(k) := BaseFields(k, d)]);
    BodyLayout(src, st.pos, k, fs, c);
    r := ListRead(src, st2, fs, c);
    BodyKey(src, st, d, k, st2);
  }

  /** The key of the entry and the `,` after it: the state with the fresh field map, on the
      first field. */
  lemma BodyKey(src: string, st: State, d: string, k: string, st2: State)
    requires IsKey(k) && HasAt(src, st.pos, k)
    requires var kp := st.pos + |k|; kp + 1 < |src| && src[kp] == ',' && (KeyChar(src[kp + 1]) || src[kp + 1] == '=')
    requires st2 == st.(pos := st.pos + |k| + 1, rawKey := k, currentEntry := Upper(k),
                        entries := st.entries[Upper(k) := BaseFields(k, d)])
    ensures var kst := st.(pos := st.pos + |k|, rawKey := k);
      && Key(src, st) == Ok(Parsed(kst, Upper(k)))
      && OpenEntry(src, kst, Upper(k), d) == KeyValueList(src, st2)
  {
    var kp := st.pos + |k|;
    var a := kp + 1;
    var kst := st.(pos := kp, rawKey := k);
    assert st2 == kst.(currentEntry := Upper(k), entries := kst.entries[Upper(k) := BaseFields(k, d)], pos := a);
    CommaAt(src, kp);
    KeyRun(src, st, k, kst);
    OpenSteps(src, kst, Upper(k), d, a);
  }

  /** Where the key and the fields after it stand. */
  lemma BodyLayout(src: string, p: int, k: string, fs: seq<Field>, c: int)
    requires IsKey(k) && |fs| >= 1 && Writable(fs)
    requires HasAt(src, p, k + FieldsText(fs))
    requires c == p + |k + FieldsText(fs)| && c < |src| && src[c] == '}'
    ensures var kp := p + |k|; var rest := KeyValueText(fs[0]) + FieldsText(fs[1..]);
      && HasAt(src, p, k) && src[kp] == ',' && !KeyChar(src[kp])
      && HasAt(src, kp + 1, rest) && c == kp + 1 + |rest| && c < |src|
      && (KeyChar(src[kp + 1]) || src[kp + 1] == '=')
  {
    var kp := p + |k|;
    var kv := KeyValueText(fs[0]);
    var tail := FieldsText(fs[1..]);
    HasAtSplit(src, p, k, FieldsText(fs));
    assert FieldsText(fs) == "," + kv + tail;
    Split3(src, kp, ",", kv, tail);
    HasAtChar(src, kp, ",", 0);
    WritableTail(fs);
    KeyValueTextHead(fs[0]);
    HasAtChar(src, kp + 1, kv, 0);
  }

  /** `OpenEntry` once its `,` is matched: the fresh field map, then the field list. */
  lemma OpenSteps(src: string, st: State, k: string, d: string, p: int)
    requires 0 <= st.pos <= |src| && MatchEnd(src, st.pos, ',') == Ok(p)
    ensures p <= |src|
    ensures OpenEntry(src, st, k, d)
      == KeyValueList(src, st.(currentEntry := k, entries := st.entries[k := BaseFields(st.rawKey, d)], pos := p))
  {
  }

  /** `EntryBody` once its key and the rest of the entry are read. */
  lemma EntryBodyOf(src: string, st: State, d: string, kr: Parsed<string>, r: Parsed<seq<Pair>>)
    requires 0 <= st.pos <= |src| && Key(src, st) == Ok(kr)
    requires OpenEntry(src, kr.state, kr.value, d) == Ok(r)
    ensures EntryBody(src, st, d) == Ok(Parsed(r.state, (kr.state.pos, r.value)))
    ensures !NonEntry(d) ==> Body(src, st, d) == Ok(r.state)
  {
  }

  /** `@T{`: the directive, upper-cased with its `@`, and the cursor on what follows the `{`. */
  lemma OpeningReads(src: string, t: string)
    requires IsKey(t) && HasAt(src, 0, "@" + t + "{")
    requires 2 + |t| < |src| && SkipEnd(src, 2 + |t|) == Ok(2 + |t|)
    ensures Opening(src, Initial) == Ok(Parsed(Initial.(pos := 2 + |t|, rawKey := t), "@" + Upper(t)))
  {
    var st1 := Initial.(pos := 1 + |t|, rawKey := t);
    assert src[0] == '@' && HasAt(src, 1, t) && src[1 + |t|] == '{' && (KeyChar(src[1]) || src[1] == '{') by {
      HasAtSplit(src, 0, "@" + t, "{");
      HasAtSplit(src, 0, "@", t);
      HasAtChar(src, 0, "@", 0);
      HasAtChar(src, 1 + |t|, "{", 0);
      if |t| > 0 {
        HasAtChar(src, 1, t, 0);
      }
    }
    UpperDirective(t);
    KeyRun(src, Initial.(pos := 1), t, st1);
    assert TryMatchAt(src, 1 + |t|, '{') == Ok((1 + |t|, true)) && MatchEnd(src, 1 + |t|, '{') == Ok(2 + |t|) by {
      StopsAt(src, 1 + |t|);
    }
    assert MatchEnd(src, 0, '@') == Ok(1) by {
      StopsAt(src, 0);
      StopsAt(src, 1);
    }
    DirectiveOf(src, Initial, 1, Parsed(st1, Upper(t)));
    OpeningOf(src, Initial, Parsed(st1, "@" + Upper(t)), 2 + |t|);
  }

  /** `directive` once its `@` is matched and its key read. */
  lemma DirectiveOf(src: string, st: State, p: int, kr: Parsed<string>)
    requires 0 <= st.pos <= |src| && MatchEnd(src, st.pos, '@') == Ok(p) && Key(src, st.(pos := p)) == Ok(kr)
    ensures Directive(src, st) == Ok(Parsed(kr.state, "@" + kr.value))
  {
  }

  /** The opening of a pass once the directive is read and a `{` follows it. */
  lemma OpeningOf(src: string, st: State, dr: Parsed<string>, p: int)
    requires 0 <= st.pos <= |src| && Directive(src, st) == Ok(dr)
    requires TryMatchAt(src, dr.state.pos, '{') == Ok((dr.state.pos, true)) && MatchEnd(src, dr.state.pos, '{') == Ok(p)
    ensures Opening(src, st) == Ok(Parsed(dr.state.(pos := p), Upper(dr.value)))
  {
  }

  /** The driver upper-cases the directive once more, which changes nothing. */
  lemma UpperDirective(t: string)
    ensures Upper("@" + Upper(t)) == "@" + Upper(t)
  {
    var d := "@" + Upper(t);
    assert forall i :: 0 <= i < |d| ==> UpperChar(d[i]) == d[i];
  }

  /** Where each part of the written entry stands. */
  lemma EntryLayout(t: string, k: string, fs: seq<Field>)
    requires IsKey(k) && fs != []
    ensures var src := EntryText(t, k, fs);
      && HasAt(src, 0, "@" + t + "{")
      && HasAt(src, 2 + |t|, k + FieldsText(fs))
      && |src| - 1 == 2 + |t| + |k + FieldsText(fs)|
      && src[|src| - 1] == '}'
      && (KeyChar(src[2 + |t|]) || src[2 + |t|] == ',')
  {
    var src := EntryText(t, k, fs);
    var body := k + FieldsText(fs);
    Framed(src, "@" + t + "{", body, "}");
    HasAtChar(src, |src| - 1, "}", 0);
    KeyStart(src, 2 + |t|, k, fs);
  }

  /** The key, or the comma after an empty key, starts the body. */
  lemma KeyStart(src: string, p: int, k: string, fs: seq<Field>)
    requires IsKey(k) && fs != [] && HasAt(src, p, k + FieldsText(fs))
    ensures p < |src| && (KeyChar(src[p]) || src[p] == ',')
  {
    HasAtSplit(src, p, k, FieldsText(fs));
    if |k| > 0 {
      HasAtChar(src, p, k, 0);
    } else {
      FieldsTextHead(fs);
      HasAtChar(src, p, FieldsText(fs), 0);
    }
  }

  /** The closing `}` at the very end: the whole text becomes BIBTEXRAW of the current entry,
      and the cursor rests on that `}`. */
  lemma FinishOne(src: string, b: State)
    requires |src| >= 2 && b.pos == |src| - 1 && src[b.pos] == '}' && b.currentEntry in b.entries
    ensures var cur := b.currentEntry;
      Finish(src, 0, b) == Ok(Parsed(b.(pos := b.pos, entries := b.entries[cur := b.entries[cur]["BIBTEXRAW" := src]]), (0, |src|)))
  {
    var n := |src|;
    StopsAt(src, b.pos);
    assert TryMatchAt(src, b.pos, '}') == Ok((b.pos, true));
    assert SkipEnd(src, n) == Ok(n);
    assert MatchEnd(src, b.pos, '}') == Ok(n);
    assert Closing(src, b.pos) == Ok(n);
    FinishSteps(src, 0, b, n);
    assert Substring(src, 0, n) == src;
    assert ResumesAt(src, n, Resume(src, n));
  }

  /** A text that is one directive from its `@` at 0 to its closer at the end: the driver makes
      that one pass and stops. */
  lemma LoopOnce(src: string, o: Parsed<string>, b: State, st1: State)
    requires |src| >= 2 && src[0] == '@'
    requires Opening(src, Initial) == Ok(o) && Body(src, o.state, o.value) == Ok(b)
    requires Finish(src, 0, b) == Ok(Parsed(st1, (0, |src|)))
    ensures Parse(src) == Ok(st1.entries)
  {
    StopsAt(src, 0);
    assert TryMatchAt(src, 0, '@') == Ok((0, true));
    ItemSteps(src, Initial);
    assert Initial.(pos := 0) == Initial;
    LoopStep(src, Initial, 0, st1, (0, |src|));
    StopsAfterLastDirective(src, st1, |src|);
  }

  /** The opening and the body of the written entry, read up to the closing `}`. */
  lemma EntryReadsToCloser(t: string, k: string, fs: seq<Field>) returns (o: Parsed<string>, b: State)
    requires IsKey(t) && IsKey(k) && |fs| >= 1 && Writable(fs)
    requires !NonEntry("@" + Upper(t))
    ensures var src := EntryText(t, k, fs);
      && |src| >= 2 && src[0] == '@'
      && Opening(src, Initial) == Ok(o) && Body(src, o.state, o.value) == Ok(b)
      && b.pos == |src| - 1 && src[b.pos] == '}'
      && b.currentEntry == Upper(k)
      && b.entries == map[Upper(k) := Assign(BaseFields(k, "@" + Upper(t)), Pairs(fs))]
  {
    var src := EntryText(t, k, fs);
    var d := "@" + Upper(t);
    EntryLayout(t, k, fs);
    assert src[0] == '@' by {
      HasAtChar(src, 0, "@" + t + "{", 0);
    }
    StopsAt(src, 2 + |t|);
    OpeningReads(src, t);
    o := Parsed(Initial.(pos := 2 + |t|, rawKey := t), d);
    BodyReads(src, o.state, d, k, fs, |src| - 1);
    b := Body(src, o.state, d).value;
  }

  /** The single-entry round trip: `@T{K,F1={v1},...,Fn={vn}}`, with key-character names and
      braced texts, parses to one entry under the upper-cased key holding the synthesized fields,
      the written pairs (a later duplicate name winning) and the whole text as BIBTEXRAW. */
  lemma EntryRoundTrip(t: string, k: string, fs: seq<Field>)
    requires IsKey(t) && IsKey(k) && |fs| >= 1 && Writable(fs)
    requires !NonEntry("@" + Upper(t))
    ensures var src := EntryText(t, k, fs);
      Parse(src) == Ok(map[Upper(k) := Assign(BaseFields(k, "@" + Upper(t)), Pairs(fs))["BIBTEXRAW" := src]])
  {
    var src := EntryText(t, k, fs);
    var a := Assign(BaseFields(k, "@" + Upper(t)), Pairs(fs));
    var o, b := EntryReadsToCloser(t, k, fs);
    FinishOne(src, b);
    var e := map[Upper(k) := a["BIBTEXRAW" := src]];
    StampOne(b.entries, Upper(k), a, src);
    LoopOnce(src, o, b, b.(entries := e));
  }

  /** Stamping the raw text into the only entry of a table. */
  lemma StampOne(m: Table, key: string, a: Fields, raw: string)
    requires m == map[key := a]
    ensures key in m && m[key := m[key]["BIBTEXRAW" := raw]] == map[key := a["BIBTEXRAW" := raw]]
  {
  }
}

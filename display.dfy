/** `BibtexDisplay.displayAuthor` (src/bibtex_js.js:353-366): an `and`-separated author list
    written as "A, B, and C". The two regular-expression replacements and the split it relies on
    are spelled out as functions on strings. */
module Display {
  import opened Outcomes

  // ----- the blank characters -----

  /** `\s` of a JavaScript regular expression: its WhiteSpace and LineTerminator characters. */
  predicate IsJsSpace(c: char)
  {
    c == '\t' || c == '\n' || c == '\U{B}' || c == '\U{C}' || c == '\r' || c == ' '
    || c == '\U{A0}' || c == '\U{1680}' || ('\U{2000}' <= c <= '\U{200A}') || c == '\U{2028}'
    || c == '\U{2029}' || c == '\U{202F}' || c == '\U{205F}' || c == '\U{3000}' || c == '\U{FEFF}'
  }

  /** The characters the two replacements rewrite. */
  predicate IsBlank(c: char)
  {
    c == ' ' || c == '\t' || c == '\n'
  }

  /** The length of the run of spaces `[ ]*` at the start of `s`. */
  function SpaceRun(s: string): (n: nat)
    ensures n <= |s|
    ensures forall i :: 0 <= i < n ==> s[i] == ' '
    ensures n < |s| ==> s[n] != ' '
  {
    if s != [] && s[0] == ' ' then 1 + SpaceRun(s[1..]) else 0
  }

  /** The length of the run of `\s` characters at the start of `s`. */
  function WsRun(s: string): (n: nat)
    ensures n <= |s|
    ensures forall i :: 0 <= i < n ==> IsJsSpace(s[i])
    ensures n < |s| ==> !IsJsSpace(s[n])
  {
    if s != [] && IsJsSpace(s[0]) then 1 + WsRun(s[1..]) else 0
  }

  /** The text without its spaces, tabs and newlines: what the replacements must keep. */
  function Visible(s: string): (r: string)
    ensures |r| <= |s|
    ensures forall c :: c in r ==> c in s && !IsBlank(c)
  {
    if s == [] then [] else (if IsBlank(s[0]) then [] else [s[0]]) + Visible(s[1..])
  }

  /** Dropping a prefix made only of blanks leaves the visible text as it was. */
  lemma {:induction false} VisibleSkip(s: string, n: nat)
    requires n <= |s| && forall i :: 0 <= i < n ==> IsBlank(s[i])
    ensures Visible(s) == Visible(s[n..])
  {
    if n > 0 {
      assert s[1..][n - 1..] == s[n..];
      VisibleSkip(s[1..], n - 1);
    }
  }

  // ----- string.replace(/[ ]*[\n\t][ ]*/g, " ") -----

  /** The length of a match of `[ ]*[\n\t][ ]*` at the start of `s`: the greedy space runs around
      one tab or newline. */
  function BreakMatch(s: string): (r: Option<nat>)
    ensures r.Some? ==> 0 < r.value <= |s| && forall i :: 0 <= i < r.value ==> IsBlank(s[i])
    ensures r.Some? ==> exists i :: 0 <= i < r.value && (s[i] == '\n' || s[i] == '\t')
    ensures r.None? ==> forall i :: 0 <= i < |s| && (s[i] == '\n' || s[i] == '\t') ==> exists j :: 0 <= j < i && s[j] != ' '
  {
    var a := SpaceRun(s);
    if a < |s| && (s[a] == '\n' || s[a] == '\t') then
      var b := SpaceRun(s[a + 1..]);
      assert forall i :: a + 1 <= i < a + 1 + b ==> s[i] == s[a + 1..][i - (a + 1)];
      Some(a + 1 + b)
    else
      assert forall i :: 0 <= i < |s| && (s[i] == '\n' || s[i] == '\t') ==> a < i && s[a] != ' ';
      None
  }

  /** The first replacement: every match, leftmost first, becomes one space. */
  function JoinBreaks(s: string): (r: string)
    decreases |s|
  {
    if s == [] then []
    else match BreakMatch(s)
      case Some(n) => " " + JoinBreaks(s[n..])
      case None => [s[0]] + JoinBreaks(s[1..])
  }

  /** After the first replacement no tab and no newline is left, nothing else but blanks has
      changed, and every run of blanks is still a run of blanks, however short. */
  lemma JoinBreaksClean(s: string)
    ensures forall c :: c in JoinBreaks(s) ==> c != '\n' && c != '\t'
    ensures Visible(JoinBreaks(s)) == Visible(s)
    ensures Collapse(JoinBreaks(s)) == Collapse(s)
  {
    JoinBreaksNoBreaks(s);
    JoinBreaksVisible(s);
    CollapseJoinBreaks(s);
  }

  lemma {:induction false} JoinBreaksNoBreaks(s: string)
    ensures forall c :: c in JoinBreaks(s) ==> c != '\n' && c != '\t'
    decreases |s|
  {
    if s != [] {
      match BreakMatch(s)
      case Some(n) =>
        JoinBreaksNoBreaks(s[n..]);
      case None =>
        assert s[0] != '\n' && s[0] != '\t';
        JoinBreaksNoBreaks(s[1..]);
    }
  }

  lemma {:induction false} JoinBreaksVisible(s: string)
    ensures Visible(JoinBreaks(s)) == Visible(s)
    decreases |s|
  {
    if s != [] {
      match BreakMatch(s)
      case Some(n) =>
        JoinBreaksVisible(s[n..]);
        VisibleSkip(s, n);
        VisibleCons(' ', JoinBreaks(s[n..]));
      case None =>
        JoinBreaksVisible(s[1..]);
        VisibleCons(s[0], JoinBreaks(s[1..]));
    }
  }

  /** The visible text of a character followed by more text. */
  lemma VisibleCons(c: char, t: string)
    ensures Visible([c] + t) == (if IsBlank(c) then [] else [c]) + Visible(t)
  {
    assert ([c] + t)[1..] == t;
  }

  /** A text without tabs and newlines passes the first replacement unchanged. */
  lemma {:induction false} JoinBreaksKeeps(s: string)
    requires forall i :: 0 <= i < |s| ==> s[i] != '\n' && s[i] != '\t'
    ensures JoinBreaks(s) == s
    decreases |s|
  {
    if s != [] {
      assert BreakMatch(s).None?;
      JoinBreaksKeeps(s[1..]);
      assert [s[0]] + s[1..] == s;
    }
  }

  // ----- string.replace(/[ ]+/g, " ") -----

  /** The second replacement: every run of spaces becomes one space. */
  function SqueezeSpaces(s: string): (r: string)
    ensures forall c :: c in r ==> c in s
    decreases |s|
  {
    if s == [] then []
    else if s[0] == ' ' then " " + SqueezeSpaces(s[SpaceRun(s)..])
    else [s[0]] + SqueezeSpaces(s[1..])
  }

  /** Two spaces in a row. */
  predicate HasDoubleSpace(s: string)
  {
    exists i :: 0 <= i < |s| - 1 && s[i] == ' ' && s[i + 1] == ' '
  }

  /** After the second replacement no two spaces stand together, the first character is a
      space only if the text began with one, and nothing but spaces has changed. */
  lemma {:induction false} SqueezeSpacesClean(s: string)
    ensures !HasDoubleSpace(SqueezeSpaces(s))
    ensures SqueezeSpaces(s) != [] && SqueezeSpaces(s)[0] == ' ' ==> s[0] == ' '
    ensures Visible(SqueezeSpaces(s)) == Visible(s)
    decreases |s|
  {
    if s != [] {
      if s[0] == ' ' {
        var n := SpaceRun(s);
        var t := s[n..];
        SqueezeSpacesClean(t);
        VisibleSkip(s, n);
        assert Visible(" " + SqueezeSpaces(t)) == Visible(SqueezeSpaces(t));
        assert SqueezeSpaces(t) != [] ==> t != [] && t[0] != ' ' && SqueezeSpaces(t)[0] != ' ';
        NoDoubleAfter(" ", SqueezeSpaces(t));
      } else {
        SqueezeSpacesClean(s[1..]);
        assert ([s[0]] + SqueezeSpaces(s[1..]))[1..] == SqueezeSpaces(s[1..]);
        NoDoubleAfter([s[0]], SqueezeSpaces(s[1..]));
      }
    }
  }

  /** A one-character head keeps a text free of double spaces unless both are spaces. */
  lemma NoDoubleAfter(h: string, t: string)
    requires |h| == 1 && !HasDoubleSpace(t)
    requires t != [] && t[0] == ' ' ==> h[0] != ' '
    ensures !HasDoubleSpace(h + t)
  {
    var s := h + t;
    forall i | 0 <= i < |s| - 1 && s[i] == ' '
      ensures s[i + 1] != ' '
    {
      if i > 0 {
        assert s[i] == t[i - 1] && s[i + 1] == t[i];
      }
    }
  }

  /** A text without double spaces passes the second replacement unchanged. */
  lemma {:induction false} SqueezeSpacesKeeps(s: string)
    requires !HasDoubleSpace(s)
    ensures SqueezeSpaces(s) == s
    decreases |s|
  {
    if s != [] {
      assert !HasDoubleSpace(s[1..]) by {
        forall i | 0 <= i < |s| - 2 && s[1..][i] == ' '
          ensures s[1..][i + 1] != ' '
        {
          assert s[i + 1] == ' ';
        }
      }
      if s[0] == ' ' {
        assert |s| == 1 || s[1] != ' ';
        assert SpaceRun(s) == 1;
      }
      SqueezeSpacesKeeps(s[1..]);
      assert [s[0]] + s[1..] == s;
    }
  }

  // ----- the two replacements together -----

  /** The length of the run of spaces, tabs and newlines at the start of `s`. */
  function BlankRun(s: string): (n: nat)
    ensures n <= |s|
    ensures forall i :: 0 <= i < n ==> IsBlank(s[i])
    ensures n < |s| ==> !IsBlank(s[n])
  {
    if s != [] && IsBlank(s[0]) then 1 + BlankRun(s[1..]) else 0
  }

  /** Every maximal run of spaces, tabs and newlines written as one space, in a single pass. */
  function Collapse(s: string): (r: string)
    decreases |s|
  {
    if s == [] then []
    else if IsBlank(s[0]) then " " + Collapse(s[BlankRun(s)..])
    else [s[0]] + Collapse(s[1..])
  }

  /** A blank in front of a text that starts with a blank joins its run. */
  lemma CollapseCons(c: char, t: string)
    ensures Collapse([c] + t) ==
      if !IsBlank(c) then [c] + Collapse(t)
      else if t != [] && IsBlank(t[0]) then Collapse(t)
      else " " + Collapse(t)
  {
    var s := [c] + t;
    assert s[1..] == t;
    if IsBlank(c) {
      assert BlankRun(s) == 1 + BlankRun(t);
      assert s[BlankRun(s)..] == t[BlankRun(t)..];
    }
  }

  /** The first replacement starts its result with a space where the text starts with a blank,
      and keeps any other first character. */
  lemma JoinBreaksHead(t: string)
    requires t != []
    ensures JoinBreaks(t) != [] && JoinBreaks(t)[0] == if IsBlank(t[0]) then ' ' else t[0]
  {
    match BreakMatch(t)
    case Some(n) =>
      assert IsBlank(t[0]);
    case None =>
  }

  /** The first replacement turns a run of blanks into spaces: one run of them, not none. */
  lemma {:induction false} JoinBreaksRun(t: string)
    requires t != [] && IsBlank(t[0])
    ensures Collapse(JoinBreaks(t)) == " " + Collapse(JoinBreaks(t[BlankRun(t)..]))
    decreases |t|
  {
    var b := BlankRun(t);
    var m := JoinBreaksStep(t);
    var x := JoinBreaks(t[m..]);
    CollapseCons(' ', x);
    if m < b {
      BlankRunSuffix(t, m);
      JoinBreaksRun(t[m..]);
      JoinBreaksHead(t[m..]);
    } else if t[m..] != [] {
      JoinBreaksHead(t[m..]);
    }
  }

  /** On a leading blank the first replacement writes one space and goes on inside the run. */
  lemma JoinBreaksStep(t: string) returns (m: nat)
    requires t != [] && IsBlank(t[0])
    ensures 1 <= m <= BlankRun(t) && JoinBreaks(t) == [' '] + JoinBreaks(t[m..])
  {
    match BreakMatch(t)
    case Some(n) =>
      m := n;
    case None =>
      m := 1;
  }

  /** Dropping part of a leading run of blanks leaves the rest of that run. */
  lemma BlankRunSuffix(t: string, m: nat)
    requires m <= BlankRun(t)
    ensures BlankRun(t[m..]) == BlankRun(t) - m
    ensures t[m..][BlankRun(t[m..])..] == t[BlankRun(t)..]
  {
    var b := BlankRun(t);
    var u := t[m..];
    assert forall i :: 0 <= i < b - m ==> u[i] == t[m + i];
    assert b < |t| ==> u[b - m] == t[b];
    BlankRunIs(u, b - m);
  }

  /** A run of `n` blanks that ends the text or stops before a character that is not blank. */
  lemma {:induction false} BlankRunIs(s: string, n: nat)
    requires n <= |s| && (forall i :: 0 <= i < n ==> IsBlank(s[i])) && (n < |s| ==> !IsBlank(s[n]))
    ensures BlankRun(s) == n
  {
    if n > 0 {
      BlankRunIs(s[1..], n - 1);
    }
  }

  /** The first replacement keeps the runs of blanks and the text between them: collapsing after
      it is collapsing the input. */
  lemma {:induction false} CollapseJoinBreaks(s: string)
    ensures Collapse(JoinBreaks(s)) == Collapse(s)
    decreases |s|
  {
    if s != [] {
      if IsBlank(s[0]) {
        JoinBreaksRun(s);
        CollapseJoinBreaks(s[BlankRun(s)..]);
      } else {
        assert BreakMatch(s).None?;
        CollapseJoinBreaks(s[1..]);
        CollapseCons(s[0], JoinBreaks(s[1..]));
      }
    }
  }

  /** On a text without tabs and newlines, the second replacement is the collapse. */
  lemma {:induction false} SqueezeIsCollapse(s: string)
    requires forall c :: c in s ==> c != '\n' && c != '\t'
    ensures SqueezeSpaces(s) == Collapse(s)
    decreases |s|
  {
    if s != [] {
      assert s[0] in s;
      if s[0] == ' ' {
        var n := SpaceRun(s);
        assert BlankRun(s) == n by {
          if n < |s| {
            assert s[n] in s;
          }
        }
        assert forall c :: c in s[n..] ==> c in s;
        SqueezeIsCollapse(s[n..]);
      } else {
        assert forall c :: c in s[1..] ==> c in s;
        SqueezeIsCollapse(s[1..]);
      }
    }
  }

  /** The two replacements of `displayAuthor` together write every maximal run of spaces, tabs
      and newlines as one space, and change nothing else. */
  lemma ReplacementsCollapse(s: string)
    ensures SqueezeSpaces(JoinBreaks(s)) == Collapse(s)
  {
    JoinBreaksNoBreaks(s);
    SqueezeIsCollapse(JoinBreaks(s));
    CollapseJoinBreaks(s);
  }

  // ----- string.split(/[\s]+and[\s]+/) -----

  /** The length of a match of `[\s]+and[\s]+` at the start of `s`; both runs are greedy. */
  function SepMatch(s: string): (r: Option<nat>)
    ensures r.Some? ==> 5 <= r.value <= |s|
  {
    var a := WsRun(s);
    if 0 < a && a + 3 <= |s| && s[a..a + 3] == "and" && WsRun(s[a + 3..]) > 0
    then Some(a + 3 + WsRun(s[a + 3..]))
    else None
  }

  /** A separator in a prefix is a separator in the whole text. */
  lemma SepMatchExtends(x: string, y: string)
    requires SepMatch(x).Some?
    ensures SepMatch(x + y).Some?
  {
    var s := x + y;
    var a := WsRun(x);
    WsRunPrefix(x, y);
    assert s[a..a + 3] == x[a..a + 3];
    assert s[a + 3..] == x[a + 3..] + y;
    assert WsRun(s[a + 3..]) > 0 by {
      assert s[a + 3..][0] == x[a + 3..][0];
    }
  }

  lemma WsRunPrefix(x: string, y: string)
    requires WsRun(x) < |x|
    ensures WsRun(x + y) == WsRun(x)
  {
    var n := WsRun(x);
    var s := x + y;
    WsRunIs(s, n);
  }

  /** A run of `n` blanks followed by a non-blank has length `n`. */
  lemma {:induction false} WsRunIs(s: string, n: nat)
    requires n < |s| && !IsJsSpace(s[n]) && forall i :: 0 <= i < n ==> IsJsSpace(s[i])
    ensures WsRun(s) == n
  {
    if n > 0 {
      WsRunIs(s[1..], n - 1);
    }
  }

  /** No separator starts anywhere in `s`. */
  predicate NoSep(s: string)
  {
    forall k :: 0 <= k < |s| ==> SepMatch(s[k..]).None?
  }

  /** The split loop: `piece` is the text since the last separator. */
  function SplitFrom(s: string, piece: string): (r: seq<string>)
    ensures |r| >= 1
    decreases |s|
  {
    if s == [] then [piece]
    else match SepMatch(s)
      case Some(n) => [piece] + SplitFrom(s[n..], "")
      case None => SplitFrom(s[1..], piece + [s[0]])
  }

  /** `s.split(/[\s]+and[\s]+/)`: never empty, as the source relies on in `arrayString[0]`. */
  function SplitAnd(s: string): (r: seq<string>)
    ensures |r| >= 1
  {
    SplitFrom(s, "")
  }

  /** Text without a separator comes back from the split whole, with what was before it. */
  lemma SplitFromNoSep(s: string, piece: string)
    requires NoSep(s)
    ensures SplitFrom(s, piece) == [piece + s]
  {
    NoSepBetweenAll(s, 0, |s|);
    SplitFromSkip(s, 0, |s|, piece);
    var rest: string := s[|s|..];
    assert rest == [];
    assert s[0..] == s && s[0..|s|] == s;
    assert SplitFrom(rest, piece + s) == [piece + s];
  }

  /** No piece that the split returns contains a separator: the split cuts at every one of them. */
  lemma {:induction false} SplitFromPieces(s: string, piece: string)
    requires forall k :: 0 <= k < |piece| ==> SepMatch((piece + s)[k..]).None?
    ensures forall i :: 0 <= i < |SplitFrom(s, piece)| ==> NoSep(SplitFrom(s, piece)[i])
    decreases |s|
  {
    if s == [] {
      assert piece + s == piece;
    } else {
      match SepMatch(s)
      case Some(n) =>
        PieceClean(piece, s);
        SplitFromPieces(s[n..], "");
      case None =>
        var p := piece + [s[0]];
        assert p + s[1..] == piece + s;
        forall k | 0 <= k < |p| ensures SepMatch((p + s[1..])[k..]).None? {
          if k == |piece| {
            assert (piece + s)[k..] == s;
          }
        }
        SplitFromPieces(s[1..], p);
    }
  }

  lemma PieceClean(piece: string, s: string)
    requires forall k :: 0 <= k < |piece| ==> SepMatch((piece + s)[k..]).None?
    ensures NoSep(piece)
  {
    forall k | 0 <= k < |piece| ensures SepMatch(piece[k..]).None? {
      assert piece[k..] + s == (piece + s)[k..];
      if SepMatch(piece[k..]).Some? {
        SepMatchExtends(piece[k..], s);
      }
    }
  }

  /** The split finds every separator: its pieces hold none. */
  lemma SplitAndPieces(s: string)
    ensures forall i :: 0 <= i < |SplitAnd(s)| ==> NoSep(SplitAnd(s)[i])
  {
    SplitFromPieces(s, "");
  }

  /** A text with no separator is one author. */
  lemma SplitAndNoSep(s: string)
    requires NoSep(s)
    ensures SplitAnd(s) == [s]
  {
    SplitFromNoSep(s, "");
    assert "" + s == s;
  }

  /** The split cuts at the first separator: at `m`, `n` characters long. */
  lemma SplitAndCut(s: string, m: nat, n: nat)
    requires m <= |s| && forall k :: 0 <= k < m ==> SepMatch(s[k..]).None?
    requires SepMatch(s[m..]) == Some(n)
    ensures m + n <= |s|
    ensures SplitAnd(s) == [s[..m]] + SplitFrom(s[m + n..], "")
  {
    assert s[0..] == s;
    NoSepBetweenAll(s, 0, m);
    SplitFromSkip(s, 0, m, "");
    assert "" + s[0..m] == s[..m];
    assert s[m..][n..] == s[m + n..];
  }

  /** No separator starts at a position in `[i, j)`. */
  predicate NoSepBetween(s: string, i: nat, j: nat)
    requires i <= j <= |s|
    decreases j - i
  {
    i == j || (SepMatch(s[i..]).None? && NoSepBetween(s, i + 1, j))
  }

  lemma {:induction false} NoSepBetweenAll(s: string, i: nat, j: nat)
    requires i <= j <= |s| && forall k :: i <= k < j ==> SepMatch(s[k..]).None?
    ensures NoSepBetween(s, i, j)
    decreases j - i
  {
    if i < j {
      NoSepBetweenAll(s, i + 1, j);
    }
  }

  lemma {:induction false} NoSepBetweenEach(s: string, i: nat, j: nat)
    requires i <= j <= |s| && NoSepBetween(s, i, j)
    ensures forall k :: i <= k < j ==> SepMatch(s[k..]).None?
    decreases j - i
  {
    if i < j {
      NoSepBetweenEach(s, i + 1, j);
    }
  }

  /** A suffix at whose every position no separator starts holds no separator. */
  lemma NoSepSuffix(s: string, i: nat)
    requires i <= |s| && NoSepBetween(s, i, |s|)
    ensures NoSep(s[i..])
  {
    NoSepBetweenEach(s, i, |s|);
    forall k | 0 <= k < |s[i..]| ensures SepMatch(s[i..][k..]).None? {
      assert s[i..][k..] == s[i + k..];
    }
  }

  /** A character at which no separator starts joins the current piece. */
  lemma SplitFromStep(s: string, piece: string)
    requires s != [] && SepMatch(s).None?
    ensures SplitFrom(s, piece) == SplitFrom(s[1..], piece + [s[0]])
  {
  }

  /** Characters at which no separator starts join the current piece. */
  lemma {:induction false} SplitFromSkip(s: string, i: nat, j: nat, piece: string)
    requires i <= j <= |s| && NoSepBetween(s, i, j)
    ensures SplitFrom(s[i..], piece) == SplitFrom(s[j..], piece + s[i..j])
    decreases j - i
  {
    if i < j {
      var r := s[i..];
      assert r[0] == s[i] && r[1..] == s[i + 1..];
      assert SepMatch(r).None?;
      SplitFromStep(r, piece);
      SplitFromSkip(s, i + 1, j, piece + [s[i]]);
      assert piece + [s[i]] + s[i + 1..j] == piece + s[i..j];
    } else {
      assert piece + s[i..j] == piece;
    }
  }

  // ----- joining the names -----

  /** The names joined with ", ". */
  function Commas(names: seq<string>): string
    requires |names| >= 1
  {
    if |names| == 1 then names[0] else Commas(names[..|names| - 1]) + ", " + names[|names| - 1]
  }

  /** The names joined with ", " and ", and " before the last: "A, B, and C". */
  function Serial(names: seq<string>): string
    requires |names| >= 1
  {
    if |names| == 1 then names[0] else Commas(names[..|names| - 1]) + ", and " + names[|names| - 1]
  }

  /** What `displayAuthor` returns for `s`. */
  function Displayed(s: string): string
  {
    Serial(SplitAnd(SqueezeSpaces(JoinBreaks(s))))
  }

  /** `displayAuthor`: the names between the separators, joined "A, B, and C". */
  method DisplayAuthor(s: string) returns (r: string)
    ensures r == Displayed(s)
  {
    var t := JoinBreaks(s);
    t := SqueezeSpaces(t);
    var names := SplitAnd(t);
    assert Displayed(s) == Serial(names);
    r := names[0];
    assert names[..1] == [names[0]];
    for i := 1 to |names|
      invariant r == if i < |names| then Commas(names[..i]) else Serial(names)
    {
      if i + 1 >= |names| {
        SerialLast(names);
        r := r + ", and " + names[i];
      } else {
        CommasNext(names, i);
        r := r + ", " + names[i];
      }
    }
  }

  /** The names up to `i` joined with ", " are those up to `i - 1`, then ", " and name `i`. */
  lemma CommasNext(names: seq<string>, i: nat)
    requires 1 <= i < |names|
    ensures Commas(names[..i + 1]) == Commas(names[..i]) + ", " + names[i]
  {
    assert names[..i + 1][..i] == names[..i];
  }

  /** Two names or more: ", and " before the last one. */
  lemma SerialLast(names: seq<string>)
    requires |names| >= 2
    ensures Serial(names) == Commas(names[..|names| - 1]) + ", and " + names[|names| - 1]
  {
  }

  /** Two names: "A, and B". Three names: "A, B, and C". */
  lemma SerialShapes(a: string, b: string, c: string)
    ensures Serial([a, b]) == a + ", and " + b
    ensures Serial([a, b, c]) == a + ", " + b + ", and " + c
  {
    assert [a, b][..1] == [a];
    assert [a, b, c][..2] == [a, b];
    assert [a, b][..1] == [a];
  }

  /** The names `displayAuthor` joins are the pieces of the input with its blank runs collapsed
      to single spaces; they contain no tab or newline, no two spaces in a row, and no separator,
      and between them they keep every character of the input that is not blank. */
  lemma DisplayedNames(s: string)
    ensures Displayed(s) == Serial(SplitAnd(Collapse(s)))
    ensures var names := SplitAnd(SqueezeSpaces(JoinBreaks(s)));
      forall i :: 0 <= i < |names| ==> NoSep(names[i])
    ensures forall c :: c in SqueezeSpaces(JoinBreaks(s)) ==> c != '\n' && c != '\t'
    ensures !HasDoubleSpace(SqueezeSpaces(JoinBreaks(s)))
    ensures Visible(SqueezeSpaces(JoinBreaks(s))) == Visible(s)
  {
    JoinBreaksClean(s);
    SqueezeSpacesClean(JoinBreaks(s));
    SplitAndPieces(SqueezeSpaces(JoinBreaks(s)));
    ReplacementsCollapse(s);
  }

  /** One author, already free of tabs, newlines and double spaces, is returned unchanged. */
  lemma SingleAuthorUnchanged(s: string)
    requires forall i :: 0 <= i < |s| ==> s[i] != '\n' && s[i] != '\t'
    requires !HasDoubleSpace(s) && NoSep(s)
    ensures Displayed(s) == s
  {
    JoinBreaksKeeps(s);
    SqueezeSpacesKeeps(s);
    SplitAndNoSep(s);
  }

  /** A single space, "and" and a single space before a name are a separator five long. */
  lemma SingleSpacedAnd(t: string)
    requires |t| > 5 && t[0] == ' ' && t[1] == 'a' && t[2] == 'n' && t[3] == 'd' && t[4] == ' '
    requires !IsJsSpace(t[5])
    ensures SepMatch(t) == Some(5)
  {
    assert t[1..4] == "and";
    WsRunIs(t, 1);
    WsRunIs(t[4..], 1);
  }

  /** Two names around one separator, already free of tabs, newlines and double spaces, are
      written "A, and B". */
  lemma DisplayedTwo(s: string, m: nat, n: nat)
    requires forall i :: 0 <= i < |s| ==> s[i] != '\n' && s[i] != '\t'
    requires !HasDoubleSpace(s)
    requires m <= |s| && forall k :: 0 <= k < m ==> SepMatch(s[k..]).None?
    requires SepMatch(s[m..]) == Some(n) && NoSep(s[m + n..])
    ensures m + n <= |s|
    ensures Displayed(s) == s[..m] + ", and " + s[m + n..]
  {
    JoinBreaksKeeps(s);
    SqueezeSpacesKeeps(s);
    SplitAndCut(s, m, n);
    SplitFromNoSep(s[m + n..], "");
    assert "" + s[m + n..] == s[m + n..];
    SerialShapes(s[..m], s[m + n..], "");
  }

  /** Every position in `[i, j)` is not blank, or a single blank before a character other than
      `a`: a test on characters alone. */
  predicate NoAndAt(s: string, i: nat, j: nat)
    requires i <= j <= |s|
    decreases j - i
  {
    i == j || ((!IsJsSpace(s[i]) || (i + 1 < |s| && !IsJsSpace(s[i + 1]) && s[i + 1] != 'a'))
               && NoAndAt(s, i + 1, j))
  }

  /** No separator starts where that test holds. */
  lemma {:induction false} NoAndAtNoSep(s: string, i: nat, j: nat)
    requires i <= j <= |s| && NoAndAt(s, i, j)
    ensures NoSepBetween(s, i, j)
    decreases j - i
  {
    if i < j {
      NotASep(s, i);
      NoAndAtNoSep(s, i + 1, j);
    }
  }

  /** No separator starts at `k` when it is not blank, or a single blank not followed by "and". */
  lemma NotASep(s: string, k: nat)
    requires k < |s|
    requires !IsJsSpace(s[k]) || (k + 1 < |s| && !IsJsSpace(s[k + 1]) && s[k + 1] != 'a')
    ensures SepMatch(s[k..]).None?
  {
    if IsJsSpace(s[k]) {
      WsRunIs(s[k..], 1);
    }
  }
}

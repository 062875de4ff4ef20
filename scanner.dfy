/** The scanner layer of `BibtexParser`: whitespace and `%`-comment skipping, and literal matching
    (src/bibtex_js.js:67-101). Positions are `int` because the cursor can become -1. */
module Scanner {
  import opened Outcomes
  import opened JsText

  /** `isWhitespace` (src/bibtex_js.js:67-69). */
  predicate IsWhitespace(c: char)
  {
    c == ' ' || c == '\r' || c == '\t' || c == '\n'
  }

  /** The cursor rests on something `skipWhitespace` does not skip: the end, or a character
      that is neither whitespace nor `%`. */
  predicate Stopped(src: string, q: int)
  {
    match At(src, q)
    case None => true
    case Some(c) => !IsWhitespace(c) && c != '%'
  }

  /** The cursor after `skipWhitespace` from `p`; `Diverges` when a `%` comment reaches the end of
      the input without a newline, where the source loops forever (src/bibtex_js.js:91-101). */
  function SkipEnd(src: string, p: int): (r: Outcome<int>)
    ensures r.Ok? ==> p <= r.value && Stopped(src, r.value)
    ensures r.Ok? && p <= |src| ==> r.value <= |src|
    ensures r.Fail? ==> r.error == Diverges
    decreases |src| - p, 0
  {
    if 0 <= p < |src| && IsWhitespace(src[p]) then SkipEnd(src, p + 1)
    else if 0 <= p < |src| && src[p] == '%' then SkipComment(src, p + 1)
    else Ok(p)
  }

  /** The comment loop of `skipWhitespace` (src/bibtex_js.js:96-99): it has no end-of-input guard. */
  function SkipComment(src: string, p: int): (r: Outcome<int>)
    requires 0 <= p
    ensures r.Ok? ==> p <= r.value <= |src| && Stopped(src, r.value)
    ensures r.Fail? ==> r.error == Diverges
    decreases |src| - p, 1
  {
    if p >= |src| then Fail(Diverges)
    else if src[p] == '\n' then SkipEnd(src, p)
    else SkipComment(src, p + 1)
  }

  /** `input.substring(q, q + 1) == c`: every token the parser matches is one character long. */
  predicate TokenAt(src: string, q: int, c: char)
  {
    At(src, q) == Some(c)
  }

  /** The test on one character agrees with the test on the clamped substring: `substring` never
      produces a false match, also not at position -1 or at the end of the input. */
  lemma TokenAtIsSubstring(src: string, q: int, c: char)
    ensures TokenAt(src, q, c) <==> Substring(src, q, q + 1) == [c]
  {
    if 0 <= q < |src| {
      assert Substring(src, q, q + 1) == src[q..q + 1];
      assert src[q..q + 1] == [src[q]];
    } else if q < 0 {
      assert Substring(src, q, q + 1) == [];
    } else {
      assert |Substring(src, q, q + 1)| == 0;
    }
  }

  /** `match(s)` (src/bibtex_js.js:71-79): the cursor after the token and the blanks after it. */
  function MatchEnd(src: string, p: int, c: char): (r: Outcome<int>)
    ensures r.Ok? ==> p < r.value && 0 < r.value <= |src| && Stopped(src, r.value)
  {
    var q :- SkipEnd(src, p);
    if TokenAt(src, q, c) then SkipEnd(src, q + 1)
    else Fail(TokenMismatch([c], Substring(src, q, |src|)))
  }

  /** `tryMatch(s)` (src/bibtex_js.js:81-89): the cursor after the skipped blanks, and whether
      the token follows. */
  function TryMatchAt(src: string, p: int, c: char): (r: Outcome<(int, bool)>)
    ensures r.Ok? ==> p <= r.value.0 && Stopped(src, r.value.0)
    ensures r.Ok? && p <= |src| ==> r.value.0 <= |src|
    ensures r.Ok? ==> (r.value.1 <==> 0 <= r.value.0 < |src| && src[r.value.0] == c)
    ensures r.Fail? ==> r.error == Diverges
  {
    var q :- SkipEnd(src, p);
    Ok((q, TokenAt(src, q, c)))
  }

  /** Skipping is idempotent: where it stops, skipping again stays put. */
  lemma SkipEndIdempotent(src: string, p: int)
    requires SkipEnd(src, p).Ok?
    ensures SkipEnd(src, SkipEnd(src, p).value) == SkipEnd(src, p)
  {
  }

  /** `Stopped` positions are exactly the fixed points of skipping. */
  lemma SkipEndFixedPoint(src: string, q: int)
    ensures SkipEnd(src, q) == Ok(q) <==> Stopped(src, q)
  {
  }

  /** Without a `%` ahead, skipping stops at the first character that is not whitespace,
      and never diverges. */
  lemma {:induction false} SkipWithoutComments(src: string, p: nat, q: nat)
    requires p <= q <= |src|
    requires forall k :: p <= k < |src| ==> src[k] != '%'
    requires forall k :: p <= k < q ==> IsWhitespace(src[k])
    requires q == |src| || !IsWhitespace(src[q])
    ensures SkipEnd(src, p) == Ok(q)
    decreases q - p
  {
    if p < q {
      SkipWithoutComments(src, p + 1, q);
    }
  }

  /** A `%` reached through whitespace with no newline after it makes the source loop forever. */
  lemma {:induction false} SkipTrailingComment(src: string, p: nat, k: nat)
    requires p <= k < |src| && src[k] == '%'
    requires forall j :: p <= j < k ==> IsWhitespace(src[j])
    requires forall j :: k <= j < |src| ==> src[j] != '\n'
    ensures SkipEnd(src, p) == Fail(Diverges)
    decreases k - p
  {
    if p < k {
      SkipTrailingComment(src, p + 1, k);
    } else {
      CommentRunsOut(src, k + 1);
    }
  }

  lemma {:induction false} CommentRunsOut(src: string, p: nat)
    requires forall j :: p <= j < |src| ==> src[j] != '\n'
    ensures SkipComment(src, p) == Fail(Diverges)
    decreases |src| - p
  {
    if p < |src| {
      CommentRunsOut(src, p + 1);
    }
  }

  /** Skipping only diverges inside a comment that runs to the end: some `%` at or after `p`
      has no newline after it. */
  lemma {:induction false} SkipDivergesOnlyInComment(src: string, p: int)
    requires SkipEnd(src, p).Fail?
    ensures exists k :: 0 <= p <= k < |src| && src[k] == '%' && forall j :: k <= j < |src| ==> src[j] != '\n'
    decreases |src| - p, 0
  {
    if IsWhitespace(src[p]) {
      SkipDivergesOnlyInComment(src, p + 1);
    } else {
      CommentDivergesAtEnd(src, p + 1, p);
    }
  }

  lemma {:induction false} CommentDivergesAtEnd(src: string, p: nat, k: nat)
    requires k < p <= |src| && src[k] == '%' && forall j :: k <= j < p ==> src[j] != '\n'
    requires SkipComment(src, p).Fail?
    ensures exists k' :: k <= k' < |src| && src[k'] == '%' && forall j :: k' <= j < |src| ==> src[j] != '\n'
    decreases |src| - p, 1
  {
    if p == |src| {
      assert forall j :: k <= j < |src| ==> src[j] != '\n';
    } else {
      if src[p] == '\n' {
        SkipDivergesOnlyInComment(src, p);
        var k' :| 0 <= p <= k' < |src| && src[k'] == '%' && forall j :: k' <= j < |src| ==> src[j] != '\n';
      } else {
        CommentDivergesAtEnd(src, p + 1, k);
      }
    }
  }

  // ----- where skipping lands, stated without the loop -----

  /** Position `k` lies in a comment opened at or after `p`: a `%` at some `j` in `[p, k]` with no
      newline from `j` up to `k`. */
  predicate InComment(src: string, p: int, k: int)
    requires 0 <= k < |src|
  {
    exists j :: 0 <= p <= j <= k && src[j] == '%' && forall m :: j <= m <= k ==> src[m] != '\n'
  }

  /** What `skipWhitespace` from `p` passes over at `k`: whitespace, or comment text. */
  predicate Skippable(src: string, p: int, k: int)
    requires 0 <= k < |src|
  {
    IsWhitespace(src[k]) || InComment(src, p, k)
  }

  /** `q` is where skipping from `p` lands: everything in `[p, q)` is skippable, `q` is not, and a
      landing at the end of the input is not inside an unfinished comment. */
  predicate SkipsTo(src: string, p: int, q: int)
  {
    && 0 <= p <= q <= |src|
    && (forall k :: p <= k < q ==> Skippable(src, p, k))
    && (q < |src| ==> !Skippable(src, p, q))
    && (p < q == |src| ==> !InComment(src, p, q - 1))
  }

  /** Skipping from `p` answers `q` exactly when `q` is where skipping from `p` lands; when no
      such `q` exists it diverges. */
  lemma {:induction false} SkipEndSkipsTo(src: string, p: int, q: int)
    requires 0 <= p <= |src|
    ensures SkipEnd(src, p) == Ok(q) <==> SkipsTo(src, p, q)
    decreases |src| - p, 0
  {
    if p < |src| && IsWhitespace(src[p]) {
      SkipEndSkipsTo(src, p + 1, q);
      PastWhitespace(src, p, q);
    } else if p < |src| && src[p] == '%' {
      CommentSkipsTo(src, p, p + 1, q);
    } else {
      LandsHere(src, p, q);
    }
  }

  /** The comment loop inside a comment opened at `i`, now at `c`, lands where skipping from `i`
      lands. */
  lemma {:induction false} CommentSkipsTo(src: string, i: int, c: int, q: int)
    requires 0 <= i < c <= |src| && src[i] == '%'
    requires forall m :: i <= m < c ==> src[m] != '\n'
    ensures SkipComment(src, c) == Ok(q) <==> SkipsTo(src, i, q)
    decreases |src| - c, 1
  {
    if c == |src| {
      CommentToEnd(src, i, q);
    } else if src[c] == '\n' {
      SkipEndSkipsTo(src, c, q);
      PastNewline(src, i, c, q);
    } else {
      CommentSkipsTo(src, i, c + 1, q);
    }
  }

  lemma PastWhitespace(src: string, i: int, q: int)
    requires 0 <= i < |src| && IsWhitespace(src[i])
    ensures SkipsTo(src, i, q) <==> SkipsTo(src, i + 1, q)
  {
    forall k | i + 1 <= k < |src|
      ensures InComment(src, i, k) <==> InComment(src, i + 1, k)
    {
      if InComment(src, i, k) {
        var j :| 0 <= i <= j <= k && src[j] == '%' && forall m :: j <= m <= k ==> src[m] != '\n';
        assert i + 1 <= j;
      }
    }
    assert Skippable(src, i, i) && !InComment(src, i, i);
    var next := i + 1;
    if SkipsTo(src, i, q) {
      forall k | next <= k < q ensures Skippable(src, next, k) {
        assert Skippable(src, i, k);
      }
    }
    if SkipsTo(src, next, q) {
      forall k | i <= k < q ensures Skippable(src, i, k) {
        if k > i {
          assert Skippable(src, next, k);
        }
      }
    }
  }

  lemma PastNewline(src: string, i: int, c: int, q: int)
    requires 0 <= i < c < |src| && src[i] == '%' && src[c] == '\n'
    requires forall m :: i <= m < c ==> src[m] != '\n'
    ensures SkipsTo(src, i, q) <==> SkipsTo(src, c, q)
  {
    forall k | i <= k < c
      ensures InComment(src, i, k)
    {
      assert forall m :: i <= m <= k ==> src[m] != '\n';
    }
    forall k | c <= k < |src|
      ensures InComment(src, i, k) <==> InComment(src, c, k)
    {
      if InComment(src, i, k) {
        var j :| 0 <= i <= j <= k && src[j] == '%' && forall m :: j <= m <= k ==> src[m] != '\n';
        assert c <= j;
      }
    }
    if SkipsTo(src, i, q) {
      assert c <= q;
      forall k | c <= k < q ensures Skippable(src, c, k) {
        assert Skippable(src, i, k);
      }
    }
    if SkipsTo(src, c, q) {
      forall k | i <= k < q ensures Skippable(src, i, k) {
        if k >= c {
          assert Skippable(src, c, k);
        }
      }
    }
  }

  lemma CommentToEnd(src: string, i: int, q: int)
    requires 0 <= i < |src| && src[i] == '%'
    requires forall m :: i <= m < |src| ==> src[m] != '\n'
    ensures !SkipsTo(src, i, q)
  {
    forall k | i <= k < |src|
      ensures InComment(src, i, k)
    {
      assert forall m :: i <= m <= k ==> src[m] != '\n';
    }
  }

  lemma LandsHere(src: string, p: int, q: int)
    requires 0 <= p <= |src| && Stopped(src, p)
    ensures SkipsTo(src, p, q) <==> q == p
  {
    if p < |src| {
      assert !InComment(src, p, p);
      assert !Skippable(src, p, p);
    }
  }

  /** `tryMatch(c)` from `p` answers where skipping lands, and whether `c` is there. */
  lemma TryMatchLands(src: string, p: int, c: char, q: int, b: bool)
    requires 0 <= p <= |src|
    ensures TryMatchAt(src, p, c) == Ok((q, b)) <==> SkipsTo(src, p, q) && (b <==> q < |src| && src[q] == c)
  {
    SkipEndSkipsTo(src, p, q);
  }

  /** `match(c)` from `p`, where skipping lands at `q`, succeeds exactly when `c` is at `q`, and
      then lands where skipping from just after it lands. */
  lemma MatchEndLands(src: string, p: int, c: char, q: int, r: int)
    requires 0 <= p <= |src| && SkipsTo(src, p, q)
    ensures MatchEnd(src, p, c) == Ok(r) <==> q < |src| && src[q] == c && SkipsTo(src, q + 1, r)
  {
    SkipEndSkipsTo(src, p, q);
    if q < |src| && src[q] == c {
      SkipEndSkipsTo(src, q + 1, r);
    }
  }

  /** `match(s)` succeeds exactly when `tryMatch(s)` answers true, ends where skipping after the
      literal ends, and otherwise reports the token mismatch with the rest of the input. */
  lemma MatchAgreesWithTryMatch(src: string, p: int, c: char, q: int, b: bool)
    requires TryMatchAt(src, p, c) == Ok((q, b))
    ensures b ==> MatchEnd(src, p, c) == SkipEnd(src, q + 1)
    ensures !b ==> MatchEnd(src, p, c) == Fail(TokenMismatch([c], Substring(src, q, |src|)))
  {
    assert SkipEnd(src, p) == Ok(q);
  }
}

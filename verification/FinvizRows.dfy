/** The finviz industry-performance script's pure parts: the response body
    accumulated chunk by chunk, and the search for the page's embedded
    `rows` array with the regular expression

        var\s+rows\s*=\s*(\[[\s\S]*?\]);

    The expression is modelled twice: declaratively (`IsMatch`, what a match
    at a position is) and as a scanner (`FindFrom`), which is proved to
    return the leftmost match with the shortest bracketed text, as
    JavaScript's backtracking engine does. No match sends the script to its
    error exit. */
module FinvizRows {
  import opened Wrappers

  /** JavaScript's `\s`: the WhiteSpace and LineTerminator code points. */
  predicate IsSpace(c: char) {
    var n := c as int;
    || n == 0x09 || n == 0x0A || n == 0x0B || n == 0x0C || n == 0x0D || n == 0x20
    || n == 0xA0 || n == 0x1680 || (0x2000 <= n <= 0x200A)
    || n == 0x2028 || n == 0x2029 || n == 0x202F || n == 0x205F || n == 0x3000 || n == 0xFEFF
  }

  /** Positions `i` up to `j` (exclusive) of `s` are all whitespace. */
  ghost predicate AllSpace(s: string, i: int, j: int) {
    0 <= i <= j <= |s| && forall k :: i <= k < j ==> IsSpace(s[k])
  }

  ghost predicate LiteralAt(s: string, i: int, lit: string) {
    0 <= i && i + |lit| <= |s| && s[i..i + |lit|] == lit
  }

  /** `var\s+rows\s*=\s*\[` matches from `p`, with `rows` at `q`, `=` at `r`
      and the opening bracket at `b`. */
  ghost predicate Head(s: string, p: int, q: int, r: int, b: int) {
    && LiteralAt(s, p, "var")
    && p + 3 < q
    && AllSpace(s, p + 3, q)
    && LiteralAt(s, q, "rows")
    && AllSpace(s, q + 4, r)
    && r < |s| && s[r] == '='
    && AllSpace(s, r + 1, b)
    && b < |s| && s[b] == '['
  }

  ghost predicate HeadAt(s: string, p: int, b: int) {
    exists q, r :: Head(s, p, q, r, b)
  }

  /** `];` starts at `e`. */
  ghost predicate Closes(s: string, e: int) {
    0 <= e && e + 1 < |s| && s[e] == ']' && s[e + 1] == ';'
  }

  /** The whole expression matches from `p`, its group spanning `b..e`. */
  ghost predicate IsMatch(s: string, p: int, b: int, e: int) {
    HeadAt(s, p, b) && b < e && Closes(s, e)
  }

  /** The lazy `[\s\S]*?` stops at the first `];` after the bracket. */
  ghost predicate IsLazyMatch(s: string, p: int, b: int, e: int) {
    IsMatch(s, p, b, e) && forall j :: b < j < e ==> !Closes(s, j)
  }

  /** A match: where it starts, its opening bracket and its closing one. */
  datatype RowsMatch = RowsMatch(start: nat, open: nat, close: nat)

  /** The end of the run of whitespace starting at `i`. */
  function SkipSpaces(s: string, i: nat): (j: nat)
    requires i <= |s|
    ensures i <= j <= |s|
    ensures AllSpace(s, i, j)
    ensures j < |s| ==> !IsSpace(s[j])
    decreases |s| - i
  {
    if i < |s| && IsSpace(s[i]) then SkipSpaces(s, i + 1) else i
  }

  /** A maximal run of whitespace ends where `SkipSpaces` says. */
  lemma SkipSpacesUnique(s: string, i: nat, j: nat)
    requires AllSpace(s, i, j) && j < |s| && !IsSpace(s[j])
    ensures SkipSpaces(s, i) == j
  {
  }

  /** The head of the expression tried at `p`: the only possible position
      of the opening bracket, if there is one. */
  function HeadEnd(s: string, p: nat): (r: Option<nat>)
    requires p <= |s|
    ensures forall b :: HeadAt(s, p, b) <==> r == Some(b)
  {
    if p + 3 <= |s| && s[p..p + 3] == "var" then
      var q := SkipSpaces(s, p + 3);
      if p + 3 < q && q + 4 <= |s| && s[q..q + 4] == "rows" then
        var r := SkipSpaces(s, q + 4);
        if r < |s| && s[r] == '=' then
          var b := SkipSpaces(s, r + 1);
          HeadUnique(s, p, q, r, b);
          if b < |s| && s[b] == '[' then
            assert Head(s, p, q, r, b);
            Some(b)
          else None
        else
          HeadUnique(s, p, q, r, 0);
          None
      else
        HeadUnique(s, p, q, 0, 0);
        None
    else
      None
  }

  /** Every head match at `p` uses the greedy whitespace runs: `rows`, `=`
      and `[` are not whitespace, so no shorter run can be followed by them. */
  lemma HeadUnique(s: string, p: nat, q0: nat, r0: nat, b0: nat)
    requires p + 3 <= |s| && q0 == SkipSpaces(s, p + 3)
    ensures forall q, r, b :: Head(s, p, q, r, b) ==> q == q0
    ensures q0 + 4 <= |s| && r0 == SkipSpaces(s, q0 + 4) ==>
              forall q, r, b :: Head(s, p, q, r, b) ==> r == r0
    ensures q0 + 4 <= |s| && r0 == SkipSpaces(s, q0 + 4) && r0 < |s| && b0 == SkipSpaces(s, r0 + 1) ==>
              forall q, r, b :: Head(s, p, q, r, b) ==> b == b0
  {
    forall q, r, b | Head(s, p, q, r, b)
      ensures q == q0
      ensures q0 + 4 <= |s| && r0 == SkipSpaces(s, q0 + 4) ==> r == r0
      ensures q0 + 4 <= |s| && r0 == SkipSpaces(s, q0 + 4) && r0 < |s| && b0 == SkipSpaces(s, r0 + 1) ==> b == b0
    {
      assert s[q] == s[q..q + 4][0] == 'r';
      SkipSpacesUnique(s, p + 3, q);
      SkipSpacesUnique(s, r + 1, b);
      SkipSpacesUnique(s, q + 4, r);
    }
  }

  /** The first `];` at or after `i`. */
  function CloseFrom(s: string, i: nat): (r: Option<nat>)
    ensures r.Some? ==> i <= r.value && Closes(s, r.value)
    ensures r.Some? ==> forall j :: i <= j < r.value ==> !Closes(s, j)
    ensures r.None? ==> forall j :: i <= j ==> !Closes(s, j)
    decreases |s| - i
  {
    if i + 1 >= |s| then None
    else if s[i] == ']' && s[i + 1] == ';' then Some(i)
    else CloseFrom(s, i + 1)
  }

  /** The engine's search: try each start position from `p` on, in order. */
  function FindFrom(s: string, p: nat): (m: Option<RowsMatch>)
    requires p <= |s|
    ensures m.Some? ==> p <= m.value.start && IsLazyMatch(s, m.value.start, m.value.open, m.value.close)
    ensures m.Some? ==> forall p', b, e :: p <= p' < m.value.start ==> !IsMatch(s, p', b, e)
    ensures m.None? ==> forall p', b, e :: p <= p' ==> !IsMatch(s, p', b, e)
    decreases |s| - p
  {
    var found :=
      match HeadEnd(s, p)
      case None => None
      case Some(b) =>
        match CloseFrom(s, b + 1)
        case None => None
        case Some(e) => Some(RowsMatch(p, b, e));
    if found.Some? then found
    else
      assert forall b, e :: !IsMatch(s, p, b, e);
      if p == |s| then
        assert forall p', b, e :: p <= p' ==> !IsMatch(s, p', b, e);
        None
      else
        var m := FindFrom(s, p + 1);
        assert forall p', b, e :: p <= p' && (m.Some? ==> p' < m.value.start) && p' != p ==> !IsMatch(s, p', b, e);
        m
  }

  /** `html.match(…)`: the leftmost match, or `None` for the error exit. */
  function MatchRows(s: string): (m: Option<RowsMatch>)
    ensures m.None? <==> forall p, b, e :: !IsMatch(s, p, b, e)
    ensures m.Some? ==> IsLazyMatch(s, m.value.start, m.value.open, m.value.close)
    ensures m.Some? ==> forall p, b, e :: 0 <= p < m.value.start ==> !IsMatch(s, p, b, e)
  {
    var m := FindFrom(s, 0);
    assert forall p, b, e :: IsMatch(s, p, b, e) ==> 0 <= p by {
      forall p, b, e | IsMatch(s, p, b, e) ensures 0 <= p {
        var q, r :| Head(s, p, q, r, b);
      }
    }
    m
  }

  /** `match[1]`: the bracketed text of the leftmost match. It starts with
      `[`, ends with the `]` of the first `];` after that bracket, and is
      preceded by the rest of the pattern; none exists exactly when the
      pattern occurs nowhere. */
  function ExtractRows(s: string): (r: Option<string>)
    ensures r.None? <==> forall p, b, e :: !IsMatch(s, p, b, e)
    ensures r.Some? ==> exists p, b, e :: IsLazyMatch(s, p, b, e) && r.value == s[b..e + 1] &&
                                         forall p', b', e' :: 0 <= p' < p ==> !IsMatch(s, p', b', e')
    ensures r.Some? ==> |r.value| >= 2 && r.value[0] == '[' && r.value[|r.value| - 1] == ']'
    ensures r.Some? ==> forall j :: 0 <= j < |r.value| - 1 ==> !(r.value[j] == ']' && r.value[j + 1] == ';')
  {
    match MatchRows(s)
    case None => None
    case Some(m) =>
      var text := s[m.open..m.close + 1];
      LazyTextShape(s, m.start, m.open, m.close, text);
      Some(text)
  }

  /** The group of a lazy match opens with `[`, closes with `]`, and holds no
      `];` before its end. */
  lemma LazyTextShape(s: string, p: int, b: int, e: int, text: string)
    requires IsLazyMatch(s, p, b, e)
    requires 0 <= b <= e < |s| && text == s[b..e + 1]
    ensures |text| >= 2 && text[0] == '[' && text[|text| - 1] == ']'
    ensures forall j :: 0 <= j < |text| - 1 ==> !(text[j] == ']' && text[j + 1] == ';')
  {
    var q, r :| Head(s, p, q, r, b);
    forall j | 0 <= j < |text| - 1
      ensures !(text[j] == ']' && text[j + 1] == ';')
    {
      if j > 0 {
        assert !Closes(s, b + j);
      }
    }
  }

  /** Total length of a run of chunks. */
  function TotalLength(chunks: seq<string>): nat {
    if |chunks| == 0 then 0 else TotalLength(chunks[..|chunks| - 1]) + |chunks[|chunks| - 1]|
  }

  /** Where chunk `i` begins in the accumulated body. */
  function Offset(chunks: seq<string>, i: nat): nat
    requires i <= |chunks|
  {
    TotalLength(chunks[..i])
  }

  lemma {:induction false} OffsetStep(chunks: seq<string>, i: nat)
    requires i < |chunks|
    ensures Offset(chunks, i + 1) == Offset(chunks, i) + |chunks[i]|
  {
    assert chunks[..i + 1][..i] == chunks[..i];
  }

  lemma {:induction false} OffsetMonotone(chunks: seq<string>, i: nat, k: nat)
    requires i <= k <= |chunks|
    ensures Offset(chunks, i) <= Offset(chunks, k)
    decreases k - i
  {
    if i < k {
      OffsetStep(chunks, i);
      OffsetMonotone(chunks, i + 1, k);
    }
  }

  /** `res.on('data', chunk => html += chunk)`: the body is the chunks laid
      end to end, each at its offset, nothing else. */
  method AccumulateBody(chunks: seq<string>) returns (html: string)
    ensures |html| == TotalLength(chunks)
    ensures forall i :: 0 <= i < |chunks| ==>
              Offset(chunks, i) + |chunks[i]| <= |html| &&
              html[Offset(chunks, i)..Offset(chunks, i) + |chunks[i]|] == chunks[i]
  {
    html := "";
    var k := 0;
    while k < |chunks|
      invariant 0 <= k <= |chunks|
      invariant |html| == Offset(chunks, k)
      invariant forall i :: 0 <= i < k ==>
                  Offset(chunks, i) + |chunks[i]| <= |html| &&
                  html[Offset(chunks, i)..Offset(chunks, i) + |chunks[i]|] == chunks[i]
    {
      OffsetStep(chunks, k);
      var prev := html;
      html := html + chunks[k];
      forall i | 0 <= i < k
        ensures html[Offset(chunks, i)..Offset(chunks, i) + |chunks[i]|] == chunks[i]
      {
        assert html[Offset(chunks, i)..Offset(chunks, i) + |chunks[i]|]
            == prev[Offset(chunks, i)..Offset(chunks, i) + |chunks[i]|];
      }
      assert html[Offset(chunks, k)..Offset(chunks, k) + |chunks[k]|] == chunks[k];
      k := k + 1;
    }
    assert chunks[..|chunks|] == chunks;
  }
}

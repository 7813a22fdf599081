/**
 * Hand-written matchers for the regular expressions of the loader and the
 * interpreter. Each follows the backtracking engine's choice of match: the
 * leftmost start position, greedy quantifiers as long as possible and lazy
 * ones as short as possible. `.` excludes line terminators, `\s` is
 * `JsBuiltins.IsSpace` and `\w` is `JsBuiltins.IsWordChar`.
 */
module Patterns {
  import opened JsBuiltins
  import opened Types

  /** The end of the run of white space starting at `i`. */
  function SkipSpaces(s: string, i: nat): (j: nat)
    requires i <= |s|
    ensures i <= j <= |s|
    ensures forall k :: i <= k < j ==> IsSpace(s[k])
    ensures j < |s| ==> !IsSpace(s[j])
    decreases |s| - i
  {
    if i < |s| && IsSpace(s[i]) then SkipSpaces(s, i + 1) else i
  }

  /** The end of the run of word characters starting at `i`. */
  function WordEnd(s: string, i: nat): (j: nat)
    requires i <= |s|
    ensures i <= j <= |s|
    ensures forall k :: i <= k < j ==> IsWordChar(s[k])
    ensures j < |s| ==> !IsWordChar(s[j])
    decreases |s| - i
  {
    if i < |s| && IsWordChar(s[i]) then WordEnd(s, i + 1) else i
  }

  /** The end of the run of characters `.` matches, starting at `i`. */
  function LineEnd(s: string, i: nat): (j: nat)
    requires i <= |s|
    ensures i <= j <= |s|
    ensures forall k :: i <= k < j ==> !IsLineTerminator(s[k])
    ensures j < |s| ==> IsLineTerminator(s[j])
    decreases |s| - i
  {
    if i < |s| && !IsLineTerminator(s[i]) then LineEnd(s, i + 1) else i
  }

  /** `[<>=+!]`. */
  predicate IsOperatorChar(c: char) {
    c == '<' || c == '>' || c == '=' || c == '+' || c == '!'
  }

  /** The end of the run of operator characters starting at `i`. */
  function OperatorEnd(s: string, i: nat): (j: nat)
    requires i <= |s|
    ensures i <= j <= |s|
    ensures forall k :: i <= k < j ==> IsOperatorChar(s[k])
    ensures j < |s| ==> !IsOperatorChar(s[j])
    decreases |s| - i
  {
    if i < |s| && IsOperatorChar(s[i]) then OperatorEnd(s, i + 1) else i
  }

  /** A run ending where the characters stop having the property ends there. */
  lemma SkipSpacesAt(s: string, i: nat, j: nat)
    requires i <= j <= |s|
    requires forall k :: i <= k < j ==> IsSpace(s[k])
    requires j < |s| ==> !IsSpace(s[j])
    ensures SkipSpaces(s, i) == j
  {
  }

  lemma WordEndAt(s: string, i: nat, j: nat)
    requires i <= j <= |s|
    requires forall k :: i <= k < j ==> IsWordChar(s[k])
    requires j < |s| ==> !IsWordChar(s[j])
    ensures WordEnd(s, i) == j
  {
  }

  lemma LineEndAt(s: string, i: nat, j: nat)
    requires i <= j <= |s|
    requires forall k :: i <= k < j ==> !IsLineTerminator(s[k])
    requires j < |s| ==> IsLineTerminator(s[j])
    ensures LineEnd(s, i) == j
  {
  }

  lemma OperatorEndAt(s: string, i: nat, j: nat)
    requires i <= j <= |s|
    requires forall k :: i <= k < j ==> IsOperatorChar(s[k])
    requires j < |s| ==> !IsOperatorChar(s[j])
    ensures OperatorEnd(s, i) == j
  {
  }

  /** The run-end lemmas stated on a slice of the text. */
  lemma SkipSpacesSlice(s: string, i: nat, j: nat)
    requires i <= j <= |s| && AllSpaces(s[i..j]) && (j < |s| ==> !IsSpace(s[j]))
    ensures SkipSpaces(s, i) == j
  {
    assert forall k :: i <= k < j ==> s[k] == s[i..j][k - i];
    SkipSpacesAt(s, i, j);
  }

  lemma WordEndSlice(s: string, i: nat, j: nat)
    requires i <= j <= |s| && IsWord(s[i..j]) && (j < |s| ==> !IsWordChar(s[j]))
    ensures WordEnd(s, i) == j
  {
    assert forall k :: i <= k < j ==> s[k] == s[i..j][k - i];
    WordEndAt(s, i, j);
  }

  /** A slice free of line terminators running to the end of the text is one line. */
  lemma LineEndToEnd(s: string, i: nat)
    requires i <= |s| && forall k :: 0 <= k < |s[i..]| ==> !IsLineTerminator(s[i..][k])
    ensures LineEnd(s, i) == |s|
  {
    assert forall k :: i <= k < |s| ==> s[k] == s[i..][k - i];
    LineEndAt(s, i, |s|);
  }

  // ---------------------------------------------------------------------
  // `->\s*?(\b.+)`: a page header, and the tail of a choice line.

  /**
   * What `\s*?(\b.+)` captures from position `i`: the lazy white space must
   * stop where the word boundary is, so the name starts at the first
   * non-space character, which must be a word character, and runs to the
   * end of the line.
   */
  function ArrowTarget(s: string, i: nat): (r: Option<string>)
    requires i <= |s|
    ensures r.Some? ==> r.value != [] && IsWordChar(r.value[0])
    ensures r.Some? ==> forall k :: 0 <= k < |r.value| ==> !IsLineTerminator(r.value[k])
  {
    var j := SkipSpaces(s, i);
    if j < |s| && IsWordChar(s[j]) then Some(s[j..LineEnd(s, j)]) else None
  }

  /** `->` starting at `p`. */
  predicate ArrowAt(s: string, p: int) {
    0 <= p && p + 1 < |s| && s[p] == '-' && s[p + 1] == '>'
  }

  function HeaderFrom(s: string, p: nat): (r: Option<string>)
    requires p <= |s|
    ensures r.Some? ==> IsTarget(r.value)
    decreases |s| - p
  {
    if p + 2 > |s| then None
    else if ArrowAt(s, p) && ArrowTarget(s, p + 2).Some? then ArrowTarget(s, p + 2)
    else HeaderFrom(s, p + 1)
  }

  /** The capture of `/->\s*?(\b.+)/.exec(line)`, or None when it does not match. */
  function HeaderName(line: string): (r: Option<string>)
    ensures r.Some? ==> IsTarget(r.value)
  {
    HeaderFrom(line, 0)
  }

  // ---------------------------------------------------------------------
  // `\{(.+?)\}`: the content of a logic line.

  /** The first index from `k` on holding `}` or a line terminator. */
  function CloseFrom(s: string, k: nat): (j: nat)
    requires k <= |s|
    ensures k <= j <= |s|
    ensures forall m :: k <= m < j ==> s[m] != '}' && !IsLineTerminator(s[m])
    ensures j < |s| ==> s[j] == '}' || IsLineTerminator(s[j])
    decreases |s| - k
  {
    if k < |s| && s[k] != '}' && !IsLineTerminator(s[k]) then CloseFrom(s, k + 1) else k
  }

  /** The match starting at the `{` at `p`: at least one character, then the nearest `}`. */
  function BraceAt(s: string, p: nat): (r: Option<string>)
    requires p < |s|
    ensures r.Some? ==> r.value != [] && OneLine(r.value)
  {
    if s[p] == '{' && p + 1 < |s| && !IsLineTerminator(s[p + 1]) then
      var k := CloseFrom(s, p + 2);
      if k < |s| && s[k] == '}' then Some(s[p + 1..k]) else None
    else None
  }

  function BraceFrom(s: string, p: nat): (r: Option<string>)
    requires p <= |s|
    ensures r.Some? ==> r.value != [] && OneLine(r.value)
    decreases |s| - p
  {
    if p >= |s| then None
    else if BraceAt(s, p).Some? then BraceAt(s, p)
    else BraceFrom(s, p + 1)
  }

  /** The capture of `/\{(.+?)\}/.exec(line)`. */
  function LogicContent(line: string): (r: Option<string>)
    ensures r.Some? ==> r.value != [] && OneLine(r.value)
  {
    BraceFrom(line, 0)
  }

  // ---------------------------------------------------------------------
  // `\*(.*?)->\s*?(\b.+)`: a choice line.

  datatype ChoiceParts = ChoiceParts(raw: string, target: string)

  /** The lazy label from the `*` at `star` grows one character at a time until the arrow and a target follow. */
  function ChoiceArrow(s: string, star: nat, m: nat): (r: Option<ChoiceParts>)
    requires star < m <= |s|
    ensures r.Some? ==> IsTarget(r.value.target)
    decreases |s| - m
  {
    if ArrowAt(s, m) && ArrowTarget(s, m + 2).Some? then
      Some(ChoiceParts(s[star + 1..m], ArrowTarget(s, m + 2).value))
    else if m < |s| && !IsLineTerminator(s[m]) then ChoiceArrow(s, star, m + 1)
    else None
  }

  function ChoiceFrom(s: string, p: nat): (r: Option<ChoiceParts>)
    requires p <= |s|
    ensures r.Some? ==> IsTarget(r.value.target)
    decreases |s| - p
  {
    if p >= |s| then None
    else if s[p] == '*' && ChoiceArrow(s, p, p + 1).Some? then ChoiceArrow(s, p, p + 1)
    else ChoiceFrom(s, p + 1)
  }

  /** Captures 1 and 2 of `/\*(.*?)->\s*?(\b.+)/.exec(line)`. */
  function ChoiceMatch(line: string): (r: Option<ChoiceParts>)
    ensures r.Some? ==> IsTarget(r.value.target)
  {
    ChoiceFrom(line, 0)
  }

  // ---------------------------------------------------------------------
  // `\{(.*?)\}(.+)`: a guard at the front of a choice label.

  datatype GuardParts = GuardParts(code: string, text: string)

  function GuardClose(s: string, open: nat, k: nat): (r: Option<GuardParts>)
    requires open < k <= |s|
    ensures r.Some? ==> r.value.text != [] && OneLine(r.value.text)
    decreases |s| - k
  {
    if k + 1 < |s| && s[k] == '}' && !IsLineTerminator(s[k + 1]) then
      Some(GuardParts(s[open + 1..k], s[k + 1..LineEnd(s, k + 1)]))
    else if k < |s| && !IsLineTerminator(s[k]) then GuardClose(s, open, k + 1)
    else None
  }

  function GuardFrom(s: string, p: nat): (r: Option<GuardParts>)
    requires p <= |s|
    ensures r.Some? ==> r.value.text != [] && OneLine(r.value.text)
    decreases |s| - p
  {
    if p >= |s| then None
    else if s[p] == '{' && GuardClose(s, p, p + 1).Some? then GuardClose(s, p, p + 1)
    else GuardFrom(s, p + 1)
  }

  /** Captures 1 and 2 of `/\{(.*?)\}(.+)/.exec(raw)`. */
  function GuardMatch(raw: string): (r: Option<GuardParts>)
    ensures r.Some? ==> r.value.text != [] && OneLine(r.value.text)
  {
    GuardFrom(raw, 0)
  }

  // ---------------------------------------------------------------------
  // `(\w+)\s*(?:([<>=+!]+)\s*(-?\w+)?)?`: a logic expression.

  datatype LogicParts = LogicParts(lhs: string, op: Option<string>, value: Option<string>)

  function FirstWordFrom(s: string, p: nat): (r: Option<nat>)
    requires p <= |s|
    ensures r.Some? ==> p <= r.value < |s| && IsWordChar(s[r.value])
    ensures r.Some? ==> forall k :: p <= k < r.value ==> !IsWordChar(s[k])
    ensures r.None? ==> forall k :: p <= k < |s| ==> !IsWordChar(s[k])
    decreases |s| - p
  {
    if p >= |s| then None
    else if IsWordChar(s[p]) then Some(p)
    else FirstWordFrom(s, p + 1)
  }

  /** The three captures of the expression pattern; None when `code` has no word character. */
  function ScanLogic(code: string): (r: Option<LogicParts>)
    ensures r.Some? ==> IsWord(r.value.lhs)
    ensures r.Some? && r.value.value.Some? ==> r.value.op.Some?
    ensures r.Some? && r.value.op.Some? ==> r.value.op.value != []
    ensures r.None? <==> forall k :: 0 <= k < |code| ==> !IsWordChar(code[k])
  {
    match FirstWordFrom(code, 0)
    case None => None
    case Some(i) =>
      var w := WordEnd(code, i);
      var a := SkipSpaces(code, w);
      var o := OperatorEnd(code, a);
      if o == a then Some(LogicParts(code[i..w], None, None))
      else
        Some(LogicParts(code[i..w], Some(code[a..o]), ValueAt(code, SkipSpaces(code, o))))
  }

  /** `(-?\w+)?` at `b`: a word, possibly after a minus sign. */
  function ValueAt(code: string, b: nat): (r: Option<string>)
    requires b <= |code|
    ensures r.Some? ==> r.value != []
  {
    if b + 1 < |code| && code[b] == '-' && IsWordChar(code[b + 1]) then Some(code[b..WordEnd(code, b + 1)])
    else if b < |code| && IsWordChar(code[b]) then Some(code[b..WordEnd(code, b)])
    else None
  }

  // ---------------------------------------------------------------------
  // `\s?\[br\]\s?`: the line-break marker in body text.

  const LineBreak: string := "[br]"

  function AfterOptionalSpace(s: string, e: nat): (r: nat)
    requires e <= |s|
    ensures e <= r <= |s|
  {
    if e < |s| && IsSpace(s[e]) then e + 1 else e
  }

  /** The end of the marker match starting at `q`, taking one optional space on each side. */
  function LineBreakAt(s: string, q: nat): (r: Option<nat>)
    requires q <= |s|
    ensures r.Some? ==> q + 4 <= r.value <= |s|
  {
    if q < |s| && IsSpace(s[q]) && OccursAt(s, LineBreak, q + 1) then Some(AfterOptionalSpace(s, q + 5))
    else if OccursAt(s, LineBreak, q) then Some(AfterOptionalSpace(s, q + 4))
    else None
  }

  /** `s.split(re)` from piece start `p`, trying a match at every `q`. */
  function SplitLineBreaksFrom(s: string, p: nat, q: nat): (r: seq<string>)
    requires p <= q <= |s|
    ensures |r| >= 1
    decreases |s| - q
  {
    if q >= |s| then [s[p..]]
    else match LineBreakAt(s, q)
      case Some(e) => [s[p..q]] + SplitLineBreaksFrom(s, e, e)
      case None => SplitLineBreaksFrom(s, p, q + 1)
  }

  /** `s.split(/\s?\[br\]\s?/)`. */
  function SplitLineBreaks(s: string): (r: seq<string>)
    ensures |r| >= 1
  {
    SplitLineBreaksFrom(s, 0, 0)
  }

  /** No `[br]` anywhere in `t`. */
  ghost predicate NoLineBreak(t: string) {
    forall o :: !OccursAt(t, LineBreak, o)
  }

  /** What one marker match consumes: `[br]` with at most one white-space character on each side. */
  predicate IsLineBreakMatch(m: string) {
    var a := if m != [] && IsSpace(m[0]) then 1 else 0;
    a + 4 <= |m| <= a + 5 && m[a..a + 4] == LineBreak && (|m| == a + 5 ==> IsSpace(m[a + 4]))
  }

  /** The text each marker match consumes, in order, scanning from `q`. */
  function LineBreakMatchesFrom(s: string, q: nat): seq<string>
    requires q <= |s|
    decreases |s| - q
  {
    if q >= |s| then []
    else match LineBreakAt(s, q)
      case Some(e) => [s[q..e]] + LineBreakMatchesFrom(s, e)
      case None => LineBreakMatchesFrom(s, q + 1)
  }

  function LineBreakMatches(s: string): seq<string> {
    LineBreakMatchesFrom(s, 0)
  }

  /** The pieces with the separators put back between them. */
  function Weave(parts: seq<string>, seps: seq<string>): string
    requires |parts| == |seps| + 1
    decreases |seps|
  {
    if seps == [] then parts[0] else parts[0] + seps[0] + Weave(parts[1..], seps[1..])
  }

  lemma LineBreakMatchShape(s: string, q: nat)
    requires q <= |s| && LineBreakAt(s, q).Some?
    ensures IsLineBreakMatch(s[q..LineBreakAt(s, q).value])
  {
    var e := LineBreakAt(s, q).value;
    var m := s[q..e];
    if q < |s| && IsSpace(s[q]) && OccursAt(s, LineBreak, q + 1) {
      assert m[0] == s[q] && m[1..5] == s[q + 1..q + 5];
      if e == q + 6 {
        assert m[5] == s[q + 5];
      }
    } else {
      assert m[0..4] == s[q..q + 4] && m[0] == '[';
      if e == q + 5 {
        assert m[4] == s[q + 4];
      }
    }
  }

  /** A slice over which no marker match starts contains no marker. */
  lemma FragmentClean(s: string, p: nat, q: nat)
    requires p <= q <= |s|
    requires forall o :: p <= o < q ==> LineBreakAt(s, o).None?
    ensures NoLineBreak(s[p..q])
  {
    var t := s[p..q];
    assert |LineBreak| == 4;
    forall o | 0 <= o <= |t| - |LineBreak|
      ensures !OccursAt(t, LineBreak, o)
    {
      assert LineBreakAt(s, p + o).None?;
      var u, v := t[o..o + 4], s[p + o..p + o + 4];
      assert forall j :: 0 <= j < 4 ==> u[j] == v[j];
      assert u == v;
    }
  }

  lemma {:induction false} SplitFragmentsClean(s: string, p: nat, q: nat)
    requires p <= q <= |s|
    requires forall o :: p <= o < q ==> LineBreakAt(s, o).None?
    ensures forall i :: 0 <= i < |SplitLineBreaksFrom(s, p, q)| ==> NoLineBreak(SplitLineBreaksFrom(s, p, q)[i])
    decreases |s| - q
  {
    if q >= |s| {
      FragmentClean(s, p, |s|);
      assert s[p..|s|] == s[p..];
    } else {
      match LineBreakAt(s, q)
      case Some(e) =>
        FragmentClean(s, p, q);
        SplitFragmentsClean(s, e, e);
        var rest := SplitLineBreaksFrom(s, e, e);
        var parts := SplitLineBreaksFrom(s, p, q);
        assert parts == [s[p..q]] + rest;
        forall i | 0 <= i < |parts|
          ensures NoLineBreak(parts[i])
        {
          if i > 0 {
            assert parts[i] == rest[i - 1];
          }
        }
      case None =>
        assert forall o :: p <= o < q + 1 ==> LineBreakAt(s, o).None?;
        SplitFragmentsClean(s, p, q + 1);
        assert SplitLineBreaksFrom(s, p, q) == SplitLineBreaksFrom(s, p, q + 1);
    }
  }

  /** No piece of the split text contains the marker. */
  lemma SplitLineBreaksClean(s: string)
    ensures forall i :: 0 <= i < |SplitLineBreaks(s)| ==> NoLineBreak(SplitLineBreaks(s)[i])
  {
    SplitFragmentsClean(s, 0, 0);
    assert SplitLineBreaks(s) == SplitLineBreaksFrom(s, 0, 0);
  }

  lemma {:induction false} SplitWithoutMarker(s: string, p: nat, q: nat)
    requires p <= q <= |s| && NoLineBreak(s)
    ensures SplitLineBreaksFrom(s, p, q) == [s[p..]]
    decreases |s| - q
  {
    if q < |s| {
      assert !OccursAt(s, LineBreak, q) && !OccursAt(s, LineBreak, q + 1);
      SplitWithoutMarker(s, p, q + 1);
    }
  }

  /** Text without the marker is one piece, unchanged. */
  lemma SplitLineBreaksSingle(s: string)
    requires NoLineBreak(s)
    ensures SplitLineBreaks(s) == [s]
  {
    SplitWithoutMarker(s, 0, 0);
  }

  lemma WeaveCons(x: string, m: string, parts: seq<string>, seps: seq<string>)
    requires |parts| == |seps| + 1
    ensures Weave([x] + parts, [m] + seps) == x + m + Weave(parts, seps)
  {
    assert ([x] + parts)[1..] == parts && ([m] + seps)[1..] == seps;
  }

  lemma {:induction false} SplitWeaveFrom(s: string, p: nat, q: nat)
    requires p <= q <= |s|
    ensures var parts := SplitLineBreaksFrom(s, p, q);
      var seps := LineBreakMatchesFrom(s, q);
      && |parts| == |seps| + 1
      && (forall i :: 0 <= i < |seps| ==> IsLineBreakMatch(seps[i]))
      && Weave(parts, seps) == s[p..]
    decreases |s| - q
  {
    if q < |s| {
      match LineBreakAt(s, q)
      case Some(e) =>
        SplitWeaveFrom(s, e, e);
        LineBreakMatchShape(s, q);
        var parts := SplitLineBreaksFrom(s, e, e);
        var seps := LineBreakMatchesFrom(s, e);
        assert SplitLineBreaksFrom(s, p, q) == [s[p..q]] + parts;
        assert LineBreakMatchesFrom(s, q) == [s[q..e]] + seps;
        WeaveCons(s[p..q], s[q..e], parts, seps);
        assert s[p..] == s[p..q] + s[q..e] + s[e..];
      case None =>
        SplitWeaveFrom(s, p, q + 1);
    }
  }

  /**
   * Splitting loses only the marker matches: putting each match back between
   * its two pieces gives the text again, and each match is `[br]` with at most
   * one white-space character on either side.
   */
  lemma SplitLineBreaksRoundTrip(s: string)
    ensures |SplitLineBreaks(s)| == |LineBreakMatches(s)| + 1
    ensures forall i :: 0 <= i < |LineBreakMatches(s)| ==> IsLineBreakMatch(LineBreakMatches(s)[i])
    ensures Weave(SplitLineBreaks(s), LineBreakMatches(s)) == s
  {
    SplitWeaveFrom(s, 0, 0);
  }

  /** Whether a marker match starts at `d + q` depends only on the text from `d` on. */
  lemma LineBreakAtShift(s: string, d: nat, q: nat)
    requires d + q <= |s|
    ensures LineBreakAt(s, d + q).Some? == LineBreakAt(s[d..], q).Some?
    ensures LineBreakAt(s, d + q).Some? ==> LineBreakAt(s, d + q).value == d + LineBreakAt(s[d..], q).value
  {
    var t := s[d..];
    assert |LineBreak| == 4;
    if q <= |t| - 4 {
      assert s[d + q..d + q + 4] == t[q..q + 4];
    }
    if q + 1 <= |t| - 4 {
      assert s[d + q + 1..d + q + 5] == t[q + 1..q + 5];
    }
    if d + q < |s| {
      assert s[d + q] == t[q];
    }
  }

  /** Splitting the text from `d` on gives the pieces the whole text gives from `d` on. */
  lemma {:induction false} SplitLineBreaksShift(s: string, d: nat, p: nat, q: nat)
    requires p <= q && d + q <= |s|
    ensures SplitLineBreaksFrom(s, d + p, d + q) == SplitLineBreaksFrom(s[d..], p, q)
    decreases |s| - d - q
  {
    var t := s[d..];
    if d + q >= |s| {
      assert s[d + p..] == t[p..];
    } else {
      LineBreakAtShift(s, d, q);
      var whole := SplitLineBreaksFrom(s, d + p, d + q);
      var part := SplitLineBreaksFrom(t, p, q);
      if LineBreakAt(t, q).Some? {
        var e := LineBreakAt(t, q).value;
        assert LineBreakAt(s, d + q) == Some(d + e);
        assert whole == [s[d + p..d + q]] + SplitLineBreaksFrom(s, d + e, d + e);
        assert part == [t[p..q]] + SplitLineBreaksFrom(t, e, e);
        assert s[d + p..d + q] == t[p..q];
        SplitLineBreaksShift(s, d, e, e);
      } else {
        assert whole == SplitLineBreaksFrom(s, d + p, d + q + 1);
        assert part == SplitLineBreaksFrom(t, p, q + 1);
        SplitLineBreaksShift(s, d, p, q + 1);
      }
    }
  }

  /** Positions where no marker match starts do not end the piece. */
  lemma {:induction false} SplitSkip(s: string, p: nat, q: nat, r: nat)
    requires p <= q <= r <= |s|
    requires forall o :: q <= o < r ==> LineBreakAt(s, o).None?
    ensures SplitLineBreaksFrom(s, p, q) == SplitLineBreaksFrom(s, p, r)
    decreases r - q
  {
    if q < r {
      SplitSkip(s, p, q + 1, r);
    }
  }

  /** No marker starts at or before the end of marker-free text followed by ` [br] `. */
  lemma MarkerNotBefore(a: string, b: string, i: nat)
    requires NoLineBreak(a) && i <= |a|
    ensures !OccursAt(a + " [br] " + b, LineBreak, i)
  {
    var s := a + " [br] " + b;
    assert |LineBreak| == 4 && s[|a|] == ' ';
    if i + 4 <= |a| {
      assert s[i..i + 4] == a[i..i + 4];
      assert !OccursAt(a, LineBreak, i);
    } else if i <= |s| - 4 {
      assert s[i..i + 4][|a| - i] == ' ';
      assert LineBreak[|a| - i] != ' ';
    }
  }

  /** No marker match starts inside marker-free text followed by ` [br] `. */
  lemma MarkerAfterClean(a: string, b: string, o: nat)
    requires NoLineBreak(a) && o < |a|
    ensures LineBreakAt(a + " [br] " + b, o).None?
  {
    MarkerNotBefore(a, b, o);
    MarkerNotBefore(a, b, o + 1);
  }

  /** Marker-free text, then ` [br] `, then more text: the first piece is the text before the marker. */
  lemma SplitLineBreaksFirst(a: string, b: string)
    requires NoLineBreak(a)
    ensures SplitLineBreaks(a + " [br] " + b) == [a] + SplitLineBreaks(b)
  {
    var s := a + " [br] " + b;
    var n := |a|;
    forall o | 0 <= o < n
      ensures LineBreakAt(s, o).None?
    {
      MarkerAfterClean(a, b, o);
    }
    SplitSkip(s, 0, 0, n);
    assert s[n] == ' ' && s[n + 1..n + 5] == LineBreak && s[n + 5] == ' ';
    assert LineBreakAt(s, n) == Some(n + 6);
    assert s[0..n] == a && s[n + 6..] == b;
    SplitLineBreaksShift(s, n + 6, 0, 0);
  }

  // ---------------------------------------------------------------------
  // `\{\s*?(\w+)\s*?\}`: a variable placeholder in display text.

  datatype Placeholder = Placeholder(name: string, end: nat)

  /** Only a `{` can open a placeholder. */
  lemma PlaceholderNeedsBrace(s: string, q: nat)
    requires q < |s| && s[q] != '{'
    ensures PlaceholderAt(s, q).None?
  {
  }

  /** The placeholder starting at `q`: `{`, spaces, a word, spaces, `}`. */
  function PlaceholderAt(s: string, q: nat): (r: Option<Placeholder>)
    requires q <= |s|
    ensures r.Some? ==> IsWord(r.value.name) && q < r.value.end <= |s|
  {
    if q < |s| && s[q] == '{' then
      var j := SkipSpaces(s, q + 1);
      var w := WordEnd(s, j);
      var e := SkipSpaces(s, w);
      if j < w && e < |s| && s[e] == '}' then Some(Placeholder(s[j..w], e + 1)) else None
    else None
  }

  // ---------------------------------------------------------------------
  // What the matchers capture from lines laid out the way the markup is written.

  /** No line terminator anywhere in `s`. */
  predicate OneLine(s: string) {
    forall k :: 0 <= k < |s| ==> !IsLineTerminator(s[k])
  }

  /** A name that starts with a word character and stays on one line. */
  predicate IsTarget(s: string) {
    s != [] && IsWordChar(s[0]) && OneLine(s)
  }

  /** After white space, a target running to the end of the line is captured whole. */
  lemma ArrowTargetLayout(s: string, i: nat, sp: string, target: string)
    requires i <= |s| && s[i..] == sp + target
    requires AllSpaces(sp) && IsTarget(target)
    ensures ArrowTarget(s, i) == Some(target)
  {
    var j := i + |sp|;
    assert s[i..j] == sp && s[j..] == target;
    assert s[j] == target[0];
    SkipSpacesSlice(s, i, j);
    LineEndToEnd(s, j);
    assert s[j..|s|] == target;
  }

  /** `-> name`: a header line names its page. */
  lemma HeaderNameLayout(sp: string, name: string)
    requires AllSpaces(sp) && IsTarget(name)
    ensures HeaderName("->" + sp + name) == Some(name)
  {
    var s := "->" + sp + name;
    assert ArrowAt(s, 0) && s[2..] == sp + name;
    ArrowTargetLayout(s, 2, sp, name);
  }

  lemma CloseFromAt(s: string, i: nat, j: nat)
    requires i <= j <= |s|
    requires forall k :: i <= k < j ==> s[k] != '}' && !IsLineTerminator(s[k])
    requires j < |s| ==> s[j] == '}' || IsLineTerminator(s[j])
    ensures CloseFrom(s, i) == j
  {
  }

  /** `{c}` at the front of a logic line: the content is `c`, up to the first `}`. */
  lemma LogicContentLayout(c: string, t: string)
    requires c != [] && OneLine(c)
    requires forall k :: 0 <= k < |c| ==> c[k] != '}'
    ensures LogicContent("{" + c + "}" + t) == Some(c)
  {
    var s := "{" + c + "}" + t;
    var k := 1 + |c|;
    assert forall m :: 1 <= m < k ==> s[m] == c[m - 1];
    assert s[k] == '}';
    CloseFromAt(s, 2, k);
    assert s[1..k] == c;
  }

  /** The lazy label grows past characters that neither end the line nor start `->`. */
  lemma {:induction false} ChoiceArrowSkip(s: string, star: nat, m: nat, e: nat)
    requires star < m <= e <= |s|
    requires forall k :: m <= k < e ==> !IsLineTerminator(s[k]) && !ArrowAt(s, k)
    ensures ChoiceArrow(s, star, m) == ChoiceArrow(s, star, e)
    decreases e - m
  {
    if m < e {
      ChoiceArrowSkip(s, star, m + 1, e);
    }
  }

  /** Inside a label without `->`, no character ends the line or starts the arrow. */
  lemma CaptionScan(s: string, caption: string)
    requires |caption| + 2 <= |s| && s[1..1 + |caption|] == caption && s[1 + |caption|] == '-'
    requires OneLine(caption) && forall k :: !ArrowAt(caption, k)
    ensures forall k :: 1 <= k < 1 + |caption| ==> !IsLineTerminator(s[k]) && !ArrowAt(s, k)
  {
    var m := 1 + |caption|;
    forall k | 1 <= k < m
      ensures !IsLineTerminator(s[k]) && !ArrowAt(s, k)
    {
      assert s[k] == caption[k - 1];
      if k + 1 < m {
        assert !ArrowAt(caption, k - 1);
        assert s[k + 1] == caption[k];
      } else {
        assert s[k + 1] == '-';
      }
    }
  }

  /**
   * `*label-> target`: with no `->` inside the label, the label is everything
   * between the star and the arrow and the target is the rest of the line.
   */
  lemma ChoiceLayout(caption: string, sp: string, target: string)
    requires OneLine(caption) && forall k :: !ArrowAt(caption, k)
    requires AllSpaces(sp) && IsTarget(target)
    ensures ChoiceMatch("*" + caption + "->" + sp + target) == Some(ChoiceParts(caption, target))
  {
    var s := "*" + caption + "->" + sp + target;
    var m := 1 + |caption|;
    assert s[1..m] == caption && s[m] == '-';
    CaptionScan(s, caption);
    ChoiceArrowSkip(s, 0, 1, m);
    var head := "*" + caption + "->";
    assert s == head + (sp + target) && |head| == m + 2;
    assert ArrowAt(s, m);
    ArrowTargetLayout(s, m + 2, sp, target);
    assert ChoiceArrow(s, 0, m) == Some(ChoiceParts(caption, target));
    assert s[0] == '*';
  }

  lemma {:induction false} GuardCloseSkip(s: string, open: nat, k: nat, e: nat)
    requires open < k <= e <= |s|
    requires forall m :: k <= m < e ==> s[m] != '}' && !IsLineTerminator(s[m])
    ensures GuardClose(s, open, k) == GuardClose(s, open, e)
    decreases e - k
  {
    if k < e {
      GuardCloseSkip(s, open, k + 1, e);
    }
  }

  lemma {:induction false} GuardFromSkip(s: string, p: nat, e: nat)
    requires p <= e <= |s|
    requires forall m :: p <= m < e ==> s[m] != '{'
    ensures GuardFrom(s, p) == GuardFrom(s, e)
    decreases e - p
  {
    if p < e {
      GuardFromSkip(s, p + 1, e);
    }
  }

  /**
   * `prefix{c}rest`: the guard is found at the first `{`, whatever comes
   * before it; its code runs to the first `}` and the text is the rest of
   * the line, which must not be empty.
   */
  lemma GuardLayout(prefix: string, c: string, rest: string)
    requires forall k :: 0 <= k < |prefix| ==> prefix[k] != '{'
    requires OneLine(c) && forall k :: 0 <= k < |c| ==> c[k] != '}'
    requires rest != [] && OneLine(rest)
    ensures GuardMatch(prefix + "{" + c + "}" + rest) == Some(GuardParts(c, rest))
  {
    var s := prefix + "{" + c + "}" + rest;
    var o := |prefix|;
    var k := o + 1 + |c|;
    assert forall m :: 0 <= m < o ==> s[m] == prefix[m];
    GuardFromSkip(s, 0, o);
    assert forall m :: o + 1 <= m < k ==> s[m] == c[m - o - 1];
    GuardCloseSkip(s, o, o + 1, k);
    assert s[o] == '{' && s[k] == '}' && s[k + 1] == rest[0];
    var head := prefix + "{" + c + "}";
    assert s == head + rest && |head| == k + 1;
    LineEndToEnd(s, k + 1);
    assert s[o + 1..k] == c && s[k + 1..|s|] == rest;
  }

  /** A label without `{` has no guard. */
  lemma GuardAbsent(raw: string)
    requires forall k :: 0 <= k < |raw| ==> raw[k] != '{'
    ensures GuardMatch(raw).None?
  {
    GuardFromSkip(raw, 0, |raw|);
  }

  /** `{c}` with nothing after it is no guard: the text after `}` must not be empty. */
  lemma GuardNeedsText(c: string)
    requires OneLine(c) && forall k :: 0 <= k < |c| ==> c[k] != '{' && c[k] != '}'
    ensures GuardMatch("{" + c + "}").None?
  {
    var s := "{" + c + "}";
    assert forall m :: 1 <= m < |s| - 1 ==> s[m] == c[m - 1];
    GuardCloseSkip(s, 0, 1, |s| - 1);
    GuardFromSkip(s, 1, |s|);
  }

  // ---------------------------------------------------------------------
  // Lines the matchers reject.

  /** Without `->` from `p` on, no header matches from `p`. */
  lemma {:induction false} HeaderFromNoArrow(s: string, p: nat)
    requires p <= |s| && forall k :: p <= k ==> !ArrowAt(s, k)
    ensures HeaderFrom(s, p).None?
    decreases |s| - p
  {
    if p + 2 <= |s| {
      HeaderFromNoArrow(s, p + 1);
    }
  }

  /** A line without `->` is no header. */
  lemma HeaderNameNoArrow(line: string)
    requires forall k :: !ArrowAt(line, k)
    ensures HeaderName(line).None?
  {
    HeaderFromNoArrow(line, 0);
  }

  /** Without `}` from index 2 on, no `{` can be closed after at least one character. */
  lemma {:induction false} BraceFromUnclosed(s: string, p: nat)
    requires p <= |s| && forall k :: 2 <= k < |s| ==> s[k] != '}'
    ensures BraceFrom(s, p).None?
    decreases |s| - p
  {
    if p < |s| {
      BraceFromUnclosed(s, p + 1);
    }
  }

  /** A line with no `}` after its first two characters has no logic content, `{}` alone included. */
  lemma LogicContentUnclosed(line: string)
    requires forall k :: 2 <= k < |line| ==> line[k] != '}'
    ensures LogicContent(line).None?
  {
    BraceFromUnclosed(line, 0);
  }

  /** `{}` is not empty content when another `}` follows: the lazy group takes the first `}` itself. */
  lemma LogicContentEmptyBraces()
    ensures LogicContent("{}}") == Some("}")
  {
    var s := "{}}";
    assert CloseFrom(s, 2) == 2;
    assert BraceAt(s, 0) == Some(s[1..2]);
    assert s[1..2] == "}";
  }

  /** Without `->` from `m` on, the label never reaches an arrow. */
  lemma {:induction false} ChoiceArrowNoArrow(s: string, star: nat, m: nat)
    requires star < m <= |s| && forall k :: m <= k ==> !ArrowAt(s, k)
    ensures ChoiceArrow(s, star, m).None?
    decreases |s| - m
  {
    if m < |s| && !IsLineTerminator(s[m]) {
      ChoiceArrowNoArrow(s, star, m + 1);
    }
  }

  lemma {:induction false} ChoiceFromNoArrow(s: string, p: nat)
    requires p <= |s| && forall k :: p <= k ==> !ArrowAt(s, k)
    ensures ChoiceFrom(s, p).None?
    decreases |s| - p
  {
    if p < |s| {
      if s[p] == '*' {
        ChoiceArrowNoArrow(s, p, p + 1);
      }
      ChoiceFromNoArrow(s, p + 1);
    }
  }

  /** A line without `->` is no choice, whether or not it holds a `*`. */
  lemma ChoiceMatchNoArrow(line: string)
    requires forall k :: !ArrowAt(line, k)
    ensures ChoiceMatch(line).None?
  {
    ChoiceFromNoArrow(line, 0);
  }
}

/**
 * The page grammar of the quest markup as pure functions over the sequence of
 * significant lines (trimmed, non-empty, not comments) that the line stream
 * delivers. `Loader` runs the same grammar imperatively over a
 * `Stream.QuestStream` and is proved to agree with these functions.
 */
module Grammar {
  import opened JsBuiltins
  import opened Types
  import opened Patterns

  // ---------------------------------------------------------------------
  // Logic expressions.

  /**
   * `parseLogic`: an identifier, optionally an operator and a value. A missing
   * operator and value mean `> 0`; an operator without a value, an operator
   * outside the six, or an operator of the wrong class for `filter` is an error.
   */
  function ParseLogic(filter: LogicFilter, code: string): (r: Result<Logic, LoadError>)
    ensures r.Ok? ==> IsWord(r.value.lhs) && Lower(r.value.lhs) == r.value.lhs
    ensures r.Ok? ==> (r.value.op in MutatingOps <==> filter == State)
    ensures r.Ok? ==> (r.value.op in ConditionalOps <==> filter == Expression)
  {
    match ScanLogic(code)
    case None => Err(InvalidLogicSyntax)
    case Some(m) =>
      if m.op.Some? && m.value.None? then Err(InvalidLogicSyntax)
      else
        var lhs := Lower(m.lhs);
        LowerWord(m.lhs);
        LowerIdempotent(m.lhs);
        var op := if m.value.Some? then m.op.value else ">";
        var rhs := if m.value.Some? then ParseInt(m.value.value) else Num(0);
        match OperatorClass(op)
        case None => Err(InvalidOperation)
        case Some(State) => if filter != State then Err(ConditionExpected) else Ok(Logic(op, lhs, rhs))
        case Some(Expression) => if filter != Expression then Err(NonConditionExpected) else Ok(Logic(op, lhs, rhs))
  }

  /** The context an operator belongs to: `=` and `+=` assign, the four comparisons test. */
  function OperatorClass(op: string): (r: Option<LogicFilter>)
    ensures r == Some(State) <==> op in MutatingOps
    ensures r == Some(Expression) <==> op in ConditionalOps
  {
    if op == "+=" || op == "=" then Some(State)
    else if op == "!=" || op == "==" || op == "<" || op == ">" then Some(Expression)
    else None
  }

  /** `lhs op rhs` as an author would write it. */
  function RenderLogic(l: Logic): string
    requires l.rhs.Num?
  {
    l.lhs + " " + l.op + " " + IntToString(l.rhs.value)
  }

  predicate IsOperator(op: string) {
    op != [] && forall k :: 0 <= k < |op| ==> IsOperatorChar(op[k])
  }

  /** What `(-?\w+)` matches when nothing follows it: a word, possibly after a minus sign. */
  predicate IsValue(v: string) {
    IsWord(v) || (v != [] && v[0] == '-' && IsWord(v[1..]))
  }

  /** Text the unanchored scanner passes over before the name: no word character. */
  predicate NoWordChar(s: string) {
    forall k :: 0 <= k < |s| ==> !IsWordChar(s[k])
  }

  /**
   * The scanner splits `name spaces operator spaces value` into its three
   * parts, after any text without a word character and before any text that
   * does not continue the value's word.
   */
  lemma ScanPaddedLogic(pre: string, w: string, sp1: string, op: string, sp2: string, v: string, tail: string)
    requires NoWordChar(pre) && IsWord(w) && AllSpaces(sp1) && IsOperator(op) && AllSpaces(sp2) && IsValue(v)
    requires tail == [] || !IsWordChar(tail[0])
    ensures ScanLogic(pre + w + sp1 + op + sp2 + v + tail) == Some(LogicParts(w, Some(op), Some(v)))
  {
    var s := pre + w + sp1 + op + sp2 + v + tail;
    var z := |pre|;
    var n := z + |w|;
    var a := n + |sp1|;
    var o := a + |op|;
    var b := o + |sp2|;
    var t := b + |v|;
    assert s[..z] == pre && s[z..n] == w && s[n..a] == sp1 && s[a..o] == op;
    assert s[o..b] == sp2 && s[b..t] == v && s[t..] == tail;
    if t < |s| {
      assert s[t] == tail[0];
    }
    ScanFrom(s, z, n, a, o, b, t);
  }

  /** The scanner splits `name spaces operator spaces value` into its three parts. */
  lemma ScanSpacedLogic(w: string, sp1: string, op: string, sp2: string, v: string)
    requires IsWord(w) && AllSpaces(sp1) && IsOperator(op) && AllSpaces(sp2) && IsValue(v)
    ensures ScanLogic(w + sp1 + op + sp2 + v) == Some(LogicParts(w, Some(op), Some(v)))
  {
    var s := w + sp1 + op + sp2 + v;
    var a := |w| + |sp1|;
    var o := a + |op|;
    var b := o + |sp2|;
    assert s[..0] == [] && s[0..|w|] == w && s[|w|..a] == sp1 && s[a..o] == op && s[o..b] == sp2 && s[b..|s|] == v;
    ScanFrom(s, 0, |w|, a, o, b, |s|);
  }

  /** A name followed by an operator and nothing else scans without a value, after any wordless text. */
  lemma ScanOperatorWithoutValue(pre: string, w: string, sp1: string, op: string, sp2: string)
    requires NoWordChar(pre) && IsWord(w) && AllSpaces(sp1) && IsOperator(op) && AllSpaces(sp2)
    ensures ScanLogic(pre + w + sp1 + op + sp2) == Some(LogicParts(w, Some(op), None))
  {
    var s := pre + w + sp1 + op + sp2;
    var z := |pre|;
    var n := z + |w|;
    var a := n + |sp1|;
    var o := a + |op|;
    assert s[..z] == pre && s[z..n] == w && s[n..a] == sp1 && s[a..o] == op && s[o..|s|] == sp2;
    ScanFrom(s, z, n, a, o, |s|, |s|);
  }

  /** The first word character from `p` on is at `z`. */
  lemma FirstWordAt(s: string, p: nat, z: nat)
    requires p <= z < |s| && IsWordChar(s[z])
    requires forall k :: p <= k < z ==> !IsWordChar(s[k])
    ensures FirstWordFrom(s, p) == Some(z)
    decreases z - p
  {
    if p < z {
      FirstWordAt(s, p + 1, z);
    }
  }

  /**
   * The scanner on text laid out as wordless text up to `z`, a name up to
   * `n`, white space up to `a`, an operator up to `o`, white space up to `b`
   * and then either a value up to `t` or nothing at all.
   */
  lemma ScanFrom(s: string, z: nat, n: nat, a: nat, o: nat, b: nat, t: nat)
    requires z < n <= a < o <= b <= t <= |s|
    requires NoWordChar(s[..z])
    requires IsWord(s[z..n]) && AllSpaces(s[n..a]) && IsOperator(s[a..o]) && AllSpaces(s[o..b])
    requires b == t == |s| || (b < t && IsValue(s[b..t]) && (t < |s| ==> !IsWordChar(s[t])))
    ensures ScanLogic(s) == Some(LogicParts(s[z..n], Some(s[a..o]), if b == t then None else Some(s[b..t])))
  {
    assert s[a] == s[a..o][0];
    ScanNameFrom(s, z, n, a);
    ScanOperatorFrom(s, a, o, b, t);
  }

  /** The operator part of the layout: where the operator and the spaces after it end, and the value. */
  lemma ScanOperatorFrom(s: string, a: nat, o: nat, b: nat, t: nat)
    requires a < o <= b <= t <= |s| && IsOperator(s[a..o]) && AllSpaces(s[o..b])
    requires b == t == |s| || (b < t && IsValue(s[b..t]) && (t < |s| ==> !IsWordChar(s[t])))
    ensures OperatorEnd(s, a) == o && SkipSpaces(s, o) == b
    ensures ValueAt(s, b) == if b == t then None else Some(s[b..t])
  {
    if o < b {
      assert s[o] == s[o..b][0];
    }
    if b < t {
      assert s[b] == s[b..t][0];
      ValueAtSlice(s, b, t);
    }
    OperatorEndSlice(s, a, o);
    SkipSpacesSlice(s, o, b);
  }

  /** The name part of the layout: where the scanner finds the name and where the spaces after it end. */
  lemma ScanNameFrom(s: string, z: nat, n: nat, a: nat)
    requires z < n <= a < |s| && NoWordChar(s[..z]) && IsWord(s[z..n]) && AllSpaces(s[n..a])
    requires !IsSpace(s[a]) && !IsWordChar(s[a])
    ensures FirstWordFrom(s, 0) == Some(z) && WordEnd(s, z) == n && SkipSpaces(s, n) == a
  {
    assert forall k :: 0 <= k < z ==> s[k] == s[..z][k];
    assert s[z] == s[z..n][0];
    FirstWordAt(s, 0, z);
    if n < a {
      assert s[n] == s[n..a][0];
    }
    WordEndSlice(s, z, n);
    SkipSpacesSlice(s, n, a);
  }

  lemma OperatorEndSlice(s: string, i: nat, j: nat)
    requires i <= j <= |s| && IsOperator(s[i..j]) && (j < |s| ==> !IsOperatorChar(s[j]))
    ensures OperatorEnd(s, i) == j
  {
    assert forall k :: i <= k < j ==> s[k] == s[i..j][k - i];
    OperatorEndAt(s, i, j);
  }

  /** A value followed by the end of the text or a non-word character is captured whole. */
  lemma ValueAtSlice(s: string, b: nat, t: nat)
    requires b < t <= |s| && IsValue(s[b..t]) && (t < |s| ==> !IsWordChar(s[t]))
    ensures ValueAt(s, b) == Some(s[b..t])
  {
    var v := s[b..t];
    assert s[b] == v[0];
    if s[b] == '-' {
      assert !IsWord(v);
      assert v[1..] == s[b + 1..t];
      assert s[b + 1] == v[1..][0];
      WordEndSlice(s, b + 1, t);
    } else {
      WordEndSlice(s, b, t);
    }
  }

  /** A bare name, after wordless text and before white space, scans as a name with neither operator nor value. */
  lemma ScanBareName(pre: string, w: string, sp: string)
    requires NoWordChar(pre) && IsWord(w) && AllSpaces(sp)
    ensures ScanLogic(pre + w + sp) == Some(LogicParts(w, None, None))
  {
    var s := pre + w + sp;
    var z := |pre|;
    var n := z + |w|;
    assert s[..z] == pre && s[z..n] == w && s[n..|s|] == sp;
    assert forall k :: 0 <= k < z ==> s[k] == pre[k];
    assert s[z] == w[0];
    FirstWordAt(s, 0, z);
    if n < |s| {
      assert s[n] == sp[0];
    }
    WordEndSlice(s, z, n);
    SkipSpacesSlice(s, n, |s|);
    OperatorEndAt(s, |s|, |s|);
  }

  /**
   * A bare `{x}` reads as `x > 0`: accepted as a guard, rejected in a logic
   * block, whose expressions must assign.
   */
  lemma BareNameMeansPositive(pre: string, w: string, sp: string)
    requires NoWordChar(pre) && IsWord(w) && AllSpaces(sp)
    ensures ParseLogic(Expression, pre + w + sp) == Ok(Logic(">", Lower(w), Num(0)))
    ensures ParseLogic(State, pre + w + sp) == Err(NonConditionExpected)
  {
    ScanBareName(pre, w, sp);
  }

  /** An operator with no value after it, as in `{ x = }`, is a syntax error in either context. */
  lemma OperatorNeedsValue(filter: LogicFilter, pre: string, w: string, sp1: string, op: string, sp2: string)
    requires NoWordChar(pre) && IsWord(w) && AllSpaces(sp1) && IsOperator(op) && AllSpaces(sp2)
    ensures ParseLogic(filter, pre + w + sp1 + op + sp2) == Err(InvalidLogicSyntax)
  {
    ScanOperatorWithoutValue(pre, w, sp1, op, sp2);
  }

  /** Operator strings other than the six, such as `>=` or `=+`, are rejected. */
  lemma UnknownOperatorRejected(filter: LogicFilter, w: string, op: string, v: string)
    requires IsWord(w) && IsOperator(op) && IsWord(v)
    requires op !in MutatingOps && op !in ConditionalOps
    ensures ParseLogic(filter, w + " " + op + " " + v) == Err(InvalidOperation)
  {
    ScanSpacedLogic(w, " ", op, " ", v);
    ParseScanned(filter, w + " " + op + " " + v, w, op, v);
  }

  /**
   * Round trip: a logic expression written out as `lhs op rhs` parses back to
   * itself in the context of its operator's class, and fails in the other.
   */
  lemma RenderLogicRoundTrip(filter: LogicFilter, l: Logic)
    requires IsWord(l.lhs) && Lower(l.lhs) == l.lhs && l.rhs.Num?
    requires l.op in MutatingOps || l.op in ConditionalOps
    ensures l.op in MutatingOps && filter == State ==> ParseLogic(filter, RenderLogic(l)) == Ok(l)
    ensures l.op in ConditionalOps && filter == Expression ==> ParseLogic(filter, RenderLogic(l)) == Ok(l)
    ensures l.op in MutatingOps && filter == Expression ==> ParseLogic(filter, RenderLogic(l)) == Err(ConditionExpected)
    ensures l.op in ConditionalOps && filter == State ==> ParseLogic(filter, RenderLogic(l)) == Err(NonConditionExpected)
  {
    var v := IntToString(l.rhs.value);
    assert IsOperator(l.op);
    ScanSpacedLogic(l.lhs, " ", l.op, " ", v);
    IntToStringRoundTrip(l.rhs.value);
    ParseScanned(filter, RenderLogic(l), l.lhs, l.op, v);
  }

  /**
   * `name op value` with any white space around the operator, after any text
   * without a word character and before any text that does not continue the
   * value: an assignment is accepted only in a logic block, a comparison only
   * as a guard, and any other operator string nowhere; the name is
   * lower-cased.
   */
  lemma ParseWrittenLogic(filter: LogicFilter, pre: string, w: string, sp1: string, op: string, sp2: string,
                          v: string, tail: string)
    requires NoWordChar(pre) && IsWord(w) && AllSpaces(sp1) && IsOperator(op) && AllSpaces(sp2) && IsValue(v)
    requires tail == [] || !IsWordChar(tail[0])
    ensures var r := ParseLogic(filter, pre + w + sp1 + op + sp2 + v + tail);
      && (op in MutatingOps ==>
            r == if filter == State then Ok(Logic(op, Lower(w), ParseInt(v))) else Err(ConditionExpected))
      && (op in ConditionalOps ==>
            r == if filter == Expression then Ok(Logic(op, Lower(w), ParseInt(v))) else Err(NonConditionExpected))
      && (op !in MutatingOps && op !in ConditionalOps ==> r == Err(InvalidOperation))
  {
    ScanPaddedLogic(pre, w, sp1, op, sp2, v, tail);
    ParseScanned(filter, pre + w + sp1 + op + sp2 + v + tail, w, op, v);
  }

  /** How `ParseLogic` judges a scanned name, operator and value. */
  lemma ParseScanned(filter: LogicFilter, code: string, w: string, op: string, v: string)
    requires ScanLogic(code) == Some(LogicParts(w, Some(op), Some(v)))
    ensures ParseLogic(filter, code) ==
      match OperatorClass(op)
      case None => Err(InvalidOperation)
      case Some(State) => if filter == State then Ok(Logic(op, Lower(w), ParseInt(v))) else Err(ConditionExpected)
      case Some(Expression) => if filter == Expression then Ok(Logic(op, Lower(w), ParseInt(v))) else Err(NonConditionExpected)
  {
  }

  // ---------------------------------------------------------------------
  // Maximal runs of lines, and line-by-line parsing.

  /** The length of the longest prefix of `lines` whose lines all satisfy `P`. */
  function Run(lines: seq<string>, P: string -> bool): (k: nat)
    ensures k <= |lines|
    ensures forall i :: 0 <= i < k ==> P(lines[i])
    ensures k < |lines| ==> !P(lines[k])
  {
    if lines != [] && P(lines[0]) then 1 + Run(lines[1..], P) else 0
  }

  /** Within the run, a line satisfying `P` extends the prefix seen so far; any other line ends it. */
  lemma RunStep(lines: seq<string>, P: string -> bool, i: nat)
    requires i <= Run(lines, P)
    ensures i < |lines| && P(lines[i]) ==> i < Run(lines, P)
    ensures i == |lines| || !P(lines[i]) ==> i == Run(lines, P)
  {
  }

  /** Parse every line with `f`, stopping at the first failure. */
  function MapResult<T>(f: string -> Result<T, LoadError>, lines: seq<string>): Result<seq<T>, LoadError> {
    if lines == [] then Ok([])
    else match f(lines[0])
      case Err(e) => Err(e)
      case Ok(v) =>
        match MapResult(f, lines[1..])
        case Err(e) => Err(e)
        case Ok(vs) => Ok([v] + vs)
  }

  /** Line by line parsing succeeds exactly when every line parses, with the lines' values in order. */
  lemma {:induction false} MapResultOk<T>(f: string -> Result<T, LoadError>, lines: seq<string>)
    ensures MapResult(f, lines).Ok? <==> forall i :: 0 <= i < |lines| ==> f(lines[i]).Ok?
    ensures MapResult(f, lines).Ok? ==>
      |MapResult(f, lines).value| == |lines| && forall i :: 0 <= i < |lines| ==> MapResult(f, lines).value[i] == f(lines[i]).value
  {
    if lines != [] {
      MapResultOk(f, lines[1..]);
      assert forall i :: 1 <= i < |lines| ==> lines[1..][i - 1] == lines[i];
    }
  }

  /** A failure is the failure of the first line that does not parse. */
  lemma {:induction false} MapResultFirstError<T>(f: string -> Result<T, LoadError>, lines: seq<string>)
    ensures MapResult(f, lines).Err? ==>
      exists i :: 0 <= i < |lines| && FirstFailure(f, lines, i) && MapResult(f, lines).error == f(lines[i]).error
  {
    if lines != [] && f(lines[0]).Ok? && MapResult(f, lines[1..]).Err? {
      MapResultFirstError(f, lines[1..]);
      var i :| 0 <= i < |lines| - 1 && FirstFailure(f, lines[1..], i) && MapResult(f, lines[1..]).error == f(lines[1..][i]).error;
      assert forall j :: 1 <= j <= i + 1 ==> lines[1..][j - 1] == lines[j];
      assert FirstFailure(f, lines, i + 1);
    } else if lines != [] && f(lines[0]).Err? {
      assert FirstFailure(f, lines, 0);
    }
  }

  /** Line `i` is the first line `f` rejects. */
  predicate FirstFailure<T>(f: string -> Result<T, LoadError>, lines: seq<string>, i: nat)
    requires i < |lines|
  {
    f(lines[i]).Err? && forall j :: 0 <= j < i ==> f(lines[j]).Ok?
  }

  /** Parsing line by line, growing the accepted prefix by one line. */
  lemma MapResultExtend<T>(f: string -> Result<T, LoadError>, lines: seq<string>, i: nat, vs: seq<T>)
    requires i < |lines|
    requires MapResult(f, lines[..i]) == Ok(vs)
    ensures f(lines[i]).Ok? ==> MapResult(f, lines[..i + 1]) == Ok(vs + [f(lines[i]).value])
    ensures f(lines[i]).Err? ==> forall k :: i < k <= |lines| ==> MapResult(f, lines[..k]) == Err(f(lines[i]).error)
  {
    assert lines[..i + 1] == lines[..i] + [lines[i]];
    MapResultSnoc(f, lines[..i], lines[i]);
    if f(lines[i]).Err? {
      forall k | i < k <= |lines|
        ensures MapResult(f, lines[..k]) == Err(f(lines[i]).error)
      {
        assert lines[..k] == lines[..i + 1] + lines[i + 1..k];
        MapResultErrPersists(f, lines[..i + 1], lines[i + 1..k]);
      }
    }
  }

  /** One more line: its failure, if the prefix had none, or its value appended. */
  lemma {:induction false} MapResultSnoc<T>(f: string -> Result<T, LoadError>, xs: seq<string>, x: string)
    ensures MapResult(f, xs + [x]) ==
      match MapResult(f, xs)
      case Err(e) => Err(e)
      case Ok(vs) => (match f(x) case Err(e) => Err(e) case Ok(v) => Ok(vs + [v]))
  {
    if xs == [] {
      assert xs + [x] == [x];
      assert [x][1..] == [];
      if f(x).Ok? {
        assert [f(x).value] + [] == [] + [f(x).value];
      }
    } else {
      assert (xs + [x])[0] == xs[0];
      assert (xs + [x])[1..] == xs[1..] + [x];
      MapResultSnoc(f, xs[1..], x);
      var ys := xs + [x];
      assert ys != [];
      match f(xs[0])
      case Err(e) =>
        assert MapResult(f, ys) == Err(e);
      case Ok(v) =>
        match MapResult(f, xs[1..])
        case Err(e) =>
          assert MapResult(f, ys[1..]) == Err(e);
        case Ok(vs) =>
          assert MapResult(f, xs) == Ok([v] + vs);
          match f(x)
          case Err(e) =>
            assert MapResult(f, ys[1..]) == Err(e);
          case Ok(u) =>
            assert MapResult(f, ys[1..]) == Ok(vs + [u]);
            assert [v] + (vs + [u]) == [v] + vs + [u];
    }
  }

  /** A failure in a prefix is the failure of every extension. */
  lemma {:induction false} MapResultErrPersists<T>(f: string -> Result<T, LoadError>, xs: seq<string>, ys: seq<string>)
    requires MapResult(f, xs).Err?
    ensures MapResult(f, xs + ys) == MapResult(f, xs)
  {
    assert (xs + ys)[0] == xs[0];
    if f(xs[0]).Ok? {
      assert (xs + ys)[1..] == xs[1..] + ys;
      MapResultErrPersists(f, xs[1..], ys);
    }
  }

  /** The remainder of a parse: the value and the lines not consumed. */
  datatype Parsed<T> = Parsed(value: T, rest: seq<string>)

  /**
   * The loop `parsePageLogics` and `parsePageChoices` share: the maximal run of
   * lines satisfying `P`, each parsed by `f` in order, stopping at the first
   * failure; the first other line is left unread.
   */
  function ParseRun<T>(lines: seq<string>, P: string -> bool, f: string -> Result<T, LoadError>): (r: Result<Parsed<seq<T>>, LoadError>)
    ensures r.Ok? ==> |r.value.rest| <= |lines|
    ensures r.Ok? ==> |r.value.value| + |r.value.rest| == |lines|
  {
    var k := Run(lines, P);
    MapResultOk(f, lines[..k]);
    match MapResult(f, lines[..k])
    case Err(e) => Err(e)
    case Ok(vs) => Ok(Parsed(vs, lines[k..]))
  }

  /**
   * The run read line by line: after `i` lines of the run have parsed to `vs`,
   * a line of the run that fails fails the whole run, and the end of the run
   * completes it with `vs`.
   */
  lemma ParseRunAt<T>(lines: seq<string>, P: string -> bool, f: string -> Result<T, LoadError>, i: nat, vs: seq<T>)
    requires i <= Run(lines, P) && MapResult(f, lines[..i]) == Ok(vs)
    ensures i < Run(lines, P) && f(lines[i]).Err? ==> ParseRun(lines, P, f) == Err(f(lines[i]).error)
    ensures i == Run(lines, P) ==> ParseRun(lines, P, f) == Ok(Parsed(vs, lines[i..]))
  {
    var k := Run(lines, P);
    if i < k && f(lines[i]).Err? {
      MapResultExtend(f, lines, i, vs);
      assert MapResult(f, lines[..k]) == Err(f(lines[i]).error);
    }
  }

  predicate IsLogicLine(line: string) {
    line != "" && line[0] == '{'
  }

  /** A body line: anything but a choice (`*`) or a header-like line (`-`). */
  predicate IsTextLine(line: string) {
    line != "" && line[0] != '*' && line[0] != '-'
  }

  predicate IsChoiceLine(line: string) {
    line != "" && line[0] == '*'
  }

  /** One line of a logic block: its `{...}` content as a mutating expression. */
  function LogicLine(line: string): (r: Result<Logic, LoadError>)
    ensures r.Ok? ==> r.value.op in MutatingOps
    ensures LogicContent(line).None? ==> r == Err(InvalidLogic)
  {
    match LogicContent(line)
    case None => Err(InvalidLogic)
    case Some(code) => ParseLogic(State, code)
  }

  /** A line with no `}` after its first two characters, such as `{}` or `{x = 1`, is an invalid logic line. */
  lemma LogicLineUnclosed(line: string)
    requires forall k :: 2 <= k < |line| ==> line[k] != '}'
    ensures LogicLine(line) == Err(InvalidLogic)
  {
    LogicContentUnclosed(line);
  }

  /** `{}}` captures `}`, which holds no name: a syntax error rather than an invalid logic line. */
  lemma LogicLineEmptyBraces()
    ensures LogicLine("{}}") == Err(InvalidLogicSyntax)
  {
    LogicContentEmptyBraces();
    assert ScanLogic("}").None?;
  }

  /** `{c}` followed by anything: the logic is `c`, up to the first `}`, parsed as a mutating expression. */
  lemma LogicLineLayout(c: string, t: string)
    requires c != [] && OneLine(c) && forall k :: 0 <= k < |c| ==> c[k] != '}'
    ensures LogicLine("{" + c + "}" + t) == ParseLogic(State, c)
  {
    LogicContentLayout(c, t);
  }

  /**
   * `parsePageLogics`: the maximal run of `{` lines, one logic each in order,
   * stopping before the first other line; absent when the run is empty.
   */
  function PageLogics(lines: seq<string>): (r: Result<Parsed<Option<seq<Logic>>>, LoadError>)
    ensures r.Ok? ==> |r.value.rest| <= |lines|
  {
    match ParseRun(lines, IsLogicLine, LogicLine)
    case Err(e) => Err(e)
    case Ok(run) => Ok(Parsed(if run.value == [] then None else Some(run.value), run.rest))
  }

  /**
   * The logic block succeeds exactly when every line of the run parses; it
   * then holds their logics in order, is absent for an empty run, and leaves
   * the first other line unread.
   */
  lemma PageLogicsSpec(lines: seq<string>)
    ensures var r := PageLogics(lines);
      var k := Run(lines, IsLogicLine);
      && (r.Ok? <==> forall i :: 0 <= i < k ==> LogicLine(lines[i]).Ok?)
      && (r.Ok? ==> r.value.rest == lines[k..])
      && (r.Ok? ==> (r.value.value.None? <==> k == 0))
      && (r.Ok? && r.value.value.Some? ==>
            |r.value.value.value| == k && forall i :: 0 <= i < k ==> Ok(r.value.value.value[i]) == LogicLine(lines[i]))
  {
    var k := Run(lines, IsLogicLine);
    var run := lines[..k];
    assert forall i :: 0 <= i < k ==> run[i] == lines[i];
    MapResultOk(LogicLine, run);
  }

  /**
   * `parsePageTexts`: the maximal run of body lines, joined with single spaces
   * and split at each line-break marker; an empty run is an error.
   */
  function PageTexts(lines: seq<string>): (r: Result<Parsed<seq<string>>, LoadError>)
    ensures var k := Run(lines, IsTextLine);
      && (r.Err? <==> k == 0)
      && (r.Ok? ==> r.value.rest == lines[k..] && |r.value.value| >= 1)
      && (r.Ok? ==> r.value.value == SplitLineBreaks(Join(lines[..k], " ")))
  {
    var k := Run(lines, IsTextLine);
    if k == 0 then Err(InvalidTexts)
    else Ok(Parsed(SplitLineBreaks(Join(lines[..k], " ")), lines[k..]))
  }

  /**
   * One choice line: the target lower-cased; an empty label gives neither text
   * nor guard; a label `{c}` followed by at least one character gives the guard
   * `c` and the trimmed rest as text; any other label is trimmed text.
   */
  function ChoiceLine(line: string): Result<Choice, LoadError> {
    match ChoiceMatch(line)
    case None => Err(InvalidChoiceSyntax)
    case Some(parts) =>
      var link := Lower(parts.target);
      if parts.raw == [] then Ok(Choice(None, link, None))
      else match GuardMatch(parts.raw)
        case None => Ok(Choice(Some(Trim(parts.raw)), link, None))
        case Some(g) =>
          match ParseLogic(Expression, g.code)
          case Err(e) => Err(e)
          case Ok(cond) => Ok(Choice(Some(Trim(g.text)), link, Some(cond)))
  }

  /** A line without `->` is a choice syntax error. */
  lemma ChoiceLineNoArrow(line: string)
    requires forall k :: !ArrowAt(line, k)
    ensures ChoiceLine(line) == Err(InvalidChoiceSyntax)
  {
    ChoiceMatchNoArrow(line);
  }

  /**
   * A choice line that parses matched the choice pattern; its link is the
   * lower-cased target, it has text exactly when the label is not empty, and
   * a guard only with text and only as a comparison.
   */
  lemma ChoiceLineSpec(line: string)
    ensures var r := ChoiceLine(line);
      && (ChoiceMatch(line).None? ==> r == Err(InvalidChoiceSyntax))
      && (r.Ok? ==> ChoiceMatch(line).Some? && r.value.link == Lower(ChoiceMatch(line).value.target))
      && (r.Ok? ==> WellFormedChoice(r.value))
      && (r.Ok? ==> (r.value.text.None? <==> ChoiceMatch(line).value.raw == []))
  {
    if ChoiceMatch(line).Some? {
      LowerIdempotent(ChoiceMatch(line).value.target);
    }
  }

  /** `*-> target`: no label, so neither text nor guard. */
  lemma ChoiceLineUnlabelled(sp: string, target: string)
    requires AllSpaces(sp) && IsTarget(target)
    ensures ChoiceLine("*->" + sp + target) == Ok(Choice(None, Lower(target), None))
  {
    ChoiceLayout([], sp, target);
    assert "*" + [] + "->" == "*->";
  }

  /** `*label-> target` with no `{` in the label: the trimmed label is the text and there is no guard. */
  lemma ChoiceLinePlain(caption: string, sp: string, target: string)
    requires caption != [] && OneLine(caption) && forall k :: !ArrowAt(caption, k)
    requires forall k :: 0 <= k < |caption| ==> caption[k] != '{'
    requires AllSpaces(sp) && IsTarget(target)
    ensures ChoiceLine("*" + caption + "->" + sp + target) == Ok(Choice(Some(Trim(caption)), Lower(target), None))
  {
    ChoiceLayout(caption, sp, target);
    GuardAbsent(caption);
  }

  /** `*{c}-> target`: a guard needs text after it, so a label that is only `{c}` is plain text. */
  lemma ChoiceLineBracesOnly(c: string, sp: string, target: string)
    requires OneLine(c) && forall k :: !ArrowAt(c, k)
    requires forall k :: 0 <= k < |c| ==> c[k] != '{' && c[k] != '}'
    requires AllSpaces(sp) && IsTarget(target)
    ensures ChoiceLine("*" + ("{" + c + "}") + "->" + sp + target) == Ok(Choice(Some(Trim("{" + c + "}")), Lower(target), None))
  {
    var caption := "{" + c + "}";
    forall k | 0 <= k < |caption|
      ensures !IsLineTerminator(caption[k]) && !ArrowAt(caption, k)
    {
      if 0 < k < |caption| - 1 {
        assert caption[k] == c[k - 1];
        if k + 1 < |caption| - 1 {
          assert !ArrowAt(c, k - 1) && caption[k + 1] == c[k];
        }
      }
    }
    ChoiceLayout(caption, sp, target);
    GuardNeedsText(c);
  }

  /**
   * `*prefix{c}rest-> target`: the first `{` opens the guard; `c` must parse
   * as a comparison, and the text is the trimmed rest after `}`. Whatever
   * stands before the `{` is dropped.
   */
  lemma ChoiceLineGuarded(prefix: string, c: string, rest: string, sp: string, target: string)
    requires OneLine(prefix) && forall k :: 0 <= k < |prefix| ==> prefix[k] != '{'
    requires OneLine(c) && forall k :: 0 <= k < |c| ==> c[k] != '}'
    requires rest != [] && OneLine(rest)
    requires forall k :: !ArrowAt(prefix + "{" + c + "}" + rest, k)
    requires AllSpaces(sp) && IsTarget(target)
    ensures var r := ChoiceLine("*" + (prefix + "{" + c + "}" + rest) + "->" + sp + target);
      match ParseLogic(Expression, c)
      case Err(e) => r == Err(e)
      case Ok(cond) => r == Ok(Choice(Some(Trim(rest)), Lower(target), Some(cond)))
  {
    var caption := prefix + "{" + c + "}" + rest;
    OneLineGuard(prefix, c, rest);
    ChoiceLayout(caption, sp, target);
    GuardLayout(prefix, c, rest);
  }

  lemma OneLineGuard(prefix: string, c: string, rest: string)
    requires OneLine(prefix) && OneLine(c) && OneLine(rest)
    ensures OneLine(prefix + "{" + c + "}" + rest)
  {
    var caption := prefix + "{" + c + "}" + rest;
    var o := |prefix|;
    var k := o + 1 + |c|;
    forall m | 0 <= m < |caption|
      ensures !IsLineTerminator(caption[m])
    {
      if m < o {
        assert caption[m] == prefix[m];
      } else if o < m < k {
        assert caption[m] == c[m - o - 1];
      } else if k < m {
        assert caption[m] == rest[m - k - 1];
      }
    }
  }

  /**
   * `parsePageChoices`: the maximal run of `*` lines, one choice each in order;
   * no choice at all, or a single choice with a guard, is an error.
   */
  function PageChoices(lines: seq<string>): (r: Result<Parsed<seq<Choice>>, LoadError>)
    ensures r.Ok? ==> |r.value.rest| < |lines|
  {
    match ParseRun(lines, IsChoiceLine, ChoiceLine)
    case Err(e) => Err(e)
    case Ok(run) =>
      if |run.value| == 0 then Err(NoChoices)
      else if |run.value| == 1 && run.value[0].condition.Some? then Err(GuardedAutoChoice)
      else Ok(run)
  }

  /**
   * The choices succeed exactly when the run is not empty, every line of it
   * parses, and a single choice has no guard; they are then the lines'
   * choices in order, and the first other line is left unread.
   */
  lemma PageChoicesSpec(lines: seq<string>)
    ensures var r := PageChoices(lines);
      var k := Run(lines, IsChoiceLine);
      && (r.Ok? <==>
            && k > 0
            && (forall i :: 0 <= i < k ==> ChoiceLine(lines[i]).Ok?)
            && !(k == 1 && ChoiceLine(lines[0]).value.condition.Some?))
      && (r.Ok? ==> r.value.rest == lines[k..] && |r.value.value| == k)
      && (r.Ok? ==> forall i :: 0 <= i < k ==> Ok(r.value.value[i]) == ChoiceLine(lines[i]))
  {
    var k := Run(lines, IsChoiceLine);
    var run := lines[..k];
    assert forall i :: 0 <= i < k ==> run[i] == lines[i];
    MapResultOk(ChoiceLine, run);
  }

  /** A name a page may be stored under: non-empty, lower-case, not `end`. */
  predicate IsPageName(name: string) {
    name != [] && Lower(name) == name && name != EndPage
  }

  /** What every parsed choice satisfies: a lower-case target, a comparison as guard, no guard without text. */
  predicate WellFormedChoice(c: Choice) {
    && c.link != [] && Lower(c.link) == c.link
    && (c.condition.Some? ==> c.condition.value.op in ConditionalOps)
    && (c.text.None? ==> c.condition.None?)
  }

  /** What every parsed page satisfies. */
  predicate WellFormedPage(page: Page) {
    && |page.texts| >= 1
    && |page.choices| >= 1
    && (forall i :: 0 <= i < |page.choices| ==> WellFormedChoice(page.choices[i]))
    && !(|page.choices| == 1 && page.choices[0].condition.Some?)
    && (page.logics.Some? ==>
          |page.logics.value| >= 1 && forall i :: 0 <= i < |page.logics.value| ==> page.logics.value[i].op in MutatingOps)
  }

  /** The choices a page's choice lines parse to are well formed. */
  lemma PageChoicesWellFormed(lines: seq<string>)
    requires PageChoices(lines).Ok?
    ensures var cs := PageChoices(lines).value.value;
      && |cs| >= 1 && !(|cs| == 1 && cs[0].condition.Some?)
      && forall i :: 0 <= i < |cs| ==> WellFormedChoice(cs[i])
  {
    PageChoicesSpec(lines);
    var cs := PageChoices(lines).value.value;
    forall i | 0 <= i < |cs|
      ensures WellFormedChoice(cs[i])
    {
      ChoiceLineSpec(lines[i]);
      assert Ok(cs[i]) == ChoiceLine(lines[i]);
    }
  }

  /** A logic block that parses holds one or more assignments. */
  lemma PageLogicsWellFormed(lines: seq<string>)
    requires PageLogics(lines).Ok?
    ensures var ls := PageLogics(lines).value.value;
      ls.Some? ==> |ls.value| >= 1 && forall i :: 0 <= i < |ls.value| ==> ls.value[i].op in MutatingOps
  {
    PageLogicsSpec(lines);
    var ls := PageLogics(lines).value.value;
    if ls.Some? {
      forall i | 0 <= i < |ls.value|
        ensures ls.value[i].op in MutatingOps
      {
        assert Ok(ls.value[i]) == LogicLine(lines[i]);
      }
    }
  }

  /**
   * `parsePage`: a header naming the page, then its logic block, body texts and
   * choices. The header must match `->` and a name; the name is lower-cased and
   * may not be `end`.
   */
  function ParsePage(lines: seq<string>): (r: Result<Parsed<(string, Page)>, LoadError>)
    ensures r.Ok? ==> |r.value.rest| < |lines|
    ensures r.Ok? ==> |r.value.rest| + 3 <= |lines|
    ensures r.Ok? ==> HeaderName(lines[0]).Some? && r.value.value.0 == Lower(HeaderName(lines[0]).value)
    ensures r.Ok? ==> IsPageName(r.value.value.0) && WellFormedPage(r.value.value.1)
    ensures lines == [] || HeaderName(lines[0]).None? ==> r == Err(InvalidHeader)
  {
    if lines == [] then Err(InvalidHeader)
    else match HeaderName(lines[0])
      case None => Err(InvalidHeader)
      case Some(n) =>
        var name := Lower(n);
        LowerIdempotent(n);
        if name == EndPage then Err(ReservedPageName)
        else match PageLogics(lines[1..])
          case Err(e) => Err(e)
          case Ok(logics) =>
            match PageTexts(logics.rest)
            case Err(e) => Err(e)
            case Ok(texts) =>
              match PageChoices(texts.rest)
              case Err(e) => Err(e)
              case Ok(choices) =>
                PageChoicesWellFormed(texts.rest);
                PageLogicsWellFormed(lines[1..]);
                Ok(Parsed((name, Page(texts.value, choices.value, logics.value)), choices.rest))
  }

  /** A first line without `->` is an invalid header, whatever follows it. */
  lemma ParsePageNoArrow(line: string, rest: seq<string>)
    requires forall k :: !ArrowAt(line, k)
    ensures ParsePage([line] + rest) == Err(InvalidHeader)
  {
    HeaderNameNoArrow(line);
    assert ([line] + rest)[0] == line;
  }

  // ---------------------------------------------------------------------
  // Loading a whole quest.
  //
  // The page loop is stated over any page reader that consumes at least one
  // line and yields storable names and well-formed pages; `ParsePage` is one
  // (`ParsePageIsReader`). Keeping the reader a parameter lets the proofs about
  // the loop reason from those facts alone.

  /** A loaded quest: the entry page's name and the pages by name. */
  datatype Quest = Quest(entry: string, pages: map<string, Page>)

  type PageRead = Result<Parsed<(string, Page)>, LoadError>

  /** What the page loop relies on from the page parser. */
  ghost predicate PageReader(read: seq<string> -> PageRead) {
    forall lines :: read(lines).Ok? ==>
      && |read(lines).value.rest| < |lines|
      && IsPageName(read(lines).value.value.0)
      && WellFormedPage(read(lines).value.value.1)
  }

  lemma ParsePageIsReader()
    ensures PageReader(ParsePage)
  {
    forall lines | ParsePage(lines).Ok?
      ensures |ParsePage(lines).value.rest| < |lines|
      ensures IsPageName(ParsePage(lines).value.value.0) && WellFormedPage(ParsePage(lines).value.value.1)
    {
    }
  }

  /**
   * The page loop of `loadMarkup` from one page on: pages are added in order,
   * a name seen before is an error, the first name becomes the entry.
   */
  function LoadPages(read: seq<string> -> PageRead, lines: seq<string>, pages: map<string, Page>, entry: string): Result<Quest, LoadError>
    requires PageReader(read)
    decreases |lines|, 0
  {
    match read(lines)
    case Err(e) => Err(e)
    case Ok(p) =>
      var (name, page) := p.value;
      if name in pages then Err(DuplicatePage(name))
      else LoadRest(read, p.rest, pages[name := page], if entry == "" then name else entry)
  }

  /** The loop test: stop once no significant line is left. */
  function LoadRest(read: seq<string> -> PageRead, lines: seq<string>, pages: map<string, Page>, entry: string): Result<Quest, LoadError>
    requires PageReader(read)
    decreases |lines|, 1
  {
    if lines == [] then Ok(Quest(entry, pages)) else LoadPages(read, lines, pages, entry)
  }

  /**
   * `loadMarkup` on its significant lines: empty markup is an error, and the
   * page loop runs at least once, since a non-empty markup has a line.
   */
  function Load(markup: string, lines: seq<string>): Result<Quest, LoadError> {
    if markup == "" then Err(EmptyMarkup)
    else
      ParsePageIsReader();
      LoadPages(ParsePage, lines, map[], "")
  }

  /** The pages `read` finds in `lines`, in order, without the duplicate check. */
  function PageSequence(read: seq<string> -> PageRead, lines: seq<string>): (r: Result<seq<(string, Page)>, LoadError>)
    requires PageReader(read)
    ensures r.Ok? ==> |r.value| >= 1 && forall i :: 0 <= i < |r.value| ==> IsPageName(r.value[i].0) && WellFormedPage(r.value[i].1)
    decreases |lines|
  {
    match read(lines)
    case Err(e) => Err(e)
    case Ok(p) =>
      if p.rest == [] then Ok([p.value])
      else match PageSequence(read, p.rest)
        case Err(e) => Err(e)
        case Ok(ps) =>
          assert forall i :: 1 <= i < |ps| + 1 ==> ([p.value] + ps)[i] == ps[i - 1];
          Ok([p.value] + ps)
  }

  function Names(ps: seq<(string, Page)>): (r: seq<string>)
    ensures |r| == |ps| && forall i :: 0 <= i < |ps| ==> r[i] == ps[i].0
  {
    if ps == [] then [] else [ps[0].0] + Names(ps[1..])
  }

  predicate Distinct(names: seq<string>) {
    forall i, j :: 0 <= i < j < |names| ==> names[i] != names[j]
  }

  /** The map holding each page under its name. */
  function PageMap(ps: seq<(string, Page)>): map<string, Page> {
    if ps == [] then map[] else PageMap(ps[1..])[ps[0].0 := ps[0].1]
  }

  /** A name is a key of the page map exactly when some page carries it. */
  lemma {:induction false} PageMapKeys(ps: seq<(string, Page)>)
    ensures forall k :: k in PageMap(ps) <==> k in Names(ps)
  {
    if ps != [] {
      PageMapKeys(ps[1..]);
      assert Names(ps) == [ps[0].0] + Names(ps[1..]);
    }
  }

  /** With distinct names, each page is stored under its own name. */
  lemma {:induction false} PageMapAt(ps: seq<(string, Page)>, i: nat)
    requires i < |ps| && Distinct(Names(ps))
    ensures ps[i].0 in PageMap(ps) && PageMap(ps)[ps[i].0] == ps[i].1
  {
    if i > 0 {
      assert Distinct(Names(ps[1..]));
      PageMapAt(ps, 0);
      PageMapAt(ps[1..], i - 1);
      assert ps[1..][i - 1] == ps[i];
      assert Names(ps)[0] != Names(ps)[i];
    }
  }

  /** A sequence with one more name in front is distinct when the rest is and the name is new. */
  lemma DistinctCons(name: string, names: seq<string>)
    ensures Distinct([name] + names) <==> Distinct(names) && name !in names
  {
    var all := [name] + names;
    assert forall i :: 1 <= i < |all| ==> all[i] == names[i - 1];
    if Distinct(all) {
      forall i, j | 0 <= i < j < |names|
        ensures names[i] != names[j]
      {
        assert all[i + 1] != all[j + 1];
      }
      forall j | 0 <= j < |names|
        ensures names[j] != name
      {
        assert all[0] != all[j + 1];
      }
    }
  }


  /**
   * The page loop of `loadMarkup` accepts exactly the markup whose pages all
   * parse and carry names that are distinct and not already taken; it stores
   * each page under its name, and the first name becomes the entry unless one
   * was set before.
   */
  lemma {:induction false} LoadPagesSpec(read: seq<string> -> PageRead, lines: seq<string>, pages: map<string, Page>, entry: string)
    requires PageReader(read)
    ensures var r := LoadPages(read, lines, pages, entry);
      var s := PageSequence(read, lines);
      && (r.Ok? <==> s.Ok? && Distinct(Names(s.value)) && Unused(s.value, pages))
      && (r.Ok? ==> r.value == Quest(if entry == "" then s.value[0].0 else entry, pages + PageMap(s.value)))
    decreases |lines|
  {
    match read(lines)
    case Err(e) =>
      assert PageSequence(read, lines).Err?;
    case Ok(p) =>
      var (name, page) := p.value;
      if name in pages {
        assert LoadPages(read, lines, pages, entry).Err?;
        assert PageSequence(read, lines).Ok? ==> PageSequence(read, lines).value[0].0 == name;
      } else {
        var pages' := pages[name := page];
        var entry' := if entry == "" then name else entry;
        if p.rest == [] {
          assert LoadPages(read, lines, pages, entry) == Ok(Quest(entry', pages'));
          assert PageSequence(read, lines) == Ok([p.value]);
          assert PageMap([p.value]) == map[name := page];
          assert pages + map[name := page] == pages';
        } else {
          assert LoadPages(read, lines, pages, entry) == LoadPages(read, p.rest, pages', entry');
          LoadPagesSpec(read, p.rest, pages', entry');
          match PageSequence(read, p.rest)
          case Err(e) =>
          case Ok(ps) =>
            assert PageSequence(read, lines) == Ok([p.value] + ps);
            AddPageNames(name, page, ps, pages);
            if name !in Names(ps) {
              AddPageMap(name, page, ps, pages);
            }
        }
      }
  }

  /** No page of `ps` is named like a key of `pages`. */
  predicate Unused(ps: seq<(string, Page)>, pages: map<string, Page>) {
    forall i :: 0 <= i < |ps| ==> ps[i].0 !in pages
  }

  /** One more page in front keeps the names distinct and unused exactly when its name is fresh too. */
  lemma AddPageNames(name: string, page: Page, ps: seq<(string, Page)>, pages: map<string, Page>)
    requires name !in pages
    ensures var all := [(name, page)] + ps;
      Distinct(Names(all)) && Unused(all, pages) <==> Distinct(Names(ps)) && Unused(ps, pages[name := page])
  {
    var all := [(name, page)] + ps;
    assert Names(all) == [name] + Names(ps);
    assert forall i :: 1 <= i < |all| ==> all[i] == ps[i - 1];
    DistinctCons(name, Names(ps));
  }

  /** Storing one page and then the rest is storing them all, when the first name is fresh. */
  lemma AddPageMap(name: string, page: Page, ps: seq<(string, Page)>, pages: map<string, Page>)
    requires name !in Names(ps)
    ensures pages[name := page] + PageMap(ps) == pages + PageMap([(name, page)] + ps)
  {
    var all := [(name, page)] + ps;
    assert all[1..] == ps;
    PageMapKeys(ps);
    assert PageMap(all) == PageMap(ps)[name := page];
  }

  /** The page loop started with no pages and no entry. */
  lemma LoadFromStart(read: seq<string> -> PageRead, lines: seq<string>)
    requires PageReader(read)
    ensures var r := LoadPages(read, lines, map[], "");
      var s := PageSequence(read, lines);
      && (r.Ok? <==> s.Ok? && Distinct(Names(s.value)))
      && (r.Ok? ==> r.value == Quest(s.value[0].0, PageMap(s.value)))
  {
    LoadPagesSpec(read, lines, map[], "");
    var s := PageSequence(read, lines);
    if s.Ok? {
      assert map[] + PageMap(s.value) == PageMap(s.value);
    }
  }

  /** The pages of the markup's significant lines, in order. */
  function Pages(lines: seq<string>): Result<seq<(string, Page)>, LoadError> {
    ParsePageIsReader();
    PageSequence(ParsePage, lines)
  }

  /**
   * `loadMarkup` on its significant lines: it succeeds exactly when the markup
   * is not empty, every page parses and no page name repeats; the quest then
   * holds every page under its name, with the first page as entry.
   */
  lemma LoadSpec(markup: string, lines: seq<string>)
    ensures markup == "" ==> Load(markup, lines) == Err(EmptyMarkup)
    ensures markup != "" ==> (Load(markup, lines).Ok? <==> Pages(lines).Ok? && Distinct(Names(Pages(lines).value)))
    ensures Load(markup, lines).Ok? ==>
      var ps := Pages(lines).value;
      Load(markup, lines).value == Quest(ps[0].0, PageMap(ps))
  {
    if markup != "" {
      ParsePageIsReader();
      LoadFromStart(ParsePage, lines);
    }
  }

  /**
   * A loaded quest: the entry is a page, every key is a storable name (so
   * never `end`) and every page is well formed.
   */
  lemma LoadedQuestWellFormed(markup: string, lines: seq<string>)
    requires Load(markup, lines).Ok?
    ensures var q := Load(markup, lines).value;
      && q.entry in q.pages
      && EndPage !in q.pages
      && forall name :: name in q.pages ==> IsPageName(name) && WellFormedPage(q.pages[name])
  {
    LoadSpec(markup, lines);
    var ps := Pages(lines).value;
    PageMapKeys(ps);
    forall name | name in PageMap(ps)
      ensures IsPageName(name) && WellFormedPage(PageMap(ps)[name])
    {
      var i :| 0 <= i < |ps| && Names(ps)[i] == name;
      PageMapAt(ps, i);
    }
    assert Names(ps)[0] == ps[0].0;
  }
}

/**
 * The quest interpreter: a loaded document and its progress state, the name
 * of the current page and a map of integer variables in which 0 is never
 * stored. The operations are specified by pure functions on the state
 * (`Assign`, `Evaluate`, `Step`, `Interpolate`); the class methods are proved
 * to perform them.
 */
module Document {
  import opened JsBuiltins
  import opened Types
  import opened Patterns

  /** The variables of the progress state, by lower-cased name. */
  type Vars = map<string, int>

  /** The shape every reachable state has: lower-case keys and no zero value. */
  predicate Canonical(vars: Vars) {
    forall key :: key in vars ==> vars[key] != 0 && Lower(key) == key
  }

  /** `getVariable`: the value under the lower-cased name, or 0 when there is none. */
  function Lookup(vars: Vars, name: string): (r: int)
    ensures Canonical(vars) ==> (r == 0 <==> Lower(name) !in vars)
  {
    var key := Lower(name);
    if key in vars then vars[key] else 0
  }

  /**
   * `setVariable`: a truthy value is stored under the lower-cased name; 0 and
   * NaN delete the name. Keys stay lower-case and 0 is never stored.
   */
  function Assign(vars: Vars, name: string, val: Number): (r: Vars)
    ensures Canonical(vars) ==> Canonical(r)
  {
    LowerIdempotent(name);
    var key := Lower(name);
    if val.Num? && val.value != 0 then vars[key := val.value] else vars - {key}
  }

  /** JavaScript `+` on a stored value and a number: NaN absorbs. */
  function Plus(x: int, y: Number): Number {
    if y.Num? then Num(x + y.value) else NaN
  }

  /**
   * `processLogic`: the boolean it returns and the variables afterwards. The
   * assignments return false; the comparisons read `lhs` and change nothing,
   * and a comparison with NaN holds only for `!=`; any other operator returns
   * false and changes nothing.
   */
  function Evaluate(vars: Vars, logic: Logic): (r: (bool, Vars))
    ensures Canonical(vars) ==> Canonical(r.1)
  {
    var current := Lookup(vars, logic.lhs);
    if logic.op == "+=" then (false, Assign(vars, logic.lhs, Plus(current, logic.rhs)))
    else if logic.op == "=" then (false, Assign(vars, logic.lhs, logic.rhs))
    else if logic.op == "==" then (logic.rhs == Num(current), vars)
    else if logic.op == "!=" then (logic.rhs != Num(current), vars)
    else if logic.op == "<" then (logic.rhs.Num? && current < logic.rhs.value, vars)
    else if logic.op == ">" then (logic.rhs.Num? && current > logic.rhs.value, vars)
    else (false, vars)
  }

  /**
   * `makeChoice(id)`: the current page and the variables afterwards. Only an
   * existing page and an index within its choices select a choice; its guard,
   * when present, is evaluated (and may change the variables) and must hold.
   * A move always goes to the lower-cased link of choice `id`.
   */
  function Step(pages: map<string, Page>, current: string, vars: Vars, id: int): (r: (string, Vars))
    ensures r.0 != current ==>
      current in pages && 0 <= id < |pages[current].choices| && r.0 == Lower(pages[current].choices[id].link)
    ensures Canonical(vars) ==> Canonical(r.1)
  {
    if current !in pages || !(0 <= id < |pages[current].choices|) then (current, vars)
    else
      var choice := pages[current].choices[id];
      if choice.condition.None? then (Lower(choice.link), vars)
      else
        var (pass, vars') := Evaluate(vars, choice.condition.value);
        (if pass then Lower(choice.link) else current, vars')
  }

  /**
   * `processText`: each `{ name }` placeholder, matched from the left and
   * scanning on after it, is replaced by the decimal value of the variable.
   */
  function Interpolate(text: string, vars: Vars): string
    decreases |text|
  {
    if text == [] then []
    else match PlaceholderAt(text, 0)
      case Some(p) => IntToString(Lookup(vars, Lower(p.name))) + Interpolate(text[p.end..], vars)
      case None => [text[0]] + Interpolate(text[1..], vars)
  }

  /** `QuestDocument`: the pages, the entry page and the progress state. */
  class QuestDocument {
    var entry: string
    var pages: map<string, Page>
    var currentPage: string
    var vars: Vars

    /** A document with no pages, no entry and an empty state. */
    constructor()
      ensures entry == "" && pages == map[] && currentPage == "" && vars == map[]
    {
      entry := "";
      pages := map[];
      currentPage := "";
      vars := map[];
    }

    /** `makeChoice(id)`: follow choice `id` of the current page when its guard allows. */
    method MakeChoice(id: int)
      modifies this
      ensures entry == old(entry) && pages == old(pages)
      ensures (currentPage, vars) == Step(pages, old(currentPage), old(vars), id)
      ensures Canonical(old(vars)) ==> Canonical(vars)
    {
      var page := GetCurrentPage();
      if page.Some? && 0 <= id < |page.value.choices| {
        var choice := page.value.choices[id];
        var pass := true;
        if choice.condition.Some? {
          pass := ProcessLogic(choice.condition.value);
        }
        if pass {
          SetCurrentPage(choice.link);
        }
      }
    }

    /** `setCurrentPage`: the lower-cased name becomes the current page. */
    method SetCurrentPage(page: string)
      modifies this
      ensures currentPage == Lower(page)
      ensures entry == old(entry) && pages == old(pages) && vars == old(vars)
    {
      currentPage := Lower(page);
    }

    /** `getCurrentPage`: the current page's data, absent when no page has its name. */
    function GetCurrentPage(): (r: Option<Page>)
      reads this
      ensures r.Some? <==> currentPage in pages
      ensures r.Some? ==> r.value == pages[currentPage]
    {
      if currentPage in pages then Some(pages[currentPage]) else None
    }

    /** `resetState`: back to the entry page with no variables. */
    method ResetState()
      modifies this
      ensures currentPage == entry && vars == map[]
      ensures entry == old(entry) && pages == old(pages)
    {
      currentPage := entry;
      vars := map[];
    }

    /** `getVariable`: the stored value of the lower-cased name, or 0; in a canonical state 0 means absent. */
    function GetVariable(name: string): (r: int)
      reads this
      ensures Lower(name) in vars ==> r == vars[Lower(name)]
      ensures Lower(name) !in vars ==> r == 0
      ensures Canonical(vars) ==> (r == 0 <==> Lower(name) !in vars)
    {
      Lookup(vars, name)
    }

    /** `setVariable`: store or delete the lower-cased name. */
    method SetVariable(name: string, val: Number)
      modifies this
      ensures vars == Assign(old(vars), name, val)
      ensures entry == old(entry) && pages == old(pages) && currentPage == old(currentPage)
      ensures Canonical(old(vars)) ==> Canonical(vars)
    {
      var key := Lower(name);
      if val.Num? && val.value != 0 {
        vars := vars[key := val.value];
      } else {
        vars := vars - {key};
      }
    }

    /** `processLogic`: perform an assignment or test a comparison. */
    method ProcessLogic(logic: Logic) returns (result: bool)
      modifies this
      ensures (result, vars) == Evaluate(old(vars), logic)
      ensures entry == old(entry) && pages == old(pages) && currentPage == old(currentPage)
      ensures Canonical(old(vars)) ==> Canonical(vars)
    {
      var current := GetVariable(logic.lhs);
      result := false;
      if logic.op == "+=" {
        SetVariable(logic.lhs, Plus(current, logic.rhs));
      } else if logic.op == "=" {
        SetVariable(logic.lhs, logic.rhs);
      } else if logic.op == "==" {
        result := logic.rhs == Num(current);
      } else if logic.op == "!=" {
        result := logic.rhs != Num(current);
      } else if logic.op == "<" {
        result := logic.rhs.Num? && current < logic.rhs.value;
      } else if logic.op == ">" {
        result := logic.rhs.Num? && current > logic.rhs.value;
      }
    }

    /**
     * `processText`: the text with every placeholder replaced, as `Interpolate`
     * defines it; text in which no placeholder starts comes back unchanged.
     */
    function ProcessText(text: string): (r: string)
      reads this
      ensures NoPlaceholder(text) ==> r == text
    {
      InterpolateNoPlaceholder(text, vars);
      Interpolate(text, vars)
    }
  }

  // ---------------------------------------------------------------------
  // Variables.

  /**
   * Reading after `setVariable`: the name set, in any letter case, reads the
   * value stored (0 for 0 and NaN); every other name reads as before.
   */
  lemma LookupAssign(vars: Vars, name: string, val: Number, other: string)
    ensures Lookup(Assign(vars, name, val), other) ==
      if Lower(other) == Lower(name) then (if val.Num? then val.value else 0) else Lookup(vars, other)
  {
  }

  /** `setVariable` never stores 0, and touches no key but the lower-cased name. */
  lemma AssignSpec(vars: Vars, name: string, val: Number)
    ensures var r := Assign(vars, name, val);
      && (Lower(name) in r <==> val.Num? && val.value != 0)
      && (forall key :: key != Lower(name) ==> (key in r <==> key in vars))
      && (forall key :: key != Lower(name) && key in vars ==> r[key] == vars[key])
  {
  }

  /**
   * `processLogic`: `=` and `+=` return false and set `lhs` to `rhs` and to
   * its old value plus `rhs`, leaving every other name alone; comparisons and
   * unknown operators leave the variables unchanged, and an unknown operator
   * returns false.
   */
  lemma EvaluateSpec(vars: Vars, logic: Logic)
    ensures var (result, vars') := Evaluate(vars, logic);
      var old_ := Lookup(vars, logic.lhs);
      && (logic.op in MutatingOps ==> !result)
      && (logic.op == "=" ==> Lookup(vars', logic.lhs) == (if logic.rhs.Num? then logic.rhs.value else 0))
      && (logic.op == "+=" ==> Lookup(vars', logic.lhs) == (if logic.rhs.Num? then old_ + logic.rhs.value else 0))
      && (forall other :: Lower(other) != Lower(logic.lhs) ==> Lookup(vars', other) == Lookup(vars, other))
      && (logic.op !in MutatingOps ==> vars' == vars)
      && (logic.op !in MutatingOps + ConditionalOps ==> !result)
  {
    var current := Lookup(vars, logic.lhs);
    if logic.op == "+=" {
      LookupAssignAll(vars, logic.lhs, Plus(current, logic.rhs));
    } else if logic.op == "=" {
      LookupAssignAll(vars, logic.lhs, logic.rhs);
    }
  }

  lemma LookupAssignAll(vars: Vars, name: string, val: Number)
    ensures Lookup(Assign(vars, name, val), name) == (if val.Num? then val.value else 0)
    ensures forall other :: Lower(other) != Lower(name) ==> Lookup(Assign(vars, name, val), other) == Lookup(vars, other)
  {
    forall other | Lower(other) != Lower(name)
      ensures Lookup(Assign(vars, name, val), other) == Lookup(vars, other)
    {
      LookupAssign(vars, name, val, other);
    }
    LookupAssign(vars, name, val, name);
  }

  /** The comparisons, as the guards of choices see them: NaN on the right satisfies only `!=`. */
  lemma CompareWithNaN(vars: Vars, op: string, lhs: string)
    requires op in ConditionalOps
    ensures Evaluate(vars, Logic(op, lhs, NaN)) == (op == "!=", vars)
  {
  }

  /** Adding 0 to a variable leaves a canonical state exactly as it was. */
  lemma AddZeroIsIdentity(vars: Vars, name: string)
    requires Canonical(vars)
    ensures Evaluate(vars, Logic("+=", name, Num(0))).1 == vars
  {
    var key := Lower(name);
    if key in vars {
      assert vars[key := vars[key]] == vars;
    } else {
      assert vars - {key} == vars;
    }
  }

  /** After `name = n`, the guard `name == n` holds and `name != n` does not. */
  lemma AssignThenCompare(vars: Vars, name: string, n: int)
    ensures var vars' := Evaluate(vars, Logic("=", name, Num(n))).1;
      Evaluate(vars', Logic("==", name, Num(n))).0 && !Evaluate(vars', Logic("!=", name, Num(n))).0
  {
    LookupAssign(vars, name, Num(n), name);
  }

  /** Two `+=` on the same variable add up. */
  lemma IncrementsAdd(vars: Vars, name: string, a: int, b: int)
    ensures var vars' := Evaluate(Evaluate(vars, Logic("+=", name, Num(a))).1, Logic("+=", name, Num(b))).1;
      Lookup(vars', name) == Lookup(vars, name) + a + b
  {
    var vars1 := Evaluate(vars, Logic("+=", name, Num(a))).1;
    LookupAssign(vars, name, Num(Lookup(vars, name) + a), name);
    LookupAssign(vars1, name, Num(Lookup(vars1, name) + b), name);
  }

  // ---------------------------------------------------------------------
  // Navigation.

  /**
   * `makeChoice` either stays on the current page or moves to the lower-cased
   * link of one of its choices; without a current page, or with an index
   * outside its choices, it changes nothing.
   */
  lemma StepFollowsLink(pages: map<string, Page>, current: string, vars: Vars, id: int)
    ensures var (next, vars') := Step(pages, current, vars, id);
      && (next == current || (current in pages && exists i :: 0 <= i < |pages[current].choices| && next == Lower(pages[current].choices[i].link)))
      && (current !in pages || id < 0 || id >= |pages[current].choices| ==> next == current && vars' == vars)
  {
    var (next, vars') := Step(pages, current, vars, id);
    if next != current {
      assert next == Lower(pages[current].choices[id].link);
    }
  }

  /**
   * A choice without a guard always moves to its link; a guarded one moves
   * exactly when the guard evaluates true.
   */
  lemma StepTakesChoice(pages: map<string, Page>, current: string, vars: Vars, id: int)
    requires current in pages && 0 <= id < |pages[current].choices|
    ensures var choice := pages[current].choices[id];
      var (next, _) := Step(pages, current, vars, id);
      && (choice.condition.None? ==> next == Lower(choice.link))
      && (choice.condition.Some? && Evaluate(vars, choice.condition.value).0 ==> next == Lower(choice.link))
      && (choice.condition.Some? && !Evaluate(vars, choice.condition.value).0 ==> next == current)
  {
  }

  /**
   * The variables change only through a guard: when every guard on the
   * current page is a comparison, as the loader guarantees, `makeChoice`
   * leaves them unchanged; the destination's logic block is never applied.
   */
  lemma StepKeepsVars(pages: map<string, Page>, current: string, vars: Vars, id: int)
    requires current in pages ==> forall i :: 0 <= i < |pages[current].choices| ==>
      var c := pages[current].choices[i].condition; c.Some? ==> c.value.op in ConditionalOps
    ensures Step(pages, current, vars, id).1 == vars
  {
    if current in pages && 0 <= id < |pages[current].choices| {
      var c := pages[current].choices[id].condition;
      if c.Some? {
        EvaluateSpec(vars, c.value);
      }
    }
  }

  /** A name no page carries, such as `end`, is final: every choice leaves the state as it is. */
  lemma NoPageIsFinal(pages: map<string, Page>, current: string, vars: Vars, id: int)
    requires current !in pages
    ensures Step(pages, current, vars, id) == (current, vars)
  {
    StepFollowsLink(pages, current, vars, id);
  }

  // ---------------------------------------------------------------------
  // Text interpolation.

  /** No placeholder starts anywhere in `text`. */
  predicate NoPlaceholder(text: string) {
    forall q :: 0 <= q < |text| ==> PlaceholderAt(text[q..], 0).None?
  }

  /** Text in which no placeholder starts comes back unchanged, whatever braces it holds. */
  lemma {:induction false} InterpolateNoPlaceholder(text: string, vars: Vars)
    ensures NoPlaceholder(text) ==> Interpolate(text, vars) == text
    decreases |text|
  {
    if text != [] && NoPlaceholder(text) {
      assert text[0..] == text;
      forall q | 0 <= q < |text| - 1
        ensures PlaceholderAt(text[1..][q..], 0).None?
      {
        assert text[1..][q..] == text[q + 1..];
      }
      InterpolateNoPlaceholder(text[1..], vars);
    }
  }

  /** Text without `{` comes back unchanged. */
  lemma InterpolateNoBraces(text: string, vars: Vars)
    requires forall i :: 0 <= i < |text| ==> text[i] != '{'
    ensures Interpolate(text, vars) == text
  {
    forall q | 0 <= q < |text|
      ensures PlaceholderAt(text[q..], 0).None?
    {
      assert text[q..][0] == text[q];
    }
    InterpolateNoPlaceholder(text, vars);
  }

  /** A first character that does not open a placeholder, `{` included, is copied as it is. */
  lemma InterpolateFirst(text: string, vars: Vars)
    requires text != [] && PlaceholderAt(text, 0).None?
    ensures Interpolate(text, vars) == [text[0]] + Interpolate(text[1..], vars)
  {
  }

  /** A literal part without `{` is copied as it is, and the text after it is processed on its own. */
  lemma {:induction false} InterpolateLiteral(lit: string, rest: string, vars: Vars)
    requires forall i :: 0 <= i < |lit| ==> lit[i] != '{'
    ensures Interpolate(lit + rest, vars) == lit + Interpolate(rest, vars)
    decreases |lit|
  {
    if lit != [] {
      var text := lit + rest;
      var tail := lit[1..] + rest;
      assert text[0] == lit[0] && text[1..] == tail;
      PlaceholderNeedsBrace(text, 0);
      InterpolateFirst(text, vars);
      InterpolateLiteral(lit[1..], rest, vars);
      var x := Interpolate(rest, vars);
      assert Interpolate(text, vars) == [lit[0]] + (lit[1..] + x);
      assert lit == [lit[0]] + lit[1..];
    } else {
      assert lit + rest == rest;
    }
  }

  /**
   * A placeholder `{ name }`, with white space inside the braces, becomes the
   * variable's decimal value, whatever the letter case of the name.
   */
  lemma InterpolatePlaceholder(sp1: string, name: string, sp2: string, rest: string, vars: Vars)
    requires AllSpaces(sp1) && IsWord(name) && AllSpaces(sp2)
    ensures Interpolate("{" + sp1 + name + sp2 + "}" + rest, vars) == IntToString(Lookup(vars, name)) + Interpolate(rest, vars)
  {
    var text := "{" + sp1 + name + sp2 + "}" + rest;
    var j := 1 + |sp1|;
    var w := j + |name|;
    var e := w + |sp2|;
    assert text[1..j] == sp1 && text[j..w] == name && text[w..e] == sp2 && text[e] == '}';
    assert text[e + 1..] == rest;
    SkipSpacesSlice(text, 1, j);
    WordEndSlice(text, j, w);
    SkipSpacesSlice(text, w, e);
    LowerIdempotent(name);
  }
}

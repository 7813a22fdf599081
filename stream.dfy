/**
 * The line cursor the loader reads markup through. It hands out the lines
 * one at a time, trimmed, skipping blank lines and `//` comments, and it can
 * step back over the line it just returned.
 */
module Stream {
  import opened JsBuiltins

  /** A trimmed line the cursor returns: not empty and not a comment. */
  predicate IsSignificant(line: string) {
    line != [] && !StartsWith(line, "//")
  }

  /** Every line with the white space at both of its ends removed. */
  function TrimAll(lines: seq<string>): (r: seq<string>)
    ensures |r| == |lines|
  {
    if lines == [] then [] else [Trim(lines[0])] + TrimAll(lines[1..])
  }

  /** Line `i` of the trimmed lines is line `i` trimmed. */
  lemma {:induction false} TrimAllAt(lines: seq<string>, i: nat)
    requires i < |lines|
    ensures TrimAll(lines)[i] == Trim(lines[i])
    decreases i
  {
    if i > 0 {
      TrimAllAt(lines[1..], i - 1);
    }
  }

  /**
   * The lines the cursor still has to return when it stands at physical line
   * `p`, given the physical lines already trimmed.
   */
  function Significant(trimmed: seq<string>, p: nat): (r: seq<string>)
    ensures forall i :: 0 <= i < |r| ==> IsSignificant(r[i])
    ensures r != [] ==> p < |trimmed|
    decreases |trimmed| - p
  {
    if p >= |trimmed| then []
    else if IsSignificant(trimmed[p]) then [trimmed[p]] + Significant(trimmed, p + 1)
    else Significant(trimmed, p + 1)
  }

  /** `QuestStream`: the markup's physical lines and the index of the next one to read. */
  class QuestStream {
    const lines: seq<string>
    /** The physical lines as `next()` trims them. */
    ghost const trimmed: seq<string>
    var pointer: nat

    /** The pointer never passes the end of the lines. */
    ghost predicate Valid()
      reads this
    {
      pointer <= |lines| && trimmed == TrimAll(lines)
    }

    /** What the following calls of `Next` will return, in order, before the empty line. */
    ghost function Remaining(): seq<string>
      reads this
    {
      Significant(trimmed, pointer)
    }

    /** `eof()`: every physical line has been read, so nothing is left to return. */
    predicate Eof()
      reads this
      ensures Valid() && Eof() ==> pointer == |lines| && Remaining() == []
    {
      pointer >= |lines|
    }

    /**
     * The cursor stands at a line it will return, or at the end: the end of
     * the physical lines and the end of the significant ones coincide.
     */
    ghost predicate Settled()
      reads this
    {
      Eof() <==> Remaining() == []
    }

    /** Split the markup at each line feed and stand before the first line. */
    constructor(markup: string)
      ensures lines == Split(markup, '\n') && trimmed == TrimAll(lines) && pointer == 0
      ensures Valid() && !Eof()
    {
      lines := Split(markup, '\n');
      trimmed := TrimAll(Split(markup, '\n'));
      pointer := 0;
    }

    /** `previous()`: step back one physical line, unless at the start. */
    method Previous()
      requires Valid()
      modifies this
      ensures Valid()
      ensures pointer == if old(pointer) > 0 then old(pointer) - 1 else 0
    {
      if pointer > 0 {
        pointer := pointer - 1;
      }
    }

    /**
     * `next()`: the next significant line, trimmed, or "" once the lines are
     * exhausted. After a line is returned, the pointer stands just past it,
     * so stepping back one line makes it the next one again.
     */
    method Next() returns (line: string)
      requires Valid()
      modifies this
      ensures Valid() && old(pointer) <= pointer
      ensures Significant(trimmed, old(pointer)) == [] ==> line == "" && Significant(trimmed, pointer) == []
      ensures Significant(trimmed, old(pointer)) != [] ==> line == Significant(trimmed, old(pointer))[0]
      ensures Significant(trimmed, old(pointer)) != [] ==> Significant(trimmed, pointer) == Significant(trimmed, old(pointer))[1..]
      ensures line != "" ==> pointer > 0 && Significant(trimmed, pointer - 1) == Significant(trimmed, old(pointer))
      ensures line == "" ==> Eof()
      ensures line != "" ==> IsSignificant(line)
      decreases |lines| - pointer
    {
      if Eof() {
        return "";
      }
      ghost var p := pointer;
      var t := Trim(lines[pointer]);
      TrimAllAt(lines, p);

      pointer := pointer + 1;
      if IsSignificant(t) {
        return t;
      }
      assert Significant(trimmed, p) == Significant(trimmed, pointer);
      line := Next();
    }
  }
}

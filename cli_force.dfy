/**
 * The `-force` flag values (cli/force.go): each "table:where" argument is cut
 * after every colon, and the first two pieces become one forced rule appended
 * to the flag's list.
 */
module CliForce {

  import opened Outcomes
  import opened Text

  /** A forced rule as the flag builds it: the table piece keeps its colon. */
  datatype Force = Force(Table: string, Where: string)

  /** The runtime error Go raises when the second piece does not exist. */
  const MissingPiece := Panic("runtime error: index out of range [1] with length 1")

  /**
   * The rule one flag value describes: the first piece, up to and including the
   * first colon, and the second piece, up to and including the next colon if
   * there is one. Only the whole value is trimmed. A value without a colon has
   * a single piece, and reading the second one panics.
   */
  function ParseForce(value: string): (r: Result<Force>)
    ensures r.Err? <==> ':' !in TrimSpace(value)
    ensures r.Err? ==> r.error == MissingPiece
    ensures r.Ok? ==> |r.value.Table| > 0 && r.value.Table[|r.value.Table| - 1] == ':'
    ensures r.Ok? ==> ':' !in r.value.Table[..|r.value.Table| - 1]
    ensures r.Ok? ==> HasPrefix(TrimSpace(value), r.value.Table + r.value.Where)
  {
    var q := SplitAfter(TrimSpace(value), ':');
    if |q| < 2 then
      Err(MissingPiece)
    else
      FirstTwoPieces(q);
      Ok(Force(q[0], q[1]))
  }

  /** The first two pieces, glued together, start the glued whole. */
  lemma FirstTwoPieces(q: seq<string>)
    requires |q| >= 2
    ensures HasPrefix(Concat(q), q[0] + q[1])
  {
    assert q[1..][1..] == q[2..];
    AppendAssociates(q[0], q[1], Concat(q[2..]));
    assert (q[0] + q[1] + Concat(q[2..]))[..|q[0] + q[1]|] == q[0] + q[1];
  }

  /** The first colon of `left + ":" + right` is the one after `left`. */
  lemma {:induction false} FirstColon(left: string, right: string)
    requires ':' !in left
    ensures IndexOf(left + ":" + right, ':') == Some(|left|)
  {
    var s := left + ":" + right;
    var i := IndexOf(s, ':');
    assert s[|left|] == ':';
    assert i.Some?;
    assert i.value == |left| by {
      assert s[i.value] == ':';
      assert ':' !in s[..|left|];
    }
  }

  /** Cutting after the one colon of a value gives the two sides, the colon kept on the left. */
  lemma SplitAfterOneColon(left: string, right: string)
    requires ':' !in left && ':' !in right
    ensures SplitAfter(left + ":" + right, ':') == [left + ":", right]
  {
    SplitAfterFirstColon(left, right);
    assert IndexOf(right, ':') == None;
  }

  /** Cutting after the first of two colons: the first piece, then the cuts of the rest. */
  lemma SplitAfterFirstColon(left: string, rest: string)
    requires ':' !in left
    ensures SplitAfter(left + ":" + rest, ':') == [left + ":"] + SplitAfter(rest, ':')
  {
    var s := left + ":" + rest;
    FirstColon(left, rest);
    assert s[..|left| + 1] == left + ":";
    assert s[|left| + 1..] == rest;
  }

  /**
   * A value with one colon and no white space at its ends parses to the table
   * with its colon and the condition; white space next to the colon is kept.
   */
  lemma ParseForceOfPair(left: string, right: string)
    requires ':' !in left && ':' !in right
    requires left == [] || !IsSpace(left[0])
    requires right == [] || !IsSpace(right[|right| - 1])
    ensures ParseForce(left + ":" + right) == Ok(Force(left + ":", right))
  {
    var s := left + ":" + right;
    assert s[0] == (if left == [] then ':' else left[0]);
    assert s[|s| - 1] == (if right == [] then ':' else right[|right| - 1]);
    assert TrimSpace(s) == s;
    SplitAfterOneColon(left, right);
  }

  /** The flag's text of a rule with one colon, at the end of its table, parses back to the rule. */
  lemma ParseForceRoundTrip(f: Force)
    requires |f.Table| > 0 && f.Table[|f.Table| - 1] == ':' && ':' !in f.Table[..|f.Table| - 1]
    requires ':' !in f.Where
    requires !IsSpace(f.Table[0])
    requires f.Where == [] || !IsSpace(f.Where[|f.Where| - 1])
    ensures ParseForce(f.Table + f.Where) == Ok(f)
  {
    var left := f.Table[..|f.Table| - 1];
    assert f.Table == left + ":";
    assert left == [] || left[0] == f.Table[0];
    ParseForceOfPair(left, f.Where);
  }

  /**
   * With a second colon, the condition is the text up to and including it; what
   * follows is dropped.
   */
  lemma ParseForceDropsThirdPiece(left: string, middle: string, rest: string)
    requires ':' !in left && ':' !in middle
    requires left == [] || !IsSpace(left[0])
    requires rest == [] || !IsSpace(rest[|rest| - 1])
    ensures ParseForce(left + ":" + middle + ":" + rest) == Ok(Force(left + ":", middle + ":"))
  {
    var s := left + ":" + middle + ":" + rest;
    assert s[0] == (if left == [] then ':' else left[0]);
    assert s[|s| - 1] == (if rest == [] then ':' else rest[|rest| - 1]);
    assert TrimSpace(s) == s;
    assert s == left + ":" + (middle + ":" + rest);
    SplitAfterFirstColon(left, middle + ":" + rest);
    SplitAfterFirstColon(middle, rest);
  }

  /** The list a repeated `-force` flag fills. */
  class ArrayForce {
    var forces: seq<Force>

    constructor()
      ensures forces == []
    {
      forces := [];
    }

    /**
     * Appends the rule the value describes. A value without a colon panics in
     * the source before anything is appended; here the panic is returned and
     * the list is left as it was.
     */
    method Set(value: string) returns (err: Option<Error>)
      modifies this
      ensures ParseForce(value).Ok? ==> err == None && forces == old(forces) + [ParseForce(value).value]
      ensures ParseForce(value).Err? ==> err == Some(MissingPiece) && forces == old(forces)
    {
      var q := SplitAfter(TrimSpace(value), ':');
      if |q| < 2 {
        return Some(MissingPiece);
      }
      forces := forces + [Force(q[0], q[1])];
      return None;
    }
  }
}

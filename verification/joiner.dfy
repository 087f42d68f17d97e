/** The list joiner the lookup handlers use for a successful reply
    (`LookupResponseHelper.encodeResponse`, `encodeLookupResponse`): the
    first value, then separator and value for each further one. */
module Joiner {
  import opened Wrappers

  /** The separator an endpoint uses unless configured otherwise. */
  const DEFAULT_SEPARATOR: string := ","

  /** What the `while (it.hasNext())` loop appends after the first value. */
  function JoinRest(values: seq<string>, sep: string): (r: string)
    ensures |values| == 0 ==> r == ""
  {
    if |values| == 0 then "" else sep + values[0] + JoinRest(values[1..], sep)
  }

  /** `encodeResponse(values, sep)`: `""` for no values. */
  function Join(values: seq<string>, sep: string): string {
    if |values| == 0 then "" else values[0] + JoinRest(values[1..], sep)
  }

  /** The total length of a list of values. */
  function TotalLength(values: seq<string>): nat {
    if |values| == 0 then 0 else |values[0]| + TotalLength(values[1..])
  }

  // ---------------------------------------------------------------------
  // Shape

  /** What the loop appends after the first value is the join of the
      remaining values with one separator in front: each further value is
      preceded by exactly one separator. */
  lemma {:induction false} JoinRestSeparated(values: seq<string>, sep: string)
    ensures |values| == 0 ==> JoinRest(values, sep) == ""
    ensures |values| > 0 ==> JoinRest(values, sep) == sep + Join(values, sep)
  {
    if |values| > 0 {
      var rest := JoinRest(values[1..], sep);
      assert sep + values[0] + rest == sep + (values[0] + rest);
    }
  }

  lemma JoinEmpty(sep: string)
    ensures Join([], sep) == ""
  {
  }

  lemma JoinSingleton(v: string, sep: string)
    ensures Join([v], sep) == v
  {
    assert JoinRest([v][1..], sep) == "";
  }

  /** Joining a longer list: the first value, the separator, then the join
      of the rest. */
  lemma JoinCons(v: string, values: seq<string>, sep: string)
    requires |values| > 0
    ensures Join([v] + values, sep) == v + sep + Join(values, sep)
  {
    assert ([v] + values)[1..] == values;
    assert values == [values[0]] + values[1..];
  }

  lemma {:induction false} JoinRestLength(values: seq<string>, sep: string)
    ensures |JoinRest(values, sep)| == TotalLength(values) + |values| * |sep|
  {
    if |values| > 0 {
      JoinRestLength(values[1..], sep);
    }
  }

  /** n values give their lengths plus n - 1 separators. */
  lemma JoinLength(values: seq<string>, sep: string)
    requires |values| > 0
    ensures |Join(values, sep)| == TotalLength(values) + (|values| - 1) * |sep|
  {
    JoinRestLength(values[1..], sep);
  }

  /** The join starts with the first value and ends with the last. */
  lemma {:induction false} JoinEnds(values: seq<string>, sep: string)
    requires |values| > 0
    ensures var j := Join(values, sep);
      && |values[0]| <= |j| && j[..|values[0]|] == values[0]
      && |values[|values| - 1]| <= |j| && j[|j| - |values[|values| - 1]|..] == values[|values| - 1]
  {
    var j := Join(values, sep);
    if |values| == 1 {
      JoinSingleton(values[0], sep);
      assert values == [values[0]];
    } else {
      var rest := values[1..];
      JoinCons(values[0], rest, sep);
      assert [values[0]] + rest == values;
      JoinEnds(rest, sep);
      var last := values[|values| - 1];
      assert last == rest[|rest| - 1];
      var jr := Join(rest, sep);
      assert j == values[0] + (sep + jr);
      assert j[|j| - |last|..] == jr[|jr| - |last|..];
    }
  }

  // ---------------------------------------------------------------------
  // The inverse, for a one-character separator

  function IndexOfChar(s: string, c: char): (r: int)
    ensures -1 <= r < |s|
    ensures r >= 0 ==> s[r] == c && forall i :: 0 <= i < r ==> s[i] != c
    ensures r == -1 ==> forall i :: 0 <= i < |s| ==> s[i] != c
  {
    if |s| == 0 then -1
    else if s[0] == c then 0
    else var k := IndexOfChar(s[1..], c); if k == -1 then -1 else k + 1
  }

  /** Splits at every `c`: the reference reading of a joined reply. */
  function Split(s: string, c: char): (r: seq<string>)
    ensures |r| >= 1
    decreases |s|
  {
    var k := IndexOfChar(s, c);
    if k == -1 then [s] else [s[..k]] + Split(s[k + 1..], c)
  }

  /** `v` does not contain `c`. */
  predicate Lacks(v: string, c: char) {
    forall i :: 0 <= i < |v| ==> v[i] != c
  }

  lemma SplitAfter(v: string, c: char, rest: string)
    requires Lacks(v, c)
    ensures Split(v + [c] + rest, c) == [v] + Split(rest, c)
  {
    var s := v + [c] + rest;
    assert IndexOfChar(s, c) == |v| by {
      IndexOfCharAfter(v, c, rest);
    }
    assert s[..|v|] == v;
    assert s[|v| + 1..] == rest;
  }

  lemma {:induction false} IndexOfCharAfter(v: string, c: char, rest: string)
    requires Lacks(v, c)
    ensures IndexOfChar(v + [c] + rest, c) == |v|
  {
    if |v| > 0 {
      assert (v + [c] + rest)[1..] == v[1..] + [c] + rest;
      IndexOfCharAfter(v[1..], c, rest);
    }
  }

  /** Splitting a join at its one-character separator gives back the values,
      as long as no value contains the separator. */
  lemma {:induction false} SplitJoin(values: seq<string>, c: char)
    requires |values| > 0
    requires forall i :: 0 <= i < |values| ==> Lacks(values[i], c)
    ensures Split(Join(values, [c]), c) == values
  {
    if |values| == 1 {
      JoinSingleton(values[0], [c]);
      assert IndexOfChar(values[0], c) == -1;
    } else {
      var rest := values[1..];
      JoinCons(values[0], rest, [c]);
      assert [values[0]] + rest == values;
      SplitAfter(values[0], c, Join(rest, [c]));
      SplitJoin(rest, c);
    }
  }

  /** The joined reply of the endpoint tests: `["r1", "r2"]` with the
      default separator is `r1,r2`. */
  lemma JoinFixture()
    ensures Join(["r1", "r2"], DEFAULT_SEPARATOR) == "r1,r2"
  {
    JoinCons("r1", ["r2"], DEFAULT_SEPARATOR);
    JoinSingleton("r2", DEFAULT_SEPARATOR);
  }

  // ---------------------------------------------------------------------
  // The first Java revision

  /** `PostfixProtocol.writeSuccessfulResponse` of the first Java revision:
      the results joined by single spaces and sent with code 200, or nothing
      at all (its `-1`) when there are none. */
  function SpaceJoinedSuccess(results: seq<string>): (r: Option<(int, string)>)
    ensures r.None? <==> |results| == 0
    ensures r.Some? ==> r.value.0 == 200 && r.value.1 == Join(results, " ")
  {
    if |results| == 0 then None
    else Some((200, results[0] + JoinRest(results[1..], " ")))
  }
}

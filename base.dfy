/** Small helpers the route handlers rely on: optional request fields,
    JavaScript truthiness, `toUpperCase`, `Math.round`, and filtering of
    table contents. */
module Base {

  /** A request field that may be absent (`undefined` in the handlers). */
  datatype Option<T> = None | Some(value: T) {
    function GetOr(default: T): T {
      if Some? then value else default
    }
  }

  /** `toUpperCase` on one character; only ASCII letters are modelled. */
  function UpperChar(c: char): char {
    if 'a' <= c <= 'z' then (c as int - 32) as char else c
  }

  /** `toUpperCase`: each character upper-cased, so no lower-case ASCII
      letter is left. */
  function ToUpper(s: string): (r: string)
    ensures |r| == |s| && forall i :: 0 <= i < |s| ==> r[i] == UpperChar(s[i])
    ensures forall i :: 0 <= i < |r| ==> !('a' <= r[i] <= 'z')
  {
    seq(|s|, i requires 0 <= i < |s| => UpperChar(s[i]))
  }

  /** JavaScript truthiness of an optional string: absent and "" are falsy. */
  predicate Truthy(s: Option<string>) {
    s.Some? && s.value != ""
  }

  /** JavaScript truthiness of an optional number: absent and 0 are falsy. */
  predicate NonZero(x: Option<real>) {
    x.Some? && x.value != 0.0
  }

  /** `Math.round`: the nearest integer, a half rounded towards +infinity. */
  function Round(x: real): (r: int)
    ensures x - 0.5 < r as real <= x + 0.5
  {
    (x + 0.5).Floor
  }

  /** The elements of `s` that satisfy `p`, in their order in `s` (a
      `findMany` with a `where` clause). */
  function Filter<T>(s: seq<T>, p: T -> bool): (r: seq<T>)
    ensures |r| <= |s|
    ensures forall i :: 0 <= i < |r| ==> r[i] in s && p(r[i])
    ensures forall i :: 0 <= i < |s| && p(s[i]) ==> s[i] in r
  {
    if s == [] then []
    else Filter(s[..|s| - 1], p) + (if p(s[|s| - 1]) then [s[|s| - 1]] else [])
  }

  /** Filtering keeps no element more often than the input holds it. */
  lemma {:induction false} FilterSubMultiset<T>(s: seq<T>, p: T -> bool)
    ensures multiset(Filter(s, p)) <= multiset(s)
  {
    if s != [] {
      FilterSubMultiset(s[..|s| - 1], p);
      assert s == s[..|s| - 1] + [s[|s| - 1]];
    }
  }

  lemma {:induction false} FilterNone<T>(s: seq<T>, p: T -> bool)
    requires forall i :: 0 <= i < |s| ==> !p(s[i])
    ensures Filter(s, p) == []
  {
    if s != [] {
      FilterNone(s[..|s| - 1], p);
    }
  }

  /** Filtering keeps a strictly decreasing key strictly decreasing. */
  lemma {:induction false} FilterKeepsDecreasing<T>(s: seq<T>, p: T -> bool, key: T -> int)
    requires forall i, j :: 0 <= i < j < |s| ==> key(s[i]) > key(s[j])
    ensures forall i, j :: 0 <= i < j < |Filter(s, p)| ==> key(Filter(s, p)[i]) > key(Filter(s, p)[j])
  {
    if s != [] {
      var init, last := s[..|s| - 1], s[|s| - 1];
      FilterKeepsDecreasing(init, p, key);
      var f := Filter(init, p);
      forall i | 0 <= i < |f| ensures key(f[i]) > key(last) {
        var k :| 0 <= k < |init| && init[k] == f[i];
        assert s[k] == f[i];
      }
    }
  }

  /** The elements of `s`, last first. */
  function Reverse<T>(s: seq<T>): (r: seq<T>)
    ensures |r| == |s|
    ensures forall i :: 0 <= i < |s| ==> r[i] == s[|s| - 1 - i]
  {
    seq(|s|, i requires 0 <= i < |s| => s[|s| - 1 - i])
  }

  /** A table whose keys are the positions of its records, read newest
      first and filtered, keeps exactly the records that pass, in strictly
      decreasing key order. */
  lemma NewestFirst<T>(s: seq<T>, p: T -> bool, key: T -> int)
    requires forall i :: 0 <= i < |s| ==> key(s[i]) == i
    ensures forall i :: 0 <= i < |Filter(Reverse(s), p)| ==> Filter(Reverse(s), p)[i] in s && p(Filter(Reverse(s), p)[i])
    ensures forall i :: 0 <= i < |s| && p(s[i]) ==> s[i] in Filter(Reverse(s), p)
    ensures forall i, j :: 0 <= i < j < |Filter(Reverse(s), p)| ==>
      key(Filter(Reverse(s), p)[i]) > key(Filter(Reverse(s), p)[j])
  {
    var rev := Reverse(s);
    var r := Filter(rev, p);
    forall i | 0 <= i < |r| ensures r[i] in s {
      var k :| 0 <= k < |rev| && rev[k] == r[i];
      assert s[|s| - 1 - k] == r[i];
    }
    forall i | 0 <= i < |s| && p(s[i]) ensures s[i] in r {
      assert rev[|s| - 1 - i] == s[i];
    }
    FilterKeepsDecreasing(rev, p, key);
  }
}

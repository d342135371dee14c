/** A data frame as the stages see it: an ordered list of column names and a
    sequence of rows, each row mapping column names to cell values. */
module Frames {
  import opened Common

  /** A cell: null, or a scalar of one of the types the stages handle. */
  datatype Value =
    | VNull
    | VInt(i: int)
    | VReal(r: real)
    | VBool(b: bool)
    | VStr(s: string)

  type Row = map<string, Value>

  datatype Frame = Frame(columns: seq<string>, rows: seq<Row>)

  /** The value of column `c` in `row`; a column a row does not carry reads as
      null, as the NDJSON reader fills it in. */
  function Cell(row: Row, c: string): Value
  {
    if c in row then row[c] else VNull
  }

  /** The numeric reading of a cell, if it has one. */
  function AsNumber(v: Value): Option<real>
  {
    match v
    case VInt(i) => Some(i as real)
    case VReal(r) => Some(r)
    case _ => None
  }

  predicate Distinct(s: seq<string>)
  {
    forall i, j :: 0 <= i < j < |s| ==> s[i] != s[j]
  }

  /** The elements of `s` that are not in `drop`, in their order. */
  function Without(s: seq<string>, drop: set<string>): (r: seq<string>)
    ensures forall c :: c in r <==> c in s && c !in drop
    ensures |r| <= |s|
    ensures (forall c :: c in s ==> c in drop) ==> r == []
  {
    if s == [] then []
    else if s[0] in drop then Without(s[1..], drop)
    else [s[0]] + Without(s[1..], drop)
  }

  /** `r` is a subsequence of `s`: its elements occur in `s` in the same order,
      possibly with others in between. */
  predicate IsSubseq(r: seq<string>, s: seq<string>)
    decreases |s|
  {
    if r == [] then true
    else if s == [] then false
    else (r[0] == s[0] && IsSubseq(r[1..], s[1..])) || IsSubseq(r, s[1..])
  }

  /** Filtering keeps the surviving elements in their original order. */
  lemma {:induction false} WithoutOrder(s: seq<string>, drop: set<string>)
    ensures IsSubseq(Without(s, drop), s)
  {
    if s != [] {
      WithoutOrder(s[1..], drop);
      var r := Without(s, drop);
      if s[0] !in drop {
        assert r[0] == s[0] && r[1..] == Without(s[1..], drop);
      }
    }
  }

  /** Filtering keeps a sequence without repetitions free of them. */
  lemma {:induction false} WithoutDistinct(s: seq<string>, drop: set<string>)
    requires Distinct(s)
    ensures Distinct(Without(s, drop))
  {
    if s != [] {
      WithoutDistinct(s[1..], drop);
      forall k | 0 <= k < |s[1..]|
        ensures s[1..][k] != s[0]
      {
        assert s[1..][k] == s[k + 1];
      }
    }
  }

  /** Filtering with a set that leaves `extra` alone ignores a trailing `extra`. */
  lemma {:induction false} WithoutAppendDropped(s: seq<string>, extra: string, drop: set<string>)
    requires extra in drop
    ensures Without(s + [extra], drop) == Without(s, drop)
  {
    if s == [] {
      assert Without([extra], drop) == Without([extra][1..], drop);
    } else {
      assert (s + [extra])[1..] == s[1..] + [extra];
      WithoutAppendDropped(s[1..], extra, drop);
    }
  }
}

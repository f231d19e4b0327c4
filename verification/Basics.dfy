/** Shared value types and sequence facts used by several models. */
module Basics {

  datatype Option<+T> = None | Some(value: T)

  /** Index of the first occurrence of `c`, or -1; Go's strings.IndexByte. */
  function IndexOf<T(==)>(s: seq<T>, c: T): (i: int)
    ensures -1 <= i < |s|
    ensures i < 0 <==> c !in s
    ensures i >= 0 ==> s[i] == c && c !in s[..i]
  {
    if s == [] then -1
    else if s[0] == c then 0
    else
      var rest := IndexOf(s[1..], c);
      if rest < 0 then -1
      else
        assert s[..rest + 1] == [s[0]] + s[1..][..rest];
        rest + 1
  }

  lemma Assoc<T>(a: seq<T>, b: seq<T>, c: seq<T>)
    ensures a + (b + c) == a + b + c
  {
  }

  ghost predicate NoDup<T>(s: seq<T>) {
    forall i, j :: 0 <= i < j < |s| ==> s[i] != s[j]
  }

  function Elements<T>(s: seq<T>): (r: set<T>) {
    set x | x in s
  }

  /** A duplicate-free list has as many elements as its set. */
  lemma {:induction false} NoDupCardinality<T>(s: seq<T>)
    requires NoDup(s)
    ensures |Elements(s)| == |s|
  {
    if s != [] {
      var init, last := s[..|s| - 1], s[|s| - 1];
      NoDupCardinality(init);
      assert s == init + [last];
      assert Elements(s) == Elements(init) + {last};
      assert last !in init;
    }
  }
}

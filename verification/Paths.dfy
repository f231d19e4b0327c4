/** SplitPath of pkg/appsrv/appsrv.go: a request path or route prefix as a list of segments. */
module Paths {
  import opened Basics

  predicate IsBlank(c: char) {
    c == ' ' || c == '\t' || c == '\r' || c == '\n'
  }

  /** strings.Trim with the cut set of blanks. */
  function Trim(s: string): (r: string)
    ensures |r| <= |s|
    decreases |s|
  {
    if s == [] then s
    else if IsBlank(s[0]) then Trim(s[1..])
    else if IsBlank(s[|s| - 1]) then Trim(s[..|s| - 1])
    else s
  }

  /** strings.Split at slashes; never empty. */
  function Split(s: string): (parts: seq<string>)
    ensures parts != []
    decreases |s|
  {
    var i := IndexOf(s, '/');
    if i < 0 then [s] else [s[..i]] + Split(s[i + 1..])
  }

  /** The trimmed non-empty parts, in order. */
  function Kept(parts: seq<string>): seq<string> {
    if parts == [] then []
    else
      var init, last := Kept(parts[..|parts| - 1]), Trim(parts[|parts| - 1]);
      if last == [] then init else init + [last]
  }

  function Segments(path: string): seq<string> {
    Kept(Split(path))
  }

  method SplitPath(path: string) returns (ret: seq<string>)
    ensures ret == Segments(path)
  {
    ret := [];
    var parts := Split(path);
    for i := 0 to |parts|
      invariant ret == Kept(parts[..i])
    {
      assert parts[..i + 1][..i] == parts[..i];
      var seg := Trim(parts[i]);
      if |seg| > 0 {
        ret := ret + [seg];
      }
    }
    assert parts[..|parts|] == parts;
  }

  // ---- Laws ----------------------------------------------------------------

  /** A segment SplitPath can return. */
  predicate Clean(seg: string) {
    seg != [] && '/' !in seg && !IsBlank(seg[0]) && !IsBlank(seg[|seg| - 1])
  }

  lemma {:induction false} TrimClean(s: string)
    requires '/' !in s
    ensures Trim(s) == [] || Clean(Trim(s))
    decreases |s|
  {
    if s != [] && IsBlank(s[0]) {
      TrimClean(s[1..]);
    } else if s != [] && IsBlank(s[|s| - 1]) {
      TrimClean(s[..|s| - 1]);
    }
  }

  lemma {:induction false} SplitHasNoSlash(s: string)
    ensures forall i :: 0 <= i < |Split(s)| ==> '/' !in Split(s)[i]
    decreases |s|
  {
    var i := IndexOf(s, '/');
    if i >= 0 {
      SplitHasNoSlash(s[i + 1..]);
    }
  }

  lemma {:induction false} KeptClean(parts: seq<string>)
    requires forall i :: 0 <= i < |parts| ==> '/' !in parts[i]
    ensures forall i :: 0 <= i < |Kept(parts)| ==> Clean(Kept(parts)[i])
  {
    if parts != [] {
      KeptClean(parts[..|parts| - 1]);
      TrimClean(parts[|parts| - 1]);
    }
  }

  /** Every segment is non-empty, has no slash and no blank at either end. */
  lemma SegmentsAreClean(path: string)
    ensures forall i :: 0 <= i < |Segments(path)| ==> Clean(Segments(path)[i])
  {
    SplitHasNoSlash(path);
    KeptClean(Split(path));
  }

  lemma {:induction false} SplitJoin(p: string, q: string)
    ensures Split(p + "/" + q) == Split(p) + Split(q)
    decreases |p|
  {
    var i := IndexOf(p, '/');
    if i < 0 {
      SplitAtFirst(p, q);
    } else {
      assert p + "/" + q == p[..i] + "/" + (p[i + 1..] + "/" + q);
      SplitAtFirst(p[..i], p[i + 1..] + "/" + q);
      SplitJoin(p[i + 1..], q);
    }
  }

  lemma SplitAtFirst(p: string, q: string)
    requires '/' !in p
    ensures Split(p + "/" + q) == [p] + Split(q)
  {
    var s := p + "/" + q;
    assert s[|p|] == '/' && s[..|p|] == p && s[|p| + 1..] == q;
    assert forall k :: 0 <= k < |p| ==> s[k] == p[k];
    assert IndexOf(s, '/') == |p|;
  }

  lemma {:induction false} KeptJoin(a: seq<string>, b: seq<string>)
    ensures Kept(a + b) == Kept(a) + Kept(b)
  {
    if b == [] {
      assert a + b == a;
    } else {
      assert (a + b)[..|a + b| - 1] == a + b[..|b| - 1];
      KeptJoin(a, b[..|b| - 1]);
    }
  }

  /** Segments of a joined path are the segments of its parts, so doubled, leading and trailing slashes vanish. */
  lemma SegmentsJoin(p: string, q: string)
    ensures Segments(p + "/" + q) == Segments(p) + Segments(q)
  {
    SplitJoin(p, q);
    KeptJoin(Split(p), Split(q));
  }

  function Join(segs: seq<string>): string {
    if segs == [] then ""
    else if |segs| == 1 then segs[0]
    else Join(segs[..|segs| - 1]) + "/" + segs[|segs| - 1]
  }

  /** Splitting a joined list of clean segments gives the list back. */
  lemma {:induction false} SegmentsOfJoin(segs: seq<string>)
    requires forall i :: 0 <= i < |segs| ==> Clean(segs[i])
    ensures Segments(Join(segs)) == segs
  {
    if segs == [] {
      assert Segments("") == [];
    } else {
      var init, last := segs[..|segs| - 1], segs[|segs| - 1];
      assert Split(last) == [last];
      assert Kept([last][..0]) == [];
      assert Segments(last) == [last];
      if |segs| == 1 {
        assert segs == [last];
      } else {
        SegmentsOfJoin(init);
        SegmentsJoin(Join(init), last);
        assert segs == init + [last];
      }
    }
  }

  /** SplitPath is stable: joining its result and splitting again changes nothing. */
  lemma SegmentsStable(path: string)
    ensures Segments(Join(Segments(path))) == Segments(path)
  {
    SegmentsAreClean(path);
    SegmentsOfJoin(Segments(path));
  }

  ghost predicate AllBlank(s: string) {
    forall i | 0 <= i < |s| :: s[i] == ' ' || s[i] == '\t' || s[i] == '\r' || s[i] == '\n'
  }

  lemma AddBlank(left: string, t: string, right: string, c: char)
    requires AllBlank(left) && AllBlank(right) && IsBlank(c)
    ensures [c] + (left + t + right) == ([c] + left) + t + right && AllBlank([c] + left)
    ensures (left + t + right) + [c] == left + t + (right + [c]) && AllBlank(right + [c])
  {
  }

  lemma {:induction false} TrimSplits(s: string) returns (left: string, right: string)
    ensures s == left + Trim(s) + right && AllBlank(left) && AllBlank(right)
    decreases |s|
  {
    if s == [] {
      left, right := [], [];
    } else if IsBlank(s[0]) {
      left, right := TrimSplits(s[1..]);
      AddBlank(left, Trim(s[1..]), right, s[0]);
      assert s == [s[0]] + s[1..];
      left := [s[0]] + left;
    } else if IsBlank(s[|s| - 1]) {
      left, right := TrimSplits(s[..|s| - 1]);
      AddBlank(left, Trim(s[..|s| - 1]), right, s[|s| - 1]);
      assert s == s[..|s| - 1] + [s[|s| - 1]];
      right := right + [s[|s| - 1]];
    } else {
      left, right := [], [];
      assert s == [] + s + [];
    }
  }

  lemma {:induction false} TrimEnds(s: string)
    ensures Trim(s) != [] ==> !IsBlank(Trim(s)[0]) && !IsBlank(Trim(s)[|Trim(s)| - 1])
    decreases |s|
  {
    if s != [] {
      if IsBlank(s[0]) { TrimEnds(s[1..]); } else if IsBlank(s[|s| - 1]) { TrimEnds(s[..|s| - 1]); }
    }
  }

  /** All blanks at the ends are cut off and nothing else: a part is blanks, what is kept of it, and blanks. */
  lemma TrimCutsBlanks(s: string) returns (left: string, right: string)
    ensures s == left + Trim(s) + right && AllBlank(left) && AllBlank(right)
    ensures Trim(s) != [] ==> !AllBlank(Trim(s)[..1]) && !AllBlank(Trim(s)[|Trim(s)| - 1..])
  {
    left, right := TrimSplits(s);
    TrimEnds(s);
    if Trim(s) != [] {
      assert Trim(s)[..1][0] == Trim(s)[0] && Trim(s)[|Trim(s)| - 1..][0] == Trim(s)[|Trim(s)| - 1];
    }
  }
}

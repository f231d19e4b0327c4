/**
 Priority of routes: a backtracking search over the registration list, and the
 proof that it finds the one registration that beats every other candidate.
 */
module RouteChoice {
  import opened Basics
  import opened RoutePatterns

  /** A search result: the key found, if any, and the flag the search reports with it. */
  datatype Found = Found(key: Option<Key>, flag: bool)

  function Through(e: Edge, f: Found, flag: bool): Found
    requires f.key.Some?
  {
    Found(Some([e] + f.key.value), flag)
  }

  /** Search behind a literal edge first, then behind the regular expressions, then stop here. */
  function Choose<D>(regs: seq<Reg<D>>, rx: Matcher, segs: seq<string>): Found
    decreases |segs|, 1, 0
  {
    if segs == [] then Found(if HasData(regs, []) then Some([]) else None, true)
    else
      var lit := Choose(Derive(regs, Lit(segs[0])), rx, segs[1..]);
      if lit.key.Some? then Through(Lit(segs[0]), lit, true)
      else
        var rex := ChooseRex(regs, rx, segs, RexHeads(regs));
        if rex.key.Some? then rex
        else Found(if HasData(regs, []) then Some([]) else None, false)
  }

  /** The first regular expression with a flagged result, else the first with any result. */
  function ChooseRex<D>(regs: seq<Reg<D>>, rx: Matcher, segs: seq<string>, heads: seq<string>): Found
    requires segs != []
    decreases |segs|, 0, |heads|
  {
    if heads == [] then Found(None, false)
    else
      var sub := Behind(regs, rx, segs, heads[0]);
      var rest := ChooseRex(regs, rx, segs, heads[1..]);
      if sub.key.Some? && sub.flag then sub
      else if rest.key.Some? && rest.flag then rest
      else if sub.key.Some? then sub
      else rest
  }

  /** The result behind one regular expression of this node. */
  function Behind<D>(regs: seq<Reg<D>>, rx: Matcher, segs: seq<string>, p: string): Found
    requires segs != []
    decreases |segs|, 0, 0
  {
    if rx(p, segs[0]) then
      var sub := Choose(Derive(regs, Rex(p)), rx, segs[1..]);
      if sub.key.Some? then Through(Rex(p), sub, sub.flag) else Found(None, false)
    else Found(None, false)
  }

  // ---- Candidates and priorities through one edge ------------------------

  lemma CandidateUnderEdge<D>(regs: seq<Reg<D>>, rx: Matcher, segs: seq<string>, e: Edge, t: Key)
    requires segs != []
    ensures Candidate(regs, rx, segs, [e] + t)
       <==> EdgeMatches(rx, e, segs[0]) && Candidate(Derive(regs, e), rx, segs[1..], t)
  {
    DeriveSlot(regs, e, t);
    var k := [e] + t;
    if MatchesPrefix(rx, k, segs) {
      assert k[0] == e;
      forall i | 0 <= i < |t| ensures EdgeMatches(rx, t[i], segs[1..][i]) {
        assert EdgeMatches(rx, k[i + 1], segs[i + 1]);
      }
    }
  }

  lemma BeatsUnderEdge<D>(regs: seq<Reg<D>>, n: nat, e: Edge, a: Key, b: Key)
    ensures Beats(regs, n + 1, [e] + a, [e] + b) == Beats(Derive(regs, e), n, a, b)
  {
    var a', b', d := [e] + a, [e] + b, Fork(a, b);
    assert a'[1..] == a && b'[1..] == b;
    assert Fork(a', b') == d + 1;
    if d < |a| && d < |b| {
      FlaggedUnderEdge(n, e, a, d + 1);
      FlaggedUnderEdge(n, e, b, d + 1);
      assert a'[..d + 2] == [e] + a[..d + 1] && b'[..d + 2] == [e] + b[..d + 1];
      DeriveFirst(regs, e, a[..d + 1], b[..d + 1]);
    }
  }

  lemma FlaggedUnderEdge(n: nat, e: Edge, k: Key, from: nat)
    ensures Flagged(n + 1, [e] + k, from + 1) == Flagged(n, k, from)
  {
    var k' := [e] + k;
    forall i | from <= i < |k| ensures k'[i + 1] == k[i] {}
    if i :| from + 1 <= i < |k'| && k'[i].Lit? {
      assert k[i - 1].Lit?;
    }
  }

  /** A flagged candidate is only beaten by flagged ones. */
  lemma BeatsKeepsFlag<D>(regs: seq<Reg<D>>, n: nat, a: Key, b: Key)
    requires |a| <= n && Beats(regs, n, a, b) && Flagged(n, b, 0)
    ensures Flagged(n, a, 0)
  {
  }

  /** Priority is asymmetric, so at most one key is best. */
  lemma BeatsAsymmetric<D>(regs: seq<Reg<D>>, n: nat, a: Key, b: Key)
    ensures !(Beats(regs, n, a, b) && Beats(regs, n, b, a))
  {
  }

  lemma BestIsUnique<D>(regs: seq<Reg<D>>, rx: Matcher, segs: seq<string>, a: Key, b: Key)
    requires IsBest(regs, rx, segs, a) && IsBest(regs, rx, segs, b)
    ensures a == b
  {
  }

  lemma {:induction false} ForkSymmetric(a: Key, b: Key)
    ensures Fork(a, b) == Fork(b, a)
  {
  }

  // ---- The search finds the best candidate -------------------------------

  /** What a search over all candidates must return. */
  ghost predicate Sound<D>(regs: seq<Reg<D>>, rx: Matcher, segs: seq<string>, f: Found) {
    match f.key
    case None => forall c :: !Candidate(regs, rx, segs, c)
    case Some(k) => IsBest(regs, rx, segs, k) && f.flag == Flagged(|segs|, k, 0)
  }

  /** The same for candidates that start with one of the given regular expressions. */
  ghost predicate SoundRex<D>(regs: seq<Reg<D>>, rx: Matcher, segs: seq<string>, heads: seq<string>, f: Found) {
    match f.key
    case None => forall c :: Candidate(regs, rx, segs, c) ==> !StartsWith(c, heads)
    case Some(k) =>
      && Candidate(regs, rx, segs, k) && StartsWith(k, heads)
      && f.flag == Flagged(|segs|, k, 0)
      && forall c :: Candidate(regs, rx, segs, c) && StartsWith(c, heads) && c != k ==> Beats(regs, |segs|, k, c)
  }

  predicate StartsWith(k: Key, heads: seq<string>) {
    k != [] && k[0].Rex? && k[0].pattern in heads
  }

  /** The search returns nothing exactly when nothing matches, and otherwise the best candidate with its flag. */
  lemma {:induction false} ChooseFindsBest<D>(regs: seq<Reg<D>>, rx: Matcher, segs: seq<string>)
    ensures Sound(regs, rx, segs, Choose(regs, rx, segs))
    decreases |segs|, 2, 0
  {
    if segs == [] {
      forall c | Candidate(regs, rx, segs, c) ensures c == [] {}
      assert MatchesPrefix(rx, [], segs);
    } else {
      ChooseFindsBest(Derive(regs, Lit(segs[0])), rx, segs[1..]);
      var lit := Choose(Derive(regs, Lit(segs[0])), rx, segs[1..]);
      if lit.key.Some? {
        LiteralWins(regs, rx, segs, lit);
      } else {
        NoLiteral(regs, rx, segs);
        ChooseRexFindsBest(regs, rx, segs, 0);
        RexThenHere(regs, rx, segs);
      }
    }
  }

  lemma LiteralWins<D>(regs: seq<Reg<D>>, rx: Matcher, segs: seq<string>, lit: Found)
    requires segs != [] && lit.key.Some?
    requires Sound(Derive(regs, Lit(segs[0])), rx, segs[1..], lit)
    ensures Sound(regs, rx, segs, Through(Lit(segs[0]), lit, true))
  {
    var e, t := Lit(segs[0]), lit.key.value;
    CandidateUnderEdge(regs, rx, segs, e, t);
    forall c | Candidate(regs, rx, segs, c) && c != [e] + t ensures Beats(regs, |segs|, [e] + t, c) {
      LiteralBeats(regs, rx, segs, t, c);
    }
  }

  lemma LiteralBeats<D>(regs: seq<Reg<D>>, rx: Matcher, segs: seq<string>, t: Key, c: Key)
    requires segs != [] && IsBest(Derive(regs, Lit(segs[0])), rx, segs[1..], t)
    requires Candidate(regs, rx, segs, c) && c != [Lit(segs[0])] + t
    ensures Beats(regs, |segs|, [Lit(segs[0])] + t, c)
  {
    var e := Lit(segs[0]);
    if c != [] {
      assert EdgeMatches(rx, c[0], segs[0]);
      assert c == [c[0]] + c[1..];
      if c[0] == e {
        CandidateUnderEdge(regs, rx, segs, e, c[1..]);
        BeatsUnderEdge(regs, |segs| - 1, e, t, c[1..]);
      }
    }
  }

  /** Without a result behind the literal edge, no candidate starts with a literal. */
  lemma NoLiteral<D>(regs: seq<Reg<D>>, rx: Matcher, segs: seq<string>)
    requires segs != []
    requires forall c :: !Candidate(Derive(regs, Lit(segs[0])), rx, segs[1..], c)
    ensures forall c :: Candidate(regs, rx, segs, c) ==> c == [] || StartsWith(c, RexHeads(regs))
  {
    forall c: Key | Candidate(regs, rx, segs, c) && c != [] ensures StartsWith(c, RexHeads(regs)) {
      assert EdgeMatches(rx, c[0], segs[0]);
      assert c == [c[0]] + c[1..];
      CandidateUnderEdge(regs, rx, segs, c[0], c[1..]);
      SlotThroughHead(regs, c);
      RexHeadFirst(regs, c[0].pattern);
    }
  }

  /** A key with data was registered, so its first edge is a head. */
  lemma {:induction false} SlotThroughHead<D>(regs: seq<Reg<D>>, k: Key)
    requires HasData(regs, k) && k != []
    ensures k[0] in Heads(regs)
  {
    var init := regs[..|regs| - 1];
    assert regs == init + [regs[|init|]];
    HeadsSnoc(init, regs[|init|]);
    if regs[|init|].key != k {
      SlotThroughHead(init, k);
    }
  }

  lemma RexThenHere<D>(regs: seq<Reg<D>>, rx: Matcher, segs: seq<string>)
    requires segs != []
    requires SoundRex(regs, rx, segs, RexHeads(regs), ChooseRex(regs, rx, segs, RexHeads(regs)))
    requires forall c :: Candidate(regs, rx, segs, c) ==> c == [] || StartsWith(c, RexHeads(regs))
    requires Choose(Derive(regs, Lit(segs[0])), rx, segs[1..]).key.None?
    ensures Sound(regs, rx, segs, Choose(regs, rx, segs))
  {
  }

  /** The search behind one regular expression finds the best key that starts with it. */
  lemma BehindFindsBest<D>(regs: seq<Reg<D>>, rx: Matcher, segs: seq<string>, p: string)
    requires segs != []
    ensures SoundRex(regs, rx, segs, [p], Behind(regs, rx, segs, p))
    decreases |segs|, 0, 0
  {
    var e := Rex(p);
    var sub := Choose(Derive(regs, e), rx, segs[1..]);
    ChooseFindsBest(Derive(regs, e), rx, segs[1..]);
    forall c | Candidate(regs, rx, segs, c) && StartsWith(c, [p])
      ensures rx(p, segs[0]) && sub.key.Some? && (c == [e] + sub.key.value || Beats(regs, |segs|, [e] + sub.key.value, c))
    {
      BehindBeats(regs, rx, segs, p, sub, c);
    }
    if rx(p, segs[0]) && sub.key.Some? {
      CandidateUnderEdge(regs, rx, segs, e, sub.key.value);
      RexKeepsFlag(|segs| - 1, p, sub.key.value);
    }
  }

  lemma BehindBeats<D>(regs: seq<Reg<D>>, rx: Matcher, segs: seq<string>, p: string, sub: Found, c: Key)
    requires segs != [] && Sound(Derive(regs, Rex(p)), rx, segs[1..], sub)
    requires Candidate(regs, rx, segs, c) && StartsWith(c, [p])
    ensures rx(p, segs[0]) && sub.key.Some?
    ensures c == [Rex(p)] + sub.key.value || Beats(regs, |segs|, [Rex(p)] + sub.key.value, c)
  {
    var e := Rex(p);
    assert c == [e] + c[1..];
    CandidateUnderEdge(regs, rx, segs, e, c[1..]);
    BeatsUnderEdge(regs, |segs| - 1, e, sub.key.value, c[1..]);
  }

  lemma RexKeepsFlag(n: nat, p: string, t: Key)
    ensures Flagged(n + 1, [Rex(p)] + t, 0) == Flagged(n, t, 0)
  {
    FlaggedUnderEdge(n, Rex(p), t, 0);
    var k := [Rex(p)] + t;
    if i :| 0 <= i < |k| && k[i].Lit? {
      assert i >= 1;
    }
  }

  lemma {:induction false} ChooseRexFindsBest<D>(regs: seq<Reg<D>>, rx: Matcher, segs: seq<string>, from: nat)
    requires segs != [] && from <= |RexHeads(regs)|
    ensures SoundRex(regs, rx, segs, RexHeads(regs)[from..], ChooseRex(regs, rx, segs, RexHeads(regs)[from..]))
    decreases |segs|, 1, |RexHeads(regs)| - from
  {
    var heads := RexHeads(regs)[from..];
    if heads != [] {
      BehindFindsBest(regs, rx, segs, heads[0]);
      ChooseRexFindsBest(regs, rx, segs, from + 1);
      assert heads[1..] == RexHeads(regs)[from + 1..];
      FirstRexOrRest(regs, rx, segs, from);
    }
  }

  lemma FirstRexOrRest<D>(regs: seq<Reg<D>>, rx: Matcher, segs: seq<string>, from: nat)
    requires segs != [] && from < |RexHeads(regs)|
    requires SoundRex(regs, rx, segs, [RexHeads(regs)[from]], Behind(regs, rx, segs, RexHeads(regs)[from]))
    requires SoundRex(regs, rx, segs, RexHeads(regs)[from + 1..], ChooseRex(regs, rx, segs, RexHeads(regs)[from + 1..]))
    ensures SoundRex(regs, rx, segs, RexHeads(regs)[from..], ChooseRex(regs, rx, segs, RexHeads(regs)[from..]))
  {
    var heads := RexHeads(regs)[from..];
    var p, tail := heads[0], RexHeads(regs)[from + 1..];
    assert heads[1..] == tail;
    assert heads == [p] + tail;
    var sub, rest := Behind(regs, rx, segs, p), ChooseRex(regs, rx, segs, tail);
    forall c | StartsWith(c, heads) ensures StartsWith(c, [p]) || StartsWith(c, tail) {}
    if sub.key.Some? {
      forall c | Candidate(regs, rx, segs, c) && StartsWith(c, tail)
        ensures sub.flag || !Flagged(|segs|, c, 0) ==> Beats(regs, |segs|, sub.key.value, c)
      {
        EarlierRexWins(regs, |segs|, sub.key.value, c, from);
      }
    }
    if rest.key.Some? {
      forall c | Candidate(regs, rx, segs, c) && StartsWith(c, tail) && Flagged(|segs|, c, 0) && c != rest.key.value
        ensures rest.flag
      {
        BeatsKeepsFlag(regs, |segs|, rest.key.value, c);
      }
      forall c | Candidate(regs, rx, segs, c) && StartsWith(c, [p]) && rest.flag && !(sub.key.Some? && sub.flag)
        ensures Beats(regs, |segs|, rest.key.value, c)
      {
        if c != sub.key.value && Flagged(|segs|, c, 0) {
          BeatsKeepsFlag(regs, |segs|, sub.key.value, c);
        }
        LaterFlaggedWins(regs, |segs|, rest.key.value, c, from);
      }
    }
  }

  lemma EarlierRexWins<D>(regs: seq<Reg<D>>, n: nat, a: Key, c: Key, from: nat)
    requires from < |RexHeads(regs)|
    requires StartsWith(a, [RexHeads(regs)[from]]) && StartsWith(c, RexHeads(regs)[from + 1..])
    ensures Flagged(n, a, 0) || !Flagged(n, c, 0) ==> Beats(regs, n, a, c)
  {
    var j :| 0 <= j < |RexHeads(regs)[from + 1..]| && RexHeads(regs)[from + 1..][j] == c[0].pattern;
    RexHeadsOrder(regs, from, from + 1 + j);
    assert a[..1] == [a[0]] && c[..1] == [c[0]];
    FlagAfterRex(n, a);
    FlagAfterRex(n, c);
  }

  lemma LaterFlaggedWins<D>(regs: seq<Reg<D>>, n: nat, a: Key, c: Key, from: nat)
    requires from < |RexHeads(regs)|
    requires StartsWith(c, [RexHeads(regs)[from]]) && StartsWith(a, RexHeads(regs)[from + 1..])
    requires Flagged(n, a, 0) && !Flagged(n, c, 0)
    ensures Beats(regs, n, a, c)
  {
  }

  lemma FlagAfterRex(n: nat, k: Key)
    requires k != [] && k[0].Rex?
    ensures Flagged(n, k, 0) == Flagged(n, k, 1)
  {
  }

  // ---- Consequences ------------------------------------------------------

  /** A route whose literals spell out the whole request wins over every other route. */
  lemma ExactLiteralRouteWins<D>(regs: seq<Reg<D>>, rx: Matcher, segs: seq<string>)
    requires HasData(regs, Literals(segs))
    ensures Choose(regs, rx, segs) == Found(Some(Literals(segs)), true)
  {
    var k := Literals(segs);
    forall c | Candidate(regs, rx, segs, c) && c != k ensures Beats(regs, |segs|, k, c) {
      var d := Fork(k, c);
      assert |c| == |k| ==> c[..|k|] == c && k[..|k|] == k;
      if d < |c| {
        assert EdgeMatches(rx, c[d], segs[d]);
      }
    }
    ChooseFindsBest(regs, rx, segs);
    assert Candidate(regs, rx, segs, k);
    BestIsUnique(regs, rx, segs, k, Choose(regs, rx, segs).key.value);
  }

  function Literals(segs: seq<string>): (k: Key)
    ensures |k| == |segs|
  {
    seq(|segs|, i requires 0 <= i < |segs| => Lit(segs[i]))
  }

  ghost predicate AllLiteral<D>(regs: seq<Reg<D>>) {
    forall k: Key, i :: HasData(regs, k) && 0 <= i < |k| ==> k[i].Lit?
  }

  /** Without regular expressions, the longest registered prefix of the request is selected. */
  lemma LiteralTableLongestPrefix<D>(regs: seq<Reg<D>>, rx: Matcher, segs: seq<string>, n: nat)
    requires AllLiteral(regs) && n <= |segs|
    requires HasData(regs, Literals(segs[..n]))
    requires forall m :: n < m <= |segs| ==> !HasData(regs, Literals(segs[..m]))
    ensures Choose(regs, rx, segs).key == Some(Literals(segs[..n]))
  {
    var k := Literals(segs[..n]);
    forall c | Candidate(regs, rx, segs, c) && c != k ensures Beats(regs, |segs|, k, c) {
      forall i | 0 <= i < |c| ensures c[i] == Lit(segs[i]) {
        assert EdgeMatches(rx, c[i], segs[i]);
      }
      assert c == Literals(segs[..|c|]);
      assert |c| < n;
      var d := Fork(k, c);
      assert d == |c|;
    }
    ChooseFindsBest(regs, rx, segs);
    assert Candidate(regs, rx, segs, k);
    BestIsUnique(regs, rx, segs, k, Choose(regs, rx, segs).key.value);
  }

  /** Without regular expressions, the order of registration does not matter. */
  lemma LiteralTableOrderIrrelevant<D>(regs: seq<Reg<D>>, regs': seq<Reg<D>>, rx: Matcher, segs: seq<string>)
    requires AllLiteral(regs)
    requires forall k :: HasData(regs, k) == HasData(regs', k)
    ensures Choose(regs, rx, segs).key == Choose(regs', rx, segs).key
  {
    ChooseFindsBest(regs, rx, segs);
    ChooseFindsBest(regs', rx, segs);
    forall c ensures Candidate(regs, rx, segs, c) == Candidate(regs', rx, segs, c) {}
    if Choose(regs, rx, segs).key.Some? {
      var a, b := Choose(regs, rx, segs).key.value, Choose(regs', rx, segs).key.value;
      assert Candidate(regs, rx, segs, a) && Candidate(regs, rx, segs, b);
      var n: nat := |segs|;
      assert a == b || Beats(regs, n, a, b);
      assert a == b || Beats(regs', n, b, a);
      LiteralCandidatesNest(rx, segs, a, b);
      ForkSymmetric(a, b);
    }
  }

  lemma LiteralCandidatesNest(rx: Matcher, segs: seq<string>, a: Key, b: Key)
    requires MatchesPrefix(rx, a, segs) && MatchesPrefix(rx, b, segs)
    requires forall i :: 0 <= i < |a| ==> a[i].Lit?
    requires forall i :: 0 <= i < |b| ==> b[i].Lit?
    ensures Fork(a, b) == |a| || Fork(a, b) == |b|
  {
  }
}

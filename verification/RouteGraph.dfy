/**
 The nodes of a route tree as values: a list of nodes that name their children
 by position.  Adding and matching on this list is what the tree of objects in
 RouteTree does; here both are related to the flat registration list.
 */
module RouteGraph {
  import opened Basics
  import opened RoutePatterns
  import opened RouteChoice

  datatype RexEdge = RexEdge(child: nat, regStr: string)

  /** One node: the path leading to it, its handler and parameter names, its children. */
  datatype Info<D> = Info(key: Key, data: Option<D>, names: map<nat, string>, lits: map<string, nat>, rexes: seq<RexEdge>)

  type Graph<D> = seq<Info<D>>

  function NewInfo<D>(key: Key): Info<D> {
    Info(key, None, map[], map[], [])
  }

  /** Position of the first edge with this regular expression, or the number of edges. */
  function FindRex(rexes: seq<RexEdge>, p: string): (j: nat)
    ensures j <= |rexes|
    ensures j < |rexes| ==> rexes[j].regStr == p
    ensures forall i :: 0 <= i < j ==> rexes[i].regStr != p
  {
    if rexes == [] then 0
    else if rexes[0].regStr == p then 0
    else 1 + FindRex(rexes[1..], p)
  }

  /** The child of a node along an edge. */
  function Next<D>(n: Info<D>, e: Edge): Option<nat> {
    match e
    case Lit(text) => if text in n.lits then Some(n.lits[text]) else None
    case Rex(p) =>
      var j := FindRex(n.rexes, p);
      if j < |n.rexes| then Some(n.rexes[j].child) else None
  }

  /** A new last child along an edge. */
  function Link<D>(n: Info<D>, e: Edge, child: nat): Info<D> {
    match e
    case Lit(text) => n.(lits := n.lits[text := child])
    case Rex(p) => n.(rexes := n.rexes + [RexEdge(child, p)])
  }

  /** The graph with a child of `at` along `e`, made when missing, and that child. */
  function Ensure<D>(g: Graph<D>, at: nat, e: Edge): (r: (Graph<D>, nat))
    requires at < |g|
    ensures |r.0| >= |g|
  {
    match Next(g[at], e)
    case Some(c) => (g, c)
    case None => (g[at := Link(g[at], e, |g|)] + [NewInfo(Child(g[at].key, e))], |g|)
  }

  /** Children exist and come later in the list than their parent. */
  ghost predicate Ordered<D>(g: Graph<D>) {
    forall i :: 0 <= i < |g| ==> ChildrenIn(g[i], i, |g|)
  }

  ghost predicate ChildrenIn<D>(n: Info<D>, lo: nat, hi: nat) {
    && (forall s :: s in n.lits ==> lo < n.lits[s] < hi)
    && (forall j :: 0 <= j < |n.rexes| ==> lo < n.rexes[j].child < hi)
  }

  lemma EnsureOrdered<D>(g: Graph<D>, at: nat, e: Edge)
    requires at < |g| && Ordered(g)
    ensures Ordered(Ensure(g, at, e).0) && at < Ensure(g, at, e).1 < |Ensure(g, at, e).0|
  {
  }

  lemma NextLink<D>(n: Info<D>, e: Edge, child: nat, f: Edge)
    requires Next(n, e).None?
    ensures Next(Link(n, e, child), f) == if f == e then Some(child) else Next(n, f)
  {
    if e.Rex? && f.Rex? {
      FindRexSnoc(n.rexes, RexEdge(child, e.pattern), f.pattern);
    }
  }

  lemma {:induction false} FindRexSnoc(rexes: seq<RexEdge>, x: RexEdge, p: string)
    ensures FindRex(rexes + [x], p)
         == if FindRex(rexes, p) < |rexes| then FindRex(rexes, p) else if x.regStr == p then |rexes| else |rexes| + 1
  {
    if rexes == [] {
      assert rexes + [x] == [x];
    } else {
      assert (rexes + [x])[1..] == rexes[1..] + [x];
      FindRexSnoc(rexes[1..], x, p);
    }
  }

  lemma StoreOrdered<D>(g: Graph<D>, at: nat, data: Option<D>, names: map<nat, string>)
    requires at < |g| && Ordered(g)
    ensures Ordered(g[at := g[at].(data := data, names := names)])
  {
  }

  /** Adding below `at`: walk the path, making what is missing, then store unless data is there. */
  ghost function AddBelow<D>(g: Graph<D>, at: nat, t: Key, data: Option<D>, names: map<nat, string>): (bool, Graph<D>)
    requires at < |g| && Ordered(g)
    decreases |t|
  {
    if t == [] then
      if g[at].data.Some? then (false, g) else (true, g[at := g[at].(data := data, names := names)])
    else
      EnsureOrdered(g, at, t[0]);
      var (g', c) := Ensure(g, at, t[0]);
      AddBelow(g', c, t[1..], data, names)
  }

  /** Adding along a path that is not there yet always succeeds. */
  lemma NewPathIsFree<D>(g: Graph<D>, at: nat, t: Key, data: Option<D>, names: map<nat, string>)
    requires at < |g| && Ordered(g) && t != []
    ensures Next(g[at], t[0]).None? ==> AddBelow(g, at, t, data, names).0
  {
    if Next(g[at], t[0]).None? {
      EnsureOrdered(g, at, t[0]);
      EmptyNodeIsFree(Ensure(g, at, t[0]).0, |g|, t[1..], data, names);
    }
  }

  lemma {:induction false} EmptyNodeIsFree<D>(g: Graph<D>, at: nat, t: Key, data: Option<D>, names: map<nat, string>)
    requires at < |g| && Ordered(g) && g[at] == NewInfo(g[at].key)
    ensures AddBelow(g, at, t, data, names).0
    decreases |t|
  {
    if t != [] {
      EnsureOrdered(g, at, t[0]);
      EmptyNodeIsFree(Ensure(g, at, t[0]).0, |g|, t[1..], data, names);
    }
  }

  // ---- What a graph stands for --------------------------------------------

  function RexStrs(rexes: seq<RexEdge>): (r: seq<string>)
    ensures |r| == |rexes|
  {
    seq(|rexes|, i requires 0 <= i < |rexes| => rexes[i].regStr)
  }

  function EdgesOf<D>(n: Info<D>): Edges {
    Edges(n.lits.Keys, RexStrs(n.rexes))
  }

  lemma NextHas<D>(n: Info<D>, e: Edge)
    ensures Next(n, e).Some? <==> EdgesOf(n).Has(e)
  {
    if e.Rex? {
      var j := FindRex(n.rexes, e.pattern);
      assert j < |n.rexes| ==> RexStrs(n.rexes)[j] == e.pattern;
    }
  }

  lemma LinkEdges<D>(n: Info<D>, e: Edge, child: nat)
    requires Next(n, e).None?
    ensures EdgesOf(Link(n, e, child)) == EdgesOf(n).With(e)
  {
  }

  /** Root first, no two nodes for one path, and children lie one edge further than their parent. */
  ghost predicate Shaped<D>(g: Graph<D>) {
    && Ordered(g) && g != [] && g[0].key == []
    && (forall i, j :: 0 <= i < j < |g| ==> g[i].key != g[j].key)
    && (forall i, e :: 0 <= i < |g| && Next(g[i], e).Some? ==> g[Next(g[i], e).value].key == Child(g[i].key, e))
  }

  /** The graph holds exactly the registrations `regs`. */
  ghost predicate Represents<D>(g: Graph<D>, regs: seq<Reg<D>>) {
    && Shaped(g)
    && (forall i :: 0 <= i < |g| ==> Reached(regs, g[i].key) && Holds(g[i], regs))
  }

  ghost predicate Holds<D>(n: Info<D>, regs: seq<Reg<D>>) {
    (n.data, n.names) == Slot(regs, n.key) && EdgesOf(n) == EdgesAt(regs, n.key)
  }

  /** The state inside an Add for `leaf`, once its first n edges are there. */
  ghost predicate Partway<D>(g: Graph<D>, regs: seq<Reg<D>>, leaf: Key, n: nat) {
    && n <= |leaf| && Shaped(g)
    && (forall i :: 0 <= i < |g| ==> HoldsPartly(g[i], regs, leaf, n))
  }

  ghost predicate HoldsPartly<D>(x: Info<D>, regs: seq<Reg<D>>, leaf: Key, n: nat) {
    && (Reached(regs, x.key) || (x.key <= leaf && |x.key| <= n))
    && (x.data, x.names) == Slot(regs, x.key)
    && EdgesOf(x) == if x.key < leaf && |x.key| < n then EdgesAt(regs, x.key).With(leaf[|x.key|]) else EdgesAt(regs, x.key)
  }

  lemma PartwayStep<D>(g: Graph<D>, regs: seq<Reg<D>>, leaf: Key, n: nat, at: nat)
    requires Partway(g, regs, leaf, n) && n < |leaf| && at < |g| && g[at].key == leaf[..n]
    ensures var (g', c) := Ensure(g, at, leaf[n]);
      Partway(g', regs, leaf, n + 1) && at < c < |g'| && g'[c].key == leaf[..n + 1]
  {
    var e := leaf[n];
    assert leaf[..n + 1] == Child(leaf[..n], e);
    forall i | 0 <= i < |g| && i != at ensures HoldsPartly(g[i], regs, leaf, n + 1) {
      assert g[i].key != leaf[..n];
    }
    NextHas(g[at], e);
    assert HoldsPartly(g[at], regs, leaf, n);
    if Next(g[at], e).None? {
      PartwayNew(g, regs, leaf, n, at);
    }
  }

  lemma PartwayNew<D>(g: Graph<D>, regs: seq<Reg<D>>, leaf: Key, n: nat, at: nat)
    requires Partway(g, regs, leaf, n) && n < |leaf| && at < |g| && g[at].key == leaf[..n] && Next(g[at], leaf[n]).None?
    ensures var g' := Ensure(g, at, leaf[n]).0;
      Shaped(g') && HoldsPartly(g'[at], regs, leaf, n + 1) && HoldsPartly(g'[|g|], regs, leaf, n + 1)
  {
    var e := leaf[n];
    assert leaf[..n + 1] == Child(leaf[..n], e);
    assert HoldsPartly(g[at], regs, leaf, n);
    NextHas(g[at], e);
    LinkEdges(g[at], e, |g|);
    ReachedChild(regs, g[at].key, e);
    UnreachedSlot(regs, leaf[..n + 1]);
    assert EdgesOf(NewInfo<D>(leaf[..n + 1])) == Edges({}, []);
    forall i | 0 <= i < |g| ensures g[i].key != leaf[..n + 1] {
      assert HoldsPartly(g[i], regs, leaf, n);
    }
    StepShaped(g, at, e);
  }

  lemma StepShaped<D>(g: Graph<D>, at: nat, e: Edge)
    requires Shaped(g) && at < |g| && Next(g[at], e).None?
    requires forall i :: 0 <= i < |g| ==> g[i].key != Child(g[at].key, e)
    ensures Shaped(Ensure(g, at, e).0)
  {
    EnsureOrdered(g, at, e);
    var g' := Ensure(g, at, e).0;
    forall i, f | 0 <= i < |g'| && Next(g'[i], f).Some? ensures g'[Next(g'[i], f).value].key == Child(g'[i].key, f) {
      if i == at {
        NextLink(g[at], e, |g|, f);
      }
    }
  }

  /** Add on a graph is insertion into the registration list: refused exactly when the key has data. */
  lemma {:induction false} AddRepresents<D>(g: Graph<D>, regs: seq<Reg<D>>, r: Reg<D>, n: nat, at: nat)
    requires Partway(g, regs, r.key, n) && at < |g| && g[at].key == r.key[..n]
    ensures var (ok, g') := AddBelow(g, at, r.key[n..], r.data, r.names);
      && (ok <==> !HasData(regs, r.key))
      && (ok ==> Represents(g', regs + [r]))
    decreases |r.key| - n
  {
    if n == |r.key| {
      assert r.key[..n] == r.key && r.key[n..] == [];
      if g[at].data.None? {
        StoreRepresents(g, regs, r, at);
      }
    } else {
      PartwayStep(g, regs, r.key, n, at);
      var (g', c) := Ensure(g, at, r.key[n]);
      assert r.key[n..][1..] == r.key[n + 1..];
      AddRepresents(g', regs, r, n + 1, c);
    }
  }

  lemma StoreRepresents<D>(g: Graph<D>, regs: seq<Reg<D>>, r: Reg<D>, at: nat)
    requires Partway(g, regs, r.key, |r.key|) && at < |g| && g[at].key == r.key
    ensures Represents(g[at := g[at].(data := r.data, names := r.names)], regs + [r])
  {
    var g' := g[at := g[at].(data := r.data, names := r.names)];
    StoreShaped(g, at, r.data, r.names);
    forall i | 0 <= i < |g'| ensures Reached(regs + [r], g'[i].key) && Holds(g'[i], regs + [r]) {
      assert HoldsPartly(g[i], regs, r.key, |r.key|);
      HoldsAfter(g[i], g'[i], regs, r);
    }
  }

  lemma StoreShaped<D>(g: Graph<D>, at: nat, data: Option<D>, names: map<nat, string>)
    requires Shaped(g) && at < |g|
    ensures Shaped(g[at := g[at].(data := data, names := names)])
  {
  }

  lemma HoldsAfter<D>(x: Info<D>, x': Info<D>, regs: seq<Reg<D>>, r: Reg<D>)
    requires HoldsPartly(x, regs, r.key, |r.key|)
    requires x' == if x.key == r.key then x.(data := r.data, names := r.names) else x
    ensures Reached(regs + [r], x.key) && Holds(x', regs + [r])
  {
  }

  lemma RepresentsIsPartway<D>(g: Graph<D>, regs: seq<Reg<D>>, leaf: Key)
    requires Represents(g, regs)
    ensures Partway(g, regs, leaf, 0) && g[0].key == leaf[..0]
  {
  }

  lemma NewGraph<D>()
    ensures Represents<D>([NewInfo([])], [])
  {
  }

  // ---- Matching -----------------------------------------------------------

  /** The node a lookup below `at` ends in, and its flag. */
  ghost function MatchBelow<D>(g: Graph<D>, at: nat, rx: Matcher, segs: seq<string>): (r: (nat, bool))
    requires Ordered(g) && at < |g|
    ensures r.0 < |g|
    decreases |segs|, 1, 0
  {
    if segs == [] then (at, true)
    else
      var lit := MatchLit(g, at, rx, segs);
      if lit.Some? then (lit.value, true)
      else
        var (rex, flag) := MatchRex(g, at, rx, segs, 0);
        if rex.Some? then (rex.value, flag) else (at, false)
  }

  /** The data-bearing node behind the literal edge, if any. */
  ghost function MatchLit<D>(g: Graph<D>, at: nat, rx: Matcher, segs: seq<string>): (r: Option<nat>)
    requires Ordered(g) && at < |g| && segs != []
    ensures r.Some? ==> r.value < |g|
    decreases |segs|, 0, 0
  {
    match Next(g[at], Lit(segs[0]))
    case None => None
    case Some(c) =>
      var found := MatchBelow(g, c, rx, segs[1..]).0;
      if g[found].data.Some? then Some(found) else None
  }

  /** The data-bearing node behind regular expression j, if it matches. */
  ghost function MatchOneRex<D>(g: Graph<D>, at: nat, rx: Matcher, segs: seq<string>, j: nat): (r: (Option<nat>, bool))
    requires Ordered(g) && at < |g| && segs != [] && j < |g[at].rexes|
    ensures r.0.Some? ==> r.0.value < |g|
    decreases |segs|, 0, 0
  {
    if rx(g[at].rexes[j].regStr, segs[0]) then
      var (found, flag) := MatchBelow(g, g[at].rexes[j].child, rx, segs[1..]);
      if g[found].data.Some? then (Some(found), flag) else (None, false)
    else (None, false)
  }

  /** Scanning the regular expressions from position j: first flagged result, else first result. */
  ghost function MatchRex<D>(g: Graph<D>, at: nat, rx: Matcher, segs: seq<string>, j: nat): (r: (Option<nat>, bool))
    requires Ordered(g) && at < |g| && segs != [] && j <= |g[at].rexes|
    ensures r.0.Some? ==> r.0.value < |g|
    decreases |segs|, 0, |g[at].rexes| - j
  {
    if j == |g[at].rexes| then (None, false)
    else
      var one, rest := MatchOneRex(g, at, rx, segs, j), MatchRex(g, at, rx, segs, j + 1);
      if one.0.Some? && one.1 then one
      else if rest.0.Some? && rest.1 then rest
      else if one.0.Some? then one
      else rest
  }

  /** A node found below `at` is the one whose path a search of the list returns. */
  ghost predicate Agrees<D>(g: Graph<D>, at: nat, node: Option<nat>, flag: bool, f: Found)
    requires at < |g|
  {
    match node
    case None => f.key.None?
    case Some(id) =>
      id < |g| && g[id].data.Some? && f.key.Some? && g[id].key == g[at].key + f.key.value && flag == f.flag
  }

  /** A lookup in the graph ends where the search of the registration list does. */
  lemma {:induction false} MatchIsChoose<D>(g: Graph<D>, regs: seq<Reg<D>>, at: nat, rx: Matcher, segs: seq<string>)
    requires Represents(g, regs) && at < |g|
    ensures var (id, flag) := MatchBelow(g, at, rx, segs);
      var f := Choose(Below(regs, g[at].key), rx, segs);
      && flag == f.flag
      && (if f.key.None? then id == at && g[id].data.None?
          else g[id].data.Some? && g[id].key == g[at].key + f.key.value)
    decreases |segs|, 2, 0
  {
    BelowSlot(regs, g[at].key);
    assert g[at].key + [] == g[at].key;
    if segs != [] {
      MatchLitIsChoose(g, regs, at, rx, segs);
      if MatchLit(g, at, rx, segs).None? {
        assert RexHeads(Below(regs, g[at].key))[0..] == RexHeads(Below(regs, g[at].key));
        MatchRexIsChoose(g, regs, at, rx, segs, 0);
      }
    }
  }

  lemma MatchLitIsChoose<D>(g: Graph<D>, regs: seq<Reg<D>>, at: nat, rx: Matcher, segs: seq<string>)
    requires Represents(g, regs) && at < |g| && segs != []
    ensures var lit := Choose(Derive(Below(regs, g[at].key), Lit(segs[0])), rx, segs[1..]);
      Agrees(g, at, MatchLit(g, at, rx, segs), true, if lit.key.Some? then Through(Lit(segs[0]), lit, true) else lit)
    decreases |segs|, 0, 0
  {
    var e := Lit(segs[0]);
    BelowChild(regs, g[at].key, e);
    match Next(g[at], e)
    case Some(c) =>
      MatchIsChoose(g, regs, c, rx, segs[1..]);
      StepKey(g[at].key, e);
    case None =>
      NextHas(g[at], e);
      DeriveEmpty(Below(regs, g[at].key), e);
      NothingRegistered<D>(rx, segs[1..]);
  }

  lemma StepKey(k: Key, e: Edge)
    ensures forall t: Key :: Child(k, e) + t == k + ([e] + t)
  {
  }

  lemma {:induction false} NothingRegistered<D>(rx: Matcher, segs: seq<string>)
    ensures Choose<D>([], rx, segs).key.None?
  {
    ChooseFindsBest<D>([], rx, segs);
    forall c ensures !Candidate<D>([], rx, segs, c) {}
  }

  lemma MatchOneRexIsBehind<D>(g: Graph<D>, regs: seq<Reg<D>>, at: nat, rx: Matcher, segs: seq<string>, j: nat)
    requires Represents(g, regs) && at < |g| && segs != [] && j < |g[at].rexes|
    ensures var (one, flag) := MatchOneRex(g, at, rx, segs, j);
      Agrees(g, at, one, flag, Behind(Below(regs, g[at].key), rx, segs, g[at].rexes[j].regStr))
    decreases |segs|, 0, 0
  {
    var p, c := g[at].rexes[j].regStr, g[at].rexes[j].child;
    if rx(p, segs[0]) {
      RexChildKey(g, regs, at, j);
      BelowChild(regs, g[at].key, Rex(p));
      MatchIsChoose(g, regs, c, rx, segs[1..]);
      StepKey(g[at].key, Rex(p));
    }
  }

  lemma RexChildKey<D>(g: Graph<D>, regs: seq<Reg<D>>, at: nat, j: nat)
    requires Represents(g, regs) && at < |g| && j < |g[at].rexes|
    ensures g[g[at].rexes[j].child].key == Child(g[at].key, Rex(g[at].rexes[j].regStr))
  {
    var p := g[at].rexes[j].regStr;
    var i := FindRex(g[at].rexes, p);
    assert RexStrs(g[at].rexes)[j] == p && RexStrs(g[at].rexes)[i] == p;
    if i < j {
      RexHeadsOrder(Below(regs, g[at].key), i, j);
    }
    assert Next(g[at], Rex(p)) == Some(g[at].rexes[j].child);
  }

  lemma {:induction false} MatchRexIsChoose<D>(g: Graph<D>, regs: seq<Reg<D>>, at: nat, rx: Matcher, segs: seq<string>, j: nat)
    requires Represents(g, regs) && at < |g| && segs != [] && j <= |g[at].rexes|
    ensures var (rex, flag) := MatchRex(g, at, rx, segs, j);
      Agrees(g, at, rex, flag, ChooseRex(Below(regs, g[at].key), rx, segs, RexHeads(Below(regs, g[at].key))[j..]))
    decreases |segs|, 1, |g[at].rexes| - j
  {
    var heads := RexHeads(Below(regs, g[at].key));
    assert heads == RexStrs(g[at].rexes);
    if j < |g[at].rexes| {
      MatchOneRexIsBehind(g, regs, at, rx, segs, j);
      MatchRexIsChoose(g, regs, at, rx, segs, j + 1);
      assert heads[j..][1..] == heads[j + 1..] && heads[j..][0] == g[at].rexes[j].regStr;
    }
  }
}

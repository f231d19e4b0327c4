/**
 The route tree of pkg/appsrv/radix.go: nodes updated in place, literal
 children in a map, regular-expression children in a list.  The recursive
 methods carry, for the proof only, the list of all nodes and their contents.
 */
module RouteTree {
  import opened Basics
  import opened RoutePatterns
  import opened RouteGraph

  datatype RegexpNode<D(!new)> = RegexpNode(node: RadixNode<D>, regStr: string)

  class RadixNode<D(!new)> {
    var data: Option<D>
    var segNames: map<nat, string>
    var stringNodes: map<string, RadixNode<D>>
    var regexpNodes: seq<RegexpNode<D>>

    ghost predicate Shows(info: Info<D>)
      reads this`data, this`segNames
    {
      data == info.data && segNames == info.names
    }

    ghost predicate Links(nodes: seq<RadixNode<D>>, lits: map<string, nat>, rexes: seq<RexEdge>)
      reads this`stringNodes, this`regexpNodes
    {
      && stringNodes.Keys == lits.Keys
      && (forall s {:trigger lits[s]} | s in lits :: lits[s] < |nodes| && stringNodes[s] == nodes[lits[s]])
      && |regexpNodes| == |rexes|
      && (forall i {:trigger rexes[i]} | 0 <= i < |rexes| ::
            rexes[i].child < |nodes| && regexpNodes[i] == RegexpNode(nodes[rexes[i].child], rexes[i].regStr))
    }

    constructor ()
      ensures data == None && segNames == map[] && stringNodes == map[] && regexpNodes == []
    {
      data, segNames := None, map[];
      stringNodes, regexpNodes := map[], [];
    }

    // ---- Add --------------------------------------------------------------

    /** isRegstrInRegexpNodes */
    method FindRegexp(ghost nodes: seq<RadixNode<D>>, ghost info: Info<D>, regStr: string) returns (node: Option<RadixNode<D>>)
      requires Links(nodes, info.lits, info.rexes)
      ensures node.Some? <==> Next(info, Rex(regStr)).Some?
      ensures node.Some? ==> Next(info, Rex(regStr)).value < |nodes| && node.value == nodes[Next(info, Rex(regStr)).value]
    {
      for i := 0 to |regexpNodes|
        invariant i <= FindRex(info.rexes, regStr)
      {
        assert info.rexes[i].regStr == regexpNodes[i].regStr;
        if regexpNodes[i].regStr == regStr {
          return Some(regexpNodes[i].node);
        }
      }
      return None;
    }

    /** The recursion of add; `more` are the nodes it made. */
    method AddAt(ghost nodes: seq<RadixNode<D>>, ghost g: Graph<D>, ghost at: nat,
                 segments: seq<string>, data: Option<D>, depth: nat, segNames: map<nat, string>)
      returns (ok: bool, ghost more: seq<RadixNode<D>>, ghost g': Graph<D>)
      requires Wired(nodes, g) && at < |nodes| && nodes[at] == this && depth > 0
      modifies nodes
      ensures Wired(nodes + more, g') && fresh(more)
      ensures (ok, g') == AddBelow(g, at, KeyOf(segments), data, segNames + NamesFrom(segments, depth - 1))
      ensures !ok ==> more == [] && g' == g && unchanged(nodes)
      decreases |segments|
    {
      if segments == [] {
        assert segNames + NamesFrom(segments, depth - 1) == segNames && nodes + [] == nodes;
        ok, g' := StoreHere(nodes, g, at, data, segNames);
        more := [];
      } else {
        var names := segNames;
        if IsRegexSegment(segments[0]) {
          names := segNames[depth - 1 := NameOf(segments[0])];
        }
        AddStep(g, at, segments, data, depth, segNames);
        EnsureOrdered(g, at, EdgeOf(segments[0]));
        NewPathIsFree(g, at, KeyOf(segments), data, segNames + NamesFrom(segments, depth - 1));
        var next;
        ghost var made, deeper, g1;
        next, made, g1 := NextNode(nodes, g, at, segments[0]);
        ok, deeper, g' := next.AddAt(nodes + made, g1, Ensure(g, at, EdgeOf(segments[0])).1, segments[1..], data, depth + 1, names);
        more := made + deeper;
        Assoc(nodes, made, deeper);
      }
    }

    method StoreHere(ghost nodes: seq<RadixNode<D>>, ghost g: Graph<D>, ghost at: nat, data: Option<D>, segNames: map<nat, string>)
      returns (ok: bool, ghost g': Graph<D>)
      requires Wired(nodes, g) && at < |nodes| && nodes[at] == this
      modifies this`data, this`segNames
      ensures Wired(nodes, g')
      ensures (ok, g') == AddBelow(g, at, [], data, segNames)
      ensures !ok ==> unchanged(this)
    {
      ok, g' := this.data.None?, g;
      if ok {
        this.data, this.segNames := data, segNames;
        StoreOrdered(g, at, data, segNames);
        g' := g[at := g[at].(data := data, names := segNames)];
      }
    }

    /** The child for this segment, made when missing. */
    method NextNode(ghost nodes: seq<RadixNode<D>>, ghost g: Graph<D>, ghost at: nat, seg: string)
      returns (next: RadixNode<D>, ghost made: seq<RadixNode<D>>, ghost g': Graph<D>)
      requires Wired(nodes, g) && at < |nodes| && nodes[at] == this
      modifies this`stringNodes, this`regexpNodes
      ensures Wired(nodes + made, g') && fresh(made) && g' == Ensure(g, at, EdgeOf(seg)).0
      ensures Ensure(g, at, EdgeOf(seg)).1 < |nodes + made| && next == (nodes + made)[Ensure(g, at, EdgeOf(seg)).1]
      ensures Next(g[at], EdgeOf(seg)).Some? ==> unchanged(this) && made == []
    {
      var e := EdgeOf(seg);
      if IsRegexSegment(seg) {
        next, made, g' := NextRegexp(nodes, g, at, e.pattern);
      } else {
        next, made, g' := NextLiteral(nodes, g, at, seg);
      }
    }

    method NextRegexp(ghost nodes: seq<RadixNode<D>>, ghost g: Graph<D>, ghost at: nat, regStr: string)
      returns (next: RadixNode<D>, ghost made: seq<RadixNode<D>>, ghost g': Graph<D>)
      requires Wired(nodes, g) && at < |nodes| && nodes[at] == this
      modifies this`regexpNodes
      ensures Wired(nodes + made, g') && fresh(made) && g' == Ensure(g, at, Rex(regStr)).0
      ensures Ensure(g, at, Rex(regStr)).1 < |nodes + made| && next == (nodes + made)[Ensure(g, at, Rex(regStr)).1]
      ensures Next(g[at], Rex(regStr)).Some? ==> unchanged(this) && made == []
    {
      var found := FindRegexp(nodes, g[at], regStr);
      made, g' := [], g;
      assert nodes + [] == nodes;
      if found.Some? {
        return found.value, made, g';
      }
      next := new RadixNode();
      WiredGrow(nodes, g, [next]);
      AppendRegexp(nodes + [next], g[at], regStr, next, |g|);
      made, g' := [next], Ensure(g, at, Rex(regStr)).0;
      WireNew(nodes, g, at, Rex(regStr), next);
    }

    method AppendRegexp(ghost nodes: seq<RadixNode<D>>, ghost info: Info<D>, regStr: string, next: RadixNode<D>, ghost id: nat)
      requires Links(nodes, info.lits, info.rexes) && id < |nodes| && nodes[id] == next
      modifies this`regexpNodes
      ensures Links(nodes, info.lits, info.rexes + [RexEdge(id, regStr)])
    {
      regexpNodes := regexpNodes + [RegexpNode(next, regStr)];
    }

    method NextLiteral(ghost nodes: seq<RadixNode<D>>, ghost g: Graph<D>, ghost at: nat, text: string)
      returns (next: RadixNode<D>, ghost made: seq<RadixNode<D>>, ghost g': Graph<D>)
      requires Wired(nodes, g) && at < |nodes| && nodes[at] == this
      modifies this`stringNodes
      ensures Wired(nodes + made, g') && fresh(made) && g' == Ensure(g, at, Lit(text)).0
      ensures Ensure(g, at, Lit(text)).1 < |nodes + made| && next == (nodes + made)[Ensure(g, at, Lit(text)).1]
      ensures Next(g[at], Lit(text)).Some? ==> unchanged(this) && made == []
    {
      made, g' := [], g;
      assert nodes + [] == nodes;
      if text in stringNodes {
        assert g[at].lits[text] < |nodes|;
        return stringNodes[text], made, g';
      }
      next := new RadixNode();
      WiredGrow(nodes, g, [next]);
      stringNodes := stringNodes[text := next];
      made, g' := [next], Ensure(g, at, Lit(text)).0;
      WireNew(nodes, g, at, Lit(text), next);
    }

    // ---- Match ------------------------------------------------------------

    /** The recursion of match: literal child first, then the regular expressions in order, then this node. */
    method MatchAt(ghost nodes: seq<RadixNode<D>>, ghost g: Graph<D>, ghost at: nat, rx: Matcher, segments: seq<string>)
      returns (node: RadixNode<D>, full: bool, ghost id: nat)
      requires Wired(nodes, g) && at < |nodes| && nodes[at] == this
      ensures id < |nodes| && node == nodes[id] && (id, full) == MatchBelow(g, at, rx, segments)
      decreases |segments|, 1
    {
      if segments == [] {
        return this, true, at;
      }
      if stringNodes == map[] && regexpNodes == [] {
        return this, false, at;
      }
      if segments[0] in stringNodes {
        assert stringNodes[segments[0]] == nodes[g[at].lits[segments[0]]];
        var rnode, _, i := stringNodes[segments[0]].MatchAt(nodes, g, g[at].lits[segments[0]], rx, segments[1..]);
        if rnode.data.Some? {
          return rnode, true, i;
        }
      }
      var found, flag, i := MatchRegexps(nodes, g, at, rx, segments);
      if found.Some? {
        return found.value, flag, i;
      }
      return this, false, at;
    }

    /** The loop over the regular expressions, keeping the first result that was not flagged. */
    method MatchRegexps(ghost nodes: seq<RadixNode<D>>, ghost g: Graph<D>, ghost at: nat, rx: Matcher, segments: seq<string>)
      returns (node: Option<RadixNode<D>>, full: bool, ghost id: nat)
      requires Wired(nodes, g) && at < |nodes| && nodes[at] == this && segments != []
      ensures id < |nodes|
      ensures node.Some? ==> node.value == nodes[id] && (Some(id), full) == MatchRex(g, at, rx, segments, 0)
      ensures node.None? ==> MatchRex(g, at, rx, segments, 0).0.None?
      decreases |segments|, 0
    {
      node, full, id := None, false, at;
      assert |regexpNodes| == |g[at].rexes|;
      for i := 0 to |regexpNodes|
        invariant id < |nodes| && !full
        invariant node.Some? ==> node.value == nodes[id]
        invariant MatchRex(g, at, rx, segments, 0)
          == var rest := MatchRex(g, at, rx, segments, i);
             if rest.0.Some? && rest.1 then rest else if node.Some? then (Some(id), false) else rest
      {
        ghost var edge := g[at].rexes[i];
        assert regexpNodes[i] == RegexpNode(nodes[edge.child], edge.regStr);
        if rx(regexpNodes[i].regStr, segments[0]) {
          var rnode, fullMatch, j := regexpNodes[i].node.MatchAt(nodes, g, edge.child, rx, segments[1..]);
          if rnode.data.Some? {
            if fullMatch {
              return Some(rnode), true, j;
            }
            if node.None? {
              node, id := Some(rnode), j;
            }
          }
        }
      }
    }

    // ---- Walk -------------------------------------------------------------

    /** The recursion of walk: every entry below `path`, each once; literal children in any order. */
    method WalkAt(ghost nodes: seq<RadixNode<D>>, ghost g: Graph<D>, ghost regs: seq<Reg<D>>, ghost at: nat, path: Key)
      returns (out: seq<(Key, D)>)
      requires Wired(nodes, g) && Represents(g, regs) && at < |nodes| && nodes[at] == this && g[at].key == path
      ensures Lists(out, regs, path)
      decreases |nodes| - at, 1
    {
      out := [];
      if data.Some? {
        out := [(path, data.value)];
      }
      ListsHere(out, regs, path);
      var todo := stringNodes.Keys;
      while todo != {}
        invariant todo <= stringNodes.Keys
        invariant ListsVia(out, regs, path, LitEdges(stringNodes.Keys - todo))
      {
        var s :| s in todo;
        LitEdgesStep(stringNodes.Keys, todo, s);
        assert stringNodes[s] == nodes[g[at].lits[s]];
        assert Next(g[at], Lit(s)) == Some(g[at].lits[s]);
        var sub := stringNodes[s].WalkAt(nodes, g, regs, g[at].lits[s], Child(path, Lit(s)));
        ListsJoin(out, sub, regs, path, LitEdges(stringNodes.Keys - todo), Lit(s));
        out, todo := out + sub, todo - {s};
      }
      out := WalkRegexps(nodes, g, regs, at, path, out);
      AllEdgesDone(g, regs, at, out);
    }

    method WalkRegexps(ghost nodes: seq<RadixNode<D>>, ghost g: Graph<D>, ghost regs: seq<Reg<D>>, ghost at: nat, path: Key,
                       before: seq<(Key, D)>) returns (out: seq<(Key, D)>)
      requires Wired(nodes, g) && Represents(g, regs) && at < |nodes| && nodes[at] == this && g[at].key == path
      requires ListsVia(before, regs, path, LitEdges(g[at].lits.Keys))
      ensures ListsVia(out, regs, path, LitEdges(g[at].lits.Keys) + RexEdges(g[at].rexes))
      decreases |nodes| - at, 0
    {
      out := before;
      assert |regexpNodes| == |g[at].rexes|;
      for i := 0 to |regexpNodes|
        invariant ListsVia(out, regs, path, LitEdges(g[at].lits.Keys) + RexEdges(g[at].rexes[..i]))
      {
        ghost var edge := g[at].rexes[i];
        assert regexpNodes[i] == RegexpNode(nodes[edge.child], edge.regStr);
        RexChildKey(g, regs, at, i);
        var sub := regexpNodes[i].node.WalkAt(nodes, g, regs, edge.child, Child(path, Rex(regexpNodes[i].regStr)));
        NewRexEdge(g, regs, at, i);
        ListsJoin(out, sub, regs, path, LitEdges(g[at].lits.Keys) + RexEdges(g[at].rexes[..i]), Rex(edge.regStr));
        out := out + sub;
      }
      assert g[at].rexes[..|g[at].rexes|] == g[at].rexes;
    }
  }

  /** The objects `nodes`, all different, have the contents listed in `g`. */
  ghost predicate Wired<D(!new)>(nodes: seq<RadixNode<D>>, g: Graph<D>)
    reads nodes
  {
    && |nodes| == |g| && Ordered(g)
    && (forall j, k {:trigger nodes[j], nodes[k]} | 0 <= j < k < |nodes| :: nodes[j] != nodes[k])
    && (forall k {:trigger g[k]} | 0 <= k < |nodes| :: nodes[k].Shows(g[k]))
    && (forall k {:trigger g[k]} | 0 <= k < |nodes| :: nodes[k].Links(nodes, g[k].lits, g[k].rexes))
  }

  /** A new empty node that the tables of node `at` already mention. */
  lemma WireNew<D(!new)>(nodes: seq<RadixNode<D>>, g: Graph<D>, at: nat, e: Edge, next: RadixNode<D>)
    requires |nodes| == |g| && Ordered(g) && at < |g| && Next(g[at], e).None? && next !in nodes
    requires forall j, k {:trigger nodes[j], nodes[k]} | 0 <= j < k < |nodes| :: nodes[j] != nodes[k]
    requires forall k {:trigger g[k]} | 0 <= k < |nodes| :: nodes[k].Shows(g[k])
    requires forall k {:trigger g[k]} | 0 <= k < |nodes| && k != at :: nodes[k].Links(nodes + [next], g[k].lits, g[k].rexes)
    requires nodes[at].Links(nodes + [next], Link(g[at], e, |g|).lits, Link(g[at], e, |g|).rexes)
    requires next.Shows(NewInfo([])) && next.Links(nodes + [next], map[], [])
    ensures Wired(nodes + [next], Ensure(g, at, e).0)
  {
    EnsureOrdered(g, at, e);
  }

  lemma WiredGrow<D(!new)>(nodes: seq<RadixNode<D>>, g: Graph<D>, more: seq<RadixNode<D>>)
    requires Wired(nodes, g)
    ensures forall k {:trigger g[k]} | 0 <= k < |nodes| :: nodes[k].Links(nodes + more, g[k].lits, g[k].rexes)
  {
  }

  lemma AddStep<D>(g: Graph<D>, at: nat, path: seq<string>, data: Option<D>, depth: nat, names: map<nat, string>)
    requires at < |g| && Ordered(g) && path != [] && depth > 0
    ensures var (g', c) := Ensure(g, at, EdgeOf(path[0]));
      && at < c < |g'| && Ordered(g')
      && AddBelow(g, at, KeyOf(path), data, names + NamesFrom(path, depth - 1))
         == AddBelow(g', c, KeyOf(path[1..]), data,
                     (if IsRegexSegment(path[0]) then names[depth - 1 := NameOf(path[0])] else names) + NamesFrom(path[1..], depth))
  {
    EnsureOrdered(g, at, EdgeOf(path[0]));
    assert KeyOf(path)[0] == EdgeOf(path[0]) && KeyOf(path)[1..] == KeyOf(path[1..]);
    assert names + NamesFrom(path, depth - 1)
      == (if IsRegexSegment(path[0]) then names[depth - 1 := NameOf(path[0])] else names) + NamesFrom(path[1..], depth);
  }

  // ---- Entries visited by walk --------------------------------------------

  /** Exactly the entries of `regs` at or below `path`, each once. */
  ghost predicate Lists<D(!new)>(out: seq<(Key, D)>, regs: seq<Reg<D>>, path: Key) {
    && (forall i, j :: 0 <= i < j < |out| ==> out[i].0 != out[j].0)
    && (forall k, d :: (k, d) in out <==> path <= k && Slot(regs, k).0 == Some(d))
  }

  /** The same for the entry at `path` and those that go on along an edge in `done`. */
  ghost predicate ListsVia<D(!new)>(out: seq<(Key, D)>, regs: seq<Reg<D>>, path: Key, done: set<Edge>) {
    && (forall i, j :: 0 <= i < j < |out| ==> out[i].0 != out[j].0)
    && (forall k, d :: (k, d) in out <==> Via(k, path, done) && Slot(regs, k).0 == Some(d))
  }

  predicate Via(k: Key, path: Key, done: set<Edge>) {
    path <= k && (|k| == |path| || k[|path|] in done)
  }

  function LitEdges(texts: set<string>): set<Edge> {
    set s | s in texts :: Lit(s)
  }

  lemma LitEdgesStep(all: set<string>, todo: set<string>, s: string)
    requires s in todo && todo <= all
    ensures Lit(s) !in LitEdges(all - todo)
    ensures LitEdges(all - (todo - {s})) == LitEdges(all - todo) + {Lit(s)}
  {
  }

  function RexEdges(rexes: seq<RexEdge>): set<Edge> {
    set i | 0 <= i < |rexes| :: Rex(rexes[i].regStr)
  }

  lemma ListsHere<D(!new)>(out: seq<(Key, D)>, regs: seq<Reg<D>>, path: Key)
    requires out == if HasData(regs, path) then [(path, Slot(regs, path).0.value)] else []
    ensures ListsVia(out, regs, path, {})
  {
    forall k ensures Via(k, path, {}) <==> k == path {
      assert path <= k && |k| == |path| ==> k == path;
    }
  }

  lemma ListsJoin<D(!new)>(out: seq<(Key, D)>, sub: seq<(Key, D)>, regs: seq<Reg<D>>, path: Key, done: set<Edge>, e: Edge)
    requires ListsVia(out, regs, path, done) && Lists(sub, regs, Child(path, e)) && e !in done
    ensures ListsVia(out + sub, regs, path, done + {e})
  {
  }

  lemma AllEdgesDone<D(!new)>(g: Graph<D>, regs: seq<Reg<D>>, at: nat, out: seq<(Key, D)>)
    requires Represents(g, regs) && at < |g|
    requires ListsVia(out, regs, g[at].key, LitEdges(g[at].lits.Keys) + RexEdges(g[at].rexes))
    ensures Lists(out, regs, g[at].key)
  {
    var path, done := g[at].key, LitEdges(g[at].lits.Keys) + RexEdges(g[at].rexes);
    forall k | path <= k && Slot(regs, k).0.Some? ensures Via(k, path, done) {
      if |k| > |path| {
        assert Child(path, k[|path|]) <= k by { assert k[..|path| + 1] == Child(path, k[|path|]); }
        DataIsReached(regs, Child(path, k[|path|]), k);
        ReachedChild(regs, path, k[|path|]);
        assert EdgesOf(g[at]).Has(k[|path|]);
      }
    }
  }

  lemma {:induction false} DataIsReached<D>(regs: seq<Reg<D>>, at: Key, k: Key)
    requires at <= k && HasData(regs, k)
    ensures Reached(regs, at)
  {
    if regs[|regs| - 1].key != k {
      DataIsReached(regs[..|regs| - 1], at, k);
    }
  }

  lemma NewRexEdge<D>(g: Graph<D>, regs: seq<Reg<D>>, at: nat, i: nat)
    requires Represents(g, regs) && at < |g| && i < |g[at].rexes|
    ensures Rex(g[at].rexes[i].regStr) !in LitEdges(g[at].lits.Keys) + RexEdges(g[at].rexes[..i])
    ensures RexEdges(g[at].rexes[..i + 1]) == RexEdges(g[at].rexes[..i]) + {Rex(g[at].rexes[i].regStr)}
  {
    var rexes := g[at].rexes;
    assert RexStrs(rexes) == RexHeads(Below(regs, g[at].key));
    forall j | 0 <= j < i ensures rexes[j].regStr != rexes[i].regStr {
      RexHeadsOrder(Below(regs, g[at].key), j, i);
    }
    assert rexes[..i + 1] == rexes[..i] + [rexes[i]];
  }
}

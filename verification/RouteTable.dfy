/**
 A route table: the root of a route tree together with the registration list it
 stands for.  Its three operations are those a caller of pkg/appsrv/radix.go sees.
 */
module RouteTable {
  import opened Basics
  import opened RoutePatterns
  import opened RouteChoice
  import opened RouteGraph
  import opened RouteTree

  /** Key and parameter names of the registration come from one path. */
  ghost predicate FromPath<D>(r: Reg<D>) {
    exists path :: r.key == KeyOf(path) && r.names == NamesFrom(path, 0)
  }

  ghost predicate FromPaths<D>(regs: seq<Reg<D>>) {
    forall i :: 0 <= i < |regs| ==> FromPath(regs[i])
  }

  /** The graph of an accepted registration list. */
  ghost predicate Table<D>(g: Graph<D>, regs: seq<Reg<D>>) {
    Represents(g, regs) && Accepted(regs) && FromPaths(regs)
  }

  /** What a tree is, for the proof: its nodes, their contents, and the accepted registrations in order. */
  datatype Meaning<D(!new)> = Meaning(nodes: seq<RadixNode<D>>, graph: Graph<D>, regs: seq<Reg<D>>)

  class Radix<D(!new)> {
    var root: RadixNode<D>
    ghost var meaning: Meaning<D>

    ghost predicate Valid()
      reads this, meaning.nodes
    {
      meaning.nodes != [] && meaning.nodes[0] == root && Wired(meaning.nodes, meaning.graph) && Table(meaning.graph, meaning.regs)
    }

    constructor ()
      ensures Valid() && meaning.regs == [] && fresh(meaning.nodes)
    {
      root := new RadixNode();
      new;
      meaning := Meaning([root], [NewInfo([])], []);
      NewGraph<D>();
    }

    /** Add: refused exactly when the key has a handler already, and then nothing changes; else one entry is added. */
    method Add(segments: seq<string>, data: Option<D>) returns (ok: bool)
      requires Valid()
      modifies this`meaning, meaning.nodes
      ensures Valid()
      ensures fresh(set n | n in meaning.nodes && n !in old(meaning.nodes))
      ensures ok <==> !HasData(old(meaning.regs), KeyOf(segments))
      ensures ok ==> meaning.regs == old(meaning.regs) + [Reg(KeyOf(segments), NamesFrom(segments, 0), data)]
      ensures !ok ==> unchanged(this) && unchanged(old(meaning.nodes))
    {
      ghost var nodes', g', regs';
      ok, nodes', g', regs' := AddFromRoot(root, meaning.nodes, meaning.graph, meaning.regs, segments, data);
      meaning := Meaning(nodes', g', regs');
    }

    /**
     Match: the handler of the best candidate, with each of its parameter names
     bound to the segment at that name's position; no handler and no binding
     exactly when no registration matches a prefix of the request.
     */
    method Match(rx: Matcher, segments: seq<string>, params: map<string, string>)
      returns (data: Option<D>, params': map<string, string>, ghost key: Option<Key>)
      requires Valid()
      ensures key.None? ==> data.None? && params' == params && forall k :: !Candidate(meaning.regs, rx, segments, k)
      ensures key.Some? ==>
        && IsBest(meaning.regs, rx, segments, key.value)
        && data == Slot(meaning.regs, key.value).0 && data.Some?
        && (forall i | i in Slot(meaning.regs, key.value).1 :: i < |segments|)
        && Binds(Slot(meaning.regs, key.value).1, segments, params, params')
    {
      var node, _, id := root.MatchAt(meaning.nodes, meaning.graph, 0, rx, segments);
      MatchInList(meaning.graph, meaning.regs, rx, segments);
      key := Choose(meaning.regs, rx, segments).key;
      assert Holds(meaning.graph[id], meaning.regs);
      params' := BindParams(node.segNames, segments, params);
      data := node.data;
    }

    /** Walk: every entry with a handler, exactly once. */
    method Walk() returns (out: seq<(Key, D)>)
      requires Valid()
      ensures Lists(out, meaning.regs, [])
    {
      out := root.WalkAt(meaning.nodes, meaning.graph, meaning.regs, 0, []);
    }
  }

  method AddFromRoot<D(!new)>(root: RadixNode<D>, ghost nodes: seq<RadixNode<D>>, ghost g: Graph<D>, ghost regs: seq<Reg<D>>,
                              segments: seq<string>, data: Option<D>)
    returns (ok: bool, ghost nodes': seq<RadixNode<D>>, ghost g': Graph<D>, ghost regs': seq<Reg<D>>)
    requires nodes != [] && nodes[0] == root && Wired(nodes, g) && Table(g, regs)
    modifies nodes
    ensures nodes' != [] && nodes'[0] == root && Wired(nodes', g') && Table(g', regs')
    ensures fresh(set n | n in nodes' && n !in nodes)
    ensures ok <==> !HasData(regs, KeyOf(segments))
    ensures ok ==> regs' == regs + [Reg(KeyOf(segments), NamesFrom(segments, 0), data)]
    ensures !ok ==> nodes' == nodes && g' == g && regs' == regs && unchanged(nodes)
  {
    ghost var more;
    ok, more, g' := root.AddAt(nodes, g, 0, segments, data, 1, map[]);
    AddToList(g, regs, segments, data, ok, g');
    nodes' := nodes + more;
    regs' := if ok then regs + [Reg(KeyOf(segments), NamesFrom(segments, 0), data)] else regs;
  }

  ghost predicate Named(names: map<nat, string>, n: string) {
    exists i :: i in names && names[i] == n
  }

  /** The bindings after a match: each name gets the segment at one of its positions, other keys keep their value. */
  ghost predicate Binds(names: map<nat, string>, segments: seq<string>, params: map<string, string>, params': map<string, string>)
    requires forall i | i in names :: i < |segments|
  {
    && (forall n :: n in params' <==> n in params || Named(names, n))
    && (forall n | n in params' && Named(names, n) :: exists i :: i in names && names[i] == n && params'[n] == segments[i])
    && (forall n | n in params && !Named(names, n) :: params'[n] == params[n])
  }

  /** The loop over segNames, in any order. */
  method BindParams(names: map<nat, string>, segments: seq<string>, params: map<string, string>) returns (params': map<string, string>)
    requires forall i | i in names :: i < |segments|
    ensures Binds(names, segments, params, params')
  {
    params' := params;
    var todo := names.Keys;
    while todo != {}
      invariant todo <= names.Keys
      invariant Binds(names - todo, segments, params, params')
    {
      var i :| i in todo;
      BindOne(names - todo, segments, params, params', i, names[i]);
      assert names - (todo - {i}) == (names - todo)[i := names[i]];
      params' := params'[names[i] := segments[i]];
      todo := todo - {i};
    }
    assert names - {} == names;
  }

  lemma BindOne(names: map<nat, string>, segments: seq<string>, params: map<string, string>, params': map<string, string>,
                i: nat, n: string)
    requires forall j | j in names :: j < |segments|
    requires Binds(names, segments, params, params') && i < |segments| && i !in names
    ensures Binds(names[i := n], segments, params, params'[n := segments[i]])
  {
    var names', after := names[i := n], params'[n := segments[i]];
    forall m ensures Named(names', m) <==> m == n || Named(names, m) {
      if Named(names, m) {
        var j :| j in names && names[j] == m;
        assert j in names' && names'[j] == m;
      }
      assert i in names' && names'[i] == n;
    }
    forall m | m in after && Named(names', m) ensures exists j :: j in names' && names'[j] == m && after[m] == segments[j] {
      if m == n {
        assert i in names' && names'[i] == n && after[n] == segments[i];
      } else {
        var j :| j in names && names[j] == m && params'[m] == segments[j];
        assert j in names' && names'[j] == m && after[m] == segments[j];
      }
    }
  }

  /** A name used at one position only is bound to the segment there. */
  lemma UniqueNameBound(names: map<nat, string>, segments: seq<string>, params: map<string, string>,
                        params': map<string, string>, i: nat)
    requires forall j | j in names :: j < |segments|
    requires Binds(names, segments, params, params') && i in names
    requires forall j | j in names && names[j] == names[i] :: j == i
    ensures names[i] in params' && params'[names[i]] == segments[i]
  {
  }

  lemma AddToList<D>(g: Graph<D>, regs: seq<Reg<D>>, path: seq<string>, data: Option<D>, ok: bool, g': Graph<D>)
    requires Table(g, regs) && (ok, g') == AddBelow(g, 0, KeyOf(path), data, map[] + NamesFrom(path, 0))
    ensures ok <==> !HasData(regs, KeyOf(path))
    ensures ok ==> Table(g', regs + [Reg(KeyOf(path), NamesFrom(path, 0), data)])
  {
    var r := Reg(KeyOf(path), NamesFrom(path, 0), data);
    RepresentsIsPartway(g, regs, r.key);
    AddRepresents(g, regs, r, 0, 0);
    assert r.key[0..] == r.key && map[] + r.names == r.names;
    assert (regs + [r])[..|regs|] == regs;
    assert FromPath(r);
  }

  lemma MatchInList<D>(g: Graph<D>, regs: seq<Reg<D>>, rx: Matcher, segs: seq<string>)
    requires Represents(g, regs) && FromPaths(regs)
    ensures var id := MatchBelow(g, 0, rx, segs).0;
      && Sound(regs, rx, segs, Choose(regs, rx, segs))
      && (forall i | i in Slot(regs, g[id].key).1 :: i < |segs|)
      && (match Choose(regs, rx, segs).key
          case None => g[id].data.None? && Slot(regs, g[id].key).1 == map[]
          case Some(k) => g[id].key == k && g[id].data.Some?)
  {
    MatchIsChoose(g, regs, 0, rx, segs);
    BelowRoot(regs);
    ChooseFindsBest(regs, rx, segs);
    var id, key := MatchBelow(g, 0, rx, segs).0, Choose(regs, rx, segs).key;
    assert key.Some? ==> [] + key.value == key.value;
    NamesInKey(regs, g[id].key);
  }

  lemma {:induction false} NamesInKey<D>(regs: seq<Reg<D>>, k: Key)
    requires FromPaths(regs)
    ensures forall i | i in Slot(regs, k).1 :: i < |k|
  {
    if regs != [] && regs[|regs| - 1].key != k {
      NamesInKey(regs[..|regs| - 1], k);
    } else if regs != [] {
      var path :| regs[|regs| - 1].key == KeyOf(path) && regs[|regs| - 1].names == NamesFrom(path, 0);
    }
  }
}

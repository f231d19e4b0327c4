/**
 The flat meaning of the HTTP route table (pkg/appsrv/radix.go): a list of
 registrations in the order they were accepted, and a declarative rule that
 says which of them a request selects.  Nothing here mentions the tree.
 */
module RoutePatterns {
  import opened Basics

  /** One normalised segment: literal text, or a regular expression (parameter name dropped). */
  datatype Edge = Lit(text: string) | Rex(pattern: string)

  type Key = seq<Edge>

  /** An accepted registration: normalised path, parameter name by segment index, handler (None is Go's nil). */
  datatype Reg<D> = Reg(key: Key, names: map<nat, string>, data: Option<D>)

  type Matcher = (string, string) -> bool

  // ---- Normalising one path segment -------------------------------------

  predicate IsRegexSegment(seg: string) {
    |seg| > 2 && seg[0] == '<' && seg[|seg| - 1] == '>'
  }

  function EdgeOf(seg: string): Edge {
    if !IsRegexSegment(seg) then Lit(seg)
    else
      var inner := seg[1..|seg| - 1];
      var split := IndexOf(inner, ':');
      if split < 0 then Rex(".*") else Rex(inner[split + 1..])
  }

  function NameOf(seg: string): string
    requires IsRegexSegment(seg)
  {
    var inner := seg[1..|seg| - 1];
    var split := IndexOf(inner, ':');
    if split < 0 then "<" + inner + ">" else "<" + inner[..split] + ">"
  }

  function KeyOf(path: seq<string>): (k: Key)
    ensures |k| == |path|
  {
    seq(|path|, i requires 0 <= i < |path| => EdgeOf(path[i]))
  }

  /** The parameter names of a path whose first segment has index `at`. */
  function NamesFrom(path: seq<string>, at: nat): (m: map<nat, string>)
    ensures forall i :: i in m ==> at <= i < at + |path|
    ensures forall j :: 0 <= j < |path| ==>
      if IsRegexSegment(path[j]) then at + j in m && m[at + j] == NameOf(path[j]) else at + j !in m
  {
    if path == [] then map[]
    else
      var rest := NamesFrom(path[1..], at + 1);
      if IsRegexSegment(path[0]) then rest[at := NameOf(path[0])] else rest
  }

  // ---- What the spelling of a segment means --------------------------------

  /** A parameter with a regular expression: the name ends at the first colon. */
  lemma NamedPattern(name: string, pattern: string)
    requires ':' !in name
    ensures var seg := "<" + name + ":" + pattern + ">";
            IsRegexSegment(seg) && EdgeOf(seg) == Rex(pattern) && NameOf(seg) == "<" + name + ">"
  {
    var seg := "<" + name + ":" + pattern + ">";
    var inner := seg[1..|seg| - 1];
    assert inner == name + ":" + pattern && inner[|name|] == ':';
    assert IndexOf(inner, ':') == |name|;
    assert inner[..|name|] == name && inner[|name| + 1..] == pattern;
  }

  /** A parameter without one takes any segment. */
  lemma NamedOnly(name: string)
    requires name != "" && ':' !in name
    ensures var seg := "<" + name + ">";
            IsRegexSegment(seg) && EdgeOf(seg) == Rex(".*") && NameOf(seg) == seg
  {
    var seg := "<" + name + ">";
    assert seg[1..|seg| - 1] == name;
  }

  /** Angle brackets with something between them. */
  ghost predicate Bracketed(seg: string) {
    exists inner: string :: inner != "" && seg == "<" + inner + ">"
  }

  /** Every other segment stands for itself. */
  lemma OtherwiseLiteral(seg: string)
    ensures IsRegexSegment(seg) <==> Bracketed(seg)
    ensures !Bracketed(seg) ==> EdgeOf(seg) == Lit(seg)
  {
    if IsRegexSegment(seg) {
      var inner := seg[1..|seg| - 1];
      assert seg == "<" + inner + ">";
    }
  }

  predicate SpellsPattern(seg: string, name: string, pattern: string) {
    ':' !in name && seg == "<" + name + ":" + pattern + ">"
  }

  predicate SpellsName(seg: string, name: string) {
    name != "" && ':' !in name && seg == "<" + name + ">"
  }

  /** By its spelling alone, a route segment takes a request segment. */
  ghost predicate Accepts(rx: Matcher, seg: string, s: string) {
    && (forall name, pattern | SpellsPattern(seg, name, pattern) :: rx(pattern, s))
    && (forall name | SpellsName(seg, name) :: rx(".*", s))
    && (!Bracketed(seg) ==> s == seg)
  }

  lemma SpellingIsEdge(seg: string)
    ensures forall name, pattern | SpellsPattern(seg, name, pattern) :: EdgeOf(seg) == Rex(pattern)
    ensures forall name | SpellsName(seg, name) :: EdgeOf(seg) == Rex(".*")
  {
    forall name, pattern | SpellsPattern(seg, name, pattern) ensures EdgeOf(seg) == Rex(pattern) { NamedPattern(name, pattern); }
    forall name | SpellsName(seg, name) ensures EdgeOf(seg) == Rex(".*") { NamedOnly(name); }
  }

  /** What is between the brackets is a name, or a name, a colon and a regular expression. */
  lemma SpelledSomehow(seg: string) returns (name: string, pattern: Option<string>)
    requires Bracketed(seg)
    ensures if pattern.None? then SpellsName(seg, name) else SpellsPattern(seg, name, pattern.value)
  {
    var inner :| inner != "" && seg == "<" + inner + ">";
    var i := IndexOf(inner, ':');
    if i < 0 {
      name, pattern := inner, None;
    } else {
      name, pattern := inner[..i], Some(inner[i + 1..]);
      assert inner == name + ":" + pattern.value;
      assert seg == "<" + name + ":" + pattern.value + ">";
    }
  }

  lemma AcceptsIsMatch(rx: Matcher, seg: string, s: string)
    ensures Accepts(rx, seg, s) <==> EdgeMatches(rx, EdgeOf(seg), s)
  {
    OtherwiseLiteral(seg);
    SpellingIsEdge(seg);
    if Bracketed(seg) { var name, pattern := SpelledSomehow(seg); }
  }

  // ---- Reading a registration list --------------------------------------

  /** What the latest registration of exactly this key stored. */
  function Slot<D>(regs: seq<Reg<D>>, k: Key): (Option<D>, map<nat, string>) {
    if regs == [] then (None, map[])
    else
      var last := regs[|regs| - 1];
      if last.key == k then (last.data, last.names) else Slot(regs[..|regs| - 1], k)
  }

  predicate HasData<D>(regs: seq<Reg<D>>, k: Key) {
    Slot(regs, k).0.Some?
  }

  /** Lists that can arise from Add: nothing is accepted for a key that already has data. */
  ghost predicate Accepted<D>(regs: seq<Reg<D>>) {
    regs == [] || (Accepted(regs[..|regs| - 1]) && !HasData(regs[..|regs| - 1], regs[|regs| - 1].key))
  }

  /** Position of the first registration passing through `prefix`; |regs| when there is none. */
  function FirstThrough<D>(regs: seq<Reg<D>>, prefix: Key): (i: nat)
    ensures i <= |regs|
  {
    if regs == [] then 0
    else
      var init := regs[..|regs| - 1];
      var i := FirstThrough(init, prefix);
      if i < |init| then i
      else if prefix <= regs[|init|].key then |init|
      else |regs|
  }

  // ---- Which registration a request selects -----------------------------

  predicate EdgeMatches(rx: Matcher, e: Edge, seg: string) {
    match e
    case Lit(text) => text == seg
    case Rex(pattern) => rx(pattern, seg)
  }

  predicate MatchesPrefix(rx: Matcher, k: Key, segs: seq<string>) {
    |k| <= |segs| && forall i :: 0 <= i < |k| ==> EdgeMatches(rx, k[i], segs[i])
  }

  predicate Candidate<D>(regs: seq<Reg<D>>, rx: Matcher, segs: seq<string>, k: Key) {
    HasData(regs, k) && MatchesPrefix(rx, k, segs)
  }

  /** From position `from` on, the key takes a literal edge, or it consumes a request of length n. */
  predicate Flagged(n: nat, k: Key, from: nat) {
    |k| == n || exists i :: from <= i < |k| && k[i].Lit?
  }

  /** Length of the longest common prefix. */
  function Fork(a: Key, b: Key): (d: nat)
    ensures d <= |a| && d <= |b|
    ensures a[..d] == b[..d]
    ensures d < |a| && d < |b| ==> a[d] != b[d]
  {
    if a == [] || b == [] || a[0] != b[0] then 0
    else
      var d := Fork(a[1..], b[1..]);
      assert a[..d + 1] == [a[0]] + a[1..][..d] && b[..d + 1] == [b[0]] + b[1..][..d];
      d + 1
  }

  /**
   `a` has priority over `b` for a request of n segments.  Where the two keys
   part: going on beats stopping, a literal beats a regular expression, and
   between two regular expressions a flagged remainder beats an unflagged one,
   then the expression that was registered first at that point wins.
   */
  predicate Beats<D>(regs: seq<Reg<D>>, n: nat, a: Key, b: Key) {
    var d := Fork(a, b);
    if d == |b| then |a| > |b|
    else if d == |a| then false
    else if b[d].Lit? then false
    else if a[d].Lit? then true
    else if Flagged(n, a, d + 1) != Flagged(n, b, d + 1) then Flagged(n, a, d + 1)
    else FirstThrough(regs, a[..d + 1]) < FirstThrough(regs, b[..d + 1])
  }

  ghost predicate IsBest<D>(regs: seq<Reg<D>>, rx: Matcher, segs: seq<string>, k: Key) {
    && Candidate(regs, rx, segs, k)
    && forall c :: Candidate(regs, rx, segs, c) && c != k ==> Beats(regs, |segs|, k, c)
  }

  // ---- The list seen through one edge -----------------------------------

  /** The registrations through edge `e`, with that edge removed. */
  function Derive<D>(regs: seq<Reg<D>>, e: Edge): seq<Reg<D>> {
    if regs == [] then []
    else
      var last := regs[|regs| - 1];
      var init := Derive(regs[..|regs| - 1], e);
      if last.key != [] && last.key[0] == e then init + [last.(key := last.key[1..])] else init
  }

  /** The regular expressions on first edges, in registration order. */
  function RexHeads<D>(regs: seq<Reg<D>>): (r: seq<string>) {
    if regs == [] then []
    else
      var last := regs[|regs| - 1];
      var init := RexHeads(regs[..|regs| - 1]);
      if last.key != [] && last.key[0].Rex? && last.key[0].pattern !in init
      then init + [last.key[0].pattern] else init
  }

  function LitHeads<D>(regs: seq<Reg<D>>): set<string> {
    if regs == [] then {}
    else
      var last := regs[|regs| - 1];
      LitHeads(regs[..|regs| - 1]) + (if last.key != [] && last.key[0].Lit? then {last.key[0].text} else {})
  }

  function Heads<D>(regs: seq<Reg<D>>): set<Edge> {
    set i | 0 <= i < |regs| && regs[i].key != [] :: regs[i].key[0]
  }

  lemma {:induction false} DeriveSlot<D>(regs: seq<Reg<D>>, e: Edge, t: Key)
    ensures Slot(Derive(regs, e), t) == Slot(regs, [e] + t)
  {
    if regs != [] {
      var last := regs[|regs| - 1];
      DeriveSlot(regs[..|regs| - 1], e, t);
      if last.key != [] && last.key[0] == e {
        assert last.key == [e] + last.key[1..];
      }
    }
  }

  /** Passing to the list behind an edge keeps the order of first registrations. */
  lemma {:induction false} DeriveFirst<D>(regs: seq<Reg<D>>, e: Edge, p: Key, q: Key)
    ensures FirstThrough(regs, [e] + p) < FirstThrough(regs, [e] + q)
       <==> FirstThrough(Derive(regs, e), p) < FirstThrough(Derive(regs, e), q)
    ensures FirstThrough(regs, [e] + p) == |regs| <==> FirstThrough(Derive(regs, e), p) == |Derive(regs, e)|
    ensures FirstThrough(regs, [e] + q) == |regs| <==> FirstThrough(Derive(regs, e), q) == |Derive(regs, e)|
  {
    if regs != [] {
      var init, last := regs[..|regs| - 1], regs[|regs| - 1];
      DeriveFirst(init, e, p, q);
      PrefixUnderEdge(e, p, last.key);
      PrefixUnderEdge(e, q, last.key);
      if last.key != [] && last.key[0] == e {
        assert Derive(regs, e)[..|Derive(init, e)|] == Derive(init, e);
      }
    }
  }

  lemma PrefixUnderEdge(e: Edge, p: Key, k: Key)
    ensures [e] + p <= k <==> k != [] && k[0] == e && p <= k[1..]
  {
  }

  lemma {:induction false} RexHeadFirst<D>(regs: seq<Reg<D>>, p: string)
    ensures p in RexHeads(regs) <==> FirstThrough(regs, [Rex(p)]) < |regs|
    ensures p in RexHeads(regs) <==> Rex(p) in Heads(regs)
  {
    if regs != [] {
      var init := regs[..|regs| - 1];
      var last := regs[|init|];
      RexHeadFirst(init, p);
      HeadsSnoc(init, last);
      assert regs == init + [last];
      assert [Rex(p)] <= last.key <==> last.key != [] && last.key[0] == Rex(p);
    }
  }

  lemma HeadsSnoc<D>(regs: seq<Reg<D>>, r: Reg<D>)
    ensures Heads(regs + [r]) == Heads(regs) + (if r.key != [] then {r.key[0]} else {})
  {
    var all := regs + [r];
    forall e | e in Heads(regs) ensures e in Heads(all) {
      var i :| 0 <= i < |regs| && regs[i].key != [] && regs[i].key[0] == e;
      assert all[i] == regs[i];
    }
    assert all[|regs|] == r;
  }

  /** RexHeads lists each regular expression once, first registered first. */
  lemma {:induction false} RexHeadsOrder<D>(regs: seq<Reg<D>>, i: nat, j: nat)
    requires i < j < |RexHeads(regs)|
    ensures RexHeads(regs)[i] != RexHeads(regs)[j]
    ensures FirstThrough(regs, [Rex(RexHeads(regs)[i])]) < FirstThrough(regs, [Rex(RexHeads(regs)[j])])
  {
    var init := regs[..|regs| - 1];
    RexHeadFirst(init, RexHeads(regs)[i]);
    RexHeadFirst(init, RexHeads(regs)[j]);
    if j < |RexHeads(init)| {
      RexHeadsOrder(init, i, j);
    }
  }

  // ---- The list seen through a whole path ---------------------------------

  /** The registrations whose key starts with `at`, with that prefix removed. */
  function Below<D>(regs: seq<Reg<D>>, at: Key): seq<Reg<D>> {
    if regs == [] then []
    else
      var last := regs[|regs| - 1];
      var init := Below(regs[..|regs| - 1], at);
      if at <= last.key then init + [last.(key := last.key[|at|..])] else init
  }

  function Child(at: Key, e: Edge): Key {
    at + [e]
  }

  /** The edges leaving a point: the literal texts, and the regular expressions in registration order. */
  datatype Edges = Edges(lits: set<string>, rexes: seq<string>) {
    function With(e: Edge): Edges {
      match e
      case Lit(text) => Edges(lits + {text}, rexes)
      case Rex(p) => if p in rexes then this else Edges(lits, rexes + [p])
    }

    predicate Has(e: Edge) {
      match e
      case Lit(text) => text in lits
      case Rex(p) => p in rexes
    }
  }

  function EdgesAt<D>(regs: seq<Reg<D>>, at: Key): Edges {
    Edges(LitHeads(Below(regs, at)), RexHeads(Below(regs, at)))
  }

  /** Some registration passes through `at`; the root is always there. */
  predicate Reached<D>(regs: seq<Reg<D>>, at: Key) {
    at == [] || Below(regs, at) != []
  }

  lemma {:induction false} BelowRoot<D>(regs: seq<Reg<D>>)
    ensures Below(regs, []) == regs
  {
    if regs != [] {
      BelowRoot(regs[..|regs| - 1]);
      var last := regs[|regs| - 1];
      assert last.key[0..] == last.key;
    }
  }

  lemma {:induction false} BelowChild<D>(regs: seq<Reg<D>>, at: Key, e: Edge)
    ensures Below(regs, Child(at, e)) == Derive(Below(regs, at), e)
  {
    if regs != [] {
      var last := regs[|regs| - 1];
      BelowChild(regs[..|regs| - 1], at, e);
      if at <= last.key {
        var t := last.key[|at|..];
        assert last.key == at + t;
        if t != [] && t[0] == e {
          assert t == [e] + t[1..];
          assert last.key == Child(at, e) + t[1..];
        }
      }
      if Child(at, e) <= last.key {
        assert last.key[..|at| + 1] == Child(at, e);
        assert last.key[..|at|] == at;
      }
    }
  }

  lemma {:induction false} BelowSlot<D>(regs: seq<Reg<D>>, at: Key)
    ensures Slot(Below(regs, at), []) == Slot(regs, at)
  {
    if regs != [] {
      BelowSlot(regs[..|regs| - 1], at);
      var last := regs[|regs| - 1];
      if at <= last.key {
        assert last.key == at + last.key[|at|..];
      }
    }
  }

  /** A point further on is reached exactly when the edge to it leaves this one. */
  lemma ReachedChild<D>(regs: seq<Reg<D>>, at: Key, e: Edge)
    ensures Reached(regs, Child(at, e)) <==> EdgesAt(regs, at).Has(e)
  {
    BelowChild(regs, at, e);
    DeriveEmpty(Below(regs, at), e);
  }

  lemma {:induction false} DeriveEmpty<D>(regs: seq<Reg<D>>, e: Edge)
    ensures Derive(regs, e) == [] <==> !Edges(LitHeads(regs), RexHeads(regs)).Has(e)
  {
    if regs != [] {
      DeriveEmpty(regs[..|regs| - 1], e);
    }
  }

  lemma UnreachedSlot<D>(regs: seq<Reg<D>>, at: Key)
    requires !Reached(regs, at)
    ensures Slot(regs, at) == (None, map[]) && EdgesAt(regs, at) == Edges({}, [])
  {
  }
}

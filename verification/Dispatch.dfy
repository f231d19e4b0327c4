/** Registering handlers and finding the one for a request (pkg/appsrv/appsrv.go). */
module Dispatch {
  import opened Basics
  import opened Paths
  import opened RoutePatterns
  import opened RouteTable

  /** A handler as the route table sees it: an identity and the path it was registered with. */
  datatype Handler = Handler(id: nat, path: seq<string>)

  /** What defaultHandle hands to the handler. */
  datatype Call = Call(handler: Handler, rest: seq<string>, params: map<string, string>)

  /** Every handler sits under the key and the parameter names of its own path. */
  ghost predicate UnderOwnPath(regs: seq<Reg<Handler>>) {
    forall i :: 0 <= i < |regs| ==> regs[i].data.Some? ==>
      regs[i].key == KeyOf(regs[i].data.value.path) && regs[i].names == NamesFrom(regs[i].data.value.path, 0)
  }

  /** AddHandler3; a refusal ends the process. */
  method AddHandler(table: Radix<Handler>, hi: Handler) returns (ok: bool)
    requires table.Valid() && UnderOwnPath(table.meaning.regs)
    modifies table`meaning, table.meaning.nodes
    ensures table.Valid() && UnderOwnPath(table.meaning.regs)
    ensures fresh(set n | n in table.meaning.nodes && n !in old(table.meaning.nodes))
    ensures ok <==> !HasData(old(table.meaning.regs), KeyOf(hi.path))
    ensures ok ==> table.meaning.regs == old(table.meaning.regs) + [Reg(KeyOf(hi.path), NamesFrom(hi.path, 0), Some(hi))]
    ensures !ok ==> unchanged(table) && unchanged(old(table.meaning.nodes))
  {
    ok := table.Add(hi.path, Some(hi));
  }

  /**
   The matching part of defaultHandle: the best handler for the request's
   segments; its path length never exceeds the request, so the slice behind it
   is legal, and a parameter named once is the segment at its position.
   */
  method Handle(table: Radix<Handler>, rx: Matcher, urlPath: string) returns (call: Option<Call>)
    requires table.Valid() && UnderOwnPath(table.meaning.regs)
    ensures call.None? <==> forall k :: !Candidate(table.meaning.regs, rx, Segments(urlPath), k)
    ensures call.Some? ==> Served(table.meaning.regs, rx, Segments(urlPath), call.value)
    ensures call.Some? ==> AcceptsPath(rx, call.value.handler.path, Segments(urlPath))
    ensures call.None? ==> NoneAccepts(table.meaning.regs, rx, Segments(urlPath))
  {
    var segs := SplitPath(urlPath);
    var data, params, key := table.Match(rx, segs, map[]);
    if data.None? {
      NoCandidateNoneAccepts(table.meaning.regs, rx, segs);
      return None;
    }
    OwnPath(table.meaning.regs, key.value);
    var hand := data.value;
    CandidateBySpelling(table.meaning.regs, rx, segs, hand.path);
    call := Some(Call(hand, segs[|hand.path|..], params));
    forall i | 0 <= i < |hand.path| && IsRegexSegment(hand.path[i]) && NamedOnce(hand.path, i)
      ensures Bound(hand.path, segs, params, i)
    {
      NamedOnceIsUnique(hand.path, i);
      UniqueNameBound(NamesFrom(hand.path, 0), segs, map[], params, i);
    }
  }

  /** By the spelling of its segments, a route path takes the first segments of a request. */
  ghost predicate AcceptsPath(rx: Matcher, path: seq<string>, segs: seq<string>) {
    |path| <= |segs| && forall i | 0 <= i < |path| :: Accepts(rx, path[i], segs[i])
  }

  /** No registered handler's path takes the request. */
  ghost predicate NoneAccepts(regs: seq<Reg<Handler>>, rx: Matcher, segs: seq<string>) {
    forall i | 0 <= i < |regs| && regs[i].data.Some? :: !AcceptsPath(rx, regs[i].data.value.path, segs)
  }

  lemma CandidateBySpelling(regs: seq<Reg<Handler>>, rx: Matcher, segs: seq<string>, path: seq<string>)
    requires HasData(regs, KeyOf(path))
    ensures Candidate(regs, rx, segs, KeyOf(path)) <==> AcceptsPath(rx, path, segs)
  {
    forall i | 0 <= i < |path| && i < |segs| ensures Accepts(rx, path[i], segs[i]) <==> EdgeMatches(rx, KeyOf(path)[i], segs[i]) {
      AcceptsIsMatch(rx, path[i], segs[i]);
    }
  }

  /** A registration with a handler is not shadowed by a later one. */
  lemma {:induction false} RegisteredHasData(regs: seq<Reg<Handler>>, i: nat)
    requires Accepted(regs) && i < |regs| && regs[i].data.Some?
    ensures HasData(regs, regs[i].key)
  {
    if i < |regs| - 1 { RegisteredHasData(regs[..|regs| - 1], i); }
  }

  lemma NoCandidateNoneAccepts(regs: seq<Reg<Handler>>, rx: Matcher, segs: seq<string>)
    requires Accepted(regs) && UnderOwnPath(regs) && forall k :: !Candidate(regs, rx, segs, k)
    ensures NoneAccepts(regs, rx, segs)
  {
    forall i | 0 <= i < |regs| && regs[i].data.Some? ensures !AcceptsPath(rx, regs[i].data.value.path, segs) {
      RegisteredHasData(regs, i);
      CandidateBySpelling(regs, rx, segs, regs[i].data.value.path);
    }
  }

  ghost predicate Served(regs: seq<Reg<Handler>>, rx: Matcher, segs: seq<string>, call: Call) {
    var path := call.handler.path;
    && IsBest(regs, rx, segs, KeyOf(path)) && Slot(regs, KeyOf(path)).0 == Some(call.handler)
    && |path| <= |segs| && call.rest == segs[|path|..]
    && (forall i | 0 <= i < |path| && IsRegexSegment(path[i]) && NamedOnce(path, i) :: Bound(path, segs, call.params, i))
  }

  /** No other parameter of the path has the name of the one at position i. */
  ghost predicate NamedOnce(path: seq<string>, i: nat)
    requires i < |path| && IsRegexSegment(path[i])
  {
    forall j | 0 <= j < |path| && j != i && IsRegexSegment(path[j]) :: NameOf(path[j]) != NameOf(path[i])
  }

  ghost predicate Bound(path: seq<string>, segs: seq<string>, params: map<string, string>, i: nat)
    requires i < |path| <= |segs| && IsRegexSegment(path[i])
  {
    NameOf(path[i]) in params && params[NameOf(path[i])] == segs[i]
  }

  lemma NamedOnceIsUnique(path: seq<string>, i: nat)
    requires i < |path| && IsRegexSegment(path[i]) && NamedOnce(path, i)
    ensures var names := NamesFrom(path, 0);
      i in names && names[i] == NameOf(path[i]) && forall j | j in names && names[j] == names[i] :: j == i
  {
    var names := NamesFrom(path, 0);
    forall j: nat | j < |path| ensures if IsRegexSegment(path[j]) then j in names && names[j] == NameOf(path[j]) else j !in names {
      assert 0 + j == j;
    }
  }

  lemma {:induction false} OwnPath(regs: seq<Reg<Handler>>, k: Key)
    requires UnderOwnPath(regs) && HasData(regs, k)
    ensures var hand := Slot(regs, k).0.value; k == KeyOf(hand.path) && Slot(regs, k).1 == NamesFrom(hand.path, 0)
  {
    if regs[|regs| - 1].key != k {
      OwnPath(regs[..|regs| - 1], k);
    }
  }

  // ---- One handler for one parameter -----------------------------------------------------

  function OnlyReg(hi: Handler): seq<Reg<Handler>> {
    [Reg(KeyOf(hi.path), NamesFrom(hi.path, 0), Some(hi))]
  }

  /** It takes a request of one segment iff its regular expression takes the segment. */
  lemma AcceptsAlone(rx: Matcher, seg: string, name: string, pattern: string, s: string)
    requires SpellsPattern(seg, name, pattern)
    ensures AcceptsPath(rx, [seg], [s]) <==> rx(pattern, s)
  {
    NamedPattern(name, pattern);
    AcceptsIsMatch(rx, seg, s);
    assert Accepts(rx, [seg][0], [s][0]) <==> rx(pattern, s);
  }

  /** When it serves the request, its parameter, in angle brackets, is the segment. */
  lemma ServedAlone(rx: Matcher, seg: string, name: string, pattern: string, s: string, call: Call)
    requires SpellsPattern(seg, name, pattern) && Served(OnlyReg(Handler(0, [seg])), rx, [s], call)
    ensures call.handler == Handler(0, [seg]) && call.rest == []
    ensures "<" + name + ">" in call.params && call.params["<" + name + ">"] == s
  {
    NamedPattern(name, pattern);
    assert Slot(OnlyReg(Handler(0, [seg]))[..0], KeyOf(call.handler.path)).0.None?;
    assert NamedOnce([seg], 0) && Bound([seg], [s], call.params, 0);
  }

  method TableWith(hi: Handler) returns (table: Radix<Handler>)
    ensures fresh(table) && table.Valid()
    ensures UnderOwnPath(table.meaning.regs) && table.meaning.regs == OnlyReg(hi)
  {
    table := new Radix<Handler>();
    var ok := AddHandler(table, hi);
  }

  /** On a table with that one handler, by spelling alone: who is served, and with which parameter. */
  method ServeAlone(rx: Matcher, seg: string, ghost name: string, ghost pattern: string, s: string)
    returns (call: Option<Call>)
    requires SpellsPattern(seg, name, pattern) && Clean(s)
    ensures call.Some? <==> rx(pattern, s)
    ensures call.Some? ==>
      && call.value.handler == Handler(0, [seg]) && call.value.rest == []
      && "<" + name + ">" in call.value.params && call.value.params["<" + name + ">"] == s
  {
    var table := TableWith(Handler(0, [seg]));
    SegmentsOfJoin([s]);
    call := Handle(table, rx, s);
    AcceptsAlone(rx, seg, name, pattern, s);
    if call.Some? {
      ServedAlone(rx, seg, name, pattern, s, call.value);
    } else {
      assert OnlyReg(Handler(0, [seg]))[0].data.value.path == [seg];
    }
  }
}

/** The origin check of the CORS middleware of pkg/appsrv/cors.go. */
module Origins {
  import opened Basics

  datatype Wildcard = Wildcard(prefix: string, suffix: string) {
    /** wildcard.match: the text is the prefix, anything, the suffix. */
    predicate Match(s: string)
      ensures Match(s) <==> exists mid: string :: s == prefix + mid + suffix
    {
      var r := |s| >= |prefix + suffix| && prefix <= s && s[|s| - |suffix|..] == suffix;
      assert r ==> s == prefix + s[|prefix|..|s| - |suffix|] + suffix;
      r
    }
  }

  /** An entry globs a host: the first * of the entry stands for any text, other characters for themselves. */
  ghost predicate Globs(entry: string, host: string) {
    var i := IndexOf(entry, '*');
    if i >= 0 then exists mid: string :: host == entry[..i] + mid + entry[i + 1..] else host == entry
  }

  type Lower = string -> string  // strings.ToLower
  type Decider = string -> bool  // AllowOriginFunc

  /** Some entry is, in lower case, the single character *. */
  ghost predicate HasStar(list: seq<string>, lower: Lower) {
    exists i :: 0 <= i < |list| && lower(list[i]) == "*"
  }

  ghost predicate SomeGlobs(list: seq<string>, lower: Lower, host: string) {
    exists i :: 0 <= i < |list| && Globs(lower(list[i]), host)
  }

  /** The decision for an origin whose host is `host`, or that does not parse. */
  ghost predicate Allowed(list: seq<string>, decider: Option<Decider>, lower: Lower, host: Option<string>) {
    if (list == [] && decider.None?) || HasStar(list, lower) then true
    else if host.None? then false
    else if decider.Some? then decider.value(host.value)
    else SomeGlobs(list, lower, lower(host.value))
  }

  /** The two lists that NewCors makes accept the same hosts as the entries. */
  ghost predicate SameHosts(exact: seq<string>, wild: seq<Wildcard>, list: seq<string>, lower: Lower) {
    forall host: string :: Accepted(exact, wild, host) <==> SomeGlobs(list, lower, host)
  }

  ghost predicate Accepted(exact: seq<string>, wild: seq<Wildcard>, host: string) {
    host in exact || exists k :: 0 <= k < |wild| && wild[k].Match(host)
  }

  lemma SnocGlobs(list: seq<string>, o: string, lower: Lower, host: string)
    ensures SomeGlobs(list + [o], lower, host) <==> SomeGlobs(list, lower, host) || Globs(lower(o), host)
  {
    var list' := list + [o];
    assert list'[|list|] == o;
    if SomeGlobs(list, lower, host) {
      var i :| 0 <= i < |list| && Globs(lower(list[i]), host);
      assert list'[i] == list[i];
    }
  }

  lemma SnocWild(wild: seq<Wildcard>, w: Wildcard, host: string)
    ensures (exists k :: 0 <= k < |wild + [w]| && (wild + [w])[k].Match(host)) <==>
            (exists k :: 0 <= k < |wild| && wild[k].Match(host)) || w.Match(host)
  {
    var wild' := wild + [w];
    assert wild'[|wild|] == w;
    if k :| 0 <= k < |wild| && wild[k].Match(host) { assert wild'[k].Match(host); }
  }

  lemma AddWild(exact: seq<string>, wild: seq<Wildcard>, list: seq<string>, o: string, lower: Lower)
    requires SameHosts(exact, wild, list, lower) && IndexOf(lower(o), '*') >= 0
    ensures var i := IndexOf(lower(o), '*');
            SameHosts(exact, wild + [Wildcard(lower(o)[..i], lower(o)[i + 1..])], list + [o], lower)
  {
    var i := IndexOf(lower(o), '*');
    var w := Wildcard(lower(o)[..i], lower(o)[i + 1..]);
    forall host: string ensures Accepted(exact, wild + [w], host) <==> SomeGlobs(list + [o], lower, host) {
      SnocGlobs(list, o, lower, host);
      SnocWild(wild, w, host);
      assert Accepted(exact, wild, host) <==> SomeGlobs(list, lower, host);
      assert w.Match(host) <==> Globs(lower(o), host);
    }
  }

  lemma AddExact(exact: seq<string>, wild: seq<Wildcard>, list: seq<string>, o: string, lower: Lower)
    requires SameHosts(exact, wild, list, lower) && IndexOf(lower(o), '*') < 0
    ensures SameHosts(exact + [lower(o)], wild, list + [o], lower)
  {
    forall host: string ensures Accepted(exact + [lower(o)], wild, host) <==> SomeGlobs(list + [o], lower, host) {
      SnocGlobs(list, o, lower, host);
      assert Accepted(exact, wild, host) <==> SomeGlobs(list, lower, host);
    }
  }

  class Cors {
    const lower: Lower
    var allowedOriginsAll: bool
    var allowedOrigins: seq<string>
    var allowedWOrigins: seq<Wildcard>
    var allowOriginFunc: Option<Decider>

    /** The fields stand for these options. */
    ghost predicate Configured(list: seq<string>, decider: Option<Decider>)
      reads this
    {
      && allowOriginFunc == decider
      && (allowedOriginsAll <==> (list == [] && decider.None?) || HasStar(list, lower))
      && (!allowedOriginsAll ==> SameHosts(allowedOrigins, allowedWOrigins, list, lower))
    }

    /** NewCors, its origin part. */
    constructor (list: seq<string>, decider: Option<Decider>, lower: Lower)
      ensures this.lower == lower && Configured(list, decider)
    {
      this.lower := lower;
      allowOriginFunc := decider;
      allowedOriginsAll, allowedOrigins, allowedWOrigins := false, [], [];
      new;
      if |list| == 0 {
        allowedOriginsAll := decider.None?;
      } else {
        var k := 0;
        while k < |list| && !allowedOriginsAll
          invariant k <= |list| && allowOriginFunc == decider
          invariant allowedOriginsAll <==> HasStar(list[..k], lower)
          invariant !allowedOriginsAll ==> SameHosts(allowedOrigins, allowedWOrigins, list[..k], lower)
          decreases |list| - k
        {
          var origin := lower(list[k]);
          var i := IndexOf(origin, '*');
          assert list[..k + 1] == list[..k] + [list[k]];
          SnocStar(list[..k], list[k], lower);
          if origin == "*" {
            allowedOriginsAll := true;
            allowedOrigins, allowedWOrigins := [], [];
          } else if i >= 0 {
            AddWild(allowedOrigins, allowedWOrigins, list[..k], list[k], lower);
            allowedWOrigins := allowedWOrigins + [Wildcard(origin[..i], origin[i + 1..])];
          } else {
            AddExact(allowedOrigins, allowedWOrigins, list[..k], list[k], lower);
            allowedOrigins := allowedOrigins + [origin];
          }
          k := k + 1;
        }
        PrefixStar(list, k, lower);
        assert k == |list| ==> list[..k] == list;
      }
    }

    /** isOriginAllowed: `host` is the host name of the origin, None if it does not parse. */
    method IsOriginAllowed(host: Option<string>, ghost list: seq<string>, ghost decider: Option<Decider>) returns (r: bool)
      requires Configured(list, decider)
      ensures r <==> Allowed(list, decider, lower, host)
    {
      if allowedOriginsAll { return true; }
      if host.None? { return false; }
      if allowOriginFunc.Some? { return allowOriginFunc.value(host.value); }
      var origin := lower(host.value);
      assert Accepted(allowedOrigins, allowedWOrigins, origin) <==> SomeGlobs(list, lower, origin);
      for i := 0 to |allowedOrigins|
        invariant origin !in allowedOrigins[..i]
      {
        if allowedOrigins[i] == origin { return true; }
      }
      for i := 0 to |allowedWOrigins|
        invariant forall k | 0 <= k < i :: !allowedWOrigins[k].Match(origin)
      {
        if allowedWOrigins[i].Match(origin) { return true; }
      }
      return false;
    }
  }

  lemma SnocStar(list: seq<string>, o: string, lower: Lower)
    ensures HasStar(list + [o], lower) <==> HasStar(list, lower) || lower(o) == "*"
  {
    var list' := list + [o];
    assert list'[|list|] == o;
    if HasStar(list, lower) {
      var i :| 0 <= i < |list| && lower(list[i]) == "*";
      assert list'[i] == list[i];
    }
  }

  lemma PrefixStar(list: seq<string>, k: nat, lower: Lower)
    requires k <= |list|
    ensures HasStar(list[..k], lower) ==> HasStar(list, lower)
  {
  }

  // ---- What the decision depends on -------------------------------------------------------------

  lemma StarGlobs(host: string)
    ensures Globs("*", host)
  {
    assert IndexOf("*", '*') == 0;
    assert host == "*"[..0] + host + "*"[1..];
  }

  /** With no custom function, a host that parses is allowed iff the list is empty or some entry globs it. */
  lemma AllowedIffGlobbed(list: seq<string>, lower: Lower, host: string)
    ensures Allowed(list, None, lower, Some(host)) <==> list == [] || SomeGlobs(list, lower, lower(host))
  {
    if HasStar(list, lower) {
      var i :| 0 <= i < |list| && lower(list[i]) == "*";
      StarGlobs(lower(host));
      assert Globs(lower(list[i]), lower(host));
    }
  }

  /** Order and repetition of the entries do not matter. */
  lemma OrderIrrelevant(list: seq<string>, list': seq<string>, decider: Option<Decider>, lower: Lower, host: Option<string>)
    requires Elements(list) == Elements(list')
    ensures Allowed(list, decider, lower, host) <==> Allowed(list', decider, lower, host)
  {
    SameElements(list, list', lower);
    SameElements(list', list, lower);
    assert list == [] <==> list' == [] by {
      assert list != [] ==> list[0] in Elements(list');
      assert list' != [] ==> list'[0] in Elements(list);
    }
  }

  lemma SameElements(list: seq<string>, list': seq<string>, lower: Lower)
    requires Elements(list) <= Elements(list')
    ensures HasStar(list, lower) ==> HasStar(list', lower)
    ensures forall host: string :: SomeGlobs(list, lower, host) ==> SomeGlobs(list', lower, host)
  {
    forall i | 0 <= i < |list| ensures exists j :: 0 <= j < |list'| && list'[j] == list[i] {
      assert list[i] in Elements(list');
    }
  }

  /** As documented, whatever custom function is set decides alone on every host: iff no entry is *. */
  lemma CustomFunctionDecides(list: seq<string>, lower: Lower)
    ensures (forall decider: Decider, host: string :: Decides(list, decider, lower, host)) <==> !HasStar(list, lower)
  {
    if HasStar(list, lower) {
      var refuse: Decider := _ => false;
      assert !Decides(list, refuse, lower, "");
    }
  }

  ghost predicate Decides(list: seq<string>, decider: Decider, lower: Lower, host: string) {
    Allowed(list, Some(decider), lower, Some(host)) == decider(host)
  }

  /** An origin that does not parse is allowed, custom function or not, iff some entry is * or nothing is configured. */
  lemma UnparsableAllowedIff(list: seq<string>, decider: Option<Decider>, lower: Lower)
    ensures Allowed(list, decider, lower, None) <==> HasStar(list, lower) || (list == [] && decider.None?)
  {
  }

  /** With the single entry * a function that refuses everything is not heard. */
  lemma StarOverridesExample(lower: Lower, host: string)
    requires lower("*") == "*"
    ensures Allowed(["*"], Some(_ => false), lower, Some(host)) && !Decides(["*"], _ => false, lower, host)
  {
    assert lower(["*"][0]) == "*";
  }
}

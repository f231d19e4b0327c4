/** Endpoint selection in the V3 service catalog of pkg/mcclient/token3.go. */
module Catalog {
  import opened Basics

  const REGION_ZONE_SEP := '-'

  datatype Endpoint = Endpoint(regionId: string, interfaceName: string, url: string)

  datatype Service = Service(serviceType: string, endpoints: seq<Endpoint>)

  datatype Selection = Urls(urls: seq<string>) | NoDefaultRegion | NoValidEndpoints | NoSuchService

  // ---- Regions and zones --------------------------------------------------------------

  function RegionID(region: string, zone: string): string {
    if |zone| > 0 then region + [REGION_ZONE_SEP] + zone else region
  }

  function Id2RegionZone(id: string): (string, string) {
    var pos := IndexOf(id, REGION_ZONE_SEP);
    if pos > 0 then (id[..pos], id[pos + 1..]) else (id, "")
  }

  /** A region and zone can be told apart again. */
  predicate Separable(region: string, zone: string) {
    if zone == "" then REGION_ZONE_SEP !in region || region[0] == REGION_ZONE_SEP
    else region != "" && REGION_ZONE_SEP !in region
  }

  lemma RegionZoneRoundTrip(region: string, zone: string)
    ensures Id2RegionZone(RegionID(region, zone)) == (region, zone) <==> Separable(region, zone)
  {
    var id := RegionID(region, zone);
    var pos := IndexOf(id, REGION_ZONE_SEP);
    if zone != "" {
      assert id[|region|] == REGION_ZONE_SEP;
      assert id[..|region|] == region && id[|region| + 1..] == zone;
      assert pos <= |region|;
      if pos < |region| { assert region[pos] == REGION_ZONE_SEP; }
    } else if pos > 0 {
      assert |id[..pos]| < |region|;
    }
  }

  /** A region with a separator of its own comes back cut in two. */
  lemma NotSeparableExample()
    ensures Id2RegionZone(RegionID("a-b", "")) == ("a", "b")
  {
    var id := "a-b";
    assert IndexOf(id, REGION_ZONE_SEP) == 1;
    assert id[..1] == "a" && id[2..] == "b";
  }

  // ---- The plain meaning ----------------------------------------------------------------

  predicate Serves(ep: Endpoint, endpointType: string) {
    ep.interfaceName <= endpointType
  }

  /** The URLs of one region id, in the order of the endpoints. */
  function UrlsIn(eps: seq<Endpoint>, endpointType: string, regionId: string): seq<string> {
    if eps == [] then []
    else
      var ep := eps[|eps| - 1];
      UrlsIn(eps[..|eps| - 1], endpointType, regionId)
      + if Serves(ep, endpointType) && ep.regionId == regionId then [ep.url] else []
  }

  /** The region id that is tried first: region and zone, and the empty id when there is no zone. */
  function FirstChoice(region: string, zone: string): string {
    if |zone| > 0 then RegionID(region, zone) else ""
  }

  /** The position of the first service of the type that has endpoints, or the length of the catalog. */
  function Chosen(catalog: seq<Service>, service: string): (i: nat)
    ensures i <= |catalog|
    ensures i < |catalog| ==> catalog[i].serviceType == service && catalog[i].endpoints != []
    ensures forall j | 0 <= j < i :: catalog[j].serviceType != service || catalog[j].endpoints == []
  {
    if catalog == [] || (catalog[0].serviceType == service && catalog[0].endpoints != []) then 0
    else 1 + Chosen(catalog[1..], service)
  }

  function TypeOrDefault(endpointType: string): string {
    if endpointType == "" then "internalURL" else endpointType
  }

  /** What is selected among the endpoints of a service, for a given region. */
  function Select(eps: seq<Endpoint>, region: string, zone: string, endpointType: string): Selection {
    var first, second := UrlsIn(eps, endpointType, FirstChoice(region, zone)), UrlsIn(eps, endpointType, region);
    if first != [] then Urls(first) else if second != [] then Urls(second) else NoValidEndpoints
  }

  // ---- Which endpoints are taken, said of the endpoints themselves ----------------------

  /** The endpoint belongs to the region id and its interface is how the endpoint type begins. */
  ghost predicate Fit(ep: Endpoint, id: string, endpointType: string) {
    ep.regionId == id && exists rest: string :: endpointType == ep.interfaceName + rest
  }

  /** Some endpoint is fit. */
  ghost predicate AnyFit(eps: seq<Endpoint>, id: string, endpointType: string) {
    exists i :: 0 <= i < |eps| && Fit(eps[i], id, endpointType)
  }

  /** The URLs are those of the endpoints at these positions, which are all the fit ones in order. */
  ghost predicate PicksAt(urls: seq<string>, eps: seq<Endpoint>, id: string, endpointType: string, at: seq<nat>) {
    && |at| == |urls|
    && (forall k | 0 <= k < |at| :: at[k] < |eps| && Fit(eps[at[k]], id, endpointType) && urls[k] == eps[at[k]].url)
    && (forall k, l | 0 <= k < l < |at| :: at[k] < at[l])
    && (forall i | 0 <= i < |eps| && Fit(eps[i], id, endpointType) :: i in at)
  }

  ghost predicate Picks(urls: seq<string>, eps: seq<Endpoint>, id: string, endpointType: string) {
    exists at :: PicksAt(urls, eps, id, endpointType, at)
  }

  /** What GetServiceURLs promises for a region. */
  ghost predicate Selects(r: Selection, eps: seq<Endpoint>, region: string, zone: string, requested: string) {
    var endpointType := if requested == "" then "internalURL" else requested;
    var first := if zone == "" then "" else region + "-" + zone;
    if AnyFit(eps, first, endpointType) then r.Urls? && Picks(r.urls, eps, first, endpointType)
    else if AnyFit(eps, region, endpointType) then r.Urls? && Picks(r.urls, eps, region, endpointType)
    else r.NoValidEndpoints?
  }

  /** And without a region: the endpoints of some one region id, or none is fit for any. */
  ghost predicate SelectsAny(r: Selection, eps: seq<Endpoint>, requested: string) {
    var endpointType := if requested == "" then "internalURL" else requested;
    if r.Urls? then exists id :: AnyFit(eps, id, endpointType) && Picks(r.urls, eps, id, endpointType)
    else r.NoDefaultRegion? && forall id :: !AnyFit(eps, id, endpointType)
  }

  lemma ServesIsPrefix(ep: Endpoint, endpointType: string)
    ensures Serves(ep, endpointType) <==> exists rest: string :: endpointType == ep.interfaceName + rest
  {
    if Serves(ep, endpointType) {
      assert endpointType == ep.interfaceName + endpointType[|ep.interfaceName|..];
    }
  }

  lemma PicksNext(urls: seq<string>, eps: seq<Endpoint>, ep: Endpoint, id: string, endpointType: string, at: seq<nat>)
    requires PicksAt(urls, eps, id, endpointType, at)
    ensures if Fit(ep, id, endpointType) then PicksAt(urls + [ep.url], eps + [ep], id, endpointType, at + [|eps|])
            else PicksAt(urls, eps + [ep], id, endpointType, at)
  {
    var all := eps + [ep];
    assert forall i | 0 <= i < |eps| :: all[i] == eps[i];
    if Fit(ep, id, endpointType) {
      var at' := at + [|eps|];
      assert at'[|at|] == |eps|;
      forall i | 0 <= i < |all| && Fit(all[i], id, endpointType) ensures i in at' {
        if i < |eps| {
          assert i in at;
        }
      }
    }
  }

  /** The plain filter picks the fit endpoints. */
  lemma {:induction false} UrlsInPicks(eps: seq<Endpoint>, endpointType: string, id: string) returns (at: seq<nat>)
    ensures PicksAt(UrlsIn(eps, endpointType, id), eps, id, endpointType, at)
  {
    at := [];
    if eps != [] {
      var init, ep := eps[..|eps| - 1], eps[|eps| - 1];
      at := UrlsInPicks(init, endpointType, id);
      PicksNext(UrlsIn(init, endpointType, id), init, ep, id, endpointType, at);
      assert init + [ep] == eps;
      ServesIsPrefix(ep, endpointType);
      if Fit(ep, id, endpointType) { at := at + [|init|]; }
    }
  }

  lemma UrlsInAny(eps: seq<Endpoint>, endpointType: string, id: string)
    ensures Picks(UrlsIn(eps, endpointType, id), eps, id, endpointType)
    ensures UrlsIn(eps, endpointType, id) != [] <==> AnyFit(eps, id, endpointType)
  {
    var at := UrlsInPicks(eps, endpointType, id);
    if UrlsIn(eps, endpointType, id) != [] { assert Fit(eps[at[0]], id, endpointType); }
  }

  lemma SelectSelects(eps: seq<Endpoint>, region: string, zone: string, requested: string)
    ensures Selects(Select(eps, region, zone, TypeOrDefault(requested)), eps, region, zone, requested)
  {
    var endpointType := TypeOrDefault(requested);
    UrlsInAny(eps, endpointType, FirstChoice(region, zone));
    UrlsInAny(eps, endpointType, region);
    assert zone != "" ==> region + [REGION_ZONE_SEP] + zone == region + "-" + zone;
  }

  lemma AnySelects(r: Selection, eps: seq<Endpoint>, requested: string)
    requires if r.Urls? then r.urls != [] && exists id :: r.urls == UrlsIn(eps, TypeOrDefault(requested), id)
             else r.NoDefaultRegion? && forall id :: UrlsIn(eps, TypeOrDefault(requested), id) == []
    ensures SelectsAny(r, eps, requested)
  {
    if r.Urls? {
      var id :| r.urls == UrlsIn(eps, TypeOrDefault(requested), id);
      UrlsInAny(eps, TypeOrDefault(requested), id);
    } else {
      var endpointType := TypeOrDefault(requested);
      forall id ensures !AnyFit(eps, id, endpointType) {
        UrlsInAny(eps, endpointType, id);
        assert UrlsIn(eps, endpointType, id) == [];
      }
    }
  }

  /** The URL is that of an endpoint fit for the id. */
  ghost predicate UrlOf(url: string, eps: seq<Endpoint>, id: string, endpointType: string) {
    exists i :: 0 <= i < |eps| && Fit(eps[i], id, endpointType) && eps[i].url == url
  }

  /** The URL drawn is that of an endpoint fit for region and zone, or for the region if there is none; no URL iff neither is there. */
  ghost predicate Draws(url: Option<string>, eps: seq<Endpoint>, region: string, zone: string, requested: string) {
    var endpointType := if requested == "" then "internalURL" else requested;
    var first := if zone == "" then "" else region + "-" + zone;
    if AnyFit(eps, first, endpointType) then url.Some? && UrlOf(url.value, eps, first, endpointType)
    else if AnyFit(eps, region, endpointType) then url.Some? && UrlOf(url.value, eps, region, endpointType)
    else url.None?
  }

  lemma PickedUrl(urls: seq<string>, eps: seq<Endpoint>, id: string, endpointType: string, k: nat)
    requires Picks(urls, eps, id, endpointType) && k < |urls|
    ensures UrlOf(urls[k], eps, id, endpointType)
  {
    var at :| PicksAt(urls, eps, id, endpointType, at);
    assert Fit(eps[at[k]], id, endpointType);
  }

  lemma SelectedDraws(r: Selection, eps: seq<Endpoint>, region: string, zone: string, requested: string, k: nat)
    requires Selects(r, eps, region, zone, requested) && (r.Urls? ==> k < |r.urls|)
    ensures Draws(if r.Urls? then Some(r.urls[k]) else None, eps, region, zone, requested)
  {
    var endpointType := if requested == "" then "internalURL" else requested;
    var first := if zone == "" then "" else region + "-" + zone;
    if AnyFit(eps, first, endpointType) {
      PickedUrl(r.urls, eps, first, endpointType, k);
    } else if AnyFit(eps, region, endpointType) {
      PickedUrl(r.urls, eps, region, endpointType, k);
    }
  }

  // ---- The grouping loop -------------------------------------------------------------------

  predicate Wanted(id: string, region: string, regionzone: string) {
    id == region || id == regionzone || |region| == 0
  }

  /** The map groups the wanted URLs by region id. */
  ghost predicate Groups(regeps: map<string, seq<string>>, eps: seq<Endpoint>, endpointType: string, region: string, regionzone: string) {
    && (forall id | id in regeps :: regeps[id] != [] && regeps[id] == UrlsIn(eps, endpointType, id))
    && (forall id: string | id !in regeps && Wanted(id, region, regionzone) :: UrlsIn(eps, endpointType, id) == [])
  }

  method Group(eps: seq<Endpoint>, endpointType: string, region: string, regionzone: string) returns (regeps: map<string, seq<string>>)
    ensures Groups(regeps, eps, endpointType, region, regionzone)
  {
    regeps := map[];
    for j := 0 to |eps|
      invariant Groups(regeps, eps[..j], endpointType, region, regionzone)
      invariant forall id | id in regeps :: Wanted(id, region, regionzone)
    {
      var ep := eps[j];
      assert eps[..j + 1][..j] == eps[..j];
      if Serves(ep, endpointType) && Wanted(ep.regionId, region, regionzone) {
        if ep.regionId !in regeps {
          regeps := regeps[ep.regionId := []];
        }
        regeps := regeps[ep.regionId := regeps[ep.regionId] + [ep.url]];
      }
    }
    assert eps[..|eps|] == eps;
  }

  /**
   GetServiceURLs.  For a region: the URLs of region and zone if there are any, else of the region.
   For no region: the URLs of some one region id, if there are any at all.
   */
  method GetServiceURLs(catalog: seq<Service>, service: string, region: string, zone: string, requested: string)
    returns (r: Selection)
    ensures r.NoSuchService? <==> Chosen(catalog, service) == |catalog|
    ensures r.Urls? ==> r.urls != []
    ensures Chosen(catalog, service) < |catalog| ==>
      var eps, endpointType := catalog[Chosen(catalog, service)].endpoints, TypeOrDefault(requested);
      if region != "" then r == Select(eps, region, zone, endpointType)
      else if r.Urls? then exists id :: r.urls == UrlsIn(eps, endpointType, id)
      else r.NoDefaultRegion? && forall id :: UrlsIn(eps, endpointType, id) == []
    ensures Chosen(catalog, service) < |catalog| && region != "" ==>
      Selects(r, catalog[Chosen(catalog, service)].endpoints, region, zone, requested)
    ensures Chosen(catalog, service) < |catalog| && region == "" ==>
      SelectsAny(r, catalog[Chosen(catalog, service)].endpoints, requested)
  {
    if Chosen(catalog, service) < |catalog| {
      SelectSelects(catalog[Chosen(catalog, service)].endpoints, region, zone, requested);
    }
    r := SelectURLs(catalog, service, region, zone, requested);
    if Chosen(catalog, service) < |catalog| && region == "" {
      AnySelects(r, catalog[Chosen(catalog, service)].endpoints, requested);
    }
  }

  /** The loops of GetServiceURLs. */
  method SelectURLs(catalog: seq<Service>, service: string, region: string, zone: string, requested: string)
    returns (r: Selection)
    ensures r.NoSuchService? <==> Chosen(catalog, service) == |catalog|
    ensures r.Urls? ==> r.urls != []
    ensures Chosen(catalog, service) < |catalog| ==>
      var eps, endpointType := catalog[Chosen(catalog, service)].endpoints, TypeOrDefault(requested);
      if region != "" then r == Select(eps, region, zone, endpointType)
      else if r.Urls? then exists id :: r.urls == UrlsIn(eps, endpointType, id)
      else r.NoDefaultRegion? && forall id :: UrlsIn(eps, endpointType, id) == []
  {
    var endpointType := if requested == "" then "internalURL" else requested;
    for i := 0 to |catalog|
      invariant i <= Chosen(catalog, service)
    {
      if service == catalog[i].serviceType {
        var eps := catalog[i].endpoints;
        if |eps| == 0 { continue; }
        assert i == Chosen(catalog, service);
        var regionzone := if |zone| > 0 then RegionID(region, zone) else "";
        var regeps := Group(eps, endpointType, region, regionzone);
        if |region| == 0 {
          if |regeps| >= 1 {
            assert regeps.Keys != {};
            var id :| id in regeps;
            assert regeps[id] == UrlsIn(eps, TypeOrDefault(requested), id);
            return Urls(regeps[id]);
          }
          return NoDefaultRegion;
        }
        if regionzone in regeps { return Urls(regeps[regionzone]); }
        if region in regeps { return Urls(regeps[region]); }
        return NoValidEndpoints;
      }
    }
    return NoSuchService;
  }

  /** GetServiceURL: whatever index is drawn below the number of URLs, there is a URL at it. */
  method GetServiceURL(catalog: seq<Service>, service: string, region: string, zone: string, requested: string)
    returns (url: Option<string>)
    ensures region != "" && Chosen(catalog, service) < |catalog| ==>
      var s := Select(catalog[Chosen(catalog, service)].endpoints, region, zone, TypeOrDefault(requested));
      if s.Urls? then url.Some? && url.value in s.urls else url.None?
    ensures Chosen(catalog, service) == |catalog| ==> url.None?
    ensures region == "" && Chosen(catalog, service) < |catalog| ==>
      var eps, endpointType := catalog[Chosen(catalog, service)].endpoints, TypeOrDefault(requested);
      if url.Some? then exists id :: url.value in UrlsIn(eps, endpointType, id)
      else forall id :: UrlsIn(eps, endpointType, id) == []
    ensures region != "" && Chosen(catalog, service) < |catalog| ==>
      Draws(url, catalog[Chosen(catalog, service)].endpoints, region, zone, requested)
  {
    var r := GetServiceURLs(catalog, service, region, zone, requested);
    if !r.Urls? {
      if Chosen(catalog, service) < |catalog| && region != "" {
        SelectedDraws(r, catalog[Chosen(catalog, service)].endpoints, region, zone, requested, 0);
      }
      return None;
    }
    var i: nat :| i < |r.urls|;
    url := Some(r.urls[i]);
    if region != "" { SelectedDraws(r, catalog[Chosen(catalog, service)].endpoints, region, zone, requested, i); }
  }
}

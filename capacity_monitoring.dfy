/**
 * The list and map helpers of the capacity monitoring service: restricting the
 * instance-type limits to the scalable types, selecting the Critical-tier SLAs,
 * pairing configured minimum sizes with allocated maxima, and grouping SLAs by tier
 * before they are handed to the capacity guarantee strategy.
 */
module CapacityMonitoring {
  import opened Options

  datatype Tier = Critical | Flex

  datatype ApplicationSla = ApplicationSla(appName: string, tier: Tier)

  datatype InstanceTypeLimit = InstanceTypeLimit(minSize: int, maxSize: int)

  /** The entries of `limits` whose key is in `keep`. */
  function Restrict(limits: map<string, InstanceTypeLimit>, keep: set<string>): (r: map<string, InstanceTypeLimit>)
    ensures r.Keys == limits.Keys * keep
    ensures forall k :: k in r ==> r[k] == limits[k]
  {
    map k | k in limits && k in keep :: limits[k]
  }

  /**
   * `scalableInstanceTypeLimits`: copies `limits` and then removes, one by one, every key
   * that is not a scalable instance type. The argument map is a value and stays as it was.
   */
  method ScalableInstanceTypeLimits(limits: map<string, InstanceTypeLimit>, scalable: seq<string>)
    returns (result: map<string, InstanceTypeLimit>)
    ensures result == Restrict(limits, set t | t in scalable)
  {
    result := limits;
    var pending := limits.Keys;
    while pending != {}
      invariant pending <= limits.Keys
      invariant result.Keys == (limits.Keys - pending) * (set t | t in scalable) + pending
      invariant forall k :: k in result ==> result[k] == limits[k]
      decreases pending
    {
      var k :| k in pending;
      if k !in scalable {
        result := result - {k};
      }
      pending := pending - {k};
    }
  }

  /** The SLAs of `slas` on `tier`, in their original order. */
  function TierSlas(slas: seq<ApplicationSla>, tier: Tier): seq<ApplicationSla>
    decreases |slas|
  {
    if slas == [] then []
    else
      var n := |slas|;
      var rest := TierSlas(slas[..n - 1], tier);
      if slas[n - 1].tier == tier then rest + [slas[n - 1]] else rest
  }

  lemma TierSlasSnoc(slas: seq<ApplicationSla>, x: ApplicationSla, tier: Tier)
    ensures TierSlas(slas + [x], tier) == TierSlas(slas, tier) + (if x.tier == tier then [x] else [])
  {
    assert (slas + [x])[..|slas|] == slas;
  }

  /** Filtering distributes over concatenation, so the SLAs of a tier keep their relative order. */
  lemma {:induction false} TierSlasAppend(a: seq<ApplicationSla>, b: seq<ApplicationSla>, tier: Tier)
    ensures TierSlas(a + b, tier) == TierSlas(a, tier) + TierSlas(b, tier)
    decreases |b|
  {
    if b == [] {
      assert a + b == a;
    } else {
      var n := |b|;
      var init, x := b[..n - 1], b[n - 1];
      var e := if x.tier == tier then [x] else [];
      assert b == init + [x];
      assert a + b == (a + init) + [x];
      TierSlasAppend(a, init, tier);
      TierSlasSnoc(a + init, x, tier);
      TierSlasSnoc(init, x, tier);
      calc {
        TierSlas(a + b, tier);
        TierSlas(a + init, tier) + e;
        (TierSlas(a, tier) + TierSlas(init, tier)) + e;
        TierSlas(a, tier) + (TierSlas(init, tier) + e);
        TierSlas(a, tier) + TierSlas(b, tier);
      }
    }
  }

  /** Filtering by tier keeps every SLA of that tier as often as it occurs, and no other. */
  lemma {:induction false} TierSlasMultiset(slas: seq<ApplicationSla>, tier: Tier)
    ensures forall s :: multiset(TierSlas(slas, tier))[s] == (if s.tier == tier then multiset(slas)[s] else 0)
    decreases |slas|
  {
    if slas != [] {
      var n := |slas|;
      TierSlasMultiset(slas[..n - 1], tier);
      TierSlasSnoc(slas[..n - 1], slas[n - 1], tier);
      assert slas == slas[..n - 1] + [slas[n - 1]];
    }
  }

  /** An SLA is in the filtered list iff it is in the input and on the tier. */
  lemma TierSlasMembers(slas: seq<ApplicationSla>, tier: Tier)
    ensures forall s :: s in TierSlas(slas, tier) <==> s in slas && s.tier == tier
  {
    TierSlasMultiset(slas, tier);
    forall s
      ensures s in TierSlas(slas, tier) <==> s in slas && s.tier == tier
    {
      assert s in TierSlas(slas, tier) <==> multiset(TierSlas(slas, tier))[s] > 0;
      assert s in slas <==> multiset(slas)[s] > 0;
    }
  }

  /** `scalableSLAs`: only the Critical-tier SLAs are scaled. */
  function ScalableSlas(allSlas: seq<ApplicationSla>): (r: seq<ApplicationSla>)
    ensures forall s :: s in r <==> s in allSlas && s.tier == Critical
  {
    TierSlasMembers(allSlas, Critical);
    TierSlas(allSlas, Critical)
  }

  /** The tier map `recompute` builds: an entry for exactly the tiers that have SLAs, listing them in input order. */
  predicate IsGrouping(tiers: map<Tier, seq<ApplicationSla>>, slas: seq<ApplicationSla>)
  {
    forall t :: (t in tiers <==> TierSlas(slas, t) != []) && (t in tiers ==> tiers[t] == TierSlas(slas, t))
  }

  /** The tier grouping in `recompute`: appends each SLA to the list of its tier, creating the list on first use. */
  method GroupByTier(slas: seq<ApplicationSla>) returns (tiers: map<Tier, seq<ApplicationSla>>)
    ensures IsGrouping(tiers, slas)
  {
    tiers := map[];
    var i := 0;
    while i < |slas|
      invariant 0 <= i <= |slas|
      invariant IsGrouping(tiers, slas[..i])
    {
      var sla := slas[i];
      var tierSlas := if sla.tier in tiers then tiers[sla.tier] else [];
      tiers := tiers[sla.tier := tierSlas + [sla]];
      assert slas[..i + 1] == slas[..i] + [sla];
      TierSlasSnoc(slas[..i], sla, Critical);
      TierSlasSnoc(slas[..i], sla, Flex);
      i := i + 1;
    }
    assert slas[..i] == slas;
  }

  /** Every SLA is in the list of its own tier, and every entry is a non-empty list of SLAs of that tier. */
  lemma GroupingPlacesEverySla(tiers: map<Tier, seq<ApplicationSla>>, slas: seq<ApplicationSla>)
    requires IsGrouping(tiers, slas)
    ensures forall s :: s in slas ==> s.tier in tiers && s in tiers[s.tier]
    ensures forall t :: t in tiers ==> tiers[t] != [] && forall s :: s in tiers[t] ==> s in slas && s.tier == t
  {
    TierSlasMembers(slas, Critical);
    TierSlasMembers(slas, Flex);
    forall s | s in slas
      ensures s.tier in tiers && s in tiers[s.tier]
    {
      assert s in TierSlas(slas, s.tier);
    }
  }

  /** Together the tier lists are a permutation of the SLA list. */
  lemma GroupingIsPermutation(tiers: map<Tier, seq<ApplicationSla>>, slas: seq<ApplicationSla>)
    requires IsGrouping(tiers, slas)
    ensures (if Critical in tiers then multiset(tiers[Critical]) else multiset{})
          + (if Flex in tiers then multiset(tiers[Flex]) else multiset{}) == multiset(slas)
  {
    TierSlasMultiset(slas, Critical);
    TierSlasMultiset(slas, Flex);
    var c := multiset(TierSlas(slas, Critical));
    var f := multiset(TierSlas(slas, Flex));
    forall s
      ensures (c + f)[s] == multiset(slas)[s]
    {
    }
    assert c + f == multiset(slas);
  }

  /** The scaled SLAs are exactly the Critical list of the full grouping. */
  lemma ScalableSlasAreCriticalGroup(tiers: map<Tier, seq<ApplicationSla>>, allSlas: seq<ApplicationSla>)
    requires IsGrouping(tiers, allSlas)
    ensures ScalableSlas(allSlas) == (if Critical in tiers then tiers[Critical] else [])
  {
  }

  /**
   * `buildInstanceTypeLimits`: pairs the configured minimum size of each instance type with
   * the allocated maximum at the same position. A `maxLimits` shorter than `instanceTypes`
   * makes the list lookup fail, which is `None` here.
   */
  method BuildInstanceTypeLimits(instanceTypes: seq<string>, maxLimits: seq<int>, minSizeOf: string -> int)
    returns (r: Option<seq<InstanceTypeLimit>>)
    ensures r.None? <==> |maxLimits| < |instanceTypes|
    ensures r.Some? ==> |r.value| == |instanceTypes|
    ensures r.Some? ==> forall i :: 0 <= i < |instanceTypes| ==>
              r.value[i] == InstanceTypeLimit(minSizeOf(instanceTypes[i]), maxLimits[i])
  {
    var limits: seq<InstanceTypeLimit> := [];
    var i := 0;
    while i < |instanceTypes|
      invariant 0 <= i <= |instanceTypes| && i <= |maxLimits| && |limits| == i
      invariant forall k :: 0 <= k < i ==> limits[k] == InstanceTypeLimit(minSizeOf(instanceTypes[k]), maxLimits[k])
    {
      var minSize := minSizeOf(instanceTypes[i]);
      if i >= |maxLimits| {
        return None;
      }
      limits := limits + [InstanceTypeLimit(minSize, maxLimits[i])];
      i := i + 1;
    }
    return Some(limits);
  }
}

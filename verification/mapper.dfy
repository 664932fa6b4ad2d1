/** Resolving fingerprint collisions: metrics whose raw fingerprint is taken are given one of a
    reserved range. */
module Mapper {
  import opened ByteStrings
  import opened Schema
  import opened MetricStrings
  import opened InvertedIndex

  /** The fingerprints up to this one are reserved for mapping. */
  const MAX_MAPPED: nat := 0x10_0000

  type Mappings = map<Fp, map<Bytes, Fp>>

  /** What a raw fingerprint and the string of a metric are mapped to. */
  function MappedTo(mappings: Mappings, raw: Fp, s: Bytes): Option<Fp> {
    if raw in mappings && s in mappings[raw] then Some(mappings[raw][s]) else None
  }

  ghost predicate IsMapped(mappings: Mappings, raw: Fp, m: Metric)
    requires CleanNames(m)
  {
    MappedTo(mappings, raw, UniqueString(m)).Some?
  }

  /** The fingerprint a metric belongs under: the one it is mapped to, or else its raw one when
      that is not reserved. */
  ghost function Home(mappings: Mappings, raw: Fp, m: Metric): Option<Fp>
    requires CleanNames(m)
  {
    if IsMapped(mappings, raw, m) then MappedTo(mappings, raw, UniqueString(m))
    else if raw > MAX_MAPPED then Some(raw)
    else None
  }

  /** Mapped fingerprints are taken from the reserved range, each once. */
  ghost predicate Injective(mappings: Mappings, highest: nat) {
    && (forall r, s :: MappedTo(mappings, r, s).Some? ==> 1 <= MappedTo(mappings, r, s).value <= highest)
    && (forall r, s, r', s' :: MappedTo(mappings, r, s).Some? && MappedTo(mappings, r, s) == MappedTo(mappings, r', s') ==> r == r' && s == s')
  }

  /** Two metrics that the mapper cannot tell apart. */
  ghost predicate Twins(raw: Metric -> Fp, a: Metric, b: Metric) {
    CleanNames(a) && CleanNames(b) && raw(a) == raw(b) && UniqueString(a) == UniqueString(b)
  }

  /** Without the separator in their values they are one metric. */
  lemma CleanTwins(raw: Metric -> Fp, a: Metric, b: Metric)
    requires Twins(raw, a, b) && Clean(a) && Clean(b)
    ensures a == b
  {
    UniqueStringInjective(a, b);
  }

  /** Where a metric may be in memory: under the fingerprint it is mapped to, or under its raw one,
      even if a twin has come to be mapped since. */
  ghost predicate MayBeAt(mappings: Mappings, raw: Fp, m: Metric, fp: Fp) {
    CleanNames(m) && (MappedTo(mappings, raw, UniqueString(m)) == Some(fp) || (fp == raw && raw > MAX_MAPPED))
  }

  /** Every series in memory is where its metric may be, and no metric is there twice. */
  ghost predicate InPlace(mappings: Mappings, raw: Metric -> Fp, live: Live) {
    && (forall fp :: fp in live ==> MayBeAt(mappings, raw(live[fp]), live[fp], fp))
    && (forall f, g :: f in live && g in live && live[f] == live[g] ==> f == g)
  }

  /** What holds as long as no value contains the separator: every series in memory is under the
      fingerprint its metric belongs under. */
  ghost predicate AtHome(mappings: Mappings, raw: Metric -> Fp, live: Live) {
    forall fp :: fp in live ==> Clean(live[fp]) && Home(mappings, raw(live[fp]), live[fp]) == Some(fp)
  }

  ghost predicate Resolved(mappings: Mappings, highest: nat, raw: Metric -> Fp, live: Live) {
    highest <= MAX_MAPPED && Injective(mappings, highest) && InPlace(mappings, raw, live)
  }

  ghost predicate InMemory(live: Live, m: Metric) {
    exists f :: f in live && live[f] == m
  }

  /** The metric is not in memory, and a twin of it is, under the fingerprint it is mapped to. */
  ghost predicate Borrows(mappings: Mappings, raw: Fp, live: Live, m: Metric)
    requires CleanNames(m)
  {
    !InMemory(live, m) && IsMapped(mappings, raw, m) && MappedTo(mappings, raw, UniqueString(m)).value in live
  }

  /** Series come and go without moving the others. */
  lemma PlacesChange(mappings: Mappings, raw: Metric -> Fp, live: Live, fp: Fp, m: Metric)
    requires InPlace(mappings, raw, live)
    ensures InPlace(mappings, raw, live - {fp})
    ensures MayBeAt(mappings, raw(m), m, fp) && !InMemory(live, m) ==> InPlace(mappings, raw, live[fp := m])
  {
    if MayBeAt(mappings, raw(m), m, fp) && !InMemory(live, m) {
      assert forall f :: f in live ==> live[f] != m;
    }
  }

  lemma HomesChange(mappings: Mappings, raw: Metric -> Fp, live: Live, fp: Fp, m: Metric)
    ensures AtHome(mappings, raw, live) ==> AtHome(mappings, raw, live - {fp})
    ensures AtHome(mappings, raw, live) && Clean(m) && Home(mappings, raw(m), m) == Some(fp) ==> AtHome(mappings, raw, live[fp := m])
  {
  }

  /** A mapped metric shares its fingerprint in memory with a twin at most. */
  lemma MappedIsAlone(mappings: Mappings, highest: nat, raw: Metric -> Fp, live: Live, m: Metric)
    requires Resolved(mappings, highest, raw, live) && CleanNames(m) && IsMapped(mappings, raw(m), m)
    ensures var fp := MappedTo(mappings, raw(m), UniqueString(m)).value;
            && 1 <= fp <= MAX_MAPPED && (fp in live ==> Twins(raw, live[fp], m))
            && (fp in live && Clean(m) && Clean(live[fp]) ==> live[fp] == m)
  {
    var fp := MappedTo(mappings, raw(m), UniqueString(m)).value;
    if fp in live {
      var other := live[fp];
      assert MayBeAt(mappings, raw(other), other, fp);
      assert Twins(raw, other, m);
      if Clean(m) && Clean(other) {
        CleanTwins(raw, other, m);
      }
    }
  }

  /** The mappings with one more for a raw fingerprint, which may be its first. */
  function Added(mappings: Mappings, r: Fp, s: Bytes, fp: Fp): Mappings {
    var known: map<Bytes, Fp> := if r in mappings then mappings[r] else map[];
    mappings[r := known[s := fp]]
  }

  lemma AddedIsInjective(mappings: Mappings, highest: nat, r: Fp, s: Bytes)
    requires Injective(mappings, highest) && MappedTo(mappings, r, s).None?
    ensures Injective(Added(mappings, r, s, highest + 1), highest + 1)
  {
    AddedLookup(mappings, r, s, highest + 1);
  }

  lemma AddedLookup(mappings: Mappings, r: Fp, s: Bytes, fp: Fp)
    ensures forall r', s' :: MappedTo(Added(mappings, r, s, fp), r', s') ==
              if r' == r && s' == s then Some(fp) else MappedTo(mappings, r', s')
  {
  }

  /** A new mapping moves no series in memory. */
  lemma AddedKeepsPlaces(mappings: Mappings, raw: Metric -> Fp, live: Live, r: Fp, s: Bytes, fp: Fp)
    requires InPlace(mappings, raw, live) && MappedTo(mappings, r, s).None?
    ensures InPlace(Added(mappings, r, s, fp), raw, live)
  {
    AddedLookup(mappings, r, s, fp);
    forall f | f in live ensures MayBeAt(Added(mappings, r, s, fp), raw(live[f]), live[f], f) {
      assert MayBeAt(mappings, raw(live[f]), live[f], f);
    }
  }

  lemma AddedKeepsHomes(mappings: Mappings, raw: Metric -> Fp, live: Live, m: Metric, fp: Fp)
    requires AtHome(mappings, raw, live) && Clean(m) && !InMemory(live, m)
    ensures AtHome(Added(mappings, raw(m), UniqueString(m), fp), raw, live)
  {
    AddedLookup(mappings, raw(m), UniqueString(m), fp);
    forall f | f in live ensures Home(Added(mappings, raw(m), UniqueString(m), fp), raw(live[f]), live[f]) == Some(f) {
      var other := live[f];
      if raw(other) == raw(m) && UniqueString(other) == UniqueString(m) {
        UniqueStringInjective(m, other);
      }
      assert IsMapped(Added(mappings, raw(m), UniqueString(m), fp), raw(other), other) <==> IsMapped(mappings, raw(other), other);
    }
  }

  lemma NextIsFree(mappings: Mappings, highest: nat, raw: Metric -> Fp, live: Live)
    requires Resolved(mappings, highest, raw, live) && highest < MAX_MAPPED
    ensures highest + 1 !in live
  {
    forall f | f in live ensures f != highest + 1 {
      assert MayBeAt(mappings, raw(live[f]), live[f], f);
    }
  }

  /** What a new mapping leaves: it moves no series and is shared by none. */
  lemma NewMapping(mappings: Mappings, highest: nat, raw: Metric -> Fp, live: Live, m: Metric)
    requires Resolved(mappings, highest, raw, live) && highest < MAX_MAPPED
    requires CleanNames(m) && !IsMapped(mappings, raw(m), m)
    ensures var after := Added(mappings, raw(m), UniqueString(m), highest + 1);
            && Resolved(after, highest + 1, raw, live)
            && MappedTo(after, raw(m), UniqueString(m)) == Some(highest + 1) && highest + 1 !in live
            && (Clean(m) && !InMemory(live, m) && AtHome(mappings, raw, live) ==> AtHome(after, raw, live))
  {
    var r, s := raw(m), UniqueString(m);
    AddedLookup(mappings, r, s, highest + 1);
    AddedIsInjective(mappings, highest, r, s);
    AddedKeepsPlaces(mappings, raw, live, r, s, highest + 1);
    NextIsFree(mappings, highest, raw, live);
    if Clean(m) && !InMemory(live, m) && AtHome(mappings, raw, live) {
      AddedKeepsHomes(mappings, raw, live, m, highest + 1);
    }
  }

  /** A metric in memory is where its raw fingerprint or its mapping says. */
  lemma WhereItIs(mappings: Mappings, raw: Metric -> Fp, live: Live, m: Metric, f: Fp)
    requires InPlace(mappings, raw, live) && f in live && live[f] == m
    ensures MayBeAt(mappings, raw(m), m, f)
    ensures forall g :: g in live && live[g] == m ==> g == f
  {
  }

  /** The fingerprint that mapFP gives for a metric: its raw one if the metric is there, and else
      the one it belongs under once it has the mapping it needs. */
  ghost predicate Given(mappings: Mappings, raw: Metric -> Fp, live: Live, m: Metric, fp: Fp)
    requires CleanNames(m)
  {
    var r := raw(m);
    if r > MAX_MAPPED && r in live && live[r] == m then fp == r else Home(mappings, r, m) == Some(fp)
  }

  /** So a metric in memory is given the fingerprint it is under, and one that is not a fingerprint
      that is free or a twin's. */
  lemma GivenIsRight(mappings: Mappings, highest: nat, raw: Metric -> Fp, live: Live, m: Metric, fp: Fp)
    requires Resolved(mappings, highest, raw, live) && CleanNames(m) && Given(mappings, raw, live, m, fp)
    requires !IsMapped(mappings, raw(m), m) ==> raw(m) !in live || live[raw(m)] == m
    ensures MayBeAt(mappings, raw(m), m, fp)
    ensures fp in live ==> Twins(raw, live[fp], m) && (Clean(m) && Clean(live[fp]) ==> live[fp] == m)
    ensures forall f :: f in live && live[f] == m ==> fp == f
    ensures fp in live && live[fp] != m <==> Borrows(mappings, raw(m), live, m)
  {
    if IsMapped(mappings, raw(m), m) {
      MappedIsAlone(mappings, highest, raw, live, m);
    }
    if f :| f in live && live[f] == m {
      WhereItIs(mappings, raw, live, m, f);
    }
  }

  class FpMapper {
    var mappings: Mappings
    var highestMappedFP: nat

    ghost predicate Valid(raw: Metric -> Fp, live: Live)
      reads this
    {
      Resolved(mappings, highestMappedFP, raw, live)
    }

    /** The raw fingerprint is reserved, or taken by another metric, and there is no mapping yet. */
    ghost predicate NeedsMapping(fp: Fp, metric: Metric, live: Live)
      requires CleanNames(metric)
      reads this
    {
      !IsMapped(mappings, fp, metric) && (fp <= MAX_MAPPED || (fp in live && live[fp] != metric))
    }

    constructor ()
      ensures forall raw :: Valid(raw, map[])
      ensures mappings == map[] && highestMappedFP == 0
    {
      mappings, highestMappedFP := map[], 0;
    }

    /** nextMappedFP; None when the range is used up, which panics. */
    method NextMappedFP() returns (r: Option<Fp>)
      modifies this`highestMappedFP
      ensures highestMappedFP == old(highestMappedFP) + 1
      ensures r == if highestMappedFP > 1_048_576 then None else Some(highestMappedFP)
    {
      highestMappedFP := highestMappedFP + 1;
      if highestMappedFP > MAX_MAPPED {
        return None;
      }
      r := Some(highestMappedFP);
    }

    /** maybeAddMapping. */
    method MaybeAddMapping(fp: Fp, metric: Metric, ghost raw: Metric -> Fp, ghost live: Live) returns (r: Option<Fp>)
      requires CleanNames(metric) && fp == raw(metric) && Valid(raw, live)
      modifies this
      ensures r.None? <==> !old(IsMapped(mappings, fp, metric)) && old(highestMappedFP) == MAX_MAPPED
      ensures r.Some? ==> Valid(raw, live) && MappedTo(mappings, fp, UniqueString(metric)) == r && 1 <= r.value <= MAX_MAPPED
      ensures r.Some? && r.value in live ==> Twins(raw, live[r.value], metric) && old(IsMapped(mappings, fp, metric))
      ensures r.Some? && r.value in live && Clean(metric) && Clean(live[r.value]) ==> live[r.value] == metric
      ensures mappings == if r.None? || old(IsMapped(mappings, fp, metric)) then old(mappings)
                          else Added(old(mappings), fp, UniqueString(metric), old(highestMappedFP) + 1)
      ensures highestMappedFP == old(highestMappedFP) + if old(IsMapped(mappings, fp, metric)) then 0 else 1
      ensures r.Some? && Clean(metric) && !InMemory(live, metric) && old(AtHome(mappings, raw, live)) ==> AtHome(mappings, raw, live)
    {
      var ms := MetricToUniqueString(metric);
      if fp in mappings && ms in mappings[fp] {
        MappedIsAlone(mappings, highestMappedFP, raw, live, metric);
        return Some(mappings[fp][ms]);
      }
      r := AddMapping(fp, metric, ms, raw, live);
    }

    /** The rest of maybeAddMapping, for a metric that has no mapping. */
    method AddMapping(fp: Fp, metric: Metric, ms: Bytes, ghost raw: Metric -> Fp, ghost live: Live) returns (r: Option<Fp>)
      requires CleanNames(metric) && fp == raw(metric) && ms == UniqueString(metric) && Valid(raw, live)
      requires !IsMapped(mappings, fp, metric)
      modifies this
      ensures r == if old(highestMappedFP) < MAX_MAPPED then Some(old(highestMappedFP) + 1) else None
      ensures mappings == if r.Some? then Added(old(mappings), fp, ms, r.value) else old(mappings)
      ensures highestMappedFP == old(highestMappedFP) + 1
      ensures r.Some? ==> Valid(raw, live) && MappedTo(mappings, fp, ms) == r && r.value !in live
      ensures r.Some? && Clean(metric) && !InMemory(live, metric) && old(AtHome(mappings, raw, live)) ==> AtHome(mappings, raw, live)
    {
      if highestMappedFP < MAX_MAPPED {
        NewMapping(mappings, highestMappedFP, raw, live, metric);
      }
      r := NextMappedFP();
      if r.Some? {
        mappings := Added(mappings, fp, ms, r.value);
      }
    }

    /** mapFP: the fingerprint a metric is given; None when a mapping is needed and the reserved
        range is used up. A metric in memory is given its own fingerprint. One that is not is given
        a fingerprint that is not in memory, unless it is mapped to one under which a twin is; so
        without the separator in values no metric gets the fingerprint of another. Mappings are
        never taken back, and one is added only when it is needed. */
    method MapFP(fp: Fp, metric: Metric, ghost raw: Metric -> Fp, live: Live) returns (r: Option<Fp>)
      requires CleanNames(metric) && fp == raw(metric) && Valid(raw, live)
      modifies this
      ensures r.None? <==> old(NeedsMapping(fp, metric, live)) && old(highestMappedFP) == MAX_MAPPED
      ensures r.Some? ==> Valid(raw, live) && MayBeAt(mappings, fp, metric, r.value) && Given(mappings, raw, live, metric, r.value)
      ensures r.Some? && r.value in live ==> Twins(raw, live[r.value], metric)
      ensures r.Some? && r.value in live && Clean(metric) && Clean(live[r.value]) ==> live[r.value] == metric
      ensures r.Some? ==> forall f :: f in live && live[f] == metric ==> r.value == f
      ensures r.Some? && r.value in live && live[r.value] != metric <==> old(Borrows(mappings, fp, live, metric))
      ensures highestMappedFP == old(highestMappedFP) + if old(NeedsMapping(fp, metric, live)) then 1 else 0
      ensures mappings == if r.Some? && old(NeedsMapping(fp, metric, live))
                          then Added(old(mappings), fp, UniqueString(metric), old(highestMappedFP) + 1) else old(mappings)
      ensures r.Some? && Clean(metric) && old(AtHome(mappings, raw, live)) ==>
                AtHome(mappings, raw, live) && Home(mappings, fp, metric) == r
    {
      r := ChooseFP(fp, metric, raw, live);
      if r.Some? {
        GivenIsRight(mappings, highestMappedFP, raw, live, metric, r.value);
      }
    }

    /** The branches of mapFP. */
    method ChooseFP(fp: Fp, metric: Metric, ghost raw: Metric -> Fp, live: Live) returns (r: Option<Fp>)
      requires CleanNames(metric) && fp == raw(metric) && Valid(raw, live)
      modifies this
      ensures r.None? <==> old(NeedsMapping(fp, metric, live)) && old(highestMappedFP) == MAX_MAPPED
      ensures r.Some? ==> Valid(raw, live) && Given(mappings, raw, live, metric, r.value)
      ensures highestMappedFP == old(highestMappedFP) + if old(NeedsMapping(fp, metric, live)) then 1 else 0
      ensures mappings == if r.Some? && old(NeedsMapping(fp, metric, live))
                          then Added(old(mappings), fp, UniqueString(metric), old(highestMappedFP) + 1) else old(mappings)
      ensures r.Some? && Clean(metric) && old(AtHome(mappings, raw, live)) ==>
                AtHome(mappings, raw, live) && Home(mappings, fp, metric) == r
    {
      if fp <= MAX_MAPPED {
        r := MaybeAddMapping(fp, metric, raw, live);
        return;
      }
      if fp in live {
        if metric == live[fp] {
          return Some(fp);
        }
        r := MaybeAddMapping(fp, metric, raw, live);
        return;
      }
      if fp in mappings {
        var ms := MetricToUniqueString(metric);
        if ms in mappings[fp] {
          return Some(mappings[fp][ms]);
        }
      }
      r := Some(fp);
    }
  }
}

/** Which schema version is in force when: the composite schema made from the start dates of a
    configuration. */
module Composite {
  import opened ByteStrings
  import opened Schema

  /** The order in which the versions came. */
  function Rank(v: Version): nat {
    match v
    case V1 => 1
    case V2 => 2
    case V3 => 3
    case V4 => 4
    case V5 => 5
    case V6 => 6
  }

  /** The start date of every version that has one. */
  datatype Dates = Dates(v2: Option<int>, v3: Option<int>, v4: Option<int>, v5: Option<int>, v6: Option<int>) {
    function Of(v: Version): Option<int> {
      match v
      case V1 => Some(0)
      case V2 => v2
      case V3 => v3
      case V4 => v4
      case V5 => v5
      case V6 => v6
    }

    function Schemas(): Option<seq<SchemaEntry>> {
      NewComposite(v2, v3, v4, v5, v6)
    }

    /** No version starts before one that came earlier. */
    ghost predicate InOrder() {
      forall u, v :: Rank(u) < Rank(v) && Of(u).Some? && Of(v).Some? ==> Of(u).value <= Of(v).value
    }

    ghost predicate HasCome(v: Version, t: int) {
      Of(v).Some? && Of(v).value <= t
    }
  }

  /** The entries are those of the dated versions up to a rank, in the order of the versions. */
  ghost predicate Lists(dates: Dates, schemas: seq<SchemaEntry>, top: nat) {
    && (forall e :: e in schemas <==> Rank(e.version) <= top && dates.Of(e.version) == Some(e.start))
    && (forall i, j :: 0 <= i < j < |schemas| ==> Rank(schemas[i].version) < Rank(schemas[j].version))
  }

  lemma OneMoreVersion(dates: Dates, schemas: seq<SchemaEntry>, v: Version)
    requires Lists(dates, schemas, Rank(v) - 1)
    ensures Lists(dates, schemas + Enabled(dates.Of(v), v), Rank(v))
  {
    var more := schemas + Enabled(dates.Of(v), v);
    forall e ensures e in more <==> Rank(e.version) <= Rank(v) && dates.Of(e.version) == Some(e.start) {
      assert Rank(e.version) == Rank(v) ==> e.version == v;
    }
    assert forall k :: 0 <= k < |schemas| ==> schemas[k] in schemas;
  }

  lemma AllVersions(dates: Dates) returns (schemas: seq<SchemaEntry>)
    ensures Lists(dates, schemas, 6)
    ensures dates.Schemas() == if AdjacentSorted(schemas) then Some(schemas) else None
  {
    schemas := [SchemaEntry(0, V1)];
    assert Lists(dates, schemas, 1);
    OneMoreVersion(dates, schemas, V2);
    schemas := schemas + Enabled(dates.v2, V2);
    OneMoreVersion(dates, schemas, V3);
    schemas := schemas + Enabled(dates.v3, V3);
    OneMoreVersion(dates, schemas, V4);
    schemas := schemas + Enabled(dates.v4, V4);
    OneMoreVersion(dates, schemas, V5);
    schemas := schemas + Enabled(dates.v5, V5);
    OneMoreVersion(dates, schemas, V6);
    schemas := schemas + Enabled(dates.v6, V6);
  }

  lemma EntryOf(dates: Dates, schemas: seq<SchemaEntry>, v: Version) returns (k: nat)
    requires Lists(dates, schemas, 6) && dates.Of(v).Some?
    ensures k < |schemas| && schemas[k] == SchemaEntry(dates.Of(v).value, v)
  {
    assert SchemaEntry(dates.Of(v).value, v) in schemas;
    k :| k < |schemas| && schemas[k] == SchemaEntry(dates.Of(v).value, v);
  }

  /** There is a composite schema exactly when the dates are in the order of the versions. */
  lemma CompositeIff(dates: Dates)
    ensures dates.Schemas().Some? <==> dates.InOrder()
  {
    var schemas := AllVersions(dates);
    if AdjacentSorted(schemas) {
      AdjacentSortedIsSorted(schemas);
      forall u, v | Rank(u) < Rank(v) && dates.Of(u).Some? && dates.Of(v).Some?
        ensures dates.Of(u).value <= dates.Of(v).value
      {
        var i := EntryOf(dates, schemas, u);
        var j := EntryOf(dates, schemas, v);
        assert Rank(schemas[i].version) < Rank(schemas[j].version);
      }
    }
    if dates.InOrder() {
      forall i | 0 < i < |schemas| ensures schemas[i - 1].start <= schemas[i].start {
        assert schemas[i - 1] in schemas && schemas[i] in schemas;
      }
    }
  }

  /** Under a composite schema the version in force is the latest one whose date has come. */
  lemma LatestIsInForce(dates: Dates, t: int)
    requires dates.Schemas().Some? && 0 <= t
    ensures var v := VersionAt(dates.Schemas().value, t);
            dates.HasCome(v, t) && forall w :: dates.HasCome(w, t) ==> Rank(w) <= Rank(v)
  {
    var schemas := AllVersions(dates);
    var n := Started(schemas, t);
    assert schemas[n - 1] in schemas;
    forall w | dates.HasCome(w, t) ensures Rank(w) <= Rank(schemas[n - 1].version) {
      var k := EntryOf(dates, schemas, w);
      assert schemas[k].start <= t;
    }
  }
}

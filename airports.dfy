/**
 * The static airport catalogue and the enumeration of the routes to query
 * (utils.py): a fixed origin group, a fixed destination group, and every
 * origin-destination pair, origins-major.
 */
module Airports {

  type Code = string

  /** A route to query: (origin, destination). */
  type Route = (Code, Code)

  datatype AirportInfo = AirportInfo(name: string, city: string)

  /** Display name and city of each known airport. */
  const AIRPORTS: map<Code, AirportInfo> := map[
    "ORD" := AirportInfo("Chicago O'Hare International Airport", "Chicago"),
    "MDW" := AirportInfo("Chicago Midway International Airport", "Chicago"),
    "JFK" := AirportInfo("John F. Kennedy International Airport", "New York"),
    "EWR" := AirportInfo("Newark Liberty International Airport", "Newark"),
    "ISP" := AirportInfo("Long Island MacArthur Airport", "Islip")
  ]

  const ORIGIN_AIRPORTS: seq<Code> := ["ORD", "MDW"]
  const DESTINATION_AIRPORTS: seq<Code> := ["JFK", "EWR", "ISP"]

  predicate Distinct<T(==)>(s: seq<T>) {
    forall i, j :: 0 <= i < j < |s| ==> s[i] != s[j]
  }

  /** The pairs (o, d) for every d of `ds`, in the order of `ds`. */
  function PairsFrom(o: Code, ds: seq<Code>): (r: seq<Route>)
    ensures |r| == |ds|
    ensures forall j :: 0 <= j < |ds| ==> r[j] == (o, ds[j])
  {
    seq(|ds|, j requires 0 <= j < |ds| => (o, ds[j]))
  }

  /** The cartesian product of `os` and `ds`, outer loop over `os`. */
  function Cartesian(os: seq<Code>, ds: seq<Code>): seq<Route>
  {
    if os == [] then [] else Cartesian(os[..|os| - 1], ds) + PairsFrom(os[|os| - 1], ds)
  }

  /** There are exactly |os| * |ds| pairs. */
  lemma {:induction false} CartesianLength(os: seq<Code>, ds: seq<Code>)
    ensures |Cartesian(os, ds)| == |os| * |ds|
  {
    if os != [] {
      CartesianLength(os[..|os| - 1], ds);
      assert |os| * |ds| == (|os| - 1) * |ds| + |ds|;
    }
  }

  /** Origins-major order: pair number i * |ds| + j is (os[i], ds[j]). */
  lemma {:induction false} CartesianAt(os: seq<Code>, ds: seq<Code>, i: nat, j: nat)
    requires i < |os| && j < |ds|
    ensures i * |ds| + j < |Cartesian(os, ds)|
    ensures Cartesian(os, ds)[i * |ds| + j] == (os[i], ds[j])
  {
    var init := os[..|os| - 1];
    CartesianLength(init, ds);
    if i == |os| - 1 {
      assert i * |ds| == |init| * |ds|;
    } else {
      CartesianAt(init, ds, i, j);
      assert (i + 1) * |ds| <= |init| * |ds| by {
        MulMonotone(i + 1, |init|, |ds|);
      }
    }
  }

  lemma MulMonotone(a: nat, b: nat, c: nat)
    requires a <= b
    ensures a * c <= b * c
  {
  }

  /** A pair occurs iff its origin is one of `os` and its destination one of `ds`. */
  lemma {:induction false} CartesianMembers(os: seq<Code>, ds: seq<Code>, p: Route)
    ensures p in Cartesian(os, ds) <==> p.0 in os && p.1 in ds
  {
    if os != [] {
      var init, last := os[..|os| - 1], os[|os| - 1];
      CartesianMembers(init, ds, p);
      assert os == init + [last];
      assert p in PairsFrom(last, ds) <==> p.0 == last && p.1 in ds by {
        if p.0 == last && p.1 in ds {
          var j :| 0 <= j < |ds| && ds[j] == p.1;
          assert PairsFrom(last, ds)[j] == p;
        }
      }
    }
  }

  /** Distinct groups give distinct pairs. */
  lemma {:induction false} CartesianDistinct(os: seq<Code>, ds: seq<Code>)
    requires Distinct(os) && Distinct(ds)
    ensures Distinct(Cartesian(os, ds))
  {
    if os != [] {
      var init, last := os[..|os| - 1], os[|os| - 1];
      CartesianDistinct(init, ds);
      var a, b := Cartesian(init, ds), PairsFrom(last, ds);
      forall p | p in a ensures p !in b {
        CartesianMembers(init, ds, p);
        assert last !in init;
      }
      var c := a + b;
      forall i, j | 0 <= i < j < |c| ensures c[i] != c[j] {
        if j < |a| {
        } else if i >= |a| {
        } else {
          assert c[i] in a && c[j] in b;
        }
      }
    }
  }

  /** The origin group and the destination group share no airport. */
  predicate Disjoint(os: seq<Code>, ds: seq<Code>) {
    forall k :: 0 <= k < |os| ==> os[k] !in ds
  }

  /** No route of disjoint groups starts where it ends. */
  lemma CartesianNoLoop(os: seq<Code>, ds: seq<Code>, p: Route)
    requires Disjoint(os, ds)
    requires p in Cartesian(os, ds)
    ensures p.0 != p.1
  {
    CartesianMembers(os, ds, p);
  }

  /**
   * get_airport_pairs: the nested loop over the configured groups. The result
   * is their cartesian product: six distinct routes, none from an airport to
   * itself, and every code has an entry in the catalogue.
   */
  method GetAirportPairs() returns (pairs: seq<Route>)
    ensures pairs == Cartesian(ORIGIN_AIRPORTS, DESTINATION_AIRPORTS)
    ensures |pairs| == |ORIGIN_AIRPORTS| * |DESTINATION_AIRPORTS| == 6
    ensures Distinct(pairs)
    ensures forall p :: p in pairs ==> p.0 in ORIGIN_AIRPORTS && p.1 in DESTINATION_AIRPORTS
    ensures forall p :: p in pairs ==> p.0 != p.1 && p.0 in AIRPORTS && p.1 in AIRPORTS
  {
    var os, ds := ORIGIN_AIRPORTS, DESTINATION_AIRPORTS;
    pairs := [];
    for i := 0 to |os|
      invariant pairs == Cartesian(os[..i], ds)
    {
      ghost var before := pairs;
      for j := 0 to |ds|
        invariant pairs == before + PairsFrom(os[i], ds[..j])
      {
        assert PairsFrom(os[i], ds[..j + 1]) == PairsFrom(os[i], ds[..j]) + [(os[i], ds[j])];
        pairs := pairs + [(os[i], ds[j])];
      }
      assert os[..i + 1][..i] == os[..i];
      assert ds[..|ds|] == ds;
    }
    assert os[..|os|] == os;
    CartesianLength(os, ds);
    CartesianDistinct(os, ds);
    assert Disjoint(os, ds);
    forall p | p in pairs
      ensures p.0 in os && p.1 in ds && p.0 != p.1 && p.0 in AIRPORTS && p.1 in AIRPORTS
    {
      CartesianMembers(os, ds, p);
      CartesianNoLoop(os, ds, p);
    }
  }
}

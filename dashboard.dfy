/**
 * The dashboard's vehicle search: given the text typed into the search bar
 * and the list of vehicles, keep, in their original order, the vehicles
 * whose number plate, status or speed/time text contains the query,
 * ignoring case.  The list is a parameter here; the screen obtains it from
 * a mock data source and hands the result to the list view.
 */
module Dashboard {
  import opened Vehicles
  import opened TextMatch
  import opened ListFilter

  /** The search predicate: the query occurs, ignoring case, in at least one
      of the three text fields.  The colour is never read. */
  predicate Matches(v: Vehicle, query: string)
    ensures query == "" ==> Matches(v, query)
    ensures Matches(v, query) ==>
              |query| <= |v.vehicleNumber| || |query| <= |v.status| || |query| <= |v.speedOrTime|
  {
    || ContainsIgnoreCase(v.vehicleNumber, query)
    || ContainsIgnoreCase(v.status, query)
    || ContainsIgnoreCase(v.speedOrTime, query)
  }

  /** The predicate handed to the list filter for one query. */
  function MatchesQuery(query: string): Vehicle -> bool
  {
    v => Matches(v, query)
  }

  /** The vehicles that match the query, in input order: every vehicle of
      the result is an input vehicle that matches, and every input vehicle
      that matches is in the result. */
  function FilterVehicleList(vehicles: seq<Vehicle>, query: string): (r: seq<Vehicle>)
    ensures |r| <= |vehicles|
    ensures forall v :: v in r ==> v in vehicles && Matches(v, query)
    ensures forall v :: v in vehicles && Matches(v, query) ==> v in r
  {
    FilterMembership(vehicles, MatchesQuery(query));
    Filter(vehicles, MatchesQuery(query))
  }

  /** The search result is exactly the matching vehicles of the input, as an
      order-preserving subsequence: a list is the result precisely when some
      increasing run of positions picks it out of the input and those
      positions are exactly the positions of the matching vehicles. */
  lemma SearchIsOrderedSelection(vehicles: seq<Vehicle>, query: string, r: seq<Vehicle>)
    ensures r == FilterVehicleList(vehicles, query)
        <==> exists indices :: Selects(vehicles, MatchesQuery(query), r, indices)
  {
    FilterIsTheSelection(vehicles, MatchesQuery(query), r);
  }

  /** The result is made of the vehicles the search was given, at strictly
      increasing positions of the input. */
  lemma SearchIsSubsequence(vehicles: seq<Vehicle>, query: string)
    ensures var r := FilterVehicleList(vehicles, query);
            var indices := KeptPositions(vehicles, MatchesQuery(query), 0);
            && |r| == |indices| <= |vehicles|
            && (forall k :: 0 <= k < |r| ==> 0 <= indices[k] < |vehicles| && r[k] == vehicles[indices[k]])
            && (forall j, k :: 0 <= j < k < |indices| ==> indices[j] < indices[k])
  {
    FilterSelects(vehicles, MatchesQuery(query));
  }

  /** An empty search keeps every vehicle, in the original order: every
      string contains the empty query. */
  lemma EmptyQueryKeepsAll(vehicles: seq<Vehicle>)
    ensures FilterVehicleList(vehicles, "") == vehicles
  {
    forall v | v in vehicles
      ensures MatchesQuery("")(v)
    {
      ContainsEmptyQuery(v.vehicleNumber);
    }
    FilterAllKept(vehicles, MatchesQuery(""));
  }

  /** Searching the result again with the same query changes nothing. */
  lemma SearchIdempotent(vehicles: seq<Vehicle>, query: string)
    ensures FilterVehicleList(FilterVehicleList(vehicles, query), query) == FilterVehicleList(vehicles, query)
  {
    FilterIdempotent(vehicles, MatchesQuery(query));
  }

  /** The result is empty exactly when no vehicle matches the query. */
  lemma EmptyResultIffNoMatch(vehicles: seq<Vehicle>, query: string)
    ensures FilterVehicleList(vehicles, query) == []
        <==> forall v :: v in vehicles ==> !Matches(v, query)
  {
    EmptyIffNoneKept(vehicles, MatchesQuery(query));
  }

  /** A vehicle's colour never decides whether it is kept. */
  lemma MatchesIgnoresColor(v: Vehicle, w: Vehicle, query: string)
    requires SameText(v, w)
    ensures Matches(v, query) <==> Matches(w, query)
  {
  }

  /** Two lists that differ only in colours keep the same positions, so their
      results differ only in colours. */
  lemma SearchIgnoresColor(vs: seq<Vehicle>, ws: seq<Vehicle>, query: string)
    requires |vs| == |ws|
    requires forall i :: 0 <= i < |vs| ==> SameText(vs[i], ws[i])
    ensures KeptPositions(vs, MatchesQuery(query), 0) == KeptPositions(ws, MatchesQuery(query), 0)
    ensures |FilterVehicleList(vs, query)| == |FilterVehicleList(ws, query)|
    ensures forall k :: 0 <= k < |FilterVehicleList(vs, query)| ==>
              SameText(FilterVehicleList(vs, query)[k], FilterVehicleList(ws, query)[k])
  {
    var keep := MatchesQuery(query);
    forall i | 0 <= i < |vs|
      ensures keep(vs[i]) <==> keep(ws[i])
    {
      MatchesIgnoresColor(vs[i], ws[i], query);
    }
    SameVerdictsSamePositions(vs, ws, keep, 0);
    FilterSelects(vs, keep);
    FilterSelects(ws, keep);
  }

  /** Giving the vehicles new badge colours, one per vehicle, keeps the
      same positions in the result. */
  lemma SearchIgnoresRecolor(vs: seq<Vehicle>, colors: seq<Color>, query: string)
    requires |colors| == |vs|
    ensures var ws := seq(|vs|, i requires 0 <= i < |vs| => vs[i].(statusColor := colors[i]));
            KeptPositions(vs, MatchesQuery(query), 0) == KeptPositions(ws, MatchesQuery(query), 0)
  {
    var ws := seq(|vs|, i requires 0 <= i < |vs| => vs[i].(statusColor := colors[i]));
    forall i | 0 <= i < |vs|
      ensures SameText(vs[i], ws[i])
    {
      RecolorKeepsText(vs[i], colors[i]);
    }
    SearchIgnoresColor(vs, ws, query);
  }

  /** Case does not matter in the query: two queries equal ignoring case
      select the same vehicles. */
  lemma SearchIgnoresQueryCase(vehicles: seq<Vehicle>, q1: string, q2: string)
    requires EqualsIgnoreCase(q1, q2)
    ensures FilterVehicleList(vehicles, q1) == FilterVehicleList(vehicles, q2)
  {
    forall v | v in vehicles
      ensures MatchesQuery(q1)(v) <==> MatchesQuery(q2)(v)
    {
      ContainsRespectsQueryCase(v.vehicleNumber, q1, q2);
      ContainsRespectsQueryCase(v.status, q1, q2);
      ContainsRespectsQueryCase(v.speedOrTime, q1, q2);
    }
    FilterAgreeing(vehicles, MatchesQuery(q1), MatchesQuery(q2));
  }

  /** Searching for "RUN" and for "run" gives the same list. */
  lemma UpperAndLowerQuerySame(vehicles: seq<Vehicle>)
    ensures FilterVehicleList(vehicles, "RUN") == FilterVehicleList(vehicles, "run")
  {
    SearchIgnoresQueryCase(vehicles, "RUN", "run");
  }

  /** A worked example: of a running and an idle vehicle, "run" keeps only
      the running one. */
  lemma RunningExample(running: Vehicle, idle: Vehicle)
    requires running == Vehicle("KA01", "Running", "45 km/h", running.statusColor)
    requires idle == Vehicle("KA02", "Idle", "2 min ago", idle.statusColor)
    ensures FilterVehicleList([running, idle], "run") == [running]
  {
    RunningMatches(running.status);
    IdleDoesNotMatch(idle);
    var keep := MatchesQuery("run");
    assert keep(running) && !keep(idle);
    assert [running, idle] == [running] + [idle];
    FilterAppend([running], [idle], keep);
    FilterAllKept([running], keep);
    EmptyIffNoneKept([idle], keep);
  }

  /** The status "Running" contains "run" ignoring case. */
  lemma RunningMatches(status: string)
    requires status == "Running"
    ensures ContainsIgnoreCase(status, "run")
  {
  }

  /** The idle vehicle has "run" in none of its fields. */
  lemma IdleDoesNotMatch(idle: Vehicle)
    requires idle == Vehicle("KA02", "Idle", "2 min ago", idle.statusColor)
    ensures !Matches(idle, "run")
  {
    NoLetterR(idle.vehicleNumber);
    NoLetterR(idle.status);
    NoLetterR(idle.speedOrTime);
  }

  /** None of the idle vehicle's texts has an 'r' in either case. */
  lemma NoLetterR(text: string)
    requires text == "KA02" || text == "Idle" || text == "2 min ago"
    ensures !ContainsIgnoreCase(text, "run")
  {
    forall i | 0 <= i < |text|
      ensures Fold(text[i]) != Fold('r')
    {
      assert text[i] in {'K', 'A', '0', '2', 'I', 'd', 'l', 'e', ' ', 'm', 'i', 'n', 'a', 'g', 'o'};
    }
    FirstCharAbsentNotContained(text, "run");
  }
}

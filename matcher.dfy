/**
 * The notable-place matcher of app.py (lines 80-97): for every province of the
 * table, every one of its places and every point of interest whose name holds the
 * place case-insensitively, a row is kept when the point lies within the province;
 * each kept row then gets the marker id "{Province}_{Place}_{index}".
 *
 * The point-in-polygon test is the parameter `within`; coordinates are carried
 * through untouched.
 */
module Matcher {
  import opened Wrappers
  import opened Text
  import opened Places

  /** A point of interest: its `name` column (possibly missing) and its coordinates. */
  datatype Poi = Poi(name: Option<string>, lat: real, lon: real)

  /** One dict appended to `filtered_rows`. */
  datatype Row = Row(province: string, place: string, lat: real, lon: real)

  /** One row of `notable_df`. */
  datatype Notable = Notable(province: string, place: string, lat: real, lon: real, markerId: string)

  /** `name.str.contains(place, case=False, na=False)` for one point. */
  predicate NameMatches(p: Poi, place: string)
  {
    p.name.Some? && ContainsIgnoringCase(p.name.value, place)
  }

  function RowOf(province: string, place: string, p: Poi): Row
  {
    Row(province, place, p.lat, p.lon)
  }

  // ---------------------------------------------------------------------------
  // Specification of the scan
  // ---------------------------------------------------------------------------

  /** `points_gdf[mask]`: the points whose name matches, in dataset order. */
  function MatchesByName(points: seq<Poi>, place: string): seq<Poi>
  {
    if points == [] then []
    else (if NameMatches(points[0], place) then [points[0]] else []) + MatchesByName(points[1..], place)
  }

  /** The mask keeps exactly the points with a present name that holds the place. */
  lemma {:induction false} MatchesByNameMembers(points: seq<Poi>, place: string)
    ensures forall p :: p in MatchesByName(points, place) <==> p in points && NameMatches(p, place)
  {
    if points != [] {
      assert points == [points[0]] + points[1..];
      MatchesByNameMembers(points[1..], place);
    }
  }

  /** The rows that the innermost loop appends for `matches`, in order. */
  function RowsWithin(province: string, place: string, matches: seq<Poi>, within: (Poi, string) -> bool): seq<Row>
  {
    if matches == [] then []
    else
      var last := matches[|matches| - 1];
      RowsWithin(province, place, matches[..|matches| - 1], within)
        + (if within(last, province) then [RowOf(province, place, last)] else [])
  }

  /** The rows found for one (province, place) pair. */
  function PlaceRows(province: string, place: string, points: seq<Poi>, within: (Poi, string) -> bool): seq<Row>
  {
    RowsWithin(province, place, MatchesByName(points, place), within)
  }

  /** The rows found for one province, place after place. */
  function ProvinceRows(province: string, places: seq<string>, points: seq<Poi>, within: (Poi, string) -> bool): seq<Row>
  {
    if places == [] then []
    else
      ProvinceRows(province, places[..|places| - 1], points, within)
        + PlaceRows(province, places[|places| - 1], points, within)
  }

  /** `filtered_rows` after the whole scan: province after province, in dict order. */
  function MatchTable(table: PlaceTable, points: seq<Poi>, within: (Poi, string) -> bool): seq<Row>
  {
    if table == [] then []
    else
      MatchTable(table[..|table| - 1], points, within)
        + ProvinceRows(table[|table| - 1].0, table[|table| - 1].1, points, within)
  }

  // ---------------------------------------------------------------------------
  // The scan itself
  // ---------------------------------------------------------------------------

  /** The three nested loops of lines 80-93, appending to `filteredRows`. */
  method CollectFilteredRows(table: PlaceTable, points: seq<Poi>, within: (Poi, string) -> bool)
    returns (filteredRows: seq<Row>)
    ensures filteredRows == MatchTable(table, points, within)
  {
    filteredRows := [];
    for t := 0 to |table|
      invariant filteredRows == MatchTable(table[..t], points, within)
    {
      var prov, places := table[t].0, table[t].1;
      ghost var before := filteredRows;
      for k := 0 to |places|
        invariant filteredRows == before + ProvinceRows(prov, places[..k], points, within)
      {
        var place := places[k];
        var matches := MatchesByName(points, place);
        ghost var soFar := filteredRows;
        for m := 0 to |matches|
          invariant filteredRows == soFar + RowsWithin(prov, place, matches[..m], within)
        {
          var row := matches[m];
          ghost var found := if within(row, prov) then [RowOf(prov, place, row)] else [];
          if within(row, prov) {
            filteredRows := filteredRows + [RowOf(prov, place, row)];
          }
          RowsWithinStep(prov, place, matches, m, within);
          AppendAssoc(soFar, RowsWithin(prov, place, matches[..m], within), found);
        }
        assert matches[..|matches|] == matches;
        ProvinceRowsStep(prov, places, k, points, within);
        AppendAssoc(before, ProvinceRows(prov, places[..k], points, within), PlaceRows(prov, place, points, within));
      }
      assert places[..|places|] == places;
      MatchTableStep(table, t, points, within);
    }
    assert table[..|table|] == table;
  }

  lemma AppendAssoc<T>(a: seq<T>, b: seq<T>, c: seq<T>)
    ensures (a + b) + c == a + (b + c)
  {
  }

  lemma RowsWithinStep(province: string, place: string, matches: seq<Poi>, m: nat, within: (Poi, string) -> bool)
    requires m < |matches|
    ensures RowsWithin(province, place, matches[..m + 1], within)
      == RowsWithin(province, place, matches[..m], within)
         + (if within(matches[m], province) then [RowOf(province, place, matches[m])] else [])
  {
    assert matches[..m + 1][..m] == matches[..m];
  }

  lemma ProvinceRowsStep(province: string, places: seq<string>, k: nat, points: seq<Poi>, within: (Poi, string) -> bool)
    requires k < |places|
    ensures ProvinceRows(province, places[..k + 1], points, within)
      == ProvinceRows(province, places[..k], points, within) + PlaceRows(province, places[k], points, within)
  {
    assert places[..k + 1][..k] == places[..k];
  }

  lemma MatchTableStep(table: PlaceTable, t: nat, points: seq<Poi>, within: (Poi, string) -> bool)
    requires t < |table|
    ensures MatchTable(table[..t + 1], points, within)
      == MatchTable(table[..t], points, within) + ProvinceRows(table[t].0, table[t].1, points, within)
  {
    assert table[..t + 1][..t] == table[..t];
  }

  // ---------------------------------------------------------------------------
  // What the scan keeps
  // ---------------------------------------------------------------------------

  /** The innermost loop keeps exactly the matches that lie within the province. */
  lemma {:induction false} RowsWithinMembers(province: string, place: string, matches: seq<Poi>, within: (Poi, string) -> bool)
    ensures forall r :: r in RowsWithin(province, place, matches, within) <==>
      exists p :: p in matches && within(p, province) && r == RowOf(province, place, p)
  {
    if matches != [] {
      var init, last := matches[..|matches| - 1], matches[|matches| - 1];
      assert matches == init + [last];
      RowsWithinMembers(province, place, init, within);
    }
  }

  /** One (province, place) pair yields a row for exactly the points that name the place and lie within. */
  lemma PlaceRowsMembers(province: string, place: string, points: seq<Poi>, within: (Poi, string) -> bool)
    ensures forall r :: r in PlaceRows(province, place, points, within) <==>
      exists p :: p in points && NameMatches(p, place) && within(p, province) && r == RowOf(province, place, p)
  {
    MatchesByNameMembers(points, place);
    RowsWithinMembers(province, place, MatchesByName(points, place), within);
  }

  /** A row of one province comes from one of its places and a point that matches it. */
  lemma {:induction false} ProvinceRowSource(province: string, places: seq<string>, points: seq<Poi>,
                                             within: (Poi, string) -> bool, r: Row)
    requires r in ProvinceRows(province, places, points, within)
    ensures exists j, p :: 0 <= j < |places| && p in points && NameMatches(p, places[j]) && within(p, province)
                           && r == RowOf(province, places[j], p)
  {
    var n := |places| - 1;
    PlaceRowsMembers(province, places[n], points, within);
    if r in ProvinceRows(province, places[..n], points, within) {
      ProvinceRowSource(province, places[..n], points, within, r);
      var j, p :| 0 <= j < n && p in points && NameMatches(p, places[..n][j]) && within(p, province)
                  && r == RowOf(province, places[..n][j], p);
      assert places[..n][j] == places[j];
    } else {
      var p :| p in points && NameMatches(p, places[n]) && within(p, province) && r == RowOf(province, places[n], p);
    }
  }

  /** Every place of a province and every point that matches it and lies within give a row. */
  lemma {:induction false} ProvinceRowFound(province: string, places: seq<string>, points: seq<Poi>,
                                            within: (Poi, string) -> bool, j: nat, p: Poi)
    requires j < |places| && p in points && NameMatches(p, places[j]) && within(p, province)
    ensures RowOf(province, places[j], p) in ProvinceRows(province, places, points, within)
  {
    var n := |places| - 1;
    if j < n {
      assert places[..n][j] == places[j];
      ProvinceRowFound(province, places[..n], points, within, j, p);
    } else {
      PlaceRowsMembers(province, places[n], points, within);
    }
  }

  /** One province yields a row for exactly the (place, point) pairs of its places that match. */
  lemma ProvinceRowsMembers(province: string, places: seq<string>, points: seq<Poi>, within: (Poi, string) -> bool)
    ensures forall r :: r in ProvinceRows(province, places, points, within) <==>
      exists j, p :: 0 <= j < |places| && p in points && NameMatches(p, places[j]) && within(p, province)
                     && r == RowOf(province, places[j], p)
  {
    forall r | r in ProvinceRows(province, places, points, within)
      ensures exists j, p :: 0 <= j < |places| && p in points && NameMatches(p, places[j]) && within(p, province)
                             && r == RowOf(province, places[j], p)
    {
      ProvinceRowSource(province, places, points, within, r);
    }
    forall r, j, p | 0 <= j < |places| && p in points && NameMatches(p, places[j]) && within(p, province)
                     && r == RowOf(province, places[j], p)
      ensures r in ProvinceRows(province, places, points, within)
    {
      ProvinceRowFound(province, places, points, within, j, p);
    }
  }

  /** A row of the scan comes from a table item, one of its places and a point that matches. */
  lemma {:induction false} MatchTableRowSource(table: PlaceTable, points: seq<Poi>, within: (Poi, string) -> bool, r: Row)
    requires r in MatchTable(table, points, within)
    ensures exists k, j, p :: 0 <= k < |table| && 0 <= j < |table[k].1| && p in points
                              && NameMatches(p, table[k].1[j]) && within(p, table[k].0)
                              && r == RowOf(table[k].0, table[k].1[j], p)
  {
    var n := |table| - 1;
    if r in MatchTable(table[..n], points, within) {
      MatchTableRowSource(table[..n], points, within, r);
      var k, j, p :| 0 <= k < n && 0 <= j < |table[..n][k].1| && p in points
                     && NameMatches(p, table[..n][k].1[j]) && within(p, table[..n][k].0)
                     && r == RowOf(table[..n][k].0, table[..n][k].1[j], p);
      assert table[..n][k] == table[k];
    } else {
      ProvinceRowSource(table[n].0, table[n].1, points, within, r);
    }
  }

  /** Every table item, place of it and point that matches and lies within give a row. */
  lemma {:induction false} MatchTableRowFound(table: PlaceTable, points: seq<Poi>, within: (Poi, string) -> bool,
                                              k: nat, j: nat, p: Poi)
    requires k < |table| && j < |table[k].1| && p in points
    requires NameMatches(p, table[k].1[j]) && within(p, table[k].0)
    ensures RowOf(table[k].0, table[k].1[j], p) in MatchTable(table, points, within)
  {
    var n := |table| - 1;
    if k < n {
      assert table[..n][k] == table[k];
      MatchTableRowFound(table[..n], points, within, k, j, p);
    } else {
      ProvinceRowFound(table[n].0, table[n].1, points, within, j, p);
    }
  }

  /**
   * Every row of the scan names a table province, one of that province's places and a
   * point of interest whose name holds the place and which lies within the province;
   * and every such combination gives a row.
   */
  lemma MatchTableMembers(table: PlaceTable, points: seq<Poi>, within: (Poi, string) -> bool)
    ensures forall r :: r in MatchTable(table, points, within) <==>
      exists k, j, p :: 0 <= k < |table| && 0 <= j < |table[k].1| && p in points
                        && NameMatches(p, table[k].1[j]) && within(p, table[k].0)
                        && r == RowOf(table[k].0, table[k].1[j], p)
  {
    forall r | r in MatchTable(table, points, within)
      ensures exists k, j, p :: 0 <= k < |table| && 0 <= j < |table[k].1| && p in points
                                && NameMatches(p, table[k].1[j]) && within(p, table[k].0)
                                && r == RowOf(table[k].0, table[k].1[j], p)
    {
      MatchTableRowSource(table, points, within, r);
    }
    forall r, k, j, p | 0 <= k < |table| && 0 <= j < |table[k].1| && p in points
                        && NameMatches(p, table[k].1[j]) && within(p, table[k].0)
                        && r == RowOf(table[k].0, table[k].1[j], p)
      ensures r in MatchTable(table, points, within)
    {
      MatchTableRowFound(table, points, within, k, j, p);
    }
  }

  /**
   * The three conditions of lines 84-87 for a row of the real table, whose keys are
   * distinct: its place is listed under its province, and some point of interest with
   * the row's coordinates has a present name holding the place and lies within the province.
   */
  lemma MatchedRowConditions(table: PlaceTable, points: seq<Poi>, within: (Poi, string) -> bool, r: Row)
    requires KeysDistinct(table)
    requires r in MatchTable(table, points, within)
    ensures Lookup(table, r.province).Some? && r.place in Lookup(table, r.province).value
    ensures exists p :: p in points && p.name.Some? && ContainsIgnoringCase(p.name.value, r.place)
                        && within(p, r.province) && p.lat == r.lat && p.lon == r.lon
  {
    MatchTableRowSource(table, points, within, r);
    var k, j, p :| 0 <= k < |table| && 0 <= j < |table[k].1| && p in points
                   && NameMatches(p, table[k].1[j]) && within(p, table[k].0)
                   && r == RowOf(table[k].0, table[k].1[j], p);
    LookupItem(table, k);
  }

  // ---------------------------------------------------------------------------
  // Order of the rows
  // ---------------------------------------------------------------------------

  lemma {:induction false} MatchesByNameAppend(a: seq<Poi>, b: seq<Poi>, place: string)
    ensures MatchesByName(a + b, place) == MatchesByName(a, place) + MatchesByName(b, place)
  {
    if a == [] {
      assert a + b == b;
    } else {
      assert (a + b)[0] == a[0];
      assert (a + b)[1..] == a[1..] + b;
      MatchesByNameAppend(a[1..], b, place);
      var head := if NameMatches(a[0], place) then [a[0]] else [];
      AppendAssoc(head, MatchesByName(a[1..], place), MatchesByName(b, place));
    }
  }

  lemma {:induction false} RowsWithinAppend(province: string, place: string, a: seq<Poi>, b: seq<Poi>, within: (Poi, string) -> bool)
    ensures RowsWithin(province, place, a + b, within)
      == RowsWithin(province, place, a, within) + RowsWithin(province, place, b, within)
  {
    if b == [] {
      assert a + b == a;
    } else {
      var n := |b| - 1;
      assert (a + b)[..|a + b| - 1] == a + b[..n];
      assert (a + b)[|a + b| - 1] == b[n];
      RowsWithinAppend(province, place, a, b[..n], within);
      AppendAssoc(RowsWithin(province, place, a, within), RowsWithin(province, place, b[..n], within),
                  if within(b[n], province) then [RowOf(province, place, b[n])] else []);
    }
  }

  /** For one place, the rows of points a then b are those of a, then those of b: dataset order. */
  lemma PlaceRowsAppend(province: string, place: string, a: seq<Poi>, b: seq<Poi>, within: (Poi, string) -> bool)
    ensures PlaceRows(province, place, a + b, within)
      == PlaceRows(province, place, a, within) + PlaceRows(province, place, b, within)
  {
    MatchesByNameAppend(a, b, place);
    RowsWithinAppend(province, place, MatchesByName(a, place), MatchesByName(b, place), within);
  }

  /** For one province, the rows of places a then b are those of a, then those of b: list order. */
  lemma {:induction false} ProvinceRowsAppend(province: string, a: seq<string>, b: seq<string>, points: seq<Poi>, within: (Poi, string) -> bool)
    ensures ProvinceRows(province, a + b, points, within)
      == ProvinceRows(province, a, points, within) + ProvinceRows(province, b, points, within)
  {
    if b == [] {
      assert a + b == a;
    } else {
      var n := |b| - 1;
      assert (a + b)[..|a + b| - 1] == a + b[..n];
      assert (a + b)[|a + b| - 1] == b[n];
      ProvinceRowsAppend(province, a, b[..n], points, within);
      AppendAssoc(ProvinceRows(province, a, points, within), ProvinceRows(province, b[..n], points, within),
                  PlaceRows(province, b[n], points, within));
    }
  }

  /** The rows of provinces a then b are those of a, then those of b: dict order. */
  lemma {:induction false} MatchTableAppend(a: PlaceTable, b: PlaceTable, points: seq<Poi>, within: (Poi, string) -> bool)
    ensures MatchTable(a + b, points, within) == MatchTable(a, points, within) + MatchTable(b, points, within)
  {
    if b == [] {
      assert a + b == a;
    } else {
      var n := |b| - 1;
      assert (a + b)[..|a + b| - 1] == a + b[..n];
      assert (a + b)[|a + b| - 1] == b[n];
      MatchTableAppend(a, b[..n], points, within);
      AppendAssoc(MatchTable(a, points, within), MatchTable(b[..n], points, within),
                  ProvinceRows(b[n].0, b[n].1, points, within));
    }
  }

  // ---------------------------------------------------------------------------
  // Marker ids
  // ---------------------------------------------------------------------------

  /** f"{Province}_{Place}_{index}". */
  function MarkerId(province: string, place: string, index: nat): string
  {
    province + "_" + place + "_" + NatToString(index)
  }

  /** The digits after the last '_' of a marker id give back its index. */
  lemma MarkerIdIndex(province: string, place: string, index: nat)
    ensures AllDigits(LastSegment(MarkerId(province, place, index)))
    ensures ParseDigits(LastSegment(MarkerId(province, place, index))) == index
  {
    LastSegmentAfterSeparator(province + "_" + place, NatToString(index));
    ParseNatToString(index);
  }

  /** Marker ids built for different indexes differ, whatever the names. */
  lemma MarkerIdsDiffer(p1: string, q1: string, i: nat, p2: string, q2: string, j: nat)
    requires i != j
    ensures MarkerId(p1, q1, i) != MarkerId(p2, q2, j)
  {
    MarkerIdIndex(p1, q1, i);
    MarkerIdIndex(p2, q2, j);
  }

  /** No two entries of the table share a marker id. */
  ghost predicate IdsDistinct(notable: seq<Notable>)
  {
    forall i, j :: 0 <= i < j < |notable| ==> notable[i].markerId != notable[j].markerId
  }

  /** Line 97: each row gets the id built from its names and its 0-based position. */
  function AssignMarkerIds(rows: seq<Row>): (r: seq<Notable>)
    ensures |r| == |rows|
    ensures forall i :: 0 <= i < |r| ==>
      Row(r[i].province, r[i].place, r[i].lat, r[i].lon) == rows[i] &&
      AllDigits(LastSegment(r[i].markerId)) && ParseDigits(LastSegment(r[i].markerId)) == i
    ensures forall i :: 0 <= i < |r| ==> r[i].markerId == MarkerId(rows[i].province, rows[i].place, i)
    ensures IdsDistinct(r)
  {
    var r := seq(|rows|, i requires 0 <= i < |rows| =>
      Notable(rows[i].province, rows[i].place, rows[i].lat, rows[i].lon, MarkerId(rows[i].province, rows[i].place, i)));
    assert forall i :: 0 <= i < |r| ==>
      AllDigits(LastSegment(r[i].markerId)) && ParseDigits(LastSegment(r[i].markerId)) == i by {
      forall i | 0 <= i < |r|
        ensures AllDigits(LastSegment(r[i].markerId)) && ParseDigits(LastSegment(r[i].markerId)) == i
      {
        MarkerIdIndex(rows[i].province, rows[i].place, i);
      }
    }
    assert IdsDistinct(r) by {
      forall i, j | 0 <= i < j < |r|
        ensures r[i].markerId != r[j].markerId
      {
        MarkerIdsDiffer(rows[i].province, rows[i].place, i, rows[j].province, rows[j].place, j);
      }
    }
    r
  }

  /**
   * Every entry of the notable table, for a table with distinct keys: its place is
   * listed under its province, a point of interest at its coordinates names the place
   * and lies within the province, and its id is built from its names and its position.
   */
  lemma NotableEntryConditions(table: PlaceTable, points: seq<Poi>, within: (Poi, string) -> bool, i: nat)
    requires KeysDistinct(table)
    requires i < |MatchTable(table, points, within)|
    ensures var n := AssignMarkerIds(MatchTable(table, points, within))[i];
      && Lookup(table, n.province).Some? && n.place in Lookup(table, n.province).value
      && (exists p :: p in points && p.name.Some? && ContainsIgnoringCase(p.name.value, n.place)
                      && within(p, n.province) && p.lat == n.lat && p.lon == n.lon)
      && n.markerId == MarkerId(n.province, n.place, i)
  {
    var rows := MatchTable(table, points, within);
    assert rows[i] in rows;
    MatchedRowConditions(table, points, within, rows[i]);
  }

  /** Lines 80-97: the scan followed by the id column. */
  method BuildNotableTable(table: PlaceTable, points: seq<Poi>, within: (Poi, string) -> bool)
    returns (notable: seq<Notable>)
    ensures notable == AssignMarkerIds(MatchTable(table, points, within))
    ensures IdsDistinct(notable)
  {
    var filteredRows := CollectFilteredRows(table, points, within);
    notable := AssignMarkerIds(filteredRows);
  }
}

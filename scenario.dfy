/**
 * What the matcher and the renderer give on a two-province data set: province X lists
 * the place "Tower" and holds one point named after it, province Y lists "Park" and
 * holds one point named after it. The matcher yields two rows with distinct ids, and
 * selecting X alone shows one marker, for "Tower".
 */
module Scenario {
  import opened Wrappers
  import opened Text
  import opened Places
  import opened Matcher
  import opened MapView

  const Table: PlaceTable := [("X", ["Tower"]), ("Y", ["Park"])]
  const Points: seq<Poi> := [Poi(Some("Tower Hill"), 1.0, 1.0), Poi(Some("Park Lane"), 2.0, 2.0)]

  /** The province frame of the two boundary features X and Y, with their hover text. */
  const Frame: seq<ProvinceRow> := [ProvinceRow("X", "Tower"), ProvinceRow("Y", "Park")]

  /** The containment test of this data set: each point lies in its own province only. */
  predicate Inside(p: Poi, province: string)
  {
    (province == "X" && p.lat == 1.0) || (province == "Y" && p.lat == 2.0)
  }

  /** The name test for "Tower": the first point's name holds it, the second's does not. */
  lemma TowerFacts()
    ensures NameMatches(Points[0], "Tower") && !NameMatches(Points[1], "Tower")
  {
    assert Fold("Tower") == "tower";
    assert Fold("Tower Hill") == "tower hill";
    assert OccursAt("tower", "tower hill", 0);
    assert Fold("Park Lane") == "park lane";
    NoOccurrenceWithoutFirstChar("park lane", "tower");
  }

  /** The name test for "Park": the second point's name holds it, the first's does not. */
  lemma ParkFacts()
    ensures NameMatches(Points[1], "Park") && !NameMatches(Points[0], "Park")
  {
    assert Fold("Park") == "park";
    assert Fold("Park Lane") == "park lane";
    assert OccursAt("park", "park lane", 0);
    assert Fold("Tower Hill") == "tower hill";
    NoOccurrenceWithoutFirstChar("tower hill", "park");
  }

  /** The pair (X, "Tower") keeps the first point only. */
  lemma TowerRows()
    ensures PlaceRows("X", "Tower", Points, Inside) == [Row("X", "Tower", 1.0, 1.0)]
  {
    TowerFacts();
    assert Points[1..][1..] == [];
    assert MatchesByName(Points, "Tower") == [Points[0]];
    assert [Points[0]][..0] == [];
  }

  /** The pair (Y, "Park") keeps the second point only. */
  lemma ParkRows()
    ensures PlaceRows("Y", "Park", Points, Inside) == [Row("Y", "Park", 2.0, 2.0)]
  {
    ParkFacts();
    assert Points[1..][1..] == [];
    assert MatchesByName(Points, "Park") == [Points[1]];
    assert [Points[1]][..0] == [];
  }

  /** A province with a single place yields that place's rows. */
  lemma SinglePlace(province: string, place: string, points: seq<Poi>, within: (Poi, string) -> bool)
    ensures ProvinceRows(province, [place], points, within) == PlaceRows(province, place, points, within)
  {
    assert [place][..0] == [];
  }

  /** A two-item table yields the rows of its first province, then those of its second. */
  lemma TwoProvinces(table: PlaceTable, points: seq<Poi>, within: (Poi, string) -> bool)
    requires |table| == 2
    ensures MatchTable(table, points, within)
      == ProvinceRows(table[0].0, table[0].1, points, within) + ProvinceRows(table[1].0, table[1].1, points, within)
  {
    var first := ProvinceRows(table[0].0, table[0].1, points, within);
    var second := ProvinceRows(table[1].0, table[1].1, points, within);
    assert table[..0] == [];
    MatchTableStep(table, 0, points, within);
    assert MatchTable(table[..1], points, within) == [] + first;
    assert [] + first == first;
    MatchTableStep(table, 1, points, within);
    assert table[..2] == table;
  }

  /** The scan finds exactly the two expected rows, X's first. */
  lemma ScenarioRows()
    ensures MatchTable(Table, Points, Inside) == [Row("X", "Tower", 1.0, 1.0), Row("Y", "Park", 2.0, 2.0)]
  {
    TwoProvinces(Table, Points, Inside);
    SinglePlace("X", "Tower", Points, Inside);
    SinglePlace("Y", "Park", Points, Inside);
    TowerRows();
    ParkRows();
  }

  /** Line 71 on the boundary features X and Y gives `Frame`. */
  lemma ScenarioFrame()
    ensures BuildProvinceFrame(["X", "Y"], Table) == Success(Frame)
  {
    var provinces := ["X", "Y"];
    assert Lookup(Table, "X") == Some(["Tower"]);
    assert Table[1..] == [("Y", ["Park"])];
    assert Lookup(Table, "Y") == Some(["Park"]);
    assert forall i :: 0 <= i < |provinces| ==> Lookup(Table, provinces[i]).Some? by {
      assert provinces[0] == "X" && provinces[1] == "Y";
    }
    var r := BuildProvinceFrame(provinces, Table);
    assert Join(["Tower"], ", ") == "Tower" && Join(["Park"], ", ") == "Park";
    assert r.Success? && |r.value| == 2;
    assert r.value[0] == Frame[0] && r.value[1] == Frame[1];
    assert r.value == Frame;
  }

  /**
   * Selecting X over a two-row table whose first row is X's draws X's frame row and
   * feature only, and shows that row's marker only.
   */
  lemma ScenarioMap(notable: seq<Notable>)
    requires |notable| == 2 && notable[0].province == "X" && notable[1].province == "Y"
    ensures var fig := UpdateMap(Some(["X"]), [], ["X", "Y"], Frame, notable);
      fig.locations == [Frame[0]] && fig.features == ["X"] &&
      fig.markers.Some? && |fig.markers.value| == 1 && fig.markers.value[0].place == notable[0].place
  {
    var onFrame := (r: ProvinceRow) => r.province in ["X"];
    assert Frame[1..][1..] == [];
    assert Filter(Frame[1..], onFrame) == [];
    assert SelectRows(Frame, ["X"]) == [Frame[0]];
    var onFeature := (f: string) => f in ["X"];
    assert ["X", "Y"][1..][1..] == [];
    assert Filter(["X", "Y"][1..], onFeature) == [];
    assert SelectFeatures(["X", "Y"], ["X"]) == ["X"];
    var keep := (n: Notable) => n.province in ["X"];
    assert keep(notable[0]) && !keep(notable[1]);
    assert notable[1..][1..] == [];
    assert Filter(notable[1..][1..], keep) == [];
    assert Filter(notable[1..], keep) == [];
    var subset := MarkerSubset(notable, ["X"]);
    assert subset == [notable[0]];
  }

  /**
   * End to end: the frame of line 71, two rows with two distinct ids, and X alone
   * selected draws X and one marker, for "Tower".
   */
  lemma TwoProvinceScenario()
    ensures BuildProvinceFrame(["X", "Y"], Table) == Success(Frame)
    ensures var notable := AssignMarkerIds(MatchTable(Table, Points, Inside));
      |notable| == 2 && notable[0].markerId != notable[1].markerId
      && var fig := UpdateMap(Some(["X"]), [], ["X", "Y"], Frame, notable);
      fig.locations == [ProvinceRow("X", "Tower")] &&
      fig.markers.Some? && |fig.markers.value| == 1 && fig.markers.value[0].place == "Tower"
  {
    ScenarioFrame();
    ScenarioRows();
    var notable := AssignMarkerIds(MatchTable(Table, Points, Inside));
    ScenarioMap(notable);
  }
}

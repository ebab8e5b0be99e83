/**
 * The fixed table from province name to its notable places (app.py lines 54-68)
 * and the "Notable Places" hover column that line 71 derives from it.
 */
module Places {
  import opened Wrappers
  import opened Text

  /** A Python dict from province to places, as its (key, value) items in insertion order. */
  type PlaceTable = seq<(string, seq<string>)>

  const ProvinceToPlaces: PlaceTable := [
    ("Alberta", ["Banff NP", "Jasper NP", "Calgary Tower", "Lake Louise", "West Edmonton Mall"]),
    ("British Columbia", ["Stanley Park", "Butchart Gardens", "Whistler", "Capilano Bridge", "Pacific Rim NP"]),
    ("Manitoba", ["The Forks", "Riding Mountain NP", "Assiniboine Zoo", "Museum for Human Rights", "FortWhyte Alive"]),
    ("New Brunswick", ["Bay of Fundy", "Hopewell Rocks", "Fundy NP", "Reversing Falls", "Kings Landing"]),
    ("Newfoundland and Labrador", ["Gros Morne NP", "Signal Hill", "L'Anse aux Meadows", "Cape Spear", "Bonavista"]),
    ("Nova Scotia", ["Peggy's Cove", "Cabot Trail", "Halifax Citadel", "Lunenburg", "Kejimkujik NP"]),
    ("Ontario", ["CN Tower", "Niagara Falls", "Algonquin Park", "Parliament Hill", "Royal Ontario Museum"]),
    ("Prince Edward Island", ["Green Gables", "Cavindish Beach", "Confederation Trail", "PEI NP", "Point Prim Lighthouse"]),
    ("Quebec", ["Old Quebec", "Mont-Tremblant", "Montmorency Falls", "Quebec City", "Sainte-Anne-de-Beaupr\U{E9}"]),
    ("Saskatchewan", ["Forestry Zoo", "Wanuskewin", "Prince Albert NP", "Wascana Centre", "RCMP Heritage Centre"]),
    ("Northwest Territories", ["Nahanni NP", "Great Slave Lake", "Virginia Falls", "Yellowknife", "Wood Buffalo NP"]),
    ("Nunavut", ["Auyuittuq NP", "Sylvia Grinnell Park", "Qaummaarviit Park", "Iqaluit", "Sirmilik NP"]),
    ("Yukon", ["Kluane NP", "Miles Canyon", "SS Klondike", "Whitehorse", "Tombstone Park"])
  ]

  /** A dict never holds one key twice. */
  ghost predicate KeysDistinct(table: PlaceTable)
  {
    forall i, j :: 0 <= i < j < |table| ==> table[i].0 != table[j].0
  }

  /** `table[key]`: None where Python raises KeyError. */
  function Lookup(table: PlaceTable, key: string): (r: Option<seq<string>>)
    ensures r.None? <==> forall k :: 0 <= k < |table| ==> table[k].0 != key
    ensures r.Some? ==> exists k :: 0 <= k < |table| && table[k] == (key, r.value)
  {
    if table == [] then None
    else if table[0].0 == key then
      assert table[0] == (key, table[0].1);
      Some(table[0].1)
    else
      var r := Lookup(table[1..], key);
      assert forall k :: 1 <= k < |table| ==> table[k] == table[1..][k - 1];
      r
  }

  lemma ProvinceToPlacesKeysDistinct()
    ensures KeysDistinct(ProvinceToPlaces)
  {
  }

  /** With distinct keys, an item's key looks up exactly that item's places. */
  lemma LookupItem(table: PlaceTable, k: nat)
    requires KeysDistinct(table) && k < |table|
    ensures Lookup(table, table[k].0) == Some(table[k].1)
  {
    var r := Lookup(table, table[k].0);
    var k' :| 0 <= k' < |table| && table[k'] == (table[k].0, r.value);
    assert k' == k;
  }

  /** One row of the province frame: the `Province` and `Notable Places` columns. */
  datatype ProvinceRow = ProvinceRow(province: string, notablePlaces: string)

  /**
   * The hover column of line 71, `", ".join(province_to_places[prov])`, for every
   * province of the boundary data in order; a province absent from the table
   * raises KeyError.
   */
  function BuildProvinceFrame(provinces: seq<string>, table: PlaceTable): (r: Result<seq<ProvinceRow>, string>)
    ensures r.Success? <==> forall i :: 0 <= i < |provinces| ==> Lookup(table, provinces[i]).Some?
    ensures r.Failure? ==> r.error in provinces && Lookup(table, r.error).None?
    ensures r.Success? ==> |r.value| == |provinces|
    ensures r.Success? ==> forall i :: 0 <= i < |provinces| ==>
      r.value[i].province == provinces[i] &&
      r.value[i].notablePlaces == Join(Lookup(table, provinces[i]).value, ", ")
  {
    if provinces == [] then Success([])
    else
      match Lookup(table, provinces[0])
      case None => Failure(provinces[0])
      case Some(places) =>
        var rest := BuildProvinceFrame(provinces[1..], table);
        if rest.Failure? then Failure(rest.error)
        else
          var r := [ProvinceRow(provinces[0], Join(places, ", "))] + rest.value;
          assert forall i :: 1 <= i < |provinces| ==> r[i] == rest.value[i - 1] && provinces[i] == provinces[1..][i - 1];
          Success(r)
  }

  /** The hover text names every notable place of the row's province. */
  lemma HoverListsEveryPlace(provinces: seq<string>, table: PlaceTable, i: nat, k: nat)
    requires BuildProvinceFrame(provinces, table).Success?
    requires i < |provinces|
    requires k < |Lookup(table, provinces[i]).value|
    ensures Contains(BuildProvinceFrame(provinces, table).value[i].notablePlaces, Lookup(table, provinces[i]).value[k])
  {
    JoinHoldsEveryPart(Lookup(table, provinces[i]).value, ", ", k);
  }
}

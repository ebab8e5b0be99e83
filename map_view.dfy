/**
 * The figure `update_map` (app.py lines 139-201) returns, as an abstract record:
 * which province rows and boundary features are drawn, their fill colour and
 * opacity, the camera both branches share, and the optional marker layer.
 */
module MapView {
  import opened Wrappers
  import opened Places
  import opened Matcher
  import opened Clicks

  datatype Colour = LightGray | Blue | Green | Red

  /** Map style, zoom, centre and the margin on every side. */
  datatype Camera = Camera(style: string, zoom: int, centerLat: real, centerLon: real, margin: int)

  const MapCamera: Camera := Camera("carto-positron", 2, 56.130, -106.347, 0)

  /** One point of the scatter layer: position, hover text (the place), custom data (the id), colour. */
  datatype Marker = Marker(lat: real, lon: real, place: string, markerId: string, colour: Colour)

  /**
   * `locations` are the frame rows handed to `px.choropleth_mapbox`, `features` the
   * `shapeName`s of the boundary features handed with them.
   */
  datatype Figure = Figure(
    locations: seq<ProvinceRow>,
    features: seq<string>,
    fill: Colour,
    opacity: real,
    camera: Camera,
    markers: Option<seq<Marker>>)

  // ---------------------------------------------------------------------------
  // Order-preserving filtering (pandas masks and list comprehensions with `if`)
  // ---------------------------------------------------------------------------

  function Filter<T(!new)>(s: seq<T>, keep: T -> bool): (r: seq<T>)
    ensures |r| <= |s|
    ensures forall x :: x in r <==> x in s && keep(x)
  {
    if s == [] then []
    else
      assert s == [s[0]] + s[1..];
      (if keep(s[0]) then [s[0]] else []) + Filter(s[1..], keep)
  }

  /** Filtering a concatenation filters each part in turn: the kept items stay in their order. */
  lemma {:induction false} FilterAppend<T(!new)>(a: seq<T>, b: seq<T>, keep: T -> bool)
    ensures Filter(a + b, keep) == Filter(a, keep) + Filter(b, keep)
  {
    if a == [] {
      assert a + b == b;
    } else {
      assert (a + b)[0] == a[0];
      assert (a + b)[1..] == a[1..] + b;
      FilterAppend(a[1..], b, keep);
      var head := if keep(a[0]) then [a[0]] else [];
      assert (head + Filter(a[1..], keep)) + Filter(b, keep) == head + (Filter(a[1..], keep) + Filter(b, keep));
    }
  }

  /** Filtering keeps marker ids distinct. */
  lemma {:induction false} FilterKeepsIdsDistinct(s: seq<Notable>, keep: Notable -> bool)
    requires IdsDistinct(s)
    ensures IdsDistinct(Filter(s, keep))
  {
    if s != [] {
      FilterKeepsIdsDistinct(s[1..], keep);
      var rest := Filter(s[1..], keep);
      forall x | x in rest
        ensures x.markerId != s[0].markerId
      {
        var j :| 0 <= j < |s[1..]| && s[1..][j] == x;
        assert s[j + 1] == x;
      }
    }
  }

  // ---------------------------------------------------------------------------
  // The callback
  // ---------------------------------------------------------------------------

  /** `not selected_provinces`: None or an empty list. */
  predicate NoSelection(selected: Option<seq<string>>)
  {
    selected.None? || selected.value == []
  }

  /** Line 163: the frame rows of the selected provinces. */
  function SelectRows(frame: seq<ProvinceRow>, selected: seq<string>): (rows: seq<ProvinceRow>)
    ensures forall r :: r in rows <==> r in frame && r.province in selected
  {
    Filter(frame, (r: ProvinceRow) => r.province in selected)
  }

  /** Lines 164-168: the boundary features whose shapeName is selected. */
  function SelectFeatures(features: seq<string>, selected: seq<string>): (drawn: seq<string>)
    ensures forall f :: f in drawn <==> f in features && f in selected
  {
    Filter(features, (f: string) => f in selected)
  }

  /** Line 183: the notable rows of the selected provinces. */
  function MarkerSubset(notable: seq<Notable>, selected: seq<string>): (subset: seq<Notable>)
    ensures forall n :: n in subset <==> n in notable && n.province in selected
  {
    Filter(notable, (n: Notable) => n.province in selected)
  }

  /** Lines 186-187: green for a clicked id, red otherwise, one colour per marker. */
  function MarkerColours(subset: seq<Notable>, clicked: seq<CustomData>): (colours: seq<Colour>)
    ensures |colours| == |subset|
    ensures forall i :: 0 <= i < |colours| ==> colours[i] in {Green, Red}
    ensures forall i :: 0 <= i < |colours| ==> (colours[i] == Green <==> MarkerRef(subset[i].markerId) in clicked)
  {
    seq(|subset|, i requires 0 <= i < |subset| => if MarkerRef(subset[i].markerId) in clicked then Green else Red)
  }

  /** Lines 190-198: the scatter layer, one marker per notable row with its colour. */
  function MarkerLayer(subset: seq<Notable>, colours: seq<Colour>): (markers: seq<Marker>)
    requires |colours| == |subset|
    ensures |markers| == |subset|
    ensures forall i :: 0 <= i < |markers| ==>
      Source(markers[i], subset[i].province) == subset[i] && markers[i].colour == colours[i]
  {
    seq(|subset|, i requires 0 <= i < |subset| =>
      Marker(subset[i].lat, subset[i].lon, subset[i].place, subset[i].markerId, colours[i]))
  }

  /** The notable row a marker was drawn for. */
  function Source(m: Marker, province: string): Notable
  {
    Notable(province, m.place, m.lat, m.lon, m.markerId)
  }

  function UpdateMap(selected: Option<seq<string>>, clicked: seq<CustomData>, features: seq<string>,
                     frame: seq<ProvinceRow>, notable: seq<Notable>): (fig: Figure)
    ensures fig.camera == MapCamera
    // No selection: every province, light gray at opacity 0.5, no markers.
    ensures NoSelection(selected) ==>
      fig.locations == frame && fig.features == features &&
      fig.fill == LightGray && fig.opacity == 0.5 && fig.markers.None?
    // A selection: exactly the selected provinces, blue at opacity 0.7.
    ensures !NoSelection(selected) ==>
      fig.fill == Blue && fig.opacity == 0.7 &&
      (forall r :: r in fig.locations <==> r in frame && r.province in selected.value) &&
      (forall f :: f in fig.features <==> f in features && f in selected.value)
    // ... drawn once each, in the order of the frame and of the boundary features.
    ensures !NoSelection(selected) ==>
      fig.locations == SelectRows(frame, selected.value) && fig.features == SelectFeatures(features, selected.value)
    // The marker layer is there exactly when some notable row lies in a selected province.
    ensures !NoSelection(selected) ==>
      (fig.markers.Some? <==> exists n :: n in notable && n.province in selected.value)
    // Its markers are those rows in order, green exactly when their id was clicked.
    ensures fig.markers.Some? ==>
      var subset := MarkerSubset(notable, selected.value);
      |fig.markers.value| == |subset| &&
      forall i :: 0 <= i < |subset| ==>
        Source(fig.markers.value[i], subset[i].province) == subset[i] &&
        fig.markers.value[i].colour in {Green, Red} &&
        (fig.markers.value[i].colour == Green <==> MarkerRef(subset[i].markerId) in clicked)
  {
    if NoSelection(selected) then
      Figure(frame, features, LightGray, 0.5, MapCamera, None)
    else
      var filteredRows := SelectRows(frame, selected.value);
      var filteredFeatures := SelectFeatures(features, selected.value);
      var subset := MarkerSubset(notable, selected.value);
      var colours := MarkerColours(subset, clicked);
      var markers := if subset != [] then Some(MarkerLayer(subset, colours)) else None;
      assert subset != [] <==> exists n :: n in notable && n.province in selected.value by {
        if subset != [] {
          assert subset[0] in subset;
        }
      }
      Figure(filteredRows, filteredFeatures, Blue, 0.7, MapCamera, markers)
  }

  // ---------------------------------------------------------------------------
  // Properties of the rendered map
  // ---------------------------------------------------------------------------

  /** With no selection the figure does not depend on the clicked markers. */
  lemma NoSelectionIgnoresClicks(selected: Option<seq<string>>, c1: seq<CustomData>, c2: seq<CustomData>,
                                 features: seq<string>, frame: seq<ProvinceRow>, notable: seq<Notable>)
    requires NoSelection(selected)
    ensures UpdateMap(selected, c1, features, frame, notable) == UpdateMap(selected, c2, features, frame, notable)
  {
  }

  /** Drawn provinces keep the order of the frame: selecting over a split frame draws each part in turn. */
  lemma SelectRowsAppend(a: seq<ProvinceRow>, b: seq<ProvinceRow>, selected: seq<string>)
    ensures SelectRows(a + b, selected) == SelectRows(a, selected) + SelectRows(b, selected)
  {
    FilterAppend(a, b, (r: ProvinceRow) => r.province in selected);
  }

  /** The marker subset keeps the order of the notable table. */
  lemma MarkerSubsetAppend(a: seq<Notable>, b: seq<Notable>, selected: seq<string>)
    ensures MarkerSubset(a + b, selected) == MarkerSubset(a, selected) + MarkerSubset(b, selected)
  {
    FilterAppend(a, b, (n: Notable) => n.province in selected);
  }

  /** With no marker id clicked, every marker is red. */
  lemma NothingClickedAllRed(selected: seq<string>, clicked: seq<CustomData>, features: seq<string>,
                             frame: seq<ProvinceRow>, notable: seq<Notable>)
    requires selected != []
    requires forall x :: x in clicked ==> !x.MarkerRef?
    ensures var fig := UpdateMap(Some(selected), clicked, features, frame, notable);
      fig.markers.Some? ==> forall m :: m in fig.markers.value ==> m.colour == Red
  {
    var fig := UpdateMap(Some(selected), clicked, features, frame, notable);
    if fig.markers.Some? {
      forall m | m in fig.markers.value
        ensures m.colour == Red
      {
        var i :| 0 <= i < |fig.markers.value| && fig.markers.value[i] == m;
        assert MarkerRef(MarkerSubset(notable, selected)[i].markerId) !in clicked;
      }
    }
  }

  /**
   * In a table with distinct ids, after a session whose only click was on the marker of
   * entry k, a selection holding k's province shows exactly one green marker: k's.
   */
  lemma OneClickOneGreen(selected: seq<string>, features: seq<string>, frame: seq<ProvinceRow>,
                         notable: seq<Notable>, k: nat)
    requires IdsDistinct(notable)
    requires k < |notable| && notable[k].province in selected
    ensures var clicked := Replay([], [Some(ClickData(Some([ClickPoint(Some(MarkerRef(notable[k].markerId)))])))]);
      var fig := UpdateMap(Some(selected), clicked, features, frame, notable);
      fig.markers.Some? &&
      exists i :: 0 <= i < |fig.markers.value| &&
        fig.markers.value[i].markerId == notable[k].markerId && fig.markers.value[i].colour == Green &&
        forall j :: 0 <= j < |fig.markers.value| && j != i ==> fig.markers.value[j].colour == Red
  {
    var id := MarkerRef(notable[k].markerId);
    SingleClick(id);
    var fig := UpdateMap(Some(selected), [id], features, frame, notable);
    var subset := MarkerSubset(notable, selected);
    assert notable[k] in subset by {
      assert notable[k] in notable;
    }
    var i :| 0 <= i < |subset| && subset[i] == notable[k];
    FilterKeepsIdsDistinct(notable, (n: Notable) => n.province in selected);
    OnlyOneIdClicked(subset, i);
  }

  /** In a list with distinct ids, only entry i's id is in the store holding that id alone. */
  lemma OnlyOneIdClicked(subset: seq<Notable>, i: nat)
    requires IdsDistinct(subset) && i < |subset|
    ensures forall j :: 0 <= j < |subset| ==>
      (MarkerRef(subset[j].markerId) in [MarkerRef(subset[i].markerId)] <==> j == i)
  {
    forall j | 0 <= j < |subset| && j != i
      ensures MarkerRef(subset[j].markerId) !in [MarkerRef(subset[i].markerId)]
    {
      if j < i {
        assert subset[j].markerId != subset[i].markerId;
      } else {
        assert subset[i].markerId != subset[j].markerId;
      }
    }
  }
}

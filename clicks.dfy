/**
 * The clicked-marker reducer `update_clicked_markers` (app.py lines 120-134) and the
 * session store it feeds (`dcc.Store(id='clicked-markers', data=[])`, line 113).
 */
module Clicks {
  import opened Wrappers

  /**
   * The `customdata` of a clicked point. A marker of the scatter layer carries its
   * marker id; a province polygon drawn by `px.choropleth_mapbox` carries its hover
   * values as a list, and the reducer stores that too.
   */
  datatype CustomData = MarkerRef(id: string) | HoverValues(values: seq<string>)

  /** One entry of `clickData['points']`; `customdata` may be absent. */
  datatype ClickPoint = ClickPoint(customdata: Option<CustomData>)

  /** A truthy `clickData` dict, reduced to its `points` key when present. */
  datatype ClickData = ClickData(points: Option<seq<ClickPoint>>)

  /** `clickData['points'][0]` on an empty list raises IndexError. */
  datatype Fault = IndexError

  /** The custom data the event carries, if any: that of its first point. */
  function ClickedData(clickData: Option<ClickData>): Option<CustomData>
  {
    match clickData
    case None => None
    case Some(ClickData(points)) =>
      if points.None? || points.value == [] then None else points.value[0].customdata
  }

  predicate NoDuplicates<T(==)>(s: seq<T>)
  {
    forall i, j :: 0 <= i < j < |s| ==> s[i] != s[j]
  }

  /**
   * The callback: a falsy event (None or a dict without `points`) and a first point
   * without `customdata` leave the list as it is; a new id is appended at the end; an
   * id already present leaves the list as it is; an empty `points` list raises.
   */
  function UpdateClickedMarkers(clickData: Option<ClickData>, current: seq<CustomData>): (r: Result<seq<CustomData>, Fault>)
    ensures r.Failure? <==> clickData.Some? && clickData.value.points == Some([])
    ensures r.Success? ==> |current| <= |r.value| <= |current| + 1 && r.value[..|current|] == current
    ensures r.Success? && |r.value| > |current| ==> Some(r.value[|current|]) == ClickedData(clickData)
    ensures r.Success? ==> (r.value == current <==> ClickedData(clickData).None? || ClickedData(clickData).value in current)
  {
    if clickData.Some? && clickData.value.points.Some? then
      var points := clickData.value.points.value;
      if points == [] then Failure(IndexError)
      else
        var point := points[0];
        if point.customdata.Some? then
          var markerId := point.customdata.value;
          if markerId !in current then Success(current + [markerId])
          else Success(current)
        else Success(current)
    else Success(current)
  }

  /** A click on a point whose id is not stored yet appends exactly that id. */
  lemma ClickAppendsNewId(clickData: Option<ClickData>, current: seq<CustomData>, id: CustomData)
    requires ClickedData(clickData) == Some(id) && id !in current
    ensures UpdateClickedMarkers(clickData, current) == Success(current + [id])
  {
  }

  /** Events without custom data on a first point change nothing. */
  lemma MalformedEventIsNoOp(clickData: Option<ClickData>, current: seq<CustomData>)
    requires ClickedData(clickData).None?
    requires !(clickData.Some? && clickData.value.points == Some([]))
    ensures UpdateClickedMarkers(clickData, current) == Success(current)
  {
  }

  /** Repeating a click gives the state the first click gave. */
  lemma ClickIdempotent(clickData: Option<ClickData>, current: seq<CustomData>)
    requires UpdateClickedMarkers(clickData, current).Success?
    ensures UpdateClickedMarkers(clickData, UpdateClickedMarkers(clickData, current).value)
         == UpdateClickedMarkers(clickData, current)
  {
  }

  /** A list without duplicates stays without duplicates. */
  lemma ClickKeepsNoDuplicates(clickData: Option<ClickData>, current: seq<CustomData>)
    requires NoDuplicates(current)
    requires UpdateClickedMarkers(clickData, current).Success?
    ensures NoDuplicates(UpdateClickedMarkers(clickData, current).value)
  {
  }

  // ---------------------------------------------------------------------------
  // The session store
  // ---------------------------------------------------------------------------

  /** One callback round: when the callback raises, the store keeps its data. */
  function Step(state: seq<CustomData>, clickData: Option<ClickData>): seq<CustomData>
  {
    match UpdateClickedMarkers(clickData, state)
    case Success(next) => next
    case Failure(_) => state
  }

  /** The store after a session's click events, in order, starting from `init`. */
  function Replay(init: seq<CustomData>, events: seq<Option<ClickData>>): seq<CustomData>
  {
    if events == [] then init
    else Step(Replay(init, events[..|events| - 1]), events[|events| - 1])
  }

  /** The store only grows at its end: the initial list is a prefix of every later one. */
  lemma {:induction false} ReplayExtends(init: seq<CustomData>, events: seq<Option<ClickData>>)
    ensures |init| <= |Replay(init, events)| && Replay(init, events)[..|init|] == init
  {
    if events != [] {
      var before := Replay(init, events[..|events| - 1]);
      ReplayExtends(init, events[..|events| - 1]);
      assert Replay(init, events)[..|before|] == before;
      assert Replay(init, events)[..|init|] == before[..|init|];
    }
  }

  /** Starting from a list without duplicates, the store never holds an id twice. */
  lemma {:induction false} ReplayNoDuplicates(init: seq<CustomData>, events: seq<Option<ClickData>>)
    requires NoDuplicates(init)
    ensures NoDuplicates(Replay(init, events))
  {
    if events != [] {
      var before := Replay(init, events[..|events| - 1]);
      ReplayNoDuplicates(init, events[..|events| - 1]);
      if UpdateClickedMarkers(events[|events| - 1], before).Success? {
        ClickKeepsNoDuplicates(events[|events| - 1], before);
      }
    }
  }

  /** The store holds exactly the initial ids and the ids some event carried. */
  lemma {:induction false} ReplayMembers(init: seq<CustomData>, events: seq<Option<ClickData>>)
    ensures forall x :: x in Replay(init, events) <==>
      x in init || exists i :: 0 <= i < |events| && ClickedData(events[i]) == Some(x)
  {
    if events != [] {
      var n := |events| - 1;
      var before := Replay(init, events[..n]);
      ReplayMembers(init, events[..n]);
      var after := Replay(init, events);
      assert after == before || after == before + [ClickedData(events[n]).value];
      forall x | x in after
        ensures x in init || exists i :: 0 <= i < |events| && ClickedData(events[i]) == Some(x)
      {
        if x in before && x !in init {
          var i :| 0 <= i < n && ClickedData(events[..n][i]) == Some(x);
          assert events[..n][i] == events[i];
        }
      }
      forall x, i | 0 <= i < |events| && ClickedData(events[i]) == Some(x)
        ensures x in after
      {
        if i < n {
          assert events[..n][i] == events[i];
        }
      }
    }
  }

  /** A session whose only event clicks a point with custom data leaves exactly that entry. */
  lemma SingleClick(data: CustomData)
    ensures Replay([], [Some(ClickData(Some([ClickPoint(Some(data))])))]) == [data]
  {
    var event := Some(ClickData(Some([ClickPoint(Some(data))])));
    assert [event][..0] == [];
    ClickAppendsNewId(event, [], data);
  }

  /** Clicking a then b on an empty store gives [a, b]: the store keeps click order. */
  lemma ClickOrder(first: CustomData, second: CustomData)
    requires first != second
    ensures Replay([], [Some(ClickData(Some([ClickPoint(Some(first))]))),
                        Some(ClickData(Some([ClickPoint(Some(second))])))]) == [first, second]
  {
    var e1 := Some(ClickData(Some([ClickPoint(Some(first))])));
    var e2 := Some(ClickData(Some([ClickPoint(Some(second))])));
    assert [e1, e2][..1] == [e1];
    assert [e1][..0] == [];
    assert Replay([], [e1]) == [first] by {
      ClickAppendsNewId(e1, [], first);
    }
    ClickAppendsNewId(e2, [first], second);
  }
}

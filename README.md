# Canada provinces map: a Dafny model of its decision logic

The application renders Canada's provinces on a map, marks the notable places of each
province, lets the user pick provinces from a dropdown and lets the user click markers,
which turn from red to green. All of it lives in one script, `app.py`. This project models
the three parts of that script that decide something; the rest is Dash, plotly and
geopandas plumbing.

- **Notable-place matcher** (`matcher.dfy`, module `Matcher`; the strings it needs are in
  `text.dfy`, module `Text`; the province table is in `places.dfy`, module `Places`). The
  script walks the table `province_to_places` in dict order, each province's places in
  list order, and the points of interest in dataset order. A point gives a row when its
  name is present and holds the place case-insensitively, and when it lies within the
  province. Each row then gets the marker id `"{Province}_{Place}_{index}"`, where index
  is the row's position. The nested loops are the method `CollectFilteredRows`. It is
  proved equal to the specification function `MatchTable`, and the lemmas are stated
  about `MatchTable`. The point-in-polygon test is a parameter
  `within: (Poi, string) -> bool`.
- **Clicked-marker reducer** (`clicks.dfy`, module `Clicks`). `update_clicked_markers`
  is a pure function of the click event and the stored list. `Replay` folds it over a
  session's events, the way the `clicked-markers` store sees them.
- **Map renderer** (`map_view.dfy`, module `MapView`). `update_map` is modelled as a
  function returning an abstract figure: the province rows and boundary features drawn,
  the fill colour and opacity, the shared camera settings, and the optional marker layer.
- `scenario.dfy` (module `Scenario`) proves what the matcher and the renderer give on a
  two-province data set.
- `wrappers.dfy` (module `Wrappers`) holds `Option` and `Result`.

Where the code and its intended design differ, the model follows the code:
- An event whose `points` list is empty raises `IndexError` at `clickData['points'][0]`.
  It is not a silent no-op. `UpdateClickedMarkers` returns `Failure(IndexError)`, and the
  store then keeps its data (`Step`).
- The store does not hold marker ids only. It holds whatever `customdata` the first
  clicked point carries. A province polygon drawn by `px.choropleth_mapbox` carries its
  hover values there as a list (`CustomData.HoverValues`). Such an entry never equals a
  marker id, so it never turns a marker green.

## Model

| member | source | states |
|---|---|---|
| `Text.FoldChar` | app.py:85 | the `case=False` folding of one character; `Text.FoldCharIdempotent` states that folding is stable |
| `Text.Fold` | app.py:85 | the folding of a whole string, character by character; `Text.FoldIdempotent` states that it is stable |
| `Text.FoldCharIdempotent` | app.py:85 | folding a folded character changes nothing |
| `Text.ContainsIgnoringCase` | app.py:85 | `str.contains(place, case=False)` on a present name; `Text.ContainsIgnoringCaseFoldInvariant` states that the case of either side does not matter |
| `Text.Contains` | app.py:85 | the substring test is true exactly when the needle occurs at some position of the haystack |
| `Text.FoldIdempotent` | app.py:85 | case folding a folded string changes nothing |
| `Text.ContainsIgnoringCaseFoldInvariant` | app.py:85 | the `case=False` test gives the same answer whatever the case of the name or of the place |
| `Text.NoOccurrenceWithoutFirstChar` | app.py:85 | a place whose first character is absent from a name does not occur in it |
| `Text.NatToString` | app.py:97 | `str(i)` is a non-empty string of decimal digits with no `_`, with a leading `0` exactly for 0 |
| `Text.ParseNatToString` | app.py:97 | the decimal rendering of an index parses back to that index |
| `Text.NatToStringInjective` | app.py:97 | distinct indexes render as distinct strings |
| `Text.LastSegment` | app.py:97 | the segment after the last `_` holds no `_` and is a suffix of the id |
| `Text.LastSegmentAfterSeparator` | app.py:97 | for `prefix + "_" + digits`, the last segment is exactly the digits, whatever the prefix holds |
| `Text.Join` | app.py:71 | `sep.join(parts)`; `Text.JoinHoldsEveryPart` and `Text.JoinLength` state what it holds and how long it is |
| `Text.JoinHoldsEveryPart` | app.py:71 | every place stands in `", ".join(places)` at its computed offset |
| `Text.JoinLength` | app.py:71 | the joined string is as long as the places plus one separator between each two |
| `Places.Lookup` | app.py:71 | `province_to_places[prov]` is missing exactly when no item has that key; otherwise it is the places of an item with that key |
| `Places.ProvinceToPlacesKeysDistinct` | app.py:54-68 | the 13 provinces of the table are pairwise distinct |
| `Places.LookupItem` | app.py:54-68 | with distinct keys, looking up an item's province gives that item's places |
| `Places.BuildProvinceFrame` | app.py:71 | the hover column succeeds exactly when every province is in the table. On failure it names a missing province (KeyError). On success it has one row per province, in order, each with `", ".join` of that province's places |
| `Places.HoverListsEveryPlace` | app.py:71 | the hover text of a province contains each of its notable places |
| `Matcher.NameMatches` | app.py:85 | the mask of one point: its name is present and holds the place case-insensitively; `Matcher.MatchesByNameMembers` states what the mask keeps |
| `Matcher.MatchesByName` | app.py:85 | `points_gdf[mask]` in dataset order; `Matcher.MatchesByNameMembers` and `Matcher.MatchesByNameAppend` state its members and its order |
| `Matcher.MatchesByNameMembers` | app.py:85 | the mask keeps exactly the points whose name is present and holds the place case-insensitively |
| `Matcher.RowsWithin` | app.py:86-93 | the rows of the innermost loop; `Matcher.RowsWithinMembers` and `Matcher.RowsWithinAppend` state its members and order |
| `Matcher.PlaceRows` | app.py:85-93 | the rows of one (province, place) pair; `Matcher.PlaceRowsMembers` and `Matcher.PlaceRowsAppend` state its members and order |
| `Matcher.ProvinceRows` | app.py:84-93 | the rows of one province, place after place; `Matcher.ProvinceRowsMembers` and `Matcher.ProvinceRowsAppend` state its members and order |
| `Matcher.MatchTable` | app.py:80-93 | the whole scan, province after province; `Matcher.MatchTableMembers` and `Matcher.MatchTableAppend` state its members and order, and `Matcher.CollectFilteredRows` is proved equal to it |
| `Matcher.CollectFilteredRows` | app.py:80-93 | the three nested loops produce exactly `MatchTable`, the province-then-place-then-point scan |
| `Matcher.RowsWithinMembers` | app.py:86-93 | the innermost loop keeps exactly the matched points that lie within the province, with their coordinates |
| `Matcher.PlaceRowsMembers` | app.py:84-93 | a (province, place) pair yields a row for exactly the points that name the place and lie within the province |
| `Matcher.ProvinceRowSource` | app.py:84-93 | each row of a province comes from one of its places and a point that matches it and lies within |
| `Matcher.ProvinceRowFound` | app.py:84-93 | each place of a province and each point that matches it and lies within give a row |
| `Matcher.ProvinceRowsMembers` | app.py:84-93 | a province's rows are exactly the combinations of its places with matching points that lie within |
| `Matcher.MatchTableRowSource` | app.py:80-93 | each row of the scan comes from a table item, one of its places and a matching point within that province |
| `Matcher.MatchTableRowFound` | app.py:80-93 | each table item, place and matching point within the province give a row |
| `Matcher.MatchTableMembers` | app.py:80-93 | a row is in the scan exactly when it combines a table province, one of its places and a point that names the place and lies within |
| `Matcher.MatchedRowConditions` | app.py:81-93 | every row satisfies the three conditions: its place is in `province_to_places[Province]`; a point at its coordinates has a present name holding the place; that point lies within the province |
| `Matcher.MatchesByNameAppend` | app.py:85 | the name mask keeps dataset order |
| `Matcher.RowsWithinAppend` | app.py:86-93 | the innermost loop keeps the order of the matches |
| `Matcher.PlaceRowsAppend` | app.py:84-93 | for one place, rows come out in dataset order of the points |
| `Matcher.ProvinceRowsAppend` | app.py:84 | for one province, rows come out in list order of its places |
| `Matcher.MatchTableAppend` | app.py:81 | rows come out in dict order of the provinces |
| `Matcher.MarkerId` | app.py:97 | the f-string `"{Province}_{Place}_{index}"`; `Matcher.MarkerIdIndex` and `Matcher.MarkerIdsDiffer` state that the index can be read back and that ids of different positions differ |
| `Matcher.MarkerIdIndex` | app.py:97 | the digits after the last `_` of `"{Province}_{Place}_{i}"` parse back to i, whatever the names hold |
| `Matcher.MarkerIdsDiffer` | app.py:97 | ids built for different positions differ |
| `Matcher.AssignMarkerIds` | app.py:95-97 | the id column keeps every row as it was, gives row i the id `MarkerId(Province, Place, i)`, whose last segment parses back to i, and no two ids are equal |
| `Matcher.NotableEntryConditions` | app.py:80-97 | every entry of `notable_df` satisfies the three matcher conditions, and its id is `Province + "_" + Place + "_" + str(position)` |
| `Matcher.BuildNotableTable` | app.py:80-97 | the notable table is the scan followed by the id column, and its ids are pairwise distinct |
| `Clicks.ClickedData` | app.py:126-130 | the `customdata` of an event's first point, when the event, its `points` and that key are present; `Clicks.UpdateClickedMarkers` states that this is what gets stored |
| `Clicks.UpdateClickedMarkers` | app.py:125-134 | raises exactly on an empty `points` list. Otherwise the old list is a prefix of the new one, and at most one entry is added: the clicked point's custom data. The list is unchanged exactly when there is no custom data or it is already present |
| `Clicks.ClickAppendsNewId` | app.py:129-133 | a click whose first point carries an id not yet stored appends exactly that id |
| `Clicks.MalformedEventIsNoOp` | app.py:126-134 | a missing or falsy event, an event without `points`, or a first point without `customdata` leaves the list unchanged |
| `Clicks.ClickIdempotent` | app.py:132-134 | repeating a click gives the state the first click gave |
| `Clicks.ClickKeepsNoDuplicates` | app.py:132-133 | a list without duplicates stays without duplicates |
| `Clicks.Step` | app.py:113-134 | one round of the `clicked-markers` store: the callback's result, or the old data when it raises; the `Replay` lemmas below state what it keeps |
| `Clicks.Replay` | app.py:113-134 | the store after a session of click events, starting from `data=[]`; `Clicks.ReplayExtends`, `Clicks.ReplayNoDuplicates` and `Clicks.ReplayMembers` state what it holds |
| `Clicks.SingleClick` | app.py:113-134 | a session whose only event clicks a point carrying custom data leaves exactly that entry in the empty store |
| `Clicks.ReplayExtends` | app.py:113-134 | over a session, the store only grows at its end: the initial list is a prefix of every later one |
| `Clicks.ReplayNoDuplicates` | app.py:113-134 | over a session started from an empty or duplicate-free list, the store never holds an entry twice |
| `Clicks.ReplayMembers` | app.py:113-134 | the store holds exactly the initial entries and the custom data some event carried |
| `Clicks.ClickOrder` | app.py:113-134 | clicking a then b on the empty store gives [a, b]: click order, not sorted order |
| `MapView.Filter` | app.py:163-168 | a mask or filtering comprehension keeps exactly the items that pass, and never more items than it was given |
| `MapView.FilterAppend` | app.py:163-168 | filtering keeps the original order |
| `MapView.FilterKeepsIdsDistinct` | app.py:183 | the marker subset of a table with distinct ids has distinct ids |
| `MapView.NoSelection` | app.py:146 | `not selected_provinces`: no value or an empty list; `MapView.UpdateMap` states what each branch draws |
| `MapView.SelectRows` | app.py:163 | the frame rows drawn are exactly those of a selected province; `MapView.SelectRowsAppend` states that they keep frame order |
| `MapView.SelectFeatures` | app.py:164-168 | the boundary features drawn are exactly those whose `shapeName` is selected, in their original order (`MapView.FilterAppend`) |
| `MapView.MarkerSubset` | app.py:183 | the notable rows drawn are exactly those of a selected province; `MapView.MarkerSubsetAppend` states that they keep table order |
| `MapView.MarkerColours` | app.py:186-187 | one colour per marker, always green or red, green exactly when the marker's id is among the clicked entries |
| `MapView.MarkerLayer` | app.py:189-198 | one marker per notable row, in order, carrying that row's position, place and id and its colour |
| `MapView.UpdateMap` | app.py:144-201 | no selection: every province, light gray, opacity 0.5, no marker layer. A selection: exactly the selected rows and features, each once and in its original order, blue, opacity 0.7. The marker layer is present exactly when some notable row is in a selected province. It holds those rows in order, each green exactly when its id was clicked. Both branches use the same camera |
| `MapView.NoSelectionIgnoresClicks` | app.py:146-160 | with no selection the figure is the same whatever the clicked list holds |
| `MapView.SelectRowsAppend` | app.py:163 | the drawn provinces keep the order of the province frame |
| `MapView.MarkerSubsetAppend` | app.py:183 | the markers keep the order of the notable table |
| `MapView.NothingClickedAllRed` | app.py:186-187 | when no marker id has been clicked, every marker is red |
| `MapView.OneClickOneGreen` | app.py:183-196 | in a table with distinct ids, after a single click on entry k's marker, selecting k's province shows exactly one green marker, k's, and every other marker red |
| `MapView.OnlyOneIdClicked` | app.py:186-187 | in a list with distinct ids, entry j's id is in a store holding only entry i's id exactly when j is i |
| `Scenario.TowerFacts` | app.py:85 | in the scenario, the name of the point in X matches "Tower" and the name of the point in Y does not |
| `Scenario.ParkFacts` | app.py:85 | in the scenario, the name of the point in Y matches "Park" and the name of the point in X does not |
| `Scenario.ScenarioFrame` | app.py:71 | the frame of the boundary features X and Y has X with hover text "Tower", then Y with "Park" |
| `Scenario.ScenarioRows` | app.py:80-93 | a two-province data set gives exactly the two expected rows, in dict order |
| `Scenario.ScenarioMap` | app.py:162-198 | selecting X over that frame and a two-row table whose first row is X's draws X's frame row and feature only, and one marker, that row's |
| `Scenario.TwoProvinceScenario` | app.py:71-198 | end to end: the frame of line 71, two rows with distinct ids, and selecting X alone draws X and one marker, for "Tower" |

## Left out

- Dash app construction, the layout, callback registration, `app.run_server` and the `PORT` lookup (app.py:18-19, 50-51, 102-115, 207-208) are framework and server plumbing. The dropdown's sorted options are layout too.
- `unzip_geojsons`, the existence check, JSON and geopandas loading and the CRS settings (app.py:29-46, 74-77) are file I/O and foreign library calls. The boundary features, the province frame and the points of interest are inputs of the model.
- `within(point, province)` and `union_all()` (app.py:83, 87) are floating-point computational geometry in shapely. The model takes `within` as a parameter of type `(Poi, string) -> bool` and names the province instead of its merged polygon.
- Latitude and longitude (app.py:91-92) are carried through as `real` values and nothing is computed on them.
- The plotly figure (app.py:147-159, 169-180, 190-200) is reduced to an abstract record. The record has the drawn rows and features, the colour and opacity constants, one `Camera` constant for style, zoom, centre and margins, and the scatter markers with position, hover text, custom data and colour. Marker size and the hover template are not modelled.
- Text.ContainsIgnoringCase: `str.contains` searches with a regular expression and full Unicode case-insensitivity. The model tests a literal substring after simple folding of ASCII and Latin-1 capitals. No listed place name contains a regular-expression metacharacter.
- A point's name that is present but not a string (pandas then yields a missing value, which `na=False` treats as no match) is not modelled. Names are `Option<string>`.
- When the scan finds no row at all, pandas builds `notable_df` without columns. The script then fails at line 97, where assigning the result of `apply` over a frame without columns to the `marker_id` column raises; on a pandas that accepts that assignment it fails in `update_map` at line 183, on `notable_df["Province"]`. The model treats that table as empty.
- `customdata` values other than a marker id string or a list of strings are not modelled.
- Clicks.Step: that a raising callback leaves the store's data as it was is Dash's behaviour, not the script's. It is stated as a definition, not derived.

# Road network construction of NetworkManager

This project models `NetworkManager.SetupNetwork`, the part of the Unity road
viewer that turns the GeoJSON road features of a district file into `Road`s.
`SetupNetwork` visits a contiguous range of features, starting at
`startRoadIndex` and covering `(int)(count * _displayedRoadPercentage)` of
them. It drops a feature whose raw vertex count is at most `minRoadVertices`.
It samples the remaining vertices with step `_loopingStepsCount` and maps each
sampled vertex to the scene node `(-longitude, 0, -latitude) + offset`. It
keeps only the nodes inside the district box `[_minimumPosition,
_maximumPosition]`. It appends a `Road` (nodes, width, lane count) to `roads`
when more than `minRoadVertices` nodes survive.

The project has four modules:

- `Geometry` (geometry.dfy): GeoJSON positions, `Vector3`, the node transform
  and the inclusive box test.
- `Sampling` (sampling.dfy): the raw indices visited by the inner loop.
- `RoadNetwork` (road_network.dfy): the whole construction as pure functions,
  and the lemmas about them. `Build` is what one call of `SetupNetwork`
  appends, and how that call ends.
- `Manager` (network_manager.dfy): the `NetworkManager` class. It has the
  serialized settings, the `roads` list and `SetupNetwork`, written as the
  original's nested loops with `continue`. `SetupNetwork` is proved to append
  exactly `Build(...).added` to `roads`. Its inner loop is the method
  `SampleNodes`, proved equal to `NodesFrom`.

Coordinates are exact reals. Width and lane count come from
`RoadGeoJsonDisplayer`, whose code is not part of this model. They are two
arbitrary total functions of the feature, carried by the `Displayer` value.
A run with the same features, settings and displayer always appends the same
roads, because `Build` is a function. Features are values, so `SetupNetwork`
cannot change the positions it reads. Its postcondition keeps `roads` as a
prefix of the new list, so a second call appends the same roads a second time.

The model follows the code as written:

- The list indexer is never guarded. A range that runs past the end of the
  feature list, or starts below 0, makes the loop throw at the first index
  outside the list. The roads of the earlier indices have already been added
  by then. `Build` returns those roads with `IndexOutOfRange(i)`. Nothing is
  checked before the loop, and the range is not clamped.
- `roads` is only cleared in `Start`. `SetupNetwork` appends to it.
- The stride guard `n >= 2 && n / chosenLoopingStep >= 2` is kept as written
  (`ChosenStep`). `ChosenStepUnobservable` proves that it never changes which
  indices are sampled.
- `minRoadVertices` is any integer. The `[0, 10]` range is an editor setting,
  not a check in the code. With a negative value, a road with no nodes can be
  emitted.

## Model

| member | source | states |
|---|---|---|
| `Geometry.NodePositionExample` | Assets/Roads/Scripts/RoadArchitect/NetworkManager.cs:71 | longitude 5 and latitude 3 with a zero offset give the node (-5, 0, -3) |
| `Geometry.NodePositionInverse` | Assets/Roads/Scripts/RoadArchitect/NetworkManager.cs:71 | the raw position can be recovered from its node and the offset; every node has the offset's height |
| `Geometry.NodePositionInjective` | Assets/Roads/Scripts/RoadArchitect/NetworkManager.cs:71 | distinct raw positions give distinct nodes |
| `Geometry.CornersAreInside` | Assets/Roads/Scripts/RoadArchitect/NetworkManager.cs:43-45 | the box test is inclusive: both corners of a well-formed box are inside it |
| `Geometry.CrossedBoxIsEmpty` | Assets/Roads/Scripts/RoadArchitect/NetworkManager.cs:43-45 | a box whose corners are crossed on some axis contains no point |
| `Sampling.SampleFromMember` | Assets/Roads/Scripts/RoadArchitect/NetworkManager.cs:69 | from j on, the loop visits exactly the indices below n that are a multiple of the step away from j |
| `Sampling.SampleFromIncreasing` | Assets/Roads/Scripts/RoadArchitect/NetworkManager.cs:69 | the visited indices are strictly increasing |
| `Sampling.StrideIndicesExact` | Assets/Roads/Scripts/RoadArchitect/NetworkManager.cs:69 | a list of n positions is sampled at exactly the multiples of the step below n, in increasing order |
| `Sampling.StrideIndicesLength` | Assets/Roads/Scripts/RoadArchitect/NetworkManager.cs:69 | ceil(n / step) indices are sampled, at most n |
| `Sampling.ShortListStepIrrelevant` | Assets/Roads/Scripts/RoadArchitect/NetworkManager.cs:65-69 | a list of at most one position is sampled the same way whatever the step |
| `Sampling.NineByThree` | Assets/Roads/Scripts/RoadArchitect/NetworkManager.cs:69 | nine positions with step 3 are sampled at 0, 3 and 6 |
| `RoadNetwork.TruncateToInt` | Assets/Roads/Scripts/RoadArchitect/NetworkManager.cs:48 | the `(int)` cast truncates toward zero |
| `RoadNetwork.DisplayedCountBounds` | Assets/Roads/Scripts/RoadArchitect/NetworkManager.cs:48 | for a percentage in [0, 1] between 0 and all features are displayed; all at 1, none at 0 |
| `RoadNetwork.RangeExample` | Assets/Roads/Scripts/RoadArchitect/NetworkManager.cs:48-51 | ten features from index 2 at 0.5 visit indices 2 to 6 |
| `RoadNetwork.ChosenStepUnobservable` | Assets/Roads/Scripts/RoadArchitect/NetworkManager.cs:56-69 | the step guard never changes the sampled indices or the kept nodes: the configured step is always in effect |
| `RoadNetwork.KeptFromNodes` | Assets/Roads/Scripts/RoadArchitect/NetworkManager.cs:69-75 | each kept node is the transform of the position at its kept raw index |
| `RoadNetwork.KeptFromMember` | Assets/Roads/Scripts/RoadArchitect/NetworkManager.cs:69-75 | a raw index is kept if and only if it is visited and its node is in the box; an outside node does not stop the loop |
| `RoadNetwork.KeptFromIncreasing` | Assets/Roads/Scripts/RoadArchitect/NetworkManager.cs:69-75 | kept raw indices are strictly increasing: nodes keep the order of their source positions |
| `RoadNetwork.KeptFromLength` | Assets/Roads/Scripts/RoadArchitect/NetworkManager.cs:69-75 | no more nodes are kept than positions are visited |
| `RoadNetwork.FeatureNodesExact` | Assets/Roads/Scripts/RoadArchitect/NetworkManager.cs:65-75 | the nodes of a feature are exactly the in-box transforms of its positions at the multiples of the step, in increasing index order; all in the box, at most ceil(n / step) of them |
| `RoadNetwork.FeatureRoadExact` | Assets/Roads/Scripts/RoadArchitect/NetworkManager.cs:59-63 | a feature yields a road if and only if more than minRoadVertices nodes survive; a feature with at most minRoadVertices raw positions yields none; the road holds those nodes, the width and the lane count |
| `RoadNetwork.FeatureRoadShape` | Assets/Roads/Scripts/RoadArchitect/NetworkManager.cs:78-83 | an emitted road has more than minRoadVertices and at most ceil(n / step) nodes, all in the box |
| `RoadNetwork.SourceIndicesRoads` | Assets/Roads/Scripts/RoadArchitect/NetworkManager.cs:51-83 | each road of a range is the road of a source feature inside the range |
| `RoadNetwork.SourceIndicesMember` | Assets/Roads/Scripts/RoadArchitect/NetworkManager.cs:51-83 | a feature index is a source if and only if it lies in the range and the feature yields a road |
| `RoadNetwork.SourceIndicesIncreasing` | Assets/Roads/Scripts/RoadArchitect/NetworkManager.cs:51-83 | roads come out in strictly increasing source feature order |
| `RoadNetwork.RoadsInRangeSources` | Assets/Roads/Scripts/RoadArchitect/NetworkManager.cs:51-83 | the roads of a range are the roads of its accepted features, one each, in feature order |
| `RoadNetwork.RoadsInRangeLength` | Assets/Roads/Scripts/RoadArchitect/NetworkManager.cs:51-82 | a range yields at most one road per visited feature |
| `RoadNetwork.SparseFeatureNeverEmitted` | Assets/Roads/Scripts/RoadArchitect/NetworkManager.cs:59-63 | a feature with at most minRoadVertices raw positions is never the source of a road, whatever the box |
| `RoadNetwork.RoadsInRangeShape` | Assets/Roads/Scripts/RoadArchitect/NetworkManager.cs:73-83 | every road of a range has more than minRoadVertices nodes, all in the box |
| `RoadNetwork.SparseFeatureStep` | Assets/Roads/Scripts/RoadArchitect/NetworkManager.cs:59-63 | a feature stopped by the vertex gate adds nothing |
| `RoadNetwork.SampledFeatureStep` | Assets/Roads/Scripts/RoadArchitect/NetworkManager.cs:65-83 | a feature past the gate adds its road exactly when more than minRoadVertices nodes are kept |
| `RoadNetwork.BuildStopsAt` | Assets/Roads/Scripts/RoadArchitect/NetworkManager.cs:51-53 | reaching an index outside the list ends the run there, keeping the roads already added |
| `RoadNetwork.BuildCompletes` | Assets/Roads/Scripts/RoadArchitect/NetworkManager.cs:48-53 | a non-empty range inside the list adds the roads of that range |
| `RoadNetwork.BuildExact` | Assets/Roads/Scripts/RoadArchitect/NetworkManager.cs:48-53 | a run completes if and only if the range is empty or inside the list; it then adds the range's roads, at most one per feature; a failing run stops at an index of the range that lies outside the list |
| `RoadNetwork.BuildFromStartCompletes` | Assets/Roads/Scripts/RoadArchitect/NetworkManager.cs:48-53 | starting at index 0 with a percentage in [0, 1], a run always completes and adds at most one road per feature |
| `RoadNetwork.BuildShape` | Assets/Roads/Scripts/RoadArchitect/NetworkManager.cs:73-83 | every road a run adds has more than minRoadVertices nodes, all in the box |
| `Manager.SampleNodes` | Assets/Roads/Scripts/RoadArchitect/NetworkManager.cs:68-75 | the inner loop builds exactly `NodesFrom(positions, 0, step, offset, box)` |
| `Manager.NetworkManager.SetupNetwork` | Assets/Roads/Scripts/RoadArchitect/NetworkManager.cs:37-86 | stores the features read; appends exactly `Build(...).added` to `roads`, keeping the old roads as a prefix; ends with `Build(...).outcome`; no setting changes |

## Left out

- `Start` and `Refresh`: Unity lifecycle, component lookup and the call to the renderer.
- `_roadJsonParser.ReadRoad()`: file and JSON reading. Its result is the `features` parameter of `SetupNetwork`.
- `RoadGeoJsonDisplayer.GetWidth` and `GetNumLane`: their code is not part of this model. They are arbitrary total functions of the feature.
- `Debug.Log`, `Debug.LogWarning` and `Debug.LogError`: logging only.
- Floating point: coordinates, the percentage and the product `count * _displayedRoadPercentage` are exact reals. Single-precision rounding, and a cast of a value too large for `int`, are not modelled.
- Unity's `Bounds`: the box is its two corners and the test is inclusive on every axis. How the engine stores a box (centre and extents) and its rounding are not modelled.
- `Manager.NetworkManager.SetupNetwork`: requires `_loopingStepsCount >= 1`. With 0 the inner loop never ends on lists of two or more positions. With a negative step it indexes below 0. The editor range [1, 10] excludes both.
- `RoadNetwork.MaxDisplayRoad`: in the source, the start index plus the displayed count is a 32-bit `int` sum that wraps silently. In the model it is an unbounded integer. So a start index near `int.MaxValue` behaves differently: the source's loop bound wraps negative and the loop runs zero times, while `Build` reports `IndexOutOfRange`.
- The geometry type behind `feature.geometry.AllPositions()` is not modelled. A feature is its position list and its attribute bag.

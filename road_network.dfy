/**
 * The road network construction of NetworkManager.SetupNetwork as pure
 * functions: range selection, the minimum-vertex gate, stride sampling, the
 * transform to scene nodes, clipping to the district box and acceptance.
 * The imperative method in module Manager is proved equal to Build.
 */
module RoadNetwork {
  import opened Geometry
  import opened Sampling

  datatype Option<T> = None | Some(value: T)

  /** A GeoJSON road feature: its geometry's positions and its attribute bag. */
  datatype Feature = Feature(allPositions: seq<Position>, properties: map<string, string>)

  /** An accepted road: its scene nodes, its width and its number of lanes. */
  datatype Road = Road(points: seq<Vector3>, width: real, numLane: int)

  /**
   * The two queries SetupNetwork puts to RoadGeoJsonDisplayer. Their bodies
   * are not part of this model, so they are arbitrary total functions.
   */
  datatype Displayer = Displayer(getWidth: Feature -> real, getNumLane: Feature -> int)

  /** The serialized fields of NetworkManager that SetupNetwork reads. */
  datatype Settings = Settings(
    offset: Vector3,
    startRoadIndex: int,
    minRoadVertices: int,
    displayedRoadPercentage: real,
    loopingStepsCount: int,
    minimumPosition: Vector3,
    maximumPosition: Vector3)
  {
    /** The inner loop only terminates for a positive step. */
    predicate Valid() { loopingStepsCount >= 1 }

    function Box(): Bounds { Bounds(minimumPosition, maximumPosition) }
  }

  // ---------------------------------------------------------------- range

  /** The C# cast `(int)r` of a floating-point value: truncation toward zero. */
  function TruncateToInt(r: real): (t: int)
    ensures 0.0 <= r ==> 0 <= t && t as real <= r < t as real + 1.0
    ensures r < 0.0 ==> t <= 0 && t as real - 1.0 < r <= t as real
  {
    if r >= 0.0 then r.Floor else -((-r).Floor)
  }

  /** How many features are displayed: `(int)(count * _displayedRoadPercentage)`. */
  function DisplayedCount(count: nat, percentage: real): int
  {
    TruncateToInt(count as real * percentage)
  }

  /** The exclusive upper end of the visited feature indices. */
  function MaxDisplayRoad(count: nat, s: Settings): int
  {
    s.startRoadIndex + DisplayedCount(count, s.displayedRoadPercentage)
  }

  lemma ScaleAtMost(a: real, p: real)
    requires 0.0 <= a && 0.0 <= p <= 1.0
    ensures 0.0 <= a * p <= a
  {
    assert a - a * p == a * (1.0 - p);
  }

  /** A percentage in [0, 1] displays between none and all of the features. */
  lemma DisplayedCountBounds(count: nat, percentage: real)
    requires 0.0 <= percentage <= 1.0
    ensures 0 <= DisplayedCount(count, percentage) <= count
    ensures percentage == 1.0 ==> DisplayedCount(count, percentage) == count
    ensures percentage == 0.0 ==> DisplayedCount(count, percentage) == 0
  {
    var x := count as real * percentage;
    ScaleAtMost(count as real, percentage);
    assert 0.0 <= x <= count as real;
    assert x.Floor <= (count as real).Floor;
  }

  /** Ten features from index 2 at fifty percent: indices 2 to 6 are visited. */
  lemma RangeExample(s: Settings)
    requires s.startRoadIndex == 2 && s.displayedRoadPercentage == 0.5
    ensures MaxDisplayRoad(10, s) == 7
  {
    assert 10 as real * 0.5 == 5.0;
  }

  // --------------------------------------------------------- one feature

  /**
   * The step of the inner loop. The guard divides by the step while it still
   * holds 1, so it amounts to `n >= 2`.
   */
  function ChosenStep(n: int, loopingStepsCount: int): int
  {
    var chosenLoopingStep := 1;
    if n >= 2 && n / chosenLoopingStep >= 2 then loopingStepsCount else chosenLoopingStep
  }

  /**
   * The nodes the inner loop adds from index j on: the scene node of every
   * visited position that lies inside the box, in visiting order.
   */
  function NodesFrom(ps: seq<Position>, j: nat, step: int, offset: Vector3, box: Bounds): seq<Vector3>
    requires step >= 1
    decreases |ps| - j
  {
    if j >= |ps| then []
    else
      var nodePosition := NodePosition(ps[j], offset);
      (if Contains(box, nodePosition) then [nodePosition] else []) + NodesFrom(ps, j + step, step, offset, box)
  }

  /** `allNewNodes` once the inner loop is done. */
  function FeatureNodes(ps: seq<Position>, s: Settings): seq<Vector3>
    requires s.Valid()
  {
    NodesFrom(ps, 0, ChosenStep(|ps|, s.loopingStepsCount), s.offset, s.Box())
  }

  /** What one iteration of the outer loop adds for a feature: a road, or nothing. */
  function FeatureRoad(f: Feature, s: Settings, d: Displayer): Option<Road>
    requires s.Valid()
  {
    if |f.allPositions| <= s.minRoadVertices then None
    else
      var allNewNodes := FeatureNodes(f.allPositions, s);
      if s.minRoadVertices < |allNewNodes| then
        Some(Road(allNewNodes, d.getWidth(f), d.getNumLane(f)))
      else None
  }

  /** The raw indices of the nodes NodesFrom keeps: the visited indices whose node is in the box. */
  ghost function KeptFrom(ps: seq<Position>, j: nat, step: int, offset: Vector3, box: Bounds): seq<nat>
    requires step >= 1
    decreases |ps| - j
  {
    if j >= |ps| then []
    else
      (if Contains(box, NodePosition(ps[j], offset)) then [j] else []) + KeptFrom(ps, j + step, step, offset, box)
  }

  /** The redundant guard is not observable: sampling always uses the configured step. */
  lemma ChosenStepUnobservable(ps: seq<Position>, step: int, offset: Vector3, box: Bounds)
    requires step >= 1
    ensures ChosenStep(|ps|, step) >= 1
    ensures StrideIndices(|ps|, ChosenStep(|ps|, step)) == StrideIndices(|ps|, step)
    ensures NodesFrom(ps, 0, ChosenStep(|ps|, step), offset, box) == NodesFrom(ps, 0, step, offset, box)
  {
    if |ps| < 2 {
      ShortListStepIrrelevant(|ps|, 1, step);
      if |ps| == 1 {
        assert NodesFrom(ps, 1, 1, offset, box) == [] == NodesFrom(ps, step, step, offset, box);
      }
    }
  }

  /** Each kept node is the scene node of the position at its kept index. */
  lemma {:induction false} KeptFromNodes(ps: seq<Position>, j: nat, step: int, offset: Vector3, box: Bounds)
    requires step >= 1
    ensures |NodesFrom(ps, j, step, offset, box)| == |KeptFrom(ps, j, step, offset, box)|
    ensures forall k :: 0 <= k < |KeptFrom(ps, j, step, offset, box)| ==>
      && KeptFrom(ps, j, step, offset, box)[k] < |ps|
      && NodesFrom(ps, j, step, offset, box)[k] == NodePosition(ps[KeptFrom(ps, j, step, offset, box)[k]], offset)
    decreases |ps| - j
  {
    if j < |ps| {
      KeptFromNodes(ps, j + step, step, offset, box);
    }
  }

  /** An index is kept exactly when it is visited and its node lies in the box. */
  lemma {:induction false} KeptFromMember(ps: seq<Position>, j: nat, step: int, offset: Vector3, box: Bounds, i: int)
    requires step >= 1
    ensures i in KeptFrom(ps, j, step, offset, box) <==>
      0 <= i < |ps| && i in SampleFrom(j, |ps|, step) && Contains(box, NodePosition(ps[i], offset))
    decreases |ps| - j
  {
    if j < |ps| {
      KeptFromMember(ps, j + step, step, offset, box, i);
      assert SampleFrom(j, |ps|, step) == [j] + SampleFrom(j + step, |ps|, step);
    }
  }

  /** Kept indices are at least j and strictly increasing. */
  lemma {:induction false} KeptFromIncreasing(ps: seq<Position>, j: nat, step: int, offset: Vector3, box: Bounds)
    requires step >= 1
    ensures forall k :: 0 <= k < |KeptFrom(ps, j, step, offset, box)| ==> j <= KeptFrom(ps, j, step, offset, box)[k]
    ensures StrictlyIncreasing(KeptFrom(ps, j, step, offset, box))
    decreases |ps| - j
  {
    if j < |ps| {
      KeptFromIncreasing(ps, j + step, step, offset, box);
    }
  }

  /** No more indices are kept than are visited. */
  lemma {:induction false} KeptFromLength(ps: seq<Position>, j: nat, step: int, offset: Vector3, box: Bounds)
    requires step >= 1
    ensures |KeptFrom(ps, j, step, offset, box)| <= |SampleFrom(j, |ps|, step)|
    decreases |ps| - j
  {
    if j < |ps| {
      KeptFromLength(ps, j + step, step, offset, box);
    }
  }

  /** The raw indices whose scene nodes make up a feature's road. */
  ghost function KeptIndices(ps: seq<Position>, s: Settings): seq<nat>
    requires s.Valid()
  {
    KeptFrom(ps, 0, s.loopingStepsCount, s.offset, s.Box())
  }

  /**
   * The nodes of a feature are exactly the in-box scene nodes of the
   * positions at the multiples of the configured step, in increasing raw
   * index order; there are at most ceil(n / step) of them.
   */
  lemma FeatureNodesExact(ps: seq<Position>, s: Settings)
    requires s.Valid()
    ensures |FeatureNodes(ps, s)| == |KeptIndices(ps, s)|
    ensures forall k :: 0 <= k < |KeptIndices(ps, s)| ==>
      KeptIndices(ps, s)[k] < |ps| && FeatureNodes(ps, s)[k] == NodePosition(ps[KeptIndices(ps, s)[k]], s.offset)
    ensures StrictlyIncreasing(KeptIndices(ps, s))
    ensures forall i :: i in KeptIndices(ps, s) <==>
      0 <= i < |ps| && i % s.loopingStepsCount == 0 && Contains(s.Box(), NodePosition(ps[i], s.offset))
    ensures forall p :: p in FeatureNodes(ps, s) ==> Contains(s.Box(), p)
    ensures |FeatureNodes(ps, s)| <= (|ps| + s.loopingStepsCount - 1) / s.loopingStepsCount
    ensures |FeatureNodes(ps, s)| <= |ps|
  {
    var step, offset, box := s.loopingStepsCount, s.offset, s.Box();
    ChosenStepUnobservable(ps, step, offset, box);
    var nodes, idx := FeatureNodes(ps, s), KeptIndices(ps, s);
    assert nodes == NodesFrom(ps, 0, step, offset, box);
    KeptFromNodes(ps, 0, step, offset, box);
    KeptFromIncreasing(ps, 0, step, offset, box);
    forall i ensures i in idx <==> 0 <= i < |ps| && i % step == 0 && Contains(box, NodePosition(ps[i], offset)) {
      KeptFromMember(ps, 0, step, offset, box, i);
      StrideIndicesExact(|ps|, step, i);
    }
    KeptFromLength(ps, 0, step, offset, box);
    StrideIndicesLength(|ps|, step);
    forall p | p in nodes ensures Contains(box, p) {
      var k :| 0 <= k < |nodes| && nodes[k] == p;
      assert idx[k] in idx;
    }
  }

  /**
   * A feature yields a road exactly when more than minRoadVertices of its
   * sampled nodes are inside the box; the gate on the raw vertex count only
   * rejects early what this test would reject anyway.
   */
  lemma FeatureRoadExact(f: Feature, s: Settings, d: Displayer)
    requires s.Valid()
    ensures FeatureRoad(f, s, d).Some? <==> s.minRoadVertices < |FeatureNodes(f.allPositions, s)|
    ensures |f.allPositions| <= s.minRoadVertices ==> FeatureRoad(f, s, d).None?
    ensures FeatureRoad(f, s, d).Some? ==>
      FeatureRoad(f, s, d).value == Road(FeatureNodes(f.allPositions, s), d.getWidth(f), d.getNumLane(f))
  {
    FeatureNodesExact(f.allPositions, s);
  }

  /**
   * Every emitted road has more than minRoadVertices nodes and at most
   * ceil(n / step), all of them inside the box.
   */
  lemma FeatureRoadShape(f: Feature, s: Settings, d: Displayer)
    requires s.Valid() && FeatureRoad(f, s, d).Some?
    ensures s.minRoadVertices < |FeatureRoad(f, s, d).value.points|
      <= (|f.allPositions| + s.loopingStepsCount - 1) / s.loopingStepsCount
    ensures forall p :: p in FeatureRoad(f, s, d).value.points ==> Contains(s.Box(), p)
  {
    FeatureNodesExact(f.allPositions, s);
  }

  // -------------------------------------------------------- all features

  /** The roads the outer loop appends for the feature indices lo to hi - 1. */
  function RoadsInRange(features: seq<Feature>, lo: nat, hi: int, s: Settings, d: Displayer): seq<Road>
    requires s.Valid() && hi <= |features|
    decreases hi - lo
  {
    if hi <= lo then []
    else
      RoadsInRange(features, lo, hi - 1, s, d)
        + match FeatureRoad(features[hi - 1], s, d)
          case Some(road) => [road]
          case None => []
  }

  /** The index of the source feature of each road of RoadsInRange. */
  ghost function SourceIndices(features: seq<Feature>, lo: nat, hi: int, s: Settings, d: Displayer): seq<int>
    requires s.Valid() && hi <= |features|
    decreases hi - lo
  {
    if hi <= lo then []
    else
      SourceIndices(features, lo, hi - 1, s, d)
        + if FeatureRoad(features[hi - 1], s, d).Some? then [hi - 1] else []
  }

  /** Each road of a range is the road of its source feature, which lies in the range. */
  lemma {:induction false} SourceIndicesRoads(features: seq<Feature>, lo: nat, hi: int, s: Settings, d: Displayer)
    requires s.Valid() && hi <= |features|
    ensures |RoadsInRange(features, lo, hi, s, d)| == |SourceIndices(features, lo, hi, s, d)|
    ensures forall k :: 0 <= k < |SourceIndices(features, lo, hi, s, d)| ==>
      && lo <= SourceIndices(features, lo, hi, s, d)[k] < hi
      && FeatureRoad(features[SourceIndices(features, lo, hi, s, d)[k]], s, d)
         == Some(RoadsInRange(features, lo, hi, s, d)[k])
    decreases hi - lo
  {
    if lo < hi {
      SourceIndicesRoads(features, lo, hi - 1, s, d);
    }
  }

  /** Every feature of the range that yields a road is a source, and no other. */
  lemma {:induction false} SourceIndicesMember(features: seq<Feature>, lo: nat, hi: int, s: Settings, d: Displayer, i: int)
    requires s.Valid() && hi <= |features|
    ensures i in SourceIndices(features, lo, hi, s, d) <==>
      lo <= i < hi && FeatureRoad(features[i], s, d).Some?
    decreases hi - lo
  {
    if lo < hi {
      SourceIndicesMember(features, lo, hi - 1, s, d, i);
    }
  }

  /** Roads come out in increasing order of their source features. */
  lemma {:induction false} SourceIndicesIncreasing(features: seq<Feature>, lo: nat, hi: int, s: Settings, d: Displayer)
    requires s.Valid() && hi <= |features|
    ensures StrictlyIncreasing(SourceIndices(features, lo, hi, s, d))
    decreases hi - lo
  {
    if lo < hi {
      SourceIndicesIncreasing(features, lo, hi - 1, s, d);
      SourceIndicesRoads(features, lo, hi - 1, s, d);
    }
  }

  /**
   * The roads built for a range of features are those of the accepted
   * features of the range, one each, in increasing feature order.
   */
  lemma RoadsInRangeSources(features: seq<Feature>, lo: nat, hi: int, s: Settings, d: Displayer)
    requires s.Valid() && hi <= |features|
    ensures |RoadsInRange(features, lo, hi, s, d)| == |SourceIndices(features, lo, hi, s, d)|
    ensures forall k :: 0 <= k < |SourceIndices(features, lo, hi, s, d)| ==>
      && lo <= SourceIndices(features, lo, hi, s, d)[k] < hi
      && FeatureRoad(features[SourceIndices(features, lo, hi, s, d)[k]], s, d)
         == Some(RoadsInRange(features, lo, hi, s, d)[k])
    ensures StrictlyIncreasing(SourceIndices(features, lo, hi, s, d))
    ensures forall i :: lo <= i < hi ==>
      (i in SourceIndices(features, lo, hi, s, d) <==> FeatureRoad(features[i], s, d).Some?)
  {
    SourceIndicesRoads(features, lo, hi, s, d);
    SourceIndicesIncreasing(features, lo, hi, s, d);
    forall i | lo <= i < hi
      ensures i in SourceIndices(features, lo, hi, s, d) <==> FeatureRoad(features[i], s, d).Some?
    {
      SourceIndicesMember(features, lo, hi, s, d, i);
    }
  }

  /** A range of features yields at most one road per feature. */
  lemma RoadsInRangeLength(features: seq<Feature>, lo: nat, hi: int, s: Settings, d: Displayer)
    requires s.Valid() && lo <= hi <= |features|
    ensures |RoadsInRange(features, lo, hi, s, d)| <= hi - lo
  {
    var a := SourceIndices(features, lo, hi, s, d);
    SourceIndicesRoads(features, lo, hi, s, d);
    SourceIndicesIncreasing(features, lo, hi, s, d);
    var shifted := seq(|a|, k requires 0 <= k < |a| => a[k] - lo);
    assert StrictlyIncreasing(shifted);
    BoundedIncreasingLength(shifted, hi - lo);
  }

  /** A feature with at most minRoadVertices raw positions never contributes a road, whatever the box. */
  lemma SparseFeatureNeverEmitted(features: seq<Feature>, lo: nat, hi: int, s: Settings, d: Displayer, i: int)
    requires s.Valid() && hi <= |features| && lo <= i < hi
    requires |features[i].allPositions| <= s.minRoadVertices
    ensures i !in SourceIndices(features, lo, hi, s, d)
  {
    SourceIndicesMember(features, lo, hi, s, d, i);
  }

  /** Every road built for a range lies in the box and has more than minRoadVertices nodes. */
  lemma RoadsInRangeShape(features: seq<Feature>, lo: nat, hi: int, s: Settings, d: Displayer)
    requires s.Valid() && hi <= |features|
    ensures forall r :: r in RoadsInRange(features, lo, hi, s, d) ==>
      s.minRoadVertices < |r.points| && forall p :: p in r.points ==> Contains(s.Box(), p)
  {
    var roads := RoadsInRange(features, lo, hi, s, d);
    var a := SourceIndices(features, lo, hi, s, d);
    SourceIndicesRoads(features, lo, hi, s, d);
    forall r | r in roads
      ensures s.minRoadVertices < |r.points| && forall p :: p in r.points ==> Contains(s.Box(), p)
    {
      var k :| 0 <= k < |roads| && roads[k] == r;
      FeatureRoadShape(features[a[k]], s, d);
    }
  }

  /** A feature rejected by the vertex gate adds nothing to the roads of a range. */
  lemma SparseFeatureStep(features: seq<Feature>, lo: nat, i: nat, s: Settings, d: Displayer)
    requires s.Valid() && lo <= i < |features|
    requires |features[i].allPositions| <= s.minRoadVertices
    ensures RoadsInRange(features, lo, i + 1, s, d) == RoadsInRange(features, lo, i, s, d)
  {
  }

  /**
   * A feature past the vertex gate adds its road to the roads of a range
   * exactly when more than minRoadVertices of its sampled nodes are kept.
   */
  lemma SampledFeatureStep(features: seq<Feature>, lo: nat, i: nat, s: Settings, d: Displayer, nodes: seq<Vector3>)
    requires s.Valid() && lo <= i < |features|
    requires s.minRoadVertices < |features[i].allPositions|
    requires nodes == NodesFrom(features[i].allPositions, 0,
      ChosenStep(|features[i].allPositions|, s.loopingStepsCount), s.offset, s.Box())
    ensures RoadsInRange(features, lo, i + 1, s, d) == RoadsInRange(features, lo, i, s, d)
      + if s.minRoadVertices < |nodes| then [Road(nodes, d.getWidth(features[i]), d.getNumLane(features[i]))] else []
  {
  }

  // --------------------------------------------------------------- build

  /** How SetupNetwork ends: normally, or by indexing the feature list out of range. */
  datatype Outcome = Completed | IndexOutOfRange(index: int)

  /** The roads SetupNetwork appends, and how it ends. */
  datatype BuildResult = BuildResult(added: seq<Road>, outcome: Outcome)

  /**
   * One run of SetupNetwork over the features read from the file. The loop
   * indexes the list without a bounds check, so a range reaching outside it
   * ends the run at the first bad index, after the roads of the indices
   * before it have been appended.
   */
  function Build(features: seq<Feature>, s: Settings, d: Displayer): BuildResult
    requires s.Valid()
  {
    var lo, hi := s.startRoadIndex, MaxDisplayRoad(|features|, s);
    if hi <= lo then BuildResult([], Completed)
    else if lo < 0 then BuildResult([], IndexOutOfRange(lo))
    else if hi <= |features| then BuildResult(RoadsInRange(features, lo, hi, s, d), Completed)
    else if lo < |features| then BuildResult(RoadsInRange(features, lo, |features|, s, d), IndexOutOfRange(|features|))
    else BuildResult([], IndexOutOfRange(lo))
  }

  /** The run that reaches index i outside the list stops there. */
  lemma BuildStopsAt(features: seq<Feature>, s: Settings, d: Displayer, i: int)
    requires s.Valid()
    requires s.startRoadIndex <= i < MaxDisplayRoad(|features|, s) && (i < 0 || |features| <= i)
    requires i == s.startRoadIndex || (0 <= s.startRoadIndex && i == |features|)
    ensures Build(features, s, d) == BuildResult(
      if i == s.startRoadIndex then [] else RoadsInRange(features, s.startRoadIndex, i, s, d),
      IndexOutOfRange(i))
  {
  }

  /** The run over a non-empty range inside the list adds the roads of that range. */
  lemma BuildCompletes(features: seq<Feature>, s: Settings, d: Displayer)
    requires s.Valid()
    requires 0 <= s.startRoadIndex < MaxDisplayRoad(|features|, s) <= |features|
    ensures Build(features, s, d)
      == BuildResult(RoadsInRange(features, s.startRoadIndex, MaxDisplayRoad(|features|, s), s, d), Completed)
  {
  }

  /**
   * A run completes exactly when the visited range is empty or lies inside
   * the feature list; it then adds the roads of that range, at most one per
   * visited feature. A failing run stops at an index outside the list.
   */
  lemma BuildExact(features: seq<Feature>, s: Settings, d: Displayer)
    requires s.Valid()
    ensures Build(features, s, d).outcome == Completed <==>
      MaxDisplayRoad(|features|, s) <= s.startRoadIndex
      || (0 <= s.startRoadIndex && MaxDisplayRoad(|features|, s) <= |features|)
    ensures Build(features, s, d).outcome == Completed && 0 <= s.startRoadIndex < MaxDisplayRoad(|features|, s) ==>
      Build(features, s, d).added == RoadsInRange(features, s.startRoadIndex, MaxDisplayRoad(|features|, s), s, d)
    ensures Build(features, s, d).outcome == Completed ==>
      |Build(features, s, d).added| <= if s.startRoadIndex < MaxDisplayRoad(|features|, s)
        then MaxDisplayRoad(|features|, s) - s.startRoadIndex else 0
    ensures Build(features, s, d).outcome.IndexOutOfRange? ==>
      && s.startRoadIndex <= Build(features, s, d).outcome.index < MaxDisplayRoad(|features|, s)
      && (Build(features, s, d).outcome.index < 0 || |features| <= Build(features, s, d).outcome.index)
  {
    var lo, hi := s.startRoadIndex, MaxDisplayRoad(|features|, s);
    if 0 <= lo < hi && hi <= |features| {
      RoadsInRangeLength(features, lo, hi, s, d);
    }
  }

  /** Starting at the first feature with a percentage in [0, 1], a run always completes. */
  lemma BuildFromStartCompletes(features: seq<Feature>, s: Settings, d: Displayer)
    requires s.Valid() && s.startRoadIndex == 0 && 0.0 <= s.displayedRoadPercentage <= 1.0
    ensures Build(features, s, d).outcome == Completed
    ensures |Build(features, s, d).added| <= |features|
  {
    DisplayedCountBounds(|features|, s.displayedRoadPercentage);
    RoadsInRangeLength(features, 0, MaxDisplayRoad(|features|, s), s, d);
  }

  /** Every road a run adds lies in the box and has more than minRoadVertices nodes. */
  lemma BuildShape(features: seq<Feature>, s: Settings, d: Displayer)
    requires s.Valid()
    ensures forall r :: r in Build(features, s, d).added ==>
      s.minRoadVertices < |r.points| && forall p :: p in r.points ==> Contains(s.Box(), p)
  {
    var lo, hi := s.startRoadIndex, MaxDisplayRoad(|features|, s);
    if 0 <= lo {
      RoadsInRangeShape(features, lo, if hi <= |features| then hi else |features|, s, d);
    }
  }
}

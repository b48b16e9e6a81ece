/**
 * The NetworkManager component: its serialized settings, the list of roads it
 * owns, and SetupNetwork, which appends to that list with the nested loops of
 * the original. Reading the road file is replaced by the feature list it
 * returns, passed in as a parameter.
 */
module Manager {
  import opened Geometry
  import opened RoadNetwork

  class NetworkManager {
    var roads: seq<Road>
    var roadsCollection: seq<Feature>

    // the attribute queries of the RoadGeoJsonDisplayer collaborator
    const roadGeoJsonDisplayer: Displayer

    var offset: Vector3
    var startRoadIndex: int
    var minRoadVertices: int
    var displayedRoadPercentage: real
    var loopingStepsCount: int
    var minimumPosition: Vector3
    var maximumPosition: Vector3

    /** The settings as one value. */
    function Configuration(): Settings
      reads this
    {
      Settings(offset, startRoadIndex, minRoadVertices, displayedRoadPercentage,
               loopingStepsCount, minimumPosition, maximumPosition)
    }

    /** The editor restricts the looping step to [1, 10]; SetupNetwork only needs it positive. */
    ghost predicate Valid()
      reads this
    {
      Configuration().Valid()
    }

    constructor (displayer: Displayer, settings: Settings)
      requires settings.Valid()
      ensures Valid() && Configuration() == settings
      ensures roadGeoJsonDisplayer == displayer
      ensures roads == [] && roadsCollection == []
    {
      roadGeoJsonDisplayer := displayer;
      offset := settings.offset;
      startRoadIndex := settings.startRoadIndex;
      minRoadVertices := settings.minRoadVertices;
      displayedRoadPercentage := settings.displayedRoadPercentage;
      loopingStepsCount := settings.loopingStepsCount;
      minimumPosition := settings.minimumPosition;
      maximumPosition := settings.maximumPosition;
      roads := [];
      roadsCollection := [];
    }

    /**
     * Builds the roads of the features read from the road file and appends
     * them to `roads`. Nothing is removed or reordered: a second call adds the
     * same roads again.
     */
    method SetupNetwork(features: seq<Feature>) returns (outcome: Outcome)
      requires Valid()
      modifies this`roads, this`roadsCollection
      ensures roadsCollection == features
      ensures roads == old(roads) + Build(features, Configuration(), roadGeoJsonDisplayer).added
      ensures outcome == Build(features, Configuration(), roadGeoJsonDisplayer).outcome
    {
      roadsCollection := features;
      var bBox := Bounds(minimumPosition, maximumPosition);
      ghost var s := Configuration();
      ghost var d := roadGeoJsonDisplayer;
      ghost var build := Build(features, s, d);
      assert bBox == s.Box();

      var maxDisplayRoad := startRoadIndex + DisplayedCount(|roadsCollection|, displayedRoadPercentage);
      outcome := Completed;
      assert maxDisplayRoad == MaxDisplayRoad(|features|, s);
      if startRoadIndex < maxDisplayRoad {
        for i := startRoadIndex to maxDisplayRoad
          invariant roadsCollection == features
          invariant i > startRoadIndex ==> 0 <= startRoadIndex && i <= |features|
          invariant i > startRoadIndex ==>
            roads == old(roads) + RoadsInRange(features, startRoadIndex, i, s, roadGeoJsonDisplayer)
          invariant i == startRoadIndex ==> roads == old(roads)
        {
          if i < 0 || |roadsCollection| <= i {
            // the list indexer throws here, after the roads so far were added
            outcome := IndexOutOfRange(i);
            BuildStopsAt(features, s, d, i);
            return;
          }
          var feature := roadsCollection[i];
          var allPositions := feature.allPositions;

          var chosenLoopingStep := 1;

          // a road needs enough nodes to be displayed
          if |allPositions| <= minRoadVertices {
            SparseFeatureStep(features, startRoadIndex, i, s, d);
            continue;
          }

          if |allPositions| >= 2 && |allPositions| / chosenLoopingStep >= 2 {
            chosenLoopingStep := loopingStepsCount;
          }
          assert chosenLoopingStep == ChosenStep(|allPositions|, loopingStepsCount);

          var allNewNodes := SampleNodes(allPositions, chosenLoopingStep, offset, bBox);
          ghost var before := RoadsInRange(features, startRoadIndex, i, s, d);
          SampledFeatureStep(features, startRoadIndex, i, s, d, allNewNodes);

          // a road with enough nodes inside the district is kept
          if minRoadVertices < |allNewNodes| {
            var road := Road(allNewNodes, roadGeoJsonDisplayer.getWidth(feature),
                             roadGeoJsonDisplayer.getNumLane(feature));
            roads := roads + [road];
            assert roads == old(roads) + (before + [road]);
          } else {
            assert RoadsInRange(features, startRoadIndex, i + 1, s, d) == before;
          }
        }
        BuildCompletes(features, s, d);
      } else {
        assert build == BuildResult([], Completed);
      }
    }
  }

  /**
   * The inner loop of SetupNetwork: walks the positions with the chosen step
   * and keeps the scene nodes that fall inside the district box.
   */
  method SampleNodes(allPositions: seq<Position>, chosenLoopingStep: int, offset: Vector3, bBox: Bounds)
    returns (allNewNodes: seq<Vector3>)
    requires chosenLoopingStep >= 1
    ensures allNewNodes == NodesFrom(allPositions, 0, chosenLoopingStep, offset, bBox)
  {
    allNewNodes := [];
    var j: nat := 0;
    while j < |allPositions|
      invariant allNewNodes + NodesFrom(allPositions, j, chosenLoopingStep, offset, bBox)
        == NodesFrom(allPositions, 0, chosenLoopingStep, offset, bBox)
      decreases |allPositions| - j
    {
      var nodePosition := NodePosition(allPositions[j], offset);
      ghost var rest := NodesFrom(allPositions, j + chosenLoopingStep, chosenLoopingStep, offset, bBox);
      // a node outside the district is rejected
      if Contains(bBox, nodePosition) {
        assert allNewNodes + ([nodePosition] + rest) == (allNewNodes + [nodePosition]) + rest;
        allNewNodes := allNewNodes + [nodePosition];
      }
      j := j + chosenLoopingStep;
    }
  }
}

/**
 * The geometric vocabulary of the road network: GeoJSON positions, Unity's
 * Vector3 and the axis-aligned district box. Coordinates are exact reals; the
 * single-precision rounding of the engine is not modelled.
 */
module Geometry {

  /** A raw GeoJSON position as read from the road file. */
  datatype Position = Position(longitude: real, latitude: real)

  /** A point of the scene (Unity's Vector3). */
  datatype Vector3 = Vector3(x: real, y: real, z: real)

  /** Vector3 addition, component by component. */
  function Add(a: Vector3, b: Vector3): Vector3
  {
    Vector3(a.x + b.x, a.y + b.y, a.z + b.z)
  }

  /**
   * The scene node of a raw position: longitude and latitude are negated,
   * the height is zero, and the scene offset is added.
   */
  function NodePosition(p: Position, offset: Vector3): Vector3
  {
    Add(Vector3(-p.longitude, 0.0, -p.latitude), offset)
  }

  /** The raw position a scene node came from, given the offset. */
  function SourcePosition(v: Vector3, offset: Vector3): Position
  {
    Position(offset.x - v.x, offset.z - v.z)
  }

  /**
   * The transform loses nothing: the raw position is recovered from its
   * node, and every node lies at the height of the offset.
   */
  lemma NodePositionInverse(p: Position, offset: Vector3)
    ensures SourcePosition(NodePosition(p, offset), offset) == p
    ensures NodePosition(p, offset).y == offset.y
  {
  }

  /** Distinct raw positions give distinct scene nodes. */
  lemma NodePositionInjective(p: Position, q: Position, offset: Vector3)
    requires NodePosition(p, offset) == NodePosition(q, offset)
    ensures p == q
  {
    NodePositionInverse(p, offset);
    NodePositionInverse(q, offset);
  }

  /** The district's bounding box, given by its two opposite corners. */
  datatype Bounds = Bounds(min: Vector3, max: Vector3)

  /** Inclusive containment, tested axis by axis. */
  predicate Contains(box: Bounds, p: Vector3)
  {
    && box.min.x <= p.x <= box.max.x
    && box.min.y <= p.y <= box.max.y
    && box.min.z <= p.z <= box.max.z
  }

  /** A box whose corners are crossed on some axis contains no point at all. */
  lemma CrossedBoxIsEmpty(box: Bounds, p: Vector3)
    requires box.min.x > box.max.x || box.min.y > box.max.y || box.min.z > box.max.z
    ensures !Contains(box, p)
  {
  }

  /** Both corners of a well-formed box lie inside it: the test is inclusive. */
  lemma CornersAreInside(box: Bounds)
    requires box.min.x <= box.max.x && box.min.y <= box.max.y && box.min.z <= box.max.z
    ensures Contains(box, box.min) && Contains(box, box.max)
  {
  }

  /** Longitude 5 and latitude 3 with a zero offset give the node (-5, 0, -3). */
  lemma NodePositionExample()
    ensures NodePosition(Position(5.0, 3.0), Vector3(0.0, 0.0, 0.0)) == Vector3(-5.0, 0.0, -3.0)
  {
  }
}

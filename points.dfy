/** Fixed-dimension points (pythonista3d/points.py).

    A point keeps its dimension count and its components. The components are
    stored in the tuple the constructor receives, so a point never changes
    after construction: the indexed setter runs its checks and then fails on
    the tuple. That is why a point is a value here. */
module Points {
  import opened Errors

  /** A key handed to `p[key]`: an int index, or any other Python object. */
  datatype Key = Index(i: int) | NonIntKey

  /** A value handed to `p[key] = value`: a number, or any other Python object. */
  datatype Component = Number(r: real) | NonNumber

  datatype Point = Point(ndims: int, vals: seq<real>) {

    /** What every constructed point satisfies: exactly `ndims` components. */
    predicate Valid() {
      |vals| == ndims
    }

    /** `len(p)` */
    function Len(): int {
      ndims
    }

    /** The `num_dimensions` property. */
    function NumDimensions(): int {
      ndims
    }

    /** `p[key]`: the key must be an int (TypeError) inside [0, ndims) (ValueError). */
    function GetItem(key: Key): (r: Result<real>)
      requires Valid()
      ensures key.NonIntKey? ==> r == Err(KeyNotInt)
      ensures key.Index? ==> (r.Ok? <==> 0 <= key.i < Len())
      ensures key.Index? && !(0 <= key.i < Len()) ==> r == Err(KeyOutOfRange)
      ensures r.Ok? ==> key.Index? && r.value == vals[key.i]
    {
      match key
      case NonIntKey => Err(KeyNotInt)
      case Index(i) =>
        if !(0 <= i < ndims) then Err(KeyOutOfRange) else Ok(vals[i])
    }

    /** `p[key] = value`: checks the key type, the key range and the value type,
        in that order; the write itself then fails, because the components live
        in a tuple. Returns the point the assignment would have produced. */
    function SetItem(key: Key, value: Component): (r: Result<Point>)
      requires Valid()
      ensures r.Err?
      ensures key.NonIntKey? ==> r.error == KeyNotInt
      ensures key.Index? && !(0 <= key.i < Len()) ==> r.error == KeyOutOfRange
      ensures key.Index? && 0 <= key.i < Len() && value.NonNumber? ==> r.error == ValueNotNumber
      ensures key.Index? && 0 <= key.i < Len() && value.Number? ==> r.error == TupleItemAssignment
    {
      match key
      case NonIntKey => Err(KeyNotInt)
      case Index(i) =>
        if !(0 <= i < ndims) then Err(KeyOutOfRange)
        else if value.NonNumber? then Err(ValueNotNumber)
        else Err(TupleItemAssignment)
    }

    /** The `x`, `y` and `z` properties of Point2D / Point3D read indices 0, 1, 2. */
    function X(): (r: real)
      requires Valid() && ndims >= 2
      ensures GetItem(Index(0)) == Ok(r)
    {
      GetItem(Index(0)).value
    }

    function Y(): (r: real)
      requires Valid() && ndims >= 2
      ensures GetItem(Index(1)) == Ok(r)
    {
      GetItem(Index(1)).value
    }

    function Z(): (r: real)
      requires Valid() && ndims >= 3
      ensures GetItem(Index(2)) == Ok(r)
    {
      GetItem(Index(2)).value
    }

    /** The `x`, `y` and `z` setters write indices 0, 1, 2 through `p[i] = value`. */
    function SetX(value: Component): (r: Result<Point>)
      requires Valid() && ndims >= 2
      ensures r == SetItem(Index(0), value) && r.Err?
    {
      SetItem(Index(0), value)
    }

    function SetY(value: Component): (r: Result<Point>)
      requires Valid() && ndims >= 2
      ensures r == SetItem(Index(1), value) && r.Err?
    {
      SetItem(Index(1), value)
    }

    function SetZ(value: Component): (r: Result<Point>)
      requires Valid() && ndims >= 3
      ensures r == SetItem(Index(2), value) && r.Err?
    {
      SetItem(Index(2), value)
    }
  }

  /** `Point(ndims, *vals)`: raises ValueError unless exactly `ndims` values are given. */
  function NewPoint(ndims: int, vals: seq<real>): (r: Result<Point>)
    ensures r.Ok? <==> |vals| == ndims
    ensures r.Err? ==> r.error == WrongArity
    ensures r.Ok? ==> r.value.Valid() && r.value.Len() == ndims && r.value.NumDimensions() == ndims
    ensures r.Ok? ==> forall i :: 0 <= i < ndims ==> r.value.GetItem(Index(i)) == Ok(vals[i])
  {
    if |vals| != ndims then Err(WrongArity) else Ok(Point(ndims, vals))
  }

  /** `Point2D(x=0, y=0)` */
  function Point2D(x: real := 0.0, y: real := 0.0): (p: Point)
    ensures p.Valid() && p.Len() == 2
    ensures p.X() == x && p.Y() == y
  {
    NewPoint(2, [x, y]).value
  }

  /** `Point3D(x=0, y=0, z=0)` */
  function Point3D(x: real := 0.0, y: real := 0.0, z: real := 0.0): (p: Point)
    ensures p.Valid() && p.Len() == 3
    ensures p.X() == x && p.Y() == y && p.Z() == z
  {
    NewPoint(3, [x, y, z]).value
  }

  /** `Point3D(*vals)` (and `Vector3D(*vals)`, which has the same shape) for a list
      of at most three values: the missing trailing components take their default 0. */
  function Point3DOf(vals: seq<real>): (p: Point)
    requires |vals| <= 3
    ensures p.Valid() && p.Len() == 3
    ensures forall i :: 0 <= i < |vals| ==> p.vals[i] == vals[i]
    ensures forall i :: |vals| <= i < 3 ==> p.vals[i] == 0.0
  {
    Point3D(if |vals| > 0 then vals[0] else 0.0,
            if |vals| > 1 then vals[1] else 0.0,
            if |vals| > 2 then vals[2] else 0.0)
  }

  /** Every point built by Point2D / Point3D reads back its arguments, and has
      all components 0 when built with the defaults. */
  lemma DefaultPointsAreOrigin()
    ensures Point2D().vals == [0.0, 0.0]
    ensures Point3D().vals == [0.0, 0.0, 0.0]
  {
  }

  /** A plane point is the Point2D of its own coordinates. */
  lemma Point2DComponents(p: Point)
    requires p.Valid() && p.ndims == 2
    ensures Point2D(p.X(), p.Y()) == p
  {
    assert p.vals == [p.X(), p.Y()];
  }

  /** A point in space is the Point3D of its own coordinates. */
  lemma Point3DComponents(p: Point)
    requires p.Valid() && p.ndims == 3
    ensures Point3D(p.X(), p.Y(), p.Z()) == p
  {
    assert p.vals == [p.X(), p.Y(), p.Z()];
  }
}

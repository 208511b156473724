/** The stateful Sobol sequence over the 64-bit index domain. */
module SobolSequences {
  import opened Results
  import opened Words
  import opened Sobol
  import opened SobolUnits

  const INDEX_COUNT: nat := Pow2(WORD_COUNT)

  ghost predicate IsPoint(rows: seq<Row>, index: nat, precision: Precision, point: seq<real>)
    requires forall i :: 0 <= i < |rows| ==> Accepted(rows[i])
  {
    forall dimension :: 0 <= dimension < |point| ==>
      IsCoordinate(rows, dimension, index, precision, point[dimension])
  }

  /** The coordinate made from the point word of the dimension. */
  ghost predicate IsCoordinate(rows: seq<Row>, dimension: nat, index: nat, precision: Precision, x: real)
    requires forall i :: 0 <= i < |rows| ==> Accepted(rows[i])
  {
    exists words :: IsUnit(rows, dimension, index, precision, words, x)
  }

  ghost predicate IsUnit(
      rows: seq<Row>, dimension: nat, index: nat, precision: Precision, words: seq<Word>, x: real)
    requires forall i :: 0 <= i < |rows| ==> Accepted(rows[i])
  {
    && dimension <= |rows| && AreDirectionWords(dimension, rows, words) && Directions(words, WORD_COUNT)
    && x == Unit(PointWord(words, index), precision)
  }

  /** A coordinate lies in the half-open unit interval. */
  lemma CoordinateIsUnit(rows: seq<Row>, dimension: nat, index: nat, precision: Precision, x: real)
    requires forall i :: 0 <= i < |rows| ==> Accepted(rows[i])
    requires IsCoordinate(rows, dimension, index, precision, x)
    ensures 0.0 <= x < 1.0
  {
    hide Accepted, AreDirectionWords, Unit, PointWord;
    var words :| IsUnit(rows, dimension, index, precision, words, x);
    UnitIsUnit(PointWord(words, index), precision);
  }

  lemma PointGrows(rows: seq<Row>, index: nat, precision: Precision, point: seq<real>, x: real)
    requires forall i :: 0 <= i < |rows| ==> Accepted(rows[i])
    requires IsPoint(rows, index, precision, point) && IsCoordinate(rows, |point|, index, precision, x)
    ensures IsPoint(rows, index, precision, point + [x])
  {
    hide IsCoordinate;
  }

  /** The coordinate of one dimension. */
  method Coordinate(rows: seq<Row>, dimension: nat, index: nat, precision: Precision)
    returns (status: Status, x: real)
    requires forall i :: 0 <= i < |rows| ==> Accepted(rows[i])
    requires index < INDEX_COUNT
    ensures status == if dimension > |rows| then Failed(Index) else Ok
    ensures status == Ok ==> IsCoordinate(rows, dimension, index, precision, x)
  {
    hide Pow2, Accepted, AreDirectionWords, Directions, PointWord, Unit;
    var word;
    status, word := SobolWord(index, dimension, rows);
    if status != Ok {
      return status, 0.0;
    }
    x := Unit(word, precision);
    ghost var words :| IsPointWord(dimension, rows, words, index, word);
    assert IsUnit(rows, dimension, index, precision, words, x);
  }

  /** One point: the coordinates of every dimension at an index. */
  method GeneratePoint(rows: seq<Row>, index: nat, precision: Precision, output: array<real>) returns (status: Status)
    requires forall i :: 0 <= i < |rows| ==> Accepted(rows[i])
    requires index < INDEX_COUNT
    modifies output
    ensures status == if output.Length > |rows| + 1 then Failed(Shape) else Ok
    ensures status != Ok ==> output[..] == old(output[..])
    ensures status == Ok ==> IsPoint(rows, index, precision, output[..])
  {
    hide Pow2, Accepted, IsCoordinate;
    if output.Length > |rows| + 1 {
      return Failed(Shape);
    }
    for dimension := 0 to output.Length
      invariant IsPoint(rows, index, precision, output[..dimension])
    {
      var coordinateStatus, x := Coordinate(rows, dimension, index, precision);
      ghost var done := output[..dimension];
      PointGrows(rows, index, precision, done, x);
      output[dimension] := x;
      assert output[..dimension + 1] == done + [x];
    }
    assert output[..output.Length] == output[..];
    return Ok;
  }

  class SobolSequence {
    const rows: seq<Row>
    const dimensionCount: nat
    var index: nat
    var exhausted: bool

    ghost predicate Valid()
      reads this
    {
      && (forall i :: 0 <= i < |rows| ==> Accepted(rows[i]))
      && dimensionCount <= |rows| + 1
      && index < INDEX_COUNT
      && (exhausted ==> index == INDEX_COUNT - 1)
    }

    /** Number of the next point; one past the last index when exhausted. */
    ghost function Position(): nat
      reads this
    {
      if exhausted then index + 1 else index
    }

    constructor (rows: seq<Row>, dimensionCount: nat, initialIndex: nat)
      requires forall i :: 0 <= i < |rows| ==> Accepted(rows[i])
      requires dimensionCount <= |rows| + 1 && initialIndex < INDEX_COUNT
      ensures Valid() && Position() == initialIndex && this.rows == rows && this.dimensionCount == dimensionCount
    {
      this.rows := rows;
      this.dimensionCount := dimensionCount;
      index := initialIndex;
      exhausted := false;
    }

    /** Writes the point at the current position and advances; every index is
        delivered once, the last one included, and then the sequence ends. */
    method Next(output: array<real>, precision: Precision) returns (status: Status)
      requires Valid()
      modifies this, output
      ensures Valid()
      ensures status == if output.Length != dimensionCount then Failed(Shape)
                        else if dimensionCount != 0 && old(Position()) == INDEX_COUNT then Failed(EndOfFile)
                        else Ok
      ensures status != Ok || dimensionCount == 0 ==> Position() == old(Position()) && output[..] == old(output[..])
      ensures status == Ok && dimensionCount != 0 ==>
        Position() == old(Position()) + 1 && IsPoint(rows, old(Position()), precision, output[..])
    {
      hide Pow2;
      if output.Length != dimensionCount {
        return Failed(Shape);
      }
      if output.Length == 0 {
        return Ok;
      }
      if exhausted {
        return Failed(EndOfFile);
      }
      status := GeneratePoint(rows, index, precision, output);
      if index == INDEX_COUNT - 1 {
        exhausted := true;
      } else {
        index := index + 1;
      }
      return Ok;
    }

    method Reset(newIndex: nat) returns (status: Status)
      requires Valid() && newIndex < INDEX_COUNT
      modifies this
      ensures Valid() && status == Ok && Position() == newIndex
    {
      index := newIndex;
      exhausted := false;
      return Ok;
    }

    /** Advances by `count` positions, but never past the last index. */
    method Skip(count: nat) returns (status: Status)
      requires Valid() && count < INDEX_COUNT
      modifies this
      ensures Valid()
      ensures status == if old(Position()) == INDEX_COUNT then Failed(EndOfFile)
                        else if old(Position()) + count >= INDEX_COUNT then Failed(Overflow)
                        else Ok
      ensures Position() == if status == Ok then old(Position()) + count else old(Position())
    {
      if exhausted {
        return Failed(EndOfFile);
      }
      if count > INDEX_COUNT - 1 - index {
        return Failed(Overflow);
      }
      index := index + count;
      return Ok;
    }
  }
}

/**
 * Row-major level layout (Assets/Scripts/LevelDAta/LevelLoader.cs): node `i` of
 * `nodeColors` sits at `x = i % width`, `y = i / width`, which inverts the editor's
 * `y * width + x`. The index is never negative, and for a non-negative dividend
 * C#'s truncating `/` and `%` agree with Dafny's Euclidean ones, whatever the sign of `width`.
 */
module LevelLoader {
  import opened Wrappers
  import opened LevelData

  datatype Coord = Coord(x: int, y: int)

  /** A node `LoadLevel` visits with a colour: its coordinates and colour name. */
  datatype NodeSpec = NodeSpec(x: int, y: int, colorName: string)

  /** Why `LoadLevel` stops: C# throws `DivideByZeroException` for `i % 0`. */
  datatype LoadError = DivideByZero

  /** The index the level editor writes a cell to. */
  function Encode(x: int, y: int, width: int): int {
    y * width + x
  }

  /** The coordinates `LoadLevel` computes for index `i`. */
  function Decode(i: nat, width: int): Coord
    requires width != 0
  {
    Coord(i % width, i / width)
  }

  /** Decoding then encoding gives the index back, for any non-zero width. */
  lemma DecodeThenEncode(i: nat, width: int)
    requires width != 0
    ensures Encode(Decode(i, width).x, Decode(i, width).y, width) == i
  {
  }

  /** Every index of a `width * height` grid decodes to a cell inside it. */
  lemma {:induction false} DecodeInBounds(i: nat, width: int, height: int)
    requires width > 0 && i < width * height
    ensures 0 <= Decode(i, width).x < width
    ensures 0 <= Decode(i, width).y < height
  {
    var q := i / width;
    if q >= height {
      MulMonotone(height, q, width);
    }
  }

  lemma MulMonotone(a: int, b: int, c: nat)
    requires a <= b
    ensures a * c <= b * c
  {
  }

  /** Encoding a cell with `0 <= x < width` and then decoding gives the cell back. */
  lemma {:induction false} EncodeThenDecode(x: int, y: nat, width: int)
    requires 0 <= x < width
    ensures Encode(x, y, width) >= 0
    ensures Decode(Encode(x, y, width), width) == Coord(x, y)
  {
    var i := y * width + x;
    var q, r := i / width, i % width;
    assert q * width + r == y * width + x;
    assert (q - y) * width == x - r;
    if q > y {
      MulMonotone(1, q - y, width);
    } else if q < y {
      MulMonotone(1, y - q, width);
    }
  }

  /** The indices from `i` on whose colour is neither null nor empty, ascending: those `LoadLevel` places. */
  function ColoredFrom(colors: seq<Option<string>>, i: nat): (r: seq<nat>)
    requires i <= |colors|
    ensures forall k :: 0 <= k < |r| ==> i <= r[k] < |colors| && !IsNullOrEmpty(colors[r[k]])
    ensures forall k, l :: 0 <= k < l < |r| ==> r[k] < r[l]
    ensures forall j :: i <= j < |colors| && !IsNullOrEmpty(colors[j]) ==> j in r
    decreases |colors| - i
  {
    if i == |colors| then []
    else if IsNullOrEmpty(colors[i]) then ColoredFrom(colors, i + 1)
    else [i] + ColoredFrom(colors, i + 1)
  }

  /** The node the loop body of `LoadLevel` handles at index `j`. */
  function NodeAt(colors: seq<Option<string>>, width: int, j: nat): NodeSpec
    requires width != 0 && j < |colors| && !IsNullOrEmpty(colors[j])
  {
    NodeSpec(Decode(j, width).x, Decode(j, width).y, colors[j].value)
  }

  /**
   * `LoadLevel`: the nodes it would create (every non-empty colour, with its decoded
   * coordinates, in index order), or the division by zero that a zero width causes
   * as soon as there is an index to decode.
   */
  function LoadLevel(level: LevelData): (r: Result<seq<NodeSpec>, LoadError>)
    ensures r.Failure? <==> level.width == 0 && |level.nodeColors| > 0
    ensures r.Success? && level.width == 0 ==> r.value == []
    ensures r.Success? && level.width != 0 ==>
      var idx := ColoredFrom(level.nodeColors, 0);
      |r.value| == |idx| && forall k :: 0 <= k < |idx| ==> r.value[k] == NodeAt(level.nodeColors, level.width, idx[k])
  {
    if |level.nodeColors| == 0 then Success([])
    else if level.width == 0 then Failure(DivideByZero)
    else
      var idx := ColoredFrom(level.nodeColors, 0);
      Success(seq(|idx|, k requires 0 <= k < |idx| => NodeAt(level.nodeColors, level.width, idx[k])))
  }

  /**
   * A node placed by `LoadLevel` on a `width * height` level lies inside the grid, and
   * the editor's encoding of its coordinates is the index its colour came from.
   */
  lemma LoadedNodeInGrid(level: LevelData, k: nat)
    requires level.width > 0 && |level.nodeColors| == level.width * level.height
    requires LoadLevel(level).Success? && k < |LoadLevel(level).value|
    ensures 0 <= LoadLevel(level).value[k].x < level.width
    ensures 0 <= LoadLevel(level).value[k].y < level.height
    ensures var n := LoadLevel(level).value[k];
      var j := Encode(n.x, n.y, level.width);
      0 <= j < |level.nodeColors| && level.nodeColors[j] == Some(n.colorName) && n.colorName != ""
  {
    var j := ColoredFrom(level.nodeColors, 0)[k];
    DecodeInBounds(j, level.width, level.height);
    DecodeThenEncode(j, level.width);
  }
}

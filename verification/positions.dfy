/** `get_matrix_position_clarification` of plants/services.py: where each decoded
    Data Matrix lies on the photo (a 3×3 grid) and relative to the other matrices.
    Coordinates are the decoder's integer pixel positions; the float divisions
    of the source are taken as exact rationals. */
module MatrixPositions {
  import opened Wrappers

  /** One decoded matrix: its PUID and the `left`/`top` of its rectangle. */
  datatype Detection = Detection(puid: string, left: int, top: int)

  /** One sentence of `position_clarifications`. */
  datatype Clarification =
    | Center
    | Area(vertical: string, horizontal: string)
    | Higher(than: string)
    | Lower(than: string)
    | RightOf(of: string)
    | LeftOf(of: string)

  /** A detection with its `position_clarifications` list. */
  datatype Located = Located(det: Detection, clarifications: seq<Clarification>)

  /** The exceptions the loop can raise: a float division by a zero image side,
      or a grid index outside the 3-element lists. */
  datatype PositionError = ZeroDivision | IndexError

  const VerticalPositions: seq<string> := ["upper", "middle", "lower"]
  const HorizontPositions: seq<string> := ["left", "middle", "right"]

  /** The sentence the source appends for `c`. */
  function Render(c: Clarification): string {
    match c
    case Center => "In the center of the photo."
    case Area(v, h) => "In the " + v + " " + h + " area of the photo."
    case Higher(p) => "Is higher than PUID: " + p + "."
    case Lower(p) => "Is lower than PUID: " + p + "."
    case RightOf(p) => "To the right of PUID: " + p + "."
    case LeftOf(p) => "To the left of PUID: " + p + "."
  }

  function Abs(x: int): nat {
    if x < 0 then -x else x
  }

  /** `math.trunc(a / b)` for a positive `b`: the quotient rounded toward zero. */
  function Trunc(a: int, b: int): (r: int)
    requires b > 0
    ensures a >= 0 ==> 0 <= r && r * b <= a < r * b + b
    ensures a < 0 ==> r <= 0 && r * b - b < a <= r * b
  {
    if a >= 0 then a / b else -((-a) / b)
  }

  /** The position a Python index `i` selects in a list of length `n`, if any. */
  function PyIndex(i: int, n: nat): (r: Option<nat>)
    ensures r.Some? <==> -(n as int) <= i < n
    ensures r.Some? ==> r.value < n && (r.value == i || r.value == i + n)
  {
    if 0 <= i < n then Some(i) else if -(n as int) <= i < 0 then Some(i + n) else None
  }

  /** The grid row (`v`) and column (`h`) of `d`, as the source computes and
      then uses them to index `position_matrix`. */
  function GridCell(d: Detection, width: nat, height: nat): Result<(nat, nat), PositionError> {
    if height == 0 || width == 0 then Failure(ZeroDivision)
    else
      var v := Trunc(3 * (height - d.top), height);
      var h := Trunc(3 * d.left, width);
      match PyIndex(v, 3)
      case None => Failure(IndexError)
      case Some(nv) =>
        match PyIndex(h, 3)
        case None => Failure(IndexError)
        case Some(nh) => Success((nv, nh))
  }

  /** The first clarification: the centre sentence, or the named area. */
  function Absolute(cell: (nat, nat)): Clarification
    requires cell.0 < 3 && cell.1 < 3
  {
    if cell.0 == 1 && cell.1 == 1 then Center
    else Area(VerticalPositions[cell.0], HorizontPositions[cell.1])
  }

  /** The clarifications the inner loop adds for the pair `(i, j)`. */
  function RelativeTo(i: Detection, j: Detection, width: nat, height: nat): seq<Clarification> {
    var vDiff := i.top - j.top;
    var hDiff := i.left - j.left;
    (if 10 * Abs(vDiff) > height then [if vDiff > 0 then Higher(j.puid) else Lower(j.puid)] else [])
    + (if 10 * Abs(hDiff) > width then [if hDiff > 0 then RightOf(j.puid) else LeftOf(j.puid)] else [])
  }

  /** The inner loop over every detection `j`, `i` itself included. */
  function Relative(i: Detection, all: seq<Detection>, width: nat, height: nat): seq<Clarification> {
    if all == [] then [] else RelativeTo(i, all[0], width, height) + Relative(i, all[1..], width, height)
  }

  function Locate(i: Detection, all: seq<Detection>, width: nat, height: nat): Result<Located, PositionError> {
    var cell :- GridCell(i, width, height);
    Success(Located(i, [Absolute(cell)] + Relative(i, all, width, height)))
  }

  function LocateEach(todo: seq<Detection>, all: seq<Detection>, width: nat, height: nat)
    : Result<seq<Located>, PositionError>
  {
    if todo == [] then Success([])
    else
      var first :- Locate(todo[0], all, width, height);
      var rest :- LocateEach(todo[1..], all, width, height);
      Success([first] + rest)
  }

  /** `get_matrix_position_clarification(pid_dics, image_width, image_height)`.
      The clarification list always holds the first sentence, so the
      `if clarifications` guard always holds and every detection gets the key. */
  function Clarify(dets: seq<Detection>, width: nat, height: nat): Result<seq<Located>, PositionError> {
    LocateEach(dets, dets, width, height)
  }

  // ---------------------------------------------------------------------------
  // Properties

  /** A truncated quotient is a valid index of a 3-element list (`-3..2`)
      exactly when the dividend lies strictly between `-4b` and `3b`. */
  lemma TruncIndexRange(a: int, b: int)
    requires b > 0
    ensures -3 <= Trunc(a, b) <= 2 <==> -4 * b < a < 3 * b
  {
    var r := Trunc(a, b);
    if a >= 0 {
      if r >= 3 { MulMono(3, r, b); }
      if a >= 3 * b { assert (r + 1) * b == r * b + b; MulLess(3, r + 1, b); }
    } else {
      if r <= -4 { MulMono(r, -4, b); }
      if a <= -4 * b { assert (r - 1) * b == r * b - b; MulLess(r - 1, -4, b); }
    }
  }

  lemma MulMono(x: int, y: int, b: int)
    requires x <= y && b > 0
    ensures x * b <= y * b
  {
  }

  lemma MulLess(x: int, y: int, b: int)
    requires x * b < y * b && b > 0
    ensures x < y
  {
  }

  /** The grid cell exists exactly when the sides are non-zero and the point is
      at `0 < top < 7/3 H` and `-4/3 W < left < W`: a point above the photo,
      up to `4/3 H` beyond its top edge, is accepted. */
  lemma GridCellSuccess(d: Detection, width: nat, height: nat)
    ensures GridCell(d, width, height).Success?
        <==> width > 0 && height > 0 && 0 < 3 * d.top < 7 * height && -4 * width < 3 * d.left < 3 * width
    ensures width == 0 || height == 0 ==> GridCell(d, width, height) == Failure(ZeroDivision)
  {
    if width > 0 && height > 0 {
      TruncIndexRange(3 * (height - d.top), height);
      TruncIndexRange(3 * d.left, width);
    }
  }

  /** For a point on the photo (`0 < top <= H`, `0 <= left < W`) the cell is the
      third of `H - top` and of `left` it lies in: the centre
      cell is exactly the middle third both ways. */
  lemma GridCellOnPhoto(d: Detection, width: nat, height: nat)
    requires width > 0 && height > 0 && 0 < d.top <= height && 0 <= d.left < width
    ensures GridCell(d, width, height).Success?
    ensures var (v, h) := GridCell(d, width, height).value;
      && v * height <= 3 * (height - d.top) < v * height + height
      && h * width <= 3 * d.left < h * width + width
    ensures var (v, h) := GridCell(d, width, height).value;
      v == 1 && h == 1 <==>
        height <= 3 * (height - d.top) < 2 * height && width <= 3 * d.left < 2 * width
  {
    GridCellSuccess(d, width, height);
    var (v, h) := GridCell(d, width, height).value;
    assert v == Trunc(3 * (height - d.top), height);
    assert h == Trunc(3 * d.left, width);
    if v == 1 {
    } else if v == 0 {
    } else {
      assert v == 2;
    }
    if h == 1 {
    } else if h == 0 {
    } else {
      assert h == 2;
    }
  }

  /** A matrix whose `top` is 0 (its corner on the bottom edge) makes the source
      raise `IndexError`: `v` is 3. */
  lemma TopZeroRaises(puid: string, left: int, width: nat, height: nat)
    requires width > 0 && height > 0
    ensures GridCell(Detection(puid, left, 0), width, height) == Failure(IndexError)
  {
    GridCellSuccess(Detection(puid, left, 0), width, height);
  }

  /** A point more than a third of the height above the photo gets a negative
      `v` that indexes the list from its end: it is reported as in the lower area. */
  lemma AbovePhotoWrapsToLower()
    ensures GridCell(Detection("p", 50, 150), 300, 100) == Success((2, 0))
    ensures Absolute((2, 0)) == Area("lower", "left")
  {
    assert Trunc(3 * (100 - 150), 100) == -1;
    assert Trunc(3 * 50, 300) == 0;
  }

  /** The pair clarifications, both directions: a vertical sentence is added
      exactly when the tops differ by more than a tenth of the height, `higher`
      when `i`'s top is the larger, `lower` when it is the smaller; likewise
      left/right with the width. */
  lemma RelativeToSpec(i: Detection, j: Detection, width: nat, height: nat)
    ensures Higher(j.puid) in RelativeTo(i, j, width, height) <==> 10 * Abs(i.top - j.top) > height && i.top > j.top
    ensures Lower(j.puid) in RelativeTo(i, j, width, height) <==> 10 * Abs(i.top - j.top) > height && i.top < j.top
    ensures RightOf(j.puid) in RelativeTo(i, j, width, height) <==> 10 * Abs(i.left - j.left) > width && i.left > j.left
    ensures LeftOf(j.puid) in RelativeTo(i, j, width, height) <==> 10 * Abs(i.left - j.left) > width && i.left < j.left
    ensures |RelativeTo(i, j, width, height)| <= 2
  {
  }

  /** Comparing a matrix with itself adds nothing. */
  lemma RelativeToSelf(i: Detection, width: nat, height: nat)
    ensures RelativeTo(i, i, width, height) == []
  {
  }

  /** The pair relation is antisymmetric: `i` is higher than `j` exactly when `j`
      is lower than `i`, and to the right of it exactly when `j` is to its left. */
  lemma RelativeToAntisymmetric(i: Detection, j: Detection, width: nat, height: nat)
    ensures Higher(j.puid) in RelativeTo(i, j, width, height) <==> Lower(i.puid) in RelativeTo(j, i, width, height)
    ensures RightOf(j.puid) in RelativeTo(i, j, width, height) <==> LeftOf(i.puid) in RelativeTo(j, i, width, height)
  {
    RelativeToSpec(i, j, width, height);
    RelativeToSpec(j, i, width, height);
  }

  /** The inner loop's sentences are exactly the pair sentences, in the order of
      `all`. */
  lemma {:induction false} RelativeMember(i: Detection, all: seq<Detection>, width: nat, height: nat, c: Clarification)
    ensures c in Relative(i, all, width, height)
        <==> exists k :: 0 <= k < |all| && c in RelativeTo(i, all[k], width, height)
  {
    if all != [] {
      RelativeMember(i, all[1..], width, height, c);
      if c in Relative(i, all[1..], width, height) {
        var k :| 0 <= k < |all| - 1 && c in RelativeTo(i, all[1..][k], width, height);
        assert all[1..][k] == all[k + 1];
      }
      if exists k :: 0 <= k < |all| && c in RelativeTo(i, all[k], width, height) {
        var k :| 0 <= k < |all| && c in RelativeTo(i, all[k], width, height);
        if k > 0 {
          assert all[1..][k - 1] == all[k];
        }
      }
    }
  }

  /** The whole loop: it raises exactly when some detection has no grid cell,
      and otherwise keeps every detection in order, each with its grid sentence
      followed by its sentences relative to all detections. */
  lemma {:induction false} LocateEachSpec(todo: seq<Detection>, all: seq<Detection>, width: nat, height: nat)
    ensures LocateEach(todo, all, width, height).Success?
        <==> forall k :: 0 <= k < |todo| ==> GridCell(todo[k], width, height).Success?
    ensures LocateEach(todo, all, width, height).Success? ==>
              var r := LocateEach(todo, all, width, height).value;
              && |r| == |todo|
              && forall k :: 0 <= k < |todo| ==>
                   && r[k].det == todo[k]
                   && r[k].clarifications
                      == [Absolute(GridCell(todo[k], width, height).value)] + Relative(todo[k], all, width, height)
  {
    if todo != [] {
      LocateEachSpec(todo[1..], all, width, height);
      assert forall k :: 0 <= k < |todo| - 1 ==> todo[1..][k] == todo[k + 1];
      if !GridCell(todo[0], width, height).Success? {
        assert LocateEach(todo, all, width, height).Failure?;
      }
    }
  }

  /** `get_matrix_position_clarification` raises exactly when the list is not
      empty and some matrix has no grid cell. Otherwise every matrix keeps its
      place and gets a non-empty clarification list: first the centre
      sentence when its cell is the middle one and the area sentence
      otherwise, then one sentence per other matrix and direction that is more
      than a tenth of the side away. */
  lemma ClarifySpec(dets: seq<Detection>, width: nat, height: nat)
    ensures Clarify(dets, width, height).Success?
        <==> forall k :: 0 <= k < |dets| ==> GridCell(dets[k], width, height).Success?
    ensures Clarify(dets, width, height).Success? ==>
              var r := Clarify(dets, width, height).value;
              && |r| == |dets|
              && forall k :: 0 <= k < |dets| ==>
                   var cell := GridCell(dets[k], width, height).value;
                   && r[k].det == dets[k]
                   && |r[k].clarifications| >= 1
                   && (r[k].clarifications[0] == Center <==> cell.0 == 1 && cell.1 == 1)
                   && (r[k].clarifications[0] != Center ==>
                         r[k].clarifications[0] == Area(VerticalPositions[cell.0], HorizontPositions[cell.1]))
                   && r[k].clarifications[1..] == Relative(dets[k], dets, width, height)
  {
    LocateEachSpec(dets, dets, width, height);
  }
}

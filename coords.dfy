/**
 * Corner geometry of the vehicle rectangle (common/coords.py) and the
 * conversion of a vehicle state into that rectangle (common/draw.py).
 */
module Coords {
  import opened Wrappers
  import opened Geometry

  /**
   * The drawables the corner computation can be handed: a matplotlib
   * Rectangle (anchor, width along the heading, height across it, angle in
   * degrees) or anything else, which it refuses.
   */
  datatype Drawable =
    | Rectangle(xy: Point, width: real, height: real, angle: real)
    | OtherDrawable

  datatype CoordsError =
    | MissingCarDimensions   // car_length or car_width is None or zero
    | UnsupportedDrawable    // not a Rectangle

  /** Polar to Cartesian coordinates. */
  function Pol2Cart(t: Trig, rho: real, phi: real): (p: Point)
    ensures rho == 0.0 ==> p == Point(0.0, 0.0)
    ensures Pythagorean(t) ==> p.SquaredNorm() == rho * rho
  {
    var p := Point(rho * t.cos(phi), rho * t.sin(phi));
    assert p.SquaredNorm() == rho * rho * (t.cos(phi) * t.cos(phi) + t.sin(phi) * t.sin(phi));
    p
  }

  /** Half the diagonal of a car_length x car_width rectangle. */
  function TranslationRho(t: Trig, carLength: real, carWidth: real): real {
    0.5 * t.sqrt(carLength * carLength + carWidth * carWidth)
  }

  /**
   * The right bottom corner of the car whose centre is `center`: the centre
   * moved by half the diagonal in direction pi + orientation + gamma, where
   * gamma is cos((L/2) / rho) as the source writes it. For a car of size
   * zero the source divides by zero; there the model takes gamma = cos(0).
   */
  function CenterToRightBottomPos(t: Trig, center: Point, orientation: real, carLength: real, carWidth: real): (p: Point)
    ensures Pythagorean(t) && SquareRootAt(t, carLength * carLength + carWidth * carWidth) ==>
              p.Minus(center).SquaredNorm() == 0.25 * (carLength * carLength + carWidth * carWidth)
  {
    var rho := TranslationRho(t, carLength, carWidth);
    var gamma := Gamma(t, carLength, carWidth);
    var offset := Pol2Cart(t, rho, t.pi + orientation + gamma);
    assert center.Plus(offset).Minus(center) == offset;
    HalfDiagonal(t, carLength * carLength + carWidth * carWidth);
    center.Plus(offset)
  }

  /** cos((L/2) / rho), the source's angle offset of the corner. */
  function Gamma(t: Trig, carLength: real, carWidth: real): real {
    var rho := TranslationRho(t, carLength, carWidth);
    t.cos(if rho != 0.0 then (0.5 * carLength) / rho else 0.0)
  }

  lemma HalfDiagonal(t: Trig, a: real)
    ensures SquareRootAt(t, a) ==> (0.5 * t.sqrt(a)) * (0.5 * t.sqrt(a)) == 0.25 * a
  {
    var r := t.sqrt(a);
    assert (0.5 * r) * (0.5 * r) == 0.25 * (r * r);
  }

  /**
   * The four corners of a car rectangle in anti-clockwise order, from the
   * anchor: the anchor, then along the length, then across the width.
   */
  function GetAllPos(t: Trig, drawable: Drawable, carLength: Option<real>, carWidth: Option<real>): (r: Result<seq<Point>, CoordsError>)
    ensures r.Failure? <==>
              !drawable.Rectangle? || carLength == None || carWidth == None ||
              carLength == Some(0.0) || carWidth == Some(0.0)
    ensures r == Failure(UnsupportedDrawable) <==> !drawable.Rectangle?
    ensures r.Success? ==> |r.value| == 4 && r.value[0] == drawable.xy
    ensures r.Success? && |r.value| == 4 ==>
              var c := r.value;
              var lengthVec := c[1].Minus(c[0]);
              var widthVec := c[3].Minus(c[0]);
              c[2].Minus(c[3]) == lengthVec && c[2].Minus(c[1]) == widthVec &&
              (Pythagorean(t) ==>
                 lengthVec.SquaredNorm() == carLength.value * carLength.value &&
                 widthVec.SquaredNorm() == carWidth.value * carWidth.value)
    ensures r.Success? && |r.value| == 4 ==>
              r.value[1].Minus(r.value[0]) == Pol2Cart(t, carLength.value, Radians(t, drawable.angle)) &&
              r.value[3].Minus(r.value[0]) == Pol2Cart(t, carWidth.value, Radians(t, drawable.angle) + t.pi / 2.0)
  {
    match drawable
    case Rectangle(xy, _, _, angle) =>
      if carLength.Some? && carLength.value != 0.0 && carWidth.Some? && carWidth.value != 0.0 then
        Success(Corners(t, xy, Radians(t, angle), carLength.value, carWidth.value))
      else
        Failure(MissingCarDimensions)
    case OtherDrawable =>
      Failure(UnsupportedDrawable)
  }

  /** The corner list built from an anchor, a heading and the car size. */
  function Corners(t: Trig, anchor: Point, orientation: real, carLength: real, carWidth: real): (c: seq<Point>)
    ensures |c| == 4 && c[0] == anchor
    ensures c[1].Minus(c[0]) == c[2].Minus(c[3]) == Pol2Cart(t, carLength, orientation)
    ensures c[3].Minus(c[0]) == c[2].Minus(c[1]) == Pol2Cart(t, carWidth, orientation + t.pi / 2.0)
  {
    var lengthVec := Pol2Cart(t, carLength, orientation);
    var widthVec := Pol2Cart(t, carWidth, orientation + t.pi / 2.0);
    [anchor, anchor.Plus(lengthVec), anchor.Plus(lengthVec).Plus(widthVec), anchor.Plus(widthVec)]
  }

  /**
   * DrawHelp.convert_to_drawable for a state: the car rectangle anchored at
   * its right bottom corner, with the heading converted to degrees.
   */
  function ConvertToDrawable(t: Trig, center: Point, orientation: real, carLength: real, carWidth: real): (d: Drawable)
    ensures d.Rectangle? && d.width == carLength && d.height == carWidth
    ensures Radians(t, d.angle) == orientation
    ensures d.xy == CenterToRightBottomPos(t, center, orientation, carLength, carWidth)
  {
    RadiansOfDegrees(t, orientation);
    Rectangle(CenterToRightBottomPos(t, center, orientation, carLength, carWidth), carLength, carWidth, Degrees(t, orientation))
  }

  /** The corners of a converted state are those of a rectangle at the state's own heading. */
  lemma ConvertedCorners(t: Trig, center: Point, orientation: real, carLength: real, carWidth: real)
    requires carLength != 0.0 && carWidth != 0.0
    ensures GetAllPos(t, ConvertToDrawable(t, center, orientation, carLength, carWidth), Some(carLength), Some(carWidth))
            == Success(Corners(t, CenterToRightBottomPos(t, center, orientation, carLength, carWidth), orientation, carLength, carWidth))
  {
  }
}

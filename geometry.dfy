/** Core Graphics value types used by the view extensions. `CGFloat` is modelled
    as `real`: no rounding, NaN or infinity. */
module Geometry {

  /** CGSize */
  datatype Size = Size(width: real, height: real)

  /** CGRect, by origin and size */
  datatype Rect = Rect(x: real, y: real, width: real, height: real)

  /** UIEdgeInsets */
  datatype EdgeInsets = EdgeInsets(top: real, left: real, bottom: real, right: real)
}

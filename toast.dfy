/** The frame that `UIViewController.showToast` gives its toast label. Styling,
    adding the label to the view and the fade animation are not modelled. */
module Toast {
  import opened Geometry

  /** Horizontal padding added to the label's intrinsic width */
  const HorizontalPadding: real := 16.0

  /** Fixed height of the toast */
  const ToastHeight: real := 32.0

  /** The toast's frame inside a view of size `view`, for a label whose intrinsic
      content width is `intrinsicWidth`: padded, fixed height, centred
      horizontally, with its bottom edge two toast heights above the view's. */
  function ToastFrame(view: Size, intrinsicWidth: real): (r: Rect)
    ensures r.width == intrinsicWidth + 16.0 && r.height == 32.0
    ensures r.y == view.height - 96.0
    ensures r.x + r.width / 2.0 == view.width / 2.0
    ensures r.x == view.width - (r.x + r.width)
    ensures view.height - (r.y + r.height) == 2.0 * r.height
  {
    var toastWidth := intrinsicWidth + HorizontalPadding;
    Rect(view.width / 2.0 - toastWidth / 2.0,
         view.height - ToastHeight * 3.0,
         toastWidth,
         ToastHeight)
  }
}

/** `UIButton.centerTitleVertically`: the edge insets that put a button's title
    below its image, both centred horizontally. */
module ButtonLayout {
  import opened Wrappers
  import opened Geometry

  /** Default spacing between the image and the title */
  const DefaultPadding: real := 12.0

  /** The three inset records the method assigns to the button */
  datatype ButtonInsets = ButtonInsets(image: EdgeInsets, title: EdgeInsets, content: EdgeInsets)

  /** The insets for an image view of size `imageSize` and a title label of size
      `titleSize`, `padding` apart. `None` when either view is missing, in which
      case the button is left unchanged. */
  function CenterTitleVertically(imageSize: Option<Size>, titleSize: Option<Size>, padding: real := DefaultPadding)
    : (r: Option<ButtonInsets>)
    ensures r.None? <==> imageSize.None? || titleSize.None?
    ensures r.Some? ==>
      var image, title := imageSize.value, titleSize.value;
      // the image moves up by half of what the title and the padding take
      && r.value.image == EdgeInsets(-(title.height + padding) / 2.0, 0.0, 0.0, -title.width)
      // the title moves left under the image and down past it and the padding
      && r.value.title == EdgeInsets(0.0, -image.width, -(image.height + padding), 0.0)
      // the content grows by the title's height at the bottom
      && r.value.content == EdgeInsets(0.0, 0.0, title.height, 0.0)
  {
    match (imageSize, titleSize)
    case (Some(image), Some(title)) =>
      var totalHeight := image.height + title.height + padding;
      Some(ButtonInsets(
        EdgeInsets(-(totalHeight - image.height) / 2.0, 0.0, 0.0, -title.width),
        EdgeInsets(0.0, -image.width, -(totalHeight - title.height), 0.0),
        EdgeInsets(0.0, 0.0, title.height, 0.0)))
    case _ => None
  }

  /** The image's insets depend only on the title and the padding, the title's
      only on the image and the padding, the content's only on the title. */
  lemma InsetsCrossDependence(image1: Size, image2: Size, title1: Size, title2: Size, padding: real)
    ensures CenterTitleVertically(Some(image1), Some(title1), padding).value.image
         == CenterTitleVertically(Some(image2), Some(title1), padding).value.image
    ensures CenterTitleVertically(Some(image1), Some(title1), padding).value.content
         == CenterTitleVertically(Some(image2), Some(title1), padding).value.content
    ensures CenterTitleVertically(Some(image1), Some(title1), padding).value.title
         == CenterTitleVertically(Some(image1), Some(title2), padding).value.title
  {
  }

  /** With real (non-negative) sizes and padding, the image and the title are only
      ever pulled outwards and the content only ever grows. */
  lemma InsetsSigns(image: Size, title: Size, padding: real)
    requires 0.0 <= image.width && 0.0 <= image.height
    requires 0.0 <= title.width && 0.0 <= title.height && 0.0 <= padding
    ensures var r := CenterTitleVertically(Some(image), Some(title), padding).value;
      && r.image.top <= 0.0 && r.image.right <= 0.0
      && r.title.left <= 0.0 && r.title.bottom <= 0.0
      && r.content.bottom >= 0.0
  {
  }
}

# SwiftyUtils view-extension arithmetic, modelled in Dafny

SwiftyUtils adds convenience extensions to UIKit classes. Nearly all of them
forward directly to UIKit. This project models the parts of
`Sources/Extensions/UIKit/UIView/File.swift` that hold their own logic:

- **Row helpers on `UIView`** (`RowLayout`). `calculateNumberOfItemsPerRow`,
  `remainingSpace` and `canFitNewCellInRow`, plus `Array.sum`. The view's
  frame width is the container. A list of element views is represented by the
  widths of their frames, in order, as a `seq<real>`. The three width totals
  in the source are the same `map { frame.width }.reduce(0, +)`. The model
  defines that fold once, as `Sum`, which is `Array.sum`. `Array.sum` is an
  instance method of every `Array` that ignores its receiver and sums its
  argument, so the model drops the unused receiver.
- **`Array.Enque<T>`** (`Queue`). A Swift struct with `mutating` methods,
  modelled as a class. Its private `array` becomes the `seq` field `items`,
  because `array` is a reserved word in Dafny. `enque` appends. `deque`
  appends too when given a value, and does nothing otherwise. Nothing ever
  removes an item. `peak` only reads the last item.
- **`UIButton.centerTitleVertically`** (`ButtonLayout`). A function from the
  optional image-view size, the optional title-label size and the padding to
  the optional triple of edge insets the method assigns. `None` means the
  button is left unchanged.
- **The toast frame of `UIViewController.showToast`** (`Toast`). The frame
  computed from the view's size and the label's intrinsic width.

`CGFloat` is modelled as `real` (`Geometry`). Swift optionals become
`Wrappers.Option`.

Two helpers have edge cases that shape the model:

- `canFitNewCellInRow` takes no candidate width. It uses
  `cells[0].frame.width` as the new item's width, and it traps on an empty
  list (File.swift:578). The model therefore requires a non-empty row.
- `calculateNumberOfItemsPerRow` returns the floored quotient as a `CGFloat`
  and divides without a guard (File.swift:554). The model returns a
  whole-valued `real` and requires `size != 0.0`. A negative size gives a
  finite, non-positive count, as in the source. Lemma `UniformRowFit` states
  how this helper agrees with the fit check when every item in a row has the
  same width.

## Model

| member | source | states |
|---|---|---|
| `RowLayout.Sum` | Sources/Extensions/UIKit/UIView/File.swift:594-597 | For non-negative widths, the total is non-negative and at least every single width |
| `RowLayout.SumAppend` | Sources/Extensions/UIKit/UIView/File.swift:594-597 | The total of a concatenation is the sum of the totals of its parts |
| `RowLayout.SumMatchesFrontFold` | Sources/Extensions/UIKit/UIView/File.swift:595 | The left fold `reduce(0, +)` gives the same total as folding from the front |
| `RowLayout.SumUniform` | Sources/Extensions/UIKit/UIView/File.swift:594-597 | A row of `n` items of width `c` is `n * c` wide |
| `RowLayout.SumUniformPlusOne` | Sources/Extensions/UIKit/UIView/File.swift:580-586 | A uniform row of `n` items, plus one more such item, is `(n + 1) * c` wide |
| `RowLayout.ItemsPerRow` | Sources/Extensions/UIKit/UIView/File.swift:552-555 | For any non-zero size, the result is a whole number. For a positive size, `r * size <= width < (r + 1) * size`. For a negative size, the mirrored bracket `(r + 1) * size < width <= r * size` holds |
| `RowLayout.ItemsPerRowBracket` | Sources/Extensions/UIKit/UIView/File.swift:552-555 | For a positive size, the result is a whole number `m` with `m * size <= width < (m + 1) * size` |
| `RowLayout.ItemsPerRowUnique` | Sources/Extensions/UIKit/UIView/File.swift:552-555 | Any whole `k` with `k * size <= width < (k + 1) * size` is the result, so the result is exactly `floor(width / size)` |
| `RowLayout.ItemsPerRowIsLargestFit` | Sources/Extensions/UIKit/UIView/File.swift:551-555 | `j` items of that size fit side by side if and only if `j` is at most the result |
| `RowLayout.ItemsPerRowExamples` | Sources/Extensions/UIKit/UIView/File.swift:552-555 | Widths 320, 300 and 299 hold 3, 3 and 2 items of width 100. Widths 300 and 250 with size -100 both give -3 |
| `RowLayout.RemainingSpace` | Sources/Extensions/UIKit/UIView/File.swift:559-570 | The remainder plus the total width of the elements is the container width. It equals the container width for an empty list. It never exceeds the container width for real widths, and it is not clamped at zero |
| `RowLayout.RemainingSpaceAfterPlacing` | Sources/Extensions/UIKit/UIView/File.swift:559-570 | Placing `a` then `b` leaves what placing `b` in the remainder after `a` leaves |
| `RowLayout.CanFitNewCellInRow` | Sources/Extensions/UIKit/UIView/File.swift:574-589 | For a non-empty row, true exactly when the row with one more item as wide as its first element is no wider than the container |
| `RowLayout.CanFitIffRemainingSpace` | Sources/Extensions/UIKit/UIView/File.swift:559-589 | A new item fits exactly when `remainingSpace` is at least the first element's width |
| `RowLayout.UniformRowFit` | Sources/Extensions/UIKit/UIView/File.swift:552-589 | In a row of `n` equal items, one more fits exactly when `n + 1` is at most `calculateNumberOfItemsPerRow` for that width |
| `RowLayout.CanFitExamples` | Sources/Extensions/UIKit/UIView/File.swift:574-589 | In a container of width 100, the row [30, 30] has room for another item and the row [50, 30] does not |
| `Queue.Enque.constructor` | Sources/Extensions/UIKit/UIView/File.swift:535-538 | A new container holds no items and stores the given `element`, which defaults to `nil` |
| `Queue.Enque.Enque` | Sources/Extensions/UIKit/UIView/File.swift:519-521 | Appends the item at the end, so the count grows by one. Earlier items and `element` are unchanged |
| `Queue.Enque.Deque` | Sources/Extensions/UIKit/UIView/File.swift:523-529 | With a value, appends it like `enque`. With `nil`, changes nothing. It never removes an item, and `element` is unchanged |
| `Queue.Enque.Peak` | Sources/Extensions/UIKit/UIView/File.swift:531-533 | Returns the last item, or none when the container is empty. It changes no state |
| `ButtonLayout.CenterTitleVertically` | Sources/Extensions/UIKit/UIView/File.swift:440-468 | No change when either size is missing. The padding defaults to 12. Otherwise: image top `-(titleH + padding) / 2`, image right `-titleW`, title left `-imageW`, title bottom `-(imageH + padding)`, content bottom `titleH`, all other components 0 |
| `ButtonLayout.InsetsCrossDependence` | Sources/Extensions/UIKit/UIView/File.swift:446-467 | The image's insets depend only on the title and the padding. The title's depend only on the image and the padding. The content's depend only on the title |
| `ButtonLayout.InsetsSigns` | Sources/Extensions/UIKit/UIView/File.swift:446-467 | For non-negative sizes and padding, the image and title insets are never positive and the content bottom inset is never negative |
| `Toast.ToastFrame` | Sources/Extensions/UIKit/UIView/File.swift:282-287 | Width is intrinsic width + 16 and height is 32. The toast is centred horizontally, with equal left and right margins. Its bottom edge is 64 points, two toast heights, above the view's bottom (y = viewH - 96) |

## Left out

- Auto Layout wrappers (`fromNib`, `layoutAttach*`, `addConstraintsWithFormat`, `anchor`, `anchorAll`, `centerX`, `centerY`, `setDimensions`, `setHeight`, `setWidth`, `centerInSuperview`): they only build and activate UIKit constraint objects.
- The rest of `showToast`: label styling, `addSubview`, and the animated fade and removal are UIKit side effects. Only the frame arithmetic is modelled.
- `configureGradientLayer`, `configureNavigationBar`, `ConfigureButton`, `showError`, `setSFSymbol` and `UIColor.rgb`: each is a single call into a UIKit class.
- `Sources/ios/UIScreenExtension.swift`: it reads global device state (application and screen objects). Its only logic is a portrait/landscape swap.
- `Sources/Extensions/UIKit/UITextField/UITextFieldExtension.swift`: it only sets UIKit text-field properties and targets.
- `Tests/Vendors/UIKit/Vendor/UITableViewCell/ReusableClassHeaderFooterView.swift`: an empty subclass with no logic.
- Floating point: `CGFloat` is an exact `real`, so rounding, NaN and infinity are not modelled.
- RowLayout.ItemsPerRow: a zero size is excluded by `requires size != 0.0`. In the source, a zero size gives an infinite result, or NaN when the width is also zero. A negative size gives a finite, non-positive count and is modelled.
- The views themselves: the row helpers take the elements' frame widths rather than `UIView` objects, and the container's frame width as a number.
- Printing: the message `deque` prints for `nil` and the value `peak` prints are not modelled. `Peak` returns the value instead, and neither method changes state.
- `Enque` is a Swift value type, so copying it copies its items. The model uses a class, and the value semantics of copies are not modelled.

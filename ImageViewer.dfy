/**
 * The guards of `components/ui/image-viewer-modal.tsx`: whether the viewer
 * renders at all for the given list and index, which image it shows,
 * which arrows are disabled, and the "i / n" counter.
 */
module ImageViewer {

  import opened Wrappers

  /** What the open viewer displays. */
  datatype Frame<T> = Frame(image: T, previousDisabled: bool, nextDisabled: bool, position: nat, total: nat)

  /**
   * The viewer for `images` at `currentIndex`: nothing when the list is
   * empty or the index is outside it; otherwise the image at the index,
   * the arrow states and the counter.
   */
  function View<T>(images: seq<T>, currentIndex: int): (v: Option<Frame<T>>)
    ensures v.None? <==> |images| == 0 || currentIndex < 0 || currentIndex >= |images|
    ensures v.Some? ==> v.value.image == images[currentIndex]
    ensures v.Some? ==> (v.value.previousDisabled <==> currentIndex == 0)
    ensures v.Some? ==> (v.value.nextDisabled <==> currentIndex == |images| - 1)
    ensures v.Some? ==> 1 <= v.value.position <= v.value.total == |images|
    ensures v.Some? ==> v.value.position == currentIndex + 1
  {
    if |images| == 0 || currentIndex < 0 || currentIndex >= |images| then None
    else
      Some(Frame(images[currentIndex], currentIndex == 0, currentIndex == |images| - 1,
                 currentIndex + 1, |images|))
  }

  /** While the next arrow is enabled, stepping forward lands on another image that renders. */
  lemma NextStaysInRange<T>(images: seq<T>, i: int)
    requires View(images, i).Some? && !View(images, i).value.nextDisabled
    ensures View(images, i + 1).Some?
    ensures View(images, i + 1).value.position == View(images, i).value.position + 1
  {
  }

  /** While the previous arrow is enabled, stepping back lands on another image that renders. */
  lemma PreviousStaysInRange<T>(images: seq<T>, i: int)
    requires View(images, i).Some? && !View(images, i).value.previousDisabled
    ensures View(images, i - 1).Some?
    ensures View(images, i - 1).value.position == View(images, i).value.position - 1
  {
  }

  /** With a single image both arrows are disabled. */
  lemma SingleImageDisablesBoth<T>(image: T)
    ensures View([image], 0) == Some(Frame(image, true, true, 1, 1))
  {
  }
}

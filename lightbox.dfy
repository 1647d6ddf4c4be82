/**
 * The lightbox's starting slide and keyboard handling
 * (src/components/Lightbox.tsx).
 */
module Lightbox {
  import opened JsBuiltins
  import opened GalleryTypes

  /** `currentImageId` is truthy: present and not the empty string. */
  predicate HasCurrentId(currentImageId: Option<string>) {
    currentImageId.Some? && currentImageId.value != ""
  }

  /** The `activeIndex` memo: where the current image is, falling back to the first slide. */
  function ActiveIndex(currentImageId: Option<string>, allImages: seq<GalleryImage>): (r: int)
    ensures !HasCurrentId(currentImageId) || allImages == [] ==> r == 0
    ensures HasCurrentId(currentImageId) && HasImageId(allImages, currentImageId.value) ==>
      && 0 <= r < |allImages| && allImages[r].id == currentImageId.value
      && forall j :: 0 <= j < r ==> allImages[j].id != currentImageId.value
    ensures HasCurrentId(currentImageId) && !HasImageId(allImages, currentImageId.value) ==> r == 0
    ensures allImages != [] ==> 0 <= r < |allImages|
  {
    if HasCurrentId(currentImageId) && |allImages| > 0 then
      var index := FindIndex(allImages, (img: GalleryImage) => img.id == currentImageId.value);
      if index != -1 then index else 0
    else 0
  }

  datatype Key = Escape | ArrowLeft | ArrowRight | OtherKey(name: string)

  /** What a key press does: close the lightbox, move the carousel, or nothing. */
  datatype KeyAction = CloseLightbox | PreviousSlide | NextSlide | NoAction

  /** `handleKeyDown` */
  function KeyDown(isOpen: bool, key: Key): (a: KeyAction)
    ensures !isOpen ==> a == NoAction
    ensures isOpen ==> (a == CloseLightbox <==> key == Escape)
    ensures isOpen ==> (a == PreviousSlide <==> key == ArrowLeft)
    ensures isOpen ==> (a == NextSlide <==> key == ArrowRight)
  {
    if !isOpen then NoAction
    else match key
      case Escape => CloseLightbox
      case ArrowLeft => PreviousSlide
      case ArrowRight => NextSlide
      case OtherKey(_) => NoAction
  }
}

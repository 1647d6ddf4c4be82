/**
 * The image grid's ordering (src/components/GalleryGrid.tsx): a copy of the
 * images sorted by `order` with `(a, b) => a.order - b.order`. Sequences are
 * values here, so the caller's list is untouched by construction.
 */
module GalleryGrid {
  import opened GalleryTypes
  import opened Ordering
  import opened Backend

  /** `[...images].sort((a, b) => a.order - b.order)` */
  function SortedImages(images: seq<GalleryImage>): (r: seq<GalleryImage>)
    ensures |r| == |images|
    ensures multiset(r) == multiset(images)
    ensures SortedBy(r, ImageOrder)
  {
    SortBy(images, ImageOrder)
  }

  /** Images with equal order keep their relative order. */
  lemma SortedImagesStable(images: seq<GalleryImage>, order: int)
    ensures WithKey(SortedImages(images), ImageOrder, order) == WithKey(images, ImageOrder, order)
  {
    SortByStable(images, ImageOrder, order);
  }

  /** Sorting twice is sorting once. */
  lemma SortedImagesIdempotent(images: seq<GalleryImage>)
    ensures SortedImages(SortedImages(images)) == SortedImages(images)
  {
    SortBySorted(SortedImages(images), ImageOrder);
  }

  /**
   * The grid shows the lists of GET /api/gallery in the order the API sends
   * them, which is also the order the lightbox steps through.
   */
  lemma GridKeepsServerOrder(rows: seq<GalleryImage>)
    ensures SortedImages(GroupByCategory(rows).finished) == GroupByCategory(rows).finished
    ensures SortedImages(GroupByCategory(rows).wip) == GroupByCategory(rows).wip
  {
    SortBySorted(GroupByCategory(rows).finished, ImageOrder);
    SortBySorted(GroupByCategory(rows).wip, ImageOrder);
  }
}

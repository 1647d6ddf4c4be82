/**
 * The records the site passes around: a gallery image, the two-list view of
 * the gallery, and a link as the backend stores it. The creation and update
 * timestamps of an image are not part of this model.
 */
module GalleryTypes {

  /** One artwork. `category` is a free string in the table; the views use "finished" and "wip". */
  datatype GalleryImage = GalleryImage(
    id: string,
    src: string,
    alt: string,
    description: string,
    category: string,
    year: int,
    order: int,
    width: int)

  /** The gallery as the API returns it: finished works and works in progress. */
  datatype GalleryData = GalleryData(finished: seq<GalleryImage>, wip: seq<GalleryImage>)

  /** A navigation link as the backend stores it. */
  datatype Link = Link(id: int, text: string, url: string, order: int)

  const Finished: string := "finished"
  const Wip: string := "wip"

  const EmptyGallery: GalleryData := GalleryData([], [])

  function ImageOrder(img: GalleryImage): int { img.order }

  function LinkOrder(l: Link): int { l.order }

  /** Every image in `finished` is finished and every image in `wip` is a work in progress. */
  predicate Partitioned(d: GalleryData) {
    && (forall i :: 0 <= i < |d.finished| ==> d.finished[i].category == Finished)
    && (forall i :: 0 <= i < |d.wip| ==> d.wip[i].category == Wip)
  }

  /** No two images of the sequence share an id. */
  predicate DistinctIds(s: seq<GalleryImage>) {
    forall i, j :: 0 <= i < j < |s| ==> s[i].id != s[j].id
  }

  predicate HasImageId(s: seq<GalleryImage>, id: string) {
    exists i :: 0 <= i < |s| && s[i].id == id
  }
}

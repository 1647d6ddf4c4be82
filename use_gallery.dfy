/**
 * The gallery loader hook (src/hooks/useGallery.ts): one fetch of the
 * gallery on mount, with a fixed fallback gallery when the fetch fails. The
 * fetch's outcome is an input; preloading is represented by the list of
 * sources handed to the browser.
 */
module UseGallery {
  import opened JsBuiltins
  import opened GalleryTypes
  import opened Ordering

  const MediaHost: string := "https://media.merlinkraemer.com/"

  /** A fallback entry: all of them are from 2025 and one column wide. */
  function FallbackImage(id: string, file: string, alt: string, description: string,
                         category: string, order: int): GalleryImage
  {
    GalleryImage(id, MediaHost + file, alt, description, category, 2025, order, 1)
  }

  /** The static gallery shown when the API cannot be reached. */
  const FallbackGallery: GalleryData := GalleryData(
    [ FallbackImage("cozy-bed", "Cozy-Bed.webp", "Cozy Bed",
        "56x42cm, Acryl, Pastel auf Holz - 50€", Finished, 0),
      FallbackImage("studio-gatos", "Studio-Gatos.webp", "Studio Gatos",
        "112x73cm, Acryl auf Holz - 165€ (Verkauft)", Finished, 1),
      FallbackImage("katze-in-pflanze", "Katze-in-Pflanze.webp", "Katze in Pflanze",
        "60x60cm, Acryl, Pastel auf Leinwand - 60€ (Verkauft)", Finished, 2),
      FallbackImage("sonnenritter", "Sonnenritter.webp", "Sonnenritter",
        "52x82cm, Acryl auf Holz - 75€ (Verkauft)", Finished, 3),
      FallbackImage("pizzalady", "pizzalady.webp", "Pizzalady",
        "40x40cm, Acryl auf Leinwand - 50€", Finished, 4),
      FallbackImage("treibhaus", "Treibhaus.webp", "Treibhaus",
        "76x78cm, Öl, Acryl, Latex auf Leinwand - 75€ (Verkauft)", Finished, 5),
      FallbackImage("room1", "room1.webp", "Room 1",
        "40x40cm, Acryl auf Leinwand (Reserviert)", Finished, 6) ],
    [ FallbackImage("wip-2", "IMG_0409.webp", "WIP 2",
        "40x80cm, Acryl auf Leinwand", Wip, 0) ])

  /** The fallback is well formed: partitioned, ids distinct, each order its position. */
  lemma FallbackWellFormed()
    ensures Partitioned(FallbackGallery)
    ensures DistinctIds(FallbackGallery.finished + FallbackGallery.wip)
    ensures forall i :: 0 <= i < |FallbackGallery.finished| ==> FallbackGallery.finished[i].order == i
    ensures forall i :: 0 <= i < |FallbackGallery.wip| ==> FallbackGallery.wip[i].order == i
    ensures |FallbackGallery.finished| == 7 && |FallbackGallery.wip| == 1
  {
    var all := FallbackGallery.finished + FallbackGallery.wip;
    assert all[0].id[0] == 'c' && all[1].id[0] == 's' && all[2].id[0] == 'k' && all[3].id[0] == 's';
    assert all[4].id[0] == 'p' && all[5].id[0] == 't' && all[6].id[0] == 'r' && all[7].id[0] == 'w';
    assert all[1].id[1] == 't' && all[3].id[1] == 'o';
  }

  /** The sources preloaded after a successful fetch: those of the first three finished images. */
  function CriticalSources(d: GalleryData): (r: seq<string>)
    ensures |r| <= 3 && |r| <= |d.finished|
    ensures |r| == 3 || |r| == |d.finished|
    ensures forall i :: 0 <= i < |r| ==> r[i] == d.finished[i].src
  {
    var n := if |d.finished| < 3 then |d.finished| else 3;
    seq(n, i requires 0 <= i < n => d.finished[i].src)
  }

  /** The state the hook returns. */
  class GalleryHook {
    var galleryData: GalleryData
    var loading: bool
    var error: Option<string>

    /** The state before the fetch settles. */
    constructor ()
      ensures galleryData == EmptyGallery && loading && error == None
    {
      galleryData := EmptyGallery;
      loading := true;
      error := None;
    }

    /**
     * `fetchGallery`: `response` is the fetched gallery, or None when the
     * request failed. Returns the sources handed to the preloader.
     */
    method FetchGallery(response: Option<GalleryData>) returns (preloaded: seq<string>)
      modifies this
      ensures !loading
      ensures response.Some? ==>
        galleryData == response.value && error == None && preloaded == CriticalSources(response.value)
      ensures response.None? ==>
        galleryData == FallbackGallery && error == Some("Failed to load gallery") && preloaded == []
    {
      loading := true;
      preloaded := [];
      match response {
        case Some(data) =>
          galleryData := data;
          error := None;
          preloaded := CriticalSources(data);
        case None =>
          error := Some("Failed to load gallery");
          galleryData := FallbackGallery;
      }
      loading := false;
    }
  }

  /** A failed fetch still leaves a gallery that is sorted and partitioned, with sources to show. */
  lemma FailedFetchShowsFallback()
    ensures Partitioned(FallbackGallery)
    ensures SortedBy(FallbackGallery.finished, ImageOrder) && SortedBy(FallbackGallery.wip, ImageOrder)
    ensures CriticalSources(FallbackGallery) == [
      MediaHost + "Cozy-Bed.webp", MediaHost + "Studio-Gatos.webp", MediaHost + "Katze-in-Pflanze.webp"]
  {
    FallbackWellFormed();
  }
}

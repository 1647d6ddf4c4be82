/**
 * The home page's data handling (src/App.tsx): the split of the links into
 * regular and social ones, the combined image list, and the id of the image
 * shown in the lightbox.
 */
module Home {
  import opened JsBuiltins
  import opened GalleryTypes
  import opened Lightbox

  /** The words that make a link a social link. */
  const SocialKeywords: seq<string> := ["SoundCloud", "Bandcamp", "Instagram", "TikTok", "YouTube", "Twitch"]

  /** The `socialLinks` test. */
  predicate IsSocial(l: Link) {
    Includes(l.text, "SoundCloud") || Includes(l.text, "Bandcamp") || Includes(l.text, "Instagram")
    || Includes(l.text, "TikTok") || Includes(l.text, "YouTube") || Includes(l.text, "Twitch")
  }

  /** The `regularLinks` test, written separately in the page. */
  predicate IsRegular(l: Link) {
    !Includes(l.text, "SoundCloud") && !Includes(l.text, "Bandcamp") && !Includes(l.text, "Instagram")
    && !Includes(l.text, "TikTok") && !Includes(l.text, "YouTube") && !Includes(l.text, "Twitch")
  }

  /** A link is social exactly when its text contains one of the keywords. */
  lemma IsSocialKeyword(l: Link)
    ensures IsSocial(l) <==> exists k :: 0 <= k < |SocialKeywords| && Includes(l.text, SocialKeywords[k])
  {
    if IsSocial(l) {
      var k := if Includes(l.text, "SoundCloud") then 0
        else if Includes(l.text, "Bandcamp") then 1
        else if Includes(l.text, "Instagram") then 2
        else if Includes(l.text, "TikTok") then 3
        else if Includes(l.text, "YouTube") then 4
        else 5;
      assert Includes(l.text, SocialKeywords[k]);
    }
  }

  function RegularLinks(links: seq<Link>): seq<Link> {
    Filter(links, IsRegular)
  }

  function SocialLinks(links: seq<Link>): seq<Link> {
    Filter(links, IsSocial)
  }

  lemma RegularIsNotSocial()
    ensures forall l :: IsRegular(l) == !IsSocial(l)
  {
  }

  /** Together the two lists hold every link exactly as often as the input: none is lost or duplicated. */
  lemma LinksSplit(links: seq<Link>)
    ensures multiset(RegularLinks(links)) + multiset(SocialLinks(links)) == multiset(links)
    ensures |RegularLinks(links)| + |SocialLinks(links)| == |links|
  {
    RegularIsNotSocial();
    FilterSame(links, IsRegular, Not(IsSocial));
    FilterPartition(links, IsSocial);
  }

  /** A link of the input lands in the social list when it is social and in the regular list otherwise. */
  lemma LinkPlacement(links: seq<Link>, l: Link)
    ensures l in SocialLinks(links) <==> l in links && IsSocial(l)
    ensures l in RegularLinks(links) <==> l in links && !IsSocial(l)
  {
    RegularIsNotSocial();
    FilterHas(links, IsSocial, l);
    FilterHas(links, IsRegular, l);
  }

  /** Both lists keep the links' relative order: they distribute over concatenation. */
  lemma LinksSplitKeepsOrder(a: seq<Link>, b: seq<Link>)
    ensures RegularLinks(a + b) == RegularLinks(a) + RegularLinks(b)
    ensures SocialLinks(a + b) == SocialLinks(a) + SocialLinks(b)
  {
    FilterConcat(a, b, IsRegular);
    FilterConcat(a, b, IsSocial);
  }

  /** `[...galleryData.finished, ...galleryData.wip]` */
  function AllImages(d: GalleryData): (r: seq<GalleryImage>)
    ensures |r| == |d.finished| + |d.wip|
    ensures r[..|d.finished|] == d.finished && r[|d.finished|..] == d.wip
  {
    d.finished + d.wip
  }

  /** The lightbox state of `App`. */
  class LightboxHost {
    var lightboxImageId: Option<string>

    constructor ()
      ensures lightboxImageId.None?
    {
      lightboxImageId := None;
    }

    /** `isOpen: !!lightboxImageId` */
    function IsOpen(): (r: bool)
      reads this
      ensures r <==> HasCurrentId(lightboxImageId)
    {
      lightboxImageId.Some? && lightboxImageId.value != ""
    }

    /** `openLightbox(image, index)`: the index is not used. */
    method Open(image: GalleryImage)
      modifies this
      ensures lightboxImageId == Some(image.id)
    {
      lightboxImageId := Some(image.id);
    }

    /** `closeLightbox` */
    method Close()
      modifies this
      ensures lightboxImageId.None? && !IsOpen()
    {
      lightboxImageId := None;
    }

    /** A grid's `onImageClick`: the lightbox opens only for an id of the combined list. */
    method ImageClick(allImages: seq<GalleryImage>, imageId: string)
      modifies this
      ensures HasImageId(allImages, imageId) ==> lightboxImageId == Some(imageId)
      ensures !HasImageId(allImages, imageId) ==> lightboxImageId == old(lightboxImageId)
    {
      var index := FindIndex(allImages, (img: GalleryImage) => img.id == imageId);
      if index != -1 {
        Open(allImages[index]);
      }
    }

    /** A key press reaching the lightbox, whose `onClose` is `closeLightbox`. */
    method KeyPress(key: Key) returns (action: KeyAction)
      modifies this
      ensures action == KeyDown(old(IsOpen()), key)
      ensures action == CloseLightbox ==> !IsOpen()
      ensures action != CloseLightbox ==> lightboxImageId == old(lightboxImageId)
    {
      action := KeyDown(IsOpen(), key);
      if action == CloseLightbox {
        Close();
      }
    }
  }

  /** A clicked image of the combined list is the lightbox's starting slide. */
  lemma ClickedImageStartsLightbox(d: GalleryData, imageId: string)
    requires imageId != "" && HasImageId(AllImages(d), imageId)
    ensures AllImages(d)[ActiveIndex(Some(imageId), AllImages(d))].id == imageId
  {
  }
}

/**
 * The admin image list (src/components/admin/ImageList.tsx): reordering by
 * drag and drop, and the edit and delete controls of each image. Requests to
 * the backend are represented by what is sent and by their outcome, which is
 * an input.
 */
module ImageList {
  import opened JsBuiltins
  import opened GalleryTypes
  import opened Backend

  // ---------------------------------------------------------------------------
  // Drag and drop
  // ---------------------------------------------------------------------------

  function RemoveAt<T>(s: seq<T>, i: int): (r: seq<T>)
    requires 0 <= i < |s|
    ensures |r| == |s| - 1
  {
    s[..i] + s[i + 1..]
  }

  function InsertAt<T>(s: seq<T>, i: int, x: T): (r: seq<T>)
    requires 0 <= i <= |s|
    ensures |r| == |s| + 1
  {
    s[..i] + [x] + s[i..]
  }

  lemma RemoveInserted<T>(s: seq<T>, i: int, x: T)
    requires 0 <= i <= |s|
    ensures RemoveAt(InsertAt(s, i, x), i) == s
  {
    var t := InsertAt(s, i, x);
    assert t[..i] == s[..i];
    assert t[i + 1..] == s[i..];
    assert s == s[..i] + s[i..];
  }

  lemma InsertRemoved<T>(s: seq<T>, i: int)
    requires 0 <= i < |s|
    ensures InsertAt(RemoveAt(s, i), i, s[i]) == s
  {
    var t := RemoveAt(s, i);
    assert t[..i] == s[..i];
    assert t[i..] == s[i + 1..];
    assert s == s[..i] + [s[i]] + s[i + 1..];
  }

  lemma InsertAtMultiset<T>(s: seq<T>, i: int, x: T)
    requires 0 <= i <= |s|
    ensures multiset(InsertAt(s, i, x)) == multiset(s) + multiset{x}
  {
    assert s == s[..i] + s[i..];
  }

  lemma RemoveAtMultiset<T>(s: seq<T>, i: int)
    requires 0 <= i < |s|
    ensures multiset(RemoveAt(s, i)) + multiset{s[i]} == multiset(s)
  {
    assert s == s[..i] + [s[i]] + s[i + 1..];
  }

  /**
   * dnd-kit's `arrayMove(s, from, to)`: take the item out at `from` and put it
   * back at `to`. The item lands at `to`, the other items keep their relative
   * order, and nothing is lost or duplicated.
   */
  function ArrayMove<T>(s: seq<T>, from: int, to: int): (r: seq<T>)
    requires 0 <= from < |s| && 0 <= to < |s|
    ensures |r| == |s|
    ensures r[to] == s[from]
    ensures RemoveAt(r, to) == RemoveAt(s, from)
    ensures multiset(r) == multiset(s)
  {
    var rest := RemoveAt(s, from);
    RemoveInserted(rest, to, s[from]);
    InsertAtMultiset(rest, to, s[from]);
    RemoveAtMultiset(s, from);
    InsertAt(rest, to, s[from])
  }

  /** Moving an item to the front puts it before the others, which keep their order. */
  lemma ArrayMoveToFront<T>(s: seq<T>, from: int)
    requires 0 <= from < |s|
    ensures ArrayMove(s, from, 0) == [s[from]] + RemoveAt(s, from)
  {
  }

  /** Moving the item back where it came from restores the list. */
  lemma ArrayMoveBack<T>(s: seq<T>, from: int, to: int)
    requires 0 <= from < |s| && 0 <= to < |s|
    ensures ArrayMove(ArrayMove(s, from, to), to, from) == s
  {
    var r := ArrayMove(s, from, to);
    InsertRemoved(s, from);
  }

  /** One `galleryApi.updateImage(id, { order })` request. */
  datatype OrderUpdate = OrderUpdate(id: string, order: int)

  /** The body of such a request. */
  function OrderPatch(order: int): ImagePatch {
    ImagePatch(Missing, Missing, Missing, Missing, Number(order), Missing)
  }

  /** The requests issued for a reordered list: every image, in list order, with its new index. */
  predicate NumbersPositions(images: seq<GalleryImage>, sent: seq<OrderUpdate>) {
    |sent| == |images| && forall i :: 0 <= i < |sent| ==> sent[i] == OrderUpdate(images[i].id, i)
  }

  /** The drag ends over another image of the list. */
  predicate MovesImage(activeId: string, overId: Option<string>) {
    overId.Some? && overId.value != activeId
  }

  /**
   * `handleDragEnd`. `failing` holds the ids whose update request fails. The
   * result `reordered` is the list passed to `onImageReordered`, None when it
   * is not called. Both ids come from the sortable items of this list.
   */
  method HandleDragEnd(images: seq<GalleryImage>, activeId: string, overId: Option<string>, failing: set<string>)
    returns (sent: seq<OrderUpdate>, reordered: Option<seq<GalleryImage>>)
    requires HasImageId(images, activeId)
    requires overId.Some? ==> HasImageId(images, overId.value)
    ensures !MovesImage(activeId, overId) ==> sent == [] && reordered.None?
    ensures MovesImage(activeId, overId) ==>
      var moved := ArrayMove(images, ImageIndex(images, activeId), ImageIndex(images, overId.value));
      && NumbersPositions(moved, sent)
      && (reordered.Some? <==> forall i :: 0 <= i < |sent| ==> sent[i].id !in failing)
      && (reordered.Some? ==> reordered.value == moved)
  {
    sent := [];
    reordered := None;
    if overId.Some? && activeId != overId.value {
      var oldIndex := ImageIndex(images, activeId);
      var newIndex := ImageIndex(images, overId.value);
      var moved := ArrayMove(images, oldIndex, newIndex);
      var allOk := true;
      var i := 0;
      while i < |moved|
        invariant 0 <= i <= |moved|
        invariant |sent| == i
        invariant forall j :: 0 <= j < i ==> sent[j] == OrderUpdate(moved[j].id, j)
        invariant allOk <==> forall j :: 0 <= j < i ==> sent[j].id !in failing
      {
        sent := sent + [OrderUpdate(moved[i].id, i)];
        if moved[i].id in failing {
          allOk := false;
        }
        i := i + 1;
      }
      if allOk {
        reordered := Some(moved);
      }
    }
  }

  // ---------------------------------------------------------------------------
  // Editing and deleting one image
  // ---------------------------------------------------------------------------

  /** The edit form of one image. */
  datatype EditForm = EditForm(alt: string, description: string, category: string, year: int, width: int)

  const DefaultEditForm: EditForm := EditForm("", "", Finished, 0, 1)

  /** The form `startEdit` loads from an image. */
  function FormOf(image: GalleryImage): EditForm {
    EditForm(image.alt, image.description, image.category, image.year, image.width)
  }

  /** The body `handleEditSubmit` sends: the whole form, numbers as numbers. */
  function FormPatch(form: EditForm): ImagePatch {
    ImagePatch(Text(form.alt), Text(form.description), Text(form.category),
               Number(form.year), Missing, Number(form.width))
  }

  /** Saving a form loaded from an image and left untouched writes the image back unchanged. */
  lemma UntouchedFormRoundTrip(image: GalleryImage)
    ensures PatchImage(image, FormPatch(FormOf(image))) == Some(image)
    ensures 1 <= image.width <= 7 ==> !WidthRejected(FormPatch(FormOf(image)).width)
  {
  }

  /** The state of one sortable item. */
  class ImageItem {
    var editingId: Option<string>
    var editForm: EditForm
    var deletingId: Option<string>

    constructor ()
      ensures editingId.None? && editForm == DefaultEditForm && deletingId.None?
    {
      editingId := None;
      editForm := DefaultEditForm;
      deletingId := None;
    }

    method StartEdit(image: GalleryImage)
      modifies this`editingId, this`editForm
      ensures editingId == Some(image.id) && editForm == FormOf(image)
    {
      editingId := Some(image.id);
      editForm := FormOf(image);
    }

    method CancelEdit()
      modifies this`editingId, this`editForm
      ensures editingId.None? && editForm == DefaultEditForm
    {
      editingId := None;
      editForm := DefaultEditForm;
    }

    /**
     * `handleEditSubmit(id)`: `ok` is the outcome of the update request. On
     * success the edit mode ends and the parent is told; on failure the form stays.
     */
    method SubmitEdit(id: string, ok: bool) returns (request: ImagePatch, notified: bool)
      modifies this`editingId
      ensures request == FormPatch(editForm)
      ensures notified == ok
      ensures ok ==> editingId.None?
      ensures !ok ==> editingId == old(editingId)
    {
      request := FormPatch(editForm);
      if ok {
        editingId := None;
      }
      notified := ok;
    }

    /** The first half of `handleDelete`: nothing happens unless the dialog was confirmed. */
    method BeginDelete(id: string, confirmed: bool) returns (requested: bool)
      modifies this`deletingId
      ensures requested == confirmed
      ensures confirmed ==> deletingId == Some(id)
      ensures !confirmed ==> deletingId == old(deletingId)
    {
      requested := confirmed;
      if confirmed {
        deletingId := Some(id);
      }
    }

    /** The second half: whatever the outcome, `deletingId` is cleared; the parent is told on success. */
    method FinishDelete(ok: bool) returns (notified: bool)
      modifies this`deletingId
      ensures deletingId.None? && notified == ok
    {
      notified := ok;
      deletingId := None;
    }
  }
}

/**
 * What a drag-and-drop reorder in the admin image list leaves in the image
 * table, and so what the next GET /api/gallery shows. The list sends
 * `{ order: index }` for every image (src/components/admin/ImageList.tsx),
 * and PUT /api/gallery/:id reads the order with `order ? parseInt(order) :
 * undefined` (backend/src/index.ts), which drops `order: 0`.
 */
module DragReorder {
  import opened JsBuiltins
  import opened GalleryTypes
  import opened Ordering
  import opened Backend
  import opened ImageList

  // ---------------------------------------------------------------------------
  // As written
  // ---------------------------------------------------------------------------

  /** The table after the drag's requests have been applied one by one by PUT as written. */
  function PersistAsWritten(rows: seq<GalleryImage>, sent: seq<OrderUpdate>): (r: seq<GalleryImage>)
    ensures |r| == |rows|
    decreases |sent|
  {
    if sent == [] then rows
    else PersistAsWritten(UpdatedRows(rows, sent[0].id, OrderPatch(sent[0].order)), sent[1..])
  }

  function Row(id: string, order: int): GalleryImage {
    GalleryImage(id, "", "", "", Finished, 2025, order, 1)
  }

  const DragRows: seq<GalleryImage> := [Row("a", 0), Row("b", 1), Row("c", 2)]
  const DragSent: seq<OrderUpdate> := [OrderUpdate("c", 0), OrderUpdate("a", 1), OrderUpdate("b", 2)]

  /** Dragging the last of three images in front of the first sends it order 0 and the other two 1 and 2. */
  lemma DragToFrontSends(s: seq<GalleryImage>)
    requires |s| == 3
    ensures ArrayMove(s, 2, 0) == [s[2], s[0], s[1]]
    ensures NumbersPositions(ArrayMove(s, 2, 0),
      [OrderUpdate(s[2].id, 0), OrderUpdate(s[0].id, 1), OrderUpdate(s[1].id, 2)])
  {
    ArrayMoveToFront(s, 2);
    assert RemoveAt(s, 2) == [s[0], s[1]];
    ThreeNumbered(s[2], s[0], s[1]);
  }

  lemma ThreeNumbered(a: GalleryImage, b: GalleryImage, c: GalleryImage)
    ensures NumbersPositions([a, b, c], [OrderUpdate(a.id, 0), OrderUpdate(b.id, 1), OrderUpdate(c.id, 2)])
  {
  }

  /** For the rows a, b, c these are the requests c: 0, a: 1, b: 2. */
  lemma DragSentIsDragToFront()
    ensures |DragRows| == 3
    ensures DragSent == [OrderUpdate(DragRows[2].id, 0), OrderUpdate(DragRows[0].id, 1), OrderUpdate(DragRows[1].id, 2)]
  {
  }

  /** PUT ignores `order: 0`, so c keeps order 2 while a and b are renumbered. */
  lemma DragToFrontStored()
    ensures PersistAsWritten(DragRows, DragSent) == [Row("a", 1), Row("b", 2), Row("c", 2)]
  {
    assert "a" != "c" && "b" != "c" && "a" != "b";
    assert ImageIndex(DragRows, "c") == 2;
    var t1 := UpdatedRows(DragRows, "c", OrderPatch(0));
    assert t1 == DragRows;
    assert ImageIndex(t1, "a") == 0;
    var t2 := UpdatedRows(t1, "a", OrderPatch(1));
    assert t2 == [Row("a", 1), Row("b", 1), Row("c", 2)];
    assert ImageIndex(t2, "b") == 1;
    var t3 := UpdatedRows(t2, "b", OrderPatch(2));
    assert t3 == [Row("a", 1), Row("b", 2), Row("c", 2)];
    assert DragSent[1..][1..][1..] == [];
    assert PersistAsWritten(DragRows, DragSent) == PersistAsWritten(t1, DragSent[1..]);
    assert PersistAsWritten(t1, DragSent[1..]) == PersistAsWritten(t2, DragSent[1..][1..]);
  }

  /** The finished image with the strictly smallest order is listed first. */
  lemma LeastOrderShownFirst(rows: seq<GalleryImage>, k: int)
    requires 0 <= k < |rows| && rows[k].category == Finished
    requires forall i :: 0 <= i < |rows| && i != k ==> rows[k].order < rows[i].order
    ensures |GroupByCategory(rows).finished| > 0
    ensures GroupByCategory(rows).finished[0] == rows[k]
  {
    var shown := GroupByCategory(rows).finished;
    GroupByCategoryMembers(rows, rows[k]);
    var j :| 0 <= j < |shown| && shown[j] == rows[k];
    GroupByCategoryMembers(rows, shown[0]);
  }

  /**
   * Three finished images a, b, c with orders 0, 1, 2; c is dragged in front
   * of a. The first request is ignored, so the gallery still shows a, not c, first.
   */
  lemma DraggedToFrontNotPersisted()
    ensures |GroupByCategory(PersistAsWritten(DragRows, DragSent)).finished| > 0
    ensures GroupByCategory(PersistAsWritten(DragRows, DragSent)).finished[0].id == "a"
  {
    DragToFrontStored();
    ShownFirstOfThree(PersistAsWritten(DragRows, DragSent));
  }

  lemma ShownFirstOfThree(s: seq<GalleryImage>)
    requires |s| == 3 && s[0].category == Finished
    requires s[0].order < s[1].order && s[0].order < s[2].order
    ensures |GroupByCategory(s).finished| > 0 && GroupByCategory(s).finished[0] == s[0]
  {
    LeastOrderShownFirst(s, 0);
  }

  // ---------------------------------------------------------------------------
  // Corrected: a provided order or year is written, 0 included
  // ---------------------------------------------------------------------------

  /** `v !== undefined ? parseInt(v) : undefined` */
  function PatchIntIntended(current: int, v: BodyValue): (r: Option<int>)
    ensures v.Missing? ==> r == Some(current)
    ensures !v.Missing? ==> r == ParseBody(v)
  {
    if v.Missing? then Some(current) else ParseBody(v)
  }

  /** An integer column given a present value that `parseInt` reads as NaN. */
  predicate IntRejectedIntended(v: BodyValue) {
    !v.Missing? && ParseBody(v).None?
  }

  /**
   * PUT's patch with the order and year taken whenever they are present:
   * a present order or year, 0 included, is written; an absent one keeps its column.
   */
  function PatchImageIntended(row: GalleryImage, p: ImagePatch): (r: Option<GalleryImage>)
    ensures r.None? <==>
      || p.alt.Number? || p.description.Number? || p.category.Number?
      || IntRejectedIntended(p.year) || IntRejectedIntended(p.order) || IntRejected(p.width)
    ensures r.Some? ==> r.value.id == row.id && r.value.src == row.src
    ensures r.Some? && !p.order.Missing? ==> ParseBody(p.order) == Some(r.value.order)
    ensures r.Some? && p.order.Missing? ==> r.value.order == row.order
    ensures r.Some? && !p.year.Missing? ==> ParseBody(p.year) == Some(r.value.year)
    ensures r.Some? && p.year.Missing? ==> r.value.year == row.year
  {
    var alt := PatchText(row.alt, p.alt);
    var description := PatchText(row.description, p.description);
    var category := PatchText(row.category, p.category);
    var year := PatchIntIntended(row.year, p.year);
    var order := PatchIntIntended(row.order, p.order);
    var width := PatchInt(row.width, p.width);
    if alt.Some? && description.Some? && category.Some? && year.Some? && order.Some? && width.Some?
    then Some(row.(alt := alt.value, description := description.value, category := category.value,
                   year := year.value, order := order.value, width := width.value))
    else None
  }

  /** An order request always sets the order, 0 included. */
  lemma OrderPatchIntended(row: GalleryImage, order: int)
    ensures PatchImageIntended(row, OrderPatch(order)) == Some(row.(order := order))
  {
  }

  /** Where they differ, only a falsy order or year is concerned. */
  lemma IntendedAgreesOnTruthy(row: GalleryImage, p: ImagePatch)
    requires Truthy(p.order) || p.order.Missing?
    requires Truthy(p.year) || p.year.Missing?
    ensures PatchImageIntended(row, p) == PatchImage(row, p)
  {
  }

  function UpdatedRowsIntended(rows: seq<GalleryImage>, id: string, patch: ImagePatch): (r: seq<GalleryImage>)
    ensures |r| == |rows|
    ensures forall i :: 0 <= i < |rows| && rows[i].id != id ==> r[i] == rows[i]
    ensures forall i :: 0 <= i < |rows| ==> r[i].id == rows[i].id
  {
    var k := ImageIndex(rows, id);
    if k == -1 then rows
    else match PatchImageIntended(rows[k], patch)
      case None => rows
      case Some(row) => rows[k := row]
  }

  function PersistIntended(rows: seq<GalleryImage>, sent: seq<OrderUpdate>): (r: seq<GalleryImage>)
    ensures |r| == |rows|
    decreases |sent|
  {
    if sent == [] then rows
    else PersistIntended(UpdatedRowsIntended(rows, sent[0].id, OrderPatch(sent[0].order)), sent[1..])
  }

  predicate DistinctUpdateIds(sent: seq<OrderUpdate>) {
    forall i, j :: 0 <= i < j < |sent| ==> sent[i].id != sent[j].id
  }

  /** One corrected order update sets the order of the row with that id and of no other. */
  lemma OrderUpdateIntended(rows: seq<GalleryImage>, id: string, order: int)
    requires DistinctIds(rows)
    ensures var r := UpdatedRowsIntended(rows, id, OrderPatch(order));
      forall k :: 0 <= k < |rows| ==> r[k] == if rows[k].id == id then rows[k].(order := order) else rows[k]
  {
    var k := ImageIndex(rows, id);
    if k != -1 {
      OrderPatchIntended(rows[k], order);
    }
  }

  /** Every row named by a request gets that request's order; every other row is unchanged. */
  lemma {:induction false} PersistIntendedOrders(rows: seq<GalleryImage>, sent: seq<OrderUpdate>)
    requires DistinctIds(rows) && DistinctUpdateIds(sent)
    ensures var after := PersistIntended(rows, sent);
      && (forall k :: 0 <= k < |rows| ==> after[k].(order := 0) == rows[k].(order := 0))
      && (forall k, j :: 0 <= k < |rows| && 0 <= j < |sent| && sent[j].id == rows[k].id ==>
            after[k].order == sent[j].order)
      && (forall k :: 0 <= k < |rows| && (forall j :: 0 <= j < |sent| ==> sent[j].id != rows[k].id) ==>
            after[k] == rows[k])
    decreases |sent|
  {
    if sent != [] {
      var first := UpdatedRowsIntended(rows, sent[0].id, OrderPatch(sent[0].order));
      OrderUpdateIntended(rows, sent[0].id, sent[0].order);
      assert DistinctIds(first) by {
        forall i, j | 0 <= i < j < |first| ensures first[i].id != first[j].id {
          assert first[i].id == rows[i].id && first[j].id == rows[j].id;
        }
      }
      var rest := sent[1..];
      assert DistinctUpdateIds(rest) by {
        forall i, j | 0 <= i < j < |rest| ensures rest[i].id != rest[j].id {
          assert rest[i] == sent[i + 1] && rest[j] == sent[j + 1];
        }
      }
      PersistIntendedOrders(first, rest);
      var after := PersistIntended(rows, sent);
      assert after == PersistIntended(first, rest);
      forall k, j | 0 <= k < |rows| && 0 <= j < |sent| && sent[j].id == rows[k].id
        ensures after[k].order == sent[j].order
      {
        if j == 0 {
          forall j' | 0 <= j' < |rest| ensures rest[j'].id != first[k].id {
            assert rest[j'] == sent[j' + 1];
          }
        } else {
          assert rest[j - 1] == sent[j];
        }
      }
      forall k | 0 <= k < |rows| && (forall j :: 0 <= j < |sent| ==> sent[j].id != rows[k].id)
        ensures after[k] == rows[k]
      {
        forall j' | 0 <= j' < |rest| ensures rest[j'].id != first[k].id {
          assert rest[j'] == sent[j' + 1];
        }
      }
    }
  }

  /** In a sequence sorted by key, an element with a smaller key comes first. */
  lemma SortedPlacesSmallerFirst<T>(s: seq<T>, key: T -> int, p: int, q: int)
    requires SortedBy(s, key) && 0 <= p < |s| && 0 <= q < |s| && key(s[p]) < key(s[q])
    ensures p < q
  {
  }

  /** After the corrected requests, a listed image that was at position i of the dragged list has order i. */
  lemma ShownOrderIsPosition(rows: seq<GalleryImage>, moved: seq<GalleryImage>, sent: seq<OrderUpdate>,
                             x: GalleryImage, i: int)
    requires DistinctIds(rows) && DistinctUpdateIds(sent) && NumbersPositions(moved, sent)
    requires x in GroupByCategory(PersistIntended(rows, sent)).finished
    requires 0 <= i < |moved| && x.id == moved[i].id
    ensures x.order == i
  {
    var after := PersistIntended(rows, sent);
    PersistIntendedOrders(rows, sent);
    GroupByCategoryMembers(after, x);
    var k :| 0 <= k < |after| && after[k] == x;
    assert sent[i].id == rows[k].id;
  }

  /**
   * With the corrected PUT, a drag is persisted: once its requests have been
   * applied, the gallery lists the images of the dragged list in the dragged order.
   */
  lemma CorrectedDragPersisted(rows: seq<GalleryImage>, moved: seq<GalleryImage>, sent: seq<OrderUpdate>,
                               p: int, q: int, i: int, j: int)
    requires DistinctIds(rows) && DistinctIds(moved) && NumbersPositions(moved, sent)
    requires var shown := GroupByCategory(PersistIntended(rows, sent)).finished;
      && 0 <= p < |shown| && 0 <= q < |shown| && 0 <= i < j < |moved|
      && shown[p].id == moved[i].id && shown[q].id == moved[j].id
    ensures p < q
  {
    assert DistinctUpdateIds(sent) by {
      forall a, b | 0 <= a < b < |sent| ensures sent[a].id != sent[b].id {
        assert sent[a].id == moved[a].id && sent[b].id == moved[b].id;
      }
    }
    var shown := GroupByCategory(PersistIntended(rows, sent)).finished;
    ShownOrderIsPosition(rows, moved, sent, shown[p], i);
    ShownOrderIsPosition(rows, moved, sent, shown[q], j);
    SortedPlacesSmallerFirst(shown, ImageOrder, p, q);
  }
}

/**
 * The REST backend (backend/src/index.ts): the image table, the link table
 * and the object store as state of one `Server`, and every route that reads
 * or writes them as a method. The database and the object store are in
 * memory here; their failures that the routes handle are inputs (`dbAvailable`,
 * `uploadOk`, `storageDeleteOk`), and the ids the database would generate are
 * parameters (`newId`) or the autoincrement counter `nextLinkId`.
 */
module Backend {
  import opened JsBuiltins
  import opened GalleryTypes
  import opened Ordering

  // ---------------------------------------------------------------------------
  // Request and response values
  // ---------------------------------------------------------------------------

  /** A field of a request body: absent (`undefined`), a string, or an integer. */
  datatype BodyValue = Missing | Text(s: string) | Number(n: int)

  /** JavaScript truthiness: `undefined`, `""` and `0` are falsy. */
  predicate Truthy(v: BodyValue) {
    match v
    case Missing => false
    case Text(s) => s != ""
    case Number(n) => n != 0
  }

  /** `parseInt(v)`; None stands for NaN. */
  function ParseBody(v: BodyValue): Option<int> {
    match v
    case Missing => None
    case Text(s) => ParseInt(s)
    case Number(n) => Some(n)
  }

  /** `parseInt` converts a number to its text first, which for a safe integer gives the number back. */
  lemma ParseBodyOfNumber(n: int)
    requires SafeInteger(n)
    ensures ParseBody(Number(n)) == ParseBody(Text(IntToString(n)))
  {
    ParseIntOfIntToString(n);
  }

  /** A reply: a JSON body with status 200, or an error status with its message. */
  datatype Reply<T> = Ok(body: T) | Fail(status: int, message: string)

  /** The multipart fields of an upload (`width` is sent by the client but never read). */
  datatype UploadBody = UploadBody(
    alt: BodyValue, description: BodyValue, category: BodyValue, year: BodyValue, width: BodyValue)

  /** The JSON body of a registration of an object already in the store. */
  datatype ExistingBody = ExistingBody(
    src: BodyValue, alt: BodyValue, description: BodyValue, category: BodyValue, year: BodyValue)

  /** The JSON body of an image update; every field is optional. */
  datatype ImagePatch = ImagePatch(
    alt: BodyValue, description: BodyValue, category: BodyValue,
    year: BodyValue, order: BodyValue, width: BodyValue)

  /** The file multer hands over. */
  datatype UploadedFile = UploadedFile(originalName: string, mimeType: string, bytes: seq<bv8>)

  /** An object in the bucket. */
  datatype StoredObject = StoredObject(bytes: seq<bv8>, contentType: string)

  const Unauthorized: Reply<bool> := Fail(401, "Unauthorized")

  // ---------------------------------------------------------------------------
  // Authentication
  // ---------------------------------------------------------------------------

  const BearerPrefix: string := "Bearer "

  /** `req.headers.authorization?.replace("Bearer ", "")` */
  function PresentedPassword(authorization: Option<string>): Option<string> {
    match authorization
    case None => None
    case Some(h) => Some(ReplaceFirst(h, BearerPrefix, ""))
  }

  /**
   * The `authenticate` middleware lets a request through when the presented
   * password is strictly equal to ADMIN_PASSWORD; both may be `undefined`.
   */
  predicate Authenticate(authorization: Option<string>, adminPassword: Option<string>) {
    PresentedPassword(authorization) == adminPassword
  }

  /** A bearer header carrying a token passes exactly when the token is the admin password. */
  lemma BearerHeaderAuthenticates(token: string, adminPassword: Option<string>)
    ensures Authenticate(Some(BearerPrefix + token), adminPassword) <==> adminPassword == Some(token)
  {
    ReplaceFirstOfPrefix(BearerPrefix, token, "");
    assert "" + token == token;
  }

  /** A header without "Bearer " in it is compared verbatim. */
  lemma PlainHeaderAuthenticates(header: string, adminPassword: Option<string>)
    requires !Includes(header, BearerPrefix)
    ensures Authenticate(Some(header), adminPassword) <==> adminPassword == Some(header)
  {
  }

  /** POST /api/auth: the body's password strictly equal to ADMIN_PASSWORD. */
  function CheckPassword(password: BodyValue, adminPassword: Option<string>): (r: Reply<bool>)
    ensures r.Ok? <==> (password.Text? && adminPassword == Some(password.s))
                       || (password.Missing? && adminPassword.None?)
    ensures r.Fail? ==> r.status == 401
  {
    var matches := match password
      case Missing => adminPassword.None?
      case Text(s) => adminPassword == Some(s)
      case Number(_) => false;
    if matches then Ok(true) else Fail(401, "Invalid password")
  }

  // ---------------------------------------------------------------------------
  // Reading the gallery
  // ---------------------------------------------------------------------------

  predicate IsFinishedRow(img: GalleryImage) { img.category == Finished }
  predicate IsWipRow(img: GalleryImage) { img.category == Wip }

  /**
   * GET /api/gallery on a working database: the rows ordered by category and
   * order, split into the finished and the work-in-progress rows. Rows with
   * equal order keep their table order (the database leaves that open).
   */
  function GroupByCategory(rows: seq<GalleryImage>): (d: GalleryData)
    ensures Partitioned(d)
    ensures multiset(d.finished) == multiset(Filter(rows, IsFinishedRow))
    ensures multiset(d.wip) == multiset(Filter(rows, IsWipRow))
    ensures SortedBy(d.finished, ImageOrder) && SortedBy(d.wip, ImageOrder)
  {
    GalleryData(SortedRows(rows, IsFinishedRow), SortedRows(rows, IsWipRow))
  }

  /** The rows passing a test, sorted by order. */
  function SortedRows(rows: seq<GalleryImage>, p: GalleryImage -> bool): (r: seq<GalleryImage>)
    ensures forall i :: 0 <= i < |r| ==> p(r[i])
    ensures multiset(r) == multiset(Filter(rows, p))
    ensures SortedBy(r, ImageOrder)
  {
    SortByKeeps(Filter(rows, p), p, ImageOrder);
    SortBy(Filter(rows, p), ImageOrder)
  }

  /** Each row of the table is listed exactly when its category is "finished" or "wip". */
  lemma GroupByCategoryMembers(rows: seq<GalleryImage>, img: GalleryImage)
    ensures img in GroupByCategory(rows).finished <==> img in rows && img.category == Finished
    ensures img in GroupByCategory(rows).wip <==> img in rows && img.category == Wip
  {
    var d := GroupByCategory(rows);
    FilterHas(rows, IsFinishedRow, img);
    FilterHas(rows, IsWipRow, img);
    assert img in d.finished <==> img in multiset(d.finished);
    assert img in d.wip <==> img in multiset(d.wip);
  }

  // ---------------------------------------------------------------------------
  // Creating images
  // ---------------------------------------------------------------------------

  /** The test `where: { category }` applies to a row. */
  function CategoryIs(category: string): GalleryImage -> bool {
    (img: GalleryImage) => img.category == category
  }

  /** The rows of one category. */
  function RowsIn(rows: seq<GalleryImage>, category: string): seq<GalleryImage> {
    Filter(rows, CategoryIs(category))
  }

  /** The order of an image added to `category`: one past the largest order there, or 0. */
  function NextImageOrder(rows: seq<GalleryImage>, category: string): (n: int)
    ensures forall i :: 0 <= i < |rows| && rows[i].category == category ==> rows[i].order < n
    ensures (forall i :: 0 <= i < |rows| ==> rows[i].category != category) ==> n == 0
    ensures (exists i :: 0 <= i < |rows| && rows[i].category == category) ==>
      exists i :: 0 <= i < |rows| && rows[i].category == category && rows[i].order == n - 1
  {
    var inCategory := RowsIn(rows, category);
    forall i | 0 <= i < |rows| && rows[i].category == category
      ensures rows[i] in inCategory
    {
      FilterHas(rows, CategoryIs(category), rows[i]);
    }
    forall x | x in inCategory
      ensures x in rows && x.category == category
    {
      FilterHas(rows, CategoryIs(category), x);
    }
    match MaxKey(inCategory, ImageOrder)
    case None => 0
    case Some(m) => m + 1
  }

  /** The object key of an upload: a unique stem, a dot, and the extension of the original name. */
  function UploadKey(stamp: string, file: UploadedFile): string {
    stamp + "." + LastSegment(file.originalName, '.')
  }

  /** The public URL of an object. */
  function ObjectUrl(publicUrl: string, key: string): string {
    publicUrl + "/" + key
  }

  /** The key DELETE derives from an image's src: its last "/"-segment. */
  function KeyOfSrc(src: string): string {
    LastSegment(src, '/')
  }

  /** Round trip: the key DELETE derives from an uploaded image's URL is the key it was stored under. */
  lemma UploadKeyRoundTrip(publicUrl: string, stamp: string, file: UploadedFile)
    requires '/' !in stamp && '/' !in file.originalName
    ensures KeyOfSrc(ObjectUrl(publicUrl, UploadKey(stamp, file))) == UploadKey(stamp, file)
  {
    var ext := LastSegment(file.originalName, '.');
    assert ext == file.originalName[|file.originalName| - |ext|..];
    assert forall i :: 0 <= i < |ext| ==> ext[i] in file.originalName;
    var key := UploadKey(stamp, file);
    assert '/' !in key;
    assert ObjectUrl(publicUrl, key) == publicUrl + ['/'] + key;
    LastSegmentAfter(publicUrl, '/', key);
  }

  /**
   * The bucket after DELETE has removed the object named by an image's src;
   * an empty key is skipped and a failed deletion leaves the bucket as it was.
   */
  function StorageAfterDelete(storage: map<string, StoredObject>, src: string, deleteOk: bool)
    : (r: map<string, StoredObject>)
    ensures deleteOk && KeyOfSrc(src) != "" ==> KeyOfSrc(src) !in r
    ensures !deleteOk ==> r == storage
    ensures forall key :: key in storage && key != KeyOfSrc(src) ==> key in r && r[key] == storage[key]
    ensures r.Keys <= storage.Keys
  {
    var key := KeyOfSrc(src);
    if key != "" && deleteOk then storage - {key} else storage
  }

  predicate UploadFieldsMissing(body: UploadBody) {
    !Truthy(body.alt) || !Truthy(body.description) || !Truthy(body.category) || !Truthy(body.year)
  }

  /**
   * The row `prisma.galleryImage.create` stores for an upload, or None when
   * Prisma rejects the data (a non-string text field, a year that parses to
   * NaN, an id already taken). The width is always 1.
   */
  function UploadRow(rows: seq<GalleryImage>, id: string, src: string, body: UploadBody): (r: Option<GalleryImage>)
    ensures r.Some? ==> !HasImageId(rows, id) && r.value.id == id && r.value.src == src
    ensures r.Some? ==> r.value.width == 1
    ensures r.Some? ==> r.value.order == NextImageOrder(rows, r.value.category)
    ensures r.Some? ==> Some(r.value.year) == ParseBody(body.year)
  {
    if body.alt.Text? && body.description.Text? && body.category.Text?
       && ParseBody(body.year).Some? && !HasImageId(rows, id)
    then
      var category := body.category.s;
      Some(GalleryImage(id, src, body.alt.s, body.description.s, category,
                        ParseBody(body.year).value, NextImageOrder(rows, category), 1))
    else None
  }

  predicate ExistingFieldsMissing(body: ExistingBody) {
    !Truthy(body.src) || !Truthy(body.alt) || !Truthy(body.description)
    || !Truthy(body.category) || !Truthy(body.year)
  }

  /** The order column's default; the route does not set it. */
  const DefaultOrder: int := 0

  /** The row POST /api/gallery/existing creates, or None when Prisma rejects the data. */
  function ExistingRow(rows: seq<GalleryImage>, id: string, body: ExistingBody): (r: Option<GalleryImage>)
    ensures r.Some? ==> !HasImageId(rows, id) && r.value.id == id
    ensures r.Some? ==> r.value.width == 1 && r.value.order == DefaultOrder
    ensures r.Some? ==> body.src == Text(r.value.src) && Some(r.value.year) == ParseBody(body.year)
  {
    if body.src.Text? && body.alt.Text? && body.description.Text? && body.category.Text?
       && ParseBody(body.year).Some? && !HasImageId(rows, id)
    then
      Some(GalleryImage(id, body.src.s, body.alt.s, body.description.s, body.category.s,
                        ParseBody(body.year).value, DefaultOrder, 1))
    else None
  }

  lemma {:induction false} InsertBeforeLarger<T>(y: T, t: seq<T>, x: T, key: T -> int)
    requires key(y) < key(x)
    ensures Insert(y, t + [x], key) == Insert(y, t, key) + [x]
  {
    if t == [] {
    } else if key(y) <= key(t[0]) {
    } else {
      assert (t + [x])[1..] == t[1..] + [x];
      InsertBeforeLarger(y, t[1..], x, key);
    }
  }

  /** Sorting a sequence extended by an element with a larger key than all others puts it last. */
  lemma {:induction false} SortByAppendLargest<T>(s: seq<T>, x: T, key: T -> int)
    requires forall i :: 0 <= i < |s| ==> key(s[i]) < key(x)
    ensures SortBy(s + [x], key) == SortBy(s, key) + [x]
  {
    if s != [] {
      assert (s + [x])[1..] == s[1..] + [x];
      SortByAppendLargest(s[1..], x, key);
      InsertBeforeLarger(s[0], SortBy(s[1..], key), x, key);
    }
  }

  /** Filtering and sorting a table extended by a row whose key exceeds every kept row's puts it last. */
  lemma AppendedLargestSortsLast(rows: seq<GalleryImage>, row: GalleryImage, p: GalleryImage -> bool)
    requires p(row)
    requires forall i :: 0 <= i < |rows| && p(rows[i]) ==> rows[i].order < row.order
    ensures SortBy(Filter(rows + [row], p), ImageOrder) == SortBy(Filter(rows, p), ImageOrder) + [row]
  {
    FilterConcat(rows, [row], p);
    assert Filter([row], p) == [row];
    var f := Filter(rows, p);
    forall i | 0 <= i < |f| ensures ImageOrder(f[i]) < ImageOrder(row) {
      FilterHas(rows, p, f[i]);
    }
    SortByAppendLargest(f, row, ImageOrder);
  }

  /** An uploaded image is listed last in its category by GET /api/gallery. */
  lemma UploadedImageListedLast(rows: seq<GalleryImage>, id: string, src: string, body: UploadBody)
    requires UploadRow(rows, id, src, body).Some?
    ensures var row := UploadRow(rows, id, src, body).value;
      && (row.category == Finished ==>
            GroupByCategory(rows + [row]).finished == GroupByCategory(rows).finished + [row])
      && (row.category == Wip ==>
            GroupByCategory(rows + [row]).wip == GroupByCategory(rows).wip + [row])
  {
    var row := UploadRow(rows, id, src, body).value;
    if row.category == Finished {
      AppendedLargestSortsLast(rows, row, IsFinishedRow);
    }
    if row.category == Wip {
      AppendedLargestSortsLast(rows, row, IsWipRow);
    }
  }

  // ---------------------------------------------------------------------------
  // Updating images
  // ---------------------------------------------------------------------------

  /** PUT rejects a truthy width whose parsed value lies outside 1..7 (NaN passes this check). */
  predicate WidthRejected(width: BodyValue) {
    Truthy(width) && ParseBody(width).Some? && (ParseBody(width).value < 1 || ParseBody(width).value > 7)
  }

  /** A text column in a Prisma update: `undefined` keeps it, a string replaces it, a number is rejected. */
  function PatchText(current: string, v: BodyValue): Option<string> {
    match v
    case Missing => Some(current)
    case Text(s) => Some(s)
    case Number(_) => None
  }

  /** `v ? parseInt(v) : undefined`: a falsy value keeps the column, NaN is rejected. */
  function PatchInt(current: int, v: BodyValue): (r: Option<int>)
    ensures !Truthy(v) ==> r == Some(current)
    ensures Truthy(v) ==> r == ParseBody(v)
  {
    if Truthy(v) then ParseBody(v) else Some(current)
  }

  /** An integer column given a truthy value that `parseInt` reads as NaN. */
  predicate IntRejected(v: BodyValue) {
    Truthy(v) && ParseBody(v).None?
  }

  /** Prisma rejects an update that puts a number in a text column or NaN in an integer column. */
  predicate PatchRejected(p: ImagePatch) {
    || p.alt.Number? || p.description.Number? || p.category.Number?
    || IntRejected(p.year) || IntRejected(p.order) || IntRejected(p.width)
  }

  /**
   * The row PUT /api/gallery/:id writes, or None when Prisma rejects the data:
   * every text given is written, every truthy integer field is written as
   * `parseInt` reads it, and the id and src stay.
   */
  function PatchImage(row: GalleryImage, p: ImagePatch): (r: Option<GalleryImage>)
    ensures r.None? <==> PatchRejected(p)
    ensures r.Some? ==> r.value.id == row.id && r.value.src == row.src
    ensures r.Some? && p.alt.Text? ==> r.value.alt == p.alt.s
    ensures r.Some? && p.description.Text? ==> r.value.description == p.description.s
    ensures r.Some? && p.category.Text? ==> r.value.category == p.category.s
    ensures r.Some? && Truthy(p.year) ==> ParseBody(p.year) == Some(r.value.year)
    ensures r.Some? && Truthy(p.order) ==> ParseBody(p.order) == Some(r.value.order)
    ensures r.Some? && Truthy(p.width) ==> ParseBody(p.width) == Some(r.value.width)
  {
    var alt := PatchText(row.alt, p.alt);
    var description := PatchText(row.description, p.description);
    var category := PatchText(row.category, p.category);
    var year := PatchInt(row.year, p.year);
    var order := PatchInt(row.order, p.order);
    var width := PatchInt(row.width, p.width);
    if alt.Some? && description.Some? && category.Some? && year.Some? && order.Some? && width.Some?
    then Some(row.(alt := alt.value, description := description.value, category := category.value,
                   year := year.value, order := order.value, width := width.value))
    else None
  }

  /** A falsy order or year, 0 included, is treated as not provided: the column keeps its value. */
  lemma FalsyFieldsKept(row: GalleryImage, p: ImagePatch)
    requires PatchImage(row, p).Some?
    ensures !Truthy(p.order) ==> PatchImage(row, p).value.order == row.order
    ensures !Truthy(p.year) ==> PatchImage(row, p).value.year == row.year
    ensures !Truthy(p.width) ==> PatchImage(row, p).value.width == row.width
    ensures p.alt.Missing? ==> PatchImage(row, p).value.alt == row.alt
    ensures p.description.Missing? ==> PatchImage(row, p).value.description == row.description
    ensures p.category.Missing? ==> PatchImage(row, p).value.category == row.category
  {
  }

  /** A width that passes validation and is written lies in 1..7. */
  lemma WrittenWidthInRange(row: GalleryImage, p: ImagePatch)
    requires !WidthRejected(p.width) && Truthy(p.width) && PatchImage(row, p).Some?
    ensures 1 <= PatchImage(row, p).value.width <= 7
  {
  }

  /** The position of the row with this id, or -1. */
  function ImageIndex(rows: seq<GalleryImage>, id: string): (k: int)
    ensures k == -1 <==> !HasImageId(rows, id)
    ensures k != -1 ==> 0 <= k < |rows| && rows[k].id == id
  {
    FindIndex(rows, (img: GalleryImage) => img.id == id)
  }

  lemma RemoveKeepsDistinct(rows: seq<GalleryImage>, k: int)
    requires DistinctIds(rows) && 0 <= k < |rows|
    ensures DistinctIds(rows[..k] + rows[k + 1..])
  {
    var r := rows[..k] + rows[k + 1..];
    forall i, j | 0 <= i < j < |r| ensures r[i].id != r[j].id {
      var i' := if i < k then i else i + 1;
      var j' := if j < k then j else j + 1;
      assert r[i] == rows[i'] && r[j] == rows[j'];
    }
  }

  /** The table after PUT /api/gallery/:id: the row with that id patched, or unchanged on an error. */
  function UpdatedRows(rows: seq<GalleryImage>, id: string, patch: ImagePatch): (r: seq<GalleryImage>)
    ensures |r| == |rows|
    ensures forall i :: 0 <= i < |rows| && rows[i].id != id ==> r[i] == rows[i]
    ensures forall i :: 0 <= i < |rows| ==> r[i].id == rows[i].id
  {
    var k := ImageIndex(rows, id);
    if k == -1 then rows
    else match PatchImage(rows[k], patch)
      case None => rows
      case Some(row) => rows[k := row]
  }

  // ---------------------------------------------------------------------------
  // Links
  // ---------------------------------------------------------------------------

  predicate DistinctLinkIds(links: seq<Link>) {
    forall i, j :: 0 <= i < j < |links| ==> links[i].id != links[j].id
  }

  predicate HasLinkId(links: seq<Link>, id: int) {
    exists i :: 0 <= i < |links| && links[i].id == id
  }

  function LinkIndex(links: seq<Link>, id: int): (k: int)
    ensures k == -1 <==> !HasLinkId(links, id)
    ensures k != -1 ==> 0 <= k < |links| && links[k].id == id
  {
    FindIndex(links, (l: Link) => l.id == id)
  }

  /** The order of a new link: one past the largest order, or 1 for an empty table. */
  function NextLinkOrder(links: seq<Link>): (n: int)
    ensures links == [] ==> n == 1
    ensures forall i :: 0 <= i < |links| ==> links[i].order < n
    ensures links != [] ==> exists i :: 0 <= i < |links| && links[i].order == n - 1
  {
    match MaxKey(links, LinkOrder)
    case None => 1
    case Some(m) => m + 1
  }

  /** One `prisma.link.update({ where: { id }, data: { order } })`; an unknown id changes nothing. */
  function SetLinkOrder(links: seq<Link>, id: int, order: int): (r: seq<Link>)
    ensures |r| == |links|
    ensures forall k :: 0 <= k < |r| ==>
      r[k] == if links[k].id == id then links[k].(order := order) else links[k]
  {
    seq(|links|, k requires 0 <= k < |links| =>
      if links[k].id == id then links[k].(order := order) else links[k])
  }

  /** The link table after PUT /api/links/reorder has given the link at position i the order i + 1. */
  function AssignPositions(links: seq<Link>, ids: seq<int>): seq<Link>
    decreases |ids|
  {
    if ids == [] then links
    else SetLinkOrder(AssignPositions(links, ids[..|ids| - 1]), ids[|ids| - 1], |ids|)
  }

  predicate DistinctInts(ids: seq<int>) {
    forall i, j :: 0 <= i < j < |ids| ==> ids[i] != ids[j]
  }

  /**
   * The reorder gives the link listed at position j the order j + 1, keeps
   * every link that is not listed, and changes nothing but orders.
   */
  lemma {:induction false} AssignPositionsSpec(links: seq<Link>, ids: seq<int>)
    requires DistinctInts(ids)
    ensures var r := AssignPositions(links, ids);
      && |r| == |links|
      && (forall k :: 0 <= k < |r| ==> r[k].(order := 0) == links[k].(order := 0))
      && (forall k, j :: 0 <= k < |r| && 0 <= j < |ids| && ids[j] == links[k].id ==> r[k].order == j + 1)
      && (forall k :: 0 <= k < |r| && links[k].id !in ids ==> r[k] == links[k])
    decreases |ids|
  {
    if ids != [] {
      var front := ids[..|ids| - 1];
      assert DistinctInts(front);
      AssignPositionsSpec(links, front);
      var r := AssignPositions(links, ids);
      var prev := AssignPositions(links, front);
      forall k, j | 0 <= k < |r| && 0 <= j < |ids| && ids[j] == links[k].id
        ensures r[k].order == j + 1
      {
        if j < |ids| - 1 {
          assert front[j] == ids[j];
          assert ids[|ids| - 1] != ids[j];
        }
      }
      forall k | 0 <= k < |r| && links[k].id !in ids
        ensures r[k] == links[k]
      {
        assert links[k].id !in front;
      }
    }
  }

  /** Every listed id names a link of the table. */
  predicate AllKnown(links: seq<Link>, ids: seq<int>) {
    forall j :: 0 <= j < |ids| ==> HasLinkId(links, ids[j])
  }

  function LinkIds(links: seq<Link>): seq<int> {
    seq(|links|, k requires 0 <= k < |links| => links[k].id)
  }

  lemma SetLinkOrderKeepsIds(links: seq<Link>, id: int, order: int)
    ensures LinkIds(SetLinkOrder(links, id, order)) == LinkIds(links)
  {
  }

  /** Two tables with the same ids in the same places hold the same ids. */
  lemma SameIdsHave(a: seq<Link>, b: seq<Link>, id: int)
    requires LinkIds(a) == LinkIds(b)
    ensures HasLinkId(a, id) <==> HasLinkId(b, id)
  {
    if HasLinkId(a, id) {
      var k :| 0 <= k < |a| && a[k].id == id;
      assert LinkIds(a)[k] == id;
    }
    if HasLinkId(b, id) {
      var k :| 0 <= k < |b| && b[k].id == id;
      assert LinkIds(b)[k] == id;
    }
  }

  lemma SameIdsDistinct(a: seq<Link>, b: seq<Link>, bound: int)
    requires LinkIds(a) == LinkIds(b)
    requires DistinctLinkIds(a) && forall i :: 0 <= i < |a| ==> a[i].id < bound
    ensures DistinctLinkIds(b) && forall i :: 0 <= i < |b| ==> b[i].id < bound
  {
    forall i | 0 <= i < |b| ensures b[i].id == a[i].id {
      assert LinkIds(a)[i] == LinkIds(b)[i];
    }
  }

  lemma AssignPositionsKeepsIds(links: seq<Link>, ids: seq<int>)
    ensures LinkIds(AssignPositions(links, ids)) == LinkIds(links)
    decreases |ids|
  {
    if ids != [] {
      AssignPositionsKeepsIds(links, ids[..|ids| - 1]);
    }
  }

  // ---------------------------------------------------------------------------
  // The server
  // ---------------------------------------------------------------------------

  /** Appending a row whose id is not taken keeps the ids distinct. */
  lemma AppendFreshKeepsDistinct(rows: seq<GalleryImage>, row: GalleryImage)
    requires DistinctIds(rows) && !HasImageId(rows, row.id)
    ensures DistinctIds(rows + [row])
  {
    var r := rows + [row];
    forall i, j | 0 <= i < j < |r| ensures r[i].id != r[j].id {
      if j == |rows| {
        assert r[i] == rows[i];
      } else {
        assert r[i] == rows[i] && r[j] == rows[j];
      }
    }
  }

  class Server {
    /** ADMIN_PASSWORD; `undefined` when the variable is not set. */
    const adminPassword: Option<string>
    /** R2_PUBLIC_URL */
    const publicUrl: string

    var images: seq<GalleryImage>
    var links: seq<Link>
    /** The next value of the link table's autoincrement id. */
    var nextLinkId: int
    /** The bucket: object key to object. */
    var storage: map<string, StoredObject>

    ghost predicate Valid()
      reads this`images, this`links, this`nextLinkId
    {
      && DistinctIds(images)
      && DistinctLinkIds(links)
      && (forall i :: 0 <= i < |links| ==> links[i].id < nextLinkId)
    }

    constructor (adminPassword: Option<string>, publicUrl: string,
                 images: seq<GalleryImage>, links: seq<Link>, storage: map<string, StoredObject>)
      requires DistinctIds(images) && DistinctLinkIds(links)
      ensures Valid()
      ensures this.adminPassword == adminPassword && this.publicUrl == publicUrl
      ensures this.images == images && this.links == links && this.storage == storage
    {
      this.adminPassword := adminPassword;
      this.publicUrl := publicUrl;
      this.images := images;
      this.links := links;
      this.storage := storage;
      this.nextLinkId := match MaxKey(links, (l: Link) => l.id)
        case None => 1
        case Some(m) => m + 1;
    }

    /** GET /api/gallery; a database failure answers with two empty lists. */
    method GetGallery(dbAvailable: bool) returns (data: GalleryData)
      ensures dbAvailable ==> data == GroupByCategory(images)
      ensures !dbAvailable ==> data == EmptyGallery
    {
      if dbAvailable {
        data := GroupByCategory(images);
      } else {
        data := EmptyGallery;
      }
    }

    /** POST /api/gallery: store the file, then insert its row at the end of its category. */
    method CreateImage(authorization: Option<string>, file: Option<UploadedFile>, body: UploadBody,
                       stamp: string, newId: string, uploadOk: bool)
      returns (reply: Reply<GalleryImage>)
      requires Valid()
      modifies this`images, this`storage
      ensures Valid()
      ensures !Authenticate(authorization, adminPassword) ==>
        reply == Fail(401, "Unauthorized") && images == old(images) && storage == old(storage)
      ensures Authenticate(authorization, adminPassword) && file.None? ==>
        reply == Fail(400, "No image file provided") && images == old(images) && storage == old(storage)
      ensures Authenticate(authorization, adminPassword) && file.Some? && UploadFieldsMissing(body) ==>
        reply == Fail(400, "Missing required fields") && images == old(images) && storage == old(storage)
      ensures Authenticate(authorization, adminPassword) && file.Some? && !UploadFieldsMissing(body) && !uploadOk ==>
        reply == Fail(500, "Failed to create image") && images == old(images) && storage == old(storage)
      ensures Authenticate(authorization, adminPassword) && file.Some? && !UploadFieldsMissing(body) && uploadOk ==>
        var key := UploadKey(stamp, file.value);
        && storage == old(storage)[key := StoredObject(file.value.bytes, file.value.mimeType)]
        && match UploadRow(old(images), newId, ObjectUrl(publicUrl, key), body)
           case Some(row) => images == old(images) + [row] && reply == Ok(row)
           case None => images == old(images) && reply == Fail(500, "Failed to create image")
    {
      if !Authenticate(authorization, adminPassword) {
        return Fail(401, "Unauthorized");
      }
      if file.None? {
        return Fail(400, "No image file provided");
      }
      if UploadFieldsMissing(body) {
        return Fail(400, "Missing required fields");
      }
      var key := UploadKey(stamp, file.value);
      if !uploadOk {
        return Fail(500, "Failed to create image");
      }
      var row := UploadRow(images, newId, ObjectUrl(publicUrl, key), body);
      StoreUpload(key, StoredObject(file.value.bytes, file.value.mimeType), row);
      reply := if row.Some? then Ok(row.value) else Fail(500, "Failed to create image");
    }

    /** The writes of a successful upload: the object, then the row unless Prisma rejected it. */
    method StoreUpload(key: string, obj: StoredObject, row: Option<GalleryImage>)
      requires Valid() && (row.Some? ==> !HasImageId(images, row.value.id))
      modifies this`images, this`storage
      ensures Valid()
      ensures storage == old(storage)[key := obj]
      ensures images == if row.Some? then old(images) + [row.value] else old(images)
    {
      storage := storage[key := obj];
      if row.Some? {
        AppendFreshKeepsDistinct(images, row.value);
        images := images + [row.value];
      }
    }

    /** PUT /api/gallery/:id */
    method UpdateImage(authorization: Option<string>, id: string, patch: ImagePatch)
      returns (reply: Reply<GalleryImage>)
      requires Valid()
      modifies this`images
      ensures Valid()
      ensures !Authenticate(authorization, adminPassword) ==>
        reply == Fail(401, "Unauthorized") && images == old(images)
      ensures Authenticate(authorization, adminPassword) && WidthRejected(patch.width) ==>
        reply == Fail(400, "Width must be between 1 and 7") && images == old(images)
      ensures Authenticate(authorization, adminPassword) && !WidthRejected(patch.width) ==>
        && images == UpdatedRows(old(images), id, patch)
        && var k := ImageIndex(old(images), id);
           if k == -1 || PatchImage(old(images)[k], patch).None? then
             reply == Fail(500, "Failed to update image " + id)
           else
             reply == Ok(PatchImage(old(images)[k], patch).value)
    {
      if !Authenticate(authorization, adminPassword) {
        return Fail(401, "Unauthorized");
      }
      if WidthRejected(patch.width) {
        return Fail(400, "Width must be between 1 and 7");
      }
      var k := ImageIndex(images, id);
      if k == -1 {
        return Fail(500, "Failed to update image " + id);
      }
      var row := PatchImage(images[k], patch);
      if row.None? {
        return Fail(500, "Failed to update image " + id);
      }
      images := images[k := row.value];
      reply := Ok(row.value);
    }

    /** DELETE /api/gallery/:id: the row goes first, then the object, whose failure is ignored. */
    method DeleteImage(authorization: Option<string>, id: string, storageDeleteOk: bool)
      returns (reply: Reply<bool>)
      requires Valid()
      modifies this`images, this`storage
      ensures Valid()
      ensures !Authenticate(authorization, adminPassword) ==>
        reply == Fail(401, "Unauthorized") && images == old(images) && storage == old(storage)
      ensures Authenticate(authorization, adminPassword) && !HasImageId(old(images), id) ==>
        reply == Fail(404, "Image not found") && images == old(images) && storage == old(storage)
      ensures Authenticate(authorization, adminPassword) && HasImageId(old(images), id) ==>
        var k := ImageIndex(old(images), id);
        && reply == Ok(true)
        && images == old(images)[..k] + old(images)[k + 1..]
        && storage == StorageAfterDelete(old(storage), old(images)[k].src, storageDeleteOk)
    {
      if !Authenticate(authorization, adminPassword) {
        return Fail(401, "Unauthorized");
      }
      var k := ImageIndex(images, id);
      if k == -1 {
        return Fail(404, "Image not found");
      }
      var src := images[k].src;
      RemoveKeepsDistinct(images, k);
      images := images[..k] + images[k + 1..];
      assert Valid();
      storage := StorageAfterDelete(storage, src, storageDeleteOk);
      reply := Ok(true);
    }

    /** POST /api/gallery/existing: register an object already in the bucket. */
    method CreateExisting(authorization: Option<string>, body: ExistingBody, newId: string)
      returns (reply: Reply<GalleryImage>)
      requires Valid()
      modifies this`images
      ensures Valid()
      ensures !Authenticate(authorization, adminPassword) ==>
        reply == Fail(401, "Unauthorized") && images == old(images)
      ensures Authenticate(authorization, adminPassword) && ExistingFieldsMissing(body) ==>
        reply == Fail(400, "Missing required fields") && images == old(images)
      ensures Authenticate(authorization, adminPassword) && !ExistingFieldsMissing(body) ==>
        match ExistingRow(old(images), newId, body)
        case Some(row) => images == old(images) + [row] && reply == Ok(row)
        case None => images == old(images) && reply == Fail(500, "Failed to create existing image")
    {
      if !Authenticate(authorization, adminPassword) {
        return Fail(401, "Unauthorized");
      }
      if ExistingFieldsMissing(body) {
        return Fail(400, "Missing required fields");
      }
      var row := ExistingRow(images, newId, body);
      if row.None? {
        return Fail(500, "Failed to create existing image");
      }
      AppendFreshKeepsDistinct(images, row.value);
      images := images + [row.value];
      reply := Ok(row.value);
    }

    /** GET /api/links: the links by ascending order. */
    method GetLinks(dbAvailable: bool) returns (reply: Reply<seq<Link>>)
      ensures dbAvailable ==> reply.Ok? && multiset(reply.body) == multiset(links)
                              && SortedBy(reply.body, LinkOrder)
      ensures !dbAvailable ==> reply == Fail(500, "Failed to fetch links")
    {
      if dbAvailable {
        reply := Ok(SortBy(links, LinkOrder));
      } else {
        reply := Fail(500, "Failed to fetch links");
      }
    }

    /**
     * PUT /api/links/reorder: `links` is the body's array of link ids, None when
     * the body holds no array. Every update is issued; an unknown id makes the
     * whole request fail without undoing the others.
     */
    method ReorderLinks(authorization: Option<string>, ids: Option<seq<int>>)
      returns (reply: Reply<bool>)
      requires Valid()
      modifies this`links
      ensures Valid()
      ensures !Authenticate(authorization, adminPassword) ==>
        reply == Fail(401, "Unauthorized") && links == old(links)
      ensures Authenticate(authorization, adminPassword) && ids.None? ==>
        reply == Fail(400, "Links array is required") && links == old(links)
      ensures Authenticate(authorization, adminPassword) && ids.Some? ==>
        && links == AssignPositions(old(links), ids.value)
        && reply == if AllKnown(old(links), ids.value) then Ok(true) else Fail(500, "Failed to reorder links")
    {
      if !Authenticate(authorization, adminPassword) {
        return Fail(401, "Unauthorized");
      }
      if ids.None? {
        return Fail(400, "Links array is required");
      }
      var order := ids.value;
      var i := 0;
      var allFound := true;
      while i < |order|
        invariant 0 <= i <= |order|
        invariant links == AssignPositions(old(links), order[..i])
        invariant LinkIds(links) == LinkIds(old(links))
        invariant allFound == AllKnown(old(links), order[..i])
      {
        assert order[..i + 1][..i] == order[..i];
        SameIdsHave(links, old(links), order[i]);
        if LinkIndex(links, order[i]) == -1 {
          allFound := false;
        }
        SetLinkOrderKeepsIds(links, order[i], i + 1);
        links := SetLinkOrder(links, order[i], i + 1);
        i := i + 1;
      }
      assert order[..|order|] == order;
      SameIdsDistinct(old(links), links, nextLinkId);
      reply := if allFound then Ok(true) else Fail(500, "Failed to reorder links");
    }

    /** POST /api/links: append a link after every other. */
    method CreateLink(authorization: Option<string>, text: BodyValue, url: BodyValue)
      returns (reply: Reply<Link>)
      requires Valid()
      modifies this`links, this`nextLinkId
      ensures Valid()
      ensures !Authenticate(authorization, adminPassword) ==>
        reply == Fail(401, "Unauthorized") && unchanged(this)
      ensures Authenticate(authorization, adminPassword) && (!Truthy(text) || !Truthy(url)) ==>
        reply == Fail(400, "Text and URL are required") && unchanged(this)
      ensures Authenticate(authorization, adminPassword) && Truthy(text) && Truthy(url) ==>
        if text.Text? && url.Text? then
          var link := Link(old(nextLinkId), text.s, url.s, NextLinkOrder(old(links)));
          && reply == Ok(link)
          && links == old(links) + [link]
          && nextLinkId == old(nextLinkId) + 1
        else
          reply == Fail(500, "Failed to create link") && unchanged(this)
    {
      if !Authenticate(authorization, adminPassword) {
        return Fail(401, "Unauthorized");
      }
      if !Truthy(text) || !Truthy(url) {
        return Fail(400, "Text and URL are required");
      }
      if !text.Text? || !url.Text? {
        return Fail(500, "Failed to create link");
      }
      var link := Link(nextLinkId, text.s, url.s, NextLinkOrder(links));
      links := links + [link];
      nextLinkId := nextLinkId + 1;
      reply := Ok(link);
    }

    /** PUT /api/links/:id: `idText` is the path segment, read with `parseInt`. */
    method UpdateLink(authorization: Option<string>, idText: string, text: BodyValue, url: BodyValue)
      returns (reply: Reply<Link>)
      requires Valid()
      modifies this`links
      ensures Valid()
      ensures !Authenticate(authorization, adminPassword) ==>
        reply == Fail(401, "Unauthorized") && links == old(links)
      ensures Authenticate(authorization, adminPassword) ==>
        var id := ParseInt(idText);
        var k := if id.None? then -1 else LinkIndex(old(links), id.value);
        if k == -1 || PatchText(old(links)[k].text, text).None? || PatchText(old(links)[k].url, url).None? then
          reply == Fail(500, "Failed to update link") && links == old(links)
        else
          var link := old(links)[k].(text := PatchText(old(links)[k].text, text).value,
                                     url := PatchText(old(links)[k].url, url).value);
          reply == Ok(link) && links == old(links)[k := link]
    {
      if !Authenticate(authorization, adminPassword) {
        return Fail(401, "Unauthorized");
      }
      var id := ParseInt(idText);
      if id.None? {
        return Fail(500, "Failed to update link");
      }
      var k := LinkIndex(links, id.value);
      if k == -1 {
        return Fail(500, "Failed to update link");
      }
      var newText := PatchText(links[k].text, text);
      var newUrl := PatchText(links[k].url, url);
      if newText.None? || newUrl.None? {
        return Fail(500, "Failed to update link");
      }
      var link := links[k].(text := newText.value, url := newUrl.value);
      links := links[k := link];
      reply := Ok(link);
    }

    /** DELETE /api/links/:id */
    method DeleteLink(authorization: Option<string>, idText: string)
      returns (reply: Reply<bool>)
      requires Valid()
      modifies this`links
      ensures Valid()
      ensures !Authenticate(authorization, adminPassword) ==>
        reply == Fail(401, "Unauthorized") && links == old(links)
      ensures Authenticate(authorization, adminPassword) ==>
        var id := ParseInt(idText);
        var k := if id.None? then -1 else LinkIndex(old(links), id.value);
        if k == -1 then
          reply == Fail(500, "Failed to delete link") && links == old(links)
        else
          reply == Ok(true) && links == old(links)[..k] + old(links)[k + 1..]
    {
      if !Authenticate(authorization, adminPassword) {
        return Fail(401, "Unauthorized");
      }
      var id := ParseInt(idText);
      if id.None? {
        return Fail(500, "Failed to delete link");
      }
      var k := LinkIndex(links, id.value);
      if k == -1 {
        return Fail(500, "Failed to delete link");
      }
      links := links[..k] + links[k + 1..];
      reply := Ok(true);
    }
  }
}

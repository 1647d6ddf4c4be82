# Portfolio gallery site — a Dafny model

This project models the logic of a painter's portfolio site:

- an Express backend that keeps a table of gallery images, a table of links and an object bucket, with a bearer-password check on every write;
- the React front end's session token, gallery loader, admin link editor, image list and upload form;
- the home page's link split and lightbox;
- the grid's sort;
- the service worker's caching rules.

Each source file is one module:

| module | source |
|---|---|
| `Backend` | `backend/src/index.ts` |
| `ApiSession` | `src/services/api.ts` |
| `UseGallery` | `src/hooks/useGallery.ts` |
| `AdminLinks` | `src/pages/AdminPage.tsx` |
| `ImageList` | `src/components/admin/ImageList.tsx` |
| `ImageUpload` | `src/components/admin/ImageUpload.tsx` |
| `Home` | `src/App.tsx` |
| `GalleryGrid` | `src/components/GalleryGrid.tsx` |
| `Lightbox` | `src/components/Lightbox.tsx` |
| `ServiceWorker` | `public/sw.js` |

Three modules are shared:

- `GalleryTypes` holds the records of `src/types/gallery.ts`.
- `JsBuiltins` holds the JavaScript built-ins the code relies on: `startsWith`, `includes`, `replace`, `split(...).pop()`, `trim`, `parseInt`, `filter`, `findIndex`.
- `Ordering` holds a stable sort by an integer key, the semantics of `Array.prototype.sort` (ECMA-262, 2019 edition, section 22.1.3.27), and the largest key.

State that the source updates in place is modelled as a class:

- the server's tables;
- the stored token;
- the hook, editor, panel and lightbox state;
- the caches.

Pure expressions are modelled as functions. Some of the source's inputs are parameters instead:

- every network, database or storage outcome the code branches on;
- the clock;
- the random file-name stem;
- the ids the database generates.

## Model

| member | source | states |
|---|---|---|
| Backend.BearerHeaderAuthenticates | backend/src/index.ts:40-47 | A header "Bearer t" passes the authenticate middleware exactly when t is the admin password. |
| Backend.PlainHeaderAuthenticates | backend/src/index.ts:40-47 | A header without "Bearer " is compared verbatim with the admin password. |
| Backend.CheckPassword | backend/src/index.ts:264-271 | POST /api/auth succeeds iff the body's password is strictly equal to ADMIN_PASSWORD (undefined matches undefined); otherwise 401. |
| Backend.ParseBodyOfNumber | backend/src/index.ts:160 | For a safe integer (magnitude at most 2^53 - 1), `parseInt` of the number gives the same result as `parseInt` of its decimal text. |
| Backend.GroupByCategory | backend/src/index.ts:52-64 | GET returns in `finished` exactly the rows with category "finished", as a multiset, and in `wip` exactly the "wip" rows; each list is in non-decreasing order. |
| Backend.GroupByCategoryMembers | backend/src/index.ts:54-61 | A row is listed under finished (wip) iff it is in the table with that category. |
| Backend.Server.GetGallery | backend/src/index.ts:52-76 | A working database answers with the grouping; a failure answers with two empty lists. |
| Backend.NextImageOrder | backend/src/index.ts:119-124 | A new image's order exceeds every order in its category; it is 0 for an empty category and otherwise one past an existing order. |
| Backend.UploadKeyRoundTrip | backend/src/index.ts:95-99 | The key DELETE takes from an uploaded image's URL (the last "/"-segment) is the key the file was stored under. |
| Backend.StorageAfterDelete | backend/src/index.ts:203-219 | A successful delete removes the src's last segment from the bucket; a failed delete leaves the bucket as it was; other objects are always kept. |
| Backend.UploadRow | backend/src/index.ts:119-138 | A stored upload row has a fresh id, the object URL as src, width 1 whatever the client sent, the next order of its category, and the parsed year. |
| Backend.ExistingRow | backend/src/index.ts:240-250 | A registered existing image keeps its src and parsed year, has width 1 and the default order. |
| Backend.UploadedImageListedLast | backend/src/index.ts:119-136 | After an upload, GET lists the new image last in its category and the rest as before, in the model's tie order (the database leaves the order of equal orders open). |
| Backend.SortByAppendLargest | backend/src/index.ts:56-61 | Sorting a table extended by a row with a larger order than all others puts that row last. |
| Backend.Server.CreateImage | backend/src/index.ts:79-150 | 401 without the password; 400 without a file or with a missing alt, description, category or year; 500 if the upload fails. Otherwise the object is stored and its row appended; a rejected row gives 500 but the object stays. |
| Backend.PatchImage | backend/src/index.ts:166-176 | Prisma rejects the update (None) iff a text field is a number or a truthy integer field parses to NaN. Otherwise every text given is written, every truthy year, order and width is written as `parseInt` reads it, and the id and src are kept. |
| Backend.FalsyFieldsKept | backend/src/index.ts:166-176 | A PUT with order 0 or year 0 (or absent) leaves that column unchanged, and so do absent text fields. |
| Backend.WrittenWidthInRange | backend/src/index.ts:159-174 | A width that passes validation and is written lies in 1..7. |
| Backend.UpdatedRows | backend/src/index.ts:166-176 | PUT changes only the row with the given id and keeps every row's id. |
| Backend.Server.UpdateImage | backend/src/index.ts:153-187 | 401 without the password. A truthy width outside 1..7 gives 400 and no change. An unknown id or rejected data gives 500. Otherwise the row is patched and returned. |
| Backend.ImageIndex | backend/src/index.ts:194-197 | -1 iff no row has the id, otherwise a position holding that id. |
| Backend.RemoveKeepsDistinct | backend/src/index.ts:200 | Removing a row keeps the ids distinct. |
| Backend.Server.DeleteImage | backend/src/index.ts:190-229 | 401 without the password; 404 for an unknown id. Otherwise the row is removed even when the storage delete fails, and the bucket loses the src's last segment. |
| Backend.Server.CreateExisting | backend/src/index.ts:232-261 | 401 or 400 for missing fields with no change; otherwise the row is appended, or 500. |
| Backend.Server.GetLinks | backend/src/index.ts:338-348 | The links, all of them, in ascending order; 500 on a database failure. |
| Backend.NextLinkOrder | backend/src/index.ts:386-390 | A new link's order is 1 for an empty table, otherwise one past the largest order. |
| Backend.AssignPositionsSpec | backend/src/index.ts:360-365 | After a reorder, the link listed at position j has order j+1, unlisted links are unchanged, and nothing but orders changes. |
| Backend.AssignPositionsKeepsIds | backend/src/index.ts:360-365 | A reorder keeps every link's id in place. |
| Backend.Server.ReorderLinks | backend/src/index.ts:351-374 | 401 or 400 (no array) with no change. Otherwise every listed link gets its position + 1; an unknown id makes the reply 500 without undoing the others. |
| Backend.Server.CreateLink | backend/src/index.ts:377-405 | 401, or 400 when text or url is falsy, with no change. Otherwise the link is appended with a fresh autoincrement id and the next order. |
| Backend.LinkIndex | backend/src/index.ts:416-419 | -1 iff no link has the id, otherwise a position holding it. |
| Backend.Server.UpdateLink | backend/src/index.ts:408-426 | 401 without the password; an unparsable or unknown id gives 500 and no change. Otherwise only the given text and url of that link are replaced. |
| Backend.Server.DeleteLink | backend/src/index.ts:429-442 | 401 without the password; an unknown id gives 500. Otherwise exactly that link is removed. |
| ApiSession.AuthorizationFor | src/services/api.ts:12-17 | A header is set iff a truthy token is stored, and it is "Bearer " followed by the token. |
| ApiSession.HeaderRoundTrip | src/services/api.ts:15 | For a token of header characters without trailing whitespace, the header arrives unchanged and the backend's `replace("Bearer ", "")` recovers exactly the token (backend/src/index.ts:41). |
| ApiSession.StoredTokenAuthenticates | src/services/api.ts:12-17 | A request with such a stored token is sent and passes authenticate iff the token is the admin password. |
| ApiSession.UnsendableTokenNeverPasses | src/services/api.ts:12-17 | A token holding a character above U+00FF or NUL, or a CR or LF with more than whitespace after it, makes every protected request fail before it is sent. |
| ApiSession.TrailingNewlineTokenPasses | src/services/api.ts:12-17 | A stored token with a trailing newline is sent without it, so its requests pass for the password without the newline. |
| ApiSession.TrailingSpacePasswordLocksOut | backend/src/index.ts:40-47 | With an ADMIN_PASSWORD ending in a space, the login (compared exactly, line 266) succeeds, but the header arrives without the space and every protected request is refused. |
| ApiSession.NoTokenAuthenticates | src/services/api.ts:12-17 | Without a token no header is sent, and the request passes only when no admin password is configured. |
| ApiSession.AuthStore.Login | src/services/api.ts:93-104 | Returns true iff the reply says success; then the password itself is the token. Otherwise the token is untouched. |
| ApiSession.AuthStore.Logout | src/services/api.ts:107-109 | The token is removed and isLoggedIn is false. |
| ApiSession.AuthStore.IsLoggedIn | src/services/api.ts:112-114 | True iff a non-empty token is stored. |
| ApiSession.AuthStore.Authorization | src/services/api.ts:12-17 | The header is set iff logged in, and stripping its "Bearer " prefix gives the stored token. |
| ApiSession.AcceptedLoginAuthenticates | src/services/api.ts:95-98 | After a login the backend accepts with a non-empty password of header characters without trailing whitespace, requests pass authenticate. |
| ApiSession.EmptyPasswordNotLoggedIn | src/services/api.ts:112-114 | With an empty admin password, login succeeds yet the stored empty token does not count as logged in. |
| UseGallery.GalleryHook.constructor | src/hooks/useGallery.ts:14-19 | Empty lists, loading, no error. |
| UseGallery.GalleryHook.FetchGallery | src/hooks/useGallery.ts:22-144 | Loading ends either way. Success shows the fetched data with no error and preloads its critical sources. Failure shows the fallback gallery with "Failed to load gallery". |
| UseGallery.CriticalSources | src/hooks/useGallery.ts:29-31 | The src of the first three finished images, or of all if fewer, in order. |
| UseGallery.FallbackWellFormed | src/hooks/useGallery.ts:37-141 | The fallback is partitioned by category, its ids are distinct, each order equals its position, and it holds 7 finished and 1 wip image. |
| UseGallery.FailedFetchShowsFallback | src/hooks/useGallery.ts:32-141 | After a failure the gallery shown is sorted and partitioned; the first three fallback images are named exactly. |
| AdminLinks.WithText | src/pages/AdminPage.tsx:85-89 | Only links with the id get the new text; their url, every other link, the ids and the length are unchanged. |
| AdminLinks.WithUrl | src/pages/AdminPage.tsx:91-95 | Only links with the id get the new url; everything else is unchanged. |
| AdminLinks.WithoutId | src/pages/AdminPage.tsx:97-99 | No link with the id remains. |
| AdminLinks.WithoutIdMembers | src/pages/AdminPage.tsx:97-99 | A link survives deletion iff it was there with another id. |
| AdminLinks.WithoutIdKeepsOrder | src/pages/AdminPage.tsx:97-99 | Deletion distributes over concatenation, so the survivors keep their order. |
| AdminLinks.WithoutAbsentId | src/pages/AdminPage.tsx:97-99 | Deleting an id nobody has changes nothing. |
| AdminLinks.WithoutIdKeepsDistinct | src/pages/AdminPage.tsx:97-99 | Deletion keeps ids distinct. |
| AdminLinks.NextIdAsWrittenRepeats | src/pages/AdminPage.tsx:103 | As written, `Math.max(...[]) + 1` is -Infinity, and adding a second link gives it the same id. |
| AdminLinks.NextId | src/pages/AdminPage.tsx:103 | Corrected id: above every existing id, 1 for an empty list, otherwise one past the largest id. |
| AdminLinks.JsMaxOfIds | src/pages/AdminPage.tsx:103 | `Math.max` over the ids is -Infinity for no links and the largest id otherwise. |
| AdminLinks.NextIdAgrees | src/pages/AdminPage.tsx:103 | On a non-empty list the corrected id equals `Math.max(...ids) + 1`. |
| AdminLinks.AppendNextIdKeepsDistinct | src/pages/AdminPage.tsx:103-104 | Appending a link with the next id keeps ids distinct. |
| AdminLinks.AddedLinkIsFresh | src/pages/AdminPage.tsx:103-104 | The new link's id is fresh and it is appended after the unchanged list. |
| AdminLinks.DeleteFromEditRowSticks | src/pages/AdminPage.tsx:337 | As written, deleting the edited link from its edit row leaves edit mode on an id no link has: no Save or Cancel is rendered (line 267) and every Edit stays disabled (line 395). |
| AdminLinks.ClearedEditing | src/pages/AdminPage.tsx:97-99 | Corrected: edit mode ends iff the deleted id is the one being edited; otherwise it is unchanged. |
| AdminLinks.CorrectedDeleteNeverSticks | src/pages/AdminPage.tsx:97-99 | With the correction, a delete from a state whose edited link is present (or with no edit) never leaves edit mode without its row. |
| AdminLinks.LinkEditor.constructor | src/pages/AdminPage.tsx:22-61 | The starting list, empty inputs, nothing being edited. |
| AdminLinks.LinkEditor.TypeNewLink | src/pages/AdminPage.tsx:229-242 | The new-link inputs hold what was typed. |
| AdminLinks.LinkEditor.ChangeText | src/pages/AdminPage.tsx:85-89 | The list becomes WithText of the old list, ids stay distinct, and a stuck edit mode stays stuck. |
| AdminLinks.LinkEditor.ChangeUrl | src/pages/AdminPage.tsx:91-95 | The list becomes WithUrl of the old list, ids stay distinct, and a stuck edit mode stays stuck. |
| AdminLinks.LinkEditor.Delete | src/pages/AdminPage.tsx:97-99 | The list becomes WithoutId of the old list and ids stay distinct; edit mode is untouched, so deleting the edited link leaves edit mode stuck, and a stuck edit mode stays stuck. |
| AdminLinks.LinkEditor.DeleteClearingEdit | src/pages/AdminPage.tsx:97-99 | Corrected delete: the list becomes WithoutId, deleting the edited link also ends edit mode, and edit mode is never left without its row. |
| AdminLinks.LinkEditor.Add | src/pages/AdminPage.tsx:101-108 | With both trimmed inputs non-empty, one link (untrimmed text and url, the corrected next id) is appended and the inputs are cleared; otherwise nothing changes. A stuck edit mode stays stuck unless the new id is the one being edited. |
| AdminLinks.LinkEditor.Edit | src/pages/AdminPage.tsx:110-112 | Starts editing the id unless a link is already being edited (the button is disabled then, line 395). |
| AdminLinks.LinkEditor.Save | src/pages/AdminPage.tsx:114-116 | Callable only from the edit row (the edited link is present, line 267); editing ends. |
| AdminLinks.LinkEditor.Cancel | src/pages/AdminPage.tsx:118-120 | Callable only from the edit row (the edited link is present, line 267); editing ends. |
| ImageList.ArrayMove | src/components/admin/ImageList.tsx:377 | The dragged item lands at the target index, removing it leaves the other items in their order, and the list is a permutation of the input. |
| ImageList.ArrayMoveToFront | src/components/admin/ImageList.tsx:377 | Moving an item to index 0 puts it before the others, which keep their order. |
| ImageList.ArrayMoveBack | src/components/admin/ImageList.tsx:377 | Moving the item back restores the list. |
| ImageList.RemoveInserted | src/components/admin/ImageList.tsx:377 | Removing an inserted item restores the list. |
| ImageList.InsertRemoved | src/components/admin/ImageList.tsx:377 | Reinserting a removed item restores the list. |
| ImageList.HandleDragEnd | src/components/admin/ImageList.tsx:370-393 | No target, or the same id, sends nothing. Otherwise the moved list is sent with each image's order set to its new index. The parent gets the list iff every update succeeds. |
| ImageList.UntouchedFormRoundTrip | src/components/admin/ImageList.tsx:65-96 | Saving a form loaded from an image, untouched, writes the image back unchanged and passes width validation when the width is in 1..7. |
| ImageList.ImageItem.constructor | src/components/admin/ImageList.tsx:40-48 | Nothing is being edited or deleted; the default form. |
| ImageList.ImageItem.StartEdit | src/components/admin/ImageList.tsx:65-74 | The form holds the image's alt, description, category, year and width; the image is being edited. |
| ImageList.ImageItem.CancelEdit | src/components/admin/ImageList.tsx:76-85 | Editing ends and the form is reset to its defaults. |
| ImageList.ImageItem.SubmitEdit | src/components/admin/ImageList.tsx:87-96 | The whole form is sent. Success ends editing and notifies the parent; failure keeps editing. |
| ImageList.ImageItem.BeginDelete | src/components/admin/ImageList.tsx:98-107 | Without confirmation nothing happens; otherwise the id is marked as being deleted. |
| ImageList.ImageItem.FinishDelete | src/components/admin/ImageList.tsx:108-117 | Whatever the outcome the mark is cleared; the parent is told on success. |
| ImageUpload.WithInput | src/components/admin/ImageUpload.tsx:53-63 | An input changes only its own field, and the year goes through `parseInt`. |
| ImageUpload.YearText | src/components/admin/ImageUpload.tsx:87 | The text is non-empty; it parses back to the year for a safe integer, and to NaN for NaN. |
| ImageUpload.FormChecksCoverBackend | src/components/admin/ImageUpload.tsx:73-76 | With alt, description and category filled, the fields sent pass the backend's required-field check (the year is always sent as non-empty text). |
| ImageUpload.SubmittedFormStored | src/components/admin/ImageUpload.tsx:82-90 | A form whose year is a safe integer is stored with that year and its texts; the width typed is replaced by 1. |
| ImageUpload.UnparsedYearRejected | src/components/admin/ImageUpload.tsx:87 | A year that does not parse is sent as "NaN" and the backend's insert fails. |
| ImageUpload.UploadPanel.constructor | src/components/admin/ImageUpload.tsx:9-19 | The default form, not uploading, no error, no drag. |
| ImageUpload.UploadPanel.FileChange | src/components/admin/ImageUpload.tsx:21-26 | The first chosen file becomes the image; no file changes nothing. |
| ImageUpload.UploadPanel.Drag | src/components/admin/ImageUpload.tsx:28-36 | The drop zone is active except after a drag leave. |
| ImageUpload.UploadPanel.Drop | src/components/admin/ImageUpload.tsx:38-51 | The first dropped file is taken only if its type starts with "image/"; otherwise the error is set and the image kept. |
| ImageUpload.UploadPanel.InputChange | src/components/admin/ImageUpload.tsx:53-63 | The form becomes WithInput of the old form. |
| ImageUpload.UploadPanel.Submit | src/components/admin/ImageUpload.tsx:65-90 | Only while no upload is under way (the button is disabled, line 373). No image, or empty alt or description, sets its error and sends nothing. Otherwise uploading starts, the error clears, and the file and fields are sent. |
| ImageUpload.UploadPanel.UploadFinished | src/components/admin/ImageUpload.tsx:90-112 | Success resets the form and notifies; failure keeps the form and sets the error. Uploading ends in every case. |
| Home.IsSocialKeyword | src/App.tsx:50-57 | A link is social iff its text contains one of the six keywords. |
| Home.RegularIsNotSocial | src/App.tsx:40-58 | The regular test is the negation of the social test. |
| Home.LinksSplit | src/App.tsx:40-58 | Together the two lists hold every link exactly once: the multisets and lengths add up. |
| Home.LinkPlacement | src/App.tsx:40-58 | A link is in the social list iff it is a social input link, and in the regular list iff it is a non-social input link. |
| Home.LinksSplitKeepsOrder | src/App.tsx:40-58 | Both lists keep the relative order of the links. |
| Home.AllImages | src/App.tsx:23 | The finished images followed by the wip images. |
| Home.LightboxHost.constructor | src/App.tsx:190 | The lightbox starts closed. |
| Home.LightboxHost.IsOpen | src/App.tsx:208 | Open iff an image id is set. |
| Home.LightboxHost.Open | src/App.tsx:192-194 | The image's id is set. |
| Home.LightboxHost.Close | src/App.tsx:196-198 | The id is cleared and the lightbox is closed. |
| Home.LightboxHost.ImageClick | src/App.tsx:121-129 | The lightbox opens on the id only if an image of the combined list has it. |
| Home.LightboxHost.KeyPress | src/components/Lightbox.tsx:116-130 | The key's action is taken only while open; Escape closes the lightbox and nothing else changes its state. |
| Home.ClickedImageStartsLightbox | src/App.tsx:121-129 | A clicked image of the combined list is the lightbox's starting slide. |
| Lightbox.ActiveIndex | src/components/Lightbox.tsx:58-66 | 0 without an id or images. Otherwise it is the first index holding the id, or 0 if none does, and always within the list when the list is non-empty. |
| Lightbox.KeyDown | src/components/Lightbox.tsx:116-130 | Closed: nothing. Open: close iff Escape, previous iff ArrowLeft, next iff ArrowRight. |
| GalleryGrid.SortedImages | src/components/GalleryGrid.tsx:13 | A permutation of the images in non-decreasing order. |
| GalleryGrid.SortedImagesStable | src/components/GalleryGrid.tsx:13 | Images with equal order keep their relative order. |
| GalleryGrid.SortedImagesIdempotent | src/components/GalleryGrid.tsx:13 | Sorting a sorted copy changes nothing. |
| GalleryGrid.GridKeepsServerOrder | src/components/GalleryGrid.tsx:13 | The grid shows the lists GET returns in the order it returns them. |
| Ordering.SortBy | src/components/GalleryGrid.tsx:13 | A permutation of the input, sorted by the key. |
| Ordering.SortByStable | src/components/GalleryGrid.tsx:13 | Elements with equal keys keep their input order. |
| Ordering.SortBySorted | src/components/GalleryGrid.tsx:13 | A sorted input is returned unchanged. |
| Ordering.MaxKey | backend/src/index.ts:119-124 | None iff the input is empty; otherwise a key some element has and no element exceeds. |
| DragReorder.DragToFrontSends | src/components/admin/ImageList.tsx:377-383 | Dragging the last of three images before the first gives the list last, first, second, and sends them orders 0, 1, 2. |
| DragReorder.DragSentIsDragToFront | src/components/admin/ImageList.tsx:381-383 | For the rows a0, b1, c2 those requests are c:0, a:1, b:2. |
| DragReorder.DragToFrontStored | backend/src/index.ts:172 | The PUTs as written leave orders a1, b2, c2: c's order 0 is dropped. |
| DragReorder.LeastOrderShownFirst | backend/src/index.ts:56-61 | The finished image with the strictly smallest order is listed first. |
| DragReorder.DraggedToFrontNotPersisted | backend/src/index.ts:172 | After that drag, GET still lists a first, not the dragged c. |
| DragReorder.OrderPatchIntended | backend/src/index.ts:172 | Corrected: an order request always sets the order. |
| DragReorder.PatchImageIntended | backend/src/index.ts:166-176 | Corrected PUT: a present order or year, 0 included, is written as `parseInt` reads it and an absent one keeps its column; None iff a text is a number, a present order or year or a truthy width parses to NaN; id and src kept. |
| DragReorder.IntendedAgreesOnTruthy | backend/src/index.ts:166-176 | The correction differs from PUT as written only for a falsy present order or year. |
| DragReorder.OrderUpdateIntended | backend/src/index.ts:166-176 | One corrected order update sets that row's order and no other row's. |
| DragReorder.PersistIntendedOrders | src/components/admin/ImageList.tsx:381-383 | After the corrected requests, every named row has its requested order, no other field changes, and unnamed rows are unchanged. |
| DragReorder.ShownOrderIsPosition | src/components/admin/ImageList.tsx:381-383 | After the corrected requests, a listed image has as order its position in the dragged list. |
| DragReorder.CorrectedDragPersisted | src/components/admin/ImageList.tsx:370-393 | With the correction, GET lists the dragged images in the order of the dragged list. |
| ServiceWorker.Match | public/sw.js:46-50 | None iff no cache holds the URL; otherwise an entry some cache holds for it. |
| ServiceWorker.PutInto | public/sw.js:60-64 | Storing keeps the other caches and only adds entries to the named cache, creating it when missing. |
| ServiceWorker.PutAfterMissHits | public/sw.js:46-64 | After a miss and a store, the next lookup of the URL answers with the stored response. |
| ServiceWorker.PutKeepsOtherUrls | public/sw.js:60-64 | Storing a response changes no lookup of another URL. |
| ServiceWorker.CacheStorage.HandleFetch | public/sw.js:22-94 | "/api/" paths always go to the network and never touch the caches; a failure gives 200 with an empty gallery as JSON. Otherwise a hit is served without a fetch. A fetched response is stored only if its status is 200 and its type basic. A failed fetch gives the offline page to documents only. |
| ServiceWorker.CacheStorage.Activate | public/sw.js:97-112 | Exactly the caches named neither "merlin-gallery-v2" nor "merlin-static-v2" are deleted; the rest keep their order, and names stay distinct. |
| ServiceWorker.ActivationKeepsCurrent | public/sw.js:100-108 | A cache survives activation iff it existed and has one of the two current names. |
| JsBuiltins.ReplaceFirstOfPrefix | backend/src/index.ts:41 | `replace` of a leading pattern removes exactly that one occurrence. |
| JsBuiltins.ReplaceFirst | backend/src/index.ts:41 | A string without the pattern is returned unchanged. |
| JsBuiltins.Trim | src/pages/AdminPage.tsx:102 | Empty iff the input is all whitespace; otherwise it starts and ends with a non-space. |
| JsBuiltins.LastSegment | backend/src/index.ts:95 | A suffix free of the separator, preceded by the separator when shorter than the input. |
| JsBuiltins.LastSegmentAfter | backend/src/index.ts:205 | The last segment after a final separator is the text following it. |
| JsBuiltins.ParseIntOfIntToString | src/components/admin/ImageUpload.tsx:87 | `parseInt` of a safe integer's decimal text gives the number back. |
| JsBuiltins.FindIndexFrom | src/components/Lightbox.tsx:60 | -1 iff no element satisfies the test; otherwise the first one that does. |
| JsBuiltins.FilterHas | src/App.tsx:40-58 | An element is kept iff it is in the input and passes the test. |
| JsBuiltins.FilterConcat | src/App.tsx:40-58 | Filtering distributes over concatenation, so order is kept. |
| JsBuiltins.FilterPartition | src/App.tsx:40-58 | A test and its negation split the input's multiset and length. |

## Left out

- Database, bucket, HTTP, `localStorage` and Cache API calls. Each becomes in-memory state, or an outcome parameter where the code branches on success.
- Database failures the routes do not turn into a specific reply are not modelled: a failing insert, update or delete on an existing row. The 500 replies that follow from data Prisma rejects are modelled.
- The `createdAt`/`updatedAt` timestamps. The database schema is not part of this model; the order default of an existing-image registration is taken to be 0 (`Backend.DefaultOrder`).
- Backend.UploadKey: the unique stem `Date.now()` plus `Math.random()` is a parameter, not generated. `Backend.UploadKeyRoundTrip` needs the stem and the original name to be free of "/".
- Promise.all concurrency in the link reorder and the image drag-reorder. Both are sequential loops here; interleavings of partial failures are not modelled.
- `/api/fix-image-urls` (backend/src/index.ts:274-334) is a one-off data repair.
- The `/health` route and the server start-up.
- `parseInt` is modelled for optional leading whitespace, a sign and decimal digits only. Hexadecimal prefixes and radix arguments are not modelled, and whitespace, for `parseInt` and `trim` alike, is limited to space, tab, newline, carriage return, form feed and vertical tab.
- JSON `null`, booleans, arrays and objects as body fields. A field is absent, a string or an integer; non-integer numbers are not modelled.
- Backend.ParseBody: an integer body field is taken as itself. JavaScript numbers lose integers beyond 2^53, and `parseInt` of a number from 1e21 up reads its exponent form ("1e+21" gives 1); the round-trip lemmas are stated for safe integers only.
- JsBuiltins.ParseInt: a long run of digits is read exactly; JavaScript rounds it to the nearest double beyond 2^53.
- ImageUpload.YearText: a year beyond the safe range is printed in full decimal; JavaScript prints 1e21 and up in exponent form.
- ApiSession.Delivered: of the header rules, only these are modelled: the refusal of characters above U+00FF; the removal of leading and trailing space, tab, CR and LF; and then the refusal of NUL, CR or LF left in the value. The backend HTTP parser's refusal (status 400) of other control characters and of DEL is not modelled.
- AdminLinks.LinkEditor.Add uses the corrected `NextId`. As written, an empty list gives the id -Infinity (see Findings), so the editor's distinct-ids invariant holds only with the correction.
- AdminLinks.LinkEditor.Delete follows the code as written and leaves edit mode untouched; the correction is `AdminLinks.LinkEditor.DeleteClearingEdit` (see Findings).
- AdminLinks.LinkEditor.constructor: the eleven links hard-coded in the page's initial state are a constructor parameter.
- The edit-form inputs' change handlers in ImageList; a form field is set as a value.
- Rendering, CSS, Swiper slide movement (a key's action is returned, not performed), dnd-kit sensors, lazy loading, the `window.imageCache` heuristic, the float `animationDelay` and clearing the file input.
- Image preloading is represented only by the list of sources handed to it.
- The optimistic-update, local-cache and de-duplication behaviour that a context type declares. The hook returns only `{ galleryData, loading, error }`, so this behaviour does not exist.
- The service worker's install step. It stores "/" and "/favicon.png" in the static cache via `addAll`, whose all-or-nothing fetch semantics are not modelled.
- Service worker URL parsing: a request carries its pathname directly.
- The offline page's HTML text, represented by a marker body.
- Service worker stores are treated as complete when the response is returned, although the code does not await them.
- Backend.Server.UpdateImage follows the code as written, including the dropped `order: 0` described below. The correction is modelled separately by `DragReorder.PatchImageIntended`.
- The type comment "1, 2, or 3 columns" on `width` (src/types/gallery.ts:9) disagrees with the 1..7 check in the backend (backend/src/index.ts:159-164). The model follows the check.
- ImageList.HandleDragEnd requires both the dragged and the target id to be in the list, as the sortable context guarantees. A `findIndex` of -1 is not modelled.

## Findings

| source | as written | input that shows it | evidently intended | confidence | as-written member | corrected member |
|---|---|---|---|---|---|---|
| backend/src/index.ts:172-173 with src/components/admin/ImageList.tsx:381-383 | PUT writes `order` only when it is truthy, so the drag reorder's `order: 0` for the first item is ignored | rows a0, b1, c2; drag c before a: the requests c:0, a:1, b:2 leave a1, b2, c2, and GET still lists a first | a present order (0 included) is written, so the first dragged item is listed first | not executed | DragReorder.DraggedToFrontNotPersisted | DragReorder.CorrectedDragPersisted |
| src/pages/AdminPage.tsx:103 | `Math.max(...links.map(l => l.id)) + 1` is -Infinity for an empty list | delete every link, then add two: both get id -Infinity | a fresh id, 1 for an empty list | not executed | AdminLinks.NextIdAsWrittenRepeats | AdminLinks.NextId |
| src/pages/AdminPage.tsx:337 with src/pages/AdminPage.tsx:97-99 | the edit row's Delete removes the edited link but leaves `editingLinkId` set, so no row renders Save or Cancel and every Edit button stays disabled | links 1, 2, 3: edit link 2, then press Delete in its row; later additions get ids 4, 5, … and never bring the row back, so edit mode is stuck until the page reloads | deleting the edited link also ends edit mode | not executed | AdminLinks.DeleteFromEditRowSticks | AdminLinks.CorrectedDeleteNeverSticks |

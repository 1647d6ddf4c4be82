/**
 * The link editor of the admin page (src/pages/AdminPage.tsx): a local list
 * of `{ id, text, url }` entries, two inputs for a new link, and a
 * one-link-at-a-time edit mode. None of it reaches the backend.
 */
module AdminLinks {
  import opened JsBuiltins
  import opened Ordering

  datatype LinkEntry = LinkEntry(id: int, text: string, url: string)

  predicate DistinctEntryIds(links: seq<LinkEntry>) {
    forall i, j :: 0 <= i < j < |links| ==> links[i].id != links[j].id
  }

  predicate HasEntryId(links: seq<LinkEntry>, id: int) {
    exists i :: 0 <= i < |links| && links[i].id == id
  }

  function Ids(links: seq<LinkEntry>): seq<int> {
    seq(|links|, i requires 0 <= i < |links| => links[i].id)
  }

  // ---------------------------------------------------------------------------
  // List transformers
  // ---------------------------------------------------------------------------

  /** `handleLinkTextChange`: the entries with this id get the new text; nothing else changes. */
  function WithText(links: seq<LinkEntry>, id: int, text: string): (r: seq<LinkEntry>)
    ensures |r| == |links| && Ids(r) == Ids(links)
    ensures forall i :: 0 <= i < |r| && links[i].id == id ==> r[i].text == text && r[i].url == links[i].url
    ensures forall i :: 0 <= i < |r| && links[i].id != id ==> r[i] == links[i]
  {
    seq(|links|, i requires 0 <= i < |links| =>
      if links[i].id == id then links[i].(text := text) else links[i])
  }

  /** `handleLinkUrlChange`: the entries with this id get the new url; nothing else changes. */
  function WithUrl(links: seq<LinkEntry>, id: int, url: string): (r: seq<LinkEntry>)
    ensures |r| == |links| && Ids(r) == Ids(links)
    ensures forall i :: 0 <= i < |r| && links[i].id == id ==> r[i].url == url && r[i].text == links[i].text
    ensures forall i :: 0 <= i < |r| && links[i].id != id ==> r[i] == links[i]
  {
    seq(|links|, i requires 0 <= i < |links| =>
      if links[i].id == id then links[i].(url := url) else links[i])
  }

  /** The test `link.id !== id`. */
  function IdIsNot(id: int): LinkEntry -> bool {
    (l: LinkEntry) => l.id != id
  }

  /** `handleDeleteLink`: keep, in order, the entries whose id differs. */
  function WithoutId(links: seq<LinkEntry>, id: int): (r: seq<LinkEntry>)
    ensures !HasEntryId(r, id)
    ensures |r| <= |links|
  {
    Filter(links, IdIsNot(id))
  }

  /** Deleting removes exactly the entries with that id. */
  lemma WithoutIdMembers(links: seq<LinkEntry>, id: int, l: LinkEntry)
    ensures l in WithoutId(links, id) <==> l in links && l.id != id
  {
    FilterHas(links, IdIsNot(id), l);
  }

  /** Deleting keeps the remaining entries in their order: it distributes over concatenation. */
  lemma WithoutIdKeepsOrder(a: seq<LinkEntry>, b: seq<LinkEntry>, id: int)
    ensures WithoutId(a + b, id) == WithoutId(a, id) + WithoutId(b, id)
  {
    FilterConcat(a, b, IdIsNot(id));
  }

  /** Deleting an id no entry has changes nothing. */
  lemma {:induction false} WithoutAbsentId(links: seq<LinkEntry>, id: int)
    requires !HasEntryId(links, id)
    ensures WithoutId(links, id) == links
  {
    if links != [] {
      WithoutAbsentId(links[1..], id);
      assert links == [links[0]] + links[1..];
    }
  }

  /** Deleting keeps the ids distinct. */
  lemma {:induction false} WithoutIdKeepsDistinct(links: seq<LinkEntry>, id: int)
    requires DistinctEntryIds(links)
    ensures DistinctEntryIds(WithoutId(links, id))
  {
    if links != [] {
      var rest := links[1..];
      assert DistinctEntryIds(rest);
      WithoutIdKeepsDistinct(rest, id);
      assert links == [links[0]] + rest;
      forall x | x in WithoutId(rest, id) ensures x.id != links[0].id {
        WithoutIdMembers(rest, id, x);
        var k :| 0 <= k < |rest| && rest[k] == x;
        assert links[k + 1] == x;
      }
    }
  }

  // ---------------------------------------------------------------------------
  // Fresh ids
  // ---------------------------------------------------------------------------

  /** A JavaScript number as `Math.max` can produce it: an integer or -Infinity. */
  datatype JsNumber = Finite(n: int) | NegInfinity

  function JsMax(a: JsNumber, b: JsNumber): JsNumber {
    match (a, b)
    case (NegInfinity, _) => b
    case (_, NegInfinity) => a
    case (Finite(x), Finite(y)) => Finite(if x >= y then x else y)
  }

  /** `Math.max(...ids)`: -Infinity for no arguments. */
  function JsMaxOf(ids: seq<JsNumber>): JsNumber {
    if ids == [] then NegInfinity else JsMax(ids[0], JsMaxOf(ids[1..]))
  }

  function JsPlusOne(a: JsNumber): JsNumber {
    match a
    case Finite(x) => Finite(x + 1)
    case NegInfinity => NegInfinity
  }

  /** The id `handleAddLink` gives a new link as written: `Math.max(...ids) + 1`. */
  function NextIdAsWritten(ids: seq<JsNumber>): JsNumber {
    JsPlusOne(JsMaxOf(ids))
  }

  /**
   * Once every link has been deleted, two additions in a row get the same id
   * (-Infinity), so editing or deleting one of them affects both.
   */
  lemma NextIdAsWrittenRepeats()
    ensures NextIdAsWritten([]) == NegInfinity
    ensures NextIdAsWritten([NextIdAsWritten([])]) == NextIdAsWritten([])
  {
    assert [NegInfinity][..0] == [];
  }

  function EntryId(l: LinkEntry): int { l.id }

  /** A fresh id: one past the largest id, or 1 when the list is empty. */
  function NextId(links: seq<LinkEntry>): (n: int)
    ensures forall i :: 0 <= i < |links| ==> links[i].id < n
    ensures links == [] ==> n == 1
    ensures links != [] ==> exists i :: 0 <= i < |links| && links[i].id == n - 1
  {
    match MaxKey(links, EntryId)
    case None => 1
    case Some(m) => m + 1
  }

  /** The ids of a list as `links.map((l) => l.id)` hands them to `Math.max`. */
  function JsIds(links: seq<LinkEntry>): (r: seq<JsNumber>)
    ensures |r| == |links|
  {
    if links == [] then [] else [Finite(links[0].id)] + JsIds(links[1..])
  }

  lemma {:induction false} JsMaxOfIds(links: seq<LinkEntry>)
    ensures links == [] ==> JsMaxOf(JsIds(links)) == NegInfinity
    ensures links != [] ==> JsMaxOf(JsIds(links)) == Finite(MaxKey(links, EntryId).value)
  {
    if links != [] {
      JsMaxOfIds(links[1..]);
      assert JsIds(links)[1..] == JsIds(links[1..]);
    }
  }

  /** On a non-empty list the corrected rule agrees with `Math.max(...ids) + 1`. */
  lemma NextIdAgrees(links: seq<LinkEntry>)
    requires links != []
    ensures NextIdAsWritten(JsIds(links)) == Finite(NextId(links))
  {
    JsMaxOfIds(links);
  }

  /** Appending an entry with the next id keeps the ids distinct. */
  lemma AppendNextIdKeepsDistinct(links: seq<LinkEntry>, text: string, url: string)
    requires DistinctEntryIds(links)
    ensures DistinctEntryIds(links + [LinkEntry(NextId(links), text, url)])
  {
  }

  // ---------------------------------------------------------------------------
  // Edit mode
  // ---------------------------------------------------------------------------

  /**
   * The edit row, which holds the Save and Cancel buttons, is rendered for the
   * link whose id is being edited.
   */
  predicate EditRowShown(links: seq<LinkEntry>, editing: Option<int>) {
    editing.Some? && HasEntryId(links, editing.value)
  }

  /**
   * Edit mode with no link left to show the edit row: no Save or Cancel is
   * rendered, and every Edit button stays disabled.
   */
  predicate EditStuck(links: seq<LinkEntry>, editing: Option<int>) {
    editing.Some? && !HasEntryId(links, editing.value)
  }

  /**
   * The edit row's Delete button calls `handleDeleteLink`, which leaves
   * `editingLinkId` alone: the edited link disappears and edit mode is stuck.
   */
  lemma DeleteFromEditRowSticks(links: seq<LinkEntry>, id: int)
    requires EditRowShown(links, Some(id))
    ensures EditStuck(WithoutId(links, id), Some(id))
  {
  }

  /** Corrected `handleDeleteLink`: deleting the link being edited also ends edit mode. */
  function ClearedEditing(editing: Option<int>, id: int): (r: Option<int>)
    ensures r.None? <==> editing.None? || editing.value == id
    ensures r.Some? ==> r == editing
  {
    if editing == Some(id) then None else editing
  }

  /** With the correction, a delete never leaves edit mode without its row. */
  lemma CorrectedDeleteNeverSticks(links: seq<LinkEntry>, editing: Option<int>, id: int)
    requires !EditStuck(links, editing)
    ensures !EditStuck(WithoutId(links, id), ClearedEditing(editing, id))
  {
    var r := ClearedEditing(editing, id);
    if r.Some? {
      var k :| 0 <= k < |links| && links[k].id == r.value;
      WithoutIdMembers(links, id, links[k]);
      var j :| 0 <= j < |WithoutId(links, id)| && WithoutId(links, id)[j] == links[k];
    }
  }

  // ---------------------------------------------------------------------------
  // The editor's state
  // ---------------------------------------------------------------------------

  class LinkEditor {
    var links: seq<LinkEntry>
    var newLinkText: string
    var newLinkUrl: string
    /** The link being edited, null when none is. */
    var editingLinkId: Option<int>

    ghost predicate Valid()
      reads this
    {
      DistinctEntryIds(links)
    }

    /** The page's initial state, over the list it starts with. */
    constructor (links: seq<LinkEntry>)
      requires DistinctEntryIds(links)
      ensures Valid()
      ensures this.links == links && newLinkText == "" && newLinkUrl == "" && editingLinkId.None?
    {
      this.links := links;
      newLinkText := "";
      newLinkUrl := "";
      editingLinkId := None;
    }

    /** The two `onChange` handlers of the new-link inputs. */
    method TypeNewLink(text: string, url: string)
      modifies this`newLinkText, this`newLinkUrl
      ensures newLinkText == text && newLinkUrl == url
    {
      newLinkText := text;
      newLinkUrl := url;
    }

    method ChangeText(id: int, text: string)
      requires Valid()
      modifies this`links
      ensures Valid()
      ensures links == WithText(old(links), id, text)
      ensures EditStuck(old(links), editingLinkId) ==> EditStuck(links, editingLinkId)
    {
      links := WithText(links, id, text);
      assert forall i :: 0 <= i < |links| ==> links[i].id == Ids(links)[i];
      assert forall i :: 0 <= i < |old(links)| ==> old(links)[i].id == Ids(old(links))[i];
    }

    method ChangeUrl(id: int, url: string)
      requires Valid()
      modifies this`links
      ensures Valid()
      ensures links == WithUrl(old(links), id, url)
      ensures EditStuck(old(links), editingLinkId) ==> EditStuck(links, editingLinkId)
    {
      links := WithUrl(links, id, url);
      assert forall i :: 0 <= i < |links| ==> links[i].id == Ids(links)[i];
      assert forall i :: 0 <= i < |old(links)| ==> old(links)[i].id == Ids(old(links))[i];
    }

    /** `handleDeleteLink`, from either row: edit mode is left as it was. */
    method Delete(id: int)
      requires Valid()
      modifies this`links
      ensures Valid()
      ensures links == WithoutId(old(links), id)
      ensures old(editingLinkId) == Some(id) ==> EditStuck(links, editingLinkId)
      ensures EditStuck(old(links), editingLinkId) ==> EditStuck(links, editingLinkId)
    {
      WithoutIdKeepsDistinct(links, id);
      if editingLinkId.Some? && HasEntryId(WithoutId(links, id), editingLinkId.value) {
        var j :| 0 <= j < |WithoutId(links, id)| && WithoutId(links, id)[j].id == editingLinkId.value;
        WithoutIdMembers(links, id, WithoutId(links, id)[j]);
      }
      links := WithoutId(links, id);
    }

    /** The corrected delete: removing the link being edited also ends edit mode. */
    method DeleteClearingEdit(id: int)
      requires Valid()
      modifies this`links, this`editingLinkId
      ensures Valid()
      ensures links == WithoutId(old(links), id)
      ensures editingLinkId == ClearedEditing(old(editingLinkId), id)
      ensures !EditStuck(old(links), old(editingLinkId)) ==> !EditStuck(links, editingLinkId)
    {
      WithoutIdKeepsDistinct(links, id);
      if !EditStuck(links, editingLinkId) {
        CorrectedDeleteNeverSticks(links, editingLinkId, id);
      }
      links := WithoutId(links, id);
      editingLinkId := ClearedEditing(editingLinkId, id);
    }

    /**
     * `handleAddLink`: both inputs must hold more than whitespace; they are
     * stored untrimmed. The new id is the corrected `NextId`.
     */
    method Add()
      requires Valid()
      modifies this`links, this`newLinkText, this`newLinkUrl
      ensures Valid()
      ensures EditStuck(old(links), editingLinkId) && editingLinkId.value != NextId(old(links)) ==>
        EditStuck(links, editingLinkId)
      ensures Trim(old(newLinkText)) != "" && Trim(old(newLinkUrl)) != "" ==>
        && links == old(links) + [LinkEntry(NextId(old(links)), old(newLinkText), old(newLinkUrl))]
        && newLinkText == "" && newLinkUrl == ""
      ensures !(Trim(old(newLinkText)) != "" && Trim(old(newLinkUrl)) != "") ==>
        links == old(links) && newLinkText == old(newLinkText) && newLinkUrl == old(newLinkUrl)
    {
      if Trim(newLinkText) != "" && Trim(newLinkUrl) != "" {
        AppendNextIdKeepsDistinct(links, newLinkText, newLinkUrl);
        links := links + [LinkEntry(NextId(links), newLinkText, newLinkUrl)];
        newLinkText := "";
        newLinkUrl := "";
      }
    }

    /** The Edit button: disabled while any link is being edited. */
    method Edit(id: int)
      modifies this`editingLinkId
      ensures old(editingLinkId).None? ==> editingLinkId == Some(id)
      ensures old(editingLinkId).Some? ==> editingLinkId == old(editingLinkId)
    {
      if editingLinkId.None? {
        editingLinkId := Some(id);
      }
    }

    /** Save, in the edit row, ends the edit mode; the changes were already applied keystroke by keystroke. */
    method Save()
      requires EditRowShown(links, editingLinkId)
      modifies this`editingLinkId
      ensures editingLinkId.None?
    {
      editingLinkId := None;
    }

    /** Cancel, in the edit row, ends the edit mode too and, like Save, keeps the edits made. */
    method Cancel()
      requires EditRowShown(links, editingLinkId)
      modifies this`editingLinkId
      ensures editingLinkId.None?
    {
      editingLinkId := None;
    }
  }

  /** The new link is appended last and its id is fresh. */
  lemma AddedLinkIsFresh(links: seq<LinkEntry>, text: string, url: string)
    ensures !HasEntryId(links, NextId(links))
    ensures var r := links + [LinkEntry(NextId(links), text, url)];
      r[|r| - 1].id == NextId(links) && r[..|links|] == links
  {
    var r := links + [LinkEntry(NextId(links), text, url)];
    assert r[..|links|] == links;
  }
}

/**
 * One replica of a session document, as `createSessionDoc` sees it: a shared text
 * for the story, a map holding the reveal flag, a map holding the admin key and an
 * array of participants. Only the local, sequential effect of each operation is
 * modelled; replication and merging belong to the CRDT library and are not here.
 */
module Realtime {
  import opened Wrappers
  import opened Participants

  /** The story shown when the shared text is empty. */
  const DEFAULT_STORY := "Untitled Story"

  /** `s || 'Untitled Story'`. */
  function OrUntitled(s: string): (r: string)
    ensures r != ""
    ensures s != "" ==> r == s
    ensures s == "" ==> r == DEFAULT_STORY
  {
    if s == "" then DEFAULT_STORY else s
  }

  /** The materialised view handed to the UI. */
  datatype SessionState = SessionState(
    story: string,
    revealed: bool,
    adminKey: string,
    participants: seq<Participant>)

  /**
   * `getState()` over the raw contents: the text, the entry `value` of the reveal map
   * (None while unset) and the entry `key` of the admin map (None while unset).
   */
  function Snapshot(
    parts: seq<Participant>, text: string, revealed: Option<bool>, admin: Option<string>): (st: SessionState)
    ensures st.story == OrUntitled(text)
    ensures st.revealed <==> revealed == Some(true)
    ensures st.adminKey == "" <==> admin == None || admin == Some("")
    ensures admin.Some? ==> st.adminKey == admin.value
    ensures st.participants == parts
  {
    SessionState(OrUntitled(text), revealed.GetOr(false), admin.GetOr(""), parts)
  }

  /** Local effect of `delete(index, length)` on a shared array or text. */
  function Delete<T>(s: seq<T>, index: nat, length: nat): (r: seq<T>)
    requires index + length <= |s|
    ensures |r| == |s| - length
    ensures forall i :: 0 <= i < index ==> r[i] == s[i]
    ensures forall i :: index <= i < |r| ==> r[i] == s[i + length]
  {
    s[..index] + s[index + length..]
  }

  /** Local effect of `insert(index, items)` on a shared array or text. */
  function Insert<T>(s: seq<T>, index: nat, items: seq<T>): (r: seq<T>)
    requires index <= |s|
    ensures |r| == |s| + |items|
    ensures forall i :: 0 <= i < index ==> r[i] == s[i]
    ensures forall i :: 0 <= i < |items| ==> r[index + i] == items[i]
    ensures forall i :: index <= i < |s| ==> r[i + |items|] == s[i]
  {
    s[..index] + items + s[index..]
  }

  /** Deleting one element and inserting `x` at the same index replaces that element. */
  lemma ReplaceByDeleteInsert<T>(s: seq<T>, i: nat, x: T)
    requires i < |s|
    ensures Insert(Delete(s, i, 1), i, [x]) == s[i := x]
  {
    assert s[..i] + [x] + s[i + 1..] == s[i := x];
  }

  /** Inserting at the length appends. */
  lemma AppendByInsert<T>(s: seq<T>, x: T)
    ensures Insert(s, |s|, [x]) == s + [x]
  {
    assert s[..|s|] == s;
  }

  /** The shared document of one session, on one replica. */
  class SessionDoc {
    var parts: seq<Participant>
    var text: string
    var revealed: Option<bool>
    var admin: Option<string>

    /** A new, empty document: nothing has been received from other replicas yet. */
    constructor ()
      ensures parts == [] && text == "" && revealed == None && admin == None
    {
      parts, text, revealed, admin := [], "", None, None;
    }

    /** `getState()`: this replica's document seen through the UI's defaults. */
    function GetState(): (st: SessionState)
      reads this
      ensures st.story == OrUntitled(text)
      ensures st.story != "" && (text != "" ==> st.story == text)
      ensures st.revealed <==> revealed == Some(true)
      ensures admin.Some? ==> st.adminKey == admin.value
      ensures admin == None ==> st.adminKey == ""
      ensures st.participants == parts
    {
      Snapshot(parts, text, revealed, admin)
    }

    /** Deletes the whole text, then inserts `val` at the front. */
    method SetStory(val: string)
      modifies this`text
      ensures text == val
      ensures parts == old(parts) && revealed == old(revealed) && admin == old(admin)
    {
      text := Delete(text, 0, |text|);
      text := Insert(text, 0, val);
      assert text == val;
    }

    method SetReveal(val: bool)
      modifies this`revealed
      ensures revealed == Some(val)
      ensures parts == old(parts) && text == old(text) && admin == old(admin)
    {
      revealed := Some(val);
    }

    method SetAdminKey(val: string)
      modifies this`admin
      ensures admin == Some(val)
      ensures parts == old(parts) && text == old(text) && revealed == old(revealed)
    {
      admin := Some(val);
    }

    /** Finds the first entry with `p.id`; deletes it and inserts `p` there, or appends `p`. */
    method UpsertParticipant(p: Participant)
      modifies this`parts
      ensures parts == Upserted(old(parts), p)
      ensures FindIndex(old(parts), p.id) >= 0 ==> parts == old(parts)[FindIndex(old(parts), p.id) := p]
      ensures FindIndex(old(parts), p.id) == -1 ==> parts == old(parts) + [p]
      ensures text == old(text) && revealed == old(revealed) && admin == old(admin)
    {
      var idx := FindIndex(parts, p.id);
      ghost var before := parts;
      if idx >= 0 {
        parts := Delete(parts, idx, 1);
      }
      parts := Insert(parts, if idx >= 0 then idx else |parts|, [p]);
      if idx >= 0 {
        ReplaceByDeleteInsert(before, idx, p);
        UpsertedPresent(before, p, idx);
      } else {
        AppendByInsert(before, p);
        UpsertedAbsent(before, p);
      }
    }

    /** Deletes the first entry with `id`, if any. */
    method RemoveParticipant(id: string)
      modifies this`parts
      ensures parts == Removed(old(parts), id)
      ensures FindIndex(old(parts), id) == -1 ==> parts == old(parts)
      ensures FindIndex(old(parts), id) >= 0 ==>
        var i := FindIndex(old(parts), id); parts == old(parts)[..i] + old(parts)[i + 1..]
      ensures text == old(text) && revealed == old(revealed) && admin == old(admin)
    {
      var idx := FindIndex(parts, id);
      ghost var before := parts;
      if idx >= 0 {
        parts := Delete(parts, idx, 1);
        RemovedPresent(before, id, idx);
        assert parts == before[..idx] + before[idx + 1..];
      } else {
        RemovedAbsent(before, id);
      }
    }

    /** Copies the list with every vote cleared, empties the array and re-inserts the copy. */
    method ClearVotes()
      modifies this`parts
      ensures parts == Cleared(old(parts))
      ensures |parts| == |old(parts)|
      ensures forall i :: 0 <= i < |parts| ==>
        parts[i].id == old(parts)[i].id && parts[i].name == old(parts)[i].name && parts[i].value == None
      ensures text == old(text) && revealed == old(revealed) && admin == old(admin)
    {
      var copy := Cleared(parts);
      ClearedAt(parts);
      parts := Delete(parts, 0, |parts|);
      parts := Insert(parts, 0, copy);
      assert parts == copy;
    }
  }
}

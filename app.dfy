/**
 * The decision rules of the planning-poker page: who is admin, how the URL
 * parameters are rewritten, what each button does to the local roster when no
 * session document is bound, how admin-only actions are gated, how a newly bound
 * document is initialised, and what a participant's card shows.
 */
module App {
  import opened Wrappers
  import opened Participants
  import opened Realtime
  import opened UrlParams

  /** The name shown and stored for a participant who has not typed one. */
  const ANON := "Anon"

  /** `name || 'Anon'`. */
  function OrAnon(name: string): (r: string)
    ensures r != ""
    ensures name != "" ==> r == name
    ensures name == "" ==> r == ANON
  {
    if name == "" then ANON else name
  }

  /** `params.get('k') === adminKey && !!adminKey`. */
  function AdminCheck(params: Query, adminKey: string): (b: bool)
    ensures b <==> adminKey != "" && ValuesOf(params, "k") != [] && ValuesOf(params, "k")[0] == adminKey
  {
    Get(params, "k") == Some(adminKey) && adminKey != ""
  }

  /** With no admin key in the document nobody is admin, whatever the URL says. */
  lemma NoKeyNoAdmin(params: Query)
    ensures !AdminCheck(params, "")
  {
  }

  // ---------------------------------------------------------------------------
  // The roster updates made without a session document.
  // ---------------------------------------------------------------------------

  /** `prev.map(p => p.id === myId ? { ...p, name: name || 'Anon', value: v } : p)`. */
  function LocalSelect(s: seq<Participant>, myId: string, name: string, v: int): (r: seq<Participant>)
    ensures |r| == |s|
    ensures forall i :: 0 <= i < |s| ==> r[i].id == s[i].id
  {
    if s == [] then []
    else
      [if s[0].id == myId then s[0].(name := OrAnon(name), value := Some(v)) else s[0]]
      + LocalSelect(s[1..], myId, name, v)
  }

  /** Only entries with my id change, and they take my name and the vote; the length is kept. */
  lemma {:induction false} LocalSelectAt(s: seq<Participant>, myId: string, name: string, v: int)
    ensures |LocalSelect(s, myId, name, v)| == |s|
    ensures forall i :: 0 <= i < |s| ==>
      LocalSelect(s, myId, name, v)[i] == if s[i].id == myId then Participant(myId, OrAnon(name), Some(v)) else s[i]
  {
    if s != [] {
      LocalSelectAt(s[1..], myId, name, v);
      forall i | 0 < i < |s|
        ensures LocalSelect(s, myId, name, v)[i] == LocalSelect(s[1..], myId, name, v)[i - 1]
      { }
    }
  }

  /** `prev.map(p => p.id === myId ? { ...p, value: null } : p)`. */
  function LocalClear(s: seq<Participant>, myId: string): (r: seq<Participant>)
    ensures |r| == |s|
    ensures forall i :: 0 <= i < |s| ==> r[i].id == s[i].id && r[i].name == s[i].name
  {
    if s == [] then []
    else [if s[0].id == myId then s[0].(value := None) else s[0]] + LocalClear(s[1..], myId)
  }

  /** Only entries with my id change, and only their vote, which is cleared. */
  lemma {:induction false} LocalClearAt(s: seq<Participant>, myId: string)
    ensures |LocalClear(s, myId)| == |s|
    ensures forall i :: 0 <= i < |s| ==>
      LocalClear(s, myId)[i] == if s[i].id == myId then s[i].(value := None) else s[i]
  {
    if s != [] {
      LocalClearAt(s[1..], myId);
      forall i | 0 < i < |s| ensures LocalClear(s, myId)[i] == LocalClear(s[1..], myId)[i - 1] { }
    }
  }

  /** `participants.find(p => p.id === myId)?.value ?? null`. */
  function MyVote(s: seq<Participant>, myId: string): (v: Option<int>)
    ensures !HasId(s, myId) ==> v == None
    ensures HasId(s, myId) ==> v == s[FindIndex(s, myId)].value
  {
    var i := FindIndex(s, myId);
    if i >= 0 then s[i].value else None
  }

  /** After an upsert, my mirrored vote is the one just written. */
  lemma MyVoteAfterUpsert(s: seq<Participant>, p: Participant)
    ensures MyVote(Upserted(s, p), p.id) == p.value
  {
    var k := FindIndex(s, p.id);
    if k >= 0 {
      UpsertedPresent(s, p, k);
      var r := Upserted(s, p);
      assert r[k] == p;
      assert forall i :: 0 <= i < k ==> r[i].id != p.id;
    } else {
      UpsertedAbsent(s, p);
      var r := Upserted(s, p);
      assert r[|s|] == p;
      assert forall i :: 0 <= i < |s| ==> r[i].id != p.id;
    }
  }

  /** Offline, selecting a vote shows it as mine exactly when I am on the roster. */
  lemma MyVoteAfterLocalSelect(s: seq<Participant>, myId: string, name: string, v: int)
    ensures HasId(LocalSelect(s, myId, name, v), myId) == HasId(s, myId)
    ensures MyVote(LocalSelect(s, myId, name, v), myId) == if HasId(s, myId) then Some(v) else None
  {
    LocalSelectAt(s, myId, name, v);
    var r := LocalSelect(s, myId, name, v);
    assert forall i :: 0 <= i < |s| ==> r[i].id == s[i].id;
    assert FindIndex(r, myId) == FindIndex(s, myId) by {
      FindIndexSameIds(r, s, myId);
    }
  }

  /** Two rosters with the same id at every index agree on where an id first occurs. */
  lemma {:induction false} FindIndexSameIds(a: seq<Participant>, b: seq<Participant>, id: string)
    requires |a| == |b| && forall i :: 0 <= i < |a| ==> a[i].id == b[i].id
    ensures FindIndex(a, id) == FindIndex(b, id)
  {
    if a != [] {
      FindIndexSameIds(a[1..], b[1..], id);
    }
  }

  /** Offline, clearing my vote leaves nobody on the roster with a vote under my id. */
  lemma MyVoteAfterLocalClear(s: seq<Participant>, myId: string)
    ensures HasId(LocalClear(s, myId), myId) == HasId(s, myId)
    ensures MyVote(LocalClear(s, myId), myId) == None
  {
    LocalClearAt(s, myId);
    var r := LocalClear(s, myId);
    FindIndexSameIds(r, s, myId);
  }

  /** Offline, resetting clears every vote, mine included, and keeps membership. */
  lemma MyVoteAfterReset(s: seq<Participant>, myId: string)
    ensures HasId(Cleared(s), myId) == HasId(s, myId)
    ensures MyVote(Cleared(s), myId) == None
  {
    ClearedAt(s);
    FindIndexSameIds(Cleared(s), s, myId);
  }

  // ---------------------------------------------------------------------------
  // Card display.
  // ---------------------------------------------------------------------------

  /**
   * What a card shows: the vote; or `Masked`, rendered as a bullet (U+2022); or
   * `Blank`, rendered as an em dash (U+2014).
   */
  datatype Face = Shown(vote: int) | Masked | Blank

  /** `reveal ? (p.value ?? '—') : (p.value != null ? '•' : '—')`. */
  function CardFace(revealed: bool, value: Option<int>): (f: Face)
    ensures f.Shown? <==> revealed && value.Some?
    ensures f.Shown? ==> f.vote == value.value
    ensures f == Masked <==> !revealed && value.Some?
    ensures f == Blank <==> value == None
  {
    if revealed then (if value.Some? then Shown(value.value) else Blank)
    else (if value.Some? then Masked else Blank)
  }

  /** While votes are hidden, a card tells only whether someone voted, never what. */
  lemma HiddenCardsAgree(a: int, b: int)
    ensures CardFace(false, Some(a)) == CardFace(false, Some(b))
  {
  }

  // ---------------------------------------------------------------------------
  // Initialisation of a newly bound document.
  // ---------------------------------------------------------------------------

  /** The story guard as written: it tests the story of the `getState()` snapshot. */
  predicate StoryGuardAsWritten(st: SessionState) {
    st.story == ""
  }

  /**
   * The guard as written never holds: the snapshot's story is never empty, so the
   * block never seeds the story, even into a document whose text is empty.
   */
  lemma StoryGuardAsWrittenNeverHolds(
    parts: seq<Participant>, text: string, revealed: Option<bool>, admin: Option<string>)
    ensures !StoryGuardAsWritten(Snapshot(parts, text, revealed, admin))
    ensures text == "" ==> Snapshot(parts, text, revealed, admin).story == DEFAULT_STORY
  {
  }

  /**
   * The initialisation block as written: a fresh admin key when the snapshot shows
   * none, and the story seeded only under the snapshot's story test, which never
   * holds. So the text of the document is left as it was, even when it is empty.
   */
  method InitializeDocAsWritten(d: SessionDoc, freshKey: string, localStory: string)
    modifies d
    ensures d.parts == old(d.parts) && d.revealed == old(d.revealed)
    ensures old(d.GetState().adminKey) == "" ==> d.admin == Some(freshKey)
    ensures old(d.GetState().adminKey) != "" ==> d.admin == old(d.admin)
    ensures d.text == old(d.text)
  {
    var st := d.GetState();
    if st.adminKey == "" {
      d.SetAdminKey(freshKey);
    }
    if StoryGuardAsWritten(st) {
      // The seeding call `SetStory(OrUntitled(localStory))` of this branch is unreachable.
      assert false;
    }
  }

  /**
   * The same block with the story test corrected: writes a fresh admin key when the
   * document has none, and seeds the story when
   * the document's text is empty (the story test corrected to look at the raw text).
   * A non-empty admin key or story is never overwritten.
   */
  method InitializeDoc(d: SessionDoc, freshKey: string, localStory: string)
    modifies d
    ensures d.parts == old(d.parts) && d.revealed == old(d.revealed)
    ensures old(d.GetState().adminKey) == "" ==> d.admin == Some(freshKey)
    ensures old(d.GetState().adminKey) != "" ==> d.admin == old(d.admin)
    ensures old(d.text) == "" ==> d.text == OrUntitled(localStory)
    ensures old(d.text) != "" ==> d.text == old(d.text)
  {
    var st := d.GetState();
    var textEmpty := d.text == "";
    if st.adminKey == "" {
      d.SetAdminKey(freshKey);
    }
    if textEmpty {
      d.SetStory(OrUntitled(localStory));
    }
  }

  // ---------------------------------------------------------------------------
  // The page's state and its actions.
  // ---------------------------------------------------------------------------

  /** The page's local state, and the document its actions are bound to (null when none). */
  class Page {
    var params: Query
    var name: string
    var story: string
    var revealed: bool
    var adminKey: string
    var selected: Option<int>
    var participants: seq<Participant>
    var myId: string
    var doc: SessionDoc?

    /** The initial state, from the URL's query and a freshly generated id. */
    constructor (search: Query, freshId: string)
      ensures params == search && name == Param(search, "n") && myId == freshId
      ensures story == "" && !revealed && adminKey == "" && selected == None
      ensures participants == [] && doc == null
    {
      params, name, myId := search, Param(search, "n"), freshId;
      story, revealed, adminKey, selected := "", false, "", None;
      participants, doc := [], null;
    }

    /** `params.get('s') || ''`. */
    function SessionId(): (r: string)
      reads this`params
      ensures ValuesOf(params, "s") == [] ==> r == ""
      ensures ValuesOf(params, "s") != [] ==> r == ValuesOf(params, "s")[0]
    {
      Param(params, "s")
    }

    /** `isAdmin`: the URL's first `k` value is the document's admin key, which is set. */
    function IsAdmin(): (b: bool)
      reads this`params, this`adminKey
      ensures b <==> adminKey != "" && ValuesOf(params, "k") != [] && ValuesOf(params, "k")[0] == adminKey
    {
      AdminCheck(params, adminKey)
    }

    /** `participants.some(p => p.id === myId)`. */
    function Joined(): (b: bool)
      reads this`participants, this`myId
      ensures b <==> exists i :: 0 <= i < |participants| && participants[i].id == myId
    {
      HasId(participants, myId)
    }

    /** A session is open and its document's actions are bound. */
    predicate Online()
      reads this`params, this`doc
    {
      SessionId() != "" && doc != null
    }

    /** The page mirrors the document's view. */
    predicate Mirrors(d: SessionDoc)
      reads this, d
    {
      var st := d.GetState();
      story == st.story && revealed == st.revealed && adminKey == st.adminKey
      && participants == st.participants && selected == MyVote(st.participants, myId)
    }

    /** `setParams`: each entry deletes or sets its key; the page takes the new query. */
    method SetParams(entries: seq<Entry>)
      modifies this`params
      ensures params == ApplyEntries(old(params), entries)
      ensures forall k :: (forall i :: 0 <= i < |entries| ==> entries[i].0 != k) ==>
        ValuesOf(params, k) == ValuesOf(old(params), k)
      ensures DistinctKeys(entries) ==>
        forall i :: 0 <= i < |entries| ==> ValuesOf(params, entries[i].0) == Outcome(entries[i])
      ensures forall ks :: (forall i :: 0 <= i < |entries| ==> entries[i].0 in ks) ==>
        Untouched(params, ks) == Untouched(old(params), ks)
    {
      var next := UpdateParams(params, entries);
      params := next;
    }

    /** `updateFromDoc`: copy the document's view into the page. */
    method Refresh(d: SessionDoc)
      modifies this`story, this`revealed, this`adminKey, this`participants, this`selected
      ensures Mirrors(d)
    {
      var st := d.GetState();
      story, revealed, adminKey, participants := st.story, st.revealed, st.adminKey, st.participants;
      selected := MyVote(st.participants, myId);
    }

    /**
     * Binding a session: a new, empty document is created, initialised as written,
     * bound to the page's actions and mirrored. The story is never seeded, so the
     * page shows the default title. Without a session id nothing happens.
     */
    method Bind(freshKey: string)
      modifies this`doc, this`story, this`revealed, this`adminKey, this`participants, this`selected
      ensures SessionId() == "" ==> (
        doc == old(doc) && story == old(story) && revealed == old(revealed)
        && adminKey == old(adminKey) && participants == old(participants) && selected == old(selected))
      ensures SessionId() != "" ==> (
        doc != null && fresh(doc) && Online() && Mirrors(doc)
        && doc.parts == [] && doc.revealed == None && doc.admin == Some(freshKey)
        && doc.text == "" && story == DEFAULT_STORY)
    {
      if SessionId() == "" {
        return;
      }
      var d := new SessionDoc();
      InitializeDocAsWritten(d, freshKey, story);
      doc := d;
      Refresh(d);
    }

    /** `selectValue(v)`. */
    method SelectValue(v: int)
      modifies this`selected, this`participants, doc
      ensures selected == Some(v)
      ensures Online() ==> (
        participants == old(participants)
        && doc.parts == Upserted(old(doc.parts), Participant(myId, OrAnon(name), Some(v)))
        && doc.text == old(doc.text) && doc.revealed == old(doc.revealed) && doc.admin == old(doc.admin))
      ensures !Online() ==> (
        participants == LocalSelect(old(participants), myId, name, v) && (doc != null ==> unchanged(doc)))
    {
      selected := Some(v);
      if SessionId() != "" && doc != null {
        doc.UpsertParticipant(Participant(myId, OrAnon(name), Some(v)));
      } else {
        participants := LocalSelect(participants, myId, name, v);
      }
    }

    /** `clearVote()`. */
    method ClearVote()
      modifies this`selected, this`participants, doc
      ensures selected == None
      ensures Online() ==> (
        participants == old(participants)
        && doc.parts == Upserted(old(doc.parts), Participant(myId, OrAnon(name), None))
        && doc.text == old(doc.text) && doc.revealed == old(doc.revealed) && doc.admin == old(doc.admin))
      ensures !Online() ==> (
        participants == LocalClear(old(participants), myId) && (doc != null ==> unchanged(doc)))
    {
      selected := None;
      if SessionId() != "" && doc != null {
        doc.UpsertParticipant(Participant(myId, OrAnon(name), None));
      } else {
        participants := LocalClear(participants, myId);
      }
    }

    /** `doReveal(r)`: admin only; local flag without a session, else the document's. */
    method DoReveal(r: bool)
      modifies this`revealed, doc
      ensures !IsAdmin() ==> revealed == old(revealed) && (doc != null ==> unchanged(doc))
      ensures IsAdmin() && SessionId() == "" ==> revealed == r && (doc != null ==> unchanged(doc))
      ensures IsAdmin() && SessionId() != "" ==> revealed == old(revealed)
      ensures IsAdmin() && SessionId() != "" && doc != null ==> (
        doc.revealed == Some(r) && doc.parts == old(doc.parts)
        && doc.text == old(doc.text) && doc.admin == old(doc.admin))
    {
      if !IsAdmin() {
        return;
      }
      if SessionId() == "" {
        revealed := r;
        return;
      }
      if doc != null {
        doc.SetReveal(r);
      }
    }

    /** `resetVotes()`: admin only; clears every vote and hides the cards. */
    method ResetVotes()
      modifies this`participants, this`revealed, doc
      ensures !IsAdmin() ==> (
        participants == old(participants) && revealed == old(revealed) && (doc != null ==> unchanged(doc)))
      ensures IsAdmin() && Online() ==> (
        participants == old(participants) && revealed == old(revealed)
        && doc.parts == Cleared(old(doc.parts)) && doc.revealed == Some(false)
        && doc.text == old(doc.text) && doc.admin == old(doc.admin))
      ensures IsAdmin() && !Online() ==> (
        participants == Cleared(old(participants)) && !revealed && (doc != null ==> unchanged(doc)))
    {
      if !IsAdmin() {
        return;
      }
      if SessionId() != "" && doc != null {
        doc.ClearVotes();
        doc.SetReveal(false);
      } else {
        participants := Cleared(participants);
        revealed := false;
      }
    }

    /** `updateStory(s)`: admin only; an empty title becomes the default one. */
    method UpdateStory(newStory: string)
      modifies this`story, doc
      ensures !IsAdmin() ==> story == old(story) && (doc != null ==> unchanged(doc))
      ensures IsAdmin() && SessionId() == "" ==> (
        story == OrUntitled(newStory) && (doc != null ==> unchanged(doc)))
      ensures IsAdmin() && SessionId() != "" ==> story == old(story)
      ensures IsAdmin() && SessionId() != "" && doc != null ==> (
        doc.text == OrUntitled(newStory) && doc.parts == old(doc.parts)
        && doc.revealed == old(doc.revealed) && doc.admin == old(doc.admin))
    {
      if !IsAdmin() {
        return;
      }
      if SessionId() == "" {
        story := OrUntitled(newStory);
        return;
      }
      if doc != null {
        doc.SetStory(OrUntitled(newStory));
      }
    }
  }
}

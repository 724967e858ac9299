/**
 * The roster of a voting session: an ordered list of participants, each keyed by
 * an opaque `id`, with an optional vote. The functions here are the reference
 * definitions that the document operations (module Realtime) and the UI rules
 * (module App) are proved against.
 */
module Participants {
  import opened Wrappers

  /** A participant record; `value` is the vote, `None` standing for `null`. */
  datatype Participant = Participant(id: string, name: string, value: Option<int>)

  /** No two entries share an id. */
  predicate DistinctIds(s: seq<Participant>) {
    forall i, j :: 0 <= i < j < |s| ==> s[i].id != s[j].id
  }

  /** `findIndex(x => x.id === id)`: the index of the first entry with that id, or -1. */
  function FindIndex(s: seq<Participant>, id: string): (r: int)
    ensures -1 <= r < |s|
    ensures 0 <= r ==> s[r].id == id && forall j :: 0 <= j < r ==> s[j].id != id
    ensures r == -1 <==> forall j :: 0 <= j < |s| ==> s[j].id != id
  {
    if s == [] then -1
    else if s[0].id == id then 0
    else
      var k := FindIndex(s[1..], id);
      if k == -1 then -1 else k + 1
  }

  /** `some(p => p.id === id)`: whether some entry has that id. */
  function HasId(s: seq<Participant>, id: string): (b: bool)
    ensures b <==> exists i :: 0 <= i < |s| && s[i].id == id
  {
    if s == [] then false
    else if s[0].id == id then true
    else
      var rest := HasId(s[1..], id);
      assert rest ==> exists i :: 0 <= i < |s| && s[i].id == id by {
        if rest {
          var i :| 0 <= i < |s| - 1 && s[1..][i].id == id;
          assert s[i + 1].id == id;
        }
      }
      rest
  }

  // ---------------------------------------------------------------------------
  // Upsert: replace the first entry with the same id, or append.
  // ---------------------------------------------------------------------------

  /** Reference definition of an upsert, one entry at a time. */
  function Upserted(s: seq<Participant>, p: Participant): seq<Participant>
  {
    if s == [] then [p]
    else if s[0].id == p.id then [p] + s[1..]
    else [s[0]] + Upserted(s[1..], p)
  }

  /** With the id present, its first entry is replaced in place: same length, rest untouched. */
  lemma {:induction false} UpsertedPresent(s: seq<Participant>, p: Participant, i: nat)
    requires FindIndex(s, p.id) == i
    ensures Upserted(s, p) == s[i := p]
    ensures |Upserted(s, p)| == |s|
  {
    if s[0].id != p.id {
      assert FindIndex(s[1..], p.id) == i - 1;
      UpsertedPresent(s[1..], p, i - 1);
      assert [s[0]] + s[1..][i - 1 := p] == s[i := p];
    }
  }

  /** With the id absent, the entry is appended after an unchanged prefix. */
  lemma {:induction false} UpsertedAbsent(s: seq<Participant>, p: Participant)
    requires FindIndex(s, p.id) == -1
    ensures Upserted(s, p) == s + [p]
    ensures |Upserted(s, p)| == |s| + 1
  {
    if s != [] {
      assert FindIndex(s[1..], p.id) == -1;
      UpsertedAbsent(s[1..], p);
      assert [s[0]] + (s[1..] + [p]) == s + [p];
    }
  }

  /** Distinct ids stay distinct, and exactly one entry carries `p.id`: `p` itself. */
  lemma UpsertedDistinct(s: seq<Participant>, p: Participant)
    requires DistinctIds(s)
    ensures DistinctIds(Upserted(s, p))
    ensures HasId(Upserted(s, p), p.id)
    ensures forall i :: 0 <= i < |Upserted(s, p)| && Upserted(s, p)[i].id == p.id ==> Upserted(s, p)[i] == p
  {
    var k := FindIndex(s, p.id);
    var r := Upserted(s, p);
    if k >= 0 {
      UpsertedPresent(s, p, k);
      assert r[k] == p;
    } else {
      UpsertedAbsent(s, p);
      assert r[|s|] == p;
    }
  }

  /** Upserting the same id twice leaves only the second record: no duplicate entry. */
  lemma {:induction false} UpsertedTwice(s: seq<Participant>, p: Participant, q: Participant)
    requires p.id == q.id
    ensures Upserted(Upserted(s, p), q) == Upserted(s, q)
  {
    if s != [] && s[0].id != p.id {
      UpsertedTwice(s[1..], p, q);
      assert ([s[0]] + Upserted(s[1..], p))[1..] == Upserted(s[1..], p);
    }
  }

  // ---------------------------------------------------------------------------
  // Remove: delete the first entry with the id.
  // ---------------------------------------------------------------------------

  /** Reference definition of a removal of the first match. */
  function Removed(s: seq<Participant>, id: string): seq<Participant>
  {
    if s == [] then []
    else if s[0].id == id then s[1..]
    else [s[0]] + Removed(s[1..], id)
  }

  /** Removing an absent id changes nothing. */
  lemma {:induction false} RemovedAbsent(s: seq<Participant>, id: string)
    requires FindIndex(s, id) == -1
    ensures Removed(s, id) == s
  {
    if s != [] {
      assert FindIndex(s[1..], id) == -1;
      RemovedAbsent(s[1..], id);
    }
  }

  /** Removing a present id deletes its first entry only; the others keep their order. */
  lemma {:induction false} RemovedPresent(s: seq<Participant>, id: string, i: nat)
    requires FindIndex(s, id) == i
    ensures Removed(s, id) == s[..i] + s[i + 1..]
    ensures |Removed(s, id)| == |s| - 1
  {
    if s[0].id != id {
      assert FindIndex(s[1..], id) == i - 1;
      RemovedPresent(s[1..], id, i - 1);
      assert s[1..][..i - 1] == s[1..i];
      assert s[1..][i..] == s[i + 1..];
      assert [s[0]] + s[1..i] == s[..i];
      assert [s[0]] + (s[1..i] + s[i + 1..]) == ([s[0]] + s[1..i]) + s[i + 1..];
    }
  }

  /** Where each entry of a list with index `k` deleted comes from. */
  lemma DeletedAt(s: seq<Participant>, k: nat, j: nat)
    requires k < |s| && j < |s| - 1
    ensures (s[..k] + s[k + 1..])[j] == s[if j < k then j else j + 1]
  {
  }

  /** With distinct ids, a removal leaves them distinct and the id gone. */
  lemma RemovedDistinct(s: seq<Participant>, id: string)
    requires DistinctIds(s)
    ensures DistinctIds(Removed(s, id))
    ensures !HasId(Removed(s, id), id)
  {
    var k := FindIndex(s, id);
    if k >= 0 {
      RemovedPresent(s, id, k);
      var r := Removed(s, id);
      forall i | 0 <= i < |r| ensures r[i].id != id {
        DeletedAt(s, k, i);
      }
      forall i, j | 0 <= i < j < |r| ensures r[i].id != r[j].id {
        DeletedAt(s, k, i);
        DeletedAt(s, k, j);
      }
    } else {
      RemovedAbsent(s, id);
    }
  }

  /** Joining with a new id and then leaving restores the roster. */
  lemma {:induction false} RemovedUpserted(s: seq<Participant>, p: Participant)
    requires FindIndex(s, p.id) == -1
    ensures Removed(Upserted(s, p), p.id) == s
  {
    if s != [] {
      assert FindIndex(s[1..], p.id) == -1;
      RemovedUpserted(s[1..], p);
    }
  }

  // ---------------------------------------------------------------------------
  // Clear: `map(p => ({ ...p, value: null }))`.
  // ---------------------------------------------------------------------------

  /** Every entry with its vote cleared. */
  function Cleared(s: seq<Participant>): (r: seq<Participant>)
    ensures |r| == |s|
    ensures forall i :: 0 <= i < |s| ==> r[i].id == s[i].id
  {
    if s == [] then [] else [s[0].(value := None)] + Cleared(s[1..])
  }

  /** Same length; each index keeps its id and name and has no vote. */
  lemma {:induction false} ClearedAt(s: seq<Participant>)
    ensures |Cleared(s)| == |s|
    ensures forall i :: 0 <= i < |s| ==>
      Cleared(s)[i].id == s[i].id && Cleared(s)[i].name == s[i].name && Cleared(s)[i].value == None
  {
    if s != [] {
      ClearedAt(s[1..]);
      forall i | 0 < i < |s| ensures Cleared(s)[i] == Cleared(s[1..])[i - 1] { }
    }
  }

  /** Clearing twice is clearing once. */
  lemma {:induction false} ClearedIdempotent(s: seq<Participant>)
    ensures Cleared(Cleared(s)) == Cleared(s)
  {
    if s != [] {
      ClearedIdempotent(s[1..]);
      assert ([s[0].(value := None)] + Cleared(s[1..]))[1..] == Cleared(s[1..]);
    }
  }

  /** Clearing keeps the ids, hence their distinctness. */
  lemma ClearedDistinct(s: seq<Participant>)
    requires DistinctIds(s)
    ensures DistinctIds(Cleared(s))
  {
    ClearedAt(s);
  }
}

/**
 * URL query parameters as a `URLSearchParams` object holds them: an ordered list of
 * name-value pairs in which a name may repeat. `Deleted` and `SetTo` follow the
 * `delete` and `set` operations of the URLSearchParams class in the WHATWG URL
 * Standard; `UpdateParams` is the entry loop of the page's `setParams`.
 */
module UrlParams {
  import opened Wrappers

  type Query = seq<(string, string)>

  /** One entry of the record passed to `setParams`; `None` stands for `null` or `undefined`. */
  type Entry = (string, Option<string>)

  /** The values stored under `k`, in order. */
  function ValuesOf(q: Query, k: string): seq<string>
  {
    if q == [] then []
    else (if q[0].0 == k then [q[0].1] else []) + ValuesOf(q[1..], k)
  }

  lemma {:induction false} ValuesOfAppend(a: Query, b: Query, k: string)
    ensures ValuesOf(a + b, k) == ValuesOf(a, k) + ValuesOf(b, k)
  {
    if a != [] {
      assert (a + b)[1..] == a[1..] + b;
      ValuesOfAppend(a[1..], b, k);
    } else {
      assert a + b == b;
    }
  }

  /** `get(k)`: the first value stored under `k`, or null. */
  function Get(q: Query, k: string): (r: Option<string>)
    ensures r == None <==> ValuesOf(q, k) == []
    ensures r.Some? ==> r.value == ValuesOf(q, k)[0]
  {
    if q == [] then None
    else if q[0].0 == k then Some(q[0].1)
    else Get(q[1..], k)
  }

  /** `get(k) || ''`. */
  function Param(q: Query, k: string): (r: string)
    ensures ValuesOf(q, k) == [] ==> r == ""
    ensures ValuesOf(q, k) != [] ==> r == ValuesOf(q, k)[0]
  {
    Get(q, k).GetOr("")
  }

  /** `delete(k)`: every pair named `k` is removed. */
  function Deleted(q: Query, k: string): (r: Query)
    ensures ValuesOf(r, k) == []
    ensures forall j :: j != k ==> ValuesOf(r, j) == ValuesOf(q, j)
  {
    if q == [] then []
    else if q[0].0 == k then Deleted(q[1..], k)
    else [q[0]] + Deleted(q[1..], k)
  }

  /** The first pair named `k` takes the value `v`; the later ones are removed. */
  function SetFirst(q: Query, k: string, v: string): (r: Query)
    requires ValuesOf(q, k) != []
    ensures ValuesOf(r, k) == [v]
    ensures forall j :: j != k ==> ValuesOf(r, j) == ValuesOf(q, j)
  {
    if q[0].0 == k then [(k, v)] + Deleted(q[1..], k)
    else [q[0]] + SetFirst(q[1..], k, v)
  }

  /** `set(k, v)`: overwrite the first pair named `k` and drop the others, or append one. */
  function SetTo(q: Query, k: string, v: string): (r: Query)
    ensures ValuesOf(r, k) == [v]
    ensures forall j :: j != k ==> ValuesOf(r, j) == ValuesOf(q, j)
  {
    if ValuesOf(q, k) == [] then
      ValuesOfAppend(q, [(k, v)], k);
      assert forall j :: j != k ==> ValuesOf(q + [(k, v)], j) == ValuesOf(q, j) by {
        forall j | j != k ensures ValuesOf(q + [(k, v)], j) == ValuesOf(q, j) {
          ValuesOfAppend(q, [(k, v)], j);
          assert ValuesOf([(k, v)], j) == [];
        }
      }
      q + [(k, v)]
    else SetFirst(q, k, v)
  }

  /** Whether an entry asks for its key to be removed: `v == null || v === ''`. */
  predicate Clears(e: Entry) {
    e.1 == None || e.1 == Some("")
  }

  /** What an entry leaves under its own key. */
  function Outcome(e: Entry): seq<string> {
    if Clears(e) then [] else [e.1.value]
  }

  /** One entry of the record: delete its key, or set it. */
  function ApplyEntry(q: Query, e: Entry): (r: Query)
    ensures ValuesOf(r, e.0) == Outcome(e)
    ensures forall j :: j != e.0 ==> ValuesOf(r, j) == ValuesOf(q, j)
  {
    if Clears(e) then Deleted(q, e.0) else SetTo(q, e.0, e.1.value)
  }

  /** The entries applied one after another, in order. */
  function ApplyEntries(q: Query, es: seq<Entry>): Query
  {
    if es == [] then q else ApplyEntry(ApplyEntries(q, es[..|es| - 1]), es[|es| - 1])
  }

  /** A record's keys are distinct. */
  predicate DistinctKeys(es: seq<Entry>) {
    forall i, j :: 0 <= i < j < |es| ==> es[i].0 != es[j].0
  }

  lemma DistinctKeysPrefix(es: seq<Entry>, n: nat)
    requires DistinctKeys(es) && n <= |es|
    ensures DistinctKeys(es[..n])
  {
    forall a, b | 0 <= a < b < n ensures es[..n][a].0 != es[..n][b].0 {
      assert es[..n][a] == es[a] && es[..n][b] == es[b];
    }
  }

  /** The pairs whose names are not in `ks`, in their original order. */
  function Untouched(q: Query, ks: set<string>): Query
  {
    if q == [] then []
    else (if q[0].0 in ks then [] else [q[0]]) + Untouched(q[1..], ks)
  }

  lemma {:induction false} UntouchedAppend(a: Query, b: Query, ks: set<string>)
    ensures Untouched(a + b, ks) == Untouched(a, ks) + Untouched(b, ks)
  {
    if a != [] {
      assert (a + b)[1..] == a[1..] + b;
      UntouchedAppend(a[1..], b, ks);
    } else {
      assert a + b == b;
    }
  }

  lemma {:induction false} UntouchedDeleted(q: Query, k: string, ks: set<string>)
    requires k in ks
    ensures Untouched(Deleted(q, k), ks) == Untouched(q, ks)
  {
    if q != [] {
      UntouchedDeleted(q[1..], k, ks);
      if q[0].0 != k {
        assert ([q[0]] + Deleted(q[1..], k))[1..] == Deleted(q[1..], k);
      }
    }
  }

  lemma {:induction false} UntouchedSetFirst(q: Query, k: string, v: string, ks: set<string>)
    requires k in ks && ValuesOf(q, k) != []
    ensures Untouched(SetFirst(q, k, v), ks) == Untouched(q, ks)
  {
    if q[0].0 == k {
      UntouchedDeleted(q[1..], k, ks);
      assert ([(k, v)] + Deleted(q[1..], k))[1..] == Deleted(q[1..], k);
    } else {
      UntouchedSetFirst(q[1..], k, v, ks);
      assert ([q[0]] + SetFirst(q[1..], k, v))[1..] == SetFirst(q[1..], k, v);
    }
  }

  lemma UntouchedApplyEntry(q: Query, e: Entry, ks: set<string>)
    requires e.0 in ks
    ensures Untouched(ApplyEntry(q, e), ks) == Untouched(q, ks)
  {
    if Clears(e) {
      UntouchedDeleted(q, e.0, ks);
    } else if ValuesOf(q, e.0) == [] {
      UntouchedAppend(q, [(e.0, e.1.value)], ks);
    } else {
      UntouchedSetFirst(q, e.0, e.1.value, ks);
    }
  }

  /** Pairs under keys no entry mentions survive, values and relative order intact. */
  lemma {:induction false} ApplyEntriesUntouched(q: Query, es: seq<Entry>, ks: set<string>)
    requires forall i :: 0 <= i < |es| ==> es[i].0 in ks
    ensures Untouched(ApplyEntries(q, es), ks) == Untouched(q, ks)
  {
    if es != [] {
      ApplyEntriesUntouched(q, es[..|es| - 1], ks);
      UntouchedApplyEntry(ApplyEntries(q, es[..|es| - 1]), es[|es| - 1], ks);
    }
  }

  /** A key no entry mentions keeps its values. */
  lemma {:induction false} ApplyEntriesUnmentioned(q: Query, es: seq<Entry>, k: string)
    requires forall i :: 0 <= i < |es| ==> es[i].0 != k
    ensures ValuesOf(ApplyEntries(q, es), k) == ValuesOf(q, k)
  {
    if es != [] {
      ApplyEntriesUnmentioned(q, es[..|es| - 1], k);
    }
  }

  /** With distinct keys, each entry's key ends up deleted, or holding exactly its value. */
  lemma {:induction false} ApplyEntriesMentioned(q: Query, es: seq<Entry>, i: nat)
    requires DistinctKeys(es) && i < |es|
    ensures ValuesOf(ApplyEntries(q, es), es[i].0) == Outcome(es[i])
  {
    var n := |es| - 1;
    if i < n {
      DistinctKeysPrefix(es, n);
      ApplyEntriesMentioned(q, es[..n], i);
      assert es[..n][i] == es[i];
      assert es[n].0 != es[i].0;
    }
  }

  /** The `for` loop of `setParams` over the record's entries, starting from `current`. */
  method UpdateParams(current: Query, entries: seq<Entry>) returns (next: Query)
    ensures next == ApplyEntries(current, entries)
    ensures forall k :: (forall i :: 0 <= i < |entries| ==> entries[i].0 != k) ==>
      ValuesOf(next, k) == ValuesOf(current, k)
    ensures DistinctKeys(entries) ==>
      forall i :: 0 <= i < |entries| ==> ValuesOf(next, entries[i].0) == Outcome(entries[i])
    ensures forall ks :: (forall i :: 0 <= i < |entries| ==> entries[i].0 in ks) ==>
      Untouched(next, ks) == Untouched(current, ks)
  {
    next := current;
    for i := 0 to |entries|
      invariant next == ApplyEntries(current, entries[..i])
    {
      var (k, v) := entries[i];
      if v == None || v == Some("") {
        next := Deleted(next, k);
      } else {
        next := SetTo(next, k, v.value);
      }
      assert entries[..i + 1][..i] == entries[..i];
    }
    assert entries[..|entries|] == entries;
    forall k | forall i :: 0 <= i < |entries| ==> entries[i].0 != k
      ensures ValuesOf(next, k) == ValuesOf(current, k)
    {
      ApplyEntriesUnmentioned(current, entries, k);
    }
    if DistinctKeys(entries) {
      forall i | 0 <= i < |entries| ensures ValuesOf(next, entries[i].0) == Outcome(entries[i]) {
        ApplyEntriesMentioned(current, entries, i);
      }
    }
    forall ks | forall i :: 0 <= i < |entries| ==> entries[i].0 in ks
      ensures Untouched(next, ks) == Untouched(current, ks)
    {
      ApplyEntriesUntouched(current, entries, ks);
    }
  }
}

# Planning poker: session document and page rules

A model of the logic of a small planning-poker web page. Several browser tabs share one
session document. The document holds a story title, a reveal flag, an admin key and a
roster of participants, each with an optional vote. The page lets people join, vote and
clear their vote. The admin can reveal the cards, reset votes and rename the story.

The model covers two source files.

- `src/lib/realtime.ts`: the operations on one replica of the shared document. The
  document is the class `Realtime.SessionDoc`. Its fields are the raw contents of the
  four shared structures: the participant array, the story text, the reveal map entry
  and the admin map entry. The last two are `None` until written. Each mutator performs
  the same delete and insert steps as the source (`Realtime.Delete` and `Realtime.Insert`
  model the local effect of those calls). Each participant mutator is proved against a
  reference definition in module `Participants` (`Upserted`, `Removed`, `Cleared`).
  `SetStory`, `SetReveal` and `SetAdminKey` state their effect on their field directly. The lemmas there
  state what those definitions promise: position, length, order, and distinct ids kept.
  `getState` is the function `Realtime.Snapshot`, with its defaults.
- `src/pages/App.tsx`: the page's decision rules, in module `App`. The page state is the
  class `App.Page`. Its `doc` field is the document the page's actions are bound to, and
  is null while none is bound. Query parameters are modelled in module `UrlParams` as
  `URLSearchParams` holds them: a list of name-value pairs, updated as the URLSearchParams
  class of the WHATWG URL Standard says for `set` and `delete`. The `for` loop of
  `setParams` is the method `UrlParams.UpdateParams`.

The code adds no merge rules of its own. There are no last-writer-wins registers, no
first-writer-wins admin key and no tombstones. It makes plain local edits on a shared
CRDT library document. The model covers only the local, sequential effect of each
operation.

The check at `src/pages/App.tsx:53` is a local guard, not a guarantee between replicas.
It always runs against a document the page has just created (`App.Page.Bind`). So on that
replica the admin key is always seen as unset and a fresh key is always written. The story
test at `src/pages/App.tsx:54` never holds (see "## Findings"). `App.Page.Bind` runs the
block as written (`App.InitializeDocAsWritten`) and then `updateFromDoc`. It gives the state
at that point, before any later write: the text is empty and the page shows the default
title. Later writes can change that state. A local story exists at that point only on the
tab that creates the session, because the story field is shown only while there is no
session (`src/pages/App.tsx:233-236`). On that tab, `createSession` sets a timer
(`src/pages/App.tsx:128-133`) that writes the URL's admin key over the key from line 53.
The timer then writes the typed story, or the default, into the text through the bound
actions. `App.InitializeDoc` is the corrected block, kept beside the block as written.

`reveal` is a reserved word of Dafny, so the reveal flag is called `revealed` throughout.

## Model

| member | source | states |
|---|---|---|
| Participants.FindIndex | src/lib/realtime.ts:46 | the result is -1 exactly when no entry has the id; otherwise it is the index of the first entry with that id |
| Participants.HasId | src/pages/App.tsx:44 | `joined`: true exactly when some entry has the id |
| Participants.UpsertedPresent | src/lib/realtime.ts:44-49 | with the id present, its first entry is replaced by `p` at the same index; the length and every other entry are unchanged |
| Participants.UpsertedAbsent | src/lib/realtime.ts:46-48 | with the id absent, `p` is appended after the unchanged list; the length grows by one |
| Participants.UpsertedDistinct | src/lib/realtime.ts:44-49 | distinct ids stay distinct after an upsert, and the one entry with `p.id` is `p` |
| Participants.UpsertedTwice | src/lib/realtime.ts:44-49 | upserting two records with the same id equals upserting only the second, so re-voting never yields two entries |
| Participants.RemovedAbsent | src/lib/realtime.ts:51-55 | removing an absent id leaves the list unchanged |
| Participants.RemovedPresent | src/lib/realtime.ts:51-55 | removing a present id deletes only its first entry; length drops by one and the remaining entries keep their order |
| Participants.RemovedDistinct | src/lib/realtime.ts:51-55 | with distinct ids, the result has distinct ids and no entry with the removed id |
| Participants.RemovedUpserted | src/lib/realtime.ts:44-55 | upserting a new id and then removing it restores the list |
| Participants.Cleared | src/lib/realtime.ts:59 | the copy with every vote null keeps the length and the id at each index |
| Participants.ClearedAt | src/lib/realtime.ts:57-62 | clearing keeps the length, and each index keeps its id and name with no vote |
| Participants.ClearedIdempotent | src/lib/realtime.ts:57-62 | clearing twice equals clearing once |
| Participants.ClearedDistinct | src/lib/realtime.ts:57-62 | clearing keeps distinct ids distinct |
| Realtime.OrUntitled | src/lib/realtime.ts:24 | never empty; a non-empty title is kept, an empty one becomes `Untitled Story` |
| Realtime.Snapshot | src/lib/realtime.ts:22-29 | story is the text, or `Untitled Story` when the text is empty; reveal is true only when set to true; adminKey is the stored key, or empty when unset; participants are the array as is |
| Realtime.SessionDoc.GetState | src/lib/realtime.ts:22-29 | the story is the text, or `Untitled Story` when the text is empty; reveal is true only when set to true; the admin key is the stored one, or empty when unset; the participants are the array as is |
| Realtime.Delete | src/lib/realtime.ts:47 | local effect of a delete: `length` elements from `index` are removed and the rest close up |
| Realtime.Insert | src/lib/realtime.ts:48 | local effect of an insert: the items appear at `index`, before the shifted remainder |
| Realtime.SessionDoc.constructor | src/lib/realtime.ts:13-20 | a new document is empty: no participants, empty text, reveal and admin key unset |
| Realtime.SessionDoc.SetStory | src/lib/realtime.ts:31-34 | after deleting all text and inserting `val`, the text is exactly `val`; nothing else changes |
| Realtime.SessionDoc.SetReveal | src/lib/realtime.ts:36-38 | only the reveal entry changes, to `val` |
| Realtime.SessionDoc.SetAdminKey | src/lib/realtime.ts:40-42 | only the admin entry changes, to `val` |
| Realtime.SessionDoc.UpsertParticipant | src/lib/realtime.ts:44-49 | the array becomes the upsert of `p`: replaced at the first matching index, or appended; nothing else changes |
| Realtime.SessionDoc.RemoveParticipant | src/lib/realtime.ts:51-55 | the array loses its first entry with the id, or is unchanged when there is none; nothing else changes |
| Realtime.SessionDoc.ClearVotes | src/lib/realtime.ts:57-62 | the array is rebuilt with every vote null, and ids, names and length are kept; nothing else changes |
| UrlParams.Get | src/pages/App.tsx:33 | `get` yields null exactly when no pair has the name, and otherwise the first value under it |
| UrlParams.Param | src/pages/App.tsx:33-34 | `get(k)` or the empty string: empty when no pair has the name, otherwise the first value under it |
| UrlParams.Deleted | src/pages/App.tsx:20 | `delete(k)` leaves no value under `k` and every other name's values unchanged |
| UrlParams.SetTo | src/pages/App.tsx:21 | `set(k, v)` leaves exactly the value `v` under `k` and every other name's values unchanged |
| UrlParams.ApplyEntry | src/pages/App.tsx:20-21 | a null or empty entry deletes its key, and any other entry sets it to its value |
| UrlParams.ApplyEntriesUntouched | src/pages/App.tsx:19-22 | pairs under names no entry mentions survive the loop, with values and relative order intact |
| UrlParams.ApplyEntriesUnmentioned | src/pages/App.tsx:19-22 | a name no entry mentions keeps its values |
| UrlParams.ApplyEntriesMentioned | src/pages/App.tsx:19-22 | with distinct keys, each mentioned key ends up deleted, or holding exactly its entry's value |
| UrlParams.UpdateParams | src/pages/App.tsx:18-22 | the loop's result is the entries applied in order; unmentioned keys and the order of their pairs are kept; mentioned keys are deleted or set |
| App.OrAnon | src/pages/App.tsx:293 | never empty; a typed name is kept, an empty one becomes `Anon` |
| App.AdminCheck | src/pages/App.tsx:188 | admin exactly when the admin key is non-empty and equals the first `k` value of the URL |
| App.NoKeyNoAdmin | src/pages/App.tsx:188 | with an empty admin key nobody is admin |
| App.LocalSelect | src/pages/App.tsx:146 | offline vote: the roster keeps its length and the id at every index |
| App.LocalSelectAt | src/pages/App.tsx:146 | offline vote: only entries with my id change, taking `name or Anon` and the vote; the length is kept |
| App.LocalClearAt | src/pages/App.tsx:153 | offline clear: only entries with my id change, and only their vote, to null |
| App.LocalClear | src/pages/App.tsx:153 | offline clear: the roster keeps its length, and the id and name at every index |
| App.MyVote | src/pages/App.tsx:62-63 | the mirrored vote is null when I am not on the roster, and otherwise the vote of my first entry |
| App.MyVoteAfterUpsert | src/pages/App.tsx:62-63 | after an upsert, the vote mirrored for that id is the one just written |
| App.MyVoteAfterLocalSelect | src/pages/App.tsx:146 | offline voting keeps membership; my vote reads as `v` exactly when I am on the roster |
| App.MyVoteAfterLocalClear | src/pages/App.tsx:153 | offline clearing keeps membership and leaves my vote null |
| App.MyVoteAfterReset | src/pages/App.tsx:170 | an offline reset keeps membership and leaves my vote null |
| App.CardFace | src/pages/App.tsx:295 | revealed: the vote, or a dash when none; hidden: a bullet when a vote exists, a dash otherwise |
| App.HiddenCardsAgree | src/pages/App.tsx:295 | while hidden, two cards with votes look alike whatever the votes are |
| App.StoryGuardAsWrittenNeverHolds | src/pages/App.tsx:54 | the story guard as written never holds, even when the document's text is empty |
| App.InitializeDocAsWritten | src/pages/App.tsx:52-54 | writes a fresh admin key only when none is set; the story test never holds, so the text is left as it was, even when empty |
| App.InitializeDoc | src/pages/App.tsx:52-54 | story test corrected (see Findings): writes a fresh admin key only when none is set and seeds the story only when the text is empty; a non-empty key or story is never overwritten |
| App.Page.constructor | src/pages/App.tsx:31-42 | the initial page state: name from the URL, empty story and key, no vote, no participants, a given fresh id |
| App.Page.SessionId | src/pages/App.tsx:33 | `get('s')` or the empty string: empty when the URL has no `s`, otherwise its first value |
| App.Page.IsAdmin | src/pages/App.tsx:188 | admin exactly when the admin key is non-empty and equals the first `k` value of the URL |
| App.Page.Joined | src/pages/App.tsx:44 | true exactly when some roster entry has my id |
| App.Page.SetParams | src/pages/App.tsx:17-25 | the page's query becomes the entries applied in order, with the same guarantees as the loop |
| App.Page.Refresh | src/pages/App.tsx:56-64 | the page mirrors the document's view, and the selected vote is my entry's vote |
| App.Page.Bind | src/pages/App.tsx:47-76 | without a session nothing happens; with one, a fresh empty document gets the fresh admin key, keeps an empty text, is bound and is mirrored, so the page shows `Untitled Story` |
| App.Page.SelectValue | src/pages/App.tsx:142-147 | records the vote as selected; online it upserts my record into the document, offline it updates only my entries |
| App.Page.ClearVote | src/pages/App.tsx:149-154 | clears the selection; online it upserts my record with no vote, offline it clears only my entries |
| App.Page.DoReveal | src/pages/App.tsx:156-161 | a non-admin changes nothing; an admin sets the local flag without a session, or the document's flag with one |
| App.Page.ResetVotes | src/pages/App.tsx:163-173 | a non-admin changes nothing; an admin clears every vote and hides the cards, in the document when bound, otherwise locally |
| App.Page.UpdateStory | src/pages/App.tsx:181-186 | a non-admin changes nothing; an admin stores the title, or `Untitled Story` when it is empty, locally or in the document |

## Left out

- Replication and merging are not modelled. This covers concurrent edits, convergence,
  the websocket provider and its server URL (`src/lib/realtime.ts:13-15`). They belong
  to the CRDT library, whose code is not part of this model.
- The document's observers and their removal (`src/pages/App.tsx:66-80`, `92-98`) are
  left out, because they are UI plumbing. The effect's re-run when the session id or my
  id changes is left out too. `App.Page.Bind` models one run of the effect.
- The auto-join and name-sync effects, `newIdentity`, `createSession`, `joinSession` and
  `deleteMe` (`src/pages/App.tsx:101-140`, `175-179`) are not modelled. They combine the
  document operations and the page setters modelled above. Their effect on page state is
  not modelled: `newIdentity` replaces my id and resets the selected vote; `deleteMe`
  resets the selected vote; `createSession` rewrites the URL and starts a timer that
  writes the admin key, the story and my entry.
- `window.__pp_actions` is modelled as the field `App.Page.doc`.
- The clipboard, `prompt`, timers, `window.history`, `popstate`, the share links and all
  rendering except the card face are left out, because they are I/O or markup.
- `App.Page.SetParams` starts from the page's own query, not from `window.location.search`.
  The two agree because every update writes both. Building the new URL string is left out.
- Id and key generation (`nanoid`) are parameters: `freshId` and `freshKey`.
- Votes are integers. A JavaScript number is a float, but the page offers only the
  integer deck at `src/pages/App.tsx:6`.
- The reveal and admin maps are modelled as holding only what the document operations
  write into them, a boolean and a string. Other kinds of value that `Boolean(...)` and
  `String(...)` would convert are not modelled.
- Participants.UpsertedDistinct: stated only for rosters whose ids are already distinct.
  Merges can create duplicate ids, and the operations do touch only the first match;
  that is modelled exactly by `Upserted` and `Removed`.
- Participants.RemovedDistinct: stated only for rosters whose ids are already distinct,
  for the same reason.

## Findings

| source | as written | input that shows it | evidently intended | confidence | as-written member | corrected member |
|---|---|---|---|---|---|---|
| src/pages/App.tsx:54 | `if (!st.story)` tests the story of `getState()`, which defaults to `Untitled Story` and is never empty, so the block never seeds the story; `App.InitializeDocAsWritten` and `App.Page.Bind` model it so | a freshly created document with empty text, and the local story `Sprint 1`: right after the block, the text is still empty. On the creating tab, the timer of `createSession` (`src/pages/App.tsx:128-133`) writes the story later, so the dead test has no lasting effect there | seed the story when the document's text is empty, as the comment "Initialize doc if empty" says. The only evidence for this intent is that comment. The corrected block would also write a joining tab's story, usually the default title, into the shared text before that tab syncs | low, not executed | App.StoryGuardAsWrittenNeverHolds | App.InitializeDoc |

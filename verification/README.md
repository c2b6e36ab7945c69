# Chirper feed — a verified model

Chirper is a micro-blogging app: signed-in users post short messages
("chirps"), edit or delete their own, and follow other users to narrow their
feed. This project models the reactive feed component (`chirps.list`) together
with the small compose (`chirps.create`) and edit (`chirps.edit`) units that
feed it signals, and proves properties about them in Dafny.

The feed is one session's sequential state machine. Its state is the displayed
list `chirps`, the chirp being edited inline (`editing`) and the
`isFollowingMode` switch. It runs over a store of chirps (id, author, message,
createdAt, updatedAt), users, and a follow relation of ordered user pairs.

| file | module | contents |
|---|---|---|
| chirps.dfy | `Chirps` | chirps, the store as a value, the CRUD and follow writes the core uses |
| signals.dfy | `Signals` | the `chirp-created`, `chirp-updated` and `chirp-edit-canceled` notifications |
| feed_query.dfy | `FeedQuery` | the `getChirps` query: audience filter, then newest-first sort |
| validation.dfy | `Validation` | the `required\|max:255` rule on `message` |
| compose.dfy | `Compose` | `store`: validate, persist, dispatch `chirp-created` |
| edit_unit.dfy | `EditUnit` | draft seeding, owner-only `update`, `cancel` |
| feed.dfy | `Feed` | the component state, its events and the `Step` handler |
| feed_view.dfy | `FeedView` | the per-item view rule: owner menu, follow toggle, "edited" badge, inline editor |

Modelling choices:

- The store is an immutable `Store` value. The clock is a `now` parameter. The
  session's user is a `viewer` parameter and is always signed in.
- Action arguments are identifiers resolved against the store, as implicit
  model binding does. An identifier with no row ends the action with
  `NotFound` and changes nothing.
- The delete policy is an abstract parameter `canDelete(viewer, chirp)`. The
  update policy is the owner rule, because the edit unit's tests pin it to that.
- The conditional author filter is modelled literally: an empty id set
  switches the filter off. In following mode the set always holds the viewer,
  so the filter is always on there.
- The database does not fix the order of chirps with equal `createdAt`. The
  properties of one refresh are stated as "newest first, and a permutation of
  the filtered chirps" (multiset equality). The model's insertion sort does fix
  a tie order, and the lemmas that compare two refreshes by exact equality
  rely on it (see "## Left out").
- The edit unit re-reads its chirp from the store before `update`: when the
  chirp is gone, `update` ends with `NotFound` and changes nothing.

The component behaves as follows, which a reader may not expect:

- `getChirps` never clears `editing`, and `edit` performs no ownership check:
  the editor may hold a chirp of someone else. Only `chirp-updated` and
  `chirp-edit-canceled` clear it (`Feed.RefreshKeepsStaleEditor`,
  `Feed.EditOpensAnyChirp`). The owner menu stays visible while editing, so
  the held chirp can be deleted from the same session; what the program does
  next is stated under "## Left out".
- `follow` and `unfollow` do not refresh. In following mode the list can
  therefore lag behind the store until the next refresh
  (`Feed.FollowLeavesListStale`). In everyone mode every handler keeps the list
  consistent (`Feed.EveryoneModeStaysConsistent`).
- A new chirp is guaranteed to head the list after a broadcast when it is
  strictly newer than every other stored chirp
  (`Feed.BroadcastShowsNewChirpFirst`). With an equal timestamp the database
  does not fix its position.

## Model

| member | source | states |
|---|---|---|
| Chirps.Find | resources/views/livewire/chirps/list.blade.php:33-52 | a chirp argument resolves to the stored chirp with that id, or to nothing exactly when no stored chirp has it |
| Chirps.Insert | tests/Feature/Livewire/Chirps/CreateTest.php:24-45 | a created chirp carries the author, the message and equal creation/update times; it gets an id no stored chirp has; everything stored before stays |
| Chirps.Without | resources/views/livewire/chirps/list.blade.php:50 | deleting by id keeps exactly the chirps with other ids and keeps ids distinct |
| Chirps.Delete | resources/views/livewire/chirps/list.blade.php:50 | after a delete no chirp with that id is stored; all others remain; users and follows are untouched; well-formedness is kept |
| Chirps.Rewrite | tests/Feature/Livewire/Chirps/EditTest.php:37-41 | an update rewrites the message and `updatedAt` of the chirp with that id only, in place |
| Chirps.Following | resources/views/livewire/chirps/list.blade.php:24 | the followed ids are exactly the users `u` with an edge viewer → u |
| Chirps.AddFollow | resources/views/livewire/chirps/list.blade.php:54-57 | after follow the viewer → user edge exists; every other edge and all chirps are unchanged |
| Chirps.RemoveFollow | resources/views/livewire/chirps/list.blade.php:59-62 | after unfollow the viewer → user edge is gone; every other edge and all chirps are unchanged |
| FeedQuery.AudienceIds | resources/views/livewire/chirps/list.blade.php:23-25 | in following mode the id list is the followed users plus the viewer; otherwise it is empty |
| FeedQuery.Select | resources/views/livewire/chirps/list.blade.php:27-28 | the filtered list is never longer than the stored list; which chirps it holds is stated by `FeedQuery.SelectMembers` |
| FeedQuery.SelectMembers | resources/views/livewire/chirps/list.blade.php:27-28 | the filter keeps exactly the stored chirps whose author the id list admits |
| FeedQuery.SelectCounts | resources/views/livewire/chirps/list.blade.php:27-28 | the filter keeps every copy of an admitted chirp and drops every copy of the others, so the filtered multiset depends only on the stored multiset, not the storage order |
| FeedQuery.SelectKeepsDistinct | resources/views/livewire/chirps/list.blade.php:27-28 | filtering never duplicates a chirp |
| FeedQuery.InsertByDate | resources/views/livewire/chirps/list.blade.php:29 | inserting into a newest-first list gives a newest-first list with one more copy of the chirp |
| FeedQuery.InsertKeepsDistinct | resources/views/livewire/chirps/list.blade.php:29 | inserting a chirp with a new id keeps ids distinct |
| FeedQuery.SortNewestFirst | resources/views/livewire/chirps/list.blade.php:29 | `latest()` yields a newest-first permutation of its input |
| FeedQuery.Refresh | resources/views/livewire/chirps/list.blade.php:21-31 | the refreshed list is newest first, a permutation of the filtered store, holds a chirp iff it is stored and (everyone mode, or its author is the viewer or followed), and has no duplicates |
| FeedQuery.SelectEveryone | resources/views/livewire/chirps/list.blade.php:23-28 | with the empty id list nothing is filtered out |
| FeedQuery.SelectConcat | resources/views/livewire/chirps/list.blade.php:27-28 | filtering distributes over concatenation of stored lists |
| FeedQuery.SelectAllAdmitted | resources/views/livewire/chirps/list.blade.php:27-28 | a list whose authors are all admitted passes the filter whole |
| FeedQuery.SelectNoneAdmitted | resources/views/livewire/chirps/list.blade.php:27-28 | a list with no admitted author passes nothing |
| FeedQuery.EveryoneModeListsEveryChirp | tests/Feature/Livewire/Chirps/ListTest.php:34-44 | in everyone mode the list is a permutation of every stored chirp, so its count is the store's size |
| FeedQuery.FollowingModeCounts | tests/Feature/Livewire/Chirps/ListTest.php:109-133 | a store holding own, followed and strangers' chirps in any order: following mode lists exactly own and followed (count \|own\|+\|followed\|), everyone mode lists all |
| FeedQuery.NewestChirpLeads | resources/views/livewire/chirps/list.blade.php:29 | a chirp strictly newer than every other stored chirp is first in the everyone list |
| Validation.ValidateMessage | tests/Feature/Livewire/Chirps/CreateTest.php:47-57 | a message passes iff it has 1 to 255 characters; the empty message fails `required`, a longer one fails `max`, both on field `message` |
| Validation.ValidationExamples | tests/Feature/Livewire/Chirps/EditTest.php:44-57 | the sample message passes; "" fails `required`; any 256-character message fails `max` |
| Compose.StoreMessage | tests/Feature/Livewire/Chirps/CreateTest.php:24-70 | store succeeds iff the message is valid; on success a chirp by the viewer with exactly that message is persisted, nothing else changes and exactly `chirp-created` is dispatched; on failure the field error is returned |
| Compose.StoredChirpIsListed | resources/views/livewire/chirps/list.blade.php:19-31 | a stored chirp appears in its author's next refreshed list in either mode |
| Compose.CreateScenario | tests/Feature/Livewire/Chirps/CreateTest.php:24-45 | storing "This is a message" succeeds and afterwards a chirp with exactly that message exists |
| EditUnit.Mount | tests/Feature/Livewire/Chirps/EditTest.php:17-22 | mounting binds the chirp and seeds the draft with its current message |
| EditUnit.SetDraft | tests/Feature/Livewire/Chirps/EditTest.php:44-57 | setting the draft keeps the bound chirp |
| EditUnit.Update | tests/Feature/Livewire/Chirps/EditTest.php:25-57 | a chirp no longer stored gives `NotFound`; otherwise a non-owner is forbidden whatever the draft; the owner gets a `message` error iff the draft is invalid (`required` iff empty); otherwise only that chirp is rewritten with the draft and a new `updatedAt`, and `chirp-updated` is dispatched |
| EditUnit.Cancel | tests/Feature/Livewire/Chirps/EditTest.php:60-67 | cancel dispatches `chirp-edit-canceled` and takes no user |
| EditUnit.UntouchedDraftKeepsMessages | tests/Feature/Livewire/Chirps/EditTest.php:37-41 | the owner saving the seeded draft succeeds and leaves every stored message as it was |
| Feed.GetChirps | resources/views/livewire/chirps/list.blade.php:19-31 | a refresh replaces only the list, with a consistent, newest-first, duplicate-free one; editor and mode are unchanged |
| Feed.Mount | resources/views/livewire/chirps/list.blade.php:10-17 | a mounted feed is in everyone mode, edits nothing and lists every stored chirp newest first |
| Feed.Step | resources/views/livewire/chirps/list.blade.php:9-68 | a failed action changes nothing; `NotFound` iff the argument has no row; only delete writes chirps and only follow/unfollow write edges; every other successful handler leaves the list consistent with the store; only toggle changes the mode; only edit and the two closing signals touch `editing` |
| Feed.Run | resources/views/livewire/chirps/list.blade.php:9-68 | running events in order keeps the store well formed, and without a toggle the mode stays |
| Feed.CreatedTriggersAreIdempotent | resources/views/livewire/chirps/list.blade.php:19-31 | the local and the broadcast `ChirpCreated` run the same handler; running it twice equals running it once |
| Feed.CreatedTriggersConverge | resources/views/livewire/chirps/list.blade.php:19-20 | any non-empty sequence of created signals and broadcasts ends where a single refresh ends |
| Feed.CreatedPicksUpNewChirps | tests/Feature/Livewire/Chirps/ListTest.php:46-60 | after chirps are added elsewhere, `chirp-created` in everyone mode lists every old and new chirp, count = old + added |
| Feed.BroadcastShowsNewChirpFirst | resources/views/livewire/chirps/list.blade.php:20-30 | a chirp stored strictly later than all others heads the everyone list after the broadcast |
| Feed.ToggleTwiceRestores | resources/views/livewire/chirps/list.blade.php:64-68 | two toggles restore the mode, keep the editor and store, and re-derive the same list; a consistent state returns exactly |
| Feed.ToggleScenario | tests/Feature/Livewire/Chirps/ListTest.php:109-133 | for own, followed and strangers' chirps stored in any order: mount is in everyone mode; toggling shows own + followed; toggling back shows all |
| Feed.EditOpensAnyChirp | resources/views/livewire/chirps/list.blade.php:33-37 | `edit` on any stored chirp succeeds and holds that chirp, whoever the viewer is |
| Feed.DisableEditingCloses | resources/views/livewire/chirps/list.blade.php:39-45 | `chirp-updated` and `chirp-edit-canceled` both clear `editing`, keep the mode and do not write the store |
| Feed.RefreshKeepsStaleEditor | resources/views/livewire/chirps/list.blade.php:21-31 | the `getChirps` handler code keeps `editing` even when its chirp is no longer stored or listed |
| Feed.CancelClosesEditor | tests/Feature/Livewire/Chirps/EditTest.php:60-67 | the editor's cancel signal, handled by the feed, closes the editor and leaves the store |
| Feed.UpdateShowsNewMessage | tests/Feature/Livewire/Chirps/EditTest.php:37-41 | the owner's update, handled by the feed, closes the editor and lists the chirp with the new message |
| Feed.ForbiddenDeleteChangesNothing | resources/views/livewire/chirps/list.blade.php:47-52 | an unauthorized delete is forbidden and store, list, editor and mode are untouched |
| Feed.AllowedDeleteRemoves | resources/views/livewire/chirps/list.blade.php:47-52 | an authorized delete removes the chirp from store and refreshed list, keeps every other chirp and the editor |
| Feed.FollowTouchesOnlyTheEdge | resources/views/livewire/chirps/list.blade.php:54-62 | follow/unfollow set or clear only the viewer → user edge; the feed state is unchanged (no refresh) |
| Feed.FollowThenUnfollow | tests/Feature/Livewire/Chirps/ListTest.php:90-107 | after follow the viewer follows the user; after unfollow they no longer do |
| Feed.EveryoneModeStaysConsistent | resources/views/livewire/chirps/list.blade.php:21-62 | from a refreshed everyone-mode list, every handler, follow and toggle included, leaves the list consistent with the store |
| Feed.FollowLeavesListStale | resources/views/livewire/chirps/list.blade.php:54-57 | a concrete following-mode session where follow leaves the list different from a fresh refresh |
| FeedView.ItemFor | resources/views/livewire/chirps/list.blade.php:93-136 | owner iff menu; non-owner gets Follow iff not following the author, else Unfollow; "edited" iff createdAt ≠ updatedAt; editor iff the item is the chirp being edited |
| FeedView.Render | resources/views/livewire/chirps/list.blade.php:79-139 | one item per listed chirp, in list order, each by the per-item rule |
| FeedView.OwnChirpsOfferOnlyTheMenu | resources/views/livewire/chirps/list.blade.php:97-117 | the viewer's own chirps never offer Follow or Unfollow |
| FeedView.EditOpensOneEditor | tests/Feature/Livewire/Chirps/ListTest.php:62-88 | after `edit` the editor is open exactly on that chirp's item, on at most one item, and on one when the chirp is listed |
| FeedView.DisableEditingClosesEveryEditor | tests/Feature/Livewire/Chirps/ListTest.php:62-88 | after `chirp-updated` or `chirp-edit-canceled` no item shows the editor |
| FeedView.FollowFlipsButton | resources/views/livewire/chirps/list.blade.php:118-129 | after follow the user's listed chirps show Unfollow, after unfollow Follow, with the list not refreshed |

## Left out

- Markup, CSS, SVGs, `wire:loading`, `wire:confirm` dialogs and date formatting: presentation only.
- Eloquent mechanics (`with('user')` eager loading, `whereIn`, `latest()`): modelled as a filter and an insertion sort over a sequence.
- FeedQuery.Refresh: breaks `createdAt` ties the same way on every call (among equal times, earlier-stored chirps come last), which the database does not promise. `Feed.Consistent` is exact list equality, so the consistency clause of `Feed.Step`, `Feed.CreatedTriggersAreIdempotent`, `Feed.CreatedTriggersConverge`, `Feed.ToggleTwiceRestores` and `Feed.EveryoneModeStaysConsistent` rely on that tie order; with ties they hold in the real program only up to the order of equal-time chirps.
- The Echo broadcast transport: a broadcast is only one more event that triggers a refresh. Broadcasting `ChirpCreated` after a chirp is created is not modelled; only its receipt is (`Broadcast`).
- Authentication and the session: the viewer is always a signed-in user id. HTTP routing is not modelled.
- The delete policy: an abstract `canDelete` parameter, because its definition is not part of this model.
- `User::follow`, `User::unfollow` and `hasFollowing`: their implementations are not part of this model. They are modelled as adding and removing one edge of a set. That set makes a repeated follow (or an unfollow of an absent edge) a successful no-op and lets a user follow themselves; the program's behaviour in both cases is not known, so `Feed.FollowTouchesOnlyTheEdge`, `Feed.FollowThenUnfollow` and `FeedView.FollowFlipsButton` are certain for the program only in the case the tests exercise: a user other than the viewer whose edge is absent before a follow and present before an unfollow.
- Chirps.Rewrite: always stamps `updatedAt`, even when the draft equals the stored message. Eloquent's dirty check is not modelled.
- Validation.ValidateMessage: does not model the framework treating a whitespace-only string as missing for `required`; only the rules shown by the tests (empty, 256 characters) are modelled.
- Clearing the compose input after a store is not modelled.
- Livewire re-hydration of the component's model properties between requests: the program re-reads `editing` and every listed row of `chirps` by id on every request, drops listed rows that are gone and shows listed rows with their current message and `updatedAt`; the model keeps `editing` as the snapshot `edit` stored and `chirps` as the list `getChirps` last assigned. So `Feed.FollowTouchesOnlyTheEdge` (`t.state == s`) and `FeedView.FollowFlipsButton` (`t.state.chirps == s.chirps`) describe the program only when no listed row was deleted or edited since the last refresh, which holds whenever the list is consistent with the store (`Feed.Consistent`).
- Feed.RefreshKeepsStaleEditor: states what the `getChirps` handler code does with a held chirp that is gone. In the program, every request after that chirp's deletion fails while Livewire restores `editing`, before any handler runs, until the page is reloaded; the model keeps the snapshot and runs the handler instead. The same holds for every `Feed.Step` case run while `editing` holds a deleted chirp.
- Cross-session concurrency and database atomicity: the model is one session's sequential handler.
- Errors are outcomes (`Forbidden`, `NotFound`, field errors), not the framework's exceptions and 403/404 responses.

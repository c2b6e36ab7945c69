/**
 The inline editor bound to one chirp: a draft seeded from the chirp, an
 owner-only `update`, and a `cancel` anybody may trigger.
 */
module EditUnit {
  import opened Chirps
  import opened Signals
  import opened Validation

  datatype Editor = Editor(chirp: Chirp, draft: string)

  datatype UpdateResult =
    | NotFound
    | Forbidden
    | Rejected(error: FieldError)
    | Updated(store: Store, dispatched: Signal)

  /** Binds an editor to `c`; the draft starts as the chirp's current message. */
  function Mount(c: Chirp): (e: Editor)
    ensures e.chirp == c && e.draft == c.message
  {
    Editor(c, c.message)
  }

  /** Replaces the draft, as typing into the bound field does. */
  function SetDraft(e: Editor, m: string): (r: Editor)
    ensures r.chirp == e.chirp && r.draft == m
  {
    e.(draft := m)
  }

  /**
   Saves the draft as `viewer` at time `now`. The bound chirp is re-read from
   the store first: when it is gone the action ends with `NotFound`. Then
   authorization: a non-author is forbidden whatever the draft. The author
   then gets the validation error, or the chirp rewritten with the draft and
   a fresh `updatedAt`, and the unit dispatches `chirp-updated`.
   */
  function Update(e: Editor, viewer: UserId, st: Store, now: Timestamp): (r: UpdateResult)
    ensures r.NotFound? <==> !HasChirp(st, e.chirp.id)
    ensures r.Forbidden? <==> HasChirp(st, e.chirp.id) && viewer != e.chirp.author
    ensures r.Rejected? <==> HasChirp(st, e.chirp.id) && viewer == e.chirp.author && !ValidMessage(e.draft)
    ensures r.Updated? <==> HasChirp(st, e.chirp.id) && viewer == e.chirp.author && ValidMessage(e.draft)
    ensures r.Rejected? ==> r.error.field == MessageField
    ensures r.Rejected? ==> (r.error.rule == Required <==> |e.draft| == 0)
    ensures r.Updated? ==> r.dispatched == ChirpUpdated
    ensures r.Updated? ==> |r.store.chirps| == |st.chirps|
    ensures r.Updated? ==> forall i :: 0 <= i < |st.chirps| ==>
      if st.chirps[i].id == e.chirp.id
      then r.store.chirps[i] == st.chirps[i].(message := e.draft, updatedAt := now)
      else r.store.chirps[i] == st.chirps[i]
    ensures r.Updated? ==> r.store.follows == st.follows && r.store.users == st.users
    ensures r.Updated? && WellFormed(st) ==> WellFormed(r.store)
  {
    if Find(st.chirps, e.chirp.id).None? then NotFound
    else if viewer != e.chirp.author then Forbidden
    else match ValidateMessage(e.draft)
      case Some(err) => Rejected(err)
      case None => Updated(Rewrite(st, e.chirp.id, e.draft, now), ChirpUpdated)
  }

  /** Discards the draft; no user and no authorization are involved. */
  function Cancel(e: Editor): (s: Signal)
    ensures s == ChirpEditCanceled
  {
    ChirpEditCanceled
  }

  /**
   Saving an untouched draft as the author succeeds and keeps every stored
   message as it was.
   */
  lemma {:induction false} UntouchedDraftKeepsMessages(c: Chirp, st: Store, now: Timestamp)
    requires WellFormed(st)
    requires c in st.chirps
    requires ValidMessage(c.message)
    ensures Update(Mount(c), c.author, st, now).Updated?
    ensures forall i :: 0 <= i < |st.chirps| ==>
      Update(Mount(c), c.author, st, now).store.chirps[i].message == st.chirps[i].message
  {
    var r := Update(Mount(c), c.author, st, now);
    var k :| 0 <= k < |st.chirps| && st.chirps[k] == c;
    forall i | 0 <= i < |st.chirps|
      ensures r.store.chirps[i].message == st.chirps[i].message
    {
      if st.chirps[i].id == c.id {
        assert i == k;
      }
    }
  }
}

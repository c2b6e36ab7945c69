/**
 The compose unit's `store` action: validate the draft, persist a chirp owned
 by the signed-in user, and dispatch `chirp-created`.
 */
module Compose {
  import opened Chirps
  import opened Signals
  import opened Validation
  import FeedQuery

  datatype StoreResult =
    | Rejected(error: FieldError)
    | Stored(store: Store, chirp: Chirp, dispatched: seq<Signal>)

  /**
   Submits `message` as `viewer` at time `now`. An invalid message is rejected
   with its field error before the store is touched; a valid one becomes a new
   chirp and the unit dispatches exactly one `chirp-created`.
   */
  function StoreMessage(st: Store, viewer: UserId, message: string, now: Timestamp): (r: StoreResult)
    ensures r.Stored? <==> ValidMessage(message)
    ensures r.Rejected? ==> r.error.field == MessageField
    ensures r.Rejected? ==> (r.error.rule == Required <==> |message| == 0)
    ensures r.Stored? ==> r.chirp.message == message && r.chirp.author == viewer
    ensures r.Stored? ==> r.chirp.createdAt == now && r.chirp.updatedAt == now
    ensures r.Stored? ==> forall c :: c in r.store.chirps <==> c in st.chirps || c == r.chirp
    ensures r.Stored? && WellFormed(st) ==> WellFormed(r.store) && !HasChirp(st, r.chirp.id)
    ensures r.Stored? ==> r.store.follows == st.follows && r.store.users == st.users
    ensures r.Stored? ==> r.dispatched == [ChirpCreated]
  {
    match ValidateMessage(message)
    case Some(e) => Rejected(e)
    case None =>
      var (st', c) := Insert(st, viewer, message, now);
      Stored(st', c, [ChirpCreated])
  }

  /**
   A stored chirp is visible to its author after the next refresh, whichever
   mode the feed is in.
   */
  lemma StoredChirpIsListed(st: Store, viewer: UserId, message: string, now: Timestamp, followingMode: bool)
    requires ValidMessage(message)
    ensures StoreMessage(st, viewer, message, now).chirp
      in FeedQuery.Refresh(StoreMessage(st, viewer, message, now).store, followingMode, viewer)
  {
  }

  /** Submitting the sample message succeeds and persists a chirp with exactly that text. */
  lemma CreateScenario(st: Store, viewer: UserId, now: Timestamp)
    ensures StoreMessage(st, viewer, "This is a message", now).Stored?
    ensures exists c :: (c in StoreMessage(st, viewer, "This is a message", now).store.chirps
      && c.message == "This is a message")
  {
    var r := StoreMessage(st, viewer, "This is a message", now);
    assert r.chirp in r.store.chirps;
  }
}

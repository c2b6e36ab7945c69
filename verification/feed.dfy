/**
 The feed component of one viewing session: the displayed list, the chirp
 being edited inline, and the everyone/following switch.

 Each handler is one case of `Step`. The session's user (`viewer`) and the
 delete policy (`canDelete`) are parameters: the policy itself is not part of
 this model. Action arguments arrive as identifiers and are resolved against
 the store, so an identifier with no row behind it ends the action with
 `NotFound` before anything changes.
 */
module Feed {
  import opened Chirps
  import opened Signals
  import opened FeedQuery
  import Compose
  import EditUnit
  import Validation

  datatype FeedState = FeedState(
    chirps: seq<Chirp>,
    editing: Option<Chirp>,
    isFollowingMode: bool)

  /** Everything that makes the component run a handler. */
  datatype Event =
    | Received(signal: Signal)       // chirp-created, chirp-updated, chirp-edit-canceled
    | Broadcast                      // ChirpCreated on the shared chirps channel
    | Edit(chirpId: ChirpId)
    | Delete(chirpId: ChirpId)
    | Follow(userId: UserId)
    | Unfollow(userId: UserId)
    | ToggleMode

  datatype Outcome = Done | Forbidden | NotFound

  datatype Transition = Transition(state: FeedState, store: Store, outcome: Outcome)

  /** The displayed list is what a refresh against `st` would show right now. */
  ghost predicate Consistent(s: FeedState, st: Store, viewer: UserId) {
    s.chirps == Refresh(st, s.isFollowingMode, viewer)
  }

  /** `getChirps`: re-derive the list; the editor and the mode are left alone. */
  function GetChirps(s: FeedState, st: Store, viewer: UserId): (r: FeedState)
    ensures r.editing == s.editing && r.isFollowingMode == s.isFollowingMode
    ensures Consistent(r, st, viewer)
    ensures NewestFirst(r.chirps)
    ensures WellFormed(st) ==> DistinctIds(r.chirps)
  {
    s.(chirps := Refresh(st, s.isFollowingMode, viewer))
  }

  /** `mount`: a fresh component in everyone mode, editing nothing, then a refresh. */
  function Mount(st: Store, viewer: UserId): (s: FeedState)
    ensures s.editing.None? && !s.isFollowingMode
    ensures multiset(s.chirps) == multiset(st.chirps)
    ensures NewestFirst(s.chirps)
  {
    EveryoneModeListsEveryChirp(st, viewer);
    GetChirps(FeedState([], None, false), st, viewer)
  }

  /**
   One handler run. Failures leave state and store exactly as they were; only
   `delete`, `follow` and `unfollow` write to the store; every successful
   handler except `follow`/`unfollow` ends with a refresh.
   */
  function Step(s: FeedState, st: Store, viewer: UserId, canDelete: (UserId, Chirp) -> bool, ev: Event): (t: Transition)
    ensures t.outcome != Done ==> t.state == s && t.store == st
    ensures t.outcome == Forbidden ==> ev.Delete?
    ensures t.outcome == NotFound <==>
      match ev
      case Edit(id) => !HasChirp(st, id)
      case Delete(id) => !HasChirp(st, id)
      case Follow(u) => u !in st.users
      case Unfollow(u) => u !in st.users
      case _ => false
    ensures !(ev.Delete? || ev.Follow? || ev.Unfollow?) ==> t.store == st
    ensures !(ev.Follow? || ev.Unfollow?) ==> t.store.follows == st.follows
    ensures !ev.Delete? ==> t.store.chirps == st.chirps
    ensures WellFormed(st) ==> WellFormed(t.store)
    ensures t.outcome == Done && !(ev.Follow? || ev.Unfollow?) ==> Consistent(t.state, t.store, viewer)
    ensures t.state.isFollowingMode == (if ev.ToggleMode? then !s.isFollowingMode else s.isFollowingMode)
    ensures !(ev.Edit? || ev == Received(ChirpUpdated) || ev == Received(ChirpEditCanceled)) ==>
      t.state.editing == s.editing
  {
    match ev
    case Received(ChirpCreated) => Transition(GetChirps(s, st, viewer), st, Done)
    case Broadcast => Transition(GetChirps(s, st, viewer), st, Done)
    case Received(_) => Transition(GetChirps(s.(editing := None), st, viewer), st, Done)
    case Edit(id) =>
      (match Find(st.chirps, id)
       case None => Transition(s, st, NotFound)
       case Some(c) => Transition(GetChirps(s.(editing := Some(c)), st, viewer), st, Done))
    case Delete(id) =>
      (match Find(st.chirps, id)
       case None => Transition(s, st, NotFound)
       case Some(c) =>
         if !canDelete(viewer, c) then Transition(s, st, Forbidden)
         else
           var st' := Chirps.Delete(st, id);
           Transition(GetChirps(s, st', viewer), st', Done))
    case Follow(u) =>
      if u !in st.users then Transition(s, st, NotFound)
      else Transition(s, AddFollow(st, viewer, u), Done)
    case Unfollow(u) =>
      if u !in st.users then Transition(s, st, NotFound)
      else Transition(s, RemoveFollow(st, viewer, u), Done)
    case ToggleMode =>
      Transition(GetChirps(s.(isFollowingMode := !s.isFollowingMode), st, viewer), st, Done)
  }

  /** Runs a sequence of events from left to right against one session. */
  function Run(s: FeedState, st: Store, viewer: UserId, canDelete: (UserId, Chirp) -> bool, evs: seq<Event>): (t: Transition)
    ensures WellFormed(st) ==> WellFormed(t.store)
    ensures (forall i :: 0 <= i < |evs| ==> !evs[i].ToggleMode?) ==> t.state.isFollowingMode == s.isFollowingMode
    decreases |evs|
  {
    if |evs| == 0 then Transition(s, st, Done)
    else
      var first := Step(s, st, viewer, canDelete, evs[0]);
      Run(first.state, first.store, viewer, canDelete, evs[1..])
  }

  // ---------------------------------------------------------------------------
  // Refresh triggers: chirp-created and the broadcast

  /**
   The local and the broadcast `ChirpCreated` run the same handler, and running
   it twice against the same store is the same as running it once.
   */
  lemma CreatedTriggersAreIdempotent(s: FeedState, st: Store, viewer: UserId, canDelete: (UserId, Chirp) -> bool)
    ensures Step(s, st, viewer, canDelete, Broadcast) == Step(s, st, viewer, canDelete, Received(ChirpCreated))
    ensures var once := Step(s, st, viewer, canDelete, Received(ChirpCreated));
      Step(once.state, once.store, viewer, canDelete, Received(ChirpCreated)) == once
  {
  }

  /**
   Any number of created signals and broadcasts, duplicated or reordered,
   leave the session exactly where one refresh would.
   */
  lemma {:induction false} CreatedTriggersConverge(s: FeedState, st: Store, viewer: UserId,
                                                   canDelete: (UserId, Chirp) -> bool, evs: seq<Event>)
    requires |evs| > 0
    requires forall i :: 0 <= i < |evs| ==> evs[i] == Broadcast || evs[i] == Received(ChirpCreated)
    ensures Run(s, st, viewer, canDelete, evs) == Transition(GetChirps(s, st, viewer), st, Done)
    decreases |evs|
  {
    var first := Step(s, st, viewer, canDelete, evs[0]);
    assert first == Transition(GetChirps(s, st, viewer), st, Done);
    if |evs| > 1 {
      CreatedTriggersConverge(first.state, st, viewer, canDelete, evs[1..]);
      assert GetChirps(first.state, st, viewer) == GetChirps(s, st, viewer);
    }
  }

  /**
   After chirps are added behind the session's back, the next chirp-created
   in everyone mode lists every stored chirp, old and new.
   */
  lemma CreatedPicksUpNewChirps(s: FeedState, st: Store, viewer: UserId,
                                canDelete: (UserId, Chirp) -> bool, added: seq<Chirp>)
    requires !s.isFollowingMode
    ensures var t := Step(s, st.(chirps := st.chirps + added), viewer, canDelete, Received(ChirpCreated));
      && |t.state.chirps| == |st.chirps| + |added|
      && (forall c :: c in added ==> c in t.state.chirps)
      && (forall c :: c in st.chirps ==> c in t.state.chirps)
  {
    EveryoneModeListsEveryChirp(st.(chirps := st.chirps + added), viewer);
  }

  /**
   A chirp stored by the compose unit at a time later than every existing
   chirp heads the everyone list once the broadcast of its creation arrives.
   */
  lemma BroadcastShowsNewChirpFirst(s: FeedState, st: Store, viewer: UserId, author: UserId,
                                    message: string, now: Timestamp, canDelete: (UserId, Chirp) -> bool)
    requires !s.isFollowingMode
    requires Validation.ValidMessage(message)
    requires forall c :: c in st.chirps ==> c.createdAt < now
    ensures var created := Compose.StoreMessage(st, author, message, now);
      var t := Step(s, created.store, viewer, canDelete, Broadcast);
      |t.state.chirps| > 0 && t.state.chirps[0] == created.chirp
  {
    var created := Compose.StoreMessage(st, author, message, now);
    NewestChirpLeads(created.store, viewer, created.chirp);
  }

  // ---------------------------------------------------------------------------
  // The everyone/following switch

  /**
   Toggling twice restores the mode, keeps the editor, and, with an unchanged
   store, re-derives the list shown before; a consistent state comes back
   exactly.
   */
  lemma ToggleTwiceRestores(s: FeedState, st: Store, viewer: UserId, canDelete: (UserId, Chirp) -> bool)
    ensures var t1 := Step(s, st, viewer, canDelete, ToggleMode);
      var t2 := Step(t1.state, t1.store, viewer, canDelete, ToggleMode);
      && t2.store == st
      && t2.state.isFollowingMode == s.isFollowingMode
      && t2.state.editing == s.editing
      && t2.state.chirps == Refresh(st, s.isFollowingMode, viewer)
      && (Consistent(s, st, viewer) ==> t2.state == s)
  {
  }

  /**
   The toggle scenario: the viewer has chirps of their own, follows a second
   user and not a third, with the three groups stored in any order. Mounting
   shows all of them; toggling to following mode shows the first two groups;
   toggling back shows all again.
   */
  lemma ToggleScenario(st: Store, viewer: UserId, canDelete: (UserId, Chirp) -> bool,
                       own: seq<Chirp>, followed: seq<Chirp>, strangers: seq<Chirp>)
    requires multiset(st.chirps) == multiset(own + followed + strangers)
    requires forall c :: c in own ==> c.author == viewer
    requires forall c :: c in followed ==> IsFollowing(st.follows, viewer, c.author)
    requires forall c :: c in strangers ==> c.author != viewer && !IsFollowing(st.follows, viewer, c.author)
    ensures var s0 := Mount(st, viewer);
      var t1 := Step(s0, st, viewer, canDelete, ToggleMode);
      var t2 := Step(t1.state, t1.store, viewer, canDelete, ToggleMode);
      && !s0.isFollowingMode
      && t1.state.isFollowingMode && |t1.state.chirps| == |own| + |followed|
      && !t2.state.isFollowingMode && |t2.state.chirps| == |own| + |followed| + |strangers|
  {
    FollowingModeCounts(st, viewer, own, followed, strangers);
  }

  // ---------------------------------------------------------------------------
  // Inline editing

  /**
   `edit` opens the editor on the stored chirp with no ownership check: any
   viewer may open it on any chirp.
   */
  lemma EditOpensAnyChirp(s: FeedState, st: Store, viewer: UserId, canDelete: (UserId, Chirp) -> bool, c: Chirp)
    requires WellFormed(st)
    requires c in st.chirps
    ensures var t := Step(s, st, viewer, canDelete, Edit(c.id));
      t.outcome == Done && t.state.editing == Some(c)
  {
    var k :| 0 <= k < |st.chirps| && st.chirps[k] == c;
    var found := Find(st.chirps, c.id);
    var j :| 0 <= j < |st.chirps| && st.chirps[j] == found.value;
    assert j == k;
  }

  /** Both `chirp-updated` and `chirp-edit-canceled` close the editor, whatever it held. */
  lemma DisableEditingCloses(s: FeedState, st: Store, viewer: UserId, canDelete: (UserId, Chirp) -> bool, sig: Signal)
    requires sig != ChirpCreated
    ensures var t := Step(s, st, viewer, canDelete, Received(sig));
      && t.state.editing.None?
      && t.state.isFollowingMode == s.isFollowingMode
      && t.store == st
  {
  }

  /**
   The `getChirps` handler does not clear the editor even when the chirp it
   holds has been deleted from the store in the meantime. (Livewire's own
   restoring of `editing` before the handler runs is not part of this model.)
   */
  lemma RefreshKeepsStaleEditor(s: FeedState, st: Store, viewer: UserId, canDelete: (UserId, Chirp) -> bool)
    requires s.editing.Some? && !HasChirp(st, s.editing.value.id)
    ensures var t := Step(s, st, viewer, canDelete, Received(ChirpCreated));
      t.state.editing == s.editing && s.editing.value !in t.state.chirps
  {
  }

  /**
   The editor's cancel path, fed back to the feed, closes the editor and
   leaves the store alone.
   */
  lemma CancelClosesEditor(s: FeedState, st: Store, viewer: UserId, canDelete: (UserId, Chirp) -> bool, c: Chirp)
    ensures var t := Step(s, st, viewer, canDelete, Received(EditUnit.Cancel(EditUnit.Mount(c))));
      t.state.editing.None? && t.store == st
  {
  }

  /**
   The author's successful update, fed back to the feed, closes the editor,
   and the refreshed list shows the chirp with the new message.
   */
  lemma UpdateShowsNewMessage(s: FeedState, st: Store, c: Chirp, draft: string, now: Timestamp,
                              canDelete: (UserId, Chirp) -> bool)
    requires WellFormed(st)
    requires c in st.chirps
    requires Validation.ValidMessage(draft)
    ensures var u := EditUnit.Update(EditUnit.SetDraft(EditUnit.Mount(c), draft), c.author, st, now);
      && u.Updated?
      && var t := Step(s, u.store, c.author, canDelete, Received(u.dispatched));
      && t.state.editing.None?
      && c.(message := draft, updatedAt := now) in t.state.chirps
  {
    var u := EditUnit.Update(EditUnit.SetDraft(EditUnit.Mount(c), draft), c.author, st, now);
    var k :| 0 <= k < |st.chirps| && st.chirps[k] == c;
    assert u.store.chirps[k] == c.(message := draft, updatedAt := now);
  }

  // ---------------------------------------------------------------------------
  // Delete and follow

  /** An unauthorized delete is forbidden and changes nothing at all. */
  lemma ForbiddenDeleteChangesNothing(s: FeedState, st: Store, viewer: UserId,
                                      canDelete: (UserId, Chirp) -> bool, c: Chirp)
    requires WellFormed(st)
    requires c in st.chirps
    requires !canDelete(viewer, c)
    ensures Step(s, st, viewer, canDelete, Delete(c.id)) == Transition(s, st, Forbidden)
  {
    var k :| 0 <= k < |st.chirps| && st.chirps[k] == c;
    var found := Find(st.chirps, c.id);
    var j :| 0 <= j < |st.chirps| && st.chirps[j] == found.value;
    assert j == k;
  }

  /**
   An authorized delete removes the chirp from the store and from the
   refreshed list, and keeps every other stored chirp.
   */
  lemma AllowedDeleteRemoves(s: FeedState, st: Store, viewer: UserId,
                             canDelete: (UserId, Chirp) -> bool, c: Chirp)
    requires WellFormed(st)
    requires c in st.chirps
    requires canDelete(viewer, c)
    ensures var t := Step(s, st, viewer, canDelete, Delete(c.id));
      && t.outcome == Done
      && !HasChirp(t.store, c.id)
      && (forall d :: d in t.state.chirps ==> d.id != c.id)
      && (forall d :: d in st.chirps && d.id != c.id ==> d in t.store.chirps)
      && t.state.editing == s.editing
  {
    var k :| 0 <= k < |st.chirps| && st.chirps[k] == c;
    var found := Find(st.chirps, c.id);
    var j :| 0 <= j < |st.chirps| && st.chirps[j] == found.value;
    assert j == k;
  }

  /**
   `follow` and `unfollow` write only the viewer's edge to the given user;
   the displayed list, the editor and the mode stay as they were.
   */
  lemma FollowTouchesOnlyTheEdge(s: FeedState, st: Store, viewer: UserId,
                                 canDelete: (UserId, Chirp) -> bool, u: UserId, follow: bool)
    requires u in st.users
    ensures var t := Step(s, st, viewer, canDelete, if follow then Follow(u) else Unfollow(u));
      && t.outcome == Done
      && t.state == s
      && t.store.chirps == st.chirps
      && IsFollowing(t.store.follows, viewer, u) == follow
      && (forall a: UserId, b: UserId :: (a, b) != (viewer, u) ==>
            (IsFollowing(t.store.follows, a, b) <==> IsFollowing(st.follows, a, b)))
  {
  }

  /** Following and then unfollowing a user: the edge is there, then gone. */
  lemma FollowThenUnfollow(s: FeedState, st: Store, viewer: UserId,
                           canDelete: (UserId, Chirp) -> bool, u: UserId)
    requires u in st.users
    ensures var t1 := Step(s, st, viewer, canDelete, Follow(u));
      var t2 := Step(t1.state, t1.store, viewer, canDelete, Unfollow(u));
      IsFollowing(t1.store.follows, viewer, u) && !IsFollowing(t2.store.follows, viewer, u)
  {
  }

  /**
   Starting from a refreshed everyone-mode list, every handler leaves the
   displayed list consistent with the store, follow and unfollow included.
   */
  lemma EveryoneModeStaysConsistent(s0: FeedState, st: Store, viewer: UserId,
                                    canDelete: (UserId, Chirp) -> bool, ev: Event)
    requires !s0.isFollowingMode
    ensures var s := GetChirps(s0, st, viewer);
      var t := Step(s, st, viewer, canDelete, ev);
      Consistent(t.state, t.store, viewer)
  {
    var s := GetChirps(s0, st, viewer);
    var t := Step(s, st, viewer, canDelete, ev);
    if ev.Follow? || ev.Unfollow? {
      SelectEveryone(st.chirps);
      SelectEveryone(t.store.chirps);
    }
  }

  /**
   In following mode `follow` does not refresh, so the displayed list can
   lag behind the store: following the author of a chirp that is not shown
   leaves it not shown although a refresh would now list it.
   */
  lemma FollowLeavesListStale()
    ensures var c := Chirp(0, 2, "hello", 0, 0);
      var st := Store({1, 2}, [c], {}, 1);
      var s := FeedState([], None, true);
      var t := Step(s, st, 1, (u, d) => true, Follow(2));
      && Consistent(s, st, 1)
      && t.outcome == Done
      && !Consistent(t.state, t.store, 1)
  {
    var c := Chirp(0, 2, "hello", 0, 0);
    var st := Store({1, 2}, [c], {}, 1);
    var t := Step(FeedState([], None, true), st, 1, (u, d) => true, Follow(2));
    assert c in Refresh(t.store, true, 1);
    SelectNoneAdmitted(st.chirps, AudienceIds(st.follows, 1, true));
  }
}

/**
 The per-item decisions the feed's markup makes for each listed chirp: which
 controls the viewer gets, whether the "edited" badge shows, and whether the
 inline editor replaces the message. Layout and styling are not modelled.
 */
module FeedView {
  import opened Chirps
  import opened Signals
  import opened Feed

  /** The controls next to a chirp: the owner's menu, or a follow toggle for its author. */
  datatype Control =
    | OwnerMenu                  // Edit and Delete
    | FollowButton(user: UserId)
    | UnfollowButton(user: UserId)

  datatype ItemView = ItemView(chirpId: ChirpId, control: Control, edited: bool, editorOpen: bool)

  /**
   The view of one chirp for `viewer`, with the follow relation as it is at
   render time and the chirp currently held for editing.
   */
  function ItemFor(c: Chirp, viewer: UserId, follows: set<(UserId, UserId)>, editing: Option<Chirp>): (v: ItemView)
    ensures v.chirpId == c.id
    ensures v.control == OwnerMenu <==> c.author == viewer
    ensures v.control == FollowButton(c.author) <==> c.author != viewer && !IsFollowing(follows, viewer, c.author)
    ensures v.control == UnfollowButton(c.author) <==> c.author != viewer && IsFollowing(follows, viewer, c.author)
    ensures v.edited <==> c.createdAt != c.updatedAt
    ensures v.editorOpen <==> editing.Some? && editing.value.id == c.id
  {
    var control :=
      if c.author == viewer then OwnerMenu
      else if !IsFollowing(follows, viewer, c.author) then FollowButton(c.author)
      else UnfollowButton(c.author);
    ItemView(c.id, control, c.createdAt != c.updatedAt, editing.Some? && editing.value.id == c.id)
  }

  /** The rendered feed: one item per listed chirp, in list order. */
  function Render(s: FeedState, st: Store, viewer: UserId): (r: seq<ItemView>)
    ensures |r| == |s.chirps|
    ensures forall i :: 0 <= i < |r| ==> r[i] == ItemFor(s.chirps[i], viewer, st.follows, s.editing)
  {
    seq(|s.chirps|, i requires 0 <= i < |s.chirps| => ItemFor(s.chirps[i], viewer, st.follows, s.editing))
  }

  /** The viewer's own chirps never offer Follow or Unfollow. */
  lemma OwnChirpsOfferOnlyTheMenu(s: FeedState, st: Store, viewer: UserId)
    ensures forall i :: 0 <= i < |s.chirps| && s.chirps[i].author == viewer ==>
      Render(s, st, viewer)[i].control == OwnerMenu
  {
  }

  /**
   After `edit` on a stored chirp, the editor is open on exactly the listed
   items carrying that chirp's identifier, and there is at most one of them.
   */
  lemma EditOpensOneEditor(s: FeedState, st: Store, viewer: UserId, canDelete: (UserId, Chirp) -> bool, c: Chirp)
    requires WellFormed(st)
    requires c in st.chirps
    ensures var t := Step(s, st, viewer, canDelete, Edit(c.id));
      var r := Render(t.state, t.store, viewer);
      && (forall i :: 0 <= i < |r| ==> (r[i].editorOpen <==> t.state.chirps[i].id == c.id))
      && (forall i, j :: 0 <= i < j < |r| ==> !(r[i].editorOpen && r[j].editorOpen))
      && (c in t.state.chirps ==> exists i :: 0 <= i < |r| && r[i].editorOpen)
  {
    var t := Step(s, st, viewer, canDelete, Edit(c.id));
    EditOpensAnyChirp(s, st, viewer, canDelete, c);
    var r := Render(t.state, t.store, viewer);
    if c in t.state.chirps {
      var k :| 0 <= k < |t.state.chirps| && t.state.chirps[k] == c;
      assert r[k].editorOpen;
    }
  }

  /** After `chirp-updated` or `chirp-edit-canceled` no item shows the editor. */
  lemma DisableEditingClosesEveryEditor(s: FeedState, st: Store, viewer: UserId,
                                        canDelete: (UserId, Chirp) -> bool, sig: Signal)
    requires sig != ChirpCreated
    ensures var t := Step(s, st, viewer, canDelete, Received(sig));
      forall v :: v in Render(t.state, t.store, viewer) ==> !v.editorOpen
  {
    DisableEditingCloses(s, st, viewer, canDelete, sig);
  }

  /**
   Following a user flips the button on their listed chirps from Follow to
   Unfollow on the next render, although the list itself is not refreshed;
   unfollowing flips it back.
   */
  lemma FollowFlipsButton(s: FeedState, st: Store, viewer: UserId,
                          canDelete: (UserId, Chirp) -> bool, u: UserId, follow: bool)
    requires u in st.users && u != viewer
    ensures var t := Step(s, st, viewer, canDelete, if follow then Follow(u) else Unfollow(u));
      var r := Render(t.state, t.store, viewer);
      && t.state.chirps == s.chirps
      && forall i :: 0 <= i < |r| && s.chirps[i].author == u ==>
           r[i].control == (if follow then UnfollowButton(u) else FollowButton(u))
  {
    FollowTouchesOnlyTheEdge(s, st, viewer, canDelete, u, follow);
  }
}

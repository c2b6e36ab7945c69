/**
 The persisted world the feed reads from: chirps and the follow relation.

 The database is modelled as an immutable value. Chirp identifiers come from an
 auto-increment counter, timestamps are plain integers supplied by the caller
 (the clock is a parameter), and the follow relation is a set of ordered
 (follower, followee) pairs.
 */
module Chirps {

  datatype Option<+T> = None | Some(value: T)

  type UserId = nat
  type ChirpId = nat
  type Timestamp = int

  datatype Chirp = Chirp(
    id: ChirpId,
    author: UserId,
    message: string,
    createdAt: Timestamp,
    updatedAt: Timestamp)

  datatype Store = Store(
    users: set<UserId>,
    chirps: seq<Chirp>,
    follows: set<(UserId, UserId)>,
    nextId: ChirpId)

  /** Every chirp has its own identifier, and the counter is past all of them. */
  ghost predicate WellFormed(st: Store) {
    && DistinctIds(st.chirps)
    && (forall c :: c in st.chirps ==> c.id < st.nextId)
  }

  /** No two positions of `s` hold chirps with the same identifier. */
  ghost predicate DistinctIds(s: seq<Chirp>) {
    forall i, j :: 0 <= i < j < |s| ==> s[i].id != s[j].id
  }

  /** Prepending a chirp whose identifier is new keeps identifiers distinct. */
  lemma DistinctCons(c: Chirp, s: seq<Chirp>)
    requires DistinctIds(s)
    requires forall d :: d in s ==> d.id != c.id
    ensures DistinctIds([c] + s)
  {
    var t := [c] + s;
    forall i, j | 0 <= i < j < |t| ensures t[i].id != t[j].id {
      if i == 0 { assert t[j] == s[j - 1]; assert t[j] in s; }
      else { assert t[i] == s[i - 1] && t[j] == s[j - 1]; }
    }
  }

  /** The head of a list with distinct identifiers differs from all the rest. */
  lemma DistinctTail(s: seq<Chirp>)
    requires DistinctIds(s) && |s| > 0
    ensures DistinctIds(s[1..])
    ensures forall d :: d in s[1..] ==> d.id != s[0].id
  {
    forall d | d in s[1..] ensures d.id != s[0].id {
      var k :| 0 <= k < |s[1..]| && s[1..][k] == d;
      assert s[k + 1] == d;
    }
  }

  predicate HasChirp(st: Store, id: ChirpId) {
    exists c :: c in st.chirps && c.id == id
  }

  /** The identifiers of the users `viewer` follows. */
  function Following(follows: set<(UserId, UserId)>, viewer: UserId): (ids: set<UserId>)
    ensures forall u :: u in ids <==> (viewer, u) in follows
  {
    set p | p in follows && p.0 == viewer :: p.1
  }

  predicate IsFollowing(follows: set<(UserId, UserId)>, follower: UserId, followee: UserId) {
    (follower, followee) in follows
  }

  /** Looks a chirp up by identifier, as implicit model binding does. */
  function Find(chirps: seq<Chirp>, id: ChirpId): (r: Option<Chirp>)
    ensures r.Some? ==> r.value in chirps && r.value.id == id
    ensures r.None? <==> forall c :: c in chirps ==> c.id != id
  {
    if |chirps| == 0 then None
    else if chirps[0].id == id then Some(chirps[0])
    else Find(chirps[1..], id)
  }

  /** Persists a new chirp by `author`; both timestamps are `now`. */
  function Insert(st: Store, author: UserId, message: string, now: Timestamp): (r: (Store, Chirp))
    ensures r.1.author == author && r.1.message == message
    ensures r.1.createdAt == now && r.1.updatedAt == now
    ensures WellFormed(st) ==> !HasChirp(st, r.1.id)
    ensures forall c :: c in r.0.chirps <==> c in st.chirps || c == r.1
    ensures r.0.users == st.users && r.0.follows == st.follows
    ensures WellFormed(st) ==> WellFormed(r.0)
  {
    var c := Chirp(st.nextId, author, message, now, now);
    (st.(chirps := st.chirps + [c], nextId := st.nextId + 1), c)
  }

  /** The chirps other than the one with identifier `id`, in their stored order. */
  function Without(chirps: seq<Chirp>, id: ChirpId): (r: seq<Chirp>)
    ensures forall c :: c in r <==> c in chirps && c.id != id
    ensures DistinctIds(chirps) ==> DistinctIds(r)
  {
    if |chirps| == 0 then []
    else if chirps[0].id == id then Without(chirps[1..], id)
    else
      var rest := Without(chirps[1..], id);
      assert DistinctIds(chirps) ==> DistinctIds([chirps[0]] + rest) by {
        if DistinctIds(chirps) {
          DistinctTail(chirps);
          DistinctCons(chirps[0], rest);
        }
      }
      [chirps[0]] + rest
  }

  /** Deletes the chirp with identifier `id`; every other chirp stays. */
  function Delete(st: Store, id: ChirpId): (r: Store)
    ensures forall c :: c in r.chirps <==> c in st.chirps && c.id != id
    ensures !HasChirp(r, id)
    ensures r.users == st.users && r.follows == st.follows && r.nextId == st.nextId
    ensures WellFormed(st) ==> WellFormed(r)
  {
    st.(chirps := Without(st.chirps, id))
  }

  /**
   Rewrites the message of the chirp with identifier `id` and stamps its
   `updatedAt`; every other chirp is left as it was.
   */
  function Rewrite(st: Store, id: ChirpId, message: string, now: Timestamp): (r: Store)
    ensures |r.chirps| == |st.chirps|
    ensures forall i :: 0 <= i < |st.chirps| ==>
      if st.chirps[i].id == id
      then r.chirps[i] == st.chirps[i].(message := message, updatedAt := now)
      else r.chirps[i] == st.chirps[i]
    ensures r.users == st.users && r.follows == st.follows && r.nextId == st.nextId
    ensures WellFormed(st) ==> WellFormed(r)
  {
    st.(chirps := seq(|st.chirps|, i requires 0 <= i < |st.chirps| =>
      if st.chirps[i].id == id then st.chirps[i].(message := message, updatedAt := now)
      else st.chirps[i]))
  }

  /** Adds the edge follower -> followee; nothing else in the store changes. */
  function AddFollow(st: Store, follower: UserId, followee: UserId): (r: Store)
    ensures IsFollowing(r.follows, follower, followee)
    ensures forall a: UserId, b: UserId :: (a, b) != (follower, followee) ==>
      (IsFollowing(r.follows, a, b) <==> IsFollowing(st.follows, a, b))
    ensures r.users == st.users && r.chirps == st.chirps && r.nextId == st.nextId
  {
    st.(follows := st.follows + {(follower, followee)})
  }

  /** Removes the edge follower -> followee if present; nothing else changes. */
  function RemoveFollow(st: Store, follower: UserId, followee: UserId): (r: Store)
    ensures !IsFollowing(r.follows, follower, followee)
    ensures forall a: UserId, b: UserId :: (a, b) != (follower, followee) ==>
      (IsFollowing(r.follows, a, b) <==> IsFollowing(st.follows, a, b))
    ensures r.users == st.users && r.chirps == st.chirps && r.nextId == st.nextId
  {
    st.(follows := st.follows - {(follower, followee)})
  }
}

/**
 The query behind the feed's `getChirps`: keep the chirps whose author is in the
 audience, newest first by creation time.

 `getChirps` runs one database query, filtered by author when an id list is
 given and ordered by creation time. Here that is a filter over the stored
 sequence followed by an insertion sort on `createdAt`, descending. The
 database does not fix the order of chirps with equal `createdAt`; the
 insertion sort does (among equal times, earlier-stored chirps come last), so
 the properties of a single refresh are stated as "newest first and a
 permutation of the filtered chirps", while comparisons of two refreshes rely
 on the sort breaking ties the same way each time.
 */
module FeedQuery {
  import opened Chirps

  /**
   The author identifiers the query filters on: in following mode, the followed
   users plus the viewer; otherwise the empty list, which switches the filter off.
   */
  function AudienceIds(follows: set<(UserId, UserId)>, viewer: UserId, followingMode: bool): (ids: set<UserId>)
    ensures followingMode ==> viewer in ids
    ensures followingMode ==> forall u :: u in ids <==> u == viewer || IsFollowing(follows, viewer, u)
    ensures !followingMode ==> ids == {}
  {
    if followingMode then Following(follows, viewer) + {viewer} else {}
  }

  /** The conditional author filter: an empty id list admits every author. */
  predicate Admits(ids: set<UserId>, author: UserId) {
    ids == {} || author in ids
  }

  /** The stored chirps the audience admits, in stored order. */
  function Select(s: seq<Chirp>, ids: set<UserId>): (r: seq<Chirp>)
    ensures |r| <= |s|
  {
    if |s| == 0 then []
    else if Admits(ids, s[0].author) then [s[0]] + Select(s[1..], ids)
    else Select(s[1..], ids)
  }

  /** Selection keeps exactly the admitted chirps. */
  lemma {:induction false} SelectMembers(s: seq<Chirp>, ids: set<UserId>)
    ensures forall c :: c in Select(s, ids) <==> c in s && Admits(ids, c.author)
  {
    if |s| > 0 {
      SelectMembers(s[1..], ids);
      assert s == [s[0]] + s[1..];
    }
  }

  /** Selection keeps every copy of an admitted chirp and no copy of any other. */
  lemma {:induction false} SelectCounts(s: seq<Chirp>, ids: set<UserId>)
    ensures forall c :: multiset(Select(s, ids))[c] == if Admits(ids, c.author) then multiset(s)[c] else 0
  {
    if |s| > 0 {
      SelectCounts(s[1..], ids);
      assert s == [s[0]] + s[1..];
      assert multiset(s) == multiset{s[0]} + multiset(s[1..]);
    }
  }

  /** Selection keeps identifiers distinct. */
  lemma {:induction false} SelectKeepsDistinct(s: seq<Chirp>, ids: set<UserId>)
    requires DistinctIds(s)
    ensures DistinctIds(Select(s, ids))
  {
    if |s| > 0 {
      DistinctTail(s);
      SelectKeepsDistinct(s[1..], ids);
      if Admits(ids, s[0].author) {
        SelectMembers(s[1..], ids);
        DistinctCons(s[0], Select(s[1..], ids));
      }
    }
  }

  /** Newest first: creation times never increase along the list. */
  ghost predicate NewestFirst(s: seq<Chirp>) {
    forall i, j :: 0 <= i < j < |s| ==> s[i].createdAt >= s[j].createdAt
  }

  /** Places `c` into a newest-first list after every chirp at least as new. */
  function InsertByDate(c: Chirp, s: seq<Chirp>): (r: seq<Chirp>)
    requires NewestFirst(s)
    ensures NewestFirst(r)
    ensures multiset(r) == multiset(s) + multiset{c}
    ensures forall d :: d in r <==> d in s || d == c
  {
    if |s| == 0 then [c]
    else if s[0].createdAt >= c.createdAt then
      var rest := InsertByDate(c, s[1..]);
      assert s == [s[0]] + s[1..];
      assert forall d :: d in rest ==> s[0].createdAt >= d.createdAt;
      [s[0]] + rest
    else
      [c] + s
  }

  /** Inserting a chirp with a new identifier keeps identifiers distinct. */
  lemma {:induction false} InsertKeepsDistinct(c: Chirp, s: seq<Chirp>)
    requires NewestFirst(s)
    requires DistinctIds(s)
    requires forall d :: d in s ==> d.id != c.id
    ensures DistinctIds(InsertByDate(c, s))
  {
    if |s| == 0 {
    } else if s[0].createdAt >= c.createdAt {
      DistinctTail(s);
      InsertKeepsDistinct(c, s[1..]);
      DistinctCons(s[0], InsertByDate(c, s[1..]));
    } else {
      DistinctCons(c, s);
    }
  }

  /** `latest()`: the same chirps, rearranged newest first. */
  function SortNewestFirst(s: seq<Chirp>): (r: seq<Chirp>)
    ensures NewestFirst(r)
    ensures multiset(r) == multiset(s)
    ensures forall d :: d in r <==> d in s
    ensures DistinctIds(s) ==> DistinctIds(r)
  {
    if |s| == 0 then []
    else
      var rest := SortNewestFirst(s[1..]);
      assert s == [s[0]] + s[1..];
      assert DistinctIds(s) ==> DistinctIds(rest) && forall d :: d in rest ==> d.id != s[0].id by {
        if DistinctIds(s) { DistinctTail(s); }
      }
      assert DistinctIds(s) ==> DistinctIds(InsertByDate(s[0], rest)) by {
        if DistinctIds(s) { InsertKeepsDistinct(s[0], rest); }
      }
      InsertByDate(s[0], rest)
  }

  /**
   The list `getChirps` assigns: every stored chirp whose author the mode
   admits, newest first, each exactly once.
   */
  function Refresh(st: Store, followingMode: bool, viewer: UserId): (r: seq<Chirp>)
    ensures NewestFirst(r)
    ensures multiset(r) == multiset(Select(st.chirps, AudienceIds(st.follows, viewer, followingMode)))
    ensures forall c :: c in r <==>
      c in st.chirps && (!followingMode || c.author == viewer || IsFollowing(st.follows, viewer, c.author))
    ensures WellFormed(st) ==> DistinctIds(r)
  {
    var selected := Select(st.chirps, AudienceIds(st.follows, viewer, followingMode));
    SelectMembers(st.chirps, AudienceIds(st.follows, viewer, followingMode));
    assert WellFormed(st) ==> DistinctIds(selected) by {
      if WellFormed(st) { SelectKeepsDistinct(st.chirps, AudienceIds(st.follows, viewer, followingMode)); }
    }
    SortNewestFirst(selected)
  }

  /** With no audience filter the selection is the whole stored list. */
  lemma {:induction false} SelectEveryone(s: seq<Chirp>)
    ensures Select(s, {}) == s
  {
    if |s| > 0 {
      SelectEveryone(s[1..]);
      assert s == [s[0]] + s[1..];
    }
  }

  /** Selection distributes over concatenation. */
  lemma {:induction false} SelectConcat(a: seq<Chirp>, b: seq<Chirp>, ids: set<UserId>)
    ensures Select(a + b, ids) == Select(a, ids) + Select(b, ids)
  {
    if |a| == 0 {
      assert a + b == b;
    } else {
      var ab := a + b;
      assert ab[0] == a[0];
      assert ab[1..] == a[1..] + b;
      SelectConcat(a[1..], b, ids);
      if Admits(ids, a[0].author) {
        calc {
          Select(ab, ids);
          [a[0]] + Select(a[1..] + b, ids);
          [a[0]] + (Select(a[1..], ids) + Select(b, ids));
          ([a[0]] + Select(a[1..], ids)) + Select(b, ids);
          Select(a, ids) + Select(b, ids);
        }
      } else {
        calc {
          Select(ab, ids);
          Select(a[1..] + b, ids);
          Select(a[1..], ids) + Select(b, ids);
          Select(a, ids) + Select(b, ids);
        }
      }
    }
  }

  /** A list all of whose authors are admitted is selected whole. */
  lemma {:induction false} SelectAllAdmitted(s: seq<Chirp>, ids: set<UserId>)
    requires forall c :: c in s ==> Admits(ids, c.author)
    ensures Select(s, ids) == s
  {
    if |s| > 0 {
      SelectAllAdmitted(s[1..], ids);
      assert s == [s[0]] + s[1..];
    }
  }

  /** A list none of whose authors is admitted selects nothing. */
  lemma {:induction false} SelectNoneAdmitted(s: seq<Chirp>, ids: set<UserId>)
    requires forall c :: c in s ==> !Admits(ids, c.author)
    ensures Select(s, ids) == []
  {
    if |s| > 0 {
      assert s[0] in s;
      SelectNoneAdmitted(s[1..], ids);
    }
  }

  /** Everyone mode lists every stored chirp: same chirps, same count. */
  lemma EveryoneModeListsEveryChirp(st: Store, viewer: UserId)
    ensures multiset(Refresh(st, false, viewer)) == multiset(st.chirps)
    ensures |Refresh(st, false, viewer)| == |st.chirps|
  {
    SelectEveryone(st.chirps);
    var r := Refresh(st, false, viewer);
    assert |multiset(r)| == |r| && |multiset(st.chirps)| == |st.chirps|;
  }

  /**
   Following mode, for a store made of the viewer's own chirps, chirps of
   followed users and chirps of strangers, stored in any order: exactly the
   first two groups are listed, and everyone mode lists all three.
   */
  lemma FollowingModeCounts(st: Store, viewer: UserId, own: seq<Chirp>, followed: seq<Chirp>, strangers: seq<Chirp>)
    requires multiset(st.chirps) == multiset(own + followed + strangers)
    requires forall c :: c in own ==> c.author == viewer
    requires forall c :: c in followed ==> IsFollowing(st.follows, viewer, c.author)
    requires forall c :: c in strangers ==> c.author != viewer && !IsFollowing(st.follows, viewer, c.author)
    ensures multiset(Refresh(st, true, viewer)) == multiset(own + followed)
    ensures |Refresh(st, true, viewer)| == |own| + |followed|
    ensures |Refresh(st, false, viewer)| == |own| + |followed| + |strangers|
  {
    var ids := AudienceIds(st.follows, viewer, true);
    var selected := Select(st.chirps, ids);
    SelectCounts(st.chirps, ids);
    forall c ensures multiset(selected)[c] == multiset(own + followed)[c] {
      assert multiset(own + followed + strangers) == multiset(own) + multiset(followed) + multiset(strangers);
      if Admits(ids, c.author) {
        if c in strangers { assert false; }
      } else {
        if c in own || c in followed { assert false; }
      }
    }
    assert multiset(selected) == multiset(own + followed);
    var r := Refresh(st, true, viewer);
    assert |multiset(r)| == |r| && |multiset(own + followed)| == |own + followed|;
    EveryoneModeListsEveryChirp(st, viewer);
    assert |multiset(st.chirps)| == |st.chirps| && |multiset(own + followed + strangers)| == |own + followed + strangers|;
  }

  /**
   A chirp strictly newer than every other stored chirp heads the everyone
   list after a refresh.
   */
  lemma NewestChirpLeads(st: Store, viewer: UserId, c: Chirp)
    requires c in st.chirps
    requires forall d :: d in st.chirps && d != c ==> d.createdAt < c.createdAt
    ensures |Refresh(st, false, viewer)| > 0
    ensures Refresh(st, false, viewer)[0] == c
  {
    var r := Refresh(st, false, viewer);
    assert c in r;
    var k :| 0 <= k < |r| && r[k] == c;
  }
}

/**
 * Properties that relate several club-service calls: what a read shows after
 * a write, repeating a write, pagination, the pairing of relations, and the
 * two places where the code as written departs from what it evidently means.
 */
module ClubServiceProperties {
  import opened Models
  import opened Requests
  import opened ViewModels
  import opened Responses
  import opened Database
  import opened ClubService

  // ---------------------------------------------------------------------
  // Clubs
  // ---------------------------------------------------------------------

  /**
   * A club just added is found by GetClub under the id it was given, with the
   * request's name, league and logo, and with no relations or fans yet.
   */
  lemma AddClubThenGetClub(s: Store, request: ClubRequest)
    requires WellFormed(s)
    ensures var s' := AddClub(s, request).0;
      var r := GetClub(s', s.nextClubId);
      && r.Success?
      && r.data.name == request.name && r.data.league == request.league && r.data.logoUri == request.logoUri
      && r.data.clubRelations == [] && r.data.fans == {}
  {
    var s' := AddClub(s, request).0;
    var id := s.nextClubId;
    assert id in ActiveClubIds(s');
    NewClubHasNoRelationsOrFans(s, s', id);
  }

  /** A club id the store did not hold has no incoming relation rows and no fans. */
  lemma NewClubHasNoRelationsOrFans(s: Store, s': Store, id: int)
    requires WellFormed(s) && WellFormed(s') && id !in s.clubs && id in s'.clubs
    requires s'.relations == s.relations && s'.users == s.users
    ensures ClubView(s', id).clubRelations == [] && ClubView(s', id).fans == {}
  {
    assert InRelationsWith(s', id) == {};
    ClubViewContents(s', id);
  }

  /** Deleting a club twice leaves the same store, and reports success, as deleting it once. */
  lemma DeleteClubIdempotent(s: Store, id: int)
    requires WellFormed(s)
    ensures var once := DeleteClub(s, id);
      DeleteClub(once.0, id) == once
  {
    var once := DeleteClub(s, id);
    if id in s.clubs {
      assert once.0.clubs[id := once.0.clubs[id].(isDeleted := true)] == once.0.clubs;
    }
  }

  /**
   * A soft-deleted club is gone from every read path, while its chants stay
   * in the store.
   */
  lemma DeleteClubHidesClub(s: Store, id: int, skip: int, take: int)
    requires WellFormed(s) && id in s.clubs
    ensures var s' := DeleteClub(s, id).0;
      && GetClub(s', id) == Error(ClubNotFound)
      && id !in ActiveClubIds(s')
      && (forall v :: v in GetClubs(s', skip, take).data ==> v.id != id)
      && s'.chants == s.chants
  {
  }

  /** An edit request with every field null changes nothing. */
  lemma EditClubEmptyRequest(s: Store, id: int)
    requires WellFormed(s) && id in s.clubs
    ensures EditClub(s, id, ClubRequest(None, None, None, None, None)) == (s, Success(true))
  {
    assert s.clubs[id := s.clubs[id]] == s.clubs;
  }

  /** Applying the same edit twice is the same as applying it once. */
  lemma EditClubIdempotent(s: Store, id: int, request: ClubRequest)
    requires WellFormed(s)
    ensures var once := EditClub(s, id, request);
      EditClub(once.0, id, request) == once
  {
    var once := EditClub(s, id, request);
    if id in s.clubs {
      var c := once.0.clubs[id];
      var again := c.(
        name := Override(request.name, c.name),
        league := Override(request.league, c.league),
        logoUri := Override(request.logoUri, c.logoUri),
        longitude := Override(request.longitude, c.longitude),
        latitude := Override(request.latitude, c.latitude));
      assert again == c;
      assert once.0.clubs[id := again] == once.0.clubs;
    }
  }

  /** After an edit, GetClub of an active club shows each non-null field of the request. */
  lemma EditClubThenGetClub(s: Store, id: int, request: ClubRequest)
    requires WellFormed(s) && id in s.clubs && !s.clubs[id].isDeleted
    ensures var r := GetClub(EditClub(s, id, request).0, id);
      && r.Success?
      && Patched(request.name, s.clubs[id].name, r.data.name)
      && Patched(request.league, s.clubs[id].league, r.data.league)
      && Patched(request.logoUri, s.clubs[id].logoUri, r.data.logoUri)
      && Patched(request.longitude, s.clubs[id].longitude, r.data.longitude)
      && Patched(request.latitude, s.clubs[id].latitude, r.data.latitude)
      && r.data.city == s.clubs[id].city
  {
    var s' := EditClub(s, id, request).0;
    assert id in ActiveClubIds(s');
  }

  // ---------------------------------------------------------------------
  // Chants
  // ---------------------------------------------------------------------

  /**
   * AddChant accepts a club id no club has yet. Whenever an active club
   * with that id exists later, however its id was allocated, its view
   * lists the chant.
   */
  lemma DanglingChantIsAdopted(s: Store, c: int, lyrics: Text, later: Store)
    requires WellFormed(s) && c !in s.clubs
    requires WellFormed(later) && c in later.clubs && !later.clubs[c].isDeleted
    requires s.nextChantId in later.chants && later.chants[s.nextChantId] == Chant(c, lyrics)
    ensures var added := AddChant(s, ClubChantRequest(c, lyrics));
      && added.1 == Success(true)
      && c !in added.0.clubs
      && added.0.chants[s.nextChantId] == Chant(c, lyrics)
    ensures GetClub(later, c).Success?
    ensures ChantVM(s.nextChantId, lyrics) in GetClub(later, c).data.chants
  {
    assert c in ActiveClubIds(later);
    ClubViewContents(later, c);
  }

  /**
   * With identity ids handed out without gaps, the club added next takes
   * the dangling id and so adopts the chant.
   */
  lemma NextClubAdoptsDanglingChant(s: Store, lyrics: Text, club: ClubRequest)
    requires WellFormed(s)
    ensures var added := AddChant(s, ClubChantRequest(s.nextClubId, lyrics));
      var s' := AddClub(added.0, club).0;
      && GetClub(s', s.nextClubId).Success?
      && ChantVM(s.nextChantId, lyrics) in GetClub(s', s.nextClubId).data.chants
  {
    var added := AddChant(s, ClubChantRequest(s.nextClubId, lyrics));
    var s' := AddClub(added.0, club).0;
    assert s'.chants[s.nextChantId] == Chant(s.nextClubId, lyrics);
    DanglingChantIsAdopted(s, s.nextClubId, lyrics, s');
  }

  /**
   * After EditChant, the chant's club lists it with the new lyrics, and
   * with no other lyrics.
   */
  lemma EditChantThenGetClub(s: Store, id: int, request: ClubChantRequest)
    requires WellFormed(s) && id in s.chants
    requires var c := s.chants[id].clubId; c in s.clubs && !s.clubs[c].isDeleted
    ensures var r := GetClub(EditChant(s, id, request).0, s.chants[id].clubId);
      && r.Success?
      && ChantVM(id, request.lyrics) in r.data.chants
      && forall v :: v in r.data.chants && v.id == id ==> v.lyrics == request.lyrics
  {
    var s' := EditChant(s, id, request).0;
    assert s.chants[id].clubId in ActiveClubIds(s');
    ClubViewContents(s', s.chants[id].clubId);
  }

  /** Editing a chant twice with the same request equals editing it once. */
  lemma EditChantIdempotent(s: Store, id: int, request: ClubChantRequest)
    requires WellFormed(s)
    ensures var once := EditChant(s, id, request);
      EditChant(once.0, id, request) == once
  {
    if id in s.chants {
      var once := EditChant(s, id, request).0;
      assert once.chants[id := once.chants[id].(lyrics := request.lyrics)] == once.chants;
    }
  }

  // ---------------------------------------------------------------------
  // Relations
  // ---------------------------------------------------------------------

  /**
   * After a relation is added between two active clubs, each club's view
   * lists the other club, with its name, under the relation.
   */
  lemma AddRelationSeenFromBothClubs(s: Store, request: ClubRelationRequest)
    requires WellFormed(s)
    requires AddRelation(s, request).1.Returned?
    requires var a, b := request.firstClubId, request.secondClubId;
      !s.clubs[a].isDeleted && !s.clubs[b].isDeleted
    ensures var s', a, b := AddRelation(s, request).0, request.firstClubId, request.secondClubId;
      && GetClub(s', a).Success? && GetClub(s', b).Success?
      && ClubRelationVM(b, s.clubs[b].name, request.relation) in GetClub(s', a).data.clubRelations
      && ClubRelationVM(a, s.clubs[a].name, request.relation) in GetClub(s', b).data.clubRelations
  {
    var s', a, b := AddRelation(s, request).0, request.firstClubId, request.secondClubId;
    var forward := ClubRelation(a, b, request.relation);
    assert forward in RelationSet(s') && Mirror(forward) in RelationSet(s');
    assert forward in InRelationsWith(s', b);
    assert Mirror(forward) in InRelationsWith(s', a);
    assert a in ActiveClubIds(s') && b in ActiveClubIds(s');
    ClubViewContents(s', a);
    ClubViewContents(s', b);
  }

  /** Relations added through AddRelation keep every row's mirror in the table. */
  lemma AddRelationPreservesSymmetry(s: Store, request: ClubRelationRequest)
    requires WellFormed(s) && Symmetric(s)
    ensures Symmetric(AddRelation(s, request).0)
  {
    var s' := AddRelation(s, request).0;
    if AddRelation(s, request).1.Returned? {
      var forward := ClubRelation(request.firstClubId, request.secondClubId, request.relation);
      forall r | r in s'.relations
        ensures Mirror(r) in s'.relations
      {
        assert r in RelationSet(s');
        if r in RelationSet(s) {
          assert Mirror(r) in RelationSet(s');
        } else {
          assert r == forward || r == Mirror(forward);
          assert Mirror(r) in RelationSet(s');
        }
      }
    }
  }

  /**
   * DeleteRelation removes the first row, in table order, whose FirstClub is
   * the given club, and keeps the remaining rows in their order.
   */
  lemma DeleteRelationRemovesFirstRow(s: Store, id: int)
    requires WellFormed(s) && RelationsWith(s, id) != {}
    ensures exists k :: (
      && 0 <= k < |s.relations|
      && s.relations[k].firstClubId == id
      && (forall i :: 0 <= i < k ==> s.relations[i].firstClubId != id)
      && DeleteRelation(s, id).0.relations == s.relations[..k] + s.relations[k + 1..])
  {
    var k := FirstRowOf(s.relations, id);
    assert k.Some?;
    assert DeleteRelation(s, id).0.relations == s.relations[..k.value] + s.relations[k.value + 1..];
  }

  /**
   * Deleting one direction of a relation leaves the other: on a table where
   * every row has its mirror and no club relates to itself, DeleteRelation
   * always leaves a row without its mirror.
   */
  lemma DeleteRelationBreaksSymmetry(s: Store, id: int)
    requires WellFormed(s) && Symmetric(s) && RelationsWith(s, id) != {}
    requires forall r :: r in s.relations ==> r.firstClubId != r.secondClubId
    ensures !Symmetric(DeleteRelation(s, id).0)
  {
    var s' := DeleteRelation(s, id).0;
    var removed :| removed in RelationsWith(s, id) && RelationSet(s') == RelationSet(s) - {removed};
    assert Mirror(removed) in RelationSet(s);
    assert Mirror(removed) != removed;
    assert Mirror(removed) in s'.relations by {
      assert Mirror(removed) in RelationSet(s');
    }
    assert Mirror(Mirror(removed)) == removed;
    assert removed !in RelationSet(s');
  }

  /**
   * While every relation row has its mirror, the Restrict rule refuses the
   * hard delete of any club that takes part in a relation in either
   * direction, though only the FirstClub side is declared Restrict.
   */
  lemma SymmetricRelationsBlockRemoval(s: Store, id: int)
    requires WellFormed(s) && Symmetric(s) && id in s.clubs
    ensures RemoveClub(s, id).Refused? <==> RelationsWith(s, id) != {} || InRelationsWith(s, id) != {}
  {
    if InRelationsWith(s, id) != {} {
      var r :| r in InRelationsWith(s, id);
      assert Mirror(r) in RelationsWith(s, id);
    }
  }

  // ---------------------------------------------------------------------
  // Listing
  // ---------------------------------------------------------------------

  /**
   * The listing filters before it pages: the i-th club of a page is the
   * club `skip + i` of the active clubs in id order, and the page is as long
   * as Skip and Take allow.
   */
  lemma GetClubsFiltersBeforePaging(s: Store, skip: int, take: int)
    requires WellFormed(s)
    ensures var active, page := ActiveClubIds(s), GetClubs(s, skip, take).data;
      && |page| == TakeCount(take, |active| - SkipCount(skip, |active|))
      && forall i :: 0 <= i < |page| ==> page[i].id == active[SkipCount(skip, |active|) + i]
  {
  }

  /** Two consecutive pages of any sequence make up the page that spans both. */
  lemma {:induction false} PageConcat<T>(xs: seq<T>, skip: int, a: int, b: int)
    requires 0 <= skip && 0 <= a && 0 <= b
    ensures Page(xs, skip, a) + Page(xs, skip + a, b) == Page(xs, skip, a + b)
  {
    var n := |xs|;
    var from := SkipCount(skip, n);
    var c1 := TakeCount(a, n - from);
    assert SkipCount(skip + a, n) == from + c1;
    assert c1 + TakeCount(b, n - (from + c1)) == TakeCount(a + b, n - from);
    var p1, p2, p3 := Page(xs, skip, a), Page(xs, skip + a, b), Page(xs, skip, a + b);
    assert |p1 + p2| == |p3|;
    forall i | 0 <= i < |p3|
      ensures (p1 + p2)[i] == p3[i]
    {
      if i >= |p1| {
        assert p2[i - |p1|] == xs[from + c1 + (i - |p1|)];
      }
    }
  }

  /** Projecting two runs of ids one after the other is projecting their concatenation. */
  lemma {:induction false} ViewsConcat(s: Store, xs: seq<int>, ys: seq<int>)
    requires WellFormed(s)
    requires forall id :: id in xs ==> id in s.clubs
    requires forall id :: id in ys ==> id in s.clubs
    ensures Views(s, xs) + Views(s, ys) == Views(s, xs + ys)
  {
    var zs := xs + ys;
    assert forall i :: 0 <= i < |zs| ==> zs[i] == if i < |xs| then xs[i] else ys[i - |xs|];
  }

  /** Two consecutive pages of the club listing are the page that spans both. */
  lemma PagesConcatenate(s: Store, skip: int, a: int, b: int)
    requires WellFormed(s) && 0 <= skip && 0 <= a && 0 <= b
    ensures GetClubs(s, skip, a).data + GetClubs(s, skip + a, b).data == GetClubs(s, skip, a + b).data
  {
    var active := ActiveClubIds(s);
    var p1, p2 := Page(active, skip, a), Page(active, skip + a, b);
    PageConcat(active, skip, a, b);
    assert forall id :: id in p1 + p2 ==> id in active;
    ViewsConcat(s, p1, p2);
  }

  /** A page that starts at the beginning and is long enough lists every active club. */
  lemma FullPageListsEveryActiveClub(s: Store, take: int)
    requires WellFormed(s) && take >= |ActiveClubIds(s)|
    ensures forall id :: id in s.clubs && !s.clubs[id].isDeleted <==>
      exists i :: 0 <= i < |GetClubs(s, 0, take).data| && GetClubs(s, 0, take).data[i].id == id
  {
    var active := ActiveClubIds(s);
    var page := GetClubs(s, 0, take).data;
    forall id | id in s.clubs && !s.clubs[id].isDeleted
      ensures exists i :: 0 <= i < |page| && page[i].id == id
    {
      var i :| 0 <= i < |active| && active[i] == id;
      assert page[i].id == id;
    }
  }

  /** Every club GetClubs lists is what GetClub returns for its id. */
  lemma GetClubsAgreesWithGetClub(s: Store, skip: int, take: int)
    requires WellFormed(s)
    ensures forall v :: v in GetClubs(s, skip, take).data ==> GetClub(s, v.id) == Success(v)
  {
    forall v | v in GetClubs(s, skip, take).data
      ensures GetClub(s, v.id) == Success(v)
    {
      assert v.id in ActiveClubIds(s);
    }
  }

  // ---------------------------------------------------------------------
  // The code as written against what it evidently means
  // ---------------------------------------------------------------------

  /**
   * For a missing or soft-deleted club, GetClub as written throws a null
   * reference where the corrected GetClub returns the not-found error; for
   * an active club both return the same view.
   */
  lemma GetClubAsWrittenFaults(s: Store, id: int)
    requires WellFormed(s)
    ensures id !in ActiveClubIds(s) ==>
      GetClubAsWritten(s, id) == Thrown(NullReference) && GetClub(s, id) == Error(ClubNotFound)
    ensures id in ActiveClubIds(s) ==> GetClubAsWritten(s, id) == Returned(GetClub(s, id))
  {
  }

  /**
   * DeleteChant as written reports success, yet the chant is still listed
   * by GetClub of its club afterwards.
   */
  lemma DeleteChantLeavesChantListed(s: Store, id: int)
    requires WellFormed(s) && id in s.chants
    requires var c := s.chants[id].clubId; c in s.clubs && !s.clubs[c].isDeleted
    ensures var s' := DeleteChant(s, id).0;
      var listed := GetClub(s', s.chants[id].clubId);
      && DeleteChant(s, id).1 == Success(true)
      && listed.Success? && ChantVM(id, s.chants[id].lyrics) in listed.data.chants
  {
    assert s.chants[id].clubId in ActiveClubIds(s);
    ClubViewContents(s, s.chants[id].clubId);
  }

  /** With the removal saved, the deleted chant is no longer listed by any club. */
  lemma DeleteChantSavedUnlistsChant(s: Store, id: int, club: int)
    requires WellFormed(s) && id in s.chants
    ensures var r := GetClub(DeleteChantSaved(s, id).0, club);
      r.Success? ==> forall v :: v in r.data.chants ==> v.id != id
  {
    var s' := DeleteChantSaved(s, id).0;
    if club in ActiveClubIds(s') {
      ClubViewContents(s', club);
      forall v | v in GetClub(s', club).data.chants
        ensures v.id != id
      {
        assert v.id in s'.chants;
      }
    }
  }
}

/**
 * ClubService: the create, edit and delete operations over clubs, chants and
 * club relations, each a transition from one store to the next together with
 * the response, and the read projections of clubs into view models.
 *
 * Every mutating call is one request scope: the changes it saves are the
 * changes it makes to the store; changes it only stages are dropped with the
 * scope. The audit log messages are not modelled.
 */
module ClubService {
  import opened Models
  import opened Requests
  import opened ViewModels
  import opened Responses
  import opened Database

  const ClubNotFound: string := "Klubu nie znaleziono!"
  const ChantNotFound: string := "Przyśpiewki nie znaleziono!"
  const RelationNotFound: string := "Relacji nie znaleziono!"

  /** A partial-update field: null leaves the stored value, anything else replaces it. */
  function Override<T>(patch: Option<T>, current: Option<T>): Option<T> {
    if patch.Some? then patch else current
  }

  /** `after` is `patch` when the patch is non-null and `before` otherwise. */
  predicate Patched<T(==)>(patch: Option<T>, before: Option<T>, after: Option<T>) {
    && (patch.Some? ==> after == patch)
    && (patch.None? ==> after == before)
  }

  // ---------------------------------------------------------------------
  // Clubs
  // ---------------------------------------------------------------------

  /**
   * Inserts a club built from the request's name, league and logo. The new
   * row takes the next identity id; there is no duplicate-name check.
   */
  function AddClub(s: Store, request: ClubRequest): (r: (Store, Response<bool>))
    requires WellFormed(s)
    ensures WellFormed(r.0) && r.1 == Success(true)
    ensures r.0.clubs.Keys == s.clubs.Keys + {s.nextClubId}
    ensures |r.0.clubs| == |s.clubs| + 1
    ensures forall id :: id in s.clubs ==> r.0.clubs[id] == s.clubs[id]
    ensures var c := r.0.clubs[s.nextClubId];
      && c.name == request.name && c.league == request.league && c.logoUri == request.logoUri
      && c.city == None && c.longitude == None && c.latitude == None && !c.isDeleted
    ensures r.0.chants == s.chants && r.0.relations == s.relations && r.0.users == s.users
  {
    var club := Club(request.name, request.league, request.logoUri, None, None, None, false);
    var clubs := s.clubs[s.nextClubId := club];
    InsertFresh(s.clubs, s.nextClubId, club);
    (s.(clubs := clubs, nextClubId := s.nextClubId + 1), Success(true))
  }

  /**
   * Soft-deletes a club: sets its flag and nothing else. The lookup does not
   * look at the flag, so deleting a deleted club succeeds again.
   */
  function DeleteClub(s: Store, id: int): (r: (Store, Response<bool>))
    requires WellFormed(s)
    ensures WellFormed(r.0)
    ensures id !in s.clubs ==> r.0 == s && r.1 == Error(ClubNotFound)
    ensures id in s.clubs ==> r.1 == Success(true)
    ensures id in s.clubs ==> r.0.clubs.Keys == s.clubs.Keys && r.0.clubs[id].isDeleted
    ensures id in s.clubs ==> r.0.clubs[id].(isDeleted := s.clubs[id].isDeleted) == s.clubs[id]
    ensures forall k :: k in s.clubs && k != id ==> r.0.clubs[k] == s.clubs[k]
    ensures r.0 == s.(clubs := r.0.clubs)
  {
    if id !in s.clubs then (s, Error(ClubNotFound))
    else (s.(clubs := s.clubs[id := s.clubs[id].(isDeleted := true)]), Success(true))
  }

  /**
   * Partial update of a club: name, league, logo, longitude and latitude are
   * overwritten exactly when the request carries a non-null value. The
   * lookup does not look at the soft-delete flag.
   */
  function EditClub(s: Store, id: int, request: ClubRequest): (r: (Store, Response<bool>))
    requires WellFormed(s)
    ensures WellFormed(r.0)
    ensures id !in s.clubs ==> r.0 == s && r.1 == Error(ClubNotFound)
    ensures id in s.clubs ==> r.1 == Success(true) && r.0.clubs.Keys == s.clubs.Keys
    ensures id in s.clubs ==>
      var before, after := s.clubs[id], r.0.clubs[id];
      && Patched(request.name, before.name, after.name)
      && Patched(request.league, before.league, after.league)
      && Patched(request.logoUri, before.logoUri, after.logoUri)
      && Patched(request.longitude, before.longitude, after.longitude)
      && Patched(request.latitude, before.latitude, after.latitude)
      && after.city == before.city && after.isDeleted == before.isDeleted
    ensures forall k :: k in s.clubs && k != id ==> r.0.clubs[k] == s.clubs[k]
    ensures r.0 == s.(clubs := r.0.clubs)
  {
    if id !in s.clubs then (s, Error(ClubNotFound))
    else
      var c := s.clubs[id];
      var edited := c.(
        name := Override(request.name, c.name),
        league := Override(request.league, c.league),
        logoUri := Override(request.logoUri, c.logoUri),
        longitude := Override(request.longitude, c.longitude),
        latitude := Override(request.latitude, c.latitude));
      (s.(clubs := s.clubs[id := edited]), Success(true))
  }

  // ---------------------------------------------------------------------
  // Chants
  // ---------------------------------------------------------------------

  /**
   * Inserts a chant with the request's club id and lyrics under the next
   * identity id. Whether the club exists is not checked.
   */
  function AddChant(s: Store, request: ClubChantRequest): (r: (Store, Response<bool>))
    requires WellFormed(s)
    ensures WellFormed(r.0) && r.1 == Success(true)
    ensures r.0.chants.Keys == s.chants.Keys + {s.nextChantId}
    ensures |r.0.chants| == |s.chants| + 1
    ensures r.0.chants[s.nextChantId] == Chant(request.clubId, request.lyrics)
    ensures forall k :: k in s.chants ==> r.0.chants[k] == s.chants[k]
    ensures r.0.clubs == s.clubs && r.0.relations == s.relations && r.0.users == s.users
  {
    var chant := Chant(request.clubId, request.lyrics);
    var chants := s.chants[s.nextChantId := chant];
    InsertFresh(s.chants, s.nextChantId, chant);
    (s.(chants := chants, nextChantId := s.nextChantId + 1), Success(true))
  }

  /**
   * Replaces a chant's lyrics with the request's, null included; the chant
   * keeps its club whatever club id the request carries.
   */
  function EditChant(s: Store, id: int, request: ClubChantRequest): (r: (Store, Response<bool>))
    requires WellFormed(s)
    ensures WellFormed(r.0)
    ensures id !in s.chants ==> r.0 == s && r.1 == Error(ChantNotFound)
    ensures id in s.chants ==> r.1 == Success(true) && r.0.chants.Keys == s.chants.Keys
    ensures id in s.chants ==>
      r.0.chants[id].lyrics == request.lyrics && r.0.chants[id].clubId == s.chants[id].clubId
    ensures forall k :: k in s.chants && k != id ==> r.0.chants[k] == s.chants[k]
    ensures r.0 == s.(chants := r.0.chants)
  {
    if id !in s.chants then (s, Error(ChantNotFound))
    else (s.(chants := s.chants[id := s.chants[id].(lyrics := request.lyrics)]), Success(true))
  }

  /**
   * DeleteChant as written: the removal is staged but never saved, so the
   * request scope ends with the database as it was, while the caller is
   * told the chant was deleted.
   */
  function DeleteChant(s: Store, id: int): (r: (Store, Response<bool>))
    requires WellFormed(s)
    ensures r.0 == s
    ensures id !in s.chants ==> r.1 == Error(ChantNotFound)
    ensures id in s.chants ==> r.1 == Success(true) && id in r.0.chants
  {
    if id !in s.chants then (s, Error(ChantNotFound)) else (s, Success(true))
  }

  /** DeleteChant with the removal saved, as its response and log message say. */
  function DeleteChantSaved(s: Store, id: int): (r: (Store, Response<bool>))
    requires WellFormed(s)
    ensures WellFormed(r.0)
    ensures id !in s.chants ==> r.0 == s && r.1 == Error(ChantNotFound)
    ensures id in s.chants ==> r.1 == Success(true) && r.0.chants.Keys == s.chants.Keys - {id}
    ensures forall k :: k in r.0.chants ==> k in s.chants && r.0.chants[k] == s.chants[k]
    ensures r.0 == s.(chants := r.0.chants)
  {
    if id !in s.chants then (s, Error(ChantNotFound))
    else (s.(chants := s.chants - {id}), Success(true))
  }

  // ---------------------------------------------------------------------
  // Relations
  // ---------------------------------------------------------------------

  /**
   * Inserts a relation and its mirror in one save. A self relation makes the
   * two rows share a key, which the change tracker refuses; a key already in
   * the table or a club that does not exist makes the database refuse the
   * save. In each of those cases neither row is stored.
   */
  function AddRelation(s: Store, request: ClubRelationRequest): (r: (Store, Outcome<bool>))
    requires WellFormed(s)
    ensures WellFormed(r.0)
    ensures var forward := ClubRelation(request.firstClubId, request.secondClubId, request.relation);
      r.1.Returned? <==>
        && request.firstClubId != request.secondClubId
        && forward !in s.relations && Mirror(forward) !in s.relations
        && request.firstClubId in s.clubs && request.secondClubId in s.clubs
    ensures r.1 == Thrown(IdentityConflict) <==> request.firstClubId == request.secondClubId
    ensures r.1.Returned? ==>
      var forward := ClubRelation(request.firstClubId, request.secondClubId, request.relation);
      && r.1.response == Success(true)
      && RelationSet(r.0) == RelationSet(s) + {forward, Mirror(forward)}
      && |r.0.relations| == |s.relations| + 2
    ensures r.1.Thrown? ==> r.0 == s
    ensures r.0 == s.(relations := r.0.relations)
  {
    var forward := ClubRelation(request.firstClubId, request.secondClubId, request.relation);
    var backward := ClubRelation(request.secondClubId, request.firstClubId, request.relation);
    if request.firstClubId == request.secondClubId then (s, Thrown(IdentityConflict))
    else if forward in s.relations || backward in s.relations then (s, Thrown(DuplicateKey))
    else if request.firstClubId !in s.clubs || request.secondClubId !in s.clubs then
      (s, Thrown(ForeignKeyViolation))
    else (s.(relations := s.relations + [forward, backward]), Returned(Success(true)))
  }

  /** The position of the first row, in table order, whose FirstClub is `id`. */
  function FirstRowOf(rows: seq<ClubRelation>, id: int): (k: Option<nat>)
    ensures k.None? <==> forall i :: 0 <= i < |rows| ==> rows[i].firstClubId != id
    ensures k.Some? ==> k.value < |rows| && rows[k.value].firstClubId == id
    ensures k.Some? ==> forall i :: 0 <= i < k.value ==> rows[i].firstClubId != id
  {
    if rows == [] then None
    else if rows[0].firstClubId == id then Some(0)
    else match FirstRowOf(rows[1..], id) {
      case None => None
      case Some(k) => Some(k + 1)
    }
  }

  /**
   * Removes the first relation row whose FirstClub is the club `id`. The id
   * names a club, not a relation; the mirrored row stays.
   */
  function DeleteRelation(s: Store, id: int): (r: (Store, Response<bool>))
    requires WellFormed(s)
    ensures WellFormed(r.0)
    ensures r.1.Error? <==> RelationsWith(s, id) == {}
    ensures r.1.Error? ==> r.0 == s && r.1.message == RelationNotFound
    ensures r.1.Success? ==> r.1.data && |r.0.relations| == |s.relations| - 1
    ensures r.1.Success? ==>
      exists removed :: removed in RelationsWith(s, id) && RelationSet(r.0) == RelationSet(s) - {removed}
    ensures r.0 == s.(relations := r.0.relations)
  {
    match FirstRowOf(s.relations, id)
    case None =>
      assert forall r :: r in s.relations ==> r.firstClubId != id;
      (s, Error(RelationNotFound))
    case Some(k) =>
      var rows := s.relations[..k] + s.relations[k + 1..];
      RemoveRowKeys(s.relations, k);
      assert s.relations[k] in RelationsWith(s, id);
      (s.(relations := rows), Success(true))
  }

  /** Dropping the row at `k` from rows with distinct keys drops exactly its key. */
  lemma RemoveRowKeys(rows: seq<ClubRelation>, k: nat)
    requires DistinctRows(rows) && k < |rows|
    ensures var rest := rows[..k] + rows[k + 1..];
      && DistinctRows(rest)
      && (set r | r in rest) == (set r | r in rows) - {rows[k]}
  {
    var rest := rows[..k] + rows[k + 1..];
    assert forall i :: 0 <= i < |rest| ==> rest[i] == if i < k then rows[i] else rows[i + 1];
    forall r | r in rows && r != rows[k]
      ensures r in rest
    {
      var i :| 0 <= i < |rows| && rows[i] == r;
      assert rest[if i < k then i else i - 1] == r;
    }
  }

  // ---------------------------------------------------------------------
  // Read projections
  // ---------------------------------------------------------------------

  /** An incoming relation as its counterpart club: (FirstClub.Id, FirstClub.Name, Relation). */
  function RelationView(clubs: map<int, Club>, rel: ClubRelation): ClubRelationVM
    requires rel.firstClubId in clubs
  {
    ClubRelationVM(rel.firstClubId, clubs[rel.firstClubId].name, rel.relation)
  }

  /**
   * The rows entering `id`, in table order, joined with their FirstClub;
   * a row whose FirstClub is missing drops out of the join.
   */
  function IncomingViews(clubs: map<int, Club>, rows: seq<ClubRelation>, id: int): (vs: seq<ClubRelationVM>)
    ensures |vs| <= |rows|
    ensures (forall rel :: rel in rows ==> rel.secondClubId != id) ==> vs == []
    ensures forall rel :: rel in rows && rel.secondClubId == id && rel.firstClubId in clubs ==>
      RelationView(clubs, rel) in vs
    ensures forall v :: v in vs ==>
      exists rel :: rel in rows && rel.secondClubId == id && rel.firstClubId in clubs && v == RelationView(clubs, rel)
  {
    if rows == [] then []
    else
      var rest := IncomingViews(clubs, rows[1..], id);
      assert forall rel :: rel in rows[1..] ==> rel in rows;
      if rows[0].secondClubId == id && rows[0].firstClubId in clubs then [RelationView(clubs, rows[0])] + rest
      else rest
  }

  /** Club.Chants as (Id, Lyrics), in ascending chant id. */
  function ChantViews(s: Store, id: int): (vs: seq<ChantVM>)
    requires WellFormed(s)
    ensures forall c :: c in s.chants && s.chants[c].clubId == id ==> ChantVM(c, s.chants[c].lyrics) in vs
    ensures forall v :: v in vs ==> v.id in s.chants && s.chants[v.id].clubId == id && v.lyrics == s.chants[v.id].lyrics
    ensures forall i, j :: 0 <= i < j < |vs| ==> vs[i].id < vs[j].id
  {
    var ids := ChantIds(s, id);
    var vs := seq(|ids|, i requires 0 <= i < |ids| => ChantVM(ids[i], s.chants[ids[i]].lyrics));
    forall c | c in s.chants && s.chants[c].clubId == id
      ensures ChantVM(c, s.chants[c].lyrics) in vs
    {
      var i :| 0 <= i < |ids| && ids[i] == c;
      assert vs[i] == ChantVM(c, s.chants[c].lyrics);
    }
    vs
  }

  /** Club.Fans as (Id, UserName). */
  function FanViews(s: Store, id: int): (fs: set<MemberVM>)
    ensures forall m :: m in fs <==> m.memberId in Fans(s, id) && m.name == s.users[m.memberId].userName
  {
    set u | u in s.users && s.users[u].clubId == Some(id) :: MemberVM(u, s.users[u].userName)
  }

  /** The view model of a club: its columns, chants, incoming relations and fans. */
  function ClubView(s: Store, id: int): (vm: ClubVM)
    requires WellFormed(s) && id in s.clubs
    ensures var c := s.clubs[id];
      && vm.id == id && vm.name == c.name && vm.league == c.league && vm.logoUri == c.logoUri
      && vm.city == c.city && vm.longitude == c.longitude && vm.latitude == c.latitude
  {
    var c := s.clubs[id];
    ClubVM(id, c.name, c.league, c.logoUri, c.city, c.longitude, c.latitude,
           ChantViews(s, id), IncomingViews(s.clubs, s.relations, id), FanViews(s, id))
  }

  /**
   * What a club's view lists: each incoming relation as its counterpart
   * club, each chant the club owns, and each fan, and nothing else.
   */
  lemma ClubViewContents(s: Store, id: int)
    requires WellFormed(s) && id in s.clubs
    ensures var vm := ClubView(s, id);
      && (forall rel :: rel in InRelationsWith(s, id) ==> RelationView(s.clubs, rel) in vm.clubRelations)
      && (forall v :: v in vm.clubRelations ==>
            exists rel :: rel in InRelationsWith(s, id) && v == RelationView(s.clubs, rel))
      && (InRelationsWith(s, id) == {} ==> vm.clubRelations == [])
      && (forall c :: c in s.chants && s.chants[c].clubId == id ==> ChantVM(c, s.chants[c].lyrics) in vm.chants)
      && (forall v :: v in vm.chants ==> v.id in s.chants && s.chants[v.id].clubId == id)
      && (forall m :: m in vm.fans <==> m.memberId in Fans(s, id) && m.name == s.users[m.memberId].userName)
  {
  }

  /**
   * GetClub as written: the query filters out soft-deleted clubs, and the
   * projection then reads the fields of whatever it found, so a missing or
   * deleted club ends in a null dereference.
   */
  function GetClubAsWritten(s: Store, id: int): (r: Outcome<ClubVM>)
    requires WellFormed(s)
    ensures r.Thrown? <==> id !in s.clubs || s.clubs[id].isDeleted
    ensures r.Thrown? ==> r.fault == NullReference
    ensures r.Returned? ==> r.response.Success? && r.response.data.id == id
  {
    if id in s.clubs && !s.clubs[id].isDeleted then Returned(Success(ClubView(s, id)))
    else Thrown(NullReference)
  }

  /** GetClub with the missing or deleted club reported as not found. */
  function GetClub(s: Store, id: int): (r: Response<ClubVM>)
    requires WellFormed(s)
    ensures r.Success? <==> id in ActiveClubIds(s)
    ensures r.Error? ==> r.message == ClubNotFound
    ensures r.Success? ==> r.data.id == id && r.data.name == s.clubs[id].name
  {
    if id in s.clubs && !s.clubs[id].isDeleted then Success(ClubView(s, id))
    else Error(ClubNotFound)
  }

  /** LINQ Skip: a negative count skips nothing. */
  function SkipCount(skip: int, available: nat): (n: nat)
    ensures n <= available
  {
    if skip <= 0 then 0 else if skip < available then skip else available
  }

  /** LINQ Take: a non-positive count takes nothing. */
  function TakeCount(take: int, available: nat): (n: nat)
    ensures n <= available
    ensures n <= take || n == 0
  {
    if take <= 0 then 0 else if take < available then take else available
  }

  /** LINQ Skip followed by Take over a sequence. */
  function Page<T>(xs: seq<T>, skip: int, take: int): (p: seq<T>)
    ensures |p| <= take || |p| == 0
    ensures |p| == TakeCount(take, |xs| - SkipCount(skip, |xs|))
    ensures forall i :: 0 <= i < |p| ==> p[i] == xs[SkipCount(skip, |xs|) + i]
  {
    var from := SkipCount(skip, |xs|);
    xs[from..from + TakeCount(take, |xs| - from)]
  }

  /** The views of the clubs `ids`, in the same order. */
  function Views(s: Store, ids: seq<int>): (vs: seq<ClubVM>)
    requires WellFormed(s)
    requires forall id :: id in ids ==> id in s.clubs
    ensures |vs| == |ids|
    ensures forall i :: 0 <= i < |ids| ==> vs[i] == ClubView(s, ids[i]) && vs[i].id == ids[i]
  {
    seq(|ids|, i requires 0 <= i < |ids| => ClubView(s, ids[i]))
  }

  /**
   * One page of the active clubs: soft-deleted clubs are filtered out first,
   * then `skip` of the rest are passed over and at most `take` are projected.
   * Active clubs are listed by ascending id.
   */
  function GetClubs(s: Store, skip: int, take: int): (r: Response<seq<ClubVM>>)
    requires WellFormed(s)
    ensures r.Success?
    ensures |r.data| <= take || |r.data| == 0
    ensures forall v :: v in r.data ==> v.id in s.clubs && !s.clubs[v.id].isDeleted && v == ClubView(s, v.id)
    ensures forall i, j :: 0 <= i < j < |r.data| ==> r.data[i].id < r.data[j].id
  {
    var active := ActiveClubIds(s);
    var ids := Page(active, skip, take);
    assert forall id :: id in ids ==> id in active;
    var page := Views(s, ids);
    forall v | v in page
      ensures v.id in s.clubs && !s.clubs[v.id].isDeleted && v == ClubView(s, v.id)
    {
      var i :| 0 <= i < |page| && page[i] == v;
      assert ids[i] in ids;
    }
    Success(page)
  }
}

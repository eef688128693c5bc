/**
 * The persistence context (Kibol_AlertContext) as an immutable store, the
 * key and foreign-key rules of its model configuration as a well-formedness
 * predicate, the navigation collections it declares, and its delete
 * behaviours.
 */
module Database {
  import opened Models

  /**
   * The database. Clubs and chants are keyed by identity columns: every
   * key lies in [1, next) and the next insert takes `next`. Relation rows
   * are kept in table order, which is the order a query without ORDER BY
   * scans them in. Users are keyed by their (string) identity id.
   */
  datatype Store = Store(
    clubs: map<int, Club>,
    nextClubId: int,
    chants: map<int, Chant>,
    nextChantId: int,
    relations: seq<ClubRelation>,
    users: map<string, User>)

  /** A database with no rows. */
  const Empty: Store := Store(map[], 1, map[], 1, [], map[])

  /** Every key of `m` was handed out by an identity counter now at `next`. */
  predicate IdentityKeys<V>(m: map<int, V>, next: int) {
    forall id :: id in m ==> 1 <= id < next
  }

  /** No two relation rows share the composite key (FirstClubId, SecondClubId, Relation). */
  predicate DistinctRows(rows: seq<ClubRelation>) {
    forall i, j :: 0 <= i < j < |rows| ==> rows[i] != rows[j]
  }

  /**
   * The constraints the database keeps: identity keys, the composite key
   * of relations, and the foreign keys of relations (both sides) and of
   * users' club. A user holds at most one club by construction.
   */
  predicate WellFormed(s: Store): (ok: bool)
    ensures ok ==> s.nextClubId !in s.clubs && s.nextChantId !in s.chants
  {
    && 1 <= s.nextClubId && 1 <= s.nextChantId
    && IdentityKeys(s.clubs, s.nextClubId)
    && IdentityKeys(s.chants, s.nextChantId)
    && DistinctRows(s.relations)
    && (forall r :: r in s.relations ==> r.firstClubId in s.clubs && r.secondClubId in s.clubs)
    && (forall u :: u in s.users && s.users[u].clubId.Some? ==> s.users[u].clubId.value in s.clubs)
  }

  /**
   * The composite key (FirstClubId, SecondClubId, Relation) makes the
   * relation table a set: it holds as many rows as distinct relations.
   */
  lemma RelationRowsAreASet(s: Store)
    requires WellFormed(s)
    ensures |RelationSet(s)| == |s.relations|
  {
    RowsAreASet(s.relations);
  }

  /** Rows with distinct values count as many as the set they form. */
  lemma {:induction false} RowsAreASet(rows: seq<ClubRelation>)
    requires DistinctRows(rows)
    ensures |set r | r in rows| == |rows|
  {
    if rows != [] {
      var tail := rows[1..];
      assert DistinctRows(tail) by {
        forall i, j | 0 <= i < j < |tail| ensures tail[i] != tail[j] {
          assert tail[i] == rows[i + 1] && tail[j] == rows[j + 1];
        }
      }
      RowsAreASet(tail);
      assert rows[0] !in tail by {
        forall i | 0 <= i < |tail| ensures tail[i] != rows[0] {
          assert tail[i] == rows[i + 1];
        }
      }
      assert (set r | r in rows) == {rows[0]} + (set r | r in tail) by {
        assert rows == [rows[0]] + tail;
      }
    }
  }

  /** Inserting a row under the next identity id gives a fresh key. */
  lemma InsertFresh<V>(m: map<int, V>, next: int, v: V)
    requires IdentityKeys(m, next) && 1 <= next
    ensures next !in m && IdentityKeys(m[next := v], next + 1)
    ensures m[next := v].Keys == m.Keys + {next} && |m[next := v]| == |m| + 1
  {
  }

  lemma EmptyWellFormed()
    ensures WellFormed(Empty)
  {
  }

  /** The relation rows as a set of keys. */
  function RelationSet(s: Store): set<ClubRelation> {
    set r | r in s.relations
  }

  /** Club.RelationsWith: the relations whose FirstClub is the club. */
  function RelationsWith(s: Store, id: int): (rs: set<ClubRelation>)
    ensures forall r :: r in rs <==> r in s.relations && r.firstClubId == id
  {
    set r | r in s.relations && r.firstClubId == id
  }

  /** Club.InRelationsWith: the relations whose SecondClub is the club. */
  function InRelationsWith(s: Store, id: int): (rs: set<ClubRelation>)
    ensures forall r :: r in rs <==> r in s.relations && r.secondClubId == id
  {
    set r | r in s.relations && r.secondClubId == id
  }

  /** Club.Fans: the ids of the users whose ClubId is the club. */
  function Fans(s: Store, id: int): (us: set<string>)
    ensures forall u :: u in us <==> u in s.users && s.users[u].clubId == Some(id)
  {
    set u | u in s.users && s.users[u].clubId == Some(id)
  }

  /**
   * When every row is stored with its mirror, a club's incoming relations
   * are exactly the mirrors of its outgoing ones.
   */
  lemma MirroredNavigations(s: Store, a: int)
    requires Symmetric(s)
    ensures (set r | r in RelationsWith(s, a) :: Mirror(r)) == InRelationsWith(s, a)
  {
    forall r | r in InRelationsWith(s, a)
      ensures r in (set q | q in RelationsWith(s, a) :: Mirror(q))
    {
      assert Mirror(r) in RelationsWith(s, a) && Mirror(Mirror(r)) == r;
    }
  }

  /**
   * The keys below `n` of the entries of `m` that satisfy `keep`, in
   * ascending order.
   */
  function KeysBelow<V>(m: map<int, V>, keep: V -> bool, n: int): (ids: seq<int>)
    ensures forall id :: id in ids <==> 1 <= id < n && id in m && keep(m[id])
    ensures forall i, j :: 0 <= i < j < |ids| ==> ids[i] < ids[j]
    decreases n
  {
    if n <= 1 then []
    else
      var below := KeysBelow(m, keep, n - 1);
      assert forall i :: 0 <= i < |below| ==> below[i] in below && below[i] < n - 1;
      if n - 1 in m && keep(m[n - 1]) then below + [n - 1] else below
  }

  predicate IsActive(c: Club) {
    !c.isDeleted
  }

  /** The ids of the clubs that are not soft-deleted, in ascending order. */
  function ActiveClubIds(s: Store): (ids: seq<int>)
    requires WellFormed(s)
    ensures forall id :: id in ids <==> id in s.clubs && !s.clubs[id].isDeleted
    ensures forall i, j :: 0 <= i < j < |ids| ==> ids[i] < ids[j]
  {
    KeysBelow(s.clubs, IsActive, s.nextClubId)
  }

  /** Club.Chants: the ids of the chants the club owns, in ascending order. */
  function ChantIds(s: Store, id: int): (ids: seq<int>)
    requires WellFormed(s)
    ensures forall c :: c in ids <==> c in s.chants && s.chants[c].clubId == id
    ensures forall i, j :: 0 <= i < j < |ids| ==> ids[i] < ids[j]
  {
    KeysBelow(s.chants, (ch: Chant) => ch.clubId == id, s.nextChantId)
  }

  /** Every relation row has its mirrored row beside it. */
  predicate Symmetric(s: Store) {
    forall r :: r in s.relations ==> Mirror(r) in s.relations
  }

  /** The database refuses a hard delete; the store is left as it was. */
  datatype Refusal = RestrictViolation

  /**
   * Hard-deleting a club row, as the model configuration resolves it: the
   * FirstClub side is Restrict, so any relation leaving the club refuses the
   * delete; the SecondClub side is the default cascade, so relations entering
   * it go with it; the optional user-to-club link is set to null. Chants are
   * not mapped in this context and are left as they are.
   */
  function RemoveClub(s: Store, id: int): (r: Removal)
    requires WellFormed(s) && id in s.clubs
    ensures r.Refused? <==> RelationsWith(s, id) != {}
    ensures r.Refused? ==> r.refusal == RestrictViolation
    ensures r.Removed? ==> WellFormed(r.store)
    ensures r.Removed? ==> r.store.clubs.Keys == s.clubs.Keys - {id}
    ensures r.Removed? ==> forall k :: k in r.store.clubs ==> r.store.clubs[k] == s.clubs[k]
    ensures r.Removed? ==> RelationSet(r.store) == RelationSet(s) - InRelationsWith(s, id)
    ensures r.Removed? ==> Fans(r.store, id) == {} && r.store.users.Keys == s.users.Keys
    ensures r.Removed? ==> forall k :: k != id ==> Fans(r.store, k) == Fans(s, k)
    ensures r.Removed? ==> r.store.chants == s.chants
  {
    if exists i :: 0 <= i < |s.relations| && s.relations[i].firstClubId == id then
      Refused(RestrictViolation)
    else
      var rows := Without(s.relations, id);
      var users := map u | u in s.users ::
        if s.users[u].clubId == Some(id) then s.users[u].(clubId := None) else s.users[u];
      Removed(s.(clubs := s.clubs - {id}, relations := rows, users := users))
  }

  datatype Removal = Removed(store: Store) | Refused(refusal: Refusal)

  /** The rows of `rows` whose SecondClub is not `id`, in the same order. */
  function Without(rows: seq<ClubRelation>, id: int): (kept: seq<ClubRelation>)
    ensures forall r :: r in kept <==> r in rows && r.secondClubId != id
    ensures DistinctRows(rows) ==> DistinctRows(kept)
  {
    if rows == [] then []
    else
      var rest := Without(rows[1..], id);
      if rows[0].secondClubId == id then rest else [rows[0]] + rest
  }
}

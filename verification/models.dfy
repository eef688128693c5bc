/**
 * Entities of the fan-club directory (Kibol_Alert.Models) and the small value
 * types they are built from. Nullable references of the C# source become
 * `Option`; a club's key is the key under which the store holds it, so the
 * records themselves carry no id.
 */
module Models {

  /** A C# reference or `Nullable<T>` value: `None` stands for null. */
  datatype Option<+T> = None | Some(value: T)

  /** A nullable C# string. */
  type Text = Option<string>

  /** A geographic coordinate. Its value is only copied, never computed with. */
  type Coordinate(==)

  /** A club row; `isDeleted` is the soft-delete flag. */
  datatype Club = Club(
    name: Text,
    league: Text,
    logoUri: Text,
    city: Text,
    longitude: Option<Coordinate>,
    latitude: Option<Coordinate>,
    isDeleted: bool)

  /** A chant row, owned by the club `clubId`. */
  datatype Chant = Chant(clubId: int, lyrics: Text)

  /**
   * A directed club relation row. The triple itself is the composite primary
   * key: two rows are the same row exactly when the triples are equal.
   */
  datatype ClubRelation = ClubRelation(firstClubId: int, secondClubId: int, relation: string)

  /** The same relation seen from the other club. */
  function Mirror(r: ClubRelation): (m: ClubRelation)
    ensures m.firstClubId == r.secondClubId && m.secondClubId == r.firstClubId
    ensures m.relation == r.relation
  {
    ClubRelation(r.secondClubId, r.firstClubId, r.relation)
  }

  /** A user (fan); `clubId` is the one club the user supports, if any. */
  datatype User = User(userName: Text, clubId: Option<int>)
}

/** Request bodies accepted by the club service (Kibol_Alert.Requests). */
module Requests {
  import opened Models

  datatype ClubRequest = ClubRequest(
    name: Text,
    league: Text,
    logoUri: Text,
    longitude: Option<Coordinate>,
    latitude: Option<Coordinate>)

  datatype ClubChantRequest = ClubChantRequest(clubId: int, lyrics: Text)

  datatype ClubRelationRequest = ClubRelationRequest(firstClubId: int, secondClubId: int, relation: string)
}

/** Shapes returned by the read operations (Kibol_Alert.ViewModels). */
module ViewModels {
  import opened Models

  datatype ChantVM = ChantVM(id: int, lyrics: Text)

  /** An incoming relation, shown by the club on its other end. */
  datatype ClubRelationVM = ClubRelationVM(clubId: int, clubName: Text, relation: string)

  datatype MemberVM = MemberVM(memberId: string, name: Text)

  datatype ClubVM = ClubVM(
    id: int,
    name: Text,
    league: Text,
    logoUri: Text,
    city: Text,
    longitude: Option<Coordinate>,
    latitude: Option<Coordinate>,
    chants: seq<ChantVM>,
    clubRelations: seq<ClubRelationVM>,
    fans: set<MemberVM>)
}

/**
 * The response envelope (Kibol_Alert.Responses) and the exceptions a service
 * call can let escape instead of returning one.
 */
module Responses {

  datatype Response<+T> = Success(data: T) | Error(message: string)

  /** Exceptions that cross the service boundary unhandled. */
  datatype Fault =
    | NullReference        // a member access on a null entity
    | IdentityConflict     // the change tracker already tracks an entity with the same key
    | DuplicateKey         // the database refuses a row whose primary key already exists
    | ForeignKeyViolation  // the database refuses a row that references a missing club

  /** What a call that may throw produces: a response, or an escaping exception. */
  datatype Outcome<+T> = Returned(response: Response<T>) | Thrown(fault: Fault)
}

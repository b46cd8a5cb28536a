/**
 * The three tables of the café directory (users, cafe, reviews), the
 * session's stored identity, and the invariant the handlers keep: unique
 * emails, unique café names, ids below their counters, amenity columns
 * drawn from the form's choices, and foreign keys that point at existing rows.
 */
module Store {
  import opened Forms

  datatype Option<+T> = None | Some(value: T)

  type UserId = nat
  type CafeId = nat
  type ReviewId = nat

  /** The only identity `admin_only` lets through; the first account ever registered gets it. */
  const AdminId: UserId := 1

  /**
   * The password hashing collaborator: `hash(salt, password)` builds a
   * self-describing digest with a random salt, `verify(digest, password)`
   * checks a password against it. Both are supplied from outside the model.
   */
  datatype Hasher = Hasher(hash: (string, string) -> string, verify: (string, string) -> bool)

  /** The one promise the model relies on: a digest verifies the password it was made from. */
  ghost predicate Sound(h: Hasher)
  {
    forall salt: string, password: string :: h.verify(h.hash(salt, password), password)
  }

  /** A row of `users`; `password` holds the digest, never the plaintext. There is no city column. */
  datatype User = User(email: string, password: string, name: string)

  /** A row of `cafe`; `authorId` is the user who added it. */
  datatype Cafe = Cafe(
    authorId: UserId,
    name: string,
    mapUrl: string,
    imgUrl: string,
    location: string,
    hasSockets: string,
    hasToilets: string,
    hasWifi: string,
    canTakeCalls: string,
    seats: string,
    coffeePrice: string)

  /** A row of `reviews`; `cafeId` is None once the café it belonged to has been deleted. */
  datatype Review = Review(authorId: UserId, cafeId: Option<CafeId>, text: string)

  /**
   * The whole persistent state: the three tables keyed by id, the next id
   * each table hands out, and the user id the session cookie stores.
   */
  datatype Db = Db(
    users: map<UserId, User>,
    cafes: map<CafeId, Cafe>,
    reviews: map<ReviewId, Review>,
    nextUserId: UserId,
    nextCafeId: CafeId,
    nextReviewId: ReviewId,
    session: Option<UserId>)

  /** A fresh database: empty tables, ids starting at 1, nobody logged in. */
  const Empty: Db := Db(map[], map[], map[], 1, 1, 1, None)

  predicate UniqueEmails(users: map<UserId, User>)
  {
    forall i, j :: i in users && j in users && i != j ==> users[i].email != users[j].email
  }

  predicate UniqueNames(cafes: map<CafeId, Cafe>)
  {
    forall i, j :: i in cafes && j in cafes && i != j ==> cafes[i].name != cafes[j].name
  }

  predicate EmailTaken(users: map<UserId, User>, email: string)
  {
    exists id :: id in users && users[id].email == email
  }

  predicate NameTaken(cafes: map<CafeId, Cafe>, name: string)
  {
    exists id :: id in cafes && cafes[id].name == name
  }

  /** Some café other than `cafeId` is called `name`. */
  predicate NameTakenByOther(cafes: map<CafeId, Cafe>, cafeId: CafeId, name: string)
  {
    exists id :: id in cafes && id != cafeId && cafes[id].name == name
  }

  /** The amenity columns hold what the café form's selects allow. */
  predicate AmenitiesChosen(c: Cafe)
  {
    && c.hasSockets in YesNo && c.hasToilets in YesNo && c.hasWifi in YesNo && c.canTakeCalls in YesNo
    && c.seats in SeatBuckets
  }

  /** The store invariant every handler keeps. */
  predicate Inv(db: Db)
  {
    && UniqueEmails(db.users)
    && UniqueNames(db.cafes)
    && 1 <= db.nextUserId && 1 <= db.nextCafeId && 1 <= db.nextReviewId
    && (forall id :: id in db.users ==> 1 <= id < db.nextUserId)
    && (forall id :: id in db.cafes ==> 1 <= id < db.nextCafeId)
    && (forall id :: id in db.reviews ==> 1 <= id < db.nextReviewId)
    && (forall id :: id in db.cafes ==> db.cafes[id].authorId in db.users)
    && (forall id :: id in db.cafes ==> AmenitiesChosen(db.cafes[id]))
    && (forall id :: id in db.reviews ==> db.reviews[id].authorId in db.users)
    && (forall id :: id in db.reviews && db.reviews[id].cafeId.Some? ==> db.reviews[id].cafeId.value in db.cafes)
  }

  /** `load_user`: the user with the stored id, or None (anonymous) when there is none. */
  function LoadUser(users: map<UserId, User>, id: UserId): Option<User>
  {
    if id in users then Some(users[id]) else None
  }

  /** The identity of the current request: the stored id when it loads a user, otherwise anonymous. */
  function CurrentUser(db: Db): (who: Option<UserId>)
    ensures who.Some? ==> who == db.session && who.value in db.users
    ensures who.None? ==> db.session.None? || db.session.value !in db.users
  {
    match db.session
    case None => None
    case Some(id) => if LoadUser(db.users, id).Some? then Some(id) else None
  }

  /** The reviews after their café `cafeId` is deleted: each review of it loses its café reference. */
  function Detach(reviews: map<ReviewId, Review>, cafeId: CafeId): (r: map<ReviewId, Review>)
    ensures r.Keys == reviews.Keys
    ensures forall id :: id in r ==> r[id].cafeId != Some(cafeId)
    ensures forall id :: id in r && reviews[id].cafeId == Some(cafeId) ==> r[id].cafeId == None
    ensures forall id :: id in r && reviews[id].cafeId != Some(cafeId) ==> r[id] == reviews[id]
    ensures forall id :: id in r ==> r[id].authorId == reviews[id].authorId && r[id].text == reviews[id].text
  {
    map id | id in reviews ::
      if reviews[id].cafeId == Some(cafeId) then reviews[id].(cafeId := None) else reviews[id]
  }

  /** The empty database satisfies the invariant. */
  lemma EmptyInv()
    ensures Inv(Empty)
  {
  }
}

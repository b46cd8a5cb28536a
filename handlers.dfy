/**
 * What each request handler of the café directory does to the database, as
 * a function from the state before the request to the state after it and
 * the handler's outcome. Page rendering, flash messages and redirects are
 * not part of the state; the outcome says which branch was taken.
 */
module Handlers {
  import opened Forms
  import opened Store

  datatype Outcome =
    | Ok
    | InvalidForm       // validate_on_submit() failed: the form is shown again
    | Duplicate         // email or café name already in use
    | UnknownEmail      // login: no user with that email
    | WrongPassword     // login: the digest does not verify the password
    | NotAuthenticated  // anonymous caller where a logged-in user is needed
    | Forbidden         // admin_only refused the caller
    | NotFound          // no café with the requested id

  datatype Step = Step(db: Db, outcome: Outcome)

  /** The café row `add_new_cafe` builds from a form, owned by `author`. */
  function CafeFromForm(author: UserId, f: CafeForm): Cafe
  {
    Cafe(
      authorId := author,
      name := f.name,
      mapUrl := f.mapUrl,
      imgUrl := f.imgUrl,
      location := f.location,
      hasSockets := f.sockets,
      hasToilets := f.toilet,
      hasWifi := f.wifi,
      canTakeCalls := f.calls,
      seats := f.seats,
      coffeePrice := f.price)
  }

  /** The café row after `edit_cafe` assigns its ten mutable columns from a form. */
  function Overwrite(c: Cafe, f: CafeForm): Cafe
  {
    c.(
      name := f.name,
      mapUrl := f.mapUrl,
      imgUrl := f.imgUrl,
      location := f.location,
      hasSockets := f.sockets,
      hasToilets := f.toilet,
      hasWifi := f.wifi,
      canTakeCalls := f.calls,
      seats := f.seats,
      coffeePrice := f.price)
  }

  /** A row built or overwritten from a valid café form holds amenity values the form's selects allow. */
  lemma FormRowChosen(c: Cafe, author: UserId, f: CafeForm)
    requires ValidCafeForm(f)
    ensures AmenitiesChosen(CafeFromForm(author, f)) && AmenitiesChosen(Overwrite(c, f))
  {
    CafeFormChoices(f);
  }

  /**
   * `register`: a new user with the form's email and name and the digest of
   * its password, who is then logged in. `salt` is the randomness the hasher
   * draws for this call.
   */
  function Register(h: Hasher, db: Db, f: RegisterForm, salt: string): (r: Step)
    ensures Inv(db) ==> Inv(r.db)
  {
    if !ValidRegisterForm(f) then
      Step(db, InvalidForm)
    else if EmailTaken(db.users, f.email) then
      Step(db, Duplicate)
    else
      var id := db.nextUserId;
      Step(db.(users := db.users[id := User(f.email, h.hash(salt, f.password), f.name)],
               nextUserId := id + 1,
               session := Some(id)),
           Ok)
  }

  /** `login`: the session is set to the user with the form's email when the digest verifies the password. */
  ghost function Login(h: Hasher, db: Db, f: LoginForm): (r: Step)
    ensures Inv(db) ==> Inv(r.db)
  {
    if !ValidLoginForm(f) then
      Step(db, InvalidForm)
    else if !EmailTaken(db.users, f.email) then
      Step(db, UnknownEmail)
    else
      var id :| id in db.users && db.users[id].email == f.email;
      if !h.verify(db.users[id].password, f.password) then
        Step(db, WrongPassword)
      else
        Step(db.(session := Some(id)), Ok)
  }

  /** `logout`: the session no longer names anyone. */
  function Logout(db: Db): (r: Step)
    ensures Inv(db) ==> Inv(r.db)
  {
    Step(db.(session := None), Ok)
  }

  /** The review-submit branch of `show_cafe`: a review of café `cafeId` by the current user. */
  function SubmitReview(db: Db, cafeId: CafeId, f: ReviewForm): (r: Step)
    ensures Inv(db) ==> Inv(r.db)
  {
    if !ValidReviewForm(f) then
      Step(db, InvalidForm)
    else
      match CurrentUser(db)
      case None => Step(db, NotAuthenticated)
      case Some(author) =>
        if cafeId !in db.cafes then
          Step(db, NotFound)
        else
          var id := db.nextReviewId;
          Step(db.(reviews := db.reviews[id := Review(author, Some(cafeId), f.reviewText)],
                   nextReviewId := id + 1),
               Ok)
  }

  /** `add_new_cafe` behind `login_required`: a new café owned by the current user. */
  function AddCafe(db: Db, f: CafeForm): (r: Step)
    ensures Inv(db) ==> Inv(r.db)
  {
    match CurrentUser(db)
    case None => Step(db, NotAuthenticated)
    case Some(author) =>
      if !ValidCafeForm(f) then
        Step(db, InvalidForm)
      else if NameTaken(db.cafes, f.name) then
        Step(db, Duplicate)
      else
        var id := db.nextCafeId;
        FormRowChosen(CafeFromForm(author, f), author, f);
        Step(db.(cafes := db.cafes[id := CafeFromForm(author, f)], nextCafeId := id + 1), Ok)
  }

  /**
   * `edit_cafe` behind `login_required`: the ten mutable columns of café
   * `cafeId` are overwritten. A name held by another café breaks the unique
   * constraint of the name column, so the commit fails and nothing changes.
   */
  function EditCafe(db: Db, cafeId: CafeId, f: CafeForm): (r: Step)
    ensures Inv(db) ==> Inv(r.db)
  {
    if CurrentUser(db).None? then
      Step(db, NotAuthenticated)
    else if !ValidCafeForm(f) then
      Step(db, InvalidForm)
    else if cafeId !in db.cafes then
      Step(db, NotFound)
    else if NameTakenByOther(db.cafes, cafeId, f.name) then
      Step(db, Duplicate)
    else
      FormRowChosen(db.cafes[cafeId], db.cafes[cafeId].authorId, f);
      Step(db.(cafes := db.cafes[cafeId := Overwrite(db.cafes[cafeId], f)]), Ok)
  }

  /**
   * `delete_cafe` behind `admin_only`: only identity 1 may delete. The
   * café's reviews stay, with their café reference cleared.
   */
  function DeleteCafe(db: Db, cafeId: CafeId): (r: Step)
    ensures Inv(db) ==> Inv(r.db)
  {
    if CurrentUser(db) != Some(AdminId) then
      Step(db, Forbidden)
    else if cafeId !in db.cafes then
      Step(db, NotFound)
    else
      Step(db.(cafes := db.cafes - {cafeId}, reviews := Detach(db.reviews, cafeId)), Ok)
  }

  // ---------------------------------------------------------------------
  // Register

  /** Registering an email that is already in use creates nobody and leaves the session alone. */
  lemma RegisterDuplicateRejected(h: Hasher, db: Db, f: RegisterForm, salt: string)
    requires EmailTaken(db.users, f.email)
    ensures Register(h, db, f, salt).db == db
    ensures ValidRegisterForm(f) ==> Register(h, db, f, salt).outcome == Duplicate
  {
  }

  /**
   * A successful registration adds exactly one user under a fresh id, with
   * the form's email and name and the digest of the password (not the
   * password, and no city), logs that user in and touches nothing else.
   */
  lemma RegisterSucceeds(h: Hasher, db: Db, f: RegisterForm, salt: string)
    requires Inv(db)
    requires ValidRegisterForm(f) && !EmailTaken(db.users, f.email)
    ensures var r := Register(h, db, f, salt);
      && r.outcome == Ok
      && var id := db.nextUserId;
      && id !in db.users
      && r.db.users == db.users[id := User(f.email, h.hash(salt, f.password), f.name)]
      && |r.db.users| == |db.users| + 1
      && r.db.session == Some(id) && CurrentUser(r.db) == Some(id)
      && r.db.cafes == db.cafes && r.db.reviews == db.reviews
  {
  }

  /** Register succeeds exactly when the form is valid and its email is new. */
  lemma RegisterOkIff(h: Hasher, db: Db, f: RegisterForm, salt: string)
    ensures Register(h, db, f, salt).outcome == Ok <==> ValidRegisterForm(f) && !EmailTaken(db.users, f.email)
    ensures Register(h, db, f, salt).outcome != Ok ==> Register(h, db, f, salt).db == db
  {
  }

  /** The first account registered in a fresh database is the admin. */
  lemma FirstUserIsAdmin(h: Hasher, f: RegisterForm, salt: string)
    requires ValidRegisterForm(f)
    ensures Register(h, Empty, f, salt).outcome == Ok
    ensures CurrentUser(Register(h, Empty, f, salt).db) == Some(AdminId)
  {
  }

  // ---------------------------------------------------------------------
  // Login, logout, identity

  /**
   * Login only ever changes the session, and it sets it to user `u` only
   * when `u` has the form's email and the stored digest verifies the
   * submitted password.
   */
  lemma LoginOnlyWhenVerified(h: Hasher, db: Db, f: LoginForm)
    ensures Login(h, db, f).db.(session := db.session) == db
    ensures var r := Login(h, db, f);
      r.outcome == Ok ==>
        && r.db.session.Some?
        && var u := r.db.session.value;
        && u in db.users && db.users[u].email == f.email
        && h.verify(db.users[u].password, f.password)
        && CurrentUser(r.db) == Some(u)
    ensures Login(h, db, f).outcome == Ok ==> ValidLoginForm(f)
    ensures Login(h, db, f).outcome != Ok ==> Login(h, db, f).db == db
  {
  }

  /**
   * A valid login naming a stored user's email, whose stored digest
   * verifies the submitted password, logs exactly that user in.
   */
  lemma LoginSucceedsWhenVerified(h: Hasher, db: Db, f: LoginForm, u: UserId)
    requires Inv(db) && ValidLoginForm(f)
    requires u in db.users && db.users[u].email == f.email && h.verify(db.users[u].password, f.password)
    ensures Login(h, db, f) == Step(db.(session := Some(u)), Ok)
  {
  }

  /** An unknown email or a failed verification leaves the whole state as it was. */
  lemma LoginFailuresChangeNothing(h: Hasher, db: Db, f: LoginForm)
    requires Inv(db) && ValidLoginForm(f)
    ensures !EmailTaken(db.users, f.email) ==> Login(h, db, f) == Step(db, UnknownEmail)
    ensures forall u :: u in db.users && db.users[u].email == f.email && !h.verify(db.users[u].password, f.password) ==>
      Login(h, db, f) == Step(db, WrongPassword)
  {
  }

  /**
   * Registering and then logging in with the same email and password
   * succeeds and logs in the new user, given a hasher whose digests verify
   * the passwords they were made from.
   */
  lemma {:induction false} RegisterThenLogin(h: Hasher, db: Db, f: RegisterForm, salt: string)
    requires Sound(h) && Inv(db)
    requires ValidRegisterForm(f) && !EmailTaken(db.users, f.email)
    ensures var r := Register(h, db, f, salt);
      Login(h, r.db, LoginForm(f.email, f.password)) == Step(r.db, Ok)
  {
    var r := Register(h, db, f, salt);
    var id := db.nextUserId;
    assert r.db.users[id].email == f.email;
    assert forall u :: u in r.db.users && r.db.users[u].email == f.email ==> u == id;
    assert h.verify(h.hash(salt, f.password), f.password);
  }

  /** After logout the request is anonymous and the tables are untouched. */
  lemma LogoutIsAnonymous(db: Db)
    ensures CurrentUser(Logout(db).db) == None
    ensures Logout(db).db.(session := db.session) == db
  {
  }

  // ---------------------------------------------------------------------
  // Reviews

  /**
   * An anonymous review adds nothing; an authenticated one on an existing
   * café adds exactly one review by the current user of that café. Users
   * and cafés never change.
   */
  lemma ReviewRules(db: Db, cafeId: CafeId, f: ReviewForm)
    requires Inv(db)
    ensures var r := SubmitReview(db, cafeId, f);
      && r.db.users == db.users && r.db.cafes == db.cafes && r.db.session == db.session
      && (CurrentUser(db).None? ==> r.db == db)
      && (r.outcome == Ok <==> ValidReviewForm(f) && CurrentUser(db).Some? && cafeId in db.cafes)
      && (r.outcome == Ok ==>
            && var id := db.nextReviewId;
            && id !in db.reviews
            && r.db.reviews == db.reviews[id := Review(CurrentUser(db).value, Some(cafeId), f.reviewText)])
      && (r.outcome != Ok ==> r.db == db)
  {
  }

  // ---------------------------------------------------------------------
  // Cafés

  /** An anonymous caller and a taken name both leave the state alone. */
  lemma AddCafeRejections(db: Db, f: CafeForm)
    ensures CurrentUser(db).None? ==> AddCafe(db, f) == Step(db, NotAuthenticated)
    ensures CurrentUser(db).Some? && !ValidCafeForm(f) ==> AddCafe(db, f) == Step(db, InvalidForm)
    ensures CurrentUser(db).Some? && ValidCafeForm(f) && NameTaken(db.cafes, f.name) ==>
      AddCafe(db, f) == Step(db, Duplicate)
    ensures AddCafe(db, f).outcome != Ok ==> AddCafe(db, f).db == db
  {
  }

  /** Adding succeeds exactly for a logged-in caller with a valid form and a name not yet in use. */
  lemma AddCafeOkIff(db: Db, f: CafeForm)
    ensures AddCafe(db, f).outcome == Ok <==> CurrentUser(db).Some? && ValidCafeForm(f) && !NameTaken(db.cafes, f.name)
  {
  }

  /**
   * A successful add creates exactly one café under a fresh id, owned by
   * the current user, whose columns are the form's fields (sockets to
   * has_sockets, toilet to has_toilets, wifi to has_wifi, calls to
   * can_take_calls, price to coffee_price); users, reviews and the session
   * are untouched.
   */
  lemma AddCafeSucceeds(db: Db, f: CafeForm)
    requires Inv(db)
    requires CurrentUser(db).Some? && ValidCafeForm(f) && !NameTaken(db.cafes, f.name)
    ensures var r := AddCafe(db, f);
      && r.outcome == Ok
      && var id := db.nextCafeId;
      && id !in db.cafes
      && r.db.cafes.Keys == db.cafes.Keys + {id}
      && (forall k :: k in db.cafes ==> r.db.cafes[k] == db.cafes[k])
      && r.db.users == db.users && r.db.reviews == db.reviews && r.db.session == db.session
  {
  }

  /** Looking a freshly added café up by its id gives back exactly the submitted values. */
  lemma AddThenLookup(db: Db, f: CafeForm)
    requires Inv(db)
    requires CurrentUser(db).Some? && ValidCafeForm(f) && !NameTaken(db.cafes, f.name)
    ensures var c := AddCafe(db, f).db.cafes[db.nextCafeId];
      && c.authorId == CurrentUser(db).value
      && c.name == f.name && c.mapUrl == f.mapUrl && c.imgUrl == f.imgUrl && c.location == f.location
      && c.hasSockets == f.sockets && c.hasToilets == f.toilet && c.hasWifi == f.wifi
      && c.canTakeCalls == f.calls && c.seats == f.seats && c.coffeePrice == f.price
  {
  }

  /**
   * A successful edit rewrites the ten mutable columns of café `cafeId`,
   * keeps its author, and leaves every other café, all users, all reviews
   * and the session as they were.
   */
  lemma EditOverwrites(db: Db, cafeId: CafeId, f: CafeForm)
    ensures var r := EditCafe(db, cafeId, f);
      r.outcome == Ok ==>
        && cafeId in db.cafes && r.db.cafes.Keys == db.cafes.Keys
        && var c := r.db.cafes[cafeId];
        && c.authorId == db.cafes[cafeId].authorId
        && c.name == f.name && c.mapUrl == f.mapUrl && c.imgUrl == f.imgUrl && c.location == f.location
        && c.hasSockets == f.sockets && c.hasToilets == f.toilet && c.hasWifi == f.wifi
        && c.canTakeCalls == f.calls && c.seats == f.seats && c.coffeePrice == f.price
        && (forall k :: k in db.cafes && k != cafeId ==> r.db.cafes[k] == db.cafes[k])
        && r.db.users == db.users && r.db.reviews == db.reviews && r.db.session == db.session
    ensures EditCafe(db, cafeId, f).outcome != Ok ==> EditCafe(db, cafeId, f).db == db
  {
  }

  /**
   * Editing succeeds exactly for a logged-in caller with a valid form, on an
   * existing café, with a name no other café holds. Anonymous callers get
   * NotAuthenticated and invalid forms InvalidForm, with no change.
   */
  lemma EditCafeOkIff(db: Db, cafeId: CafeId, f: CafeForm)
    ensures EditCafe(db, cafeId, f).outcome == Ok <==>
      CurrentUser(db).Some? && ValidCafeForm(f) && cafeId in db.cafes && !NameTakenByOther(db.cafes, cafeId, f.name)
    ensures CurrentUser(db).None? ==> EditCafe(db, cafeId, f) == Step(db, NotAuthenticated)
    ensures CurrentUser(db).Some? && !ValidCafeForm(f) ==> EditCafe(db, cafeId, f) == Step(db, InvalidForm)
  {
  }

  /**
   * There is no ownership check: any logged-in user may edit any existing
   * café, including one added by somebody else.
   */
  lemma EditIgnoresOwnership(db: Db, cafeId: CafeId, f: CafeForm)
    requires CurrentUser(db).Some? && cafeId in db.cafes && CurrentUser(db).value != db.cafes[cafeId].authorId
    requires ValidCafeForm(f) && !NameTakenByOther(db.cafes, cafeId, f.name)
    ensures EditCafe(db, cafeId, f).outcome == Ok
  {
  }

  /**
   * Delete succeeds only for identity 1 on an existing café, and then
   * removes exactly that café. Every other identity, anonymous included,
   * gets Forbidden and the state is unchanged.
   */
  lemma DeleteOnlyByAdmin(db: Db, cafeId: CafeId)
    ensures CurrentUser(db) != Some(AdminId) ==> DeleteCafe(db, cafeId) == Step(db, Forbidden)
    ensures var r := DeleteCafe(db, cafeId);
      r.outcome == Ok <==> CurrentUser(db) == Some(AdminId) && cafeId in db.cafes
    ensures var r := DeleteCafe(db, cafeId);
      r.outcome == Ok ==>
        && r.db.cafes.Keys == db.cafes.Keys - {cafeId}
        && (forall k :: k in r.db.cafes ==> r.db.cafes[k] == db.cafes[k])
        && r.db.users == db.users && r.db.reviews == Detach(db.reviews, cafeId) && r.db.session == db.session
    ensures DeleteCafe(db, cafeId).outcome != Ok ==> DeleteCafe(db, cafeId).db == db
  {
  }
}

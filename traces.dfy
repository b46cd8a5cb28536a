/**
 * Sequences of requests. Every state reachable from an empty database
 * satisfies the store invariant, no request ever removes or alters a user,
 * and a café disappears only through a delete request made by identity 1.
 */
module Traces {
  import opened Forms
  import opened Store
  import opened Handlers

  /** One submitted request, named after its route and method. */
  datatype Request =
    | PostRegister(registerForm: RegisterForm, salt: string)
    | PostLogin(loginForm: LoginForm)
    | GetLogout
    | PostReview(reviewCafe: CafeId, reviewForm: ReviewForm)
    | PostAdd(addForm: CafeForm)
    | PostEdit(editCafe: CafeId, editForm: CafeForm)
    | GetDelete(deleteCafe: CafeId)

  /** The route dispatch: which handler a request reaches. */
  ghost function Handle(h: Hasher, db: Db, req: Request): (r: Step)
    ensures Inv(db) ==> Inv(r.db)
  {
    match req
    case PostRegister(f, salt) => Register(h, db, f, salt)
    case PostLogin(f) => Login(h, db, f)
    case GetLogout => Logout(db)
    case PostReview(cafeId, f) => SubmitReview(db, cafeId, f)
    case PostAdd(f) => AddCafe(db, f)
    case PostEdit(cafeId, f) => EditCafe(db, cafeId, f)
    case GetDelete(cafeId) => DeleteCafe(db, cafeId)
  }

  /** The database after handling `reqs` in order. */
  ghost function Run(h: Hasher, db: Db, reqs: seq<Request>): Db
    decreases |reqs|
  {
    if reqs == [] then db else Run(h, Handle(h, db, reqs[0]).db, reqs[1..])
  }

  /** Every handler keeps the invariant, so every request sequence does. */
  lemma {:induction false} RunPreservesInv(h: Hasher, db: Db, reqs: seq<Request>)
    requires Inv(db)
    ensures Inv(Run(h, db, reqs))
    decreases |reqs|
  {
    if reqs != [] {
      RunPreservesInv(h, Handle(h, db, reqs[0]).db, reqs[1..]);
    }
  }

  /**
   * In every state reachable from a fresh database, emails are pairwise
   * distinct, café names are pairwise distinct, and every stored café's
   * amenity columns hold one of the form's choices.
   */
  lemma ReachableUnique(h: Hasher, reqs: seq<Request>)
    ensures UniqueEmails(Run(h, Empty, reqs).users)
    ensures UniqueNames(Run(h, Empty, reqs).cafes)
    ensures forall id :: id in Run(h, Empty, reqs).cafes ==> AmenitiesChosen(Run(h, Empty, reqs).cafes[id])
  {
    EmptyInv();
    RunPreservesInv(h, Empty, reqs);
  }

  /** A single request keeps every stored user as it was; registration only adds one under a fresh id. */
  lemma HandleKeepsUsers(h: Hasher, db: Db, req: Request)
    requires Inv(db)
    ensures forall id :: id in db.users ==> id in Handle(h, db, req).db.users && Handle(h, db, req).db.users[id] == db.users[id]
  {
    match req
    case PostRegister(f, salt) =>
      RegisterOkIff(h, db, f, salt);
      if ValidRegisterForm(f) && !EmailTaken(db.users, f.email) {
        RegisterSucceeds(h, db, f, salt);
      }
    case PostLogin(f) => LoginOnlyWhenVerified(h, db, f);
    case GetLogout => LogoutIsAnonymous(db);
    case PostReview(cafeId, f) => ReviewRules(db, cafeId, f);
    case PostAdd(f) =>
      AddCafeRejections(db, f);
      if CurrentUser(db).Some? && ValidCafeForm(f) && !NameTaken(db.cafes, f.name) {
        AddCafeSucceeds(db, f);
      }
    case PostEdit(cafeId, f) => EditOverwrites(db, cafeId, f);
    case GetDelete(cafeId) => DeleteOnlyByAdmin(db, cafeId);
  }

  /** No sequence of requests removes a user or changes a stored user record. */
  lemma {:induction false} UsersPersist(h: Hasher, db: Db, reqs: seq<Request>)
    requires Inv(db)
    ensures forall id :: id in db.users ==> id in Run(h, db, reqs).users && Run(h, db, reqs).users[id] == db.users[id]
    decreases |reqs|
  {
    if reqs != [] {
      var next := Handle(h, db, reqs[0]).db;
      HandleKeepsUsers(h, db, reqs[0]);
      UsersPersist(h, next, reqs[1..]);
    }
  }

  /** A single request removes café `cafeId` only when it is a delete of that café by identity 1. */
  lemma OnlyAdminDeleteRemoves(h: Hasher, db: Db, req: Request, cafeId: CafeId)
    requires cafeId in db.cafes && cafeId !in Handle(h, db, req).db.cafes
    ensures req == GetDelete(cafeId) && CurrentUser(db) == Some(AdminId)
  {
  }

  /**
   * If café `cafeId` is gone after a sequence of requests, one of them was a
   * delete of that café, made while the current identity was 1.
   */
  lemma {:induction false} CafeRemovedOnlyByAdmin(h: Hasher, db: Db, reqs: seq<Request>, cafeId: CafeId)
    requires cafeId in db.cafes && cafeId !in Run(h, db, reqs).cafes
    ensures exists i :: 0 <= i < |reqs| && reqs[i] == GetDelete(cafeId) && CurrentUser(Run(h, db, reqs[..i])) == Some(AdminId)
    decreases |reqs|
  {
    assert reqs != [];
    var next := Handle(h, db, reqs[0]).db;
    if cafeId !in next.cafes {
      OnlyAdminDeleteRemoves(h, db, reqs[0], cafeId);
      assert reqs[..0] == [];
      assert Run(h, db, reqs[..0]) == db;
    } else {
      CafeRemovedOnlyByAdmin(h, next, reqs[1..], cafeId);
      var i :| 0 <= i < |reqs[1..]| && reqs[1..][i] == GetDelete(cafeId) && CurrentUser(Run(h, next, reqs[1..][..i])) == Some(AdminId);
      assert reqs[..i + 1][0] == reqs[0];
      assert reqs[..i + 1][1..] == reqs[1..][..i];
      assert Run(h, db, reqs[..i + 1]) == Run(h, next, reqs[1..][..i]);
      assert reqs[i + 1] == GetDelete(cafeId);
    }
  }
}

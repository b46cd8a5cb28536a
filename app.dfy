/**
 * The running application: one object holding the three tables, their id
 * counters and the session, with one method per request handler. Each
 * method updates the tables in place and is proved to do exactly what the
 * corresponding function of `Handlers` prescribes.
 */
module App {
  import opened Forms
  import opened Store
  import opened Handlers

  class CafeSite {
    const hasher: Hasher
    var users: map<UserId, User>
    var cafes: map<CafeId, Cafe>
    var reviews: map<ReviewId, Review>
    var nextUserId: UserId
    var nextCafeId: CafeId
    var nextReviewId: ReviewId
    var session: Option<UserId>

    /** The database value the fields currently hold. */
    ghost function Snapshot(): Db
      reads this
    {
      Db(users, cafes, reviews, nextUserId, nextCafeId, nextReviewId, session)
    }

    ghost predicate Valid()
      reads this
    {
      Inv(Snapshot())
    }

    /** A site over an empty database. */
    constructor (h: Hasher)
      ensures Valid() && hasher == h && Snapshot() == Empty
    {
      hasher := h;
      users, cafes, reviews := map[], map[], map[];
      nextUserId, nextCafeId, nextReviewId := 1, 1, 1;
      session := None;
    }

    /** `load_user`: the user stored under `id`, or None. */
    method LoadUser(id: UserId) returns (u: Option<User>)
      ensures u.Some? <==> id in users
      ensures u.Some? ==> u.value == users[id]
    {
      if id in users {
        u := Some(users[id]);
      } else {
        u := None;
      }
    }

    /** `current_user.is_authenticated`, with the identity it resolves to. */
    method CurrentIdentity() returns (who: Option<UserId>)
      ensures who == CurrentUser(Snapshot())
      ensures who.Some? ==> who.value in users
    {
      who := None;
      if session.Some? {
        var u := LoadUser(session.value);
        if u.Some? {
          who := session;
        }
      }
    }

    /** The `admin_only` gate: the request may proceed only for identity 1. */
    method AdminOnly() returns (allowed: bool)
      ensures allowed <==> session == Some(AdminId) && AdminId in users
    {
      var who := CurrentIdentity();
      allowed := who == Some(AdminId);
    }

    /** `Cafes.query.get(cafe_id)`, as the café, edit and delete pages use it: the café stored under `id`, or None. */
    method GetCafe(id: CafeId) returns (c: Option<Cafe>)
      ensures c.Some? <==> id in cafes
      ensures c.Some? ==> c.value == cafes[id]
    {
      c := if id in cafes then Some(cafes[id]) else None;
    }

    method Register(form: RegisterForm, salt: string) returns (outcome: Outcome)
      requires Valid()
      modifies this
      ensures Valid()
      ensures Step(Snapshot(), outcome) == Handlers.Register(hasher, old(Snapshot()), form, salt)
    {
      ghost var expected := Handlers.Register(hasher, Snapshot(), form, salt);
      if !ValidRegisterForm(form) {
        return InvalidForm;
      }
      if exists id :: id in users && users[id].email == form.email {
        return Duplicate;
      }
      var id := nextUserId;
      users := users[id := User(form.email, hasher.hash(salt, form.password), form.name)];
      nextUserId := id + 1;
      session := Some(id);
      outcome := Ok;
      assert Snapshot() == expected.db;
    }

    method Login(form: LoginForm) returns (outcome: Outcome)
      requires Valid()
      modifies this
      ensures Valid()
      ensures Step(Snapshot(), outcome) == Handlers.Login(hasher, old(Snapshot()), form)
    {
      ghost var expected := Handlers.Login(hasher, Snapshot(), form);
      if !ValidLoginForm(form) {
        return InvalidForm;
      }
      if !exists id :: id in users && users[id].email == form.email {
        return UnknownEmail;
      }
      var id :| id in users && users[id].email == form.email;
      if !hasher.verify(users[id].password, form.password) {
        return WrongPassword;
      }
      session := Some(id);
      outcome := Ok;
      assert Snapshot() == expected.db;
    }

    method Logout() returns (outcome: Outcome)
      requires Valid()
      modifies this
      ensures Valid()
      ensures Step(Snapshot(), outcome) == Handlers.Logout(old(Snapshot()))
    {
      session := None;
      outcome := Ok;
    }

    /** The review submission of `show_cafe`. */
    method SubmitReview(cafeId: CafeId, form: ReviewForm) returns (outcome: Outcome)
      requires Valid()
      modifies this
      ensures Valid()
      ensures Step(Snapshot(), outcome) == Handlers.SubmitReview(old(Snapshot()), cafeId, form)
    {
      ghost var expected := Handlers.SubmitReview(Snapshot(), cafeId, form);
      if !ValidReviewForm(form) {
        return InvalidForm;
      }
      var who := CurrentIdentity();
      if who.None? {
        return NotAuthenticated;
      }
      var cafe := GetCafe(cafeId);
      if cafe.None? {
        return NotFound;
      }
      var id := nextReviewId;
      reviews := reviews[id := Review(who.value, Some(cafeId), form.reviewText)];
      nextReviewId := id + 1;
      outcome := Ok;
      assert Snapshot() == expected.db;
    }

    method AddCafe(form: CafeForm) returns (outcome: Outcome)
      requires Valid()
      modifies this
      ensures Valid()
      ensures Step(Snapshot(), outcome) == Handlers.AddCafe(old(Snapshot()), form)
    {
      ghost var expected := Handlers.AddCafe(Snapshot(), form);
      var who := CurrentIdentity();
      if who.None? {
        return NotAuthenticated;
      }
      if !ValidCafeForm(form) {
        return InvalidForm;
      }
      if exists id :: id in cafes && cafes[id].name == form.name {
        return Duplicate;
      }
      var id := nextCafeId;
      cafes := cafes[id := CafeFromForm(who.value, form)];
      nextCafeId := id + 1;
      outcome := Ok;
      assert Snapshot() == expected.db;
    }

    method EditCafe(cafeId: CafeId, form: CafeForm) returns (outcome: Outcome)
      requires Valid()
      modifies this
      ensures Valid()
      ensures Step(Snapshot(), outcome) == Handlers.EditCafe(old(Snapshot()), cafeId, form)
    {
      ghost var expected := Handlers.EditCafe(Snapshot(), cafeId, form);
      var who := CurrentIdentity();
      if who.None? {
        return NotAuthenticated;
      }
      if !ValidCafeForm(form) {
        return InvalidForm;
      }
      var cafe := GetCafe(cafeId);
      if cafe.None? {
        return NotFound;
      }
      if exists id :: id in cafes && id != cafeId && cafes[id].name == form.name {
        return Duplicate;
      }
      cafes := cafes[cafeId := Overwrite(cafe.value, form)];
      outcome := Ok;
      assert Snapshot() == expected.db;
    }

    method DeleteCafe(cafeId: CafeId) returns (outcome: Outcome)
      requires Valid()
      modifies this
      ensures Valid()
      ensures Step(Snapshot(), outcome) == Handlers.DeleteCafe(old(Snapshot()), cafeId)
    {
      ghost var expected := Handlers.DeleteCafe(Snapshot(), cafeId);
      var allowed := AdminOnly();
      if !allowed {
        return Forbidden;
      }
      var cafe := GetCafe(cafeId);
      if cafe.None? {
        return NotFound;
      }
      cafes := cafes - {cafeId};
      reviews := Detach(reviews, cafeId);
      outcome := Ok;
      assert Snapshot() == expected.db;
    }
  }
}

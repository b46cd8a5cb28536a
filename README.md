# Café directory: store and handler rules

A model of the rules a small café directory web application decides for
itself. Users register, log in and out, add cafés with their amenities
(wifi, toilets, power sockets, call-friendliness, seats, coffee price),
edit them, review them, and the administrator (identity 1) deletes them.
The application keeps three tables (`users`, `cafe`, `reviews`) and a
session that remembers which user is logged in.

The model has five modules:

- `Forms` (`forms.dfy`): the four submission forms as records of submitted
  text, and when each passes validation. The `DataRequired` validator is
  modelled as "holds a character that is not whitespace" (Python's
  `str.isspace()` set). It is proved equal to the validator's own test:
  the data is empty, or `str.strip()` leaves nothing. Strip is modelled
  as two recursive trims. Select fields accept exactly their declared
  choices.
- `Store` (`store.dfy`): the rows of the three tables, the database value
  `Db` (tables keyed by id, one id counter per table, the user id stored
  in the session), and the store invariant. The invariant requires
  distinct emails, distinct café names, every id below its table's
  counter, café and review authors that exist, review café references
  that exist, and café amenity columns that hold one of the café form's
  select choices. `CurrentUser` is `load_user` applied to the
  stored id: a missing user means an anonymous request.
- `Handlers` (`handlers.dfy`): each route handler as a function from the
  database to the new database plus an outcome (`Ok`, `InvalidForm`,
  `Duplicate`, `UnknownEmail`, `WrongPassword`, `NotAuthenticated`,
  `Forbidden`, `NotFound`). Each function promises to keep the invariant.
  The lemmas state what each handler adds, removes or overwrites, and
  that nothing else changes.
- `App` (`app.dfy`): class `CafeSite` with the tables, counters and
  session as fields. Each handler is a method that updates them in place
  and is proved equal to the `Handlers` function of the same name.
- `Traces` (`traces.dfy`): request sequences. Every state reachable from
  an empty database keeps emails and café names unique. No request
  removes or alters a user. A café disappears only through a delete of
  that café made while the identity was 1.

Password hashing is an outside collaborator: a `Hasher` value holding a
`hash(salt, password)` and a `verify(digest, password)` function. The
only property assumed of it is `Sound`: a digest verifies the password it
was made from. The random salt of each registration is a parameter.

Where the source would crash, the model returns an error outcome and
leaves the state unchanged:

- an edit or delete of a café id that does not exist gives `NotFound`;
- `admin_only` reading `id` of an anonymous user gives `Forbidden`;
- the redirect to the non-existent `add_new_post` endpoint after a
  duplicate café name gives `Duplicate`;
- an edit that gives a café the name of another café gives `Duplicate`.
  The name column is unique (main.py:57), so that commit fails.

Deleting a café does not delete its reviews. The relationship at
main.py:68 and main.py:78 has no delete cascade, so the ORM's default
applies: it clears the deleted café's reference in each of its reviews.
`Store.Detach` models this, and so the invariant can require that every
review café reference exists.

## Model

| member | source | states |
|---|---|---|
| Forms.TrimStart | forms.py:10-13 | The result is a suffix of the input. It is empty or starts with a non-whitespace character, and every character removed was whitespace. |
| Forms.TrimEnd | forms.py:10-13 | The result is a prefix of the input. It is empty or ends with a non-whitespace character, and every character removed was whitespace. |
| Forms.StripBlank | forms.py:10-13 | `strip()` gives the empty string exactly when every character is whitespace. |
| Forms.DataRequiredIsStripTest | forms.py:10-13 | A field passes `DataRequired` exactly when it is non-empty and does not strip to empty. |
| Forms.SelectChoiceIsMembership | forms.py:28-37 | A Yes/No select or the seats select accepts a value exactly when it is one of the declared choices. |
| Forms.RegisterFormRequiresAll | forms.py:9-14 | A registration is valid exactly when none of email, password, name and city is blank. |
| Forms.LoginFormRequiresBoth | forms.py:17-20 | A login is valid exactly when neither email nor password is blank. |
| Forms.ReviewFormRequiresText | forms.py:43-45 | A review is valid exactly when its text is not blank. |
| Forms.CafeFormShape | forms.py:23-40 | A café form is valid exactly when name, map_url, img_url, location and price are not blank and all five selects hold one of their choices. |
| Forms.CafeFormChoices | forms.py:28-37 | A valid café form has wifi, toilet, sockets and calls in {"Yes","No"} and seats in the five buckets. |
| Forms.NoFortyToFiftyBucket | forms.py:33-35 | A form whose seats value is "40-50" is rejected: that bucket does not exist. |
| Forms.UrlsNotFormatChecked | forms.py:24-26 | Any non-blank text can replace map_url and img_url in a valid form and the form stays valid. URLs are not format-checked. |
| Store.CurrentUser | main.py:35-37 | The identity is the stored session id when that id loads a user. Otherwise the request is anonymous. |
| Store.Detach | main.py:220-225 | After a café is deleted, the set of review ids is unchanged. Each review of that café now refers to no café, and no review refers to it. Other reviews are unchanged, and every review keeps its author and text. |
| Store.EmptyInv | main.py:40-80 | A fresh database satisfies the invariant. |
| Handlers.Register | main.py:100-116 | Registering preserves the store invariant. |
| Handlers.Login | main.py:121-135 | Logging in preserves the store invariant. |
| Handlers.Logout | main.py:138-141 | Logging out preserves the store invariant. |
| Handlers.SubmitReview | main.py:144-158 | Submitting a review preserves the store invariant. |
| Handlers.AddCafe | main.py:171-196 | Adding a café preserves the store invariant, including unique café names. |
| Handlers.EditCafe | main.py:199-217 | Editing preserves the store invariant, including unique café names. |
| Handlers.DeleteCafe | main.py:220-226 | Deleting preserves the store invariant, including review references. |
| Handlers.RegisterDuplicateRejected | main.py:104-106 | An email already in `users` means no user is created and the session is unchanged. With a valid form the outcome is Duplicate. |
| Handlers.RegisterSucceeds | main.py:107-115 | A successful registration adds exactly one user under a fresh id. The user has the form's email and name and `hash(salt, password)` as password; there is no city. The new user is logged in. Cafés and reviews are unchanged. |
| Handlers.RegisterOkIff | main.py:103-116 | Registration succeeds exactly for a valid form with a new email. Any other outcome leaves the state unchanged. |
| Handlers.FirstUserIsAdmin | main.py:87 | The first account registered in a fresh database is identity 1, the admin. |
| Handlers.LoginOnlyWhenVerified | main.py:123-134 | Login changes only the session. It succeeds only for a valid form, and then the session names a user with the form's email whose digest verifies the submitted password. On failure nothing changes. |
| Handlers.LoginSucceedsWhenVerified | main.py:127-133 | A valid login whose email belongs to a stored user, and whose password that user's digest verifies, succeeds and logs exactly that user in. Nothing else changes. |
| Handlers.LoginFailuresChangeNothing | main.py:128-131 | An unknown email gives UnknownEmail, and a failed verification gives WrongPassword. In both cases the state is unchanged. |
| Handlers.RegisterThenLogin | main.py:111-133 | With a sound hasher, logging in with the email and password just registered succeeds. |
| Handlers.LogoutIsAnonymous | main.py:138-141 | After logout the request is anonymous and the tables are unchanged. |
| Handlers.ReviewRules | main.py:148-157 | An anonymous caller adds no review. Otherwise a review is added exactly when the form is valid and the café exists. It is a single review by the current user, for the requested café. Users, cafés and the session never change. |
| Handlers.AddCafeRejections | main.py:171-178 | An anonymous caller gets NotAuthenticated, an invalid form gets InvalidForm, and a taken name gets Duplicate. None of them changes the state. |
| Handlers.AddCafeOkIff | main.py:171-193 | Adding succeeds exactly for a logged-in caller with a valid form and a café name not yet in use. |
| Handlers.AddCafeSucceeds | main.py:179-193 | A successful add creates exactly one café under a fresh id. Existing cafés, users, reviews and the session are unchanged. |
| Handlers.AddThenLookup | main.py:179-191 | Looking the new café up by id gives the current user as author. Its fields are the form's values through the mapping sockets→has_sockets, toilet→has_toilets, wifi→has_wifi, calls→can_take_calls, price→coffee_price. |
| Handlers.EditOverwrites | main.py:202-215 | A successful edit overwrites the ten mutable columns of the café and keeps its id and author. All other cafés, users, reviews and the session are unchanged. A failed edit changes nothing. |
| Handlers.EditCafeOkIff | main.py:199-215 | Editing succeeds exactly for a logged-in caller with a valid form, on an existing café, with a name no other café holds. An anonymous caller gets NotAuthenticated and an invalid form InvalidForm, with the state unchanged. |
| Handlers.EditIgnoresOwnership | main.py:199-215 | Any logged-in user can edit an existing café that somebody else added. |
| Handlers.DeleteOnlyByAdmin | main.py:220-226 | Deletion succeeds exactly for identity 1 on an existing café. It removes only that café, and its reviews stay with their café reference cleared (`Detach`). Users and the session are unchanged. Any other identity, anonymous included, gets Forbidden and the state is unchanged. |
| App.CafeSite.constructor | main.py:18-20 | A new site starts from the empty database, which satisfies the invariant. |
| App.CafeSite.LoadUser | main.py:35-37 | Returns the user stored under the id, or None when there is none. |
| App.CafeSite.CurrentIdentity | main.py:149 | Returns the identity `load_user` resolves from the session, which is always a stored user. |
| App.CafeSite.AdminOnly | main.py:84-91 | Lets the request through exactly when the session names user 1 and that user exists. |
| App.CafeSite.GetCafe | main.py:146 | Returns the café stored under the id, or None. The review, edit and delete methods use it for their lookup (main.py:146, 202, 223). |
| App.CafeSite.Register | main.py:100-116 | Keeps the invariant. The new state and outcome equal `Handlers.Register` of the old state. |
| App.CafeSite.Login | main.py:121-135 | Keeps the invariant. The new state and outcome equal `Handlers.Login`. |
| App.CafeSite.Logout | main.py:138-141 | Keeps the invariant. The new state and outcome equal `Handlers.Logout`. |
| App.CafeSite.SubmitReview | main.py:144-158 | Keeps the invariant. The new state and outcome equal `Handlers.SubmitReview`. |
| App.CafeSite.AddCafe | main.py:171-196 | Keeps the invariant. The new state and outcome equal `Handlers.AddCafe`. |
| App.CafeSite.EditCafe | main.py:199-217 | Keeps the invariant. The new state and outcome equal `Handlers.EditCafe`. |
| App.CafeSite.DeleteCafe | main.py:220-226 | Keeps the invariant. The new state and outcome equal `Handlers.DeleteCafe`. |
| Traces.Handle | main.py:94-226 | Each request, dispatched to its handler, keeps the store invariant. |
| Traces.RunPreservesInv | main.py:40-80 | Any sequence of requests keeps the store invariant. |
| Traces.ReachableUnique | main.py:43-57 | In every state reachable from an empty database, emails are pairwise distinct and café names are pairwise distinct. Every stored café's wifi, toilet, sockets and calls columns hold "Yes" or "No", and its seats column one of the five buckets. |
| Traces.HandleKeepsUsers | main.py:100-116 | No single request removes or changes a stored user. |
| Traces.UsersPersist | main.py:40-48 | No sequence of requests removes or changes a stored user. Users are never deleted. |
| Traces.OnlyAdminDeleteRemoves | main.py:220-226 | A single request that removes a café is a delete of that café, made while the identity is 1. |
| Traces.CafeRemovedOnlyByAdmin | main.py:84-91 | If a café is gone after a sequence of requests, one of them was a delete of it, made in a state whose identity was 1. |

## Left out

- HTTP routing, templates, `flash` messages and redirect targets are not modelled. The outcome datatype only says which branch a handler took.
- Requests that only render a page change no state and are left out: the listing page (main.py:94-97), the about and contact pages, and the GET requests that show the register, login, café, add and edit forms. Logout (main.py:138-141) and delete (main.py:220-226) are GET routes that change state, and both are modelled.
- The model starts from an empty database. The source opens an existing SQLite file (main.py:18), whose contents are assumed to satisfy the store invariant.
- There is one session, so the model describes a single client. Request sequences in `Traces` are one client's requests in order; several clients with their own sessions are not modelled.
- The CSRF token check of `validate_on_submit()` is not modelled. A form's validity depends only on its fields.
- The session cookie, its signing and persistence are not modelled. The session is the stored user id, and `load_user`'s `int()` parse of the cookie text is not part of this model.
- PBKDF2 hashing and the random salt are not modelled. They are the `Hasher` parameter and a salt argument, and the only assumption is `Sound`.
- Database transactions, the ORM session and `IntegrityError` are not modelled. A handler either applies all its changes or none.
- Ids are handed out by per-table counters that never go back. SQLite's rowid rule can reuse the largest id after that row is deleted. That reuse is not modelled, so a re-added café never takes the id of a deleted one.
- Crash paths are modelled as error outcomes with no state change (see above); the HTTP 500 responses themselves are not.
- A review posted to a missing café id is rejected as NotFound. The source would first commit a review with no café (main.py:152-157) and then render the page.
- The city entered at registration is dropped, as in the source: the `users` table has no column for it.
- Concurrency between requests is not modelled. Requests are handled one after another.

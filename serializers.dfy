/** The serializer layer: what each endpoint accepts as input, the checks it
    applies against the stored rows, and the computed rating of a title. */
module Serializers {
  import opened Wrappers
  import opened Fields
  import opened Roles
  import opened Permissions
  import opened Catalog

  // ---- user fields ----

  /** Some other user than `except` already has this username. */
  predicate UsernameTaken(users: map<nat, Account>, name: string, except: Option<nat>)
  {
    exists u :: u in users && Some(u) != except && users[u].username == name
  }

  /** Some other user than `except` already has this email. */
  predicate EmailTaken(users: map<nat, Account>, email: string, except: Option<nat>)
  {
    exists u :: u in users && Some(u) != except && users[u].email == email
  }

  function LowerChar(c: char): char
  {
    if 'A' <= c <= 'Z' then (c as int + 32) as char else c
  }

  /** Lower-casing of the letters A to Z; every other character is kept. */
  function Lower(s: string): (r: string)
    ensures |r| == |s|
    ensures forall i :: 0 <= i < |s| ==> r[i] == LowerChar(s[i])
  {
    if |s| == 0 then [] else [LowerChar(s[0])] + Lower(s[1..])
  }

  /** The username that is reserved for the `/users/me` alias. */
  const ReservedUsername: string := "me"

  /** `UserSignupSerializer.validate_username`: the reserved name is
      refused in any mix of cases, and every other name is returned unchanged. */
  function ValidateUsername(name: string): (r: Result<string, Field>)
    ensures r.Ok? ==> r.value == name
    ensures r.Err? ==> r.error == Username
    ensures r.Err? <==> name == "me" || name == "Me" || name == "mE" || name == "ME"
  {
    if Lower(name) == ReservedUsername then
      assert |name| == 2 && LowerChar(name[0]) == 'm' && LowerChar(name[1]) == 'e';
      assert name == [name[0], name[1]];
      Err(Username)
    else
      assert name == "me" || name == "Me" || name == "mE" || name == "ME" ==> Lower(name) == "me";
      Ok(name)
  }

  /** The fields of a signup request. */
  datatype SignupData = SignupData(username: Option<string>, email: Option<string>)

  /** The field errors of a signup request: both fields are required and
      non-blank, within their lengths, not used by any user yet, and the
      username is not the reserved one. */
  function SignupErrors(users: map<nat, Account>, d: SignupData): (r: set<Field>)
    ensures r <= {Username, Email}
    ensures Username !in r <==>
      d.username.Some? && 0 < |d.username.value| <= UsernameMaxLength
      && !UsernameTaken(users, d.username.value, None) && ValidateUsername(d.username.value).Ok?
    ensures Email !in r <==>
      d.email.Some? && 0 < |d.email.value| <= EmailMaxLength && !EmailTaken(users, d.email.value, None)
  {
    ErrorIf(!TextOk(d.username, true, false, UsernameMaxLength)
            || (d.username.Some? && (UsernameTaken(users, d.username.value, None)
                                     || ValidateUsername(d.username.value).Err?)), Username)
    + ErrorIf(!TextOk(d.email, true, false, EmailMaxLength)
              || (d.email.Some? && EmailTaken(users, d.email.value, None)), Email)
  }

  /** The user a valid signup creates. */
  function ValidateSignup(users: map<nat, Account>, d: SignupData): (r: Result<Account, set<Field>>)
    ensures r.Ok? <==> SignupErrors(users, d) == {}
    ensures r.Err? ==> r.error == SignupErrors(users, d)
    ensures r.Ok? ==> r.value == NewAccount(d.username.value, d.email.value)
  {
    var errors := SignupErrors(users, d);
    if errors != {} then Err(errors) else Ok(NewAccount(d.username.value, d.email.value))
  }

  /** A user created by a valid signup can be stored under a fresh id
      without breaking the user table's constraints. */
  lemma SignupKeepsUsers(users: map<nat, Account>, d: SignupData, id: nat)
    requires UsersValid(users) && id !in users
    requires ValidateSignup(users, d).Ok?
    ensures UsersValid(users[id := ValidateSignup(users, d).value])
  {
    var a := ValidateSignup(users, d).value;
    assert Username !in SignupErrors(users, d) && Email !in SignupErrors(users, d);
    assert !UsernameTaken(users, a.username, None) && !EmailTaken(users, a.email, None);
    StoreAccountKeepsUsers(users, id, a);
  }

  /** The writable fields of `UserSerializer`, as submitted. */
  datatype UserFields = UserFields(
    username: Option<string>, email: Option<string>,
    firstName: Option<string>, lastName: Option<string>,
    bio: Option<string>, role: Option<string>)

  /** The validated fields of `UserSerializer`; a field left out of a
      partial update is absent. */
  datatype UserChanges = UserChanges(
    username: Option<string>, email: Option<string>,
    firstName: Option<string>, lastName: Option<string>,
    bio: Option<string>, role: Option<Role>)

  /** The field errors of `UserSerializer` for the user `self` (absent on
      create). Username and email are required unless the update is
      partial, and may not belong to another user; the role must be one of
      the three role names. */
  function UserErrors(users: map<nat, Account>, self: Option<nat>, f: UserFields, partial: bool): (r: set<Field>)
    ensures Role in r <==> f.role.Some? && ParseRole(f.role.value).None?
    ensures Username !in r ==> f.username.Some? ==> !UsernameTaken(users, f.username.value, self) && |f.username.value| > 0
    ensures Email !in r ==> f.email.Some? ==> !EmailTaken(users, f.email.value, self) && |f.email.value| > 0
    ensures !partial && r == {} ==> f.username.Some? && f.email.Some?
  {
    var names := ErrorIf(!TextOk(f.username, !partial, false, UsernameMaxLength)
                         || (f.username.Some? && UsernameTaken(users, f.username.value, self)), Username)
                 + ErrorIf(!TextOk(f.email, !partial, false, EmailMaxLength)
                           || (f.email.Some? && EmailTaken(users, f.email.value, self)), Email);
    var profile := ErrorIf(!TextOk(f.firstName, false, true, PersonalNameMaxLength), FirstName)
                   + ErrorIf(!TextOk(f.lastName, false, true, PersonalNameMaxLength), LastName)
                   + ErrorIf(!TextOk(f.bio, false, true, BioMaxLength), Bio);
    var role := ErrorIf(f.role.Some? && ParseRole(f.role.value).None?, Role);
    names + profile + role
  }

  /** `UserSerializer` validation. The role field's default "user" is
      applied on a full write and skipped on a partial update. */
  function ValidateUser(users: map<nat, Account>, self: Option<nat>, f: UserFields, partial: bool): (r: Result<UserChanges, set<Field>>)
    ensures r.Ok? <==> UserErrors(users, self, f, partial) == {}
    ensures r.Err? ==> r.error == UserErrors(users, self, f, partial)
    ensures r.Ok? ==> (&& r.value.username == f.username && r.value.email == f.email
                       && r.value.firstName == f.firstName && r.value.lastName == f.lastName
                       && r.value.bio == f.bio)
    ensures r.Ok? && f.role.Some? ==> r.value.role.Some? && RoleName(r.value.role.value) == f.role.value
    ensures r.Ok? && f.role.None? ==> r.value.role == if partial then None else Some(DefaultRole)
  {
    var errors := UserErrors(users, self, f, partial);
    if errors != {} then Err(errors)
    else
      var role := if f.role.Some? then ParseRole(f.role.value) else if partial then None else Some(DefaultRole);
      Ok(UserChanges(f.username, f.email, f.firstName, f.lastName, f.bio, role))
  }

  function Pick<T>(v: Option<T>, current: T): T
  {
    if v.Some? then v.value else current
  }

  /** The account after `serializer.save()` writes the validated fields. */
  function ApplyChanges(a: Account, c: UserChanges): Account
  {
    Account(Pick(c.username, a.username), Pick(c.email, a.email),
            Pick(c.firstName, a.firstName), Pick(c.lastName, a.lastName),
            Pick(c.bio, a.bio), Pick(c.role, a.role), a.isStaff, a.isSuperuser)
  }

  /** Writing validated changes into user `id` keeps the user table's constraints. */
  lemma ValidatedChangesKeepUsers(users: map<nat, Account>, id: nat, f: UserFields, partial: bool, c: UserChanges)
    requires UsersValid(users) && id in users
    requires ValidateUser(users, Some(id), f, partial) == Ok(c)
    ensures UsersValid(users[id := ApplyChanges(users[id], c)])
  {
    ValidatedChangesClashWithNoOne(users, id, f, partial, c);
    StoreAccountKeepsUsers(users, id, ApplyChanges(users[id], c));
  }

  /** After validated changes, user `id` still has a non-blank email and
      shares neither username nor email with any other user. */
  lemma ValidatedChangesClashWithNoOne(users: map<nat, Account>, id: nat, f: UserFields, partial: bool, c: UserChanges)
    requires UsersValid(users) && id in users
    requires ValidateUser(users, Some(id), f, partial) == Ok(c)
    ensures |ApplyChanges(users[id], c).email| > 0
    ensures forall u :: u in users && u != id ==>
      users[u].username != ApplyChanges(users[id], c).username && users[u].email != ApplyChanges(users[id], c).email
  {
    var a := ApplyChanges(users[id], c);
    assert UserErrors(users, Some(id), f, partial) == {};
    forall u | u in users && u != id
      ensures users[u].username != a.username && users[u].email != a.email
    {
      assert !SameUsername(users, u, id) && !SameEmail(users, u, id);
    }
  }

  /** The account an administrator's valid create writes: the validated
      fields, with no framework privileges. */
  function AccountFrom(c: UserChanges): (a: Account)
    requires c.username.Some? && c.email.Some? && c.role.Some?
  {
    Account(c.username.value, c.email.value, Pick(c.firstName, []), Pick(c.lastName, []),
            Pick(c.bio, []), c.role.value, false, false)
  }

  /** An account created from a valid full write can be stored under a
      fresh id without breaking the user table's constraints; without a
      submitted role it has the default one. */
  lemma CreatedAccountKeepsUsers(users: map<nat, Account>, f: UserFields, c: UserChanges, id: nat)
    requires UsersValid(users) && id !in users
    requires ValidateUser(users, None, f, false) == Ok(c)
    ensures c.username.Some? && c.email.Some? && c.role.Some?
    ensures UsersValid(users[id := AccountFrom(c)])
    ensures f.role.None? ==> IsUser(AccountFrom(c))
  {
    assert UserErrors(users, None, f, false) == {};
    StoreAccountKeepsUsers(users, id, AccountFrom(c));
  }

  // ---- token request ----

  const TokenFieldMaxLength: nat := 200

  datatype TokenRequest = TokenRequest(username: Option<string>, confirmationCode: Option<string>)

  /** `UserTokenReceivingSerializer`: both fields are required, non-blank
      and at most 200 characters long. */
  function ValidateTokenRequest(req: TokenRequest): (r: Result<(string, string), set<Field>>)
    ensures r.Ok? ==> req.username == Some(r.value.0) && req.confirmationCode == Some(r.value.1)
    ensures r.Ok? ==> 0 < |r.value.0| <= TokenFieldMaxLength && 0 < |r.value.1| <= TokenFieldMaxLength
    ensures r.Err? ==> r.error != {} && r.error <= {Username, ConfirmationCode}
    ensures r.Err? ==> (Username in r.error <==> req.username.None? || !(0 < |req.username.value| <= TokenFieldMaxLength))
    ensures r.Err? ==> (ConfirmationCode in r.error <==>
                          req.confirmationCode.None? || !(0 < |req.confirmationCode.value| <= TokenFieldMaxLength))
  {
    var errors := ErrorIf(!TextOk(req.username, true, false, TokenFieldMaxLength), Username)
                + ErrorIf(!TextOk(req.confirmationCode, true, false, TokenFieldMaxLength), ConfirmationCode);
    if errors != {} then Err(errors) else Ok((req.username.value, req.confirmationCode.value))
  }

  // ---- reviews and comments ----

  /** A review as submitted. `author` and `title` are read-only fields:
      whatever the client sends in them is dropped. */
  datatype ReviewInput = ReviewInput(text: Option<string>, score: Option<int>, author: Option<string>, title: Option<string>)

  /** The validated writable fields of a review. */
  datatype ReviewChanges = ReviewChanges(text: Option<string>, score: Option<int>)

  /** `author` already has a review of `title`. */
  predicate HasReviewBy(reviews: map<nat, Review>, author: nat, title: nat)
  {
    exists q :: q in reviews && reviews[q].author == author && reviews[q].title == title
  }

  /** The field errors of a review: a non-blank text (required unless the
      update is partial) and, when given, a score from 1 to 10. */
  function ReviewFieldErrors(inp: ReviewInput, partial: bool): (r: set<Field>)
    ensures r <= {Text, Score}
    ensures Score in r <==> inp.score.Some? && !ValidScore(inp.score.value)
    ensures Text in r <==> !FilledOk(inp.text, !partial)
  {
    ErrorIf(!FilledOk(inp.text, !partial), Text)
    + ErrorIf(inp.score.Some? && !ValidScore(inp.score.value), Score)
  }

  /** `ReviewSerializer` validation for a request with method `m` by user
      `caller` on the title in the URL. PATCH is a partial update. The
      field checks run first; `validate` then refuses a POST when the
      caller already reviewed that title, and skips the check otherwise. */
  function ValidateReview(m: Method, reviews: map<nat, Review>, caller: nat, title: nat, inp: ReviewInput): (r: Result<ReviewChanges, set<Field>>)
    ensures r.Ok? ==> r.value == ReviewChanges(inp.text, inp.score)
    ensures r.Ok? <==> ReviewFieldErrors(inp, m == Patch) == {} && !(m == Post && HasReviewBy(reviews, caller, title))
    ensures r.Err? && ReviewFieldErrors(inp, m == Patch) == {} ==> r.error == {NonField}
    ensures r.Err? && ReviewFieldErrors(inp, m == Patch) != {} ==> r.error == ReviewFieldErrors(inp, m == Patch)
  {
    var errors := ReviewFieldErrors(inp, m == Patch);
    if errors != {} then Err(errors)
    else if m == Post && HasReviewBy(reviews, caller, title) then Err({NonField})
    else Ok(ReviewChanges(inp.text, inp.score))
  }

  /** The score a created review is stored with: the validated one, or the
      column default when the client sent none. */
  function StoredScoreOf(c: ReviewChanges): (s: int)
    ensures c.score.Some? ==> s == c.score.value
    ensures c.score.None? ==> s == DefaultScore
  {
    Pick(c.score, DefaultScore)
  }

  /** A review accepted on POST can be stored under a fresh id without
      breaking the one-review-per-author-and-title constraint. */
  lemma AcceptedReviewKeepsUnique(reviews: map<nat, Review>, caller: nat, title: nat, inp: ReviewInput, id: nat, rv: Review)
    requires ReviewsUnique(reviews) && id !in reviews
    requires ValidateReview(Post, reviews, caller, title, inp).Ok?
    requires rv.author == caller && rv.title == title
    ensures ReviewsUnique(reviews[id := rv])
  {
    assert !HasReviewBy(reviews, caller, title);
    var r := reviews[id := rv];
    forall p, q | SameReviewer(r, p, q) ensures p == q {
      if p != id && q != id {
        assert SameReviewer(reviews, p, q);
      }
    }
  }

  /** A comment as submitted; `author` and `review` are read-only fields. */
  datatype CommentInput = CommentInput(text: Option<string>, author: Option<string>, review: Option<string>)

  /** `CommentSerializer` validation: a non-blank text, required unless
      the update is partial; the validated text is returned. */
  function ValidateComment(partial: bool, inp: CommentInput): (r: Result<Option<string>, set<Field>>)
    ensures r.Ok? <==> FilledOk(inp.text, !partial)
    ensures r.Ok? ==> r.value == inp.text
    ensures r.Err? ==> r.error == {Text}
  {
    if FilledOk(inp.text, !partial) then Ok(inp.text) else Err({Text})
  }

  // ---- rating ----

  ghost function AnyKey(rs: map<nat, Review>): (k: nat)
    requires |rs| > 0
    ensures k in rs
  {
    var k :| k in rs; k
  }

  /** The sum of the scores of a set of reviews. */
  ghost function ScoreTotal(rs: map<nat, Review>): int
    decreases |rs|
  {
    if |rs| == 0 then 0
    else
      var k := AnyKey(rs);
      assert (rs - {k}).Keys == rs.Keys - {k};
      rs[k].score + ScoreTotal(rs - {k})
  }

  /** The sum does not depend on which review is taken out first. */
  lemma {:induction false} ScoreTotalRemove(rs: map<nat, Review>, k: nat)
    requires k in rs
    ensures ScoreTotal(rs) == rs[k].score + ScoreTotal(rs - {k})
    decreases |rs|
  {
    var j := AnyKey(rs);
    assert (rs - {j}).Keys == rs.Keys - {j};
    if j != k {
      assert (rs - {k}).Keys == rs.Keys - {k};
      assert rs - {j} - {k} == rs - {k} - {j};
      ScoreTotalRemove(rs - {j}, k);
      ScoreTotalRemove(rs - {k}, j);
    }
  }

  lemma SuccessorTimes(n: nat, x: int)
    ensures (n + 1) * x == n * x + x
  {
  }

  /** When every score lies in [lo, hi], the sum lies between |rs| * lo and |rs| * hi. */
  lemma {:induction false} ScoreTotalBounds(rs: map<nat, Review>, lo: int, hi: int)
    requires forall q :: q in rs ==> lo <= rs[q].score <= hi
    ensures |rs| * lo <= ScoreTotal(rs) <= |rs| * hi
    decreases |rs|
  {
    if |rs| > 0 {
      var k := AnyKey(rs);
      var rest := rs - {k};
      assert rest.Keys == rs.Keys - {k};
      ScoreTotalBounds(rest, lo, hi);
      ScoreTotalRemove(rs, k);
      assert |rs| == |rest| + 1;
      SuccessorTimes(|rest|, lo);
      SuccessorTimes(|rest|, hi);
    }
  }

  /** `get_rating`: the mean score of the title's reviews, or none when
      it has no reviews. */
  ghost function Rating(reviews: map<nat, Review>, title: nat): (r: Option<real>)
    ensures r.None? <==> forall q :: q in reviews ==> reviews[q].title != title
  {
    var rs := ReviewsOn(reviews, title);
    if |rs| == 0 then None
    else Some(ScoreTotal(rs) as real / |rs| as real)
  }

  lemma MeanBounds(total: int, n: nat, lo: int, hi: int)
    requires n > 0 && n * lo <= total <= n * hi
    ensures lo as real <= total as real / n as real <= hi as real
  {
    var mean := total as real / n as real;
    assert mean * n as real == total as real;
    assert (n * lo) as real == n as real * lo as real;
    assert (n * hi) as real == n as real * hi as real;
  }

  /** With stored scores the rating lies in [0, 10]; when every score of
      the title was supplied by its reviewer (so validated), in [1, 10]. */
  lemma RatingBounds(reviews: map<nat, Review>, title: nat)
    requires forall q :: q in reviews ==> StoredScore(reviews[q].score)
    ensures Rating(reviews, title).Some? ==> DefaultScore as real <= Rating(reviews, title).value <= MaxScore as real
    ensures (forall q :: q in reviews && reviews[q].title == title ==> ValidScore(reviews[q].score)) ==>
              Rating(reviews, title).Some? ==> MinScore as real <= Rating(reviews, title).value <= MaxScore as real
  {
    var rs := ReviewsOn(reviews, title);
    if |rs| > 0 {
      ScoreTotalBounds(rs, DefaultScore, MaxScore);
      MeanBounds(ScoreTotal(rs), |rs|, DefaultScore, MaxScore);
      if forall q :: q in reviews && reviews[q].title == title ==> ValidScore(reviews[q].score) {
        ScoreTotalBounds(rs, MinScore, MaxScore);
        MeanBounds(ScoreTotal(rs), |rs|, MinScore, MaxScore);
      }
    }
  }

  /** Two reviews of a title scored 7 and 9 give it the rating 8. */
  lemma RatingOfSevenAndNine(a: Review, b: Review, other: map<nat, Review>)
    requires a.title == b.title && a.score == 7 && b.score == 9
    requires forall q :: q in other ==> other[q].title != a.title
    requires 0 !in other && 1 !in other
    ensures Rating(other[0 := a][1 := b], a.title) == Some(8.0)
  {
    var reviews := other[0 := a][1 := b];
    var rs := ReviewsOn(reviews, a.title);
    assert rs.Keys == {0, 1};
    assert rs[0].score == 7 && rs[1].score == 9;
    ScoreTotalRemove(rs, 0);
    var rest := rs - {0};
    assert rest.Keys == {1};
    ScoreTotalRemove(rest, 1);
    assert |rest - {1}| == 0;
    assert ScoreTotal(rs) == 16 && |rs| == 2;
    MeanOfSixteenOverTwo();
  }

  /** Sixteen points over two reviews average eight. */
  lemma MeanOfSixteenOverTwo()
    ensures 16 as real / 2 as real == 8.0
  {
  }

  // ---- title write shape ----

  /** A title as submitted to the write shape. The write shape has no
      rating field, so a client-supplied `rating` is dropped. */
  datatype TitleInput = TitleInput(
    name: Option<string>, year: Option<int>, category: Option<string>,
    genre: Option<seq<string>>, description: Option<string>, rating: Option<real>)

  /** A validated title with the slugs of its genres. */
  datatype TitleDraft = TitleDraft(title: Title, genres: set<string>)

  /** The field errors of the write shape: a non-blank name within its
      length, a year in range, an existing category slug and a list of
      existing genre slugs, all required unless the update is partial. */
  function TitleErrors(categories: set<string>, genres: set<string>, maxYear: int, inp: TitleInput, partial: bool): (r: set<Field>)
    ensures r <= {Name, Year, Category, Genre}
    ensures Year in r <==> (inp.year.None? && !partial) || (inp.year.Some? && !ValidYear(inp.year.value, maxYear))
    ensures Category in r <==> (inp.category.None? && !partial) || (inp.category.Some? && inp.category.value !in categories)
    ensures Genre in r <==>
      || (inp.genre.None? && !partial)
      || (inp.genre.Some? && exists i :: 0 <= i < |inp.genre.value| && inp.genre.value[i] !in genres)
    ensures Name in r <==> !TextOk(inp.name, !partial, false, TitleNameMaxLength)
  {
    ErrorIf(!TextOk(inp.name, !partial, false, TitleNameMaxLength), Name)
    + ErrorIf((inp.year.None? && !partial) || (inp.year.Some? && !ValidYear(inp.year.value, maxYear)), Year)
    + ErrorIf((inp.category.None? && !partial) || (inp.category.Some? && inp.category.value !in categories), Category)
    + ErrorIf((inp.genre.None? && !partial)
              || (inp.genre.Some? && exists i :: 0 <= i < |inp.genre.value| && inp.genre.value[i] !in genres), Genre)
  }

  /** The distinct slugs of a submitted genre list. */
  function SlugSet(slugs: seq<string>): (r: set<string>)
    ensures forall g :: g in r <==> g in slugs
  {
    set i | 0 <= i < |slugs| :: slugs[i]
  }

  /** `TitleSerializerCreate` validation for a create: the category and
      genres are resolved by their slugs. */
  function ValidateTitle(categories: set<string>, genres: set<string>, maxYear: int, inp: TitleInput): (r: Result<TitleDraft, set<Field>>)
    ensures r.Ok? <==> TitleErrors(categories, genres, maxYear, inp, false) == {}
    ensures r.Err? ==> r.error == TitleErrors(categories, genres, maxYear, inp, false)
    ensures r.Ok? ==> && Some(r.value.title.name) == inp.name && Some(r.value.title.year) == inp.year
                      && r.value.title.category == inp.category
                      && r.value.title.category.Some? && r.value.title.category.value in categories
                      && ValidYear(r.value.title.year, maxYear)
                      && 0 < |r.value.title.name| <= TitleNameMaxLength
                      && r.value.genres <= genres
                      && (forall g :: g in r.value.genres <==> g in inp.genre.value)
    ensures r.Ok? && inp.description.Some? ==> r.value.title.description == inp.description.value
    ensures r.Ok? && inp.description.None? ==> r.value.title.description == []
  {
    var errors := TitleErrors(categories, genres, maxYear, inp, false);
    if errors != {} then Err(errors)
    else
      Ok(TitleDraft(Title(inp.name.value, inp.year.value, inp.category, Pick(inp.description, [])), SlugSet(inp.genre.value)))
  }

  /** A validated partial update of a title: the title with the submitted
      fields written over `current`, and the new genre slugs if a genre
      list was submitted. */
  datatype TitlePatch = TitlePatch(title: Title, genres: Option<set<string>>)

  /** `TitleSerializerCreate` validation for a partial update of `current`. */
  function ValidateTitlePatch(categories: set<string>, genres: set<string>, maxYear: int, current: Title, inp: TitleInput): (r: Result<TitlePatch, set<Field>>)
    ensures r.Ok? <==> TitleErrors(categories, genres, maxYear, inp, true) == {}
    ensures r.Err? ==> r.error == TitleErrors(categories, genres, maxYear, inp, true)
    ensures r.Ok? ==> && (inp.name.Some? ==> Some(r.value.title.name) == inp.name)
                      && (inp.name.Some? ==> 0 < |r.value.title.name| <= TitleNameMaxLength)
                      && (inp.year.Some? ==> Some(r.value.title.year) == inp.year)
                      && (inp.year.Some? ==> ValidYear(r.value.title.year, maxYear))
                      && (inp.description.Some? ==> Some(r.value.title.description) == inp.description)
                      && (inp.category.Some? ==> r.value.title.category == inp.category && inp.category.value in categories)
                      && (inp.name.None? ==> r.value.title.name == current.name)
                      && (inp.year.None? ==> r.value.title.year == current.year)
                      && (inp.category.None? ==> r.value.title.category == current.category)
                      && (inp.description.None? ==> r.value.title.description == current.description)
                      && (r.value.genres.Some? <==> inp.genre.Some?)
                      && (r.value.genres.Some? ==> r.value.genres.value <= genres)
                      && (r.value.genres.Some? ==> forall g :: g in r.value.genres.value <==> g in inp.genre.value)
  {
    var errors := TitleErrors(categories, genres, maxYear, inp, true);
    if errors != {} then Err(errors)
    else
      var t := Title(Pick(inp.name, current.name), Pick(inp.year, current.year),
                     if inp.category.Some? then inp.category else current.category,
                     Pick(inp.description, current.description));
      Ok(TitlePatch(t, if inp.genre.Some? then Some(SlugSet(inp.genre.value)) else None))
  }
}

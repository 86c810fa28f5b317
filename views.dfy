/** The request handlers' decisions: which permission classes guard each
    endpoint and which methods it serves, the serializer shape of the title
    endpoints, the token exchange, the `/users/me` outcome, and how reviews
    and comments are scoped to the resource in the URL. */
module Views {
  import opened Wrappers
  import opened Fields
  import opened Roles
  import opened Permissions
  import opened Catalog
  import opened Serializers

  datatype Endpoint = Users | UsersMe | Titles | Categories | Genres | Reviews | Comments | Signup | Token

  /** The collection route (`/titles/`) or the detail route (`/titles/{id}/`)
      of an endpoint; `/users/me`, signup and token have only the first. */
  datatype Route = Collection | Detail

  datatype Status =
    | Ok200 | Created201 | NoContent204 | BadRequest400 | Unauthorized401
    | Forbidden403 | NotFound404 | MethodNotAllowed405 | ServerError500

  // ---- permission composition ----

  /** The conjunction of `has_permission` over the endpoint's
      `permission_classes`, evaluated left to right. */
  predicate HasPermission(e: Endpoint, m: Method, a: Actor)
  {
    match e
    case Users => IsAuthenticated(a) && IsAdministrator(a.account)
    case UsersMe => IsAuthenticated(a)
    case Titles => IsAuthenticatedOrReadOnly(m, a) && IsAdminOnly(m, a)
    case Categories => IsAuthenticatedOrReadOnly(m, a) && IsAdminOnly(m, a)
    case Genres => IsAuthenticatedOrReadOnly(m, a) && IsAdminOnly(m, a)
    case Reviews => IsAuthenticatedOrReadOnly(m, a)
    case Comments => IsAuthenticatedOrReadOnly(m, a)
    case Signup => true
    case Token => true
  }

  /** The conjunction of `has_object_permission`, checked when a detail
      route fetches its object; only reviews and comments restrict it. */
  predicate HasObjectPermission(e: Endpoint, m: Method, a: Actor, author: nat)
    requires HasPermission(e, m, a)
  {
    (e == Reviews || e == Comments) ==> IsAuthorOrIsStaff(m, a, author)
  }

  predicate In(m: Method, ms: set<Method>) { m in ms }

  /** The methods each route answers. The title endpoint lists only GET,
      POST, DELETE and PATCH in `http_method_names`; categories and genres
      offer list, create and destroy; a GET route also answers HEAD, and
      every other route answers OPTIONS. */
  predicate MethodAllowed(e: Endpoint, route: Route, m: Method)
  {
    match e
    case Titles => In(m, if route == Collection then {Get, Post} else {Get, Patch, Delete})
    case Categories => In(m, if route == Collection then {Get, Head, Post, Options} else {Delete, Options})
    case Genres => In(m, if route == Collection then {Get, Head, Post, Options} else {Delete, Options})
    case UsersMe => In(m, {Get, Head, Patch, Options})
    case Signup => In(m, {Post, Options})
    case Token => In(m, {Post, Options})
    case _ => In(m, if route == Collection then {Get, Head, Post, Options} else {Get, Head, Put, Patch, Delete, Options})
  }

  /** The response a request gets before its handler runs, if any. The
      permission classes are checked before the method: a refused
      anonymous requester gets 401, a refused user 403, and an allowed
      requester using a method the route does not serve 405. */
  function Gate(e: Endpoint, route: Route, m: Method, a: Actor): (r: Option<Status>)
    ensures r.None? <==> HasPermission(e, m, a) && MethodAllowed(e, route, m)
    ensures r == Some(Unauthorized401) <==> !HasPermission(e, m, a) && a.Anonymous?
    ensures r == Some(Forbidden403) <==> !HasPermission(e, m, a) && a.Member?
    ensures r == Some(MethodNotAllowed405) <==> HasPermission(e, m, a) && !MethodAllowed(e, route, m)
  {
    if !HasPermission(e, m, a) then Some(if a.Anonymous? then Unauthorized401 else Forbidden403)
    else if !MethodAllowed(e, route, m) then Some(MethodNotAllowed405)
    else None
  }

  /** No endpoint other than signup and token lets an anonymous requester
      write: every unsafe method gets 401. */
  lemma AnonymousCannotWrite(e: Endpoint, route: Route, m: Method)
    requires e != Signup && e != Token && !IsSafe(m)
    ensures Gate(e, route, m, Anonymous) == Some(Unauthorized401)
  {
  }

  /** Anyone, anonymous or not, may read the public endpoints. */
  lemma PublicReads(e: Endpoint, route: Route, a: Actor)
    requires e in {Titles, Reviews, Comments} || (e in {Categories, Genres} && route == Collection)
    ensures Gate(e, route, Get, a).None?
  {
  }

  /** PUT never reaches a title handler, and no request updates a category
      or a genre: their detail routes serve only DELETE (and OPTIONS). */
  lemma NoReplaceOfTitlesOrGroups(route: Route, m: Method, a: Actor)
    ensures Gate(Titles, route, Put, a).Some?
    ensures (m == Put || m == Patch) ==> Gate(Categories, route, m, a).Some? && Gate(Genres, route, m, a).Some?
  {
  }

  /** A write to a title, category or genre passes the gate only for an
      authenticated admin; the staff and superuser flags are not enough. */
  lemma CatalogWritesNeedAdminRole(e: Endpoint, route: Route, m: Method, a: Actor)
    requires e in {Titles, Categories, Genres} && !IsSafe(m)
    requires Gate(e, route, m, a).None?
    ensures a.Member? && a.account.role == Admin
  {
    AdminOnlyWrites(m, a);
  }

  /** The user administration endpoint admits only the admin role, staff
      and superusers, whatever the method. */
  lemma UserAdministration(route: Route, m: Method, a: Actor)
    requires Gate(Users, route, m, a).None?
    ensures a.Member? && (a.account.role == Admin || a.account.isStaff || a.account.isSuperuser)
  {
    AdministratorGrants(a.account);
  }

  // ---- title serializer selection ----

  datatype Action = List | Create | Retrieve | Update | PartialUpdate | Destroy

  /** The viewset action a route and method map to. */
  function ActionOf(route: Route, m: Method): Option<Action>
  {
    match (route, m)
    case (Collection, Get) => Some(List)
    case (Collection, Post) => Some(Create)
    case (Detail, Get) => Some(Retrieve)
    case (Detail, Put) => Some(Update)
    case (Detail, Patch) => Some(PartialUpdate)
    case (Detail, Delete) => Some(Destroy)
    case _ => None
  }

  datatype Shape = ReadShape | WriteShape

  /** `TitleViewSet.get_serializer_class`. */
  function TitleShape(action: Action): (s: Shape)
    ensures s == ReadShape <==> action == List || action == Retrieve
  {
    if action == List || action == Retrieve then ReadShape else WriteShape
  }

  /** The fields of each shape: the read shape nests the category and the
      genres and adds the rating; the write shape names them by slug and has
      no rating. */
  function ShapeFields(s: Shape): (fs: seq<string>)
    ensures "rating" in fs <==> s == ReadShape
    ensures forall f :: f in fs ==> f in ["id", "name", "year", "category", "genre", "description", "rating"]
  {
    match s
    case ReadShape => ["id", "name", "year", "category", "genre", "description", "rating"]
    case WriteShape => ["id", "name", "year", "category", "genre", "description"]
  }

  /** Every request that reaches a title handler and is not a read is
      served with the write shape, which carries no rating. */
  lemma TitleWritesUseWriteShape(route: Route, m: Method, a: Actor)
    requires Gate(Titles, route, m, a).None? && m != Get
    ensures ActionOf(route, m).Some?
    ensures TitleShape(ActionOf(route, m).value) == WriteShape
    ensures "rating" !in ShapeFields(TitleShape(ActionOf(route, m).value))
  {
  }

  // ---- token exchange ----

  /** The user with the given username, when there is one. */
  ghost function FindUser(users: map<nat, Account>, name: string): (r: Option<nat>)
    ensures r.Some? ==> r.value in users && users[r.value].username == name
    ensures r.None? ==> forall u :: u in users ==> users[u].username != name
  {
    if exists u :: u in users && users[u].username == name then
      var u :| u in users && users[u].username == name; Some(u)
    else None
  }

  datatype TokenOutcome =
    | TokenIssued(token: string)
    | TokenRequestInvalid(errors: set<Field>)
    | TokenUserNotFound
    | TokenCodeRejected

  /** `GetTokenAPIView.post`. `checkCode` is the confirmation-code checker
      and `mint` the access-token minter, both outside this model. */
  ghost function ExchangeToken(
    users: map<nat, Account>, req: TokenRequest,
    checkCode: (nat, Account, string) -> bool, mint: (nat, Account) -> string): (r: TokenOutcome)
    ensures r.TokenRequestInvalid? <==> ValidateTokenRequest(req).Err?
    ensures r.TokenUserNotFound? <==>
      ValidateTokenRequest(req).Ok? && forall u :: u in users ==> users[u].username != req.username.value
    ensures r.TokenIssued? ==> exists u :: (u in users && users[u].username == req.username.value
      && checkCode(u, users[u], req.confirmationCode.value) && r.token == mint(u, users[u]))
    ensures r.TokenCodeRejected? ==> exists u :: (u in users && users[u].username == req.username.value
      && !checkCode(u, users[u], req.confirmationCode.value))
  {
    match ValidateTokenRequest(req)
    case Err(errors) => TokenRequestInvalid(errors)
    case Ok((name, code)) =>
      match FindUser(users, name)
      case None => TokenUserNotFound
      case Some(u) =>
        if checkCode(u, users[u], code) then TokenIssued(mint(u, users[u])) else TokenCodeRejected
  }

  /** The status of each outcome; the invalid-code answer is a 400 keyed
      by `confirmation_code`. */
  function TokenStatus(r: TokenOutcome): (s: Status)
    ensures s == Ok200 <==> r.TokenIssued?
    ensures s == NotFound404 <==> r.TokenUserNotFound?
    ensures s == BadRequest400 <==> r.TokenRequestInvalid? || r.TokenCodeRejected?
  {
    match r
    case TokenIssued(_) => Ok200
    case TokenRequestInvalid(_) => BadRequest400
    case TokenUserNotFound => NotFound404
    case TokenCodeRejected => BadRequest400
  }

  /** With unique usernames, a well-formed request gets a token exactly
      when the code checks out for the user of that name, and exactly one
      of the three outcomes happens. */
  lemma TokenExchangeOutcomes(
    users: map<nat, Account>, req: TokenRequest, u: nat,
    checkCode: (nat, Account, string) -> bool, mint: (nat, Account) -> string)
    requires UsersValid(users) && ValidateTokenRequest(req).Ok?
    requires u in users && users[u].username == req.username.value
    ensures ExchangeToken(users, req, checkCode, mint).TokenIssued?
        <==> checkCode(u, users[u], req.confirmationCode.value)
    ensures ExchangeToken(users, req, checkCode, mint).TokenIssued? ==>
              ExchangeToken(users, req, checkCode, mint).token == mint(u, users[u])
    ensures ExchangeToken(users, req, checkCode, mint).TokenCodeRejected?
        <==> !checkCode(u, users[u], req.confirmationCode.value)
  {
    var found := FindUser(users, req.username.value);
    assert SameUsername(users, found.value, u);
    assert found == Some(u);
  }

  // ---- /users/me ----

  datatype MeOutcome =
    | MeShown(account: Account)
    | MeSaved(account: Account)
    | MeRoleRefused
    | MeCrashed

  /** `UserViewSet.me` for the requesting user `caller`. GET shows the
      record. Any other method that reaches the handler (PATCH, and HEAD,
      which is routed to the same handler) is a partial update. For a
      caller whose role is user or moderator, a valid update asking for the
      role user or moderator is refused with 400, and any other valid update
      is saved with the role forced back to the caller's own. For any other
      caller the validated fields are saved as given. An invalid update
      reaches `save()` on an invalid serializer, which fails with a server
      error. */
  function MeOutcomeOf(users: map<nat, Account>, caller: nat, m: Method, f: UserFields): (r: MeOutcome)
    requires caller in users
    ensures m == Get ==> r == MeShown(users[caller])
    ensures m != Get ==> !r.MeShown?
    ensures m != Get && ValidateUser(users, Some(caller), f, true).Err? ==> r == MeCrashed
    ensures r.MeRoleRefused? <==>
      && m != Get && ValidateUser(users, Some(caller), f, true).Ok?
      && users[caller].role in {User, Moderator}
      && f.role.Some? && ParseRole(f.role.value) in {Some(User), Some(Moderator)}
    ensures m != Get && ValidateUser(users, Some(caller), f, true).Ok? && !r.MeRoleRefused? ==> r.MeSaved?
    ensures r.MeSaved? && users[caller].role in {User, Moderator} ==> r.account.role == users[caller].role
    ensures r.MeSaved? && users[caller].role == Admin && f.role.Some? ==> Some(r.account.role) == ParseRole(f.role.value)
    ensures r.MeSaved? && users[caller].role == Admin && f.role.None? ==> r.account.role == Admin
    ensures r.MeSaved? ==>
      && r.account.username == Pick(f.username, users[caller].username)
      && r.account.email == Pick(f.email, users[caller].email)
      && r.account.firstName == Pick(f.firstName, users[caller].firstName)
      && r.account.lastName == Pick(f.lastName, users[caller].lastName)
      && r.account.bio == Pick(f.bio, users[caller].bio)
      && r.account.isStaff == users[caller].isStaff && r.account.isSuperuser == users[caller].isSuperuser
  {
    var a := users[caller];
    if m == Get then MeShown(a)
    else
      var v := ValidateUser(users, Some(caller), f, true);
      ExactlyOneRole(a);
      if v.Ok? && (IsUser(a) || IsModerator(a)) then
        if v.value.role == Some(User) || v.value.role == Some(Moderator) then MeRoleRefused
        else MeSaved(ApplyChanges(a, v.value.(role := Some(a.role))))
      else if v.Err? then MeCrashed
      else MeSaved(ApplyChanges(a, v.value))
  }

  /** A user or moderator never changes their own role through `/users/me`,
      and asking for `admin` does not fail: the request is saved with the
      role unchanged. */
  lemma MeKeepsRoleOfUsersAndModerators(users: map<nat, Account>, caller: nat, f: UserFields)
    requires caller in users && users[caller].role != Admin
    requires ValidateUser(users, Some(caller), f, true).Ok? && f.role == Some("admin")
    ensures MeOutcomeOf(users, caller, Patch, f).MeSaved?
    ensures MeOutcomeOf(users, caller, Patch, f).account.role == users[caller].role
  {
  }

  /** What `/users/me` saves keeps the user table's constraints. */
  lemma MeKeepsUsers(users: map<nat, Account>, caller: nat, m: Method, f: UserFields)
    requires UsersValid(users) && caller in users
    requires MeOutcomeOf(users, caller, m, f).MeSaved?
    ensures UsersValid(users[caller := MeOutcomeOf(users, caller, m, f).account])
  {
    var v := ValidateUser(users, Some(caller), f, true);
    var a := users[caller];
    ExactlyOneRole(a);
    if IsUser(a) || IsModerator(a) {
      var c := v.value.(role := Some(a.role));
      ValidatedChangesClashWithNoOne(users, caller, f, true, v.value);
      assert ApplyChanges(a, c) == ApplyChanges(a, v.value).(role := a.role);
      StoreAccountKeepsUsers(users, caller, ApplyChanges(a, c));
    } else {
      ValidatedChangesKeepUsers(users, caller, f, true, v.value);
    }
  }

  // ---- reviews and comments, scoped to the URL ----

  datatype Rejection = Invalid(errors: set<Field>) | Missing

  /** `ReviewViewSet.get_queryset`: the reviews of the title in the URL, or
      404 when there is no such title. */
  function ReviewListing(titles: set<nat>, reviews: map<nat, Review>, title: nat): (r: Option<map<nat, Review>>)
    ensures r.None? <==> title !in titles
    ensures r.Some? ==> forall q :: q in r.value <==> q in reviews && reviews[q].title == title
    ensures r.Some? ==> forall q :: q in r.value ==> r.value[q] == reviews[q]
  {
    if title in titles then Some(ReviewsOn(reviews, title)) else None
  }

  /** `CommentViewSet.get_queryset`: the comments of the review in the URL,
      or 404 when there is no such review. The title id in the URL is not
      consulted. */
  function CommentListing(reviews: set<nat>, comments: map<nat, Comment>, title: nat, review: nat): (r: Option<map<nat, Comment>>)
    ensures r.None? <==> review !in reviews
    ensures r.Some? ==> forall c :: c in r.value <==> c in comments && comments[c].review == review
    ensures r.Some? ==> forall c :: c in r.value ==> r.value[c] == comments[c]
  {
    if review in reviews then Some(CommentsUnder(comments, review)) else None
  }

  /** Comment listing answers the same for any title id in the URL, even
      one the review does not belong to. */
  lemma CommentListingIgnoresTitle(reviews: set<nat>, comments: map<nat, Comment>, t1: nat, t2: nat, review: nat)
    ensures CommentListing(reviews, comments, t1, review) == CommentListing(reviews, comments, t2, review)
  {
  }

  /** The review a detail route on `/titles/{title}/reviews/{review}` acts
      on: it must be one of that title's reviews, or the answer is 404. */
  function ReviewAt(titles: set<nat>, reviews: map<nat, Review>, title: nat, review: nat): (r: Option<Review>)
    ensures r.Some? <==> title in titles && review in reviews && reviews[review].title == title
    ensures r.Some? ==> r.value == reviews[review]
  {
    var scope := ReviewListing(titles, reviews, title);
    if scope.Some? && review in scope.value then Some(scope.value[review]) else None
  }

  /** The comment a detail route on `.../reviews/{review}/comments/{comment}`
      acts on: one of that review's comments, whatever the title id. */
  function CommentAt(reviews: set<nat>, comments: map<nat, Comment>, title: nat, review: nat, comment: nat): (r: Option<Comment>)
    ensures r.Some? <==> review in reviews && comment in comments && comments[comment].review == review
    ensures r.Some? ==> r.value == comments[comment]
  {
    var scope := CommentListing(reviews, comments, title, review);
    if scope.Some? && comment in scope.value then Some(scope.value[comment]) else None
  }

  /** Review creation on `/titles/{title}/reviews/` by `caller` at time
      `now`: the serializer's checks first (400), then the title lookup
      (404); the stored review's author and title are the caller and the
      URL's title, never what the client sent. */
  function NewReview(titles: set<nat>, reviews: map<nat, Review>, caller: nat, title: nat, inp: ReviewInput, now: int): (r: Result<Review, Rejection>)
    ensures r.Ok? ==> && r.value.author == caller && r.value.title == title && r.value.pubDate == now
                      && title in titles && !HasReviewBy(reviews, caller, title)
                      && Some(r.value.text) == inp.text && |r.value.text| > 0
                      && r.value.score == (if inp.score.Some? then inp.score.value else DefaultScore)
                      && StoredScore(r.value.score)
    ensures r == Err(Missing) <==> ValidateReview(Post, reviews, caller, title, inp).Ok? && title !in titles
    ensures r.Err? && r.error.Invalid? <==> ValidateReview(Post, reviews, caller, title, inp).Err?
  {
    var v := ValidateReview(Post, reviews, caller, title, inp);
    if v.Err? then Err(Invalid(v.error))
    else if title !in titles then Err(Missing)
    else
      assert Text !in ReviewFieldErrors(inp, false);
      Ok(Review(caller, title, v.value.text.value, StoredScoreOf(v.value), now))
  }

  /** Whatever the client puts in the read-only `author` and `title`
      fields, review creation answers the same. */
  lemma ReviewReadOnlyFieldsIgnored(titles: set<nat>, reviews: map<nat, Review>, caller: nat, title: nat, inp: ReviewInput, now: int, author: Option<string>, claimed: Option<string>)
    ensures NewReview(titles, reviews, caller, title, inp, now)
         == NewReview(titles, reviews, caller, title, inp.(author := author, title := claimed), now)
  {
  }

  /** The review after an edit with method PUT or PATCH: the validated text
      and score replace the old ones; author, title and date stay. The
      one-review check is skipped, as the method is not POST. */
  function EditedReview(old_: Review, reviews: map<nat, Review>, caller: nat, m: Method, inp: ReviewInput): (r: Result<Review, Rejection>)
    requires m == Put || m == Patch
    ensures r.Ok? <==> ReviewFieldErrors(inp, m == Patch) == {}
    ensures r.Ok? ==> r.value.author == old_.author && r.value.title == old_.title && r.value.pubDate == old_.pubDate
    ensures r.Ok? ==> r.value.text == Pick(inp.text, old_.text) && r.value.score == Pick(inp.score, old_.score)
  {
    var v := ValidateReview(m, reviews, caller, old_.title, inp);
    if v.Err? then Err(Invalid(v.error))
    else Ok(old_.(text := Pick(v.value.text, old_.text), score := Pick(v.value.score, old_.score)))
  }

  /** Comment creation on `.../reviews/{review}/comments/`: the text check
      first (400), then the review lookup (404); the stored comment's author
      and review are the caller and the URL's review. */
  function NewComment(reviews: set<nat>, caller: nat, title: nat, review: nat, inp: CommentInput, now: int): (r: Result<Comment, Rejection>)
    ensures r.Ok? ==> && r.value.author == caller && r.value.review == review && r.value.pubDate == now
                      && review in reviews && Some(r.value.text) == inp.text && |r.value.text| > 0
    ensures r == Err(Missing) <==> FilledOk(inp.text, true) && review !in reviews
    ensures r == Err(Invalid({Text})) <==> !FilledOk(inp.text, true)
  {
    var v := ValidateComment(false, inp);
    if v.Err? then Err(Invalid(v.error))
    else if review !in reviews then Err(Missing)
    else Ok(Comment(caller, review, v.value.value, now))
  }

  /** Comment creation answers the same for any title id in the URL and
      whatever the client puts in the read-only fields. */
  lemma CommentCreateIgnoresTitleAndReadOnlyFields(reviews: set<nat>, caller: nat, t1: nat, t2: nat, review: nat, inp: CommentInput, now: int, author: Option<string>, claimed: Option<string>)
    ensures NewComment(reviews, caller, t1, review, inp, now)
         == NewComment(reviews, caller, t2, review, inp.(author := author, review := claimed), now)
  {
  }

  /** The comment after an edit with method PUT or PATCH. */
  function EditedComment(old_: Comment, m: Method, inp: CommentInput): (r: Result<Comment, Rejection>)
    requires m == Put || m == Patch
    ensures r.Ok? <==> FilledOk(inp.text, m == Put)
    ensures r.Ok? ==> r.value.author == old_.author && r.value.review == old_.review && r.value.pubDate == old_.pubDate
    ensures r.Ok? ==> r.value.text == Pick(inp.text, old_.text)
    ensures r.Ok? && inp.text.Some? ==> |r.value.text| > 0
  {
    var v := ValidateComment(m == Patch, inp);
    if v.Err? then Err(Invalid(v.error))
    else Ok(old_.(text := Pick(v.value, old_.text)))
  }
}

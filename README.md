# yamdb review API — a verified model of its core

yamdb is a review platform served over HTTP. Users sign up and receive a
confirmation code by mail. They exchange the code for an access token,
then review titles (books, films, songs) with a score from 1 to 10 and
comment on reviews. Administrators curate the catalogue of titles,
categories and genres, and manage user accounts.

This project models the core of that service in Dafny:

- **Roles** (`roles.dfy`): the three roles and the user record. It covers
  the role accessors and the user table's uniqueness constraints.
- **Permissions** (`permissions.dfy`): the three custom permission classes
  and the framework classes they are combined with, as predicates over the
  request method, the requester and the object's author.
- **Groups** (`groups.dfy`): the name-and-slug rows shared by categories and
  genres. It covers their field checks, slug uniqueness and the listing
  order by name.
- **Catalog** (`catalog.dfy`): titles, title–genre links, reviews and
  comments. It covers their validators, unique constraints and the
  `CASCADE` / `SET_NULL` effects of deleting a referenced row.
- **Serializers** (`serializers.dfy`): what each endpoint
  accepts, the checks it runs against stored rows, and the rating of a
  title.
- **Filters** (`filters.dfy`): the four optional title-listing filters.
- **Views** (`views.dfy`): the handler decisions. It covers the permission
  composition per endpoint, the allowed methods, the title serializer
  shape, the token exchange, the `/users/me` outcome, and how reviews and
  comments are scoped by the URL.
- **Database** (`store.dfy`): a `Store` class holding every table as a
  map. Its methods are the handlers that change state. Each one keeps the
  constraints of `Valid()`, gives its status for every input as a case
  split, and states its new tables. Left open are only the fresh ids of
  new genre links and the value of the id counter. Beside them,
  value-level lemmas show that each table operation keeps every
  constraint.

The year limit of titles is the calendar year when the models were
loaded. It is the constant `maxYear` of the store. Timestamps, the mailer,
the confirmation-code checker and the token minter are parameters.

Where the behaviour of the code differs from its documented intent, the
model follows the code. Those cases are:

- **A review without a score** is stored with the column default 0, so
  stored scores are 0 or 1–10.
- **An invalid PATCH of `/users/me`** calls `save()` on an invalid
  serializer, which fails with a server error.
- **A user or moderator asking `/users/me` for the admin role** has the
  request saved with their own role.
- **The object-level author check** leaves out the admin role.
- **Signing up with a username or email already in use** is refused.
- **A duplicate title** (same name and category) hits the database's unique
  constraint and so surfaces as a server error, not a validation error.
  This holds for Django REST framework before 3.15, which does not turn a
  model's `UniqueConstraint` into a serializer validator; from 3.15 on the
  same request would get 400. No framework version is pinned.
- **HEAD on `/users/me`** reaches the PATCH branch of the handler.

## Model

| member | source | states |
|---|---|---|
| Roles.RoleName | api_yamdb/users/models.py:10-15 | each role's stored name is non-empty and fits the 16-character role column |
| Roles.ParseRole | api_yamdb/users/models.py:21-25 | a string is accepted as a role exactly when it is the name of one of the three roles, and then it names that role |
| Roles.ParseRoleName | api_yamdb/users/models.py:21-25 | every role survives printing and parsing back |
| Roles.ExactlyOneRole | api_yamdb/users/models.py:50-63 | `is_user`, `is_moderator`, `is_admin` each hold iff the role is theirs, and exactly one holds for every account |
| Roles.StoreAccountKeepsUsers | api_yamdb/users/models.py:26-32 | storing an account with a non-blank email whose username and email no other user has keeps usernames and emails unique and emails non-blank |
| Roles.RemoveAccountKeepsUsers | api_yamdb/users/models.py:26-32 | removing a user keeps the user table's constraints |
| Roles.NewAccount | api_yamdb/users/models.py:34-36 | a new account has the given username and email, the default role user, no staff or superuser flag and empty optional fields |
| Permissions.AdministratorGrants | api_yamdb/api/v1/permission.py:12-17 | `IsAdministrator` grants iff role admin, superuser or staff; it takes no method |
| Permissions.AuthorCheckGrantsSafe | api_yamdb/api/v1/permission.py:25 | the object-level author check always grants GET, HEAD and OPTIONS |
| Permissions.AuthorCheckGrants | api_yamdb/api/v1/permission.py:23-30 | for a user the author check grants iff the method is safe, or the user is the author, a moderator, staff or superuser |
| Permissions.AdminRoleAloneCannotEditOthers | api_yamdb/api/v1/permission.py:23-30 | a plain admin (not staff, not superuser, not author) is refused unsafe methods on others' reviews and comments |
| Permissions.AdminOnlyGrantsSafe | api_yamdb/api/v1/permission.py:37 | `IsAdminOnly` grants safe methods to everyone, anonymous requesters included |
| Permissions.AdminOnlyWrites | api_yamdb/api/v1/permission.py:37-39 | `IsAdminOnly` grants an unsafe method iff the requester is authenticated with role admin; staff and superuser flags do not help |
| Permissions.SafeIsMonotone | api_yamdb/api/v1/permission.py:12-39 | turning an unsafe method into a safe one never turns a grant of `IsAuthenticatedOrReadOnly`, `IsAdminOnly` or the author check into a denial |
| Groups.GroupErrors | api_yamdb/core/models.py:9-12 | a name is refused iff blank or over 256 characters; a slug iff it is not a non-empty run of ASCII letters, digits, `-` and `_`, is over 50 characters, or is taken |
| Groups.AcceptedGroupKeepsTable | api_yamdb/core/models.py:10-12 | a row without errors has a fresh slug and can be added keeping every row valid and filed under its own slug |
| Groups.ListedByNameIsOrderedListing | api_yamdb/core/models.py:23 | the listing in default order holds every row exactly once and nothing else, ordered by name |
| Catalog.Label | api_yamdb/reviews/models.py:114-115 | the label of a review or comment is the prefix of its text of length min(15, length) |
| Catalog.NarrowedTitlesUnique | api_yamdb/reviews/models.py:58-62 | titles that keep their name and keep or lose their category stay unique per (name, category) |
| Catalog.NarrowedReviewsUnique | api_yamdb/reviews/models.py:108-112 | reviews that keep their title and author stay unique per (title, author) |
| Catalog.ReviewsOn | api_yamdb/api/v1/views.py:141-145 | a title's reviews are exactly the stored reviews of that title, unchanged |
| Catalog.CommentsUnder | api_yamdb/api/v1/views.py:164-168 | a review's comments are exactly the stored comments on that review, unchanged |
| Catalog.DetachCategory | api_yamdb/reviews/models.py:45-50 | deleting a category keeps every title; the titles of that category get a null category and are otherwise unchanged, and titles of other categories are untouched |
| Catalog.DetachGenre | api_yamdb/reviews/models.py:71 | deleting a genre keeps every link with its title; the links to that genre get a null genre, and links to other genres are untouched |
| Catalog.LinksOutside | api_yamdb/reviews/models.py:72 | deleting a title removes exactly its links and keeps the others unchanged |
| Catalog.ReviewsOutside | api_yamdb/reviews/models.py:86-90 | deleting a title removes exactly its reviews and keeps the others unchanged |
| Catalog.ReviewsNotBy | api_yamdb/reviews/models.py:81-85 | deleting a user removes exactly the reviews they wrote and keeps the others unchanged |
| Catalog.CommentsOn | api_yamdb/reviews/models.py:124-126 | after reviews are deleted, exactly the comments whose review survives remain, unchanged |
| Catalog.CommentsNotBy | api_yamdb/reviews/models.py:121-123 | deleting a user removes exactly the comments they wrote and keeps the others unchanged |
| Catalog.LinkedGenres | api_yamdb/reviews/models.py:51 | a title's genres are exactly the genres some link joins it to |
| Catalog.UnlinkGenresNotIn | api_yamdb/api/v1/serializers.py:190-192 | dropping a title's links to genres outside `gs` keeps every other link unchanged and leaves the title's genres as their intersection with `gs` |
| Catalog.DeleteCategoryKeepsTitles | api_yamdb/reviews/models.py:45-50 | deleting a category removes no title and the titles keep year, name, category and uniqueness constraints against the smaller category table |
| Catalog.DeleteGenreKeepsLinks | api_yamdb/reviews/models.py:71 | deleting a genre removes no link and the links keep their foreign keys against the smaller genre table |
| Catalog.DeleteTitleKeepsTables | api_yamdb/reviews/models.py:86-90 | deleting a title with its links, reviews and their comments keeps every constraint, and every comment on one of its reviews is gone |
| Catalog.DeleteUserKeepsTables | api_yamdb/reviews/models.py:81-85 | deleting a user with their reviews, the comments on them and their own comments keeps every review and comment constraint |
| Catalog.DeleteReviewKeepsTables | api_yamdb/reviews/models.py:124-126 | deleting a review with its comments keeps every review and comment constraint |
| Filters.FilterTitles | api_yamdb/api/v1/filters.py:7-17 | the listing holds only stored titles |
| Filters.NoQueryListsAll | api_yamdb/api/v1/filters.py:7-17 | a query with no parameters lists every title |
| Filters.FiltersCombine | api_yamdb/api/v1/filters.py:13-17 | the listing is the intersection of the four single-parameter listings |
| Filters.CategoryFilterSkipsUncategorized | api_yamdb/api/v1/filters.py:11 | a title without a category is never listed under a category |
| Filters.NameFilterMeaning | api_yamdb/api/v1/filters.py:10 | a title is listed for a name text iff its name contains it, case-sensitively; a longer text never matches |
| Filters.NameFilterFindsInfix | api_yamdb/api/v1/filters.py:10 | a name made of any prefix, the text and any suffix contains the text |
| Serializers.Lower | api_yamdb/api/v1/serializers.py:57 | lower-casing keeps the length and lowers each character on its own |
| Serializers.ValidateUsername | api_yamdb/api/v1/serializers.py:54-59 | a username is refused iff it is "me" in any mix of cases, and otherwise returned unchanged |
| Serializers.SignupErrors | api_yamdb/api/v1/serializers.py:42-59 | the username is accepted iff given, 1–150 characters, not taken and not reserved; the email iff given, 1–254 characters and not taken |
| Serializers.ValidateSignup | api_yamdb/api/v1/serializers.py:42-59 | a signup succeeds iff it has no field error and creates a default account with the given username and email; otherwise it returns the errors |
| Serializers.SignupKeepsUsers | api_yamdb/api/v1/views.py:99-101 | the account of a valid signup can be stored under a fresh id keeping the user table's constraints |
| Serializers.UserErrors | api_yamdb/api/v1/serializers.py:20-39 | the role is refused iff given and not a role name; an accepted username or email is non-blank and not another user's; a full write without errors has both |
| Serializers.ValidateUser | api_yamdb/api/v1/serializers.py:20-39 | validation succeeds iff there is no field error; it keeps the given fields, parses the role, defaults it to user on a full write and leaves it out of a partial one |
| Serializers.ValidatedChangesKeepUsers | api_yamdb/api/v1/serializers.py:20-39 | writing validated changes into a user keeps the user table's constraints |
| Serializers.ValidatedChangesClashWithNoOne | api_yamdb/users/models.py:26-32 | after validated changes the user's email is non-blank and neither username nor email is shared with another user |
| Serializers.CreatedAccountKeepsUsers | api_yamdb/api/v1/serializers.py:23 | a valid full write yields username, email and role; the account stored keeps the constraints, with role user when none was given |
| Serializers.ValidateTokenRequest | api_yamdb/api/v1/serializers.py:65-66 | a token request is accepted iff both fields are given and 1–200 characters; each error names exactly the failing fields |
| Serializers.ReviewFieldErrors | api_yamdb/reviews/models.py:95-102 | the score is refused iff given and outside 1–10; the text iff blank, or missing on a full write |
| Serializers.ValidateReview | api_yamdb/api/v1/serializers.py:101-111 | a review is accepted iff its fields are valid and it is not a POST by a user who already reviewed the title; the extra check is skipped on other methods |
| Serializers.StoredScoreOf | api_yamdb/reviews/models.py:95-97 | the stored score is the submitted one, or the default 0 when none was sent |
| Serializers.AcceptedReviewKeepsUnique | api_yamdb/reviews/models.py:108-112 | a review accepted on POST by the caller for the title can be stored under a fresh id keeping one review per title and author |
| Serializers.ValidateComment | api_yamdb/reviews/models.py:127 | a comment is accepted iff its text is non-blank (or absent in a partial update), and the text is passed on |
| Serializers.Rating | api_yamdb/api/v1/serializers.py:182-184 | the rating is absent iff the title has no reviews |
| Serializers.RatingBounds | api_yamdb/api/v1/serializers.py:182-184 | with stored scores the rating lies in [0, 10], and in [1, 10] when all the title's scores are valid |
| Serializers.RatingOfSevenAndNine | api_yamdb/api/v1/serializers.py:182-184 | two reviews scored 7 and 9 give the rating 8 |
| Serializers.ScoreTotalBounds | api_yamdb/reviews/models.py:95-102 | with every score in [lo, hi], the total lies between count·lo and count·hi |
| Serializers.TitleErrors | api_yamdb/api/v1/serializers.py:187-207 | name, year, category and genre are each refused iff missing on a full write or invalid: name blank or over 250, year outside 1000..maxYear, unknown category slug, some unknown genre slug |
| Serializers.SlugSet | api_yamdb/api/v1/serializers.py:190-192 | the genres of a submitted list are exactly its distinct slugs |
| Serializers.ValidateTitle | api_yamdb/api/v1/serializers.py:187-210 | creation succeeds iff there is no field error; the title has the given name, year, stored category and description (empty when none is given), and genres exactly the listed stored slugs |
| Serializers.ValidateTitlePatch | api_yamdb/api/v1/serializers.py:187-210 | a partial update succeeds iff there is no field error; a submitted name, year, category or description is valid and is the stored value, the others stay, and a submitted genre list gives exactly its slugs |
| Views.Gate | api_yamdb/api/v1/views.py:55-58 | a request passes iff its endpoint's permission classes all grant and the route serves the method; a refusal is 401 for anonymous and 403 for users; a permitted request with a method the route does not serve gets 405 |
| Views.AnonymousCannotWrite | api_yamdb/api/v1/views.py:136-139 | apart from signup and token, every unsafe request by an anonymous requester gets 401 |
| Views.PublicReads | api_yamdb/api/v1/views.py:185-188 | anyone may GET titles, reviews, comments and the category and genre lists |
| Views.NoReplaceOfTitlesOrGroups | api_yamdb/api/v1/views.py:212 | PUT never reaches a title handler and PUT or PATCH never reaches a category or genre |
| Views.CatalogWritesNeedAdminRole | api_yamdb/api/v1/views.py:213-216 | a write to titles, categories or genres passes only for an authenticated user with role admin |
| Views.UserAdministration | api_yamdb/api/v1/views.py:55-58 | user administration passes only for role admin, staff or superuser, whatever the method |
| Views.TitleShape | api_yamdb/api/v1/views.py:221-225 | list and retrieve use the read shape and every other action the write shape |
| Views.ShapeFields | api_yamdb/api/v1/serializers.py:170-207 | only the read shape has a rating field |
| Views.TitleWritesUseWriteShape | api_yamdb/api/v1/views.py:221-225 | every non-GET request that reaches the title handler uses the write shape, which has no rating |
| Views.FindUser | api_yamdb/api/v1/views.py:118-120 | the lookup finds a user with the given username, or reports none has it |
| Views.ExchangeToken | api_yamdb/api/v1/views.py:114-129 | the request is invalid iff validation fails; the user is not found iff no one has the name; a token is issued only for a user of that name whose code checks, minted for that user |
| Views.TokenStatus | api_yamdb/api/v1/views.py:116-128 | the answer is 200 iff a token is issued, 404 iff the user is unknown, and 400 iff the request is invalid or the code is rejected |
| Views.TokenExchangeOutcomes | api_yamdb/api/v1/views.py:118-129 | with unique usernames, a well-formed request for a stored name gets a token iff the code checks and is rejected iff it does not |
| Views.MeOutcomeOf | api_yamdb/api/v1/views.py:65-88 | GET shows the record; an invalid update crashes; a user or moderator asking for role user or moderator is refused; every other valid update is saved, with each submitted username, email, name and bio written and the others kept; a user or moderator keeps their role; an admin gets the requested one, or keeps admin when none is asked; flags never change |
| Views.MeKeepsRoleOfUsersAndModerators | api_yamdb/api/v1/views.py:85-86 | a user or moderator asking for admin is saved, with the role unchanged |
| Views.MeKeepsUsers | api_yamdb/api/v1/views.py:85-88 | what `/users/me` saves keeps the user table's constraints |
| Views.ReviewListing | api_yamdb/api/v1/views.py:141-145 | the listing is 404 iff the title is absent, and otherwise exactly the title's reviews |
| Views.CommentListing | api_yamdb/api/v1/views.py:164-168 | the listing is 404 iff the review is absent, and otherwise exactly the review's comments |
| Views.CommentListingIgnoresTitle | api_yamdb/api/v1/views.py:164-168 | comment listing answers the same for any title id in the URL |
| Views.ReviewAt | api_yamdb/api/v1/views.py:141-145 | a review detail is found iff the title exists and the review belongs to it |
| Views.CommentAt | api_yamdb/api/v1/views.py:164-168 | a comment detail is found iff the review exists and the comment belongs to it, whatever the title id |
| Views.NewReview | api_yamdb/api/v1/views.py:147-151 | a created review has the caller as author, the URL's title, the given date, text and stored score; it is 404 iff valid but the title is absent, 400 iff invalid |
| Views.ReviewReadOnlyFieldsIgnored | api_yamdb/api/v1/serializers.py:78-86 | client-sent author and title values do not change review creation |
| Views.EditedReview | api_yamdb/reviews/models.py:91-102 | an edit succeeds iff its fields are valid; text and score are replaced when given, and author, title and date stay |
| Views.NewComment | api_yamdb/api/v1/views.py:170-174 | a created comment has the caller as author, the URL's review, the given date and text; 404 iff valid but the review is absent, 400 iff the text is bad |
| Views.CommentCreateIgnoresTitleAndReadOnlyFields | api_yamdb/api/v1/serializers.py:117-125 | comment creation answers the same for any title id and any client-sent author and review |
| Views.EditedComment | api_yamdb/reviews/models.py:121-127 | an edit succeeds iff the text is valid; the text is replaced when given, and author, review and date stay |
| Database.AddUserKeepsTables | api_yamdb/users/models.py:26-32 | a user breaking no user constraint can be stored under the next id, which is unused, keeping every constraint |
| Database.ReplaceUserKeepsTables | api_yamdb/users/models.py:26-32 | replacing a user record by one breaking no user constraint keeps every constraint |
| Database.DeleteUserKeepsStore | api_yamdb/reviews/models.py:81-85 | deleting a user with its review and comment cascade keeps every constraint of every table |
| Database.AddCategoryKeepsTables | api_yamdb/core/models.py:10-12 | a category without field errors can be added keeping every constraint |
| Database.AddGenreKeepsTables | api_yamdb/core/models.py:10-12 | a genre without field errors can be added keeping every constraint |
| Database.DeleteCategoryKeepsStore | api_yamdb/reviews/models.py:45-50 | deleting a category and nulling its titles' category keeps every constraint |
| Database.DeleteGenreKeepsStore | api_yamdb/reviews/models.py:71 | deleting a genre and nulling its links' genre keeps every constraint |
| Database.AddTitleKeepsTables | api_yamdb/reviews/models.py:58-62 | a valid title with a stored category and no namesake in it can be stored under the unused next id keeping every constraint |
| Database.AddLinksKeepsTables | api_yamdb/reviews/models.py:68-72 | links added under fresh ids from stored titles to stored genres keep every constraint |
| Database.ReplaceTitleKeepsTables | api_yamdb/reviews/models.py:30-62 | replacing a title by a valid one with no namesake in its category keeps every constraint |
| Database.RemoveLinksKeepsTables | api_yamdb/reviews/models.py:68-72 | dropping links keeps every constraint |
| Database.RelinkKeepsTables | api_yamdb/reviews/models.py:68-72 | dropping some links and adding fresh ones to stored titles and genres keeps every constraint |
| Database.InsertTitleKeepsTables | api_yamdb/reviews/models.py:30-72 | a new title with fresh links to stored genres keeps every constraint |
| Database.LinkedGenresGrow | api_yamdb/reviews/models.py:51 | links added for a title, one per genre of `gs`, make its genres the old ones plus `gs` |
| Database.FreshTitleHasNoGenres | api_yamdb/reviews/models.py:72 | a title id not in use has no genres |
| Database.DeleteTitleKeepsStore | api_yamdb/reviews/models.py:86-90 | deleting a title with its link, review and comment cascade keeps every constraint |
| Database.AddReviewKeepsTables | api_yamdb/reviews/models.py:108-112 | a review of a stored title by a stored user who has not reviewed it, with a stored score and text, can be stored under the unused next id keeping every constraint |
| Database.ReplaceReviewKeepsTables | api_yamdb/reviews/models.py:78-112 | an edit keeping title and author, with stored score and text, keeps every constraint |
| Database.DeleteReviewKeepsStore | api_yamdb/reviews/models.py:124-126 | deleting a review with its comments keeps every constraint |
| Database.AddCommentKeepsTables | api_yamdb/reviews/models.py:118-127 | a comment on a stored review by a stored user with text can be stored under the unused next id keeping every constraint |
| Database.ReplaceCommentKeepsTables | api_yamdb/reviews/models.py:118-127 | an edit keeping review and author, with text, keeps every constraint |
| Database.DeleteCommentKeepsTables | api_yamdb/reviews/models.py:118-127 | deleting a comment keeps every constraint |
| Database.AddGenreLinks | api_yamdb/api/v1/serializers.py:190-192 | adds links from the title to each genre of `gs` under fresh ids, one per genre, keeps the old links, and makes the title's genres the old ones plus `gs` |
| Database.Store.constructor | api_yamdb/reviews/models.py:34-44 | an empty store with the given year limit satisfies every constraint |
| Database.Store.UserByName | api_yamdb/api/v1/views.py:51 | the `username` lookup returns the one user of that name, or none |
| Database.Store.Signup | api_yamdb/api/v1/views.py:97-106 | an invalid signup is 400 and changes nothing; a valid one stores the new default account under a fresh id, then answers 200, or 500 when the mail fails; constraints kept |
| Database.Store.CreateUser | api_yamdb/api/v1/views.py:46-58 | created iff valid; the new user has the submitted username and email, the submitted names and bio or empty ones, no privileges, and the submitted role or user; otherwise 400 and nothing changes; constraints kept |
| Database.Store.UpdateUser | api_yamdb/api/v1/views.py:46-58 | one of 200, 400 and 404: 404 iff no such username, 400 iff the user exists and the fields are invalid; on 200 the validated changes are written into that user only; constraints kept |
| Database.Store.Me | api_yamdb/api/v1/views.py:60-88 | does what `MeOutcomeOf` decides: 200 showing the record, 200 saving the outcome's account, 400 on a refused role, 500 on invalid data; only a save changes the table |
| Database.Store.DeleteUser | api_yamdb/reviews/models.py:81-85 | 404 iff no such username; otherwise the user, their reviews, the comments on them and their own comments go, and nothing else; constraints kept |
| Database.Store.CreateCategory | api_yamdb/api/v1/views.py:193-206 | created iff name and slug have no error, adding exactly that row; otherwise 400 and nothing changes |
| Database.Store.CreateGenre | api_yamdb/api/v1/views.py:177-190 | created iff name and slug have no error, adding exactly that row; otherwise 400 and nothing changes |
| Database.Store.DeleteCategory | api_yamdb/reviews/models.py:45-50 | 404 iff the slug is absent; otherwise the category goes and its titles lose their category, and nothing else changes |
| Database.Store.DeleteGenre | api_yamdb/reviews/models.py:71 | 404 iff the slug is absent; otherwise the genre goes and its links lose their genre, and nothing else changes |
| Database.Store.InsertTitle | api_yamdb/reviews/models.py:30-72 | stores the title under a fresh id, keeps the old links, and makes its genres exactly `gs` with one new link per genre; constraints kept |
| Database.Store.CreateTitle | api_yamdb/api/v1/views.py:209-225 | one of 201, 400 and 500: 400 iff invalid, 500 iff valid and a title has the same name and category; on 201 the title is stored under a fresh id, linked once to each listed genre, and the other rows are unchanged |
| Database.Store.RelinkGenres | api_yamdb/api/v1/serializers.py:190-192 | the title's genres become exactly `gs`: other titles' links, its null links and its links to listed genres stay unchanged, its links to unlisted genres go, and one new link is added per listed genre it lacked; constraints kept |
| Database.Store.UpdateTitle | api_yamdb/api/v1/views.py:209-225 | one of 200, 404, 400 and 500: 404 iff absent, 400 iff invalid, 500 iff valid with a namesake in the category; on 200 the validated title replaces the stored one, and a submitted genre list is applied as `RelinkGenres` states |
| Database.Store.DeleteTitle | api_yamdb/reviews/models.py:86-90 | 404 iff absent; otherwise the title, its links, its reviews and their comments go, and nothing else; constraints kept |
| Database.Store.CreateReview | api_yamdb/api/v1/views.py:147-151 | stores the review `NewReview` builds under a fresh id with 201; 404 on a missing title, 400 on invalid input, and then nothing changes |
| Database.Store.UpdateReview | api_yamdb/api/v1/views.py:132-145 | one of 200, 404, 403 and 400: 404 iff the review is not one of the URL title's, 403 iff the requester may not edit it, 200 iff found, permitted and valid; on 200 the validated edit replaces only that review |
| Database.Store.DeleteReview | api_yamdb/reviews/models.py:124-126 | one of 204, 404 and 403: 404 iff not the title's review, 403 iff not permitted; on 204 the review and its comments go, and nothing else |
| Database.Store.CreateComment | api_yamdb/api/v1/views.py:170-174 | stores the comment `NewComment` builds under a fresh id with 201; 404 on a missing review, 400 on bad text, and then nothing changes |
| Database.Store.UpdateComment | api_yamdb/api/v1/views.py:154-168 | one of 200, 404, 403 and 400: 404 iff the comment is not one of the URL review's, 403 iff the requester may not edit it, 200 iff found, permitted and valid; on 200 the validated edit replaces only that comment |
| Database.Store.DeleteComment | api_yamdb/api/v1/views.py:154-168 | one of 204, 404 and 403: 404 iff not the review's comment, 403 iff not permitted; on 204 exactly that comment goes |

## Left out

- Sending mail, generating and checking confirmation codes, and minting
  access tokens are done by code outside this model. The mail outcome is
  a boolean parameter; the code checker and the token minter are function
  parameters.
- Wall-clock time: a review's or comment's publication date is a
  parameter, and the year limit of titles is the store's constant
  `maxYear`.
- `Avg` returns a floating-point value; the rating is the exact mean as a
  `real`.
- The framework's username validator (letters, digits and `@.+-_`) and
  email format validation are not modelled: usernames and emails are
  checked for length, presence and uniqueness only.
- Uniqueness checks compare strings exactly, and the category and genre
  listings order names by code point. Database collation, which decides
  both in the database, and trimming of surrounding whitespace by the
  framework's `CharField` are not modelled.
- Serializers.Lower: only the letters A–Z are lowered. No other character
  lowers to `m` or `e`, so `ValidateUsername`'s verdict matches
  lower-casing of every letter.
- Serializers.UserErrors: the field-level errors for first name, last name
  and bio are not named in its contract. Username and email are stated
  only in the accepted direction.
- Filters.FilterTitles: its contract states only that the result is
  a subset of the titles. What it lists is stated by `NoQueryListsAll`,
  `FiltersCombine`, `CategoryFilterSkipsUncategorized` and
  `NameFilterMeaning`.
- Pagination, the name search of the category, genre and user listings,
  and the order of title, review, comment and user listings are not
  modelled. Listings are maps or sets; only the category and genre order
  by name is modelled.
- Response bodies are not modelled; handlers return a status, and for
  `/users/me` the account shown.
- Routing: `title_id` and `review_id` must be digit strings, which the
  natural-number ids stand for.
- The `constraints` list in the category and genre base model sits
  outside `Meta`, so it is not enforced and is not modelled. Slug
  uniqueness already implies uniqueness of name and slug together.
- `Title.__str__` returns a set and is not modelled.
- Concurrent requests: handlers run one at a time on the store.
- Row ids: one counter hands out the ids of every table, where the
  database keeps one sequence per table. Only freshness of ids is
  modelled, not their values.
- The CSV loading command and the admin site are not part of this model.
- Titles without a category are not constrained by the unique constraint
  on (name, category), as a NULL never equals another NULL.

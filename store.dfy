/** The relational store behind the API: the tables of users, categories,
    genres, titles, title-genre links, reviews and comments, with the
    insert and delete operations the request handlers perform on them.
    Every operation keeps the table constraints of `Valid`, and each
    method's frame names exactly the tables it may change. */
module Database {
  import opened Wrappers
  import opened Fields
  import opened Roles
  import opened Permissions
  import opened Groups
  import opened Catalog
  import opened Serializers
  import opened Views

  /** A snapshot of every table, with the next unused row id. */
  datatype Tables = Tables(
    users: map<nat, Account>,
    categories: map<string, Group>, genres: map<string, Group>,
    titles: map<nat, Title>, links: map<nat, GenreLink>,
    reviews: map<nat, Review>, comments: map<nat, Comment>,
    nextId: nat)

  /** Every id in `ks` is below `n`. */
  ghost predicate Below(ks: set<nat>, n: nat)
  {
    forall k :: k in ks ==> k < n
  }

  /** The constraints of every table and every foreign key, for titles
      dated no later than `maxYear`; every row id is below `nextId`. */
  ghost predicate TablesValid(t: Tables, maxYear: int)
  {
    && UsersValid(t.users)
    && GroupsValid(t.categories) && GroupsValid(t.genres)
    && TitlesValid(t.titles, t.categories.Keys, maxYear)
    && LinksValid(t.links, t.genres.Keys, t.titles.Keys)
    && ReviewsValid(t.reviews, t.titles.Keys, t.users.Keys)
    && CommentsValid(t.comments, t.reviews.Keys, t.users.Keys)
    && Below(t.users.Keys, t.nextId) && Below(t.titles.Keys, t.nextId) && Below(t.links.Keys, t.nextId)
    && Below(t.reviews.Keys, t.nextId) && Below(t.comments.Keys, t.nextId)
  }

  // ---- each table operation keeps every constraint ----

  lemma BelowSubset(ks: set<nat>, smaller: set<nat>, n: nat)
    requires Below(ks, n) && smaller <= ks
    ensures Below(smaller, n)
  {
  }

  /** A user who breaks no user-table constraint can be stored under the
      next id. */
  lemma AddUserKeepsTables(t: Tables, maxYear: int, a: Account)
    requires TablesValid(t, maxYear) && UsersValid(t.users[t.nextId := a])
    ensures t.nextId !in t.users
    ensures TablesValid(t.(users := t.users[t.nextId := a], nextId := t.nextId + 1), maxYear)
  {
  }

  /** A user record can be replaced by one that breaks no user-table constraint. */
  lemma ReplaceUserKeepsTables(t: Tables, maxYear: int, id: nat, a: Account)
    requires TablesValid(t, maxYear) && id in t.users && UsersValid(t.users[id := a])
    ensures TablesValid(t.(users := t.users[id := a]), maxYear)
  {
    assert t.users[id := a].Keys == t.users.Keys;
  }

  /** Deleting a user with the cascade of `DeleteUser`. */
  lemma DeleteUserKeepsStore(t: Tables, maxYear: int, id: nat)
    requires TablesValid(t, maxYear)
    ensures var kept := ReviewsNotBy(t.reviews, id);
      TablesValid(t.(users := t.users - {id}, reviews := kept,
                     comments := CommentsNotBy(CommentsOn(t.comments, kept.Keys), id)), maxYear)
  {
    var kept := ReviewsNotBy(t.reviews, id);
    DeleteUserKeepsTables(t.titles.Keys, t.reviews, t.comments, t.users.Keys, id);
    RemoveAccountKeepsUsers(t.users, id);
    BelowSubset(t.users.Keys, (t.users - {id}).Keys, t.nextId);
    BelowSubset(t.reviews.Keys, kept.Keys, t.nextId);
    BelowSubset(t.comments.Keys, CommentsNotBy(CommentsOn(t.comments, kept.Keys), id).Keys, t.nextId);
  }

  /** A category that passes `GroupErrors` can be added. */
  lemma AddCategoryKeepsTables(t: Tables, maxYear: int, name: string, slug: string)
    requires TablesValid(t, maxYear) && GroupErrors(name, slug, t.categories.Keys) == {}
    ensures TablesValid(t.(categories := t.categories[slug := Group(name, slug)]), maxYear)
  {
    AcceptedGroupKeepsTable(t.categories, name, slug);
  }

  /** A genre that passes `GroupErrors` can be added. */
  lemma AddGenreKeepsTables(t: Tables, maxYear: int, name: string, slug: string)
    requires TablesValid(t, maxYear) && GroupErrors(name, slug, t.genres.Keys) == {}
    ensures TablesValid(t.(genres := t.genres[slug := Group(name, slug)]), maxYear)
  {
    AcceptedGroupKeepsTable(t.genres, name, slug);
  }

  /** Deleting a category with the nulling of `DeleteCategory`. */
  lemma DeleteCategoryKeepsStore(t: Tables, maxYear: int, slug: string)
    requires TablesValid(t, maxYear)
    ensures TablesValid(t.(categories := t.categories - {slug}, titles := DetachCategory(t.titles, slug)), maxYear)
  {
    DeleteCategoryKeepsTitles(t.titles, t.categories.Keys, maxYear, slug);
    assert (t.categories - {slug}).Keys == t.categories.Keys - {slug};
  }

  /** Deleting a genre with the nulling of `DeleteGenre`. */
  lemma DeleteGenreKeepsStore(t: Tables, maxYear: int, slug: string)
    requires TablesValid(t, maxYear)
    ensures TablesValid(t.(genres := t.genres - {slug}, links := DetachGenre(t.links, slug)), maxYear)
  {
    DeleteGenreKeepsLinks(t.links, t.genres.Keys, t.titles.Keys, slug);
    assert (t.genres - {slug}).Keys == t.genres.Keys - {slug};
  }

  /** A title with a stored category, a valid year and name, and no
      namesake in its category can be stored under the next id. */
  lemma AddTitleKeepsTables(t: Tables, maxYear: int, title: Title)
    requires TablesValid(t, maxYear)
    requires ValidYear(title.year, maxYear) && 0 < |title.name| <= TitleNameMaxLength
    requires title.category.Some? && title.category.value in t.categories
    requires forall k :: k in t.titles ==> !(t.titles[k].name == title.name && t.titles[k].category == title.category)
    ensures t.nextId !in t.titles
    ensures TablesValid(t.(titles := t.titles[t.nextId := title], nextId := t.nextId + 1), maxYear)
  {
    var ts := t.titles[t.nextId := title];
    forall a, b | SameTitle(ts, a, b) ensures a == b {
      if a != t.nextId && b != t.nextId {
        assert SameTitle(t.titles, a, b);
      }
    }
  }

  /** Links added under fresh ids, from a stored title to stored genres. */
  lemma AddLinksKeepsTables(t: Tables, maxYear: int, links: map<nat, GenreLink>, next: nat)
    requires TablesValid(t, maxYear) && next >= t.nextId && Below(links.Keys, next)
    requires forall l :: l in t.links ==> l in links && links[l] == t.links[l]
    requires forall l :: l in links && l !in t.links ==>
      links[l].title in t.titles && (links[l].genre.Some? ==> links[l].genre.value in t.genres)
    ensures TablesValid(t.(links := links, nextId := next), maxYear)
  {
    assert LinksValid(links, t.genres.Keys, t.titles.Keys);
  }

  /** A title can be replaced by one with a valid year and name, a stored
      category or none, and no other title of that name in that category. */
  lemma ReplaceTitleKeepsTables(t: Tables, maxYear: int, id: nat, title: Title)
    requires TablesValid(t, maxYear) && id in t.titles
    requires ValidYear(title.year, maxYear) && 0 < |title.name| <= TitleNameMaxLength
    requires title.category.Some? ==> title.category.value in t.categories
    requires title.category.Some? ==>
      forall k :: k in t.titles && k != id ==> !(t.titles[k].name == title.name && t.titles[k].category == title.category)
    ensures TablesValid(t.(titles := t.titles[id := title]), maxYear)
  {
    var ts := t.titles[id := title];
    assert ts.Keys == t.titles.Keys;
    forall a, b | SameTitle(ts, a, b) ensures a == b {
      if a != id && b != id {
        assert SameTitle(t.titles, a, b);
      }
    }
  }

  /** Dropping links keeps every constraint. */
  lemma RemoveLinksKeepsTables(t: Tables, maxYear: int, kept: map<nat, GenreLink>)
    requires TablesValid(t, maxYear)
    requires forall l :: l in kept ==> l in t.links && kept[l] == t.links[l]
    ensures TablesValid(t.(links := kept), maxYear)
  {
    BelowSubset(t.links.Keys, kept.Keys, t.nextId);
    assert LinksValid(kept, t.genres.Keys, t.titles.Keys);
  }

  /** Replacing a title's genre links: dropping some links, then adding
      links under fresh ids from stored titles to stored genres. */
  lemma RelinkKeepsTables(t: Tables, maxYear: int, kept: map<nat, GenreLink>,
                          links: map<nat, GenreLink>, next: nat)
    requires TablesValid(t, maxYear)
    requires forall l :: l in kept ==> l in t.links && kept[l] == t.links[l]
    requires next >= t.nextId && Below(links.Keys, next)
    requires forall l :: l in kept ==> l in links && links[l] == kept[l]
    requires forall l :: l in links && l !in kept ==>
      links[l].title in t.titles && (links[l].genre.Some? ==> links[l].genre.value in t.genres)
    ensures TablesValid(t.(links := links, nextId := next), maxYear)
  {
    RemoveLinksKeepsTables(t, maxYear, kept);
    AddLinksKeepsTables(t.(links := kept), maxYear, links, next);
  }

  /** The genres kept from `linked` plus the missing ones are exactly `gs`. */
  lemma KeptAndMissing(linked: set<string>, gs: set<string>)
    ensures linked * gs + (gs - linked) == gs
  {
  }

  /** A new title under the next id, with links from it to each genre of
      `gs` under fresh ids, keeps every constraint. */
  lemma InsertTitleKeepsTables(t: Tables, maxYear: int, title: Title, gs: set<string>,
                               links: map<nat, GenreLink>, next: nat)
    requires TablesValid(t, maxYear)
    requires ValidYear(title.year, maxYear) && 0 < |title.name| <= TitleNameMaxLength
    requires title.category.Some? && title.category.value in t.categories && gs <= t.genres.Keys
    requires forall k :: k in t.titles ==> !(t.titles[k].name == title.name && t.titles[k].category == title.category)
    requires next > t.nextId && Below(links.Keys, next)
    requires forall l :: l in t.links ==> l in links && links[l] == t.links[l]
    requires forall l :: l in links && l !in t.links ==>
      links[l].title == t.nextId && links[l].genre.Some? && links[l].genre.value in gs
    ensures TablesValid(t.(titles := t.titles[t.nextId := title], links := links, nextId := next), maxYear)
  {
    AddTitleKeepsTables(t, maxYear, title);
    var t1 := t.(titles := t.titles[t.nextId := title], nextId := t.nextId + 1);
    AddLinksKeepsTables(t1, maxYear, links, next);
  }

  /** Links added to `before` for `title`, one to each genre of `gs`,
      make `gs` part of the title's genres and add nothing else. */
  lemma LinkedGenresGrow(before: map<nat, GenreLink>, after: map<nat, GenreLink>, title: nat, gs: set<string>)
    requires forall l :: l in before ==> l in after && after[l] == before[l]
    requires forall l :: l in after && l !in before ==>
      after[l].title == title && after[l].genre.Some? && after[l].genre.value in gs
    requires forall g :: g in gs ==> exists l :: l in after && l !in before && after[l] == GenreLink(Some(g), title)
    ensures LinkedGenres(after, title) == LinkedGenres(before, title) + gs
  {
    forall g | g in LinkedGenres(after, title) ensures g in LinkedGenres(before, title) + gs {
      var l :| l in after && after[l].title == title && after[l].genre == Some(g);
      if l in before {
        assert before[l] == after[l];
      }
    }
    forall g | g in LinkedGenres(before, title) ensures g in LinkedGenres(after, title) {
      var l :| l in before && before[l].title == title && before[l].genre == Some(g);
      assert after[l] == before[l];
    }
  }

  /** A title id not in use has no links. */
  lemma FreshTitleHasNoGenres(links: map<nat, GenreLink>, titles: set<nat>, id: nat)
    requires forall l :: l in links ==> links[l].title in titles
    requires id !in titles
    ensures LinkedGenres(links, id) == {}
  {
  }

  /** Deleting a title with the cascade of `DeleteTitle`. */
  lemma DeleteTitleKeepsStore(t: Tables, maxYear: int, id: nat)
    requires TablesValid(t, maxYear)
    ensures var kept := ReviewsOutside(t.reviews, id);
      TablesValid(t.(titles := t.titles - {id}, links := LinksOutside(t.links, id),
                     reviews := kept, comments := CommentsOn(t.comments, kept.Keys)), maxYear)
  {
    var kept := ReviewsOutside(t.reviews, id);
    DeleteTitleKeepsTables(t.titles, t.categories.Keys, maxYear, t.links, t.genres.Keys, t.reviews, t.comments, t.users.Keys, id);
    BelowSubset(t.titles.Keys, (t.titles - {id}).Keys, t.nextId);
    BelowSubset(t.links.Keys, LinksOutside(t.links, id).Keys, t.nextId);
    BelowSubset(t.reviews.Keys, kept.Keys, t.nextId);
    BelowSubset(t.comments.Keys, CommentsOn(t.comments, kept.Keys).Keys, t.nextId);
  }

  /** A review of a stored title by a stored user who has not reviewed it
      yet, with a stored score and a text, can be stored under the next id. */
  lemma AddReviewKeepsTables(t: Tables, maxYear: int, rv: Review)
    requires TablesValid(t, maxYear)
    requires rv.title in t.titles && rv.author in t.users && StoredScore(rv.score) && |rv.text| > 0
    requires !HasReviewBy(t.reviews, rv.author, rv.title)
    ensures t.nextId !in t.reviews
    ensures TablesValid(t.(reviews := t.reviews[t.nextId := rv], nextId := t.nextId + 1), maxYear)
  {
    var r := t.reviews[t.nextId := rv];
    forall p, q | SameReviewer(r, p, q) ensures p == q {
      if p != t.nextId && q != t.nextId {
        assert SameReviewer(t.reviews, p, q);
      }
    }
  }

  /** A review can be replaced by an edit that keeps its title and author,
      a stored score and a text. */
  lemma ReplaceReviewKeepsTables(t: Tables, maxYear: int, id: nat, rv: Review)
    requires TablesValid(t, maxYear) && id in t.reviews
    requires rv.title == t.reviews[id].title && rv.author == t.reviews[id].author
    requires StoredScore(rv.score) && |rv.text| > 0
    ensures TablesValid(t.(reviews := t.reviews[id := rv]), maxYear)
  {
    var rs := t.reviews[id := rv];
    assert rs.Keys == t.reviews.Keys;
    NarrowedReviewsUnique(t.reviews, rs);
  }

  /** Deleting a review with the cascade of `DeleteReview`. */
  lemma DeleteReviewKeepsStore(t: Tables, maxYear: int, id: nat)
    requires TablesValid(t, maxYear)
    ensures TablesValid(t.(reviews := t.reviews - {id}, comments := CommentsOn(t.comments, (t.reviews - {id}).Keys)), maxYear)
  {
    DeleteReviewKeepsTables(t.titles.Keys, t.reviews, t.comments, t.users.Keys, id);
    BelowSubset(t.reviews.Keys, (t.reviews - {id}).Keys, t.nextId);
    BelowSubset(t.comments.Keys, CommentsOn(t.comments, (t.reviews - {id}).Keys).Keys, t.nextId);
  }

  /** A comment on a stored review by a stored user, with a text, can be
      stored under the next id. */
  lemma AddCommentKeepsTables(t: Tables, maxYear: int, c: Comment)
    requires TablesValid(t, maxYear)
    requires c.review in t.reviews && c.author in t.users && |c.text| > 0
    ensures t.nextId !in t.comments
    ensures TablesValid(t.(comments := t.comments[t.nextId := c], nextId := t.nextId + 1), maxYear)
  {
    var cs := t.comments[t.nextId := c];
    assert CommentsValid(cs, t.reviews.Keys, t.users.Keys);
  }

  /** A comment can be replaced by an edit that keeps its review and
      author and has a text. */
  lemma ReplaceCommentKeepsTables(t: Tables, maxYear: int, id: nat, c: Comment)
    requires TablesValid(t, maxYear) && id in t.comments
    requires c.review == t.comments[id].review && c.author == t.comments[id].author && |c.text| > 0
    ensures TablesValid(t.(comments := t.comments[id := c]), maxYear)
  {
    var cs := t.comments[id := c];
    assert cs.Keys == t.comments.Keys;
    assert CommentsValid(cs, t.reviews.Keys, t.users.Keys);
  }

  /** Deleting a comment removes nothing else. */
  lemma DeleteCommentKeepsTables(t: Tables, maxYear: int, id: nat)
    requires TablesValid(t, maxYear)
    ensures TablesValid(t.(comments := t.comments - {id}), maxYear)
  {
    BelowSubset(t.comments.Keys, (t.comments - {id}).Keys, t.nextId);
  }

  /** Adds one link from `title` to each genre of `gs` to `links`, under
      fresh ids from `next` on; `n` is the next free id afterwards. */
  method AddGenreLinks(links: map<nat, GenreLink>, next: nat, title: nat, gs: set<string>)
    returns (r: map<nat, GenreLink>, n: nat)
    requires Below(links.Keys, next)
    ensures Below(r.Keys, n) && n >= next
    ensures forall l :: l in links ==> l in r && r[l] == links[l]
    ensures forall l :: l in r && l !in links ==>
      next <= l && r[l].title == title && r[l].genre.Some? && r[l].genre.value in gs
    ensures forall l, k :: l in r && k in r && l !in links && k !in links && r[l].genre == r[k].genre ==> l == k
    ensures LinkedGenres(r, title) == LinkedGenres(links, title) + gs
  {
    r, n := links, next;
    var todo := gs;
    while todo != {}
      invariant todo <= gs
      invariant Below(r.Keys, n) && n >= next
      invariant forall l :: l in links ==> l in r && r[l] == links[l]
      invariant forall l :: l in r && l !in links ==>
        next <= l && r[l].title == title && r[l].genre.Some?
        && r[l].genre.value in gs && r[l].genre.value !in todo
      invariant forall l, k :: l in r && k in r && l !in links && k !in links && r[l].genre == r[k].genre ==> l == k
      invariant forall g :: g in gs - todo ==> exists l :: l in r && l !in links && r[l] == GenreLink(Some(g), title)
      decreases todo
    {
      var g :| g in todo;
      ghost var before := r;
      r := r[n := GenreLink(Some(g), title)];
      forall h | h in gs - (todo - {g})
        ensures exists l :: l in r && l !in links && r[l] == GenreLink(Some(h), title)
      {
        if h == g {
          assert r[n] == GenreLink(Some(h), title);
        } else {
          assert h in gs - todo;
          var l :| l in before && l !in links && before[l] == GenreLink(Some(h), title);
          assert r[l] == GenreLink(Some(h), title);
        }
      }
      n := n + 1;
      todo := todo - {g};
    }
    assert gs - todo == gs;
    LinkedGenresGrow(links, r, title, gs);
  }

  class Store {
    /** The latest year a title may have: the calendar year when the
        models were loaded, fixed for the life of the process. */
    const maxYear: int
    var users: map<nat, Account>
    /** Categories and genres, each filed under its slug. */
    var categories: map<string, Group>
    var genres: map<string, Group>
    var titles: map<nat, Title>
    var links: map<nat, GenreLink>
    var reviews: map<nat, Review>
    var comments: map<nat, Comment>
    /** The next unused row id. */
    var nextId: nat

    ghost function Snapshot(): Tables
      reads this
    {
      Tables(users, categories, genres, titles, links, reviews, comments, nextId)
    }

    ghost predicate Valid()
      reads this
    {
      TablesValid(Snapshot(), maxYear)
    }

    constructor(maxYear: int)
      ensures Valid()
      ensures this.maxYear == maxYear
      ensures users == map[] && categories == map[] && genres == map[]
      ensures titles == map[] && links == map[] && reviews == map[] && comments == map[]
    {
      this.maxYear := maxYear;
      users, categories, genres := map[], map[], map[];
      titles, links, reviews, comments := map[], map[], map[], map[];
      nextId := 0;
    }

    // ---- users ----

    /** The id of the user with the given username, the lookup behind
        `/users/{username}`. */
    method UserByName(name: string) returns (r: Option<nat>)
      requires Valid()
      ensures r == FindUser(users, name)
    {
      if exists u :: u in users && users[u].username == name {
        var u :| u in users && users[u].username == name;
        assert SameUsername(users, u, FindUser(users, name).value);
        r := Some(u);
      } else {
        r := None;
      }
    }

    /** `CreateUserAPIView.post`: a valid signup stores a new user with
        the default role; then the confirmation mail is sent, and a
        delivery failure (`mailDelivered` false) is a server error that
        leaves the new user stored. */
    method Signup(d: SignupData, mailDelivered: bool) returns (s: Status)
      requires Valid()
      modifies this`users, this`nextId
      ensures Valid()
      ensures ValidateSignup(old(users), d).Err? ==> s == BadRequest400 && users == old(users) && nextId == old(nextId)
      ensures ValidateSignup(old(users), d).Ok? ==>
        && old(nextId) !in old(users)
        && users == old(users)[old(nextId) := ValidateSignup(old(users), d).value]
        && s == (if mailDelivered then Ok200 else ServerError500)
    {
      var v := ValidateSignup(users, d);
      if v.Err? {
        return BadRequest400;
      }
      SignupKeepsUsers(users, d, nextId);
      ghost var after := Snapshot().(users := users[nextId := v.value], nextId := nextId + 1);
      AddUserKeepsTables(Snapshot(), maxYear, v.value);
      users, nextId := users[nextId := v.value], nextId + 1;
      assert Snapshot() == after;
      s := if mailDelivered then Ok200 else ServerError500;
    }

    /** An administrator's POST to `/users/`: a full write through
        `UserSerializer`, stored with no framework privileges. */
    method CreateUser(f: UserFields) returns (s: Status)
      requires Valid()
      modifies this`users, this`nextId
      ensures Valid()
      ensures s == Created201 <==> ValidateUser(old(users), None, f, false).Ok?
      ensures s != Created201 ==> s == BadRequest400 && users == old(users)
      ensures s == Created201 ==>
        && old(nextId) !in old(users) && old(nextId) in users
        && users == old(users)[old(nextId) := users[old(nextId)]]
        && users[old(nextId)].username == f.username.value && users[old(nextId)].email == f.email.value
        && users[old(nextId)].firstName == Pick(f.firstName, [])
        && users[old(nextId)].lastName == Pick(f.lastName, [])
        && users[old(nextId)].bio == Pick(f.bio, [])
        && !users[old(nextId)].isStaff && !users[old(nextId)].isSuperuser
        && users[old(nextId)].role == (if f.role.Some? then ParseRole(f.role.value).value else DefaultRole)
    {
      var v := ValidateUser(users, None, f, false);
      if v.Err? {
        return BadRequest400;
      }
      CreatedAccountKeepsUsers(users, f, v.value, nextId);
      ghost var after := Snapshot().(users := users[nextId := AccountFrom(v.value)], nextId := nextId + 1);
      AddUserKeepsTables(Snapshot(), maxYear, AccountFrom(v.value));
      users := users[nextId := AccountFrom(v.value)];
      nextId := nextId + 1;
      assert Snapshot() == after;
      s := Created201;
    }

    /** An administrator's PUT or PATCH to `/users/{username}`. A full
        write without a role resets it to the default. */
    method UpdateUser(name: string, m: Method, f: UserFields) returns (s: Status)
      requires Valid() && (m == Put || m == Patch)
      modifies this`users
      ensures Valid()
      ensures s == NotFound404 <==> FindUser(old(users), name).None?
      ensures s != Ok200 ==> users == old(users)
      ensures s == Ok200 || s == BadRequest400 || s == NotFound404
      ensures s == BadRequest400 <==>
        FindUser(old(users), name).Some? && ValidateUser(old(users), Some(FindUser(old(users), name).value), f, m == Patch).Err?
      ensures s == Ok200 ==>
        var id := FindUser(old(users), name).value;
        var v := ValidateUser(old(users), Some(id), f, m == Patch);
        v.Ok? && users == old(users)[id := ApplyChanges(old(users)[id], v.value)]
    {
      var found := UserByName(name);
      if found.None? {
        return NotFound404;
      }
      var id := found.value;
      var v := ValidateUser(users, Some(id), f, m == Patch);
      if v.Err? {
        return BadRequest400;
      }
      ValidatedChangesKeepUsers(users, id, f, m == Patch, v.value);
      ghost var after := Snapshot().(users := users[id := ApplyChanges(users[id], v.value)]);
      ReplaceUserKeepsTables(Snapshot(), maxYear, id, ApplyChanges(users[id], v.value));
      users := users[id := ApplyChanges(users[id], v.value)];
      assert Snapshot() == after;
      s := Ok200;
    }

    /** `UserViewSet.me` for the authenticated `caller`, as decided by
        `MeOutcomeOf`; only a saved outcome changes the table. */
    method Me(caller: nat, m: Method, f: UserFields) returns (s: Status, shown: Option<Account>)
      requires Valid() && caller in users && (m == Get || m == Head || m == Patch)
      modifies this`users
      ensures Valid()
      ensures var o := MeOutcomeOf(old(users), caller, m, f);
        && (o.MeSaved? ==> users == old(users)[caller := o.account] && s == Ok200 && shown == Some(o.account))
        && (!o.MeSaved? ==> users == old(users))
        && (o.MeShown? ==> s == Ok200 && shown == Some(old(users)[caller]))
        && (o.MeRoleRefused? ==> s == BadRequest400 && shown.None?)
        && (o.MeCrashed? ==> s == ServerError500 && shown.None?)
    {
      var o := MeOutcomeOf(users, caller, m, f);
      match o
      case MeShown(a) => s, shown := Ok200, Some(a);
      case MeSaved(a) =>
        MeKeepsUsers(users, caller, m, f);
        ghost var after := Snapshot().(users := users[caller := a]);
        ReplaceUserKeepsTables(Snapshot(), maxYear, caller, a);
        users := users[caller := a];
        assert Snapshot() == after;
        s, shown := Ok200, Some(a);
      case MeRoleRefused => s, shown := BadRequest400, None;
      case MeCrashed => s, shown := ServerError500, None;
    }

    /** An administrator's DELETE of `/users/{username}`: the user's
        reviews, every comment on those reviews and all the user's
        comments go with them. */
    method DeleteUser(name: string) returns (s: Status)
      requires Valid()
      modifies this`users, this`reviews, this`comments
      ensures Valid()
      ensures s == NotFound404 <==> FindUser(old(users), name).None?
      ensures s == NotFound404 ==> users == old(users) && reviews == old(reviews) && comments == old(comments)
      ensures s != NotFound404 ==>
        var id := FindUser(old(users), name).value;
        && s == NoContent204
        && users == old(users) - {id}
        && reviews == ReviewsNotBy(old(reviews), id)
        && comments == CommentsNotBy(CommentsOn(old(comments), reviews.Keys), id)
    {
      var found := UserByName(name);
      if found.None? {
        return NotFound404;
      }
      var id := found.value;
      var kept := ReviewsNotBy(reviews, id);
      ghost var after := Snapshot().(users := users - {id}, reviews := kept,
                                     comments := CommentsNotBy(CommentsOn(comments, kept.Keys), id));
      DeleteUserKeepsStore(Snapshot(), maxYear, id);
      assert TablesValid(after, maxYear);
      users, reviews, comments := users - {id}, kept, CommentsNotBy(CommentsOn(comments, kept.Keys), id);
      assert Snapshot() == after;
      s := NoContent204;
    }

    // ---- categories and genres ----

    /** POST to `/categories/`. */
    method CreateCategory(name: string, slug: string) returns (s: Status)
      requires Valid()
      modifies this`categories
      ensures Valid()
      ensures s == Created201 <==> GroupErrors(name, slug, old(categories).Keys) == {}
      ensures s == Created201 ==> slug !in old(categories) && categories == old(categories)[slug := Group(name, slug)]
      ensures s != Created201 ==> s == BadRequest400 && categories == old(categories)
    {
      if GroupErrors(name, slug, categories.Keys) != {} {
        return BadRequest400;
      }
      ghost var after := Snapshot().(categories := categories[slug := Group(name, slug)]);
      AddCategoryKeepsTables(Snapshot(), maxYear, name, slug);
      categories := categories[slug := Group(name, slug)];
      assert Snapshot() == after;
      s := Created201;
    }

    /** POST to `/genres/`. */
    method CreateGenre(name: string, slug: string) returns (s: Status)
      requires Valid()
      modifies this`genres
      ensures Valid()
      ensures s == Created201 <==> GroupErrors(name, slug, old(genres).Keys) == {}
      ensures s == Created201 ==> slug !in old(genres) && genres == old(genres)[slug := Group(name, slug)]
      ensures s != Created201 ==> s == BadRequest400 && genres == old(genres)
    {
      if GroupErrors(name, slug, genres.Keys) != {} {
        return BadRequest400;
      }
      ghost var after := Snapshot().(genres := genres[slug := Group(name, slug)]);
      AddGenreKeepsTables(Snapshot(), maxYear, name, slug);
      genres := genres[slug := Group(name, slug)];
      assert Snapshot() == after;
      s := Created201;
    }

    /** DELETE `/categories/{slug}`: the category's titles survive with no
        category. */
    method DeleteCategory(slug: string) returns (s: Status)
      requires Valid()
      modifies this`categories, this`titles
      ensures Valid()
      ensures s == NotFound404 <==> slug !in old(categories)
      ensures s == NotFound404 ==> categories == old(categories) && titles == old(titles)
      ensures s != NotFound404 ==>
        && s == NoContent204
        && categories == old(categories) - {slug} && titles == DetachCategory(old(titles), slug)
    {
      if slug !in categories {
        return NotFound404;
      }
      ghost var after := Snapshot().(categories := categories - {slug}, titles := DetachCategory(titles, slug));
      DeleteCategoryKeepsStore(Snapshot(), maxYear, slug);
      categories, titles := categories - {slug}, DetachCategory(titles, slug);
      assert Snapshot() == after;
      s := NoContent204;
    }

    /** DELETE `/genres/{slug}`: the genre's links survive with no genre. */
    method DeleteGenre(slug: string) returns (s: Status)
      requires Valid()
      modifies this`genres, this`links
      ensures Valid()
      ensures s == NotFound404 <==> slug !in old(genres)
      ensures s == NotFound404 ==> genres == old(genres) && links == old(links)
      ensures s != NotFound404 ==>
        && s == NoContent204
        && genres == old(genres) - {slug} && links == DetachGenre(old(links), slug)
    {
      if slug !in genres {
        return NotFound404;
      }
      ghost var after := Snapshot().(genres := genres - {slug}, links := DetachGenre(links, slug));
      DeleteGenreKeepsStore(Snapshot(), maxYear, slug);
      genres, links := genres - {slug}, DetachGenre(links, slug);
      assert Snapshot() == after;
      s := NoContent204;
    }

    // ---- titles ----

    /** Stores a validated title under a fresh id and links it to `gs`. */
    method InsertTitle(t: Title, gs: set<string>) returns (newId: nat)
      requires Valid()
      requires ValidYear(t.year, maxYear) && 0 < |t.name| <= TitleNameMaxLength
      requires t.category.Some? && t.category.value in categories && gs <= genres.Keys
      requires forall k :: k in titles ==> !(titles[k].name == t.name && titles[k].category == t.category)
      modifies this`titles, this`links, this`nextId
      ensures Valid()
      ensures newId !in old(titles) && titles == old(titles)[newId := t]
      ensures forall l :: l in old(links) ==> l in links && links[l] == old(links)[l]
      ensures forall l :: l in links && l !in old(links) ==> links[l].title == newId && links[l].genre.Some?
      ensures forall l, k :: l in links && k in links && l !in old(links) && k !in old(links) && links[l].genre == links[k].genre ==> l == k
      ensures LinkedGenres(links, newId) == gs
    {
      newId := nextId;
      var l, n := AddGenreLinks(links, nextId + 1, newId, gs);
      ghost var after := Snapshot().(titles := titles[newId := t], links := l, nextId := n);
      InsertTitleKeepsTables(Snapshot(), maxYear, t, gs, l, n);
      FreshTitleHasNoGenres(links, titles.Keys, newId);
      titles, links, nextId := titles[newId := t], l, n;
      assert Snapshot() == after;
    }

    /** POST to `/titles/` through the write shape. The title is stored
        with its category and linked once to each distinct genre. A second
        title with the same name and category is refused by the table's
        unique constraint, which surfaces as a server error. */
    method CreateTitle(inp: TitleInput) returns (s: Status, id: Option<nat>)
      requires Valid()
      modifies this`titles, this`links, this`nextId
      ensures Valid()
      ensures s == BadRequest400 <==> ValidateTitle(old(categories).Keys, old(genres).Keys, maxYear, inp).Err?
      ensures s != Created201 ==> id.None? && titles == old(titles) && links == old(links)
      ensures s == Created201 || s == BadRequest400 || s == ServerError500
      ensures s == ServerError500 <==>
        && ValidateTitle(old(categories).Keys, old(genres).Keys, maxYear, inp).Ok?
        && exists k :: k in old(titles) && old(titles)[k].name == inp.name.value && old(titles)[k].category == inp.category
      ensures s == Created201 ==>
        var d := ValidateTitle(old(categories).Keys, old(genres).Keys, maxYear, inp).value;
        && id.Some? && id.value !in old(titles) && titles == old(titles)[id.value := d.title]
        && (forall l :: l in old(links) ==> l in links && links[l] == old(links)[l])
        && (forall l :: l in links && l !in old(links) ==> links[l].title == id.value && links[l].genre.Some?)
        && (forall l, k :: l in links && k in links && l !in old(links) && k !in old(links) && links[l].genre == links[k].genre ==> l == k)
        && LinkedGenres(links, id.value) == d.genres
    {
      var v := ValidateTitle(categories.Keys, genres.Keys, maxYear, inp);
      if v.Err? {
        return BadRequest400, None;
      }
      var t, gs := v.value.title, v.value.genres;
      if exists k :: k in titles && titles[k].name == t.name && titles[k].category == t.category {
        return ServerError500, None;
      }
      var newId := InsertTitle(t, gs);
      s, id := Created201, Some(newId);
    }

    /** Makes `gs` the genres of title `id`: links to other genres are
        dropped and links to the missing ones added. */
    method RelinkGenres(id: nat, gs: set<string>)
      requires Valid() && id in titles && gs <= genres.Keys
      modifies this`links, this`nextId
      ensures Valid()
      ensures forall l :: l in old(links) && old(links)[l].title != id ==> l in links && links[l] == old(links)[l]
      ensures forall l :: l in UnlinkGenresNotIn(old(links), id, gs) ==> l in links && links[l] == old(links)[l]
      ensures forall l :: l in old(links) && l !in UnlinkGenresNotIn(old(links), id, gs) ==> l !in links
      ensures forall l :: l in links && l !in old(links) ==>
        links[l].title == id && links[l].genre.Some? && links[l].genre.value in gs - LinkedGenres(old(links), id)
      ensures forall l, k :: l in links && k in links && l !in old(links) && k !in old(links) && links[l].genre == links[k].genre ==> l == k
      ensures LinkedGenres(links, id) == gs
    {
      var missing := gs - LinkedGenres(links, id);
      var kept := UnlinkGenresNotIn(links, id, gs);
      BelowSubset(links.Keys, kept.Keys, nextId);
      var l, n := AddGenreLinks(kept, nextId, id, missing);
      ghost var after := Snapshot().(links := l, nextId := n);
      RelinkKeepsTables(Snapshot(), maxYear, kept, l, n);
      KeptAndMissing(LinkedGenres(links, id), gs);
      links, nextId := l, n;
      assert Snapshot() == after;
    }

    /** PATCH `/titles/{id}` through the write shape. The submitted fields
        replace the stored ones. A submitted genre list becomes the title's
        genres: links to genres no longer listed go, links to the listed
        genres that are missing are added, and the others stay. A clash
        with another title of the same name and category is refused by the
        unique constraint, as on create. */
    method UpdateTitle(id: nat, inp: TitleInput) returns (s: Status)
      requires Valid()
      modifies this`titles, this`links, this`nextId
      ensures Valid()
      ensures s == NotFound404 <==> id !in old(titles)
      ensures s == BadRequest400 <==>
        id in old(titles) && ValidateTitlePatch(old(categories).Keys, old(genres).Keys, maxYear, old(titles)[id], inp).Err?
      ensures s == Ok200 || s == NotFound404 || s == BadRequest400 || s == ServerError500
      ensures s != Ok200 ==> titles == old(titles) && links == old(links)
      ensures s == ServerError500 <==>
        && id in old(titles)
        && ValidateTitlePatch(old(categories).Keys, old(genres).Keys, maxYear, old(titles)[id], inp).Ok?
        && var t := ValidateTitlePatch(old(categories).Keys, old(genres).Keys, maxYear, old(titles)[id], inp).value.title;
           t.category.Some? && exists k :: k in old(titles) && k != id && old(titles)[k].name == t.name && old(titles)[k].category == t.category
      ensures s == Ok200 ==>
        var p := ValidateTitlePatch(old(categories).Keys, old(genres).Keys, maxYear, old(titles)[id], inp).value;
        && titles == old(titles)[id := p.title]
        && (forall l :: l in old(links) && old(links)[l].title != id ==> l in links && links[l] == old(links)[l])
        && (p.genres.None? ==> links == old(links))
        && (p.genres.Some? ==>
              && (forall l :: l in UnlinkGenresNotIn(old(links), id, p.genres.value) ==> l in links && links[l] == old(links)[l])
              && (forall l :: l in old(links) && l !in UnlinkGenresNotIn(old(links), id, p.genres.value) ==> l !in links)
              && (forall l :: l in links && l !in old(links) ==>
                    links[l].title == id && links[l].genre.Some? && links[l].genre.value in p.genres.value - LinkedGenres(old(links), id))
              && (forall l, k :: l in links && k in links && l !in old(links) && k !in old(links) && links[l].genre == links[k].genre ==> l == k)
              && LinkedGenres(links, id) == p.genres.value)
    {
      if id !in titles {
        return NotFound404;
      }
      var v := ValidateTitlePatch(categories.Keys, genres.Keys, maxYear, titles[id], inp);
      if v.Err? {
        return BadRequest400;
      }
      var t := v.value.title;
      if t.category.Some? && exists k :: k in titles && k != id && titles[k].name == t.name && titles[k].category == t.category {
        return ServerError500;
      }
      ghost var after := Snapshot().(titles := titles[id := t]);
      ReplaceTitleKeepsTables(Snapshot(), maxYear, id, t);
      titles := titles[id := t];
      assert Snapshot() == after;
      if v.value.genres.Some? {
        RelinkGenres(id, v.value.genres.value);
      }
      s := Ok200;
    }

    /** DELETE `/titles/{id}`: the title's links, its reviews and the
        comments on them go with it. */
    method DeleteTitle(id: nat) returns (s: Status)
      requires Valid()
      modifies this`titles, this`links, this`reviews, this`comments
      ensures Valid()
      ensures s == NotFound404 <==> id !in old(titles)
      ensures s == NotFound404 ==>
        && titles == old(titles) && links == old(links)
        && reviews == old(reviews) && comments == old(comments)
      ensures s != NotFound404 ==>
        && s == NoContent204
        && titles == old(titles) - {id}
        && links == LinksOutside(old(links), id)
        && reviews == ReviewsOutside(old(reviews), id)
        && comments == CommentsOn(old(comments), reviews.Keys)
    {
      if id !in titles {
        return NotFound404;
      }
      var kept := ReviewsOutside(reviews, id);
      ghost var after := Snapshot().(titles := titles - {id}, links := LinksOutside(links, id),
                                     reviews := kept, comments := CommentsOn(comments, kept.Keys));
      DeleteTitleKeepsStore(Snapshot(), maxYear, id);
      assert TablesValid(after, maxYear);
      titles, links, reviews, comments := titles - {id}, LinksOutside(links, id), kept, CommentsOn(comments, kept.Keys);
      assert Snapshot() == after;
      s := NoContent204;
    }

    // ---- reviews ----

    /** `ReviewViewSet` create on `/titles/{title}/reviews/` by `caller`. */
    method CreateReview(caller: nat, title: nat, inp: ReviewInput, now: int) returns (s: Status)
      requires Valid() && caller in users
      modifies this`reviews, this`nextId
      ensures Valid()
      ensures var r := NewReview(old(titles).Keys, old(reviews), caller, title, inp, now);
        && (r.Ok? ==> s == Created201 && old(nextId) !in old(reviews) && reviews == old(reviews)[old(nextId) := r.value])
        && (r.Err? ==> reviews == old(reviews))
        && (r == Err(Missing) ==> s == NotFound404)
        && (r.Err? && r.error.Invalid? ==> s == BadRequest400)
    {
      var r := NewReview(titles.Keys, reviews, caller, title, inp, now);
      match r
      case Err(Missing) => s := NotFound404;
      case Err(Invalid(_)) => s := BadRequest400;
      case Ok(rv) =>
        ghost var after := Snapshot().(reviews := reviews[nextId := rv], nextId := nextId + 1);
        AddReviewKeepsTables(Snapshot(), maxYear, rv);
        reviews := reviews[nextId := rv];
        nextId := nextId + 1;
        assert Snapshot() == after;
        s := Created201;
    }

    /** PUT or PATCH on `/titles/{title}/reviews/{review}` by a requester
        the endpoint's permission classes admitted: 404 unless the review
        belongs to that title, 403 unless the requester may edit it, 400 on
        invalid input. */
    method UpdateReview(a: Actor, title: nat, review: nat, m: Method, inp: ReviewInput) returns (s: Status)
      requires Valid() && (m == Put || m == Patch) && HasPermission(Reviews, m, a)
      modifies this`reviews
      ensures Valid()
      ensures s == NotFound404 <==> ReviewAt(old(titles).Keys, old(reviews), title, review).None?
      ensures s == Forbidden403 <==> ReviewAt(old(titles).Keys, old(reviews), title, review).Some?
                                     && !HasObjectPermission(Reviews, m, a, old(reviews)[review].author)
      ensures s == Ok200 || s == NotFound404 || s == Forbidden403 || s == BadRequest400
      ensures s == Ok200 <==>
        && ReviewAt(old(titles).Keys, old(reviews), title, review).Some?
        && HasObjectPermission(Reviews, m, a, old(reviews)[review].author)
        && EditedReview(old(reviews)[review], old(reviews), a.id, m, inp).Ok?
      ensures s != Ok200 ==> reviews == old(reviews)
      ensures s == Ok200 ==>
        && EditedReview(old(reviews)[review], old(reviews), a.id, m, inp).Ok?
        && reviews == old(reviews)[review := EditedReview(old(reviews)[review], old(reviews), a.id, m, inp).value]
    {
      var found := ReviewAt(titles.Keys, reviews, title, review);
      if found.None? {
        return NotFound404;
      }
      if !HasObjectPermission(Reviews, m, a, found.value.author) {
        return Forbidden403;
      }
      var r := EditedReview(found.value, reviews, a.id, m, inp);
      if r.Err? {
        return BadRequest400;
      }
      ghost var after := Snapshot().(reviews := reviews[review := r.value]);
      ReplaceReviewKeepsTables(Snapshot(), maxYear, review, r.value);
      reviews := reviews[review := r.value];
      assert Snapshot() == after;
      s := Ok200;
    }

    /** DELETE on `/titles/{title}/reviews/{review}`: the review and its
        comments go. */
    method DeleteReview(a: Actor, title: nat, review: nat) returns (s: Status)
      requires Valid() && HasPermission(Reviews, Delete, a)
      modifies this`reviews, this`comments
      ensures Valid()
      ensures s == NotFound404 <==> ReviewAt(old(titles).Keys, old(reviews), title, review).None?
      ensures s == Forbidden403 <==> ReviewAt(old(titles).Keys, old(reviews), title, review).Some?
                                     && !HasObjectPermission(Reviews, Delete, a, old(reviews)[review].author)
      ensures s == NoContent204 || s == NotFound404 || s == Forbidden403
      ensures s != NoContent204 ==> reviews == old(reviews) && comments == old(comments)
      ensures s == NoContent204 ==>
        && reviews == old(reviews) - {review}
        && comments == CommentsOn(old(comments), reviews.Keys)
    {
      var found := ReviewAt(titles.Keys, reviews, title, review);
      if found.None? {
        return NotFound404;
      }
      if !HasObjectPermission(Reviews, Delete, a, found.value.author) {
        return Forbidden403;
      }
      ghost var after := Snapshot().(reviews := reviews - {review}, comments := CommentsOn(comments, (reviews - {review}).Keys));
      DeleteReviewKeepsStore(Snapshot(), maxYear, review);
      reviews, comments := reviews - {review}, CommentsOn(comments, (reviews - {review}).Keys);
      assert Snapshot() == after;
      s := NoContent204;
    }

    // ---- comments ----

    /** `CommentViewSet` create on `/titles/{title}/reviews/{review}/comments/`. */
    method CreateComment(caller: nat, title: nat, review: nat, inp: CommentInput, now: int) returns (s: Status)
      requires Valid() && caller in users
      modifies this`comments, this`nextId
      ensures Valid()
      ensures var r := NewComment(old(reviews).Keys, caller, title, review, inp, now);
        && (r.Ok? ==> s == Created201 && old(nextId) !in old(comments) && comments == old(comments)[old(nextId) := r.value])
        && (r.Err? ==> comments == old(comments))
        && (r == Err(Missing) ==> s == NotFound404)
        && (r.Err? && r.error.Invalid? ==> s == BadRequest400)
    {
      var r := NewComment(reviews.Keys, caller, title, review, inp, now);
      match r
      case Err(Missing) => s := NotFound404;
      case Err(Invalid(_)) => s := BadRequest400;
      case Ok(c) =>
        ghost var after := Snapshot().(comments := comments[nextId := c], nextId := nextId + 1);
        AddCommentKeepsTables(Snapshot(), maxYear, c);
        comments := comments[nextId := c];
        nextId := nextId + 1;
        assert Snapshot() == after;
        s := Created201;
    }

    /** PUT or PATCH on `.../reviews/{review}/comments/{comment}`. */
    method UpdateComment(a: Actor, title: nat, review: nat, comment: nat, m: Method, inp: CommentInput) returns (s: Status)
      requires Valid() && (m == Put || m == Patch) && HasPermission(Comments, m, a)
      modifies this`comments
      ensures Valid()
      ensures s == NotFound404 <==> CommentAt(old(reviews).Keys, old(comments), title, review, comment).None?
      ensures s == Forbidden403 <==> CommentAt(old(reviews).Keys, old(comments), title, review, comment).Some?
                                     && !HasObjectPermission(Comments, m, a, old(comments)[comment].author)
      ensures s == Ok200 || s == NotFound404 || s == Forbidden403 || s == BadRequest400
      ensures s == Ok200 <==>
        && CommentAt(old(reviews).Keys, old(comments), title, review, comment).Some?
        && HasObjectPermission(Comments, m, a, old(comments)[comment].author)
        && EditedComment(old(comments)[comment], m, inp).Ok?
      ensures s != Ok200 ==> comments == old(comments)
      ensures s == Ok200 ==>
        && EditedComment(old(comments)[comment], m, inp).Ok?
        && comments == old(comments)[comment := EditedComment(old(comments)[comment], m, inp).value]
    {
      var found := CommentAt(reviews.Keys, comments, title, review, comment);
      if found.None? {
        return NotFound404;
      }
      if !HasObjectPermission(Comments, m, a, found.value.author) {
        return Forbidden403;
      }
      var r := EditedComment(found.value, m, inp);
      if r.Err? {
        return BadRequest400;
      }
      ghost var after := Snapshot().(comments := comments[comment := r.value]);
      ReplaceCommentKeepsTables(Snapshot(), maxYear, comment, r.value);
      comments := comments[comment := r.value];
      assert Snapshot() == after;
      s := Ok200;
    }

    /** DELETE on `.../reviews/{review}/comments/{comment}`. */
    method DeleteComment(a: Actor, title: nat, review: nat, comment: nat) returns (s: Status)
      requires Valid() && HasPermission(Comments, Delete, a)
      modifies this`comments
      ensures Valid()
      ensures s == NotFound404 <==> CommentAt(old(reviews).Keys, old(comments), title, review, comment).None?
      ensures s == Forbidden403 <==> CommentAt(old(reviews).Keys, old(comments), title, review, comment).Some?
                                     && !HasObjectPermission(Comments, Delete, a, old(comments)[comment].author)
      ensures s == NoContent204 || s == NotFound404 || s == Forbidden403
      ensures s != NoContent204 ==> comments == old(comments)
      ensures s == NoContent204 ==> comments == old(comments) - {comment}
    {
      var found := CommentAt(reviews.Keys, comments, title, review, comment);
      if found.None? {
        return NotFound404;
      }
      if !HasObjectPermission(Comments, Delete, a, found.value.author) {
        return Forbidden403;
      }
      ghost var after := Snapshot().(comments := comments - {comment});
      DeleteCommentKeepsTables(Snapshot(), maxYear, comment);
      comments := comments - {comment};
      assert Snapshot() == after;
      s := NoContent204;
    }
  }
}

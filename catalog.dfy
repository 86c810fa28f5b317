/** The review domain's tables: titles, their genre links, reviews and
    comments; the field validators and unique constraints on them; and the
    CASCADE and SET_NULL rules applied when a referenced row is deleted. */
module Catalog {
  import opened Wrappers

  const MinYear: int := 1000
  const TitleNameMaxLength: nat := 250
  const MinScore: int := 1
  const MaxScore: int := 10
  const DefaultScore: int := 0
  const LabelLength: nat := 15

  /** The year validators. `maxYear` is the calendar year read once when
      the model module was loaded, not the year of the request. */
  predicate ValidYear(year: int, maxYear: int) { MinYear <= year <= maxYear }

  /** The score validators, applied to a score the client supplies. */
  predicate ValidScore(score: int) { MinScore <= score <= MaxScore }

  /** The scores a stored review can carry: a validated one, or the column
      default that a review created without a score receives. */
  predicate StoredScore(score: int) { score == DefaultScore || ValidScore(score) }

  datatype Title = Title(name: string, year: int, category: Option<string>, description: string)

  /** A row of the many-to-many table between titles and genres. */
  datatype GenreLink = GenreLink(genre: Option<string>, title: nat)

  datatype Review = Review(author: nat, title: nat, text: string, score: int, pubDate: int)

  datatype Comment = Comment(author: nat, review: nat, text: string, pubDate: int)

  /** The display label of a review or a comment: its text cut to 15 characters. */
  function Label(text: string): (r: string)
    ensures r <= text
    ensures |r| == if |text| < LabelLength then |text| else LabelLength
  {
    if |text| <= LabelLength then text else text[..LabelLength]
  }

  // ---- table constraints ----

  /** At most one title per (name, category) pair. A null category is never
      equal to another one, as in SQL, so titles without a category are not
      constrained. */
  ghost predicate TitlesUnique(titles: map<nat, Title>)
  {
    forall t, u :: SameTitle(titles, t, u) ==> t == u
  }

  /** Titles `t` and `u` are both stored, have a category, and share their
      name and category. */
  ghost predicate SameTitle(titles: map<nat, Title>, t: nat, u: nat)
  {
    && t in titles && u in titles && titles[t].category.Some?
    && titles[t].name == titles[u].name && titles[t].category == titles[u].category
  }

  /** Titles that keep their names, and keep their category or lose it,
      stay unique. */
  lemma NarrowedTitlesUnique(titles: map<nat, Title>, sub: map<nat, Title>)
    requires TitlesUnique(titles)
    requires forall t :: t in sub ==>
      t in titles && sub[t].name == titles[t].name && (sub[t].category.Some? ==> sub[t].category == titles[t].category)
    ensures TitlesUnique(sub)
  {
    forall t, u | SameTitle(sub, t, u) ensures t == u {
      assert SameTitle(titles, t, u);
    }
  }

  ghost predicate TitlesValid(titles: map<nat, Title>, categories: set<string>, maxYear: int)
  {
    && (forall t :: t in titles ==>
          && ValidYear(titles[t].year, maxYear)
          && 0 < |titles[t].name| <= TitleNameMaxLength
          && (titles[t].category.Some? ==> titles[t].category.value in categories))
    && TitlesUnique(titles)
  }

  ghost predicate LinksValid(links: map<nat, GenreLink>, genres: set<string>, titles: set<nat>)
  {
    forall l :: l in links ==>
      links[l].title in titles && (links[l].genre.Some? ==> links[l].genre.value in genres)
  }

  /** At most one review per (title, author) pair. */
  ghost predicate ReviewsUnique(reviews: map<nat, Review>)
  {
    forall r, q :: SameReviewer(reviews, r, q) ==> r == q
  }

  /** Reviews `r` and `q` are both stored and by the same author on the same title. */
  ghost predicate SameReviewer(reviews: map<nat, Review>, r: nat, q: nat)
  {
    r in reviews && q in reviews && reviews[r].title == reviews[q].title && reviews[r].author == reviews[q].author
  }

  /** Reviews that keep their title and author stay one per pair. */
  lemma NarrowedReviewsUnique(reviews: map<nat, Review>, sub: map<nat, Review>)
    requires ReviewsUnique(reviews)
    requires forall q :: q in sub ==> q in reviews && sub[q].title == reviews[q].title && sub[q].author == reviews[q].author
    ensures ReviewsUnique(sub)
  {
    forall r, q | SameReviewer(sub, r, q) ensures r == q {
      assert SameReviewer(reviews, r, q);
    }
  }

  ghost predicate ReviewsValid(reviews: map<nat, Review>, titles: set<nat>, users: set<nat>)
  {
    && (forall r :: r in reviews ==>
          && reviews[r].title in titles
          && reviews[r].author in users
          && StoredScore(reviews[r].score)
          && |reviews[r].text| > 0)
    && ReviewsUnique(reviews)
  }

  ghost predicate CommentsValid(comments: map<nat, Comment>, reviews: set<nat>, users: set<nat>)
  {
    forall c :: c in comments ==>
      comments[c].review in reviews && comments[c].author in users && |comments[c].text| > 0
  }

  /** A title's reviews (`title.reviews.all()`). */
  function ReviewsOn(reviews: map<nat, Review>, title: nat): (r: map<nat, Review>)
    ensures forall q :: q in r <==> q in reviews && reviews[q].title == title
    ensures forall q :: q in r ==> r[q] == reviews[q]
  {
    map q | q in reviews && reviews[q].title == title :: reviews[q]
  }

  /** A review's comments (`review.comments.all()`). */
  function CommentsUnder(comments: map<nat, Comment>, review: nat): (r: map<nat, Comment>)
    ensures forall c :: c in r <==> c in comments && comments[c].review == review
    ensures forall c :: c in r ==> r[c] == comments[c]
  {
    map c | c in comments && comments[c].review == review :: comments[c]
  }

  // ---- the effects of deleting a referenced row ----

  /** SET_NULL on a title's category: the titles filed under `slug` lose
      their category and nothing else changes. */
  function DetachCategory(titles: map<nat, Title>, slug: string): (r: map<nat, Title>)
    ensures r.Keys == titles.Keys
    ensures forall t :: t in r ==> r[t].category != Some(slug)
    ensures forall t :: t in r && titles[t].category == Some(slug) ==> r[t].category.None?
    ensures forall t :: t in r ==> r[t].(category := titles[t].category) == titles[t]
    ensures forall t :: t in r && titles[t].category != Some(slug) ==> r[t] == titles[t]
  {
    map t | t in titles :: if titles[t].category == Some(slug) then titles[t].(category := None) else titles[t]
  }

  /** SET_NULL on a link's genre: the links to `slug` survive with no genre. */
  function DetachGenre(links: map<nat, GenreLink>, slug: string): (r: map<nat, GenreLink>)
    ensures r.Keys == links.Keys
    ensures forall l :: l in r ==> r[l].genre != Some(slug) && r[l].title == links[l].title
    ensures forall l :: l in r && links[l].genre == Some(slug) ==> r[l].genre.None?
    ensures forall l :: l in r && links[l].genre != Some(slug) ==> r[l] == links[l]
  {
    map l | l in links :: if links[l].genre == Some(slug) then links[l].(genre := None) else links[l]
  }

  /** CASCADE from a title to its genre links. */
  function LinksOutside(links: map<nat, GenreLink>, title: nat): (r: map<nat, GenreLink>)
    ensures forall l :: l in r <==> l in links && links[l].title != title
    ensures forall l :: l in r ==> r[l] == links[l]
  {
    map l | l in links && links[l].title != title :: links[l]
  }

  /** CASCADE from a title to its reviews. */
  function ReviewsOutside(reviews: map<nat, Review>, title: nat): (r: map<nat, Review>)
    ensures forall q :: q in r <==> q in reviews && reviews[q].title != title
    ensures forall q :: q in r ==> r[q] == reviews[q]
  {
    map q | q in reviews && reviews[q].title != title :: reviews[q]
  }

  /** CASCADE from a user to the reviews they wrote (`Review.author`).
      The same filter as `ReviewsOutside`, on the author column: it models
      the user cascade, `ReviewsOutside` the title cascade. */
  function ReviewsNotBy(reviews: map<nat, Review>, author: nat): (r: map<nat, Review>)
    ensures forall q :: q in r <==> q in reviews && reviews[q].author != author
    ensures forall q :: q in r ==> r[q] == reviews[q]
  {
    map q | q in reviews && reviews[q].author != author :: reviews[q]
  }

  /** CASCADE from reviews to comments: only the comments whose review is
      among `kept` survive. */
  function CommentsOn(comments: map<nat, Comment>, kept: set<nat>): (r: map<nat, Comment>)
    ensures forall c :: c in r <==> c in comments && comments[c].review in kept
    ensures forall c :: c in r ==> r[c] == comments[c]
  {
    map c | c in comments && comments[c].review in kept :: comments[c]
  }

  /** CASCADE from a user to the comments they wrote. */
  function CommentsNotBy(comments: map<nat, Comment>, author: nat): (r: map<nat, Comment>)
    ensures forall c :: c in r <==> c in comments && comments[c].author != author
    ensures forall c :: c in r ==> r[c] == comments[c]
  {
    map c | c in comments && comments[c].author != author :: comments[c]
  }

  /** The slugs of the genres `title` is linked to. */
  function LinkedGenres(links: map<nat, GenreLink>, title: nat): (r: set<string>)
    ensures forall g :: g in r <==> exists l :: l in links && links[l].title == title && links[l].genre == Some(g)
  {
    set l | l in links && links[l].title == title && links[l].genre.Some? :: links[l].genre.value
  }

  /** The links left when the genres of `title` are set to `gs`: its links
      to a genre outside `gs` go, while its links whose genre was deleted
      and every other title's links stay. */
  function UnlinkGenresNotIn(links: map<nat, GenreLink>, title: nat, gs: set<string>): (r: map<nat, GenreLink>)
    ensures forall l :: l in r <==> l in links && !(links[l].title == title && links[l].genre.Some? && links[l].genre.value !in gs)
    ensures forall l :: l in r ==> r[l] == links[l]
    ensures LinkedGenres(r, title) == LinkedGenres(links, title) * gs
  {
    var r := map l | l in links && !(links[l].title == title && links[l].genre.Some? && links[l].genre.value !in gs) :: links[l];
    assert forall g :: g in LinkedGenres(r, title) ==> g in LinkedGenres(links, title) * gs by {
      forall g | g in LinkedGenres(r, title) ensures g in LinkedGenres(links, title) * gs {
        var l :| l in r && r[l].title == title && r[l].genre == Some(g);
        assert links[l] == r[l];
      }
    }
    assert forall g :: g in LinkedGenres(links, title) * gs ==> g in LinkedGenres(r, title) by {
      forall g | g in LinkedGenres(links, title) * gs ensures g in LinkedGenres(r, title) {
        var l :| l in links && links[l].title == title && links[l].genre == Some(g);
        assert l in r;
      }
    }
    r
  }

  // ---- the delete rules keep every constraint ----

  /** Deleting a category nulls its titles' category: no title is removed,
      and the titles keep their constraints against the smaller category table. */
  lemma DeleteCategoryKeepsTitles(titles: map<nat, Title>, categories: set<string>, maxYear: int, slug: string)
    requires TitlesValid(titles, categories, maxYear)
    ensures DetachCategory(titles, slug).Keys == titles.Keys
    ensures TitlesValid(DetachCategory(titles, slug), categories - {slug}, maxYear)
  {
    var r := DetachCategory(titles, slug);
    forall t | t in r
      ensures t in titles && r[t].name == titles[t].name && (r[t].category.Some? ==> r[t].category == titles[t].category)
    {
      assert r[t].(category := titles[t].category) == titles[t];
    }
    NarrowedTitlesUnique(titles, r);
  }

  /** Deleting a genre keeps all links, now without that genre. */
  lemma DeleteGenreKeepsLinks(links: map<nat, GenreLink>, genres: set<string>, titles: set<nat>, slug: string)
    requires LinksValid(links, genres, titles)
    ensures DetachGenre(links, slug).Keys == links.Keys
    ensures LinksValid(DetachGenre(links, slug), genres - {slug}, titles)
  {
  }

  /** Deleting a title removes its links, its reviews and the comments on
      those reviews, and the remaining rows keep every constraint. */
  lemma DeleteTitleKeepsTables(
    titles: map<nat, Title>, categories: set<string>, maxYear: int,
    links: map<nat, GenreLink>, genres: set<string>,
    reviews: map<nat, Review>, comments: map<nat, Comment>, users: set<nat>, title: nat)
    requires TitlesValid(titles, categories, maxYear)
    requires LinksValid(links, genres, titles.Keys)
    requires ReviewsValid(reviews, titles.Keys, users)
    requires CommentsValid(comments, reviews.Keys, users)
    ensures TitlesValid(titles - {title}, categories, maxYear)
    ensures LinksValid(LinksOutside(links, title), genres, (titles - {title}).Keys)
    ensures ReviewsValid(ReviewsOutside(reviews, title), (titles - {title}).Keys, users)
    ensures CommentsValid(CommentsOn(comments, ReviewsOutside(reviews, title).Keys), ReviewsOutside(reviews, title).Keys, users)
    ensures forall c :: c in comments && reviews[comments[c].review].title == title ==>
              c !in CommentsOn(comments, ReviewsOutside(reviews, title).Keys)
  {
    NarrowedTitlesUnique(titles, titles - {title});
    NarrowedReviewsUnique(reviews, ReviewsOutside(reviews, title));
  }

  /** Deleting a user removes their reviews, their comments and every
      comment on their reviews, and the remaining rows keep every constraint. */
  lemma DeleteUserKeepsTables(
    titles: set<nat>, reviews: map<nat, Review>, comments: map<nat, Comment>, users: set<nat>, user: nat)
    requires ReviewsValid(reviews, titles, users)
    requires CommentsValid(comments, reviews.Keys, users)
    ensures ReviewsValid(ReviewsNotBy(reviews, user), titles, users - {user})
    ensures CommentsValid(CommentsNotBy(CommentsOn(comments, ReviewsNotBy(reviews, user).Keys), user),
                          ReviewsNotBy(reviews, user).Keys, users - {user})
  {
    NarrowedReviewsUnique(reviews, ReviewsNotBy(reviews, user));
  }

  /** Deleting a review removes its comments and keeps the other constraints. */
  lemma DeleteReviewKeepsTables(
    titles: set<nat>, reviews: map<nat, Review>, comments: map<nat, Comment>, users: set<nat>, review: nat)
    requires ReviewsValid(reviews, titles, users)
    requires CommentsValid(comments, reviews.Keys, users)
    ensures ReviewsValid(reviews - {review}, titles, users)
    ensures CommentsValid(CommentsOn(comments, (reviews - {review}).Keys), (reviews - {review}).Keys, users)
  {
    NarrowedReviewsUnique(reviews, reviews - {review});
  }
}

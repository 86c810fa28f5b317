/** `TitleFilter`: the optional query parameters of the title listing,
    each a match predicate, combined by conjunction. */
module Filters {
  import opened Wrappers
  import opened Catalog

  /** The four query parameters; absent ones are `None`. */
  datatype TitleQuery = TitleQuery(
    name: Option<string>, category: Option<string>, genre: Option<string>, year: Option<int>)

  /** A text parameter restricts the listing only when it is given and not
      empty; an empty value is skipped, like an absent one. */
  predicate Given(v: Option<string>)
  {
    v.Some? && v.value != []
  }

  /** `needle` occurs in `hay` starting at position `i`. */
  predicate OccursAt(hay: string, needle: string, i: nat)
  {
    i + |needle| <= |hay| && hay[i..i + |needle|] == needle
  }

  /** `needle` occurs in `hay` as a contiguous run, compared character by character. */
  predicate Contains(hay: string, needle: string)
  {
    exists i: nat :: i <= |hay| && OccursAt(hay, needle, i)
  }

  /** `name`: the title's name contains the given text. */
  predicate NameMatches(q: TitleQuery, t: Title)
  {
    Given(q.name) ==> Contains(t.name, q.name.value)
  }

  /** `category`: the title's category has exactly the given slug. */
  predicate CategoryMatches(q: TitleQuery, t: Title)
  {
    Given(q.category) ==> t.category == Some(q.category.value)
  }

  /** `genre`: some link of the title is to the genre with exactly the given slug. */
  predicate GenreMatches(q: TitleQuery, links: map<nat, GenreLink>, id: nat)
  {
    Given(q.genre) ==> exists l :: l in links && links[l].title == id && links[l].genre == Some(q.genre.value)
  }

  /** `year`: the title's year equals the given number. */
  predicate YearMatches(q: TitleQuery, t: Title)
  {
    q.year.Some? ==> t.year == q.year.value
  }

  /** The ids of the titles the listing returns for query `q`. */
  function FilterTitles(titles: map<nat, Title>, links: map<nat, GenreLink>, q: TitleQuery): (r: set<nat>)
    ensures r <= titles.Keys
  {
    set id | id in titles
      && NameMatches(q, titles[id]) && CategoryMatches(q, titles[id])
      && GenreMatches(q, links, id) && YearMatches(q, titles[id])
  }

  const NoQuery: TitleQuery := TitleQuery(None, None, None, None)

  /** A query with no parameters lists every title. */
  lemma NoQueryListsAll(titles: map<nat, Title>, links: map<nat, GenreLink>)
    ensures FilterTitles(titles, links, NoQuery) == titles.Keys
  {
  }

  /** The listing is the intersection of the four single-parameter
      listings: supplied parameters combine by conjunction. */
  lemma FiltersCombine(titles: map<nat, Title>, links: map<nat, GenreLink>, q: TitleQuery)
    ensures FilterTitles(titles, links, q)
         == FilterTitles(titles, links, NoQuery.(name := q.name))
          * FilterTitles(titles, links, NoQuery.(category := q.category))
          * FilterTitles(titles, links, NoQuery.(genre := q.genre))
          * FilterTitles(titles, links, NoQuery.(year := q.year))
  {
  }

  /** A title with no category is never listed under a given category. */
  lemma CategoryFilterSkipsUncategorized(titles: map<nat, Title>, links: map<nat, GenreLink>, q: TitleQuery, id: nat)
    requires Given(q.category) && id in titles && titles[id].category.None?
    ensures id !in FilterTitles(titles, links, q)
  {
  }

  /** The name filter lists a title whose name contains the given text,
      and compares case: a name never contains a longer text, and
      "Dune" does not contain "dune". */
  lemma NameFilterMeaning(titles: map<nat, Title>, links: map<nat, GenreLink>, text: string, id: nat)
    requires id in titles && text != []
    ensures id in FilterTitles(titles, links, NoQuery.(name := Some(text))) <==> Contains(titles[id].name, text)
    ensures |text| > |titles[id].name| ==> id !in FilterTitles(titles, links, NoQuery.(name := Some(text)))
    ensures !Contains("Dune", "dune")
  {
    forall i: nat | i <= 4 ensures !OccursAt("Dune", "dune", i) {
      if i == 0 {
        assert "Dune"[0..4][0] != "dune"[0];
      }
    }
  }

  /** Every title whose name is a run of another text is listed for it:
      a title named `p + text + s` matches `text`. */
  lemma {:induction false} NameFilterFindsInfix(p: string, text: string, s: string)
    ensures Contains(p + text + s, text)
  {
    var hay := p + text + s;
    assert hay[|p|..|p| + |text|] == text;
    assert OccursAt(hay, text, |p|);
  }
}

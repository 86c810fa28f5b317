/** The shared name-and-slug model behind Category and Genre: the field
    constraints, slug uniqueness, and the default ordering of listings by name. */
module Groups {
  import opened Fields

  const NameMaxLength: nat := 256
  const SlugMaxLength: nat := 50

  /** One character the slug validator accepts: an ASCII letter or digit,
      a hyphen or an underscore. */
  predicate SlugChar(c: char)
  {
    ('a' <= c <= 'z') || ('A' <= c <= 'Z') || ('0' <= c <= '9') || c == '-' || c == '_'
  }

  /** The slug pattern: one or more slug characters. */
  predicate IsSlug(s: string)
  {
    |s| > 0 && forall i :: 0 <= i < |s| ==> SlugChar(s[i])
  }

  /** A Category or a Genre row. The table is keyed by the slug: it is
      unique, the API looks rows up by it, and no endpoint changes it. */
  datatype Group = Group(name: string, slug: string)

  /** The field errors of a submitted (name, slug) pair, given the slugs
      already taken in the same table. */
  function GroupErrors(name: string, slug: string, taken: set<string>): (r: set<Field>)
    ensures r <= {Name, Slug}
    ensures Name in r <==> |name| == 0 || |name| > NameMaxLength
    ensures Slug in r <==> !IsSlug(slug) || |slug| > SlugMaxLength || slug in taken
  {
    ErrorIf(|name| == 0 || |name| > NameMaxLength, Name)
    + ErrorIf(!IsSlug(slug) || |slug| > SlugMaxLength || slug in taken, Slug)
  }

  /** Every stored row satisfies the field constraints and is filed under its own slug. */
  ghost predicate GroupsValid(groups: map<string, Group>)
  {
    forall s :: s in groups ==>
      && groups[s].slug == s
      && IsSlug(s) && |s| <= SlugMaxLength
      && 0 < |groups[s].name| <= NameMaxLength
  }

  /** A row that passes `GroupErrors` can be added without breaking the
      table's constraints or displacing an existing row. */
  lemma AcceptedGroupKeepsTable(groups: map<string, Group>, name: string, slug: string)
    requires GroupsValid(groups)
    requires GroupErrors(name, slug, groups.Keys) == {}
    ensures slug !in groups
    ensures GroupsValid(groups[slug := Group(name, slug)])
  {
    assert Name !in GroupErrors(name, slug, groups.Keys);
    assert Slug !in GroupErrors(name, slug, groups.Keys);
  }

  // ---- ordering by name ----

  /** Lexicographic order on names, character by character. */
  predicate NameLe(a: string, b: string)
    decreases |a|
  {
    |a| == 0 || (|b| > 0 && (a[0] < b[0] || (a[0] == b[0] && NameLe(a[1..], b[1..]))))
  }

  lemma {:induction false} NameLeTotal(a: string, b: string)
    ensures NameLe(a, b) || NameLe(b, a)
    decreases |a|
  {
    if |a| > 0 && |b| > 0 && a[0] == b[0] {
      NameLeTotal(a[1..], b[1..]);
    }
  }

  lemma {:induction false} NameLeTransitive(a: string, b: string, c: string)
    requires NameLe(a, b) && NameLe(b, c)
    ensures NameLe(a, c)
    decreases |a|
  {
    if |a| > 0 && a[0] == b[0] && b[0] == c[0] {
      NameLeTransitive(a[1..], b[1..], c[1..]);
    }
  }

  /** The row filed under `k` has a name no greater than any other row's. */
  ghost predicate FirstByName(groups: map<string, Group>, k: string)
  {
    k in groups && forall j :: j in groups ==> NameLe(groups[k].name, groups[j].name)
  }

  lemma {:induction false} FirstByNameExists(groups: map<string, Group>)
    requires |groups| > 0
    ensures exists k :: FirstByName(groups, k)
    decreases |groups|
  {
    var k :| k in groups;
    var rest := groups - {k};
    assert rest.Keys == groups.Keys - {k};
    if |rest| == 0 {
      assert groups.Keys == {k};
      NameLeTotal(groups[k].name, groups[k].name);
      assert FirstByName(groups, k);
    } else {
      FirstByNameExists(rest);
      var m :| FirstByName(rest, m);
      NameLeTotal(groups[k].name, groups[m].name);
      if NameLe(groups[m].name, groups[k].name) {
        forall j | j in groups ensures NameLe(groups[m].name, groups[j].name) {
          if j == k { } else { assert j in rest; }
        }
        assert FirstByName(groups, m);
      } else {
        forall j | j in groups ensures NameLe(groups[k].name, groups[j].name) {
          if j == k {
            NameLeTotal(groups[k].name, groups[k].name);
          } else {
            assert j in rest;
            NameLeTransitive(groups[k].name, groups[m].name, groups[j].name);
          }
        }
        assert FirstByName(groups, k);
      }
    }
  }

  /** The key of a row that comes first by name. */
  ghost function FirstKey(groups: map<string, Group>): (k: string)
    requires |groups| > 0
    ensures FirstByName(groups, k)
  {
    FirstByNameExists(groups);
    var k :| FirstByName(groups, k); k
  }

  /** The listing of a Category or Genre table in its default order,
      `ordering = ["name"]`; rows with equal names come in an unspecified order. */
  ghost function ListedByName(groups: map<string, Group>): seq<Group>
    decreases |groups|
  {
    if |groups| == 0 then []
    else
      var k := FirstKey(groups);
      assert (groups - {k}).Keys == groups.Keys - {k};
      [groups[k]] + ListedByName(groups - {k})
  }

  /** The listing holds every row exactly once and nothing else, and is
      ordered by name. */
  lemma {:induction false} ListedByNameIsOrderedListing(groups: map<string, Group>)
    ensures |ListedByName(groups)| == |groups|
    ensures forall g :: g in ListedByName(groups) <==> g in groups.Values
    ensures forall i, j :: 0 <= i < j < |ListedByName(groups)| ==>
              NameLe(ListedByName(groups)[i].name, ListedByName(groups)[j].name)
    decreases |groups|
  {
    if |groups| > 0 {
      var k := FirstKey(groups);
      var rest := groups - {k};
      assert rest.Keys == groups.Keys - {k};
      assert ListedByName(groups) == [groups[k]] + ListedByName(rest);
      ListedByNameIsOrderedListing(rest);
      var l := ListedByName(groups);
      forall g ensures g in l <==> g in groups.Values {
        if g in l && g != groups[k] {
          assert g in ListedByName(rest);
          var j :| j in rest && rest[j] == g;
        }
        if g in groups.Values && g != groups[k] {
          var j :| j in groups && groups[j] == g;
          assert j in rest && g in rest.Values;
        }
      }
      forall i, j | 0 <= i < j < |l| ensures NameLe(l[i].name, l[j].name) {
        if i == 0 {
          assert l[j] in ListedByName(rest);
          assert l[j] in rest.Values;
          var q :| q in rest && rest[q] == l[j];
        } else {
          assert l[i] == ListedByName(rest)[i - 1] && l[j] == ListedByName(rest)[j - 1];
        }
      }
    }
  }
}

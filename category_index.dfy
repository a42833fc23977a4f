/**
 * The category page: the category's display title, the page count, and the
 * category's articles grouped under the upper-cased first letter of their
 * titles, the groups in string order and each group in the given order.
 */
module CategoryIndex {
  import opened Wrappers
  import opened Text
  import opened Values
  import opened Sorting

  /** An article as the category page receives it. */
  datatype ArticleSummary = ArticleSummary(slug: seq<string>, title: string, description: Option<string>)

  /** One list item: the link and the excerpt shown after it. */
  datatype Item = Item(href: string, title: string, excerpt: Option<string>)

  /** The items under one letter heading. */
  datatype Section = Section(letter: string, items: seq<Item>)

  /** What the page shows. */
  datatype CategoryView = CategoryView(countText: string, categoryTitle: string, sections: seq<Section>)

  /** The display title of a category: each `-` becomes a space and each word starts upper-case. */
  function CategoryTitle(category: string): (r: string)
    ensures TitleCaseOf(category, r)
  {
    TitleCaseIsCharwise(category);
    TitleCase(category)
  }

  /** `title.charAt(0).toUpperCase()`: empty for an empty title. */
  function FirstLetter(title: string): (r: string)
    ensures |r| <= 1 && (|r| == 0 <==> |title| == 0)
    ensures |title| > 0 ==> r[0] == Upper(title[0])
  {
    if |title| == 0 then "" else [Upper(title[0])]
  }

  /** Two characters upper-case alike exactly when they lower-case alike: they agree up to ASCII case. */
  lemma SameCase(x: char, y: char)
    ensures Upper(x) == Upper(y) <==> Lower(x) == Lower(y)
  {
  }

  /**
   * Two titles fall in the same group exactly when both are empty or their
   * first characters agree up to ASCII case; no key holds a lower-case
   * ASCII letter.
   */
  lemma SameGroupIff(a: string, b: string)
    ensures FirstLetter(a) == FirstLetter(b) <==>
      (|a| == 0 && |b| == 0) || (|a| > 0 && |b| > 0 && Lower(a[0]) == Lower(b[0]))
    ensures forall i :: 0 <= i < |FirstLetter(a)| ==> !IsLowerAscii(FirstLetter(a)[i])
  {
    if |a| > 0 && |b| > 0 {
      SameCase(a[0], b[0]);
      assert FirstLetter(a) == FirstLetter(b) <==> Upper(a[0]) == Upper(b[0]);
    }
  }

  /** The group key of an article. */
  function LetterOf(a: ArticleSummary): string {
    FirstLetter(a.title)
  }

  predicate HasLetter(articles: seq<ArticleSummary>, l: string) {
    exists i :: 0 <= i < |articles| && LetterOf(articles[i]) == l
  }

  predicate Distinct<T(==)>(s: seq<T>) {
    forall i, j :: 0 <= i < j < |s| ==> s[i] != s[j]
  }

  /** The group keys in order of first occurrence. */
  function LettersOf(articles: seq<ArticleSummary>): seq<string>
    decreases |articles|
  {
    if |articles| == 0 then []
    else
      var rest := LettersOf(articles[..|articles| - 1]);
      var l := LetterOf(articles[|articles| - 1]);
      if l in rest then rest else rest + [l]
  }

  /** The key list holds each key of the articles, once. */
  lemma {:induction false} LettersOfKeys(articles: seq<ArticleSummary>)
    ensures Distinct(LettersOf(articles))
    ensures forall l :: l in LettersOf(articles) <==> HasLetter(articles, l)
    decreases |articles|
  {
    if |articles| > 0 {
      var pre := articles[..|articles| - 1];
      LettersOfKeys(pre);
      var l := LetterOf(articles[|articles| - 1]);
      forall m | HasLetter(pre, m) ensures HasLetter(articles, m) {
        var i :| 0 <= i < |pre| && LetterOf(pre[i]) == m;
        assert articles[i] == pre[i];
      }
      forall m | HasLetter(articles, m) && m != l ensures HasLetter(pre, m) {
        var i :| 0 <= i < |articles| && LetterOf(articles[i]) == m;
        assert pre[i] == articles[i];
      }
    }
  }

  /** The articles whose key is `l`, in order. */
  function InGroup(articles: seq<ArticleSummary>, l: string): seq<ArticleSummary>
    decreases |articles|
  {
    if |articles| == 0 then []
    else
      var a := articles[|articles| - 1];
      InGroup(articles[..|articles| - 1], l) + (if LetterOf(a) == l then [a] else [])
  }

  /** A group holds exactly the articles with its key. */
  lemma {:induction false} InGroupMembers(articles: seq<ArticleSummary>, l: string)
    ensures forall a :: a in InGroup(articles, l) <==> a in articles && LetterOf(a) == l
    decreases |articles|
  {
    if |articles| > 0 {
      var pre := articles[..|articles| - 1];
      InGroupMembers(pre, l);
      assert forall b :: b in articles <==> b in pre || b == articles[|articles| - 1];
    }
  }

  /** A key no article has has an empty group. */
  lemma NoKeyNoGroup(articles: seq<ArticleSummary>, l: string)
    requires l !in LettersOf(articles)
    ensures InGroup(articles, l) == []
  {
    LettersOfKeys(articles);
    InGroupMembers(articles, l);
  }

  /** `letters` and `groups` hold the grouping of `articles`. */
  ghost predicate Grouped(articles: seq<ArticleSummary>, letters: seq<string>, groups: map<string, seq<ArticleSummary>>) {
    letters == LettersOf(articles) &&
    (forall l :: l in groups <==> l in letters) &&
    (forall l :: l in groups ==> groups[l] == InGroup(articles, l))
  }

  /** Adding one article to the grouping of the articles before it. */
  lemma GroupStep(articles: seq<ArticleSummary>, a: ArticleSummary, letters: seq<string>, groups: map<string, seq<ArticleSummary>>)
    requires Grouped(articles, letters, groups)
    ensures var l := LetterOf(a);
      Grouped(articles + [a],
        if l in groups then letters else letters + [l],
        groups[l := (if l in groups then groups[l] else []) + [a]])
  {
    var all := articles + [a];
    assert all[..|all| - 1] == articles;
    var l := LetterOf(a);
    assert LettersOf(all) == if l in letters then letters else letters + [l];
    if l !in groups {
      NoKeyNoGroup(articles, l);
    }
    forall m ensures InGroup(all, m) == InGroup(articles, m) + (if l == m then [a] else []) {
    }
  }

  lemma GroupOf(articles: seq<ArticleSummary>, letters: seq<string>, groups: map<string, seq<ArticleSummary>>, l: string)
    requires Grouped(articles, letters, groups) && l in letters
    ensures l in groups && groups[l] == InGroup(articles, l)
  {
  }

  /**
   * The `forEach` of the component: an object from key to the articles under
   * it, keys added as they first occur.
   */
  method GroupByLetter(articles: seq<ArticleSummary>) returns (letters: seq<string>, groups: map<string, seq<ArticleSummary>>)
    ensures Grouped(articles, letters, groups) && letters == LettersOf(articles)
  {
    letters := [];
    groups := map[];
    for i := 0 to |articles|
      invariant Grouped(articles[..i], letters, groups)
    {
      letters, groups := AddArticle(articles[..i], articles[i], letters, groups);
      assert articles[..i + 1] == articles[..i] + [articles[i]];
    }
    assert articles[..|articles|] == articles;
  }

  /** The callback of the `forEach`: files one article under its key, creating the key when it is new. */
  method AddArticle(ghost seen: seq<ArticleSummary>, article: ArticleSummary,
                    letters: seq<string>, groups: map<string, seq<ArticleSummary>>)
    returns (letters': seq<string>, groups': map<string, seq<ArticleSummary>>)
    requires Grouped(seen, letters, groups)
    ensures Grouped(seen + [article], letters', groups')
  {
    GroupStep(seen, article, letters, groups);
    letters', groups' := letters, groups;
    var firstLetter := FirstLetter(article.title);
    if firstLetter !in groups' {
      groups' := groups'[firstLetter := []];
      letters' := letters' + [firstLetter];
    }
    groups' := groups'[firstLetter := groups'[firstLetter] + [article]];
    assert groups' == groups[firstLetter := (if firstLetter in groups then groups[firstLetter] else []) + [article]];
  }

  // `Object.keys(groupedArticles).sort()`: the default sort compares strings
  // code unit by code unit. Keys are empty or one character long, so the
  // comparison is that of `Rank`.

  /** String order: a proper prefix first, else the first differing character decides. */
  predicate StrLess(a: string, b: string)
    decreases |a|
  {
    |b| > 0 && (|a| == 0 || a[0] < b[0] || (a[0] == b[0] && StrLess(a[1..], b[1..])))
  }

  /** The sort key of a group key: the empty key before every character. */
  function Rank(l: string): int {
    if |l| == 0 then -1 else l[0] as int
  }

  /** On keys of at most one character, comparing ranks is comparing strings. */
  lemma RankOrder(a: string, b: string)
    requires |a| <= 1 && |b| <= 1
    ensures Rank(a) < Rank(b) <==> StrLess(a, b)
    ensures Rank(a) == Rank(b) <==> a == b
  {
    if |a| == 1 && |b| == 1 && a[0] == b[0] {
      assert a == [a[0]] && b == [b[0]];
    }
  }

  /** The group keys in the order the page lists them. */
  function SortedLetters(articles: seq<ArticleSummary>): seq<string> {
    SortByKey(LettersOf(articles), Rank)
  }

  /** The list item of an article: its link, and its description when that is non-empty. */
  function ItemOf(a: ArticleSummary): Item {
    Item(Href(a.slug), a.title, if a.description.Some? && a.description.value != "" then a.description else None)
  }

  /** `` `/wiki/${slug.join('/')}` ``. */
  function Href(slug: seq<string>): string {
    "/wiki/" + Join(slug, "/")
  }

  function Items(articles: seq<ArticleSummary>): (r: seq<Item>)
    ensures |r| == |articles| && forall i :: 0 <= i < |articles| ==> r[i] == ItemOf(articles[i])
  {
    seq(|articles|, i requires 0 <= i < |articles| => ItemOf(articles[i]))
  }

  /** `This category contains N page(s).` */
  function CountText(n: nat): (r: string)
    ensures EndsWith(r, " page.") <==> n == 1
  {
    var r := "This category contains " + IntToString(n) + " " + (if n == 1 then "page" else "pages") + ".";
    assert r[|r| - 6..] == (if n == 1 then " page." else "pages.");
    r
  }

  /** The section under key `l`. */
  function SectionOf(articles: seq<ArticleSummary>, l: string): Section {
    Section(l, Items(InGroup(articles, l)))
  }

  /** The sections under the keys `letters`, in that order. */
  function SectionsOf(articles: seq<ArticleSummary>, letters: seq<string>): seq<Section> {
    seq(|letters|, i requires 0 <= i < |letters| => SectionOf(articles, letters[i]))
  }

  /** The first `i` sections under the keys `letters`. */
  function SectionsUpTo(articles: seq<ArticleSummary>, letters: seq<string>, i: nat): seq<Section>
    requires i <= |letters|
  {
    if i == 0 then [] else SectionsUpTo(articles, letters, i - 1) + [SectionOf(articles, letters[i - 1])]
  }

  lemma {:induction false} SectionsUpToAll(articles: seq<ArticleSummary>, letters: seq<string>, i: nat)
    requires i <= |letters|
    ensures |SectionsUpTo(articles, letters, i)| == i
    ensures forall k :: 0 <= k < i ==> SectionsUpTo(articles, letters, i)[k] == SectionOf(articles, letters[k])
    ensures i == |letters| ==> SectionsUpTo(articles, letters, i) == SectionsOf(articles, letters)
  {
    if i > 0 {
      SectionsUpToAll(articles, letters, i - 1);
    }
  }

  /** The page for a category and its articles. */
  function ViewOf(category: string, articles: seq<ArticleSummary>): CategoryView {
    CategoryView(CountText(|articles|), CategoryTitle(category), SectionsOf(articles, SortedLetters(articles)))
  }

  /** The component: group, sort the keys, and list each group under its key. */
  method RenderCategoryIndex(category: string, articles: seq<ArticleSummary>) returns (view: CategoryView)
    ensures view == ViewOf(category, articles)
  {
    var letters, groups := GroupByLetter(articles);
    var sortedLetters := SortByKey(letters, Rank);
    SortMembers(letters, Rank);
    var sections := [];
    for i := 0 to |sortedLetters|
      invariant sections == SectionsUpTo(articles, sortedLetters, i)
    {
      assert sortedLetters[i] in sortedLetters;
      var section := SectionFor(articles, letters, groups, sortedLetters[i]);
      sections := sections + [section];
    }
    SectionsUpToAll(articles, sortedLetters, |sortedLetters|);
    view := CategoryView(CountText(|articles|), CategoryTitle(category), sections);
  }

  /** The callback of `sortedLetters.map`: the section under one key, its articles in order. */
  method SectionFor(ghost articles: seq<ArticleSummary>, letters: seq<string>,
                    groups: map<string, seq<ArticleSummary>>, letter: string)
    returns (section: Section)
    requires Grouped(articles, letters, groups) && letter in letters
    ensures section == SectionOf(articles, letter)
  {
    GroupOf(articles, letters, groups, letter);
    section := Section(letter, Items(groups[letter]));
  }

  /** The sorted keys are the keys of the articles, each once. */
  lemma SortedLettersAreKeys(articles: seq<ArticleSummary>)
    ensures Distinct(SortedLetters(articles))
    ensures forall l :: l in SortedLetters(articles) <==> HasLetter(articles, l)
  {
    var letters := LettersOf(articles);
    var r := SortedLetters(articles);
    LettersOfKeys(articles);
    SortPermutes(letters, Rank);
    forall l ensures l in r <==> l in letters {
      assert l in r <==> l in multiset(r);
    }
    forall i, j | 0 <= i < j < |r| ensures r[i] != r[j] {
      if r[i] == r[j] {
        MultisetTwo(r, i, j);
        DistinctOnce(letters, r[i]);
      }
    }
  }

  lemma MultisetTwo<T>(s: seq<T>, i: nat, j: nat)
    requires i < j < |s| && s[i] == s[j]
    ensures multiset(s)[s[i]] >= 2
  {
    assert s == s[..i] + [s[i]] + s[i + 1..j] + [s[j]] + s[j + 1..];
  }

  lemma {:induction false} DistinctOnce<T>(s: seq<T>, x: T)
    requires Distinct(s)
    ensures multiset(s)[x] <= 1
    decreases |s|
  {
    if |s| > 0 {
      var pre := s[..|s| - 1];
      assert s == pre + [s[|s| - 1]];
      DistinctOnce(pre, x);
      if s[|s| - 1] == x {
        assert x !in pre;
      }
    }
  }

  /** The letter headings are in strictly increasing string order. */
  lemma SectionsAscending(category: string, articles: seq<ArticleSummary>)
    ensures var ss := ViewOf(category, articles).sections;
      forall i, j :: 0 <= i < j < |ss| ==> StrLess(ss[i].letter, ss[j].letter)
  {
    var r := SortedLetters(articles);
    SortSorted(LettersOf(articles), Rank);
    SortedLettersAreKeys(articles);
    forall i, j | 0 <= i < j < |r| ensures StrLess(r[i], r[j]) {
      assert r[i] in r && r[j] in r;
      KeyShort(articles, r[i]);
      KeyShort(articles, r[j]);
      RankOrder(r[i], r[j]);
    }
  }

  lemma KeyShort(articles: seq<ArticleSummary>, l: string)
    requires HasLetter(articles, l)
    ensures |l| <= 1
  {
  }

  /**
   * Each article is listed under the key of its title, and each section
   * lists exactly the articles with its key, in their given order.
   */
  lemma ArticleInItsSection(category: string, articles: seq<ArticleSummary>, i: nat)
    requires i < |articles|
    ensures var ss := ViewOf(category, articles).sections;
      exists j :: 0 <= j < |ss| && ss[j].letter == LetterOf(articles[i]) && ItemOf(articles[i]) in ss[j].items
  {
    var ss := ViewOf(category, articles).sections;
    var r := SortedLetters(articles);
    SortedLettersAreKeys(articles);
    var l := LetterOf(articles[i]);
    assert HasLetter(articles, l);
    var j :| 0 <= j < |r| && r[j] == l;
    var g := InGroup(articles, l);
    InGroupMembers(articles, l);
    assert articles[i] in g;
    var k :| 0 <= k < |g| && g[k] == articles[i];
    assert ss[j].items[k] == ItemOf(articles[i]);
  }

  /** Articles with an empty title form the first section, under an empty heading. */
  lemma EmptyTitlesFirst(category: string, articles: seq<ArticleSummary>, i: nat)
    requires i < |articles| && articles[i].title == ""
    ensures var ss := ViewOf(category, articles).sections;
      |ss| > 0 && ss[0].letter == ""
  {
    var r := SortedLetters(articles);
    SortedLettersAreKeys(articles);
    assert HasLetter(articles, "");
    var j :| 0 <= j < |r| && r[j] == "";
    SortSorted(LettersOf(articles), Rank);
    assert j == 0 || Rank(r[0]) <= Rank(r[j]);
  }

  /** A link names the page's slug again: splitting its path at `/` gives the slug back. */
  lemma HrefNamesSlug(slug: seq<string>)
    requires |slug| >= 1 && forall k :: 0 <= k < |slug| ==> !Contains(slug[k], '/')
    ensures StartsWith(Href(slug), "/wiki/") && Split(Href(slug)[6..], '/') == slug
  {
    assert Href(slug)[6..] == Join(slug, ['/']);
    SplitJoin(slug, '/');
  }
}

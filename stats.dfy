/**
 * Vault statistics over the pages of the page index: the article count and
 * the count of the five main categories, the most recently modified pages,
 * and a page picked at random, optionally within one category. The category
 * of a page is the first segment of its slug.
 */
module Stats {
  import opened Wrappers
  import opened VaultIndex
  import opened Sorting

  // ---------------------------------------------------------------------------
  // getVaultStats

  datatype VaultStats = VaultStats(
    totalArticles: nat,
    people: nat,
    ideas: nat,
    projects: nat,
    places: nat,
    things: nat)

  /** `page.slug[0]`; absent for an empty slug. */
  function Category(p: PageInfo): Option<string> {
    if |p.slug| == 0 then None else Some(p.slug[0])
  }

  /** The pages whose category is `c`. */
  function InCategory(pages: seq<PageInfo>, c: string): (r: seq<PageInfo>)
    ensures |r| <= |pages|
    ensures forall p :: p in r <==> p in pages && Category(p) == Some(c)
    decreases |pages|
  {
    if |pages| == 0 then []
    else
      var pre := InCategory(pages[..|pages| - 1], c);
      var p := pages[|pages| - 1];
      assert forall q :: q in pages <==> q in pages[..|pages| - 1] || q == p;
      if Category(p) == Some(c) then pre + [p] else pre
  }

  /** How many pages are in category `c`. */
  function Count(pages: seq<PageInfo>, c: string): nat {
    |InCategory(pages, c)|
  }

  /** The statistics of a page list. */
  function StatsOf(pages: seq<PageInfo>): VaultStats {
    VaultStats(|pages|, Count(pages, "people"), Count(pages, "ideas"), Count(pages, "projects"),
      Count(pages, "places"), Count(pages, "things"))
  }

  /** One more page adds one to its own category's count and to no other. */
  lemma CountSnoc(pages: seq<PageInfo>, p: PageInfo, c: string)
    ensures Count(pages + [p], c) == Count(pages, c) + (if Category(p) == Some(c) then 1 else 0)
  {
    assert (pages + [p])[..|pages|] == pages;
  }

  /**
   * The loop of `getVaultStats`: one pass over the pages, adding one to the
   * counter of a page's category when it is one of the five.
   */
  method CountCategories(pages: seq<PageInfo>) returns (stats: VaultStats)
    ensures stats == StatsOf(pages)
  {
    stats := VaultStats(|pages|, 0, 0, 0, 0, 0);
    for i := 0 to |pages|
      invariant stats == StatsOf(pages[..i]).(totalArticles := |pages|)
    {
      var page := pages[i];
      assert pages[..i + 1] == pages[..i] + [page];
      CountSnoc(pages[..i], page, "people");
      CountSnoc(pages[..i], page, "ideas");
      CountSnoc(pages[..i], page, "projects");
      CountSnoc(pages[..i], page, "places");
      CountSnoc(pages[..i], page, "things");
      if |page.slug| > 0 {
        var category := page.slug[0];
        if category == "people" {
          stats := stats.(people := stats.people + 1);
        } else if category == "ideas" {
          stats := stats.(ideas := stats.ideas + 1);
        } else if category == "projects" {
          stats := stats.(projects := stats.projects + 1);
        } else if category == "places" {
          stats := stats.(places := stats.places + 1);
        } else if category == "things" {
          stats := stats.(things := stats.things + 1);
        }
      }
    }
    assert pages[..|pages|] == pages;
  }

  /** The pages of two different categories are counted apart: together they are at most all the pages. */
  lemma {:induction false} CountsDisjoint(pages: seq<PageInfo>, c: string, d: string)
    requires c != d
    ensures Count(pages, c) + Count(pages, d) <= |pages|
    decreases |pages|
  {
    if |pages| > 0 {
      var pre := pages[..|pages| - 1];
      assert pages == pre + [pages[|pages| - 1]];
      CountsDisjoint(pre, c, d);
      CountSnoc(pre, pages[|pages| - 1], c);
      CountSnoc(pre, pages[|pages| - 1], d);
    }
  }

  /** The five category counts never add up to more than the number of articles. */
  lemma {:induction false} CategoryCountsBounded(pages: seq<PageInfo>)
    ensures var s := StatsOf(pages);
      s.people + s.ideas + s.projects + s.places + s.things <= s.totalArticles
    decreases |pages|
  {
    if |pages| > 0 {
      var pre := pages[..|pages| - 1];
      var p := pages[|pages| - 1];
      assert pages == pre + [p];
      CategoryCountsBounded(pre);
      CountSnoc(pre, p, "people");
      CountSnoc(pre, p, "ideas");
      CountSnoc(pre, p, "projects");
      CountSnoc(pre, p, "places");
      CountSnoc(pre, p, "things");
    }
  }

  // ---------------------------------------------------------------------------
  // getRecentChanges

  /** `RecentChange`; the modification time is in milliseconds. */
  datatype RecentChange = RecentChange(title: string, slug: seq<string>, modified: int, category: string)

  /** `page.slug[0] || 'other'`. */
  function ChangeCategory(p: PageInfo): string {
    if |p.slug| > 0 && p.slug[0] != "" then p.slug[0] else "other"
  }

  /** The change records of the pages whose file `stat` can read, in page order. */
  function Changes(pages: seq<PageInfo>, stat: string -> Option<int>): (r: seq<RecentChange>)
    ensures |r| <= |pages|
    decreases |pages|
  {
    if |pages| == 0 then []
    else
      var pre := Changes(pages[..|pages| - 1], stat);
      var p := pages[|pages| - 1];
      match stat(p.filePath)
      case Some(mtime) => pre + [RecentChange(p.title, p.slug, mtime, ChangeCategory(p))]
      case None => pre
  }

  /** The first loop of `getRecentChanges`: a page whose file cannot be stat-ed is skipped. */
  method CollectChanges(pages: seq<PageInfo>, stat: string -> Option<int>) returns (changes: seq<RecentChange>)
    ensures changes == Changes(pages, stat)
  {
    changes := [];
    for i := 0 to |pages|
      invariant changes == Changes(pages[..i], stat)
    {
      var page := pages[i];
      assert pages[..i + 1][..i] == pages[..i];
      var mtime := stat(page.filePath);
      if mtime.None? {
        continue;
      }
      changes := changes + [RecentChange(page.title, page.slug, mtime.value, ChangeCategory(page))];
    }
    assert pages[..|pages|] == pages;
  }

  /** Every change comes from a page, with that page's title and slug. */
  lemma {:induction false} ChangesFromPages(pages: seq<PageInfo>, stat: string -> Option<int>)
    ensures forall c :: c in Changes(pages, stat) ==>
      exists p :: p in pages && c.title == p.title && c.slug == p.slug && stat(p.filePath) == Some(c.modified)
    decreases |pages|
  {
    if |pages| > 0 {
      var pre := pages[..|pages| - 1];
      ChangesFromPages(pre, stat);
      forall c | c in Changes(pages, stat)
        ensures exists p :: p in pages && c.title == p.title && c.slug == p.slug && stat(p.filePath) == Some(c.modified)
      {
        if c in Changes(pre, stat) {
          var p :| p in pre && c.title == p.title && c.slug == p.slug && stat(p.filePath) == Some(c.modified);
          assert p in pages;
        } else {
          assert pages[|pages| - 1] in pages;
        }
      }
    }
  }

  // The comparator `(a, b) => b.modified - a.modified` with a stable sort.

  /** Most recent first. */
  predicate SortedDesc(cs: seq<RecentChange>) {
    forall i, j :: 0 <= i < j < |cs| ==> cs[i].modified >= cs[j].modified
  }

  /** The sort key: the later, the smaller. */
  function Age(c: RecentChange): int {
    -c.modified
  }

  /** `changes.sort((a, b) => b.modified - a.modified)`. */
  function SortByDate(cs: seq<RecentChange>): (r: seq<RecentChange>)
    ensures |r| == |cs|
  {
    SortByKey(cs, Age)
  }

  /** The sorted changes are most recent first. */
  lemma SortByDateSorted(cs: seq<RecentChange>)
    ensures SortedDesc(SortByDate(cs))
  {
    SortSorted(cs, Age);
    var r := SortByDate(cs);
    forall i, j | 0 <= i < j < |r| ensures r[i].modified >= r[j].modified {
      assert Age(r[i]) <= Age(r[j]);
    }
  }

  /** Sorting loses and invents no change. */
  lemma SortByDatePermutes(cs: seq<RecentChange>)
    ensures multiset(SortByDate(cs)) == multiset(cs)
  {
    SortPermutes(cs, Age);
  }

  /** Changes modified at the same time `t` keep their page order. */
  lemma SortByDateStable(cs: seq<RecentChange>, t: int)
    ensures WithKey(SortByDate(cs), Age, -t) == WithKey(cs, Age, -t)
  {
    SortStable(cs, Age, -t);
  }

  /** `slice(0, limit)`: a negative limit counts from the end. */
  function Slice<T>(s: seq<T>, limit: int): (r: seq<T>)
    ensures limit >= 0 ==> |r| == (if limit < |s| then limit else |s|)
    ensures limit < 0 ==> |r| == (if |s| + limit > 0 then |s| + limit else 0)
    ensures r == s[..|r|]
  {
    var end := if limit >= 0 then (if limit < |s| then limit else |s|)
               else (if |s| + limit > 0 then |s| + limit else 0);
    s[..end]
  }

  /** What `getRecentChanges(limit)` returns for a page list. */
  function RecentChanges(pages: seq<PageInfo>, stat: string -> Option<int>, limit: int): seq<RecentChange> {
    Slice(SortByDate(Changes(pages, stat)), limit)
  }

  /**
   * The recent changes are most recent first, at most `limit` of them, and
   * no change left out is more recent than one kept.
   */
  lemma RecentChangesShape(pages: seq<PageInfo>, stat: string -> Option<int>, limit: int)
    requires limit >= 0
    ensures var all := SortByDate(Changes(pages, stat));
      var r := RecentChanges(pages, stat, limit);
      SortedDesc(r) && |r| <= limit && |r| <= |pages| &&
      (forall i, j :: 0 <= i < |r| && |r| <= j < |all| ==> r[i].modified >= all[j].modified)
  {
    var all := SortByDate(Changes(pages, stat));
    SortByDateSorted(Changes(pages, stat));
    var r := RecentChanges(pages, stat, limit);
    assert r == all[..|r|];
  }

  // ---------------------------------------------------------------------------
  // getRandomArticle

  datatype Pick = Pick(title: string, slug: seq<string>)

  /** `Math.floor(random * n)` for `0 <= random < 1`. */
  function PickIndex(random: real, n: nat): (i: nat)
    requires 0.0 <= random < 1.0 && n > 0
    ensures i < n
  {
    var x := random * n as real;
    assert 0.0 <= x < n as real;
    x.Floor
  }

  /** The pages a pick draws from: all of them, or those of a non-empty category. */
  function Candidates(pages: seq<PageInfo>, category: Option<string>): seq<PageInfo> {
    if category.Some? && category.value != "" then InCategory(pages, category.value) else pages
  }

  /** What `getRandomArticle(category)` returns for a page list and a draw of `Math.random()`. */
  function RandomArticle(pages: seq<PageInfo>, category: Option<string>, random: real): Option<Pick>
    requires 0.0 <= random < 1.0
  {
    var filtered := Candidates(pages, category);
    if |filtered| == 0 then None
    else
      var p := filtered[PickIndex(random, |filtered|)];
      Some(Pick(p.title, p.slug))
  }

  /**
   * There is a pick exactly when some page qualifies, and it is the title and
   * slug of a page of the requested category (any page without one).
   */
  lemma RandomArticleSound(pages: seq<PageInfo>, category: Option<string>, random: real)
    requires 0.0 <= random < 1.0
    ensures RandomArticle(pages, category, random).None? <==> |Candidates(pages, category)| == 0
    ensures RandomArticle(pages, category, random).Some? ==>
      exists p :: p in pages && RandomArticle(pages, category, random) == Some(Pick(p.title, p.slug)) &&
        (category.Some? && category.value != "" ==> Category(p) == category)
  {
    var filtered := Candidates(pages, category);
    if |filtered| > 0 {
      var p := filtered[PickIndex(random, |filtered|)];
      assert p in filtered;
    }
  }

  /** Every candidate can be picked: the draw `i / n` picks the `i`-th of `n`. */
  lemma PickIndexCovers(i: nat, n: nat)
    requires i < n
    ensures 0.0 <= i as real / n as real < 1.0
    ensures PickIndex(i as real / n as real, n) == i
  {
    var r := i as real / n as real;
    assert r * n as real == i as real;
  }
}

/** The statistics read from the cached page index. */
module StatsOfVault {
  import opened Wrappers
  import opened Vault
  import opened VaultIndex
  import opened Stats

  /** `getVaultStats`. */
  method GetVaultStats(cache: PageCache, vault: seq<Entry>) returns (stats: VaultStats)
    requires cache.Valid()
    modifies cache
    ensures cache.Valid() && cache.pageIndex == Some(old(cache.IndexFor(vault)))
    ensures stats == StatsOf(Distinct(cache.pageIndex.value))
  {
    var pages := cache.GetAllPages(vault);
    stats := CountCategories(pages);
  }

  /** `getRecentChanges(limit)`, with the file system's modification times given as `stat`. */
  method GetRecentChanges(cache: PageCache, vault: seq<Entry>, stat: string -> Option<int>, limit: int)
    returns (changes: seq<RecentChange>)
    requires cache.Valid()
    modifies cache
    ensures cache.Valid() && cache.pageIndex == Some(old(cache.IndexFor(vault)))
    ensures changes == RecentChanges(Distinct(cache.pageIndex.value), stat, limit)
  {
    var pages := cache.GetAllPages(vault);
    var all := CollectChanges(pages, stat);
    changes := Slice(SortByDate(all), limit);
  }

  /** `getRandomArticle(category)`, with the draw of `Math.random()` given as `random`. */
  method GetRandomArticle(cache: PageCache, vault: seq<Entry>, category: Option<string>, random: real)
    returns (pick: Option<Pick>)
    requires cache.Valid() && 0.0 <= random < 1.0
    modifies cache
    ensures cache.Valid() && cache.pageIndex == Some(old(cache.IndexFor(vault)))
    ensures pick == RandomArticle(Distinct(cache.pageIndex.value), category, random)
  {
    var pages := cache.GetAllPages(vault);
    var filtered := pages;
    if category.Some? && category.value != "" {
      filtered := InCategory(pages, category.value);
    }
    if |filtered| == 0 {
      return None;
    }
    var chosen := filtered[PickIndex(random, |filtered|)];
    pick := Some(Pick(chosen.title, chosen.slug));
  }
}

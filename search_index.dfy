/**
 * The search index: one record per readable content file of the vault, in
 * walk order, holding its title, slug, category, the plain text of its body,
 * an excerpt of at most 200 characters and its tags. The client index is the
 * same list without the body text and the file path.
 */
module SearchIndex {
  import opened Wrappers
  import opened Text
  import opened Values
  import opened Vault
  import opened VaultWalk
  import VaultIndex

  /** `SearchableArticle`. The title and tags are front-matter values, which need not be strings. */
  datatype Article = Article(
    title: Value,
    slug: seq<string>,
    category: string,
    content: string,
    excerpt: string,
    tags: seq<Value>,
    filePath: string)

  /** `Omit<SearchableArticle, 'content' | 'filePath'>`. */
  datatype ClientArticle = ClientArticle(
    title: Value,
    slug: seq<string>,
    category: string,
    excerpt: string,
    tags: seq<Value>)

  // ---------------------------------------------------------------------------
  // plain text

  /** A `---` starts at index `j` of `s`. */
  predicate DelimAt(s: string, j: nat) {
    j + 3 <= |s| && s[j] == '-' && s[j + 1] == '-' && s[j + 2] == '-'
  }

  /** The first `---` starting at or after `i`: what the lazy `[\s\S]*?---` stops at. */
  function FindDelim(s: string, i: nat): (r: Option<nat>)
    ensures r.Some? ==> i <= r.value && DelimAt(s, r.value)
    ensures r.Some? ==> forall j :: i <= j < r.value ==> !DelimAt(s, j)
    ensures r.None? ==> forall j :: i <= j ==> !DelimAt(s, j)
    decreases |s| - i
  {
    if i + 3 > |s| then None
    else if DelimAt(s, i) then Some(i)
    else FindDelim(s, i + 1)
  }

  /**
   * `content.replace(/^---[\s\S]*?---/, '')`: a leading `---` through the next
   * `---` (at index 3 or later) is removed; without both, nothing is.
   */
  function StripFrontBlock(content: string): (r: string)
    ensures !DelimAt(content, 0) ==> r == content
  {
    if DelimAt(content, 0) then
      match FindDelim(content, 3)
      case Some(k) => content[k + 3..]
      case None => content
    else content
  }

  /** `[#*`[\]()]`: the markdown formatting characters the search text drops. */
  predicate IsFormatting(c: char) {
    c == '#' || c == '*' || c == '`' || c == '[' || c == ']' || c == '(' || c == ')'
  }

  predicate NotFormatting(c: char) {
    !IsFormatting(c)
  }

  /** The searchable text of a body: the leading block removed, formatting characters deleted, trimmed. */
  function PlainContent(content: string): string {
    Trim(Filter(StripFrontBlock(content), NotFormatting))
  }

  const ExcerptLength: nat := 200

  /** `plain.substring(0, 200).trim()` followed by `...` when the text is longer than 200 characters. */
  function Excerpt(plain: string): string {
    Trim(plain[..if |plain| < ExcerptLength then |plain| else ExcerptLength]) +
    (if |plain| > ExcerptLength then "..." else "")
  }

  /**
   * A body that opens with `---`, a header in which no `---` starts (not even
   * one running into the closing `---`), and `---` loses exactly that block.
   */
  lemma StripFrontBlockOf(header: string, rest: string)
    requires forall j :: 0 <= j < |header| ==> !DelimAt(header + "---", j)
    ensures StripFrontBlock("---" + header + "---" + rest) == rest
  {
    var c := "---" + header + "---" + rest;
    assert DelimAt(c, 0);
    forall j | 3 <= j < 3 + |header| ensures !DelimAt(c, j) {
      assert !DelimAt(header + "---", j - 3);
      if j + 3 <= |c| {
        assert c[j] == (header + "---")[j - 3];
        assert c[j + 1] == (header + "---")[j - 2];
        assert c[j + 2] == (header + "---")[j - 1];
      }
    }
    assert DelimAt(c, 3 + |header|);
    assert FindDelim(c, 3) == Some(3 + |header|);
    assert c[3 + |header| + 3..] == rest;
  }

  /** The plain text holds no formatting character and neither starts nor ends with whitespace. */
  lemma PlainContentShape(content: string)
    ensures var p := PlainContent(content);
      (forall i :: 0 <= i < |p| ==> !IsFormatting(p[i])) &&
      (|p| > 0 ==> !IsSpace(p[0]) && !IsSpace(p[|p| - 1])) &&
      Trim(p) == p
  {
    var f := Filter(StripFrontBlock(content), NotFormatting);
    var p := Trim(f);
    assert p == PlainContent(content);
    TrimTrimmed(f);
    TrimKeeps(f, NotFormatting);
    assert forall i :: 0 <= i < |p| ==> NotFormatting(p[i]);
  }

  /**
   * A text of at most 200 characters is its own excerpt; a longer one gives
   * at most 200 trimmed characters followed by `...`.
   */
  lemma ExcerptShape(plain: string)
    requires Trim(plain) == plain
    ensures var e := Excerpt(plain);
      (|plain| <= ExcerptLength ==> e == plain) &&
      (|plain| > ExcerptLength ==>
        |e| <= ExcerptLength + 3 && e[|e| - 3..] == "..." && Trim(e[..|e| - 3]) == e[..|e| - 3]) &&
      (|plain| > ExcerptLength ==>
        exists k :: 0 <= k <= ExcerptLength && e == plain[..k] + "..." &&
          forall i :: k <= i < ExcerptLength ==> IsSpace(plain[i])) &&
      |e| <= ExcerptLength + 3
  {
    var e := Excerpt(plain);
    if |plain| <= ExcerptLength {
      assert plain[..|plain|] == plain;
    } else {
      var head := plain[..ExcerptLength];
      var t := Trim(head);
      TrimTrimmed(head);
      TrimTrimmed(plain);
      assert !IsSpace(head[0]);
      var st := TrimStart(head);
      assert |st| == |head|;
      assert st == head;
      var k := |t|;
      assert t == head[..k] && head[..k] == plain[..k];
      assert forall i :: k <= i < ExcerptLength ==> IsSpace(plain[i]) by {
        forall i | k <= i < ExcerptLength ensures IsSpace(plain[i]) {
          assert plain[i] == head[i];
        }
      }
      assert e == t + "...";
      assert e[..|e| - 3] == t;
    }
  }

  // ---------------------------------------------------------------------------
  // one record per file

  /** `slug.length > 1 ? slug[0] : 'General'`, capitalised. */
  function CategoryOf(slug: seq<string>): string {
    Capitalize(if |slug| > 1 then slug[0] else "General")
  }

  /** `frontmatter.title ||` the file name's title case. */
  function TitleOf(data: Data, fileName: string): Value {
    var t := Lookup(data, "title");
    if Truthy(t) then t else Str(TitleCase(fileName))
  }

  /** `Array.isArray(tags) ? tags : typeof tags === 'string' ? [tags] : []`. */
  function TagsOf(tags: Value): seq<Value> {
    match tags
    case Arr(items) => items
    case Str(_) => [tags]
    case _ => []
  }

  /** The record of one visited file; none when the file cannot be read. */
  function ArticleOf(f: FileRef): Option<Article> {
    match f.body
    case Unreadable => None
    case Readable(raw, parsed) =>
      var data := if parsed.Some? then parsed.value.data else [];
      var content := if parsed.Some? then parsed.value.content else raw;
      var plain := PlainContent(content);
      var slug := SlugOf(f);
      Some(Article(TitleOf(data, FileName(f)), slug, CategoryOf(slug), plain, Excerpt(plain),
        TagsOf(Lookup(data, "tags")), FullPath(f)))
  }

  /** What `f` gives for each element of `xs` that it gives something for, in order. */
  function Kept<A, B>(xs: seq<A>, f: A -> Option<B>): (r: seq<B>)
    ensures |r| <= |xs|
    decreases |xs|
  {
    if |xs| == 0 then []
    else
      Kept(xs[..|xs| - 1], f) +
      (match f(xs[|xs| - 1]) case Some(b) => [b] case None => [])
  }

  /** The records of the files `fs`, in order. */
  function Articles(fs: seq<FileRef>): seq<Article> {
    Kept(fs, ArticleOf)
  }

  /** The search index of a vault. */
  function SearchIndexOf(vault: seq<Entry>): seq<Article> {
    Articles(Walk([], vault))
  }

  lemma {:induction false} KeptAppend<A, B>(a: seq<A>, b: seq<A>, f: A -> Option<B>)
    ensures Kept(a + b, f) == Kept(a, f) + Kept(b, f)
    decreases |b|
  {
    if |b| == 0 {
      assert a + b == a;
    } else {
      assert (a + b)[..|a + b| - 1] == a + b[..|b| - 1];
      assert (a + b)[|a + b| - 1] == b[|b| - 1];
      KeptAppend(a, b[..|b| - 1], f);
    }
  }

  /** Every readable file gets a record, and only readable files do. */
  lemma {:induction false} ArticlesCount(fs: seq<FileRef>)
    ensures |Articles(fs)| == |fs| - Unreadables(fs)
    decreases |fs|
  {
    if |fs| > 0 {
      ArticlesCount(fs[..|fs| - 1]);
    }
  }

  /** How many of the files cannot be read. */
  function Unreadables(fs: seq<FileRef>): nat
    decreases |fs|
  {
    if |fs| == 0 then 0
    else Unreadables(fs[..|fs| - 1]) + (if fs[|fs| - 1].body.Unreadable? then 1 else 0)
  }

  /**
   * A file's record agrees with the page the vault index registers for it: the
   * same slug and file path, and the same title unless the front matter gives
   * a truthy one. With slash-free names the slug is the directory names and
   * the file name, and the category is the top directory, or `General` for a
   * file at the root.
   */
  lemma ArticleAgreesWithPage(f: FileRef)
    requires f.body.Readable? && IsContentFile(f.name)
    requires SlashFree(f.dir) && !Contains(f.name, '/')
    ensures var a := ArticleOf(f).value;
      var page := VaultIndex.PageOf(f);
      var data := if f.body.matter.Some? then f.body.matter.value.data else [];
      a.slug == page.slug == f.dir + [FileName(f)] &&
      a.filePath == page.filePath &&
      (!Truthy(Lookup(data, "title")) ==> a.title == Str(page.title)) &&
      a.category == Capitalize(if |f.dir| > 0 then f.dir[0] else "General")
  {
    SlugIsPath(f);
  }

  // ---------------------------------------------------------------------------
  // buildSearchIndex

  /** `buildSearchIndex`: walks the vault from its root, collecting one record per readable content file. */
  method BuildSearchIndex(vault: seq<Entry>) returns (articles: seq<Article>)
    ensures articles == SearchIndexOf(vault)
  {
    articles := ScanDirectory([], vault, []);
  }

  /** The nested `scanDirectory`: appends the records of the files the walk of `entries` visits. */
  method ScanDirectory(dir: seq<string>, entries: seq<Entry>, articles: seq<Article>) returns (result: seq<Article>)
    ensures result == articles + Articles(Walk(dir, entries))
    decreases entries
  {
    result := articles;
    var i := 0;
    assert Walk(dir, entries[..0]) == [];
    while i < |entries|
      invariant 0 <= i <= |entries|
      invariant result == articles + Articles(Walk(dir, entries[..i]))
    {
      ghost var before, done, next := result, Walk(dir, entries[..i]), Walk(dir, [entries[i]]);
      result := ScanEntry(dir, entries[i], result);
      WalkPrefix(dir, entries, i);
      ScanStep(articles, done, next, ArticleOf, before, result);
      i := i + 1;
    }
    assert entries[..i] == entries;
  }

  /** One turn of the loop of `scanDirectory`. */
  method ScanEntry(dir: seq<string>, entry: Entry, articles: seq<Article>) returns (result: seq<Article>)
    ensures result == articles + Articles(Walk(dir, [entry]))
    decreases entry
  {
    WalkSingle(dir, entry);
    match entry.node {
      case Dir(children) =>
        if Descends(entry.name) {
          result := ScanDirectory(dir + [entry.name], children, articles);
        } else {
          result := articles;
        }
      case File(body) =>
        if IsContentFile(entry.name) {
          var f := FileRef(dir, entry.name, body);
          var article := ReadArticle(f);
          SingleArticle(f);
          result := if article.Some? then articles + [article.value] else articles;
        } else {
          result := articles;
        }
      case Special =>
        result := articles;
    }
  }

  /**
   * The body of the scan for one content file: reads it (a failed read is
   * skipped), parses its front matter (a failed parse keeps the raw text and
   * no data), and builds its record.
   */
  method ReadArticle(f: FileRef) returns (article: Option<Article>)
    ensures article == ArticleOf(f)
  {
    if f.body.Unreadable? {
      return None;
    }
    var frontmatter: Data := [];
    var content := f.body.raw;
    if f.body.matter.Some? {
      frontmatter := f.body.matter.value.data;
      content := f.body.matter.value.content;
    }
    var fileName := StripMd(f.name);
    var slug := Split(StripMd(RelativePath(f)), '/');
    var category := if |slug| > 1 then slug[0] else "General";
    var title := Lookup(frontmatter, "title");
    if !Truthy(title) {
      title := Str(TitleCase(fileName));
    }
    var tags := TagsOf(Lookup(frontmatter, "tags"));
    var plainContent := PlainContent(content);
    var excerpt := Excerpt(plainContent);
    article := Some(Article(title, slug, Capitalize(category), plainContent, excerpt, tags, FullPath(f)));
  }

  /** The records of a single file: its record, if it has one. */
  lemma SingleArticle(f: FileRef)
    ensures Articles([f]) == match ArticleOf(f) case Some(a) => [a] case None => []
  {
    assert [f][..0] == [];
  }

  /** One turn of the loop: the records of one more part of the walk are appended. */
  lemma ScanStep<A, B>(prefix: seq<B>, done: seq<A>, next: seq<A>, f: A -> Option<B>, before: seq<B>, after: seq<B>)
    requires before == prefix + Kept(done, f)
    requires after == before + Kept(next, f)
    ensures after == prefix + Kept(done + next, f)
  {
    KeptAppend(done, next, f);
  }

  // ---------------------------------------------------------------------------
  // buildClientSearchIndex

  function ClientOf(a: Article): ClientArticle {
    ClientArticle(a.title, a.slug, a.category, a.excerpt, a.tags)
  }

  /** `buildClientSearchIndex`: the search index with each record's body text and file path dropped. */
  method BuildClientSearchIndex(vault: seq<Entry>) returns (index: seq<ClientArticle>)
    ensures var full := SearchIndexOf(vault);
      |index| == |full| &&
      forall i :: 0 <= i < |index| ==>
        index[i].title == full[i].title && index[i].slug == full[i].slug &&
        index[i].category == full[i].category && index[i].excerpt == full[i].excerpt &&
        index[i].tags == full[i].tags
  {
    var fullIndex := BuildSearchIndex(vault);
    index := seq(|fullIndex|, i requires 0 <= i < |fullIndex| => ClientOf(fullIndex[i]));
  }
}

/**
 * The vault page index: a map from lookup keys to pages, built by one scan
 * of the vault and cached for the life of the process. Each content file is
 * registered under its lower-cased file name (first file wins) and under its
 * lower-cased full slug path (always written).
 */
module VaultIndex {
  import opened Wrappers
  import opened Text
  import opened AssocList
  import opened Vault

  datatype PageInfo = PageInfo(title: string, filePath: string, slug: seq<string>)

  type PageMap = Assoc<PageInfo>

  /** The page a visited file describes; its title comes from the file name only. */
  function PageOf(f: FileRef): PageInfo {
    PageInfo(TitleCase(FileName(f)), FullPath(f), SlugOf(f))
  }

  /** `slug.join('/')`. */
  function JoinedSlug(p: PageInfo): string {
    Join(p.slug, "/")
  }

  function FileNameKey(f: FileRef): string {
    LowerStr(FileName(f))
  }

  function FullPathKey(f: FileRef): string {
    LowerStr(JoinedSlug(PageOf(f)))
  }

  /** What registering one file writes: its two keys and its page. */
  datatype Registration = Registration(fileKey: string, fullKey: string, page: PageInfo)

  function RegistrationOf(f: FileRef): Registration {
    Registration(FileNameKey(f), FullPathKey(f), PageOf(f))
  }

  /** What registering the files `fs` writes, file by file. */
  function Registrations(fs: seq<FileRef>): (rs: seq<Registration>)
    ensures |rs| == |fs|
    decreases |fs|
  {
    if |fs| == 0 then [] else Registrations(fs[..|fs| - 1]) + [RegistrationOf(fs[|fs| - 1])]
  }

  /** Registering one file: the file-name key only if absent, then the full-path key. */
  function Register(m: PageMap, r: Registration): PageMap {
    var m1 := if Has(m, r.fileKey) then m else Set(m, r.fileKey, r.page);
    Set(m1, r.fullKey, r.page)
  }

  /** `m` after the registrations `rs` in order. */
  function RegisterAll(m: PageMap, rs: seq<Registration>): PageMap
    decreases |rs|
  {
    if |rs| == 0 then m else Register(RegisterAll(m, rs[..|rs| - 1]), rs[|rs| - 1])
  }

  /** The index one scan of the vault builds. */
  function IndexOf(vault: seq<Entry>): PageMap {
    RegisterAll([], Registrations(Walk([], vault)))
  }

  /** `resolveWikiLink` against a built index. */
  function Resolve(index: PageMap, linkText: string): Option<PageInfo> {
    var normalized := Trim(LowerStr(linkText));
    if Has(index, normalized) then Get(index, normalized)
    else
      var hyphenated := HyphenateSpaces(normalized);
      if Has(index, hyphenated) then Get(index, hyphenated) else None
  }

  /** The slugs (joined by `/`) of a list of pages. */
  function SlugSet(pages: seq<PageInfo>): set<string> {
    set p | p in pages :: JoinedSlug(p)
  }

  /** `getAllPages`' loop over the first `|entries|` index entries: first page per joined slug. */
  function Distinct(entries: PageMap): seq<PageInfo>
    decreases |entries|
  {
    if |entries| == 0 then []
    else
      var d := Distinct(entries[..|entries| - 1]);
      var info := entries[|entries| - 1].1;
      if JoinedSlug(info) in SlugSet(d) then d else d + [info]
  }

  /**
   * The process-wide cache of the index (`pageIndex` in the source), `None`
   * until the first build. The ghost fields record how often the vault was
   * scanned and which vault contents the cached map was built from.
   */
  class PageCache {
    var pageIndex: Option<PageMap>
    ghost var scans: nat
    ghost var scannedVault: seq<Entry>

    ghost predicate Valid()
      reads this
    {
      (pageIndex.None? ==> scans == 0) &&
      (pageIndex.Some? ==> scans == 1 && pageIndex.value == IndexOf(scannedVault))
    }

    /** The index a call to `BuildPageIndex(vault)` returns now. */
    ghost function IndexFor(vault: seq<Entry>): PageMap
      reads this
    {
      if pageIndex.Some? then pageIndex.value else IndexOf(vault)
    }

    constructor ()
      ensures Valid() && pageIndex == None
    {
      pageIndex := None;
      scans := 0;
      scannedVault := [];
    }

    /**
     * `buildPageIndex`: the first call scans `vault` and caches the map; later
     * calls return the cached map without scanning, whatever `vault` now holds.
     */
    method BuildPageIndex(vault: seq<Entry>) returns (index: PageMap)
      requires Valid()
      modifies this
      ensures Valid()
      ensures index == old(IndexFor(vault)) && pageIndex == Some(index)
      ensures old(pageIndex).Some? ==>
        pageIndex == old(pageIndex) && scans == old(scans) && scannedVault == old(scannedVault)
      ensures old(pageIndex).None? ==> scans == old(scans) + 1 == 1 && scannedVault == vault
    {
      if pageIndex.Some? {
        return pageIndex.value;
      }
      pageIndex := Some([]);
      ScanDirectory([], vault);
      scans := scans + 1;
      scannedVault := vault;
      index := pageIndex.value;
    }

    /** The nested `scanDirectory`: registers every file the walk of `entries` visits. */
    method ScanDirectory(dir: seq<string>, entries: seq<Entry>)
      requires pageIndex.Some?
      modifies this`pageIndex
      ensures pageIndex == Some(RegisterAll(old(pageIndex).value, Registrations(Walk(dir, entries))))
      decreases entries
    {
      ghost var start := pageIndex.value;
      var i := 0;
      assert Walk(dir, entries[..0]) == [];
      while i < |entries|
        invariant 0 <= i <= |entries|
        invariant pageIndex == Some(RegisterAll(start, Registrations(Walk(dir, entries[..i]))))
      {
        ghost var done, next := Walk(dir, entries[..i]), Walk(dir, [entries[i]]);
        ScanEntry(dir, entries[i]);
        WalkPrefix(dir, entries, i);
        RegistrationsAppend(done, next);
        RegisterAllAppend(start, Registrations(done), Registrations(next));
        i := i + 1;
      }
      assert entries[..i] == entries;
    }

    /**
     * One turn of the loop of `scanDirectory`: descends into a directory the
     * scans enter, registers a content file, and passes over anything else.
     */
    method ScanEntry(dir: seq<string>, entry: Entry)
      requires pageIndex.Some?
      modifies this`pageIndex
      ensures pageIndex == Some(RegisterAll(old(pageIndex).value, Registrations(Walk(dir, [entry]))))
      decreases entry
    {
      ghost var m0 := pageIndex.value;
      match entry.node {
        case Dir(children) =>
          if Descends(entry.name) {
            ScanDirectory(dir + [entry.name], children);
            WalkSingle(dir, entry);
          } else {
            SkippedEntry(m0, dir, entry);
          }
        case File(body) =>
          if IsContentFile(entry.name) {
            RegisterFile(FileRef(dir, entry.name, body));
            VisitedEntry(m0, dir, entry);
          } else {
            SkippedEntry(m0, dir, entry);
          }
        case Special =>
          SkippedEntry(m0, dir, entry);
      }
    }

    /** The body of the scan for one content file: its file-name key unless taken, then its full-path key. */
    method RegisterFile(f: FileRef)
      requires pageIndex.Some?
      modifies this`pageIndex
      ensures pageIndex == Some(Register(old(pageIndex).value, RegistrationOf(f)))
    {
      var fileNameKey := FileNameKey(f);
      var fullPathKey := FullPathKey(f);
      var pageInfo := PageOf(f);
      if !Has(pageIndex.value, fileNameKey) {
        pageIndex := Some(Set(pageIndex.value, fileNameKey, pageInfo));
      }
      pageIndex := Some(Set(pageIndex.value, fullPathKey, pageInfo));
    }

    /** `resolveWikiLink`: builds (or reuses) the index, then resolves against it. */
    method ResolveWikiLink(vault: seq<Entry>, linkText: string) returns (page: Option<PageInfo>)
      requires Valid()
      modifies this
      ensures Valid() && pageIndex == Some(old(IndexFor(vault)))
      ensures old(pageIndex).Some? ==> scans == old(scans) && scannedVault == old(scannedVault)
      ensures page == Resolve(pageIndex.value, linkText)
    {
      var index := BuildPageIndex(vault);
      var normalizedLink := Trim(LowerStr(linkText));
      if Has(index, normalizedLink) {
        return Get(index, normalizedLink);
      }
      var hyphenated := HyphenateSpaces(normalizedLink);
      if Has(index, hyphenated) {
        return Get(index, hyphenated);
      }
      return None;
    }

    /** `getAllPages`: the index's pages, one per joined slug, in first-occurrence order. */
    method GetAllPages(vault: seq<Entry>) returns (pages: seq<PageInfo>)
      requires Valid()
      modifies this
      ensures Valid() && pageIndex == Some(old(IndexFor(vault)))
      ensures pages == Distinct(pageIndex.value)
    {
      var index := BuildPageIndex(vault);
      pages := DistinctPages(index);
    }
  }

  /** The loop of `getAllPages`: a `seen` set of joined slugs and the pages kept so far. */
  method DistinctPages(index: PageMap) returns (pages: seq<PageInfo>)
    ensures pages == Distinct(index)
  {
    var seen: set<string> := {};
    pages := [];
    var i := 0;
    while i < |index|
      invariant 0 <= i <= |index|
      invariant pages == Distinct(index[..i])
      invariant seen == SlugSet(pages)
    {
      var info := index[i].1;
      var uniqueKey := Join(info.slug, "/");
      assert index[..i + 1][..i] == index[..i];
      if uniqueKey !in seen {
        seen := seen + {uniqueKey};
        pages := pages + [info];
      }
      i := i + 1;
    }
    assert index[..i] == index;
  }

  /** A content-file entry registers that one file. */
  lemma VisitedEntry(m: PageMap, dir: seq<string>, e: Entry)
    requires e.node.File? && IsContentFile(e.name)
    ensures RegisterAll(m, Registrations(Walk(dir, [e]))) == Register(m, RegistrationOf(FileRef(dir, e.name, e.node.body)))
  {
    var f := FileRef(dir, e.name, e.node.body);
    WalkSingle(dir, e);
    assert [f][..0] == [];
    assert Registrations([f]) == [RegistrationOf(f)];
    assert [RegistrationOf(f)][..0] == [];
  }

  /** An entry the walk passes over registers nothing. */
  lemma SkippedEntry(m: PageMap, dir: seq<string>, e: Entry)
    requires !(e.node.Dir? && Descends(e.name)) && !(e.node.File? && IsContentFile(e.name))
    ensures RegisterAll(m, Registrations(Walk(dir, [e]))) == m
  {
    WalkSingle(dir, e);
  }

  lemma {:induction false} RegistrationsAppend(a: seq<FileRef>, b: seq<FileRef>)
    ensures Registrations(a + b) == Registrations(a) + Registrations(b)
    decreases |b|
  {
    if |b| == 0 {
      assert a + b == a;
    } else {
      assert (a + b)[..|a + b| - 1] == a + b[..|b| - 1];
      assert (a + b)[|a + b| - 1] == b[|b| - 1];
      RegistrationsAppend(a, b[..|b| - 1]);
    }
  }

  lemma {:induction false} RegisterAllAppend(m: PageMap, a: seq<Registration>, b: seq<Registration>)
    ensures RegisterAll(m, a + b) == RegisterAll(RegisterAll(m, a), b)
    decreases |b|
  {
    if |b| == 0 {
      assert a + b == a;
    } else {
      assert (a + b)[..|a + b| - 1] == a + b[..|b| - 1];
      RegisterAllAppend(m, a, b[..|b| - 1]);
    }
  }
}

/** What the built index holds: which page each key leads to, and what resolution and `getAllPages` return. */
module VaultIndexFacts {
  import opened Wrappers
  import opened Text
  import opened AssocList
  import opened Vault
  import opened VaultIndex

  /** The last position holding `k`. */
  function LastIndex(keys: seq<string>, k: string): (r: Option<nat>)
    ensures r.Some? ==> r.value < |keys| && keys[r.value] == k
    ensures r.Some? ==> forall j :: r.value < j < |keys| ==> keys[j] != k
    ensures r.None? ==> forall j :: 0 <= j < |keys| ==> keys[j] != k
    decreases |keys|
  {
    if |keys| == 0 then None
    else if keys[|keys| - 1] == k then Some(|keys| - 1)
    else LastIndex(keys[..|keys| - 1], k)
  }

  /** The first position holding `k`. */
  function FirstIndex(keys: seq<string>, k: string): (r: Option<nat>)
    ensures r.Some? ==> r.value < |keys| && keys[r.value] == k
    ensures r.Some? ==> forall j :: 0 <= j < r.value ==> keys[j] != k
    ensures r.None? ==> forall j :: 0 <= j < |keys| ==> keys[j] != k
    decreases |keys|
  {
    if |keys| == 0 then None
    else match FirstIndex(keys[..|keys| - 1], k)
      case Some(i) => Some(i)
      case None => if keys[|keys| - 1] == k then Some(|keys| - 1) else None
  }

  function FullKeys(rs: seq<Registration>): (r: seq<string>)
    ensures |r| == |rs| && forall i :: 0 <= i < |rs| ==> r[i] == rs[i].fullKey
  {
    seq(|rs|, i requires 0 <= i < |rs| => rs[i].fullKey)
  }

  function FileKeys(rs: seq<Registration>): (r: seq<string>)
    ensures |r| == |rs| && forall i :: 0 <= i < |rs| ==> r[i] == rs[i].fileKey
  {
    seq(|rs|, i requires 0 <= i < |rs| => rs[i].fileKey)
  }

  /** The page the precedence rules give key `k`: the last full-path owner, else the first file-name owner. */
  function Winner(rs: seq<Registration>, k: string): Option<PageInfo> {
    match LastIndex(FullKeys(rs), k)
    case Some(i) => Some(rs[i].page)
    case None =>
      match FirstIndex(FileKeys(rs), k)
      case Some(i) => Some(rs[i].page)
      case None => None
  }

  /** One registration: its full-path key is overwritten, its file-name key filled in only if missing. */
  lemma GetRegister(m: PageMap, r: Registration, k: string)
    ensures Get(Register(m, r), k) ==
      if k == r.fullKey then Some(r.page)
      else if Get(m, k).None? && k == r.fileKey then Some(r.page)
      else Get(m, k)
  {
    HasIffGet(m, r.fileKey);
    var m1 := if Has(m, r.fileKey) then m else Set(m, r.fileKey, r.page);
    SetGet(m1, r.fullKey, r.page, k);
    if !Has(m, r.fileKey) {
      SetGet(m, r.fileKey, r.page, k);
    }
  }

  /** The precedence rules, one registration later. */
  lemma WinnerSnoc(rs: seq<Registration>, k: string)
    requires |rs| > 0
    ensures Winner(rs, k) ==
      var pre := rs[..|rs| - 1];
      var r := rs[|rs| - 1];
      if k == r.fullKey then Some(r.page)
      else if Winner(pre, k).None? && k == r.fileKey then Some(r.page)
      else Winner(pre, k)
  {
    var pre := rs[..|rs| - 1];
    assert FullKeys(pre) == FullKeys(rs)[..|rs| - 1];
    assert FileKeys(pre) == FileKeys(rs)[..|rs| - 1];
  }

  /** The index built from `rs` maps every key exactly as the precedence rules say. */
  lemma {:induction false} IndexPrecedence(rs: seq<Registration>, k: string)
    ensures Get(RegisterAll([], rs), k) == Winner(rs, k)
    decreases |rs|
  {
    if |rs| > 0 {
      IndexPrecedence(rs[..|rs| - 1], k);
      GetRegister(RegisterAll([], rs[..|rs| - 1]), rs[|rs| - 1], k);
      WinnerSnoc(rs, k);
    }
  }

  /** Just after a file is registered, its full-path key leads to its page. */
  lemma RegisterFullPath(m: PageMap, f: FileRef)
    ensures Get(Register(m, RegistrationOf(f)), FullPathKey(f)) == Some(PageOf(f))
  {
    GetRegister(m, RegistrationOf(f), FullPathKey(f));
  }

  /*
   * The lemmas below speak of the registrations `rs` of a walk: the index of a
   * vault is `RegisterAll([], Registrations(Walk([], vault)))`, and by
   * `RegistrationsAt` the keys of `Registrations(fs)[i]` are `FileNameKey(fs[i])`
   * and `FullPathKey(fs[i])` and its page is `PageOf(fs[i])`.
   */

  lemma {:induction false} RegistrationsAt(fs: seq<FileRef>, i: nat)
    requires i < |fs|
    ensures Registrations(fs)[i] == RegistrationOf(fs[i])
    decreases |fs|
  {
    if i < |fs| - 1 {
      RegistrationsAt(fs[..|fs| - 1], i);
    }
  }


  /** A full-path key leads to its file's page unless a later file has the same full-path key. */
  lemma FullPathKeyWins(rs: seq<Registration>, i: nat)
    requires i < |rs|
    requires forall j :: i < j < |rs| ==> rs[j].fullKey != rs[i].fullKey
    ensures Get(RegisterAll([], rs), rs[i].fullKey) == Some(rs[i].page)
  {
    var k := rs[i].fullKey;
    IndexPrecedence(rs, k);
    var w := LastIndex(FullKeys(rs), k);
    assert FullKeys(rs)[i] == k;
    assert w.Some? && w.value == i;
  }

  /** A file-name key leads to the first file with that name, unless some full-path key equals it. */
  lemma FirstFileNameWins(rs: seq<Registration>, i: nat)
    requires i < |rs|
    requires forall j :: 0 <= j < i ==> rs[j].fileKey != rs[i].fileKey
    requires forall j :: 0 <= j < |rs| ==> rs[j].fullKey != rs[i].fileKey
    ensures Get(RegisterAll([], rs), rs[i].fileKey) == Some(rs[i].page)
  {
    var k := rs[i].fileKey;
    IndexPrecedence(rs, k);
    assert LastIndex(FullKeys(rs), k).None?;
    var w := FirstIndex(FileKeys(rs), k);
    assert FileKeys(rs)[i] == k;
    assert w.Some? && w.value == i;
  }

  /** The precedence rules give a key a page exactly when some registration carries that key. */
  lemma WinnerDefined(rs: seq<Registration>, k: string)
    ensures Winner(rs, k).Some? <==> exists i :: 0 <= i < |rs| && (rs[i].fileKey == k || rs[i].fullKey == k)
  {
    match LastIndex(FullKeys(rs), k)
    case Some(i) =>
      assert rs[i].fullKey == k;
    case None =>
      match FirstIndex(FileKeys(rs), k)
      case Some(i) =>
        assert rs[i].fileKey == k;
      case None =>
        forall i | 0 <= i < |rs| ensures rs[i].fileKey != k && rs[i].fullKey != k {
          assert FileKeys(rs)[i] != k && FullKeys(rs)[i] != k;
        }
  }

  /** The page the precedence rules pick is the page of one of the registrations. */
  lemma WinnerIsPage(rs: seq<Registration>, k: string)
    requires Winner(rs, k).Some?
    ensures exists i :: 0 <= i < |rs| && Winner(rs, k) == Some(rs[i].page)
  {
    match LastIndex(FullKeys(rs), k)
    case Some(i) =>
      assert Winner(rs, k) == Some(rs[i].page);
    case None =>
      var i := FirstIndex(FileKeys(rs), k).value;
      assert Winner(rs, k) == Some(rs[i].page);
  }

  /** The keys of the index are exactly the file-name and full-path keys of the files. */
  lemma IndexKeys(rs: seq<Registration>, k: string)
    ensures Has(RegisterAll([], rs), k) <==>
      exists i :: 0 <= i < |rs| && (rs[i].fileKey == k || rs[i].fullKey == k)
  {
    IndexPrecedence(rs, k);
    HasIffGet(RegisterAll([], rs), k);
    WinnerDefined(rs, k);
  }

  /** Every value in the index is the page of one of the files. */
  lemma IndexValues(rs: seq<Registration>, k: string)
    requires Get(RegisterAll([], rs), k).Some?
    ensures exists i :: 0 <= i < |rs| && Get(RegisterAll([], rs), k) == Some(rs[i].page)
  {
    IndexPrecedence(rs, k);
    WinnerIsPage(rs, k);
  }

  /** The index never holds a key twice. */
  lemma {:induction false} IndexUniqueKeys(m: PageMap, rs: seq<Registration>)
    requires UniqueKeys(m)
    ensures UniqueKeys(RegisterAll(m, rs))
    decreases |rs|
  {
    if |rs| > 0 {
      var r := rs[|rs| - 1];
      var mm := RegisterAll(m, rs[..|rs| - 1]);
      IndexUniqueKeys(m, rs[..|rs| - 1]);
      if !Has(mm, r.fileKey) {
        SetKeys(mm, r.fileKey, r.page);
      }
      var m1 := if Has(mm, r.fileKey) then mm else Set(mm, r.fileKey, r.page);
      SetKeys(m1, r.fullKey, r.page);
    }
  }

  // ---------------------------------------------------------------------------
  // resolution

  /** Resolution finds nothing exactly when neither the normalised text nor its hyphenated form is a key. */
  lemma ResolveMisses(index: PageMap, linkText: string)
    ensures Resolve(index, linkText).None? <==>
      !Has(index, Trim(LowerStr(linkText))) && !Has(index, HyphenateSpaces(Trim(LowerStr(linkText))))
  {
    HasIffGet(index, Trim(LowerStr(linkText)));
    HasIffGet(index, HyphenateSpaces(Trim(LowerStr(linkText))));
  }

  /** Resolution ignores letter case. */
  lemma ResolveIgnoresCase(index: PageMap, linkText: string)
    ensures Resolve(index, linkText) == Resolve(index, LowerStr(linkText))
  {
    LowerStrIdempotent(linkText);
  }

  /** Whatever resolution returns is the page of a file of the vault. */
  lemma ResolvesToPage(rs: seq<Registration>, linkText: string)
    requires Resolve(RegisterAll([], rs), linkText).Some?
    ensures exists i :: 0 <= i < |rs| && Resolve(RegisterAll([], rs), linkText) == Some(rs[i].page)
  {
    var index := RegisterAll([], rs);
    var n := Trim(LowerStr(linkText));
    if Has(index, n) {
      IndexValues(rs, n);
    } else {
      IndexValues(rs, HyphenateSpaces(n));
    }
  }

  /**
   * A link whose text, lower-cased and trimmed, is a file's full-path key
   * resolves to that file's page, unless a later file has the same key.
   */
  lemma ResolveFullPath(rs: seq<Registration>, i: nat, linkText: string)
    requires i < |rs|
    requires forall j :: i < j < |rs| ==> rs[j].fullKey != rs[i].fullKey
    requires Trim(LowerStr(linkText)) == rs[i].fullKey
    ensures Resolve(RegisterAll([], rs), linkText) == Some(rs[i].page)
  {
    FullPathKeyWins(rs, i);
    HasIffGet(RegisterAll([], rs), rs[i].fullKey);
  }

  /**
   * A link whose spaces stand where a full-path key has hyphens
   * (`[[People/Connor Daly]]` for `people/connor-daly`) resolves to that page
   * when the spaced form is not itself a key.
   */
  lemma ResolveHyphenatedFullPath(rs: seq<Registration>, i: nat, linkText: string)
    requires i < |rs|
    requires forall j :: i < j < |rs| ==> rs[j].fullKey != rs[i].fullKey
    requires !Has(RegisterAll([], rs), Trim(LowerStr(linkText)))
    requires HyphenateSpaces(Trim(LowerStr(linkText))) == rs[i].fullKey
    ensures Resolve(RegisterAll([], rs), linkText) == Some(rs[i].page)
  {
    FullPathKeyWins(rs, i);
    HasIffGet(RegisterAll([], rs), rs[i].fullKey);
  }

  /** A link naming a file (any case) resolves to the first file of that name, unless a full-path key takes the name. */
  lemma ResolveFileName(rs: seq<Registration>, i: nat, linkText: string)
    requires i < |rs|
    requires forall j :: 0 <= j < i ==> rs[j].fileKey != rs[i].fileKey
    requires forall j :: 0 <= j < |rs| ==> rs[j].fullKey != rs[i].fileKey
    requires Trim(LowerStr(linkText)) == rs[i].fileKey
    ensures Resolve(RegisterAll([], rs), linkText) == Some(rs[i].page)
  {
    FirstFileNameWins(rs, i);
    HasIffGet(RegisterAll([], rs), rs[i].fileKey);
  }

  // ---------------------------------------------------------------------------
  // getAllPages

  /** No two listed pages share a joined slug. */
  lemma {:induction false} DistinctUnique(entries: PageMap)
    ensures forall i, j :: 0 <= i < j < |Distinct(entries)| ==>
      JoinedSlug(Distinct(entries)[i]) != JoinedSlug(Distinct(entries)[j])
    decreases |entries|
  {
    if |entries| > 0 {
      DistinctUnique(entries[..|entries| - 1]);
    }
  }

  /** `entries[i]` is the first entry whose page has `p`'s joined slug, and its page is `p`. */
  predicate FirstWithSlug(entries: PageMap, i: int, p: PageInfo) {
    0 <= i < |entries| && entries[i].1 == p &&
    forall i' :: 0 <= i' < i ==> JoinedSlug(entries[i'].1) != JoinedSlug(p)
  }

  /** Every listed page is a value of the index, and every value's joined slug is listed. */
  lemma {:induction false} DistinctCovers(entries: PageMap)
    ensures forall p :: p in Distinct(entries) ==> exists i :: 0 <= i < |entries| && entries[i].1 == p
    ensures forall i :: 0 <= i < |entries| ==> JoinedSlug(entries[i].1) in SlugSet(Distinct(entries))
    decreases |entries|
  {
    if |entries| > 0 {
      var pre := entries[..|entries| - 1];
      var info := entries[|entries| - 1].1;
      var dp := Distinct(pre);
      DistinctCovers(pre);
      assert forall i :: 0 <= i < |pre| ==> pre[i] == entries[i];
      if JoinedSlug(info) in SlugSet(dp) {
        assert Distinct(entries) == dp;
      } else {
        assert Distinct(entries) == dp + [info];
        assert SlugSet(dp + [info]) == SlugSet(dp) + {JoinedSlug(info)};
      }
    }
  }

  /** Each listed page is the first index value carrying its joined slug. */
  lemma {:induction false} DistinctKeepsFirst(entries: PageMap)
    ensures forall p :: p in Distinct(entries) ==> exists i :: FirstWithSlug(entries, i, p)
    decreases |entries|
  {
    if |entries| > 0 {
      var pre := entries[..|entries| - 1];
      var last := |entries| - 1;
      var info := entries[last].1;
      var dp := Distinct(pre);
      DistinctKeepsFirst(pre);
      DistinctCovers(pre);
      assert forall i :: 0 <= i < |pre| ==> pre[i] == entries[i];
      forall p | p in dp ensures exists i :: FirstWithSlug(entries, i, p) {
        var i :| FirstWithSlug(pre, i, p);
        assert FirstWithSlug(entries, i, p);
      }
      if JoinedSlug(info) !in SlugSet(dp) {
        assert Distinct(entries) == dp + [info];
        forall i' | 0 <= i' < last ensures JoinedSlug(entries[i'].1) != JoinedSlug(info) {
          assert JoinedSlug(pre[i'].1) in SlugSet(dp);
        }
        assert FirstWithSlug(entries, last, info);
      }
    }
  }

  /** A page of the index that shares its joined slug with no other page is listed. */
  lemma PageListed(entries: PageMap, i: nat)
    requires i < |entries|
    requires forall i' :: 0 <= i' < |entries| && JoinedSlug(entries[i'].1) == JoinedSlug(entries[i].1) ==>
      entries[i'].1 == entries[i].1
    ensures entries[i].1 in Distinct(entries)
  {
    DistinctCovers(entries);
    var d := Distinct(entries);
    var p :| p in d && JoinedSlug(p) == JoinedSlug(entries[i].1);
    var i' :| 0 <= i' < |entries| && entries[i'].1 == p;
  }
}

/**
 * The vault on disk as the scans see it, and the directory walk that the
 * page index and the search index share: hidden directories and a directory
 * named `templates` are not entered, and only regular files whose name ends
 * in `.md` are visited, in directory-listing order, depth first.
 */
module Vault {
  import opened Wrappers
  import opened Text
  import opened Values

  /** The vault root; full file paths are this root joined with the relative path. */
  const VaultPath: string := "/home/usagi/clawd/vault"

  /** What the front-matter parser yields for a file: the header data and the body after it. */
  datatype Matter = Matter(data: Data, content: string)

  /**
   * A file's contents as a scan reads them: the read fails, or it yields the
   * raw text and, unless the front-matter parser throws, its parse.
   */
  datatype FileBody = Unreadable | Readable(raw: string, matter: Option<Matter>)

  /** A directory listing entry: a directory, a regular file, or anything else (a link, a socket). */
  datatype Node = Dir(entries: seq<Entry>) | File(body: FileBody) | Special

  datatype Entry = Entry(name: string, node: Node)

  /** A visited content file: the directory names leading to it (from the root), its name and body. */
  datatype FileRef = FileRef(dir: seq<string>, name: string, body: FileBody)

  /** Directories the scans enter. */
  predicate Descends(name: string) {
    !StartsWith(name, ".") && name != "templates"
  }

  /** Regular files the scans visit. */
  predicate IsContentFile(name: string) {
    EndsWith(name, ".md")
  }

  /** The files a scan of `entries` (listed under `dir`) visits, in order. */
  function Walk(dir: seq<string>, entries: seq<Entry>): seq<FileRef>
    decreases entries
  {
    if entries == [] then []
    else
      var e := entries[0];
      (match e.node
       case Dir(children) => if Descends(e.name) then Walk(dir + [e.name], children) else []
       case File(body) => if IsContentFile(e.name) then [FileRef(dir, e.name, body)] else []
       case Special => []) + Walk(dir, entries[1..])
  }

  /** The walk of a listing is the walk of its first part followed by that of its last entry. */
  lemma {:induction false} WalkSnoc(dir: seq<string>, entries: seq<Entry>, e: Entry)
    ensures Walk(dir, entries + [e]) == Walk(dir, entries) + Walk(dir, [e])
    decreases |entries|
  {
    if entries == [] {
      assert entries + [e] == [e];
    } else {
      assert (entries + [e])[0] == entries[0];
      assert (entries + [e])[1..] == entries[1..] + [e];
      WalkSnoc(dir, entries[1..], e);
    }
  }

  /** The walk of the first `i + 1` entries extends that of the first `i`. */
  lemma WalkPrefix(dir: seq<string>, entries: seq<Entry>, i: nat)
    requires i < |entries|
    ensures Walk(dir, entries[..i + 1]) == Walk(dir, entries[..i]) + Walk(dir, [entries[i]])
  {
    assert entries[..i + 1] == entries[..i] + [entries[i]];
    WalkSnoc(dir, entries[..i], entries[i]);
  }

  /** What a single listing entry contributes to the walk. */
  lemma WalkSingle(dir: seq<string>, e: Entry)
    ensures e.node.Dir? && Descends(e.name) ==> Walk(dir, [e]) == Walk(dir + [e.name], e.node.entries)
    ensures e.node.File? && IsContentFile(e.name) ==> Walk(dir, [e]) == [FileRef(dir, e.name, e.node.body)]
    ensures !(e.node.Dir? && Descends(e.name)) && !(e.node.File? && IsContentFile(e.name)) ==> Walk(dir, [e]) == []
  {
    assert [e][1..] == [];
  }

  function RelativePath(f: FileRef): string {
    Join(f.dir + [f.name], "/")
  }

  /** `path.join(dir, entry.name)` from the vault root down. */
  function FullPath(f: FileRef): string {
    VaultPath + "/" + RelativePath(f)
  }

  /** `entry.name.replace(/\.md$/, '')`. */
  function FileName(f: FileRef): string {
    StripMd(f.name)
  }

  /** `relativePath.replace(/\.md$/, '').split(path.sep)`. */
  function SlugOf(f: FileRef): seq<string> {
    Split(StripMd(RelativePath(f)), '/')
  }
}

/** Facts about the walk and the paths it produces. */
module VaultWalk {
  import opened Text
  import opened Vault

  /** No entry name in the tree contains the path separator (true of every real directory listing). */
  predicate SlashFreeNames(entries: seq<Entry>)
    decreases entries
  {
    forall i :: 0 <= i < |entries| ==>
      !Contains(entries[i].name, '/') &&
      (entries[i].node.Dir? ==> SlashFreeNames(entries[i].node.entries))
  }

  predicate SlashFree(segments: seq<string>) {
    forall j :: 0 <= j < |segments| ==> !Contains(segments[j], '/')
  }

  /** What the walk promises of one visited file found below `dir`. */
  predicate VisitedBelow(dir: seq<string>, f: FileRef) {
    IsContentFile(f.name) && |dir| <= |f.dir| && f.dir[..|dir|] == dir &&
    (forall j :: |dir| <= j < |f.dir| ==> Descends(f.dir[j]))
  }

  lemma VisitedBelowParent(dir: seq<string>, name: string, f: FileRef)
    requires Descends(name)
    requires VisitedBelow(dir + [name], f)
    ensures VisitedBelow(dir, f)
  {
    assert f.dir[..|dir| + 1] == dir + [name];
    assert f.dir[..|dir|] == (dir + [name])[..|dir|];
  }

  /**
   * Every visited file ends in `.md` and lies below `dir`, and every directory
   * on the way to it is one the scans enter.
   */
  lemma {:induction false} WalkSound(dir: seq<string>, entries: seq<Entry>)
    ensures forall k :: 0 <= k < |Walk(dir, entries)| ==> VisitedBelow(dir, Walk(dir, entries)[k])
    decreases entries
  {
    if entries != [] {
      var e := entries[0];
      var w := Walk(dir, entries);
      var rest := Walk(dir, entries[1..]);
      WalkSound(dir, entries[1..]);
      match e.node
      case Dir(children) =>
        if Descends(e.name) {
          var inner := Walk(dir + [e.name], children);
          assert w == inner + rest;
          WalkSound(dir + [e.name], children);
          forall k | 0 <= k < |inner| ensures VisitedBelow(dir, inner[k]) {
            VisitedBelowParent(dir, e.name, inner[k]);
          }
        } else {
          assert w == rest;
        }
      case File(body) =>
        if IsContentFile(e.name) {
          assert w == [FileRef(dir, e.name, body)] + rest;
        } else {
          assert w == rest;
        }
      case Special =>
        assert w == rest;
    }
  }

  /** Visited files have separator-free paths when the tree's names are separator-free. */
  lemma {:induction false} WalkSlashFree(dir: seq<string>, entries: seq<Entry>)
    requires SlashFree(dir) && SlashFreeNames(entries)
    ensures forall k :: 0 <= k < |Walk(dir, entries)| ==>
      SlashFree(Walk(dir, entries)[k].dir) && !Contains(Walk(dir, entries)[k].name, '/')
    decreases entries
  {
    if entries != [] {
      var e := entries[0];
      var w := Walk(dir, entries);
      var rest := Walk(dir, entries[1..]);
      assert SlashFreeNames(entries[1..]) by {
        forall i | 0 <= i < |entries[1..]|
          ensures !Contains(entries[1..][i].name, '/') &&
            (entries[1..][i].node.Dir? ==> SlashFreeNames(entries[1..][i].node.entries))
        {
          assert entries[1..][i] == entries[i + 1];
        }
      }
      WalkSlashFree(dir, entries[1..]);
      assert !Contains(e.name, '/');
      match e.node
      case Dir(children) =>
        if Descends(e.name) {
          assert w == Walk(dir + [e.name], children) + rest;
          assert SlashFree(dir + [e.name]);
          WalkSlashFree(dir + [e.name], children);
        } else {
          assert w == rest;
        }
      case File(body) =>
        if IsContentFile(e.name) {
          assert w == [FileRef(dir, e.name, body)] + rest;
        } else {
          assert w == rest;
        }
      case Special =>
        assert w == rest;
    }
  }

  /** Every regular file of the tree, entering every directory, in listing order, depth first. */
  function AllFiles(dir: seq<string>, entries: seq<Entry>): seq<FileRef>
    decreases entries
  {
    if entries == [] then []
    else
      var e := entries[0];
      (match e.node
       case Dir(children) => AllFiles(dir + [e.name], children)
       case File(body) => [FileRef(dir, e.name, body)]
       case Special => []) + AllFiles(dir, entries[1..])
  }

  /** The files of `fs` the visiting rule admits below `dir`, in order. */
  function Admitted(dir: seq<string>, fs: seq<FileRef>): seq<FileRef>
    decreases |fs|
  {
    if fs == [] then []
    else (if VisitedBelow(dir, fs[0]) then [fs[0]] else []) + Admitted(dir, fs[1..])
  }

  /** Every file in `fs` lies in `dir` or below it. */
  predicate AllUnder(dir: seq<string>, fs: seq<FileRef>) {
    forall k :: 0 <= k < |fs| ==> |dir| <= |fs[k].dir| && fs[k].dir[..|dir|] == dir
  }

  lemma {:induction false} AdmittedAppend(dir: seq<string>, a: seq<FileRef>, b: seq<FileRef>)
    ensures Admitted(dir, a + b) == Admitted(dir, a) + Admitted(dir, b)
    decreases |a|
  {
    if a != [] {
      assert (a + b)[0] == a[0];
      assert (a + b)[1..] == a[1..] + b;
      AdmittedAppend(dir, a[1..], b);
    } else {
      assert a + b == b;
    }
  }

  lemma {:induction false} AllFilesUnder(dir: seq<string>, entries: seq<Entry>)
    ensures AllUnder(dir, AllFiles(dir, entries))
    decreases entries
  {
    if entries != [] {
      var e := entries[0];
      AllFilesUnder(dir, entries[1..]);
      var rest := AllFiles(dir, entries[1..]);
      match e.node
      case Dir(children) =>
        var inner := AllFiles(dir + [e.name], children);
        AllFilesUnder(dir + [e.name], children);
        forall k | 0 <= k < |inner| ensures |dir| <= |inner[k].dir| && inner[k].dir[..|dir|] == dir {
          assert inner[k].dir[..|dir| + 1] == dir + [e.name];
          assert inner[k].dir[..|dir|] == (dir + [e.name])[..|dir|];
        }
        assert AllFiles(dir, entries) == inner + rest;
      case File(body) =>
        assert AllFiles(dir, entries) == [FileRef(dir, e.name, body)] + rest;
      case Special =>
        assert AllFiles(dir, entries) == rest;
    }
  }

  /** Below `dir + [name]`, the rule admits the same files as below `dir` when `name` is entered, and none when not. */
  lemma {:induction false} AdmittedInside(dir: seq<string>, name: string, fs: seq<FileRef>)
    requires AllUnder(dir + [name], fs)
    ensures Admitted(dir, fs) == if Descends(name) then Admitted(dir + [name], fs) else []
    decreases |fs|
  {
    if fs != [] {
      var f := fs[0];
      assert AllUnder(dir + [name], fs[1..]) by {
        forall k | 0 <= k < |fs[1..]|
          ensures |dir + [name]| <= |fs[1..][k].dir| && fs[1..][k].dir[..|dir + [name]|] == dir + [name]
        {
          assert fs[1..][k] == fs[k + 1];
        }
      }
      AdmittedInside(dir, name, fs[1..]);
      assert f.dir[..|dir| + 1] == dir + [name];
      assert f.dir[|dir|] == name;
      assert f.dir[..|dir|] == (dir + [name])[..|dir|];
      if Descends(name) {
        if VisitedBelow(dir, f) {
          assert VisitedBelow(dir + [name], f);
        }
        if VisitedBelow(dir + [name], f) {
          VisitedBelowParent(dir, name, f);
        }
      } else {
        assert !VisitedBelow(dir, f);
      }
    }
  }

  /**
   * The walk visits exactly the files of the tree that lie below visible,
   * non-`templates` directories and end in `.md`, in the tree's order: no
   * such file is missed and no other file is visited.
   */
  lemma {:induction false} WalkComplete(dir: seq<string>, entries: seq<Entry>)
    ensures Walk(dir, entries) == Admitted(dir, AllFiles(dir, entries))
    decreases entries
  {
    if entries != [] {
      var e := entries[0];
      var rest := AllFiles(dir, entries[1..]);
      WalkComplete(dir, entries[1..]);
      match e.node
      case Dir(children) =>
        var inner := AllFiles(dir + [e.name], children);
        assert AllFiles(dir, entries) == inner + rest;
        AdmittedAppend(dir, inner, rest);
        AllFilesUnder(dir + [e.name], children);
        AdmittedInside(dir, e.name, inner);
        if Descends(e.name) {
          WalkComplete(dir + [e.name], children);
        }
      case File(body) =>
        var f := FileRef(dir, e.name, body);
        assert AllFiles(dir, entries) == [f] + rest;
        AdmittedAppend(dir, [f], rest);
        assert f.dir[..|dir|] == dir;
        assert Admitted(dir, [f]) == (if VisitedBelow(dir, f) then [f] else []) + Admitted(dir, []);
      case Special =>
        assert AllFiles(dir, entries) == rest;
    }
  }

  lemma StripMdAppended(s: string)
    ensures StripMd(s + ".md") == s
  {
    assert EndsWith(s + ".md", ".md");
  }

  /**
   * The slug is the directory names followed by the file name without `.md`,
   * when no name contains the separator.
   */
  lemma SlugIsPath(f: FileRef)
    requires IsContentFile(f.name)
    requires SlashFree(f.dir) && !Contains(f.name, '/')
    ensures SlugOf(f) == f.dir + [FileName(f)]
  {
    var y := FileName(f);
    assert y + ".md" == f.name;
    var parts := f.dir + [y];
    assert !Contains(y, '/') by {
      forall i | 0 <= i < |y| ensures y[i] != '/' { assert y[i] == f.name[i]; }
    }
    if |f.dir| == 0 {
      assert f.dir + [f.name] == [f.name];
      assert RelativePath(f) == y + ".md";
    } else {
      JoinAppend(f.dir, f.name, "/");
      JoinAppend(f.dir, y, "/");
      assert RelativePath(f) == Join(f.dir, "/") + "/" + y + ".md";
      assert RelativePath(f) == Join(parts, "/") + ".md";
    }
    StripMdAppended(Join(parts, "/"));
    assert forall k :: 0 <= k < |parts| ==> !Contains(parts[k], '/');
    SplitJoin(parts, '/');
  }
}

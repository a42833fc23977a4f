/**
 * The remark plugin's transform of one markdown text node: every wiki link
 * in the node's text becomes a link node, resolved against the vault page
 * index (a normal link) or not (a red link), and the node is replaced in its
 * parent by the text before, between and after the links and the link nodes.
 */
module RemarkWikiLink {
  import opened Wrappers
  import opened Text
  import opened Vault
  import opened VaultIndex
  import opened VaultIndexFacts
  import opened WikiLink
  import AssocList

  /** The markdown nodes the transform reads and writes; every other kind of node is `Other`. */
  datatype MdNode =
    | TextNode(value: string)
    | LinkNode(url: string, title: Option<string>, children: seq<MdNode>, className: seq<string>)
    | Other(kind: string)

  /** A markdown node with children, updated in place by the transform. */
  class Parent {
    var children: seq<MdNode>

    constructor (children: seq<MdNode>)
      ensures this.children == children
    {
      this.children := children;
    }
  }

  /** `match[1].trim()`. */
  function LinkTarget(m: LinkMatch): string {
    Trim(m.target)
  }

  /** `match[2]?.trim() || linkTarget`. */
  function DisplayText(m: LinkMatch): string {
    if m.alias.Some? && Trim(m.alias.value) != "" then Trim(m.alias.value) else LinkTarget(m)
  }

  /** `linkTarget.toLowerCase().replace(/\s+/g, '-')`, the address of a page that does not exist. */
  function MissingSlug(target: string): string {
    HyphenateSpaces(LowerStr(target))
  }

  /** The link node for a match, given what resolution found for its target. */
  function WikiLinkNode(m: LinkMatch, page: Option<PageInfo>): MdNode {
    match page
    case Some(info) =>
      LinkNode("/wiki/" + JoinedSlug(info), None, [TextNode(DisplayText(m))], ["wiki-link"])
    case None =>
      LinkNode("/wiki/" + MissingSlug(LinkTarget(m)), None, [TextNode(DisplayText(m))],
        ["wiki-link", "wiki-link-missing"])
  }

  /** The node a piece of the text becomes against the page index `index`. */
  function NodeOf(p: Piece, index: PageMap): MdNode {
    match p
    case Plain(t) => TextNode(t)
    case Wiki(m) => WikiLinkNode(m, Resolve(index, LinkTarget(m)))
  }

  function NodesOf(ps: seq<Piece>, index: PageMap): (r: seq<MdNode>)
    ensures |r| == |ps| && forall i :: 0 <= i < |ps| ==> r[i] == NodeOf(ps[i], index)
  {
    seq(|ps|, i requires 0 <= i < |ps| => NodeOf(ps[i], index))
  }

  /** The nodes that replace a text node holding `text`. */
  function Replacement(text: string, index: PageMap): seq<MdNode> {
    NodesOf(Pieces(text), index)
  }

  /** A text node holding `text` is replaced exactly when its text holds a wiki link. */
  predicate HasWikiLink(text: string) {
    Scan(text, 0) != []
  }

  /**
   * The visitor's callback for the text node `parent.children[index]`: scans
   * its text with `exec`, collects the new nodes (resolving each target with
   * the page cache), and, if any link was found, splices them in place of the
   * node.
   */
  method TransformText(parent: Parent, index: nat, cache: PageCache, vault: seq<Entry>)
    requires index < |parent.children| && parent.children[index].TextNode?
    requires cache.Valid()
    modifies parent, cache
    ensures cache.Valid() && cache.IndexFor(vault) == old(cache.IndexFor(vault))
    ensures var text := old(parent.children[index].value);
      if HasWikiLink(text) then
        parent.children == old(parent.children[..index]) + Replacement(text, old(cache.IndexFor(vault))) +
          old(parent.children[index + 1..])
      else parent.children == old(parent.children) && cache.pageIndex == old(cache.pageIndex)
  {
    ghost var kids := parent.children;
    var text := parent.children[index].value;
    ghost var idx := cache.IndexFor(vault);
    var newNodes, lastIndex := CollectLinks(text, cache, vault);
    if |newNodes| > 0 {
      if lastIndex < |text| {
        newNodes := newNodes + [TextNode(text[lastIndex..])];
      }
      ghost var replacement := Replacement(text, idx);
      ReplacementParts(text, idx);
      assert newNodes == replacement;
      parent.children := parent.children[..index] + newNodes + parent.children[index + 1..];
      assert parent.children == kids[..index] + replacement + kids[index + 1..];
    }
  }

  /**
   * The `exec` loop of the callback: the nodes for the text before and
   * between the links and for the links themselves, and where the last link
   * ends.
   */
  method CollectLinks(text: string, cache: PageCache, vault: seq<Entry>)
    returns (newNodes: seq<MdNode>, lastIndex: nat)
    requires cache.Valid()
    modifies cache
    ensures cache.Valid() && cache.IndexFor(vault) == old(cache.IndexFor(vault))
    ensures newNodes == NodesOf(Scan(text, 0), old(cache.IndexFor(vault)))
    ensures lastIndex == ScanEnd(text, 0)
    ensures Scan(text, 0) == [] ==> cache.pageIndex == old(cache.pageIndex)
  {
    ghost var idx := cache.IndexFor(vault);
    ghost var done: seq<Piece> := [];
    lastIndex := 0;
    newNodes := [];
    while NextMatch(text, lastIndex).Some?
      invariant lastIndex <= |text|
      invariant Scan(text, 0) == done + Scan(text, lastIndex)
      invariant ScanEnd(text, 0) == ScanEnd(text, lastIndex)
      invariant newNodes == NodesOf(done, idx)
      invariant cache.Valid() && cache.IndexFor(vault) == idx
      invariant done == [] ==> cache.pageIndex == old(cache.pageIndex)
      decreases |text| - lastIndex
    {
      var m := NextMatch(text, lastIndex).value;
      ScanAdvance(text, lastIndex, done);
      var nodes := LinkNodes(text, lastIndex, m, cache, vault);
      ghost var step := Gap(text, lastIndex, m.start) + [Wiki(m)];
      NodesOfAppend(done, step, idx);
      newNodes, done := newNodes + nodes, done + step;
      lastIndex := m.end;
    }
    ScanStops(text, lastIndex);
  }

  /** One round of the loop: the text before the match, if any, then the link node. */
  method LinkNodes(text: string, lastIndex: nat, m: LinkMatch, cache: PageCache, vault: seq<Entry>)
    returns (nodes: seq<MdNode>)
    requires lastIndex <= m.start <= |text|
    requires cache.Valid()
    modifies cache
    ensures cache.Valid() && cache.IndexFor(vault) == old(cache.IndexFor(vault))
    ensures nodes == NodesOf(Gap(text, lastIndex, m.start) + [Wiki(m)], old(cache.IndexFor(vault)))
  {
    ghost var idx := cache.IndexFor(vault);
    ghost var gap := Gap(text, lastIndex, m.start);
    nodes := [];
    if m.start > lastIndex {
      nodes := [TextNode(text[lastIndex..m.start])];
    }
    GapNodes(text, lastIndex, m.start, idx);
    var linkTarget := Trim(m.target);
    var pageInfo := cache.ResolveWikiLink(vault, linkTarget);
    LinkStep(gap, m, idx, pageInfo);
    nodes := nodes + [WikiLinkNode(m, pageInfo)];
  }

  lemma GapNodes(text: string, a: nat, b: nat, index: PageMap)
    requires a <= b <= |text|
    ensures NodesOf(Gap(text, a, b), index) == if a < b then [TextNode(text[a..b])] else []
  {
  }

  lemma LinkStep(ps: seq<Piece>, m: LinkMatch, index: PageMap, page: Option<PageInfo>)
    requires page == Resolve(index, LinkTarget(m))
    ensures NodesOf(ps + [Wiki(m)], index) == NodesOf(ps, index) + [WikiLinkNode(m, page)]
  {
    NodesOfAppend(ps, [Wiki(m)], index);
    assert NodesOf([Wiki(m)], index) == [NodeOf(Wiki(m), index)];
  }

  /** The replacement is the nodes of the scanned links followed by the trailing text, if any. */
  lemma ReplacementParts(text: string, index: PageMap)
    ensures var e := ScanEnd(text, 0);
      Replacement(text, index) == NodesOf(Scan(text, 0), index) +
        (if e < |text| then [TextNode(text[e..])] else [])
  {
    TrailingNodes(Scan(text, 0), text, ScanEnd(text, 0), index);
  }

  lemma TrailingNodes(ps: seq<Piece>, text: string, e: nat, index: PageMap)
    requires e <= |text|
    ensures NodesOf(ps + Gap(text, e, |text|), index) ==
      NodesOf(ps, index) + (if e < |text| then [TextNode(text[e..])] else [])
  {
    NodesOfAppend(ps, Gap(text, e, |text|), index);
    if e < |text| {
      assert text[e..] == text[e..|text|];
    }
  }

  // ---------------------------------------------------------------------------
  // properties of the replacement

  /** A text node is replaced exactly when a link starts somewhere in its text. */
  lemma HasWikiLinkIff(text: string)
    ensures HasWikiLink(text) <==> exists p :: 0 <= p <= |text| && MatchAt(text, p).Some?
  {
    ScanEmpty(text, 0);
  }

  /**
   * The replacement has one node per piece of the text: every non-empty run
   * of plain text is kept verbatim as a text node, every link becomes a link
   * node, no two text nodes are adjacent, and the pieces spell the text.
   */
  lemma ReplacementKeepsText(text: string, index: PageMap)
    ensures var ps := Pieces(text); var ns := Replacement(text, index);
      |ns| == |ps| && Concat(ps) == text && WellSpaced(ps) &&
      forall i :: 0 <= i < |ps| ==>
        (ps[i].Plain? ==> ns[i] == TextNode(ps[i].text)) &&
        (ps[i].Wiki? ==> ns[i].LinkNode? && ns[i].children == [TextNode(DisplayText(ps[i].m))])
  {
    PiecesSpellText(text);
    PiecesWellSpaced(text);
    var ps := Pieces(text);
    var ns := Replacement(text, index);
    forall i | 0 <= i < |ps|
      ensures (ps[i].Plain? ==> ns[i] == TextNode(ps[i].text)) &&
        (ps[i].Wiki? ==> ns[i].LinkNode? && ns[i].children == [TextNode(DisplayText(ps[i].m))])
    {
      assert ns[i] == NodeOf(ps[i], index);
    }
  }

  /**
   * A link node is a plain `wiki-link` exactly when its target resolves, and
   * a `wiki-link` `wiki-link-missing` red link exactly when it does not; its
   * address is always under `/wiki/` and it has no title.
   */
  lemma LinkClasses(m: LinkMatch, index: PageMap)
    ensures var n := NodeOf(Wiki(m), index);
      n.LinkNode? && n.title.None? && StartsWith(n.url, "/wiki/") &&
      (n.className == ["wiki-link"] <==> Resolve(index, LinkTarget(m)).Some?) &&
      (n.className == ["wiki-link", "wiki-link-missing"] <==> Resolve(index, LinkTarget(m)).None?)
  {
  }

  /**
   * A resolved link addresses the joined slug of a registered page; the index
   * of a vault is `RegisterAll([], Registrations(Walk([], vault)))`, whose
   * registrations are those of the vault's content files.
   */
  lemma ResolvedLinkAddressesPage(rs: seq<Registration>, m: LinkMatch)
    requires NodeOf(Wiki(m), RegisterAll([], rs)).className == ["wiki-link"]
    ensures exists i :: 0 <= i < |rs| && NodeOf(Wiki(m), RegisterAll([], rs)).url == "/wiki/" + JoinedSlug(rs[i].page)
  {
    var index := RegisterAll([], rs);
    LinkResolved(index, m);
    ResolvesToPage(rs, LinkTarget(m));
    var i :| 0 <= i < |rs| && Resolve(index, LinkTarget(m)) == Some(rs[i].page);
    ResolvedAddress(index, m, rs[i].page);
  }

  lemma LinkResolved(index: PageMap, m: LinkMatch)
    requires NodeOf(Wiki(m), index).className == ["wiki-link"]
    ensures Resolve(index, LinkTarget(m)).Some?
  {
  }

  lemma ResolvedAddress(index: PageMap, m: LinkMatch, page: PageInfo)
    requires Resolve(index, LinkTarget(m)) == Some(page)
    ensures NodeOf(Wiki(m), index).url == "/wiki/" + JoinedSlug(page)
  {
  }

  /**
   * A red link points at `/wiki/` followed by the lower-cased target with
   * its whitespace runs turned into `-`: exactly the second key resolution
   * tried, which the index lacks. That address holds no whitespace.
   */
  lemma MissingLinkAddress(m: LinkMatch, index: PageMap)
    requires Resolve(index, LinkTarget(m)).None?
    ensures var n := NodeOf(Wiki(m), index);
      exists slug :: n.url == "/wiki/" + slug && NoSpace(slug)
    ensures var key := HyphenateSpaces(Trim(LowerStr(LinkTarget(m))));
      NodeOf(Wiki(m), index).url == "/wiki/" + key && !AssocList.Has(index, key)
  {
    HyphenatedHasNoSpace(LowerStr(LinkTarget(m)));
    assert NodeOf(Wiki(m), index).url == "/wiki/" + MissingSlug(LinkTarget(m));
    TrimTrimmed(m.target);
    LowerKeepsTrimmed(LinkTarget(m));
    ResolveMisses(index, LinkTarget(m));
  }

  /**
   * The text shown for a link is trimmed, and it is the target whenever the
   * link has no label or a blank one.
   */
  lemma DisplayTrimmed(m: LinkMatch)
    ensures var d := DisplayText(m);
      Trim(d) == d && (d == "" || (!IsSpace(d[0]) && !IsSpace(d[|d| - 1]))) &&
      ((m.alias.None? || Trim(m.alias.value) == "") ==> d == LinkTarget(m))
  {
    if m.alias.Some? && Trim(m.alias.value) != "" {
      TrimTrimmed(m.alias.value);
    } else {
      TrimTrimmed(m.target);
    }
  }

  lemma NodesOfAppend(a: seq<Piece>, b: seq<Piece>, index: PageMap)
    ensures NodesOf(a + b, index) == NodesOf(a, index) + NodesOf(b, index)
  {
  }
}

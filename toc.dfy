/**
 * The table of contents of one document: the anchor id of a heading, the
 * nesting of the document's headings into a tree of items, and the tree's
 * HTML. The headings arrive already extracted from the markdown, as their
 * depth and their concatenated text, in document order.
 */
module Toc {
  import opened Text

  /** A heading as the markdown parser reports it: its depth (1 for `#`) and its text. */
  datatype Heading = Heading(level: int, text: string)

  /**
   * `TocItem`. An item to which no child was ever attached has
   * `children == []` where the source leaves the field unset.
   */
  datatype TocItem = TocItem(id: string, text: string, level: int, children: seq<TocItem>)

  // ---------------------------------------------------------------------------
  // anchor ids

  /** Characters `/[^\w\s-]/g` does not delete. */
  predicate KeptInId(c: char) {
    IsWordChar(c) || IsSpace(c) || c == '-'
  }

  /** `s.replace(/[^\w\s-]/g, '')`. */
  function StripDisallowed(s: string): string {
    Filter(s, KeptInId)
  }

  predicate IsHyphen(c: char) {
    c == '-'
  }

  /** `s.replace(/-+/g, '-')`. */
  function CollapseHyphens(s: string): string {
    ReplaceRuns(s, IsHyphen, '-')
  }

  /** The anchor id of a heading: lower-case, delete, hyphenate whitespace, collapse hyphens, trim. */
  function HeadingId(text: string): string {
    Trim(CollapseHyphens(HyphenateSpaces(StripDisallowed(LowerStr(text)))))
  }

  /** The characters an id is made of: `[a-z0-9_-]`. */
  predicate IdChar(c: char) {
    (IsWordChar(c) && !IsUpperAscii(c)) || c == '-'
  }

  /** The shape of every id: only `[a-z0-9_-]`, and never two hyphens in a row. */
  predicate IsId(id: string) {
    (forall i :: 0 <= i < |id| ==> IdChar(id[i])) &&
    (forall i :: 0 <= i < |id| - 1 ==> !(id[i] == '-' && id[i + 1] == '-'))
  }

  /**
   * Every id has the shape `IsId`, and so holds no whitespace; the final
   * `trim()` only removes whitespace, of which none is left, so it never
   * changes the id and leading or trailing hyphens survive.
   */
  lemma HeadingIdShape(text: string)
    ensures IsId(HeadingId(text)) && NoSpace(HeadingId(text))
    ensures HeadingId(text) == CollapseHyphens(HyphenateSpaces(StripDisallowed(LowerStr(text))))
  {
    var s2 := StripDisallowed(LowerStr(text));
    FilterKeeps(LowerStr(text), KeptInId, c => !IsUpperAscii(c));
    HyphenatedIdChars(s2);
    CollapsedIsId(HyphenateSpaces(s2));
    TrimNoSpace(CollapseHyphens(HyphenateSpaces(s2)));
  }

  /** Whitespace turned into hyphens, a lower-case string of kept characters is made of id characters. */
  lemma HyphenatedIdChars(s: string)
    requires forall i :: 0 <= i < |s| ==> KeptInId(s[i]) && !IsUpperAscii(s[i])
    ensures forall i :: 0 <= i < |HyphenateSpaces(s)| ==> IdChar(HyphenateSpaces(s)[i])
  {
    ReplaceRunsKeeps(s, IsSpace, '-', IdChar);
    var r := HyphenateSpaces(s);
    forall i | 0 <= i < |r| ensures IdChar(r[i]) {
      assert KeepsAt(r, i, IsSpace, '-', IdChar);
    }
  }

  /** Collapsing the hyphens of a string of id characters gives an id, without whitespace. */
  lemma CollapsedIsId(s: string)
    requires forall i :: 0 <= i < |s| ==> IdChar(s[i])
    ensures IsId(CollapseHyphens(s)) && NoSpace(CollapseHyphens(s))
  {
    ReplaceRunsKeeps(s, IsHyphen, '-', IdChar);
    ReplaceRunsNoAdjacent(s, IsHyphen, '-');
    var r := CollapseHyphens(s);
    forall i | 0 <= i < |r| ensures IdChar(r[i]) && !IsSpace(r[i]) {
      assert KeepsAt(r, i, IsHyphen, '-', IdChar);
    }
    forall i | 0 <= i < |r| - 1 ensures !(r[i] == '-' && r[i + 1] == '-') {
      assert !(IsHyphen(r[i]) && IsHyphen(r[i + 1]));
    }
  }

  /** An id is its own id: computing the id of an id changes nothing. */
  lemma HeadingIdIdempotent(text: string)
    ensures HeadingId(HeadingId(text)) == HeadingId(text)
  {
    var id := HeadingId(text);
    HeadingIdShape(text);
    assert LowerStr(id) == id;
    FilterAll(id, KeptInId);
    HyphenateNoSpace(id);
    ReplaceRunsFixed(id, IsHyphen, '-');
    TrimNoSpace(id);
  }

  // ---------------------------------------------------------------------------
  // the tree: reference definition

  /** The item a heading becomes before anything is attached to it. */
  function ItemOf(h: Heading): TocItem {
    TocItem(HeadingId(h.text), h.text, h.level, [])
  }

  /** An item without its children. */
  function Bare(t: TocItem): TocItem {
    t.(children := [])
  }

  /** How many levels the chain of last items goes down: the open items after a heading is added. */
  function Depth(f: seq<TocItem>): nat
    decreases f
  {
    if |f| == 0 then 0 else 1 + Depth(f[|f| - 1].children)
  }

  /** The last item at depth `k` of the chain of last items (`k == 0`: the last top-level item). */
  function SpineAt(f: seq<TocItem>, k: nat): TocItem
    requires k < Depth(f)
    decreases f
  {
    if k == 0 then f[|f| - 1] else SpineAt(f[|f| - 1].children, k - 1)
  }

  /**
   * Attaching `item` where the nesting rule puts it: as the last child of the
   * last item if that item's level is smaller, recursively, and otherwise at
   * the end of the list.
   */
  function Insert(f: seq<TocItem>, item: TocItem): seq<TocItem>
    decreases f
  {
    if |f| == 0 || f[|f| - 1].level >= item.level then f + [item]
    else
      var last := f[|f| - 1];
      f[..|f| - 1] + [last.(children := Insert(last.children, item))]
  }

  /** Headings other than level 1. */
  function NonTitle(hs: seq<Heading>): (r: seq<Heading>)
    ensures forall h :: h in r ==> h in hs && h.level != 1
    decreases |hs|
  {
    if |hs| == 0 then []
    else
      var pre := NonTitle(hs[..|hs| - 1]);
      if hs[|hs| - 1].level == 1 then pre else pre + [hs[|hs| - 1]]
  }

  /** The table of contents of a heading list, heading by heading. */
  function Build(hs: seq<Heading>): seq<TocItem>
    decreases |hs|
  {
    if |hs| == 0 then []
    else
      var f := Build(hs[..|hs| - 1]);
      var h := hs[|hs| - 1];
      if h.level == 1 then f else Insert(f, ItemOf(h))
  }

  // ---------------------------------------------------------------------------
  // generateToc

  /**
   * Attaching `item` below the last item at depth `k - 1` of the chain of
   * last items (the parent on top of a stack of `k` open items), or at the top
   * level when `k == 0`: `parent.children.push(item)` / `toc.push(item)`.
   */
  function AddAtDepth(f: seq<TocItem>, k: nat, item: TocItem): seq<TocItem>
    requires k <= Depth(f)
    decreases f
  {
    if k == 0 then f + [item]
    else
      var last := f[|f| - 1];
      f[..|f| - 1] + [last.(children := AddAtDepth(last.children, k - 1, item))]
  }

  /**
   * The stack holds the first `|stack|` items of the chain of last items of
   * the tree (as they were pushed, without children), with strictly
   * increasing levels.
   */
  predicate OpenItems(toc: seq<TocItem>, stack: seq<TocItem>) {
    |stack| <= Depth(toc) &&
    (forall k :: 0 <= k < |stack| ==> stack[k] == Bare(SpineAt(toc, k))) &&
    (forall a, b :: 0 <= a < b < |stack| ==> stack[a].level < stack[b].level)
  }

  /**
   * `generateToc` from the extracted headings: skips level 1, pops the stack
   * while its top's level is at least the heading's, attaches the new item at
   * the top level or as the last child of the stack's top, and pushes it.
   */
  method GenerateToc(headings: seq<Heading>) returns (toc: seq<TocItem>)
    ensures toc == Build(headings)
  {
    toc := [];
    var stack: seq<TocItem> := [];
    for i := 0 to |headings|
      invariant toc == Build(headings[..i])
      invariant OpenItems(toc, stack) && |stack| == Depth(toc)
    {
      var heading := headings[i];
      BuildStep(headings, i);
      if heading.level == 1 {
        continue;
      }
      var item := TocItem(HeadingId(heading.text), heading.text, heading.level, []);
      while |stack| > 0 && stack[|stack| - 1].level >= heading.level
        invariant OpenItems(toc, stack)
        invariant AtLeastFrom(toc, |stack|, heading.level)
      {
        PopStep(toc, stack, heading.level);
        stack := stack[..|stack| - 1];
      }
      PushStep(toc, stack, item);
      if |stack| == 0 {
        toc := toc + [item];
      } else {
        toc := AddAtDepth(toc, |stack|, item);
      }
      stack := stack + [item];
    }
    assert headings[..|headings|] == headings;
  }

  /** One more heading of the list. */
  lemma BuildStep(hs: seq<Heading>, i: nat)
    requires i < |hs|
    ensures Build(hs[..i + 1]) == if hs[i].level == 1 then Build(hs[..i]) else Insert(Build(hs[..i]), ItemOf(hs[i]))
  {
    assert hs[..i + 1][..i] == hs[..i];
  }

  /** Popping the top of the stack keeps the rest open. */
  lemma PopStep(toc: seq<TocItem>, stack: seq<TocItem>, level: int)
    requires OpenItems(toc, stack) && |stack| > 0
    requires AtLeastFrom(toc, |stack|, level) && stack[|stack| - 1].level >= level
    ensures OpenItems(toc, stack[..|stack| - 1])
    ensures AtLeastFrom(toc, |stack| - 1, level)
  {
    assert SpineAt(toc, |stack| - 1).level == stack[|stack| - 1].level;
  }

  /** The open items from depth `m` down all have at least the given level. */
  predicate AtLeastFrom(toc: seq<TocItem>, m: nat, level: int) {
    forall j :: m <= j < Depth(toc) ==> SpineAt(toc, j).level >= level
  }

  /**
   * Once the stack's top has a smaller level than the item, or the stack is
   * empty, attaching at the stack's depth is the nesting rule, and the pushed
   * item extends the open items.
   */
  lemma PushStep(toc: seq<TocItem>, stack: seq<TocItem>, item: TocItem)
    requires OpenItems(toc, stack) && item.children == []
    requires |stack| == 0 || stack[|stack| - 1].level < item.level
    requires AtLeastFrom(toc, |stack|, item.level)
    ensures Insert(toc, item) == AddAtDepth(toc, |stack|, item)
    ensures |stack| == 0 ==> AddAtDepth(toc, |stack|, item) == toc + [item]
    ensures OpenItems(AddAtDepth(toc, |stack|, item), stack + [item])
    ensures |stack + [item]| == Depth(AddAtDepth(toc, |stack|, item))
  {
    forall j | 0 <= j < |stack| ensures SpineAt(toc, j).level < item.level {
      assert stack[j].level == SpineAt(toc, j).level;
      assert j == |stack| - 1 || stack[j].level < stack[|stack| - 1].level;
    }
    InsertAtDepth(toc, |stack|, item);
    AddAtDepthSpine(toc, |stack|, item);
    var g := AddAtDepth(toc, |stack|, item);
    var st := stack + [item];
    forall k | 0 <= k < |st| ensures st[k] == Bare(SpineAt(g, k)) {
      if k < |stack| {
        assert st[k] == stack[k];
      }
    }
  }

  /** With levels below the new one exactly on the first `m` open items, the stack attaches where the nesting rule does. */
  lemma {:induction false} InsertAtDepth(f: seq<TocItem>, m: nat, item: TocItem)
    requires m <= Depth(f)
    requires forall j :: 0 <= j < m ==> SpineAt(f, j).level < item.level
    requires forall j :: m <= j < Depth(f) ==> SpineAt(f, j).level >= item.level
    ensures Insert(f, item) == AddAtDepth(f, m, item)
    decreases f
  {
    if m == 0 {
      if |f| > 0 {
        assert SpineAt(f, 0).level >= item.level;
      }
    } else {
      var last := f[|f| - 1];
      assert SpineAt(f, 0) == last;
      forall j | 0 <= j < Depth(last.children) ensures SpineAt(last.children, j) == SpineAt(f, j + 1) {
      }
      InsertAtDepth(last.children, m - 1, item);
    }
  }

  /** After attaching at depth `m`, the chain of last items is the first `m` old ones followed by the new item. */
  lemma {:induction false} AddAtDepthSpine(f: seq<TocItem>, m: nat, item: TocItem)
    requires m <= Depth(f) && item.children == []
    ensures var g := AddAtDepth(f, m, item);
      Depth(g) == m + 1 && SpineAt(g, m) == item &&
      forall k :: 0 <= k < m ==> Bare(SpineAt(g, k)) == Bare(SpineAt(f, k))
    decreases f
  {
    var g := AddAtDepth(f, m, item);
    if m > 0 {
      var last := f[|f| - 1];
      AddAtDepthSpine(last.children, m - 1, item);
      var last' := g[|g| - 1];
      assert last' == last.(children := AddAtDepth(last.children, m - 1, item));
      forall k | 0 <= k < m ensures Bare(SpineAt(g, k)) == Bare(SpineAt(f, k)) {
        if k > 0 {
          assert SpineAt(g, k) == SpineAt(last'.children, k - 1);
          assert SpineAt(f, k) == SpineAt(last.children, k - 1);
        }
      }
    }
  }

  // ---------------------------------------------------------------------------
  // properties of the tree

  /** The items of a tree in preorder, without their children. */
  function Flatten(f: seq<TocItem>): seq<TocItem>
    decreases f
  {
    if |f| == 0 then []
    else Flatten(f[..|f| - 1]) + [Bare(f[|f| - 1])] + Flatten(f[|f| - 1].children)
  }

  /** The items of a heading list. */
  function Items(hs: seq<Heading>): (r: seq<TocItem>)
    ensures |r| == |hs| && forall i :: 0 <= i < |hs| ==> r[i] == ItemOf(hs[i])
  {
    seq(|hs|, i requires 0 <= i < |hs| => ItemOf(hs[i]))
  }

  lemma ItemsSnoc(hs: seq<Heading>, h: Heading)
    ensures Items(hs + [h]) == Items(hs) + [ItemOf(h)]
  {
  }

  /** Attaching an item adds it at the end of the preorder. */
  lemma {:induction false} FlattenInsert(f: seq<TocItem>, item: TocItem)
    requires item.children == []
    ensures Flatten(Insert(f, item)) == Flatten(f) + [item]
    decreases f
  {
    var r := Insert(f, item);
    if |f| == 0 || f[|f| - 1].level >= item.level {
      assert r[..|r| - 1] == f;
    } else {
      var last := f[|f| - 1];
      FlattenInsert(last.children, item);
      assert r[..|r| - 1] == f[..|f| - 1];
    }
  }

  /**
   * Reading the table of contents in preorder gives exactly the headings
   * other than level 1, in document order, each with its id.
   */
  lemma {:induction false} BuildPreorder(hs: seq<Heading>)
    ensures Flatten(Build(hs)) == Items(NonTitle(hs))
    decreases |hs|
  {
    if |hs| > 0 {
      var pre := hs[..|hs| - 1];
      var h := hs[|hs| - 1];
      BuildPreorder(pre);
      if h.level != 1 {
        assert Build(hs) == Insert(Build(pre), ItemOf(h));
        assert NonTitle(hs) == NonTitle(pre) + [h];
        FlattenInsert(Build(pre), ItemOf(h));
        ItemsSnoc(NonTitle(pre), h);
      } else {
        assert Build(hs) == Build(pre) && NonTitle(hs) == NonTitle(pre);
      }
    }
  }

  /** No level-1 heading appears in the table of contents, and every item carries the id of its own text. */
  lemma NoTitleInToc(hs: seq<Heading>)
    ensures forall t :: t in Flatten(Build(hs)) ==> t.level != 1 && t.id == HeadingId(t.text) && t.children == []
  {
    BuildPreorder(hs);
    var ns := NonTitle(hs);
    forall t | t in Flatten(Build(hs)) ensures t.level != 1 && t.id == HeadingId(t.text) && t.children == [] {
      var i :| 0 <= i < |Items(ns)| && Items(ns)[i] == t;
      assert ns[i] in ns;
    }
  }

  /** Every child has a greater level than its parent, at every depth. */
  predicate Nested(f: seq<TocItem>)
    decreases f
  {
    forall i :: 0 <= i < |f| ==>
      (forall j :: 0 <= j < |f[i].children| ==> f[i].children[j].level > f[i].level) &&
      Nested(f[i].children)
  }

  lemma {:induction false} InsertNested(f: seq<TocItem>, item: TocItem)
    requires Nested(f) && item.children == []
    ensures Nested(Insert(f, item))
    decreases f
  {
    var r := Insert(f, item);
    if |f| == 0 || f[|f| - 1].level >= item.level {
      assert forall i :: 0 <= i < |f| ==> r[i] == f[i];
    } else {
      var last := f[|f| - 1];
      InsertNested(last.children, item);
      assert forall i :: 0 <= i < |f| - 1 ==> r[i] == f[i];
    }
  }

  /** The table of contents nests every item under a parent of smaller level. */
  lemma {:induction false} BuildNested(hs: seq<Heading>)
    ensures Nested(Build(hs))
    decreases |hs|
  {
    if |hs| > 0 {
      BuildNested(hs[..|hs| - 1]);
      if hs[|hs| - 1].level != 1 {
        InsertNested(Build(hs[..|hs| - 1]), ItemOf(hs[|hs| - 1]));
      }
    }
  }

  /**
   * A deeper heading between two headings of the same level (for instance
   * `##`, `####`, `##`) nests under the first; the second starts a new
   * top-level item.
   */
  lemma NestingExample(h1: Heading, h2: Heading, h3: Heading)
    requires h1.level != 1 && h2.level != 1 && h1.level < h2.level && h3.level == h1.level
    ensures Build([h1, h2, h3]) == [ItemOf(h1).(children := [ItemOf(h2)]), ItemOf(h3)]
  {
    BuildTwo(h1, h2);
    BuildSnoc([h1, h2], h3);
    assert [h1, h2] + [h3] == [h1, h2, h3];
    InsertSibling([ItemOf(h1).(children := [ItemOf(h2)])], ItemOf(h3));
  }

  lemma BuildOne(h: Heading)
    requires h.level != 1
    ensures Build([h]) == [ItemOf(h)]
  {
    BuildSnoc([], h);
    assert [] + [h] == [h];
    InsertIntoEmpty(ItemOf(h));
  }

  lemma BuildTwo(h1: Heading, h2: Heading)
    requires h1.level != 1 && h2.level != 1 && h1.level < h2.level
    ensures Build([h1, h2]) == [ItemOf(h1).(children := [ItemOf(h2)])]
  {
    BuildOne(h1);
    BuildSnoc([h1], h2);
    assert [h1] + [h2] == [h1, h2];
    InsertChild(ItemOf(h1), ItemOf(h2));
  }

  lemma BuildSnoc(hs: seq<Heading>, h: Heading)
    ensures Build(hs + [h]) == if h.level == 1 then Build(hs) else Insert(Build(hs), ItemOf(h))
  {
    assert (hs + [h])[..|hs|] == hs;
  }

  lemma InsertIntoEmpty(a: TocItem)
    ensures Insert([], a) == [a]
  {
  }

  lemma InsertChild(a: TocItem, b: TocItem)
    requires a.children == [] && a.level < b.level
    ensures Insert([a], b) == [a.(children := [b])]
  {
    InsertIntoEmpty(b);
    assert [a][..0] == [];
  }

  /** Down the chain of last items of a nested tree, levels only grow. */
  lemma {:induction false} SpineRises(f: seq<TocItem>, j: nat)
    requires Nested(f) && j < Depth(f)
    ensures SpineAt(f, 0).level <= SpineAt(f, j).level
    decreases f
  {
    if j > 0 {
      var last := f[|f| - 1];
      assert Nested(last.children);
      SpineRises(last.children, j - 1);
      var kids := last.children;
      assert SpineAt(kids, 0) == kids[|kids| - 1];
    }
  }

  /**
   * A new item becomes a top-level item exactly when no open item (no item
   * on the chain of last items) has a smaller level, that is, when popping
   * empties the stack.
   */
  lemma TopLevelIff(f: seq<TocItem>, c: TocItem)
    requires Nested(f)
    ensures Insert(f, c) == f + [c] <==> forall j :: 0 <= j < Depth(f) ==> SpineAt(f, j).level >= c.level
  {
    if |f| > 0 && f[|f| - 1].level < c.level {
      assert |Insert(f, c)| == |f|;
      assert SpineAt(f, 0).level < c.level;
    } else {
      forall j | 0 <= j < Depth(f) ensures SpineAt(f, j).level >= c.level {
        SpineRises(f, j);
      }
    }
  }

  lemma InsertSibling(f: seq<TocItem>, c: TocItem)
    requires |f| > 0 && f[|f| - 1].level >= c.level
    ensures Insert(f, c) == f + [c]
  {
  }

  // ---------------------------------------------------------------------------
  // renderToc

  /** The pieces of the rendered list. */
  datatype Tag = ListOpen | ItemOpen | Anchor(id: string, text: string) | ItemClose | ListClose

  const ListOpenText: string := "<ul class=\"vector-toc-list\">"
  const ItemOpenText: string := "<li class=\"vector-toc-list-item\">"
  const ItemCloseText: string := "</li>"
  const ListCloseText: string := "</ul>"

  /** `<a href="#id">text</a>`. */
  function AnchorText(id: string, text: string): string {
    "<a href=\"#" + id + "\">" + text + "</a>"
  }

  function TagText(t: Tag): string {
    match t
    case ListOpen => ListOpenText
    case ItemOpen => ItemOpenText
    case Anchor(id, text) => AnchorText(id, text)
    case ItemClose => ItemCloseText
    case ListClose => ListCloseText
  }

  function Spell(ts: seq<Tag>): string
    decreases |ts|
  {
    if |ts| == 0 then "" else Spell(ts[..|ts| - 1]) + TagText(ts[|ts| - 1])
  }

  /** What `renderToc(items)` writes: nothing for no items, else the list of their entries. */
  function Tags(items: seq<TocItem>): seq<Tag>
    decreases items, 1
  {
    if |items| == 0 then [] else [ListOpen] + EntryTags(items) + [ListClose]
  }

  /** The entries of a list: each item's anchor, then its children's list, inside one list item. */
  function EntryTags(items: seq<TocItem>): seq<Tag>
    decreases items, 0
  {
    if |items| == 0 then []
    else
      var item := items[|items| - 1];
      EntryTags(items[..|items| - 1]) + [ItemOpen, Anchor(item.id, item.text)] + Tags(item.children) + [ItemClose]
  }

  lemma {:induction false} SpellAppend(a: seq<Tag>, b: seq<Tag>)
    ensures Spell(a + b) == Spell(a) + Spell(b)
    decreases |b|
  {
    if |b| == 0 {
      assert a + b == a;
    } else {
      assert (a + b)[..|a + b| - 1] == a + b[..|b| - 1];
      SpellAppend(a, b[..|b| - 1]);
    }
  }

  /** `renderToc`: the list's opening tag, one entry per item with its children rendered inside, the closing tag. */
  method RenderToc(items: seq<TocItem>) returns (html: string)
    ensures html == Spell(Tags(items))
    decreases items
  {
    if |items| == 0 {
      RenderedList(items);
      return "";
    }
    html := ListOpenText;
    for i := 0 to |items|
      invariant html == ListOpenText + Spell(EntryTags(items[..i]))
    {
      var item := items[i];
      html := html + ItemOpenText;
      html := html + AnchorText(item.id, item.text);
      var sub := "";
      if |item.children| > 0 {
        sub := RenderToc(item.children);
      } else {
        RenderedList(item.children);
      }
      html := html + sub + ItemCloseText;
      EntryStep(items, i);
      AppendRegroup(ListOpenText, Spell(EntryTags(items[..i])), ItemOpenText, AnchorText(item.id, item.text), sub, ItemCloseText);
    }
    html := html + ListCloseText;
    assert items[..|items|] == items;
    RenderedList(items);
  }

  lemma AppendRegroup(h: string, e: string, x: string, y: string, s: string, c: string)
    ensures h + e + x + y + s + c == h + (e + x + y + s + c)
  {
  }

  /** One more entry of the list. */
  lemma EntryStep(items: seq<TocItem>, i: nat)
    requires i < |items|
    ensures var item := items[i];
      Spell(EntryTags(items[..i + 1])) ==
        Spell(EntryTags(items[..i])) + ItemOpenText + AnchorText(item.id, item.text) +
        Spell(Tags(item.children)) + ItemCloseText
  {
    var item := items[i];
    var pre := items[..i + 1];
    assert pre[..i] == items[..i] && pre[i] == item;
    var a := EntryTags(items[..i]);
    var open := [ItemOpen, Anchor(item.id, item.text)];
    var sub := Tags(item.children);
    assert EntryTags(pre) == a + open + sub + [ItemClose];
    SpellAppend(a + open + sub, [ItemClose]);
    SpellAppend(a + open, sub);
    SpellAppend(a, open);
    SpellTwo(ItemOpen, Anchor(item.id, item.text));
    SpellOne(ItemClose);
    Regroup(Spell(a), ItemOpenText, AnchorText(item.id, item.text), Spell(sub), ItemCloseText);
  }

  lemma Regroup(e: string, x: string, y: string, s: string, c: string)
    ensures e + (x + y) + s + c == e + x + y + s + c
  {
  }

  lemma SpellOne(t: Tag)
    ensures Spell([t]) == TagText(t)
  {
    assert [t][..0] == [];
  }

  lemma SpellTwo(t: Tag, u: Tag)
    ensures Spell([t, u]) == TagText(t) + TagText(u)
  {
    assert [t, u][..1] == [t];
    SpellOne(t);
  }

  /** The anchors of a tag list, in order. */
  function Anchors(ts: seq<Tag>): seq<(string, string)>
    decreases |ts|
  {
    if |ts| == 0 then []
    else Anchors(ts[..|ts| - 1]) + (if ts[|ts| - 1].Anchor? then [(ts[|ts| - 1].id, ts[|ts| - 1].text)] else [])
  }

  lemma {:induction false} AnchorsAppend(a: seq<Tag>, b: seq<Tag>)
    ensures Anchors(a + b) == Anchors(a) + Anchors(b)
    decreases |b|
  {
    if |b| == 0 {
      assert a + b == a;
    } else {
      assert (a + b)[..|a + b| - 1] == a + b[..|b| - 1];
      AnchorsAppend(a, b[..|b| - 1]);
    }
  }

  /** The id and text of each item. */
  function Labels(f: seq<TocItem>): (r: seq<(string, string)>)
    ensures |r| == |f| && forall i :: 0 <= i < |f| ==> r[i] == (f[i].id, f[i].text)
  {
    seq(|f|, i requires 0 <= i < |f| => (f[i].id, f[i].text))
  }

  /**
   * The rendered list links every item of the tree exactly once, in preorder:
   * its anchors, read left to right, are the tree's items' ids and texts.
   */
  lemma {:induction false} RenderedAnchors(items: seq<TocItem>)
    ensures Anchors(Tags(items)) == Labels(Flatten(items))
    decreases items, 1
  {
    if |items| > 0 {
      AnchorsAppend([ListOpen] + EntryTags(items), [ListClose]);
      AnchorsAppend([ListOpen], EntryTags(items));
      EntryAnchors(items);
    }
  }

  lemma {:induction false} EntryAnchors(items: seq<TocItem>)
    ensures Anchors(EntryTags(items)) == Labels(Flatten(items))
    decreases items, 0
  {
    if |items| > 0 {
      var item := items[|items| - 1];
      var pre := items[..|items| - 1];
      assert EntryTags(items) == EntryTags(pre) + [ItemOpen, Anchor(item.id, item.text)] + Tags(item.children) + [ItemClose];
      EntryAnchors(pre);
      RenderedAnchors(item.children);
      AnchorsOfEntry(EntryTags(pre), item.id, item.text, Tags(item.children));
      assert Flatten(items) == Flatten(pre) + [Bare(item)] + Flatten(item.children);
      LabelsAppend(Flatten(pre) + [Bare(item)], Flatten(item.children));
      LabelsAppend(Flatten(pre), [Bare(item)]);
    }
  }

  /** The anchors of one more entry: its own, then its children's. */
  lemma AnchorsOfEntry(a: seq<Tag>, id: string, text: string, sub: seq<Tag>)
    ensures Anchors(a + [ItemOpen, Anchor(id, text)] + sub + [ItemClose]) == Anchors(a) + [(id, text)] + Anchors(sub)
  {
    var open := [ItemOpen, Anchor(id, text)];
    AnchorsAppend(a + open + sub, [ItemClose]);
    AnchorsAppend(a + open, sub);
    AnchorsAppend(a, open);
    assert open[..1] == [ItemOpen] && [ItemOpen][..0] == [] && [ItemClose][..0] == [];
  }

  lemma LabelsAppend(f: seq<TocItem>, g: seq<TocItem>)
    ensures Labels(f + g) == Labels(f) + Labels(g)
  {
  }

  /** No items render as the empty string; otherwise the output is one `<ul class="vector-toc-list">` list. */
  lemma RenderedList(items: seq<TocItem>)
    ensures |items| == 0 ==> Spell(Tags(items)) == ""
    ensures |items| > 0 ==> Spell(Tags(items)) == ListOpenText + Spell(EntryTags(items)) + ListCloseText
  {
    if |items| > 0 {
      SpellAppend([ListOpen] + EntryTags(items), [ListClose]);
      SpellAppend([ListOpen], EntryTags(items));
      SpellOne(ListOpen);
      SpellOne(ListClose);
    }
  }
}

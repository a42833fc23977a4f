/**
 * The infobox component's logic: which field configuration a page's front
 * matter selects, which rows it shows and with what labels, how a value is
 * formatted, and the component's own unresolved wiki-link rendering, which
 * uses the link grammar of the remark plugin but links to the raw target.
 */
module InfoBox {
  import opened Wrappers
  import opened Text
  import opened Values
  import opened WikiLink

  // ---------------------------------------------------------------------------
  // processWikiLinks

  /** One child `processWikiLinks` renders: a string, or an `infobox-wikilink` anchor. */
  datatype Part = TextPart(text: string) | Anchor(href: string, display: string)

  /** What `processWikiLinks` returns: its array of parts, or the text itself when that array is empty. */
  datatype Processed = Parts(parts: seq<Part>) | Unchanged(text: string)

  /** `match[2] || link` when the link is written `[[link|display]]` or `[[link]]`. */
  function AnchorDisplay(m: LinkMatch): string {
    if m.alias.Some? && m.alias.value != "" then m.alias.value else m.target
  }

  /** The part a piece of the text becomes: no trimming and no resolution. */
  function PartOf(p: Piece): Part {
    match p
    case Plain(t) => TextPart(t)
    case Wiki(m) => Anchor("/wiki/" + m.target, AnchorDisplay(m))
  }

  function PartsOf(ps: seq<Piece>): (r: seq<Part>)
    ensures |r| == |ps| && forall i :: 0 <= i < |ps| ==> r[i] == PartOf(ps[i])
  {
    seq(|ps|, i requires 0 <= i < |ps| => PartOf(ps[i]))
  }

  /** What `processWikiLinks(text)` returns. */
  function ProcessedOf(text: string): Processed {
    var parts := PartsOf(Pieces(text));
    if |parts| > 0 then Parts(parts) else Unchanged(text)
  }

  /**
   * `processWikiLinks`: the `exec` loop pushing the text before each link and
   * an anchor for it, then the text after the last link.
   */
  method ProcessWikiLinks(text: string) returns (r: Processed)
    ensures r == ProcessedOf(text)
  {
    var parts: seq<Part> := [];
    var lastIndex := 0;
    ghost var done: seq<Piece> := [];
    while NextMatch(text, lastIndex).Some?
      invariant lastIndex <= |text|
      invariant Scan(text, 0) == done + Scan(text, lastIndex)
      invariant ScanEnd(text, 0) == ScanEnd(text, lastIndex)
      invariant parts == PartsOf(done)
      decreases |text| - lastIndex
    {
      var m := NextMatch(text, lastIndex).value;
      ghost var step := Gap(text, lastIndex, m.start) + [Wiki(m)];
      ScanAdvance(text, lastIndex, done);
      if m.start > lastIndex {
        parts := parts + [TextPart(text[lastIndex..m.start])];
      }
      var link := m.target;
      var display := if m.alias.Some? && m.alias.value != "" then m.alias.value else link;
      var href := "/wiki/" + link;
      parts := parts + [Anchor(href, display)];
      PartsStep(done, text, lastIndex, m);
      done := done + step;
      lastIndex := m.end;
    }
    ScanStops(text, lastIndex);
    if lastIndex < |text| {
      parts := parts + [TextPart(text[lastIndex..])];
    }
    TrailingParts(done, text, lastIndex);
    if |parts| > 0 {
      r := Parts(parts);
    } else {
      r := Unchanged(text);
    }
  }

  lemma PartsOfAppend(a: seq<Piece>, b: seq<Piece>)
    ensures PartsOf(a + b) == PartsOf(a) + PartsOf(b)
  {
  }

  /** One turn of the loop adds the text before the match, if any, and the anchor. */
  lemma PartsStep(ps: seq<Piece>, text: string, a: nat, m: LinkMatch)
    requires a <= m.start <= |text|
    ensures PartsOf(ps + (Gap(text, a, m.start) + [Wiki(m)])) ==
      PartsOf(ps) + (if a < m.start then [TextPart(text[a..m.start])] else []) +
      [Anchor("/wiki/" + m.target, AnchorDisplay(m))]
  {
    var g := Gap(text, a, m.start);
    PartsOfAppend(ps, g + [Wiki(m)]);
    PartsOfAppend(g, [Wiki(m)]);
  }

  /** After the loop: the parts of the links, then the trailing text if any. */
  lemma TrailingParts(ps: seq<Piece>, text: string, e: nat)
    requires e <= |text| && Pieces(text) == ps + Gap(text, e, |text|)
    ensures PartsOf(Pieces(text)) == PartsOf(ps) + (if e < |text| then [TextPart(text[e..])] else [])
  {
    PartsOfAppend(ps, Gap(text, e, |text|));
    if e < |text| {
      assert text[e..] == text[e..|text|];
    }
  }

  /**
   * The parts are one per piece of the text: plain runs kept verbatim, each
   * link an anchor to `/wiki/` and its raw target; the pieces spell the text.
   */
  lemma ProcessedKeepsText(text: string)
    requires ProcessedOf(text).Parts?
    ensures var ps := Pieces(text); var parts := ProcessedOf(text).parts;
      |parts| == |ps| && Concat(ps) == text &&
      forall i :: 0 <= i < |ps| ==>
        (ps[i].Plain? ==> parts[i] == TextPart(ps[i].text)) &&
        (ps[i].Wiki? ==> parts[i] == Anchor("/wiki/" + ps[i].m.target, AnchorDisplay(ps[i].m)))
  {
    PiecesSpellText(text);
  }

  /** The text itself comes back only for the empty string; a text without links is one text part. */
  lemma ProcessedUnchangedIff(text: string)
    ensures ProcessedOf(text).Unchanged? <==> text == ""
    ensures Scan(text, 0) == [] && text != "" ==> ProcessedOf(text) == Parts([TextPart(text)])
  {
    PiecesSpellText(text);
    if Scan(text, 0) == [] {
      if NextMatch(text, 0).Some? {
        ScanUnfold(text, 0);
        assert false;
      }
      ScanStops(text, 0);
      assert text[0..|text|] == text;
    }
  }

  /**
   * Every anchor comes from a link written in the text: its `href` is
   * `/wiki/` followed by the target exactly as written there, and the text
   * it shows is never empty.
   */
  lemma AnchorsFromText(text: string, i: nat)
    requires i < |Pieces(text)| && Pieces(text)[i].Wiki?
    ensures var m := Pieces(text)[i].m;
      m.start + 2 + |m.target| <= |text| && MatchAt(text, m.start) == Some(m) &&
      PartOf(Pieces(text)[i]).href == "/wiki/" + text[m.start + 2..m.start + 2 + |m.target|] &&
      PartOf(Pieces(text)[i]).display != ""
  {
    var sc := Scan(text, 0);
    assert i < |sc|;
    assert Pieces(text)[i] == sc[i];
    ScanLeftmost(text, 0, i);
    AnchorOfMatch(text, sc[i].m);
  }

  /** The anchor of a link found at its start in the text. */
  lemma AnchorOfMatch(text: string, m: LinkMatch)
    requires m.start <= |text| && MatchAt(text, m.start) == Some(m)
    ensures m.start + 2 + |m.target| <= |text|
    ensures PartOf(Wiki(m)).href == "/wiki/" + text[m.start + 2..m.start + 2 + |m.target|]
    ensures PartOf(Wiki(m)).display != ""
  {
    MatchWrites(text, m.start);
    SliceIs(text, m.start + 2, m.target);
  }

  /** A number is shown as its digits: no link can start in them. */
  lemma NumberHasNoLink(n: int)
    ensures ProcessedOf(IntToString(n)) == Parts([TextPart(IntToString(n))])
  {
    var s := IntToString(n);
    forall p | 0 <= p <= |s|
      ensures MatchAt(s, p).None?
    {
      if p + 1 < |s| {
        assert s[p] != '[';
      }
    }
    ScanEmpty(s, 0);
    ProcessedUnchangedIff(s);
  }

  // ---------------------------------------------------------------------------
  // configurations and labels

  /** A content type's label and the fields its infobox shows, in order. */
  datatype Config = Config(heading: string, fields: seq<string>)

  const Person := Config("Person", ["image", "born", "location", "occupation", "partner", "email", "website", "status"])
  const Idea := Config("Idea", ["image", "type", "status", "source", "origin", "related"])
  const Project := Config("Project", ["image", "status", "started", "tech", "stack", "links", "github", "url"])
  const Place := Config("Place", ["image", "location", "coordinates", "significance", "type", "visited"])

  /** `FIELD_CONFIGS`. */
  const FieldConfigs: map<string, Config> :=
    map["person" := Person, "idea" := Idea, "project" := Project, "place" := Place]

  /** `FIELD_LABELS[field]`: the table's label, `None` for a field it does not name. */
  function FieldLabel(field: string): Option<string> {
    if field == "born" then Some("Born")
    else if field == "location" then Some("Location")
    else if field == "occupation" then Some("Occupation")
    else if field == "partner" then Some("Partner")
    else if field == "email" then Some("Email")
    else if field == "website" then Some("Website")
    else if field == "status" then Some("Status")
    else if field == "type" then Some("Type")
    else if field == "source" then Some("Source")
    else if field == "origin" then Some("Origin")
    else if field == "related" then Some("Related")
    else if field == "started" then Some("Started")
    else if field == "tech" then Some("Tech")
    else if field == "stack" then Some("Stack")
    else if field == "links" then Some("Links")
    else if field == "github" then Some("GitHub")
    else if field == "url" then Some("URL")
    else if field == "coordinates" then Some("Coordinates")
    else if field == "significance" then Some("Significance")
    else if field == "visited" then Some("Visited")
    else None
  }

  /**
   * `data.type?.toLowerCase() || 'person'`: `None` when `type` is present but
   * not a string, where calling `toLowerCase` throws.
   */
  function ContentType(data: Data): Option<string> {
    match Lookup(data, "type")
    case Undefined => Some("person")
    case Null => Some("person")
    case Str(s) => if s == "" then Some("person") else Some(LowerStr(s))
    case _ => None
  }

  /** `FIELD_CONFIGS[contentType] || FIELD_CONFIGS.person`. */
  function SelectConfig(contentType: string): Config {
    if contentType in FieldConfigs then FieldConfigs[contentType] else Person
  }

  /** The content type ignores case, and the configuration is the person one unless the type names another. */
  lemma ConfigChoice(data: Data, s: string)
    requires Lookup(data, "type") == Str(s)
    ensures ContentType(data).Some?
    ensures ContentType(data) == ContentType([("type", Str(LowerStr(s)))])
    ensures var c := SelectConfig(ContentType(data).value);
      (c == Person || c == Idea || c == Project || c == Place) &&
      (c == Idea <==> LowerStr(s) == "idea") &&
      (c == Project <==> LowerStr(s) == "project") &&
      (c == Place <==> LowerStr(s) == "place")
  {
    LowerStrIdempotent(s);
  }

  /** `FIELD_LABELS[field] || field.charAt(0).toUpperCase() + field.slice(1)`. */
  function Label(field: string): string {
    if FieldLabel(field).Some? && FieldLabel(field).value != "" then FieldLabel(field).value else Capitalize(field)
  }

  /**
   * A label is the table's entry when there is one, and every entry of the
   * table starts with a capital letter; otherwise it is the field with its
   * first letter capitalised.
   */
  lemma LabelChoice(f: string)
    ensures FieldLabel(f).Some? ==>
      Label(f) == FieldLabel(f).value && |Label(f)| > 0 && IsUpperAscii(Label(f)[0])
    ensures FieldLabel(f).None? ==> Label(f) == Capitalize(f)
  {
    if f == "born" {
      assert Label(f) == "Born";
    } else if f == "location" {
      assert Label(f) == "Location";
    } else if f == "occupation" {
      assert Label(f) == "Occupation";
    } else if f == "partner" {
      assert Label(f) == "Partner";
    } else if f == "email" {
      assert Label(f) == "Email";
    } else if f == "website" {
      assert Label(f) == "Website";
    } else if f == "status" {
      assert Label(f) == "Status";
    } else if f == "type" {
      assert Label(f) == "Type";
    } else if f == "source" {
      assert Label(f) == "Source";
    } else if f == "origin" {
      assert Label(f) == "Origin";
    } else if f == "related" {
      assert Label(f) == "Related";
    } else if f == "started" {
      assert Label(f) == "Started";
    } else if f == "tech" {
      assert Label(f) == "Tech";
    } else if f == "stack" {
      assert Label(f) == "Stack";
    } else if f == "links" {
      assert Label(f) == "Links";
    } else if f == "github" {
      assert Label(f) == "GitHub";
    } else if f == "url" {
      assert Label(f) == "URL";
    } else if f == "coordinates" {
      assert Label(f) == "Coordinates";
    } else if f == "significance" {
      assert Label(f) == "Significance";
    } else if f == "visited" {
      assert Label(f) == "Visited";
    }
  }

  // ---------------------------------------------------------------------------
  // fieldsToDisplay

  /** A row of the table: the field, its label (`caption`) and its value. */
  datatype Row = Row(key: string, caption: string, value: Value)

  /** Values the rows keep: not `undefined`, not `null`, not `''`. */
  predicate Meaningful(v: Value) {
    !IsNullish(v) && v != Str("")
  }

  /** `fields.filter(not image).map(to row).filter(meaningful value)`. */
  function Rows(data: Data, fields: seq<string>): seq<Row>
    decreases |fields|
  {
    if |fields| == 0 then []
    else
      RowFor(data, fields[0]) + Rows(data, fields[1..])
  }

  /** The row of one field, if it is shown. */
  function RowFor(data: Data, f: string): seq<Row> {
    var v := Lookup(data, f);
    if f != "image" && Meaningful(v) then [Row(f, Label(f), v)] else []
  }

  /** `fieldsToDisplay`. */
  function FieldsToDisplay(data: Data, c: Config): seq<Row> {
    Rows(data, c.fields)
  }

  /** The filters keep the fields' order: the rows of two lists of fields are the rows of each. */
  lemma {:induction false} RowsAppend(data: Data, a: seq<string>, b: seq<string>)
    ensures Rows(data, a + b) == Rows(data, a) + Rows(data, b)
    decreases |a|
  {
    if |a| == 0 {
      assert a + b == b;
    } else {
      assert (a + b)[0] == a[0];
      assert (a + b)[1..] == a[1..] + b;
      RowsAppend(data, a[1..], b);
      var h := RowFor(data, a[0]);
      assert Rows(data, a + b) == h + (Rows(data, a[1..]) + Rows(data, b));
      assert h + (Rows(data, a[1..]) + Rows(data, b)) == (h + Rows(data, a[1..])) + Rows(data, b);
    }
  }

  /**
   * A row is shown for a field exactly when it is not `image` and its value
   * is meaningful, with the field's label and its value in the data.
   */
  lemma {:induction false} RowsExactly(data: Data, fields: seq<string>)
    ensures forall r :: r in Rows(data, fields) ==>
      r.key in fields && r.key != "image" && r.caption == Label(r.key) &&
      r.value == Lookup(data, r.key) && Meaningful(r.value)
    ensures forall f :: f in fields && f != "image" && Meaningful(Lookup(data, f)) ==>
      Row(f, Label(f), Lookup(data, f)) in Rows(data, fields)
    decreases |fields|
  {
    if |fields| > 0 {
      RowsExactly(data, fields[1..]);
      assert fields == [fields[0]] + fields[1..];
    }
  }

  // ---------------------------------------------------------------------------
  // formatValue

  /** One element of a formatted array and whether `, ` follows it. */
  datatype Fragment = Fragment(content: Processed, comma: bool)

  /** What `formatValue` renders in a table cell. */
  datatype Cell = Empty | Fragments(items: seq<Fragment>) | Json(text: string) | Single(content: Processed)

  /** `formatValue`; `stringify` stands for `JSON.stringify`. */
  function FormatValue(v: Value, stringify: Value -> string): (c: Cell)
    ensures c.Empty? <==> !Meaningful(v)
    ensures v.Arr? ==> (c.Fragments? && |c.items| == |v.items| &&
      forall i :: 0 <= i < |v.items| ==>
        c.items[i] == Fragment(ProcessedOf(JsString(v.items[i])), i < |v.items| - 1))
    ensures Meaningful(v) && v.Str? ==> c == Single(ProcessedOf(v.s))
  {
    if !Meaningful(v) then Empty
    else
      match v
      case Arr(items) =>
        Fragments(ArrayFragments(items))
      case Obj(_) => Json(stringify(v))
      case _ => Single(ProcessedOf(JsString(v)))
  }

  /** `value.map((v, i) => <>{processWikiLinks(String(v))}{i < value.length - 1 && ', '}</>)`. */
  function ArrayFragments(items: seq<Value>): (r: seq<Fragment>)
    ensures |r| == |items| &&
      forall i :: 0 <= i < |items| ==> r[i] == Fragment(ProcessedOf(JsString(items[i])), i < |items| - 1)
  {
    seq(|items|, i requires 0 <= i < |items| => Fragment(ProcessedOf(JsString(items[i])), i < |items| - 1))
  }

  /** The text a reader sees of a part: a string as it is, an anchor as its display text. */
  function PartText(p: Part): string {
    match p
    case TextPart(t) => t
    case Anchor(_, d) => d
  }

  function PartsText(ps: seq<Part>): string
    decreases |ps|
  {
    if |ps| == 0 then "" else PartText(ps[0]) + PartsText(ps[1..])
  }

  function ProcessedText(p: Processed): string {
    match p
    case Parts(ps) => PartsText(ps)
    case Unchanged(t) => t
  }

  function FragmentsText(fs: seq<Fragment>): string
    decreases |fs|
  {
    if |fs| == 0 then ""
    else ProcessedText(fs[0].content) + (if fs[0].comma then ", " else "") + FragmentsText(fs[1..])
  }

  /** The text a reader sees in a table cell. */
  function CellText(c: Cell): string {
    match c
    case Empty => ""
    case Fragments(fs) => FragmentsText(fs)
    case Json(t) => t
    case Single(p) => ProcessedText(p)
  }

  /** A text holding no wiki link is shown exactly as it is. */
  lemma LinkFreeShown(text: string)
    requires Scan(text, 0) == []
    ensures ProcessedText(ProcessedOf(text)) == text
  {
    ProcessedUnchangedIff(text);
    if text != "" {
      assert PartsText([TextPart(text)]) == text + PartsText([]);
    }
  }

  /** Fragments showing `xs`, each but the last followed by a comma, read as `xs` joined by `, `. */
  lemma {:induction false} FragmentsJoin(fs: seq<Fragment>, xs: seq<string>)
    requires |fs| == |xs|
    requires forall i :: 0 <= i < |fs| ==> ProcessedText(fs[i].content) == xs[i] && fs[i].comma == (i < |fs| - 1)
    ensures FragmentsText(fs) == Join(xs, ", ")
    decreases |fs|
  {
    if |fs| == 1 {
      assert FragmentsText(fs) == xs[0] + "" + FragmentsText(fs[1..]);
    } else if |fs| > 1 {
      forall i | 0 <= i < |fs[1..]|
        ensures ProcessedText(fs[1..][i].content) == xs[1..][i] && fs[1..][i].comma == (i < |fs[1..]| - 1)
      {
        assert fs[1..][i] == fs[i + 1];
      }
      FragmentsJoin(fs[1..], xs[1..]);
    }
  }

  /** `String(v)` of each element. */
  function ElementTexts(items: seq<Value>): (r: seq<string>)
    ensures |r| == |items| && forall i :: 0 <= i < |items| ==> r[i] == JsString(items[i])
  {
    seq(|items|, i requires 0 <= i < |items| => JsString(items[i]))
  }

  /**
   * What a reader sees of a value without wiki links: an array's elements'
   * `String(v)` joined by `, `, an object's JSON, anything else `String(v)`;
   * a missing value shows nothing.
   */
  lemma FormatValueText(v: Value, stringify: Value -> string)
    ensures !Meaningful(v) ==> CellText(FormatValue(v, stringify)) == ""
    ensures Meaningful(v) && v.Arr? && (forall i :: 0 <= i < |v.items| ==> Scan(JsString(v.items[i]), 0) == []) ==>
      CellText(FormatValue(v, stringify)) == Join(ElementTexts(v.items), ", ")
    ensures Meaningful(v) && v.Obj? ==> CellText(FormatValue(v, stringify)) == stringify(v)
    ensures Meaningful(v) && !v.Arr? && !v.Obj? && Scan(JsString(v), 0) == [] ==>
      CellText(FormatValue(v, stringify)) == JsString(v)
  {
    if Meaningful(v) && v.Arr? && forall i :: 0 <= i < |v.items| ==> Scan(JsString(v.items[i]), 0) == [] {
      var fs := ArrayFragments(v.items);
      var xs := ElementTexts(v.items);
      forall i | 0 <= i < |fs| ensures ProcessedText(fs[i].content) == xs[i] && fs[i].comma == (i < |fs| - 1) {
        LinkFreeShown(JsString(v.items[i]));
      }
      FragmentsJoin(fs, xs);
    }
    if Meaningful(v) && !v.Arr? && !v.Obj? && Scan(JsString(v), 0) == [] {
      LinkFreeShown(JsString(v));
    }
  }

  // ---------------------------------------------------------------------------
  // the component

  /** The rendered infobox: the image if truthy, the title, and one row per shown field. */
  datatype Card = Card(image: Value, title: string, rows: seq<Row>, cells: seq<Cell>)

  /** What the component does: throws, renders nothing, or renders a card. */
  datatype Outcome = Throws | Nothing | Box(card: Card)

  /** `InfoBox({ data, title })`. */
  function Render(data: Data, title: string, stringify: Value -> string): Outcome {
    match ContentType(data)
    case None => Throws
    case Some(t) => RenderWith(data, title, SelectConfig(t), stringify)
  }

  /** The component once its configuration is chosen. */
  function RenderWith(data: Data, title: string, c: Config, stringify: Value -> string): Outcome {
    var rows := FieldsToDisplay(data, c);
    var image := Lookup(data, "image");
    if |rows| == 0 && !Truthy(image) then Nothing
    else Box(Card(image, title, rows, Cells(rows, stringify)))
  }

  /** The cells of the rows: `formatValue(value)` for each. */
  function Cells(rows: seq<Row>, stringify: Value -> string): (r: seq<Cell>)
    ensures |r| == |rows| && forall i :: 0 <= i < |rows| ==> r[i] == FormatValue(rows[i].value, stringify)
  {
    seq(|rows|, i requires 0 <= i < |rows| => FormatValue(rows[i].value, stringify))
  }

  /** No row is shown exactly when no field other than `image` has a meaningful value. */
  lemma {:induction false} RowsEmptyIff(data: Data, fields: seq<string>)
    ensures Rows(data, fields) == [] <==>
      forall f :: f in fields && f != "image" ==> !Meaningful(Lookup(data, f))
    decreases |fields|
  {
    if |fields| > 0 {
      RowsEmptyIff(data, fields[1..]);
      var f0 := fields[0];
      assert forall f :: f in fields <==> f == f0 || f in fields[1..];
      if f0 != "image" && Meaningful(Lookup(data, f0)) {
        assert Rows(data, fields) != [];
        assert f0 in fields;
      } else {
        assert Rows(data, fields) == Rows(data, fields[1..]);
      }
    }
  }

  /**
   * Nothing is rendered exactly when no field of the selected configuration
   * other than `image` has a meaningful value and the image is falsy.
   */
  lemma RenderNothingIff(data: Data, title: string, stringify: Value -> string)
    requires ContentType(data).Some?
    ensures var c := SelectConfig(ContentType(data).value);
      Render(data, title, stringify).Nothing? <==>
        !Truthy(Lookup(data, "image")) &&
        forall f :: f in c.fields && f != "image" ==> !Meaningful(Lookup(data, f))
  {
    var c := SelectConfig(ContentType(data).value);
    assert Render(data, title, stringify) == RenderWith(data, title, c, stringify);
    RowsEmptyIff(data, c.fields);
  }

  /** A rendered card has one cell per row, and no cell is empty. */
  lemma CardCells(data: Data, title: string, stringify: Value -> string)
    requires Render(data, title, stringify).Box?
    ensures var card := Render(data, title, stringify).card;
      |card.cells| == |card.rows| &&
      forall i :: 0 <= i < |card.cells| ==> card.cells[i] == FormatValue(card.rows[i].value, stringify) && !card.cells[i].Empty?
  {
    var c := SelectConfig(ContentType(data).value);
    RowsExactly(data, c.fields);
    var card := Render(data, title, stringify).card;
    forall i | 0 <= i < |card.cells|
      ensures !card.cells[i].Empty?
    {
      assert card.rows[i] in card.rows;
    }
  }
}

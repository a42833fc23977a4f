/**
 * The "Page Information" box: one row per front-matter entry whose value is
 * neither `undefined` nor `null`, headed by the key with its first letter
 * upper-cased; no box at all when no entry is left.
 */
module FrontMatter {
  import opened Wrappers
  import opened Text
  import opened Values

  /** One table row: the header cell and the value cell. */
  datatype Row = Row(header: string, cell: string)

  /** The entries whose value is neither `undefined` nor `null`, in order. */
  function Kept(data: Data): (r: Data)
    ensures |r| <= |data|
    decreases |data|
  {
    if |data| == 0 then []
    else
      var pre := Kept(data[..|data| - 1]);
      var e := data[|data| - 1];
      if IsNullish(e.1) then pre else pre + [e]
  }

  /** An entry is kept exactly when it is in the data with a value that is not nullish. */
  lemma {:induction false} KeptMembers(data: Data)
    ensures forall e :: e in Kept(data) <==> e in data && !IsNullish(e.1)
    decreases |data|
  {
    if |data| > 0 {
      var pre := data[..|data| - 1];
      KeptMembers(pre);
      assert forall e :: e in data <==> e in pre || e == data[|data| - 1];
    }
  }

  /** Data without nullish values is kept whole. */
  lemma {:induction false} KeptAll(data: Data)
    requires forall i :: 0 <= i < |data| ==> !IsNullish(data[i].1)
    ensures Kept(data) == data
    decreases |data|
  {
    if |data| > 0 {
      KeptAll(data[..|data| - 1]);
    }
  }

  /** Filtering twice is filtering once. */
  lemma KeptIdempotent(data: Data)
    ensures Kept(Kept(data)) == Kept(data)
  {
    var k := Kept(data);
    KeptMembers(data);
    forall i | 0 <= i < |k| ensures !IsNullish(k[i].1) {
      assert k[i] in k;
    }
    KeptAll(k);
  }

  /** `formatValue`: an array joined with `, `, another object as JSON, anything else as `String(value)`. */
  function FormatValue(v: Value, stringify: Value -> string): string {
    match v
    case Arr(items) => Join(seq(|items|, i requires 0 <= i < |items| => ElementString(items[i])), ", ")
    case Obj(_) => stringify(v)
    case _ => JsString(v)
  }

  /** A string is shown as it is, a number as its decimal digits, an array of strings as their list. */
  lemma FormatValueShows(v: Value, stringify: Value -> string)
    ensures v.Str? ==> FormatValue(v, stringify) == v.s
    ensures v.Num? && v.n >= 0 ==> DecimalValue(FormatValue(v, stringify)) == v.n
    ensures v.Arr? && |v.items| == 1 && !IsNullish(v.items[0]) ==> FormatValue(v, stringify) == JsString(v.items[0])
  {
    if v.Num? && v.n >= 0 {
      NatToStringValue(v.n);
    }
  }

  /** An array of strings is shown as the strings separated by `, `. */
  lemma FormatStrings(xs: seq<string>, stringify: Value -> string)
    ensures FormatValue(Arr(seq(|xs|, i requires 0 <= i < |xs| => Str(xs[i]))), stringify) == Join(xs, ", ")
  {
    var items := seq(|xs|, i requires 0 <= i < |xs| => Str(xs[i]));
    var shown := seq(|items|, i requires 0 <= i < |items| => ElementString(items[i]));
    forall i | 0 <= i < |xs| ensures shown[i] == xs[i] {
      assert items[i] == Str(xs[i]);
      assert ElementString(Str(xs[i])) == xs[i];
    }
    assert shown == xs;
    assert FormatValue(Arr(items), stringify) == Join(shown, ", ");
  }

  /** The header of a key: `key.charAt(0).toUpperCase() + key.slice(1)`. */
  function Header(key: string): (r: string)
    ensures |r| == |key| && (|key| > 0 ==> r[0] == Upper(key[0]) && r[1..] == key[1..])
  {
    Capitalize(key)
  }

  /**
   * A header is left alone by a second capitalisation, and a key that does
   * not start with a lower-case ASCII letter is its own header.
   */
  lemma HeaderFixes(key: string)
    ensures Header(Header(key)) == Header(key)
    ensures |key| == 0 || !IsLowerAscii(key[0]) ==> Header(key) == key
  {
    if |key| > 0 {
      var h := Header(key);
      assert h == [h[0]] + h[1..];
      assert Header(h) == [Upper(h[0])] + h[1..];
      assert key == [key[0]] + key[1..];
    }
  }

  function RowOf(e: (string, Value), stringify: Value -> string): Row {
    Row(Header(e.0), FormatValue(e.1, stringify))
  }

  /** The box: nothing when no entry is kept, else a row per kept entry. */
  function FrontMatterBox(data: Data, stringify: Value -> string): Option<seq<Row>> {
    var entries := Kept(data);
    if |entries| == 0 then None
    else Some(seq(|entries|, i requires 0 <= i < |entries| => RowOf(entries[i], stringify)))
  }

  /** No box is shown exactly when every value is `undefined` or `null`. */
  lemma NoBoxIff(data: Data, stringify: Value -> string)
    ensures FrontMatterBox(data, stringify).None? <==> forall i :: 0 <= i < |data| ==> IsNullish(data[i].1)
  {
    KeptMembers(data);
    if FrontMatterBox(data, stringify).None? {
      forall i | 0 <= i < |data| ensures IsNullish(data[i].1) {
        assert data[i] in data;
      }
    } else {
      var e := Kept(data)[0];
      assert e in Kept(data);
      var i :| 0 <= i < |data| && data[i] == e;
    }
  }

  /**
   * Every entry with a value gets a row with its header and its formatted
   * value, and every row comes from such an entry.
   */
  lemma RowsMatchEntries(data: Data, stringify: Value -> string)
    requires FrontMatterBox(data, stringify).Some?
    ensures var rows := FrontMatterBox(data, stringify).value;
      (forall i :: 0 <= i < |data| && !IsNullish(data[i].1) ==> RowOf(data[i], stringify) in rows) &&
      (forall r :: r in rows ==> exists i :: 0 <= i < |data| && !IsNullish(data[i].1) && r == RowOf(data[i], stringify))
  {
    var entries := Kept(data);
    var rows := FrontMatterBox(data, stringify).value;
    KeptMembers(data);
    forall i | 0 <= i < |data| && !IsNullish(data[i].1) ensures RowOf(data[i], stringify) in rows {
      assert data[i] in entries;
      var k :| 0 <= k < |entries| && entries[k] == data[i];
      assert rows[k] == RowOf(data[i], stringify);
    }
    forall r | r in rows ensures exists i :: 0 <= i < |data| && !IsNullish(data[i].1) && r == RowOf(data[i], stringify) {
      var k :| 0 <= k < |rows| && rows[k] == r;
      assert entries[k] in entries;
      var i :| 0 <= i < |data| && data[i] == entries[k];
    }
  }
}

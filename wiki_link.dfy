/**
 * The wiki-link grammar shared by the remark plugin and the infobox:
 * `[[target]]` or `[[target|alias]]`, where the target is one or more
 * characters other than `]` and `|`, and the alias one or more characters
 * other than `]`. A global scan finds the leftmost match at or after the
 * current position and continues after it, so matches never overlap.
 */
module WikiLink {
  import opened Wrappers

  /** One match: where it starts and ends in the text, and its two groups as written. */
  datatype LinkMatch = LinkMatch(start: nat, end: nat, target: string, alias: Option<string>)

  /** Characters that end the target group. */
  predicate StopsTarget(c: char) {
    c == ']' || c == '|'
  }

  /** Characters that end the alias group. */
  predicate StopsAlias(c: char) {
    c == ']'
  }

  /** The end of the longest run from `i` of characters that `stop` does not hold of. */
  function RunEnd(s: string, i: nat, stop: char -> bool): (r: nat)
    requires i <= |s|
    ensures i <= r <= |s|
    ensures forall j :: i <= j < r ==> !stop(s[j])
    ensures r < |s| ==> stop(s[r])
    decreases |s| - i
  {
    if i == |s| || stop(s[i]) then i else RunEnd(s, i + 1, stop)
  }

  /**
   * The match of `/\[\[([^\]|]+)(?:\|([^\]]+))?\]\]/` starting exactly at `p`.
   * Backtracking cannot shorten either group: a shorter group would be
   * followed by a character that neither `|` nor `]]` can start with, so each
   * group is the longest run of its characters.
   */
  function MatchAt(s: string, p: nat): Option<LinkMatch>
    requires p <= |s|
  {
    if p + 2 > |s| || s[p] != '[' || s[p + 1] != '[' then None
    else
      var q := RunEnd(s, p + 2, StopsTarget);
      if q == p + 2 then None
      else if q + 1 < |s| && s[q] == ']' && s[q + 1] == ']' then
        Some(LinkMatch(p, q + 2, s[p + 2..q], None))
      else if q < |s| && s[q] == '|' then
        var r := RunEnd(s, q + 1, StopsAlias);
        if r > q + 1 && r + 1 < |s| && s[r + 1] == ']' then
          Some(LinkMatch(p, r + 2, s[p + 2..q], Some(s[q + 1..r])))
        else None
      else None
  }

  /** The text of a link with these groups. */
  function LinkText(target: string, alias: Option<string>): string {
    "[[" + target + (if alias.Some? then "|" + alias.value else "") + "]]"
  }

  /** The groups the grammar allows: a target of one or more characters other than `]` and `|`, an alias of one or more other than `]`. */
  predicate ValidGroups(target: string, alias: Option<string>) {
    |target| > 0 && (forall j :: 0 <= j < |target| ==> !StopsTarget(target[j])) &&
    (alias.Some? ==> |alias.value| > 0 && forall j :: 0 <= j < |alias.value| ==> !StopsAlias(alias.value[j]))
  }

  /** `t` is one whole wiki link with these groups. */
  predicate IsLink(t: string, target: string, alias: Option<string>) {
    ValidGroups(target, alias) && t == LinkText(target, alias)
  }

  /** The text a match covers. */
  function MatchText(m: LinkMatch): string {
    LinkText(m.target, m.alias)
  }

  /** The characters of a link text, position by position. */
  lemma LinkTextAt(target: string, alias: Option<string>)
    ensures var t := LinkText(target, alias);
      var q := 2 + |target|;
      |t| == (if alias.Some? then q + 3 + |alias.value| else q + 2) &&
      t[0] == '[' && t[1] == '[' && t[|t| - 2] == ']' && t[|t| - 1] == ']' &&
      (forall j :: 0 <= j < |target| ==> t[2 + j] == target[j]) &&
      t[q] == (if alias.Some? then '|' else ']') &&
      (alias.Some? ==> forall j :: 0 <= j < |alias.value| ==> t[q + 1 + j] == alias.value[j])
  {
  }

  /** Two adjacent slices make one. */
  lemma Slices(s: string, a: nat, b: nat, c: nat)
    requires a <= b <= c <= |s|
    ensures s[a..b] + s[b..c] == s[a..c]
  {
  }

  /** When `w` is written at `i` and a stopping character follows, `w` is the run that starts at `i`. */
  lemma RunOf(s: string, i: nat, w: string, stop: char -> bool)
    requires i + |w| < |s|
    requires forall j :: 0 <= j < |w| ==> s[i + j] == w[j]
    requires forall j :: 0 <= j < |w| ==> !stop(w[j])
    requires stop(s[i + |w|])
    ensures RunEnd(s, i, stop) == i + |w| && s[i..i + |w|] == w
  {
    forall j | i <= j < i + |w| ensures !stop(s[j]) {
      assert s[j] == w[j - i];
    }
    RunEndAt(s, i, i + |w|, stop);
  }

  /** A slice is equal to a string when their characters agree. */
  lemma SliceIs(s: string, a: nat, t: string)
    requires a + |t| <= |s|
    requires forall j :: 0 <= j < |t| ==> s[a + j] == t[j]
    ensures s[a..a + |t|] == t
  {
  }

  /** Every match found is a whole link written at that place in the text. */
  lemma MatchAtSound(s: string, p: nat)
    requires p <= |s| && MatchAt(s, p).Some?
    ensures var m := MatchAt(s, p).value;
      m.start == p && p < m.end <= |s| && IsLink(s[p..m.end], m.target, m.alias)
  {
    var m := MatchAt(s, p).value;
    MatchWrites(s, p);
    WrittenLink(s, p, m.target, m.alias);
  }

  /** A match is its groups written at its start, and covers exactly their link text. */
  lemma MatchWrites(s: string, p: nat)
    requires p <= |s| && MatchAt(s, p).Some?
    ensures var m := MatchAt(s, p).value;
      ValidGroups(m.target, m.alias) && WrittenAt(s, p, m.target, m.alias) &&
      m.start == p && m.end == p + LinkLength(m.target, m.alias)
  {
    var m := MatchAt(s, p).value;
    var q := RunEnd(s, p + 2, StopsTarget);
    assert m.target == s[p + 2..q];
    assert forall j :: 0 <= j < |m.target| ==> s[p + 2 + j] == m.target[j];
    if m.alias.Some? {
      var r := RunEnd(s, q + 1, StopsAlias);
      assert m.alias.value == s[q + 1..r];
      assert forall j :: 0 <= j < |m.alias.value| ==> s[q + 1 + j] == m.alias.value[j];
    }
  }

  /** Characters written in place spell out the link text. */
  lemma WrittenLink(s: string, p: nat, target: string, alias: Option<string>)
    requires WrittenAt(s, p, target, alias)
    ensures s[p..p + LinkLength(target, alias)] == LinkText(target, alias)
  {
    var q := p + 2 + |target|;
    SliceIs(s, p + 2, target);
    assert s[p..p + 2] == "[[";
    Slices(s, p, p + 2, q);
    if alias.Some? {
      WrittenAlias(s, p, target, alias.value);
    } else {
      WrittenTail(s, p, q, "]]");
      assert LinkText(target, alias) == "[[" + target + "]]";
    }
  }

  /** `s[p..q]` followed by the characters of `t` is one slice. */
  lemma WrittenTail(s: string, p: nat, q: nat, t: string)
    requires p <= q && q + |t| <= |s| && forall j :: 0 <= j < |t| ==> s[q + j] == t[j]
    ensures s[p..q + |t|] == s[p..q] + t
  {
    SliceIs(s, q, t);
    Slices(s, p, q, q + |t|);
  }

  lemma WrittenAlias(s: string, p: nat, target: string, alias: string)
    requires WrittenAt(s, p, target, Some(alias)) && s[p..p + 2 + |target|] == "[[" + target
    ensures s[p..p + LinkLength(target, Some(alias))] == LinkText(target, Some(alias))
  {
    var q := p + 2 + |target|;
    var t := "|" + alias + "]]";
    forall j | 0 <= j < |t| ensures s[q + j] == t[j] {
      if 1 <= j <= |alias| {
        assert t[j] == alias[j - 1];
      }
    }
    WrittenTail(s, p, q, t);
    assert LinkText(target, Some(alias)) == "[[" + target + t;
  }

  /** What a match covers is its link text. */
  lemma MatchAtText(s: string, p: nat)
    requires p <= |s| && MatchAt(s, p).Some?
    ensures var m := MatchAt(s, p).value;
      m.start == p && p < m.end <= |s| && MatchText(m) == s[p..m.end]
  {
    MatchAtSound(s, p);
  }

  /** A whole link written at `p` is exactly what is matched there: no other reading of it exists. */
  lemma MatchAtComplete(s: string, p: nat, t: string, target: string, alias: Option<string>)
    requires p + |t| <= |s| && s[p..p + |t|] == t && IsLink(t, target, alias)
    ensures MatchAt(s, p) == Some(LinkMatch(p, p + |t|, target, alias))
  {
    LinkWritten(s, p, t, target, alias);
    MatchWritten(s, p, target, alias);
  }

  /** The length of a link text with these groups. */
  function LinkLength(target: string, alias: Option<string>): nat {
    |target| + 4 + (if alias.Some? then 1 + |alias.value| else 0)
  }

  /** The characters of a link with these groups stand in `s` from `p` on. */
  predicate WrittenAt(s: string, p: nat, target: string, alias: Option<string>) {
    var q := p + 2 + |target|;
    var e := p + LinkLength(target, alias);
    e <= |s| && s[p] == '[' && s[p + 1] == '[' &&
    (forall j :: 0 <= j < |target| ==> s[p + 2 + j] == target[j]) &&
    s[q] == (if alias.Some? then '|' else ']') &&
    (alias.Some? ==> forall j :: 0 <= j < |alias.value| ==> s[q + 1 + j] == alias.value[j]) &&
    s[e - 2] == ']' && s[e - 1] == ']'
  }

  lemma LinkWritten(s: string, p: nat, t: string, target: string, alias: Option<string>)
    requires p + |t| <= |s| && s[p..p + |t|] == t && t == LinkText(target, alias)
    ensures |t| == LinkLength(target, alias) && WrittenAt(s, p, target, alias)
  {
    LinkTextAt(target, alias);
    assert forall j :: 0 <= j < |t| ==> s[p + j] == t[j];
    var q := p + 2 + |target|;
    forall j | 0 <= j < |target| ensures s[p + 2 + j] == target[j] {
      assert s[p + 2 + j] == t[2 + j];
    }
    assert s[q] == t[q - p];
    if alias.Some? {
      forall j | 0 <= j < |alias.value| ensures s[q + 1 + j] == alias.value[j] {
        assert s[q + 1 + j] == t[q - p + 1 + j];
      }
    }
    assert s[p + |t| - 2] == t[|t| - 2] && s[p + |t| - 1] == t[|t| - 1];
  }

  lemma MatchWritten(s: string, p: nat, target: string, alias: Option<string>)
    requires ValidGroups(target, alias) && WrittenAt(s, p, target, alias)
    ensures MatchAt(s, p) == Some(LinkMatch(p, p + LinkLength(target, alias), target, alias))
  {
    var q := p + 2 + |target|;
    RunOf(s, p + 2, target, StopsTarget);
    if alias.None? {
      MatchAtPlain(s, p, q);
    } else {
      RunOf(s, q + 1, alias.value, StopsAlias);
      MatchAtAliased(s, p, q, q + 1 + |alias.value|);
    }
  }

  lemma MatchAtPlain(s: string, p: nat, q: nat)
    requires p + 2 < q && q + 1 < |s| && s[p] == '[' && s[p + 1] == '['
    requires RunEnd(s, p + 2, StopsTarget) == q && s[q] == ']' && s[q + 1] == ']'
    ensures MatchAt(s, p) == Some(LinkMatch(p, q + 2, s[p + 2..q], None))
  {
  }

  lemma MatchAtAliased(s: string, p: nat, q: nat, r: nat)
    requires p + 2 < q && q + 1 < r && r + 1 < |s| && s[p] == '[' && s[p + 1] == '['
    requires RunEnd(s, p + 2, StopsTarget) == q && s[q] == '|'
    requires RunEnd(s, q + 1, StopsAlias) == r && s[r + 1] == ']'
    ensures MatchAt(s, p) == Some(LinkMatch(p, r + 2, s[p + 2..q], Some(s[q + 1..r])))
  {
  }

  /** `RunEnd` stops at the first stopping character. */
  lemma {:induction false} RunEndAt(s: string, i: nat, r: nat, stop: char -> bool)
    requires i <= r < |s|
    requires forall j :: i <= j < r ==> !stop(s[j])
    requires stop(s[r])
    ensures RunEnd(s, i, stop) == r
    decreases r - i
  {
    if i < r {
      RunEndAt(s, i + 1, r, stop);
    }
  }

  /** `regex.exec(text)` with `lastIndex == from`: the leftmost match starting at or after `from`. */
  function NextMatch(s: string, from: nat): (r: Option<LinkMatch>)
    requires from <= |s|
    ensures r.Some? ==> from <= r.value.start < r.value.end <= |s|
    decreases |s| - from
  {
    match MatchAt(s, from)
    case Some(m) => MatchAdvances(s, from); Some(m)
    case None => if from == |s| then None else NextMatch(s, from + 1)
  }

  /** The match `exec` returns is the one at its start, and no match starts between `from` and it. */
  lemma {:induction false} NextMatchLeftmost(s: string, from: nat)
    requires from <= |s|
    ensures var r := NextMatch(s, from);
      (r.Some? ==> MatchAt(s, r.value.start) == r && forall p :: from <= p < r.value.start ==> MatchAt(s, p).None?) &&
      (r.None? ==> forall p :: from <= p <= |s| ==> MatchAt(s, p).None?)
    decreases |s| - from
  {
    if MatchAt(s, from).None? && from < |s| {
      NextMatchLeftmost(s, from + 1);
    }
  }

  /** What the match `exec` returns covers is its link text. */
  lemma NextMatchText(s: string, from: nat)
    requires from <= |s| && NextMatch(s, from).Some?
    ensures var m := NextMatch(s, from).value; MatchText(m) == s[m.start..m.end]
  {
    NextMatchLeftmost(s, from);
    MatchAtText(s, NextMatch(s, from).value.start);
  }

  lemma MatchAdvances(s: string, p: nat)
    requires p <= |s| && MatchAt(s, p).Some?
    ensures var m := MatchAt(s, p).value; m.start == p < m.end <= |s|
  {
  }

  /** A piece of a text run: plain text, or one wiki link with its groups. */
  datatype Piece = Plain(text: string) | Wiki(m: LinkMatch)

  /** The text between two positions as a piece list: nothing when it is empty. */
  function Gap(s: string, a: nat, b: nat): (r: seq<Piece>)
    requires a <= b <= |s|
    ensures |r| <= 1 && (r != [] <==> a < b)
  {
    if a < b then [Plain(s[a..b])] else []
  }

  /** The pieces the scan loop produces from `from` on: text before each match, then the match. */
  function Scan(s: string, from: nat): seq<Piece>
    requires from <= |s|
    decreases |s| - from
  {
    match NextMatch(s, from)
    case None => []
    case Some(m) => Gap(s, from, m.start) + [Wiki(m)] + Scan(s, m.end)
  }

  /** Where the scan from `from` stops: just after the last match, or `from` if there is none. */
  function ScanEnd(s: string, from: nat): (r: nat)
    requires from <= |s|
    ensures from <= r <= |s|
    decreases |s| - from
  {
    match NextMatch(s, from)
    case None => from
    case Some(m) => ScanEnd(s, m.end)
  }

  /** All pieces of a text: the scan from the start, then the text after the last match. */
  function Pieces(s: string): seq<Piece> {
    Scan(s, 0) + Gap(s, ScanEnd(s, 0), |s|)
  }

  /** The text a piece stands for in the source text. */
  function Raw(p: Piece): string {
    match p
    case Plain(t) => t
    case Wiki(m) => MatchText(m)
  }

  function Concat(ps: seq<Piece>): string
    decreases |ps|
  {
    if |ps| == 0 then "" else Raw(ps[0]) + Concat(ps[1..])
  }

  lemma {:induction false} ConcatAppend(a: seq<Piece>, b: seq<Piece>)
    ensures Concat(a + b) == Concat(a) + Concat(b)
    decreases |a|
  {
    if |a| == 0 {
      assert a + b == b;
    } else {
      assert (a + b)[1..] == a[1..] + b;
      ConcatAppend(a[1..], b);
    }
  }

  /** The pieces of the scan spell out the text they were found in. */
  lemma {:induction false} ScanSpellsText(s: string, from: nat)
    requires from <= |s|
    ensures Concat(Scan(s, from)) == s[from..ScanEnd(s, from)]
    decreases |s| - from
  {
    match NextMatch(s, from)
    case None =>
    case Some(m) =>
      NextMatchText(s, from);
      ScanSpellsText(s, m.end);
      var g := Gap(s, from, m.start);
      ConcatAppend(g + [Wiki(m)], Scan(s, m.end));
      ConcatAppend(g, [Wiki(m)]);
      assert Concat([Wiki(m)]) == MatchText(m);
      assert Concat(g) == s[from..m.start];
      Slices(s, from, m.start, m.end);
      Slices(s, from, m.end, ScanEnd(s, m.end));
  }

  /** Text pieces interleaved with the matched link texts give back the original text exactly. */
  lemma PiecesSpellText(s: string)
    ensures Concat(Pieces(s)) == s
  {
    ScanSpellsText(s, 0);
    var e := ScanEnd(s, 0);
    ConcatAppend(Scan(s, 0), Gap(s, e, |s|));
    assert Concat(Gap(s, e, |s|)) == s[e..|s|];
    Slices(s, 0, e, |s|);
    assert s[0..|s|] == s;
  }

  /** No plain piece is empty, and no two plain pieces are adjacent. */
  predicate WellSpaced(ps: seq<Piece>) {
    (forall i :: 0 <= i < |ps| && ps[i].Plain? ==> ps[i].text != "") &&
    (forall i :: 0 <= i < |ps| - 1 && ps[i].Plain? ==> ps[i + 1].Wiki?)
  }

  lemma {:induction false} ScanWellSpaced(s: string, from: nat)
    requires from <= |s|
    ensures WellSpaced(Scan(s, from))
    ensures Scan(s, from) != [] ==> Scan(s, from)[|Scan(s, from)| - 1].Wiki?
    decreases |s| - from
  {
    match NextMatch(s, from)
    case None =>
    case Some(m) =>
      ScanWellSpaced(s, m.end);
      var g := Gap(s, from, m.start);
      var rest := Scan(s, m.end);
      var ps := Scan(s, from);
      assert ps == g + [Wiki(m)] + rest;
      forall i | 0 <= i < |ps|
        ensures (ps[i].Plain? ==> ps[i].text != "") && (i < |ps| - 1 && ps[i].Plain? ==> ps[i + 1].Wiki?)
      {
        if i > |g| {
          assert ps[i] == rest[i - |g| - 1];
          if i < |ps| - 1 { assert ps[i + 1] == rest[i - |g|]; }
        }
      }
  }

  /** The pieces of a text have no empty text piece and never two text pieces in a row. */
  lemma PiecesWellSpaced(s: string)
    ensures WellSpaced(Pieces(s))
  {
    ScanWellSpaced(s, 0);
  }

  /** The scan finds nothing exactly when no link starts anywhere in the text. */
  lemma ScanEmpty(s: string, from: nat)
    requires from <= |s|
    ensures Scan(s, from) == [] <==> forall p :: from <= p <= |s| ==> MatchAt(s, p).None?
  {
    NextMatchLeftmost(s, from);
    if NextMatch(s, from).Some? {
      assert MatchAt(s, NextMatch(s, from).value.start).Some?;
    }
  }

  /**
   * The links of the scan in order: each starts at or after the end of the
   * previous one, and no link starts in the text between them.
   */
  lemma {:induction false} ScanLeftmost(s: string, from: nat, i: nat)
    requires from <= |s| && i < |Scan(s, from)| && Scan(s, from)[i].Wiki?
    ensures var m := Scan(s, from)[i].m;
      from <= m.start < m.end <= ScanEnd(s, from) && MatchAt(s, m.start) == Some(m)
    decreases |s| - from
  {
    match NextMatch(s, from)
    case None =>
    case Some(m) =>
      var g := Gap(s, from, m.start);
      var rest := Scan(s, m.end);
      assert Scan(s, from) == g + [Wiki(m)] + rest;
      if i == |g| {
        NextMatchFound(s, from);
      } else if i > |g| {
        assert Scan(s, from)[i] == rest[i - |g| - 1];
        ScanLeftmost(s, m.end, i - |g| - 1);
      }
  }

  /** The match `exec` returns is the match at its start. */
  lemma NextMatchFound(s: string, from: nat)
    requires from <= |s| && NextMatch(s, from).Some?
    ensures MatchAt(s, NextMatch(s, from).value.start) == NextMatch(s, from)
  {
    NextMatchLeftmost(s, from);
  }

  /** The links of the scan do not overlap and come in text order. */
  lemma {:induction false} ScanOrdered(s: string, from: nat, i: nat, j: nat)
    requires from <= |s| && i < j < |Scan(s, from)|
    requires Scan(s, from)[i].Wiki? && Scan(s, from)[j].Wiki?
    ensures Scan(s, from)[i].m.end <= Scan(s, from)[j].m.start
    decreases |s| - from
  {
    ScanAt(s, from, i);
    ScanAt(s, from, j);
    var m := NextMatch(s, from).value;
    var n := |Gap(s, from, m.start)|;
    var later := Scan(s, m.end)[j - n - 1];
    assert Scan(s, from)[j] == later;
    if i == n {
      ScanLeftmost(s, m.end, j - n - 1);
      assert m.end <= later.m.start;
    } else {
      ScanOrdered(s, m.end, i - n - 1, j - n - 1);
    }
  }

  /** Where a piece of the scan comes from: the text before the first match, that match, or the scan after it. */
  lemma ScanAt(s: string, from: nat, i: nat)
    requires from <= |s| && i < |Scan(s, from)|
    ensures NextMatch(s, from).Some?
    ensures var m := NextMatch(s, from).value;
      var n := |Gap(s, from, m.start)|;
      (i < n ==> Scan(s, from)[i].Plain?) &&
      (i == n ==> Scan(s, from)[i] == Wiki(m)) &&
      (i > n ==> i - n - 1 < |Scan(s, m.end)| && Scan(s, from)[i] == Scan(s, m.end)[i - n - 1])
  {
    var m := NextMatch(s, from).value;
    assert Scan(s, from) == Gap(s, from, m.start) + [Wiki(m)] + Scan(s, m.end);
  }

  /** One turn of the scan loop: the text before the match, the match, then the scan after it. */
  lemma ScanUnfold(s: string, from: nat)
    requires from <= |s| && NextMatch(s, from).Some?
    ensures var m := NextMatch(s, from).value;
      Scan(s, from) == Gap(s, from, m.start) + [Wiki(m)] + Scan(s, m.end) &&
      ScanEnd(s, from) == ScanEnd(s, m.end)
  {
  }

  /**
   * One turn of the scan loop: if the pieces so far followed by the scan
   * from `from` spell the whole scan, then so do the pieces with the next
   * gap and match added, followed by the scan from the end of that match.
   */
  lemma ScanAdvance(s: string, from: nat, done: seq<Piece>)
    requires from <= |s| && NextMatch(s, from).Some?
    requires Scan(s, 0) == done + Scan(s, from) && ScanEnd(s, 0) == ScanEnd(s, from)
    ensures var m := NextMatch(s, from).value;
      Scan(s, 0) == (done + (Gap(s, from, m.start) + [Wiki(m)])) + Scan(s, m.end) &&
      ScanEnd(s, 0) == ScanEnd(s, m.end)
  {
    ScanUnfold(s, from);
    var m := NextMatch(s, from).value;
    var step := Gap(s, from, m.start) + [Wiki(m)];
    assert done + (step + Scan(s, m.end)) == (done + step) + Scan(s, m.end);
  }

  /** The scan loop stops where `exec` finds nothing more. */
  lemma ScanStops(s: string, from: nat)
    requires from <= |s| && NextMatch(s, from).None?
    ensures Scan(s, from) == [] && ScanEnd(s, from) == from
  {
  }
}

/** Option type used for the source's `null` / `undefined` results. */
module Wrappers {
  datatype Option<+T> = None | Some(value: T)
}

/**
 * The string helpers the pipeline uses, written out for the subset of
 * JavaScript's string and regular-expression behaviour that the core relies
 * on. Case mapping is ASCII only; `\s` and `trim()` use ECMAScript's exact
 * whitespace set.
 */
module Text {

  /** ECMAScript `\s` (WhiteSpace and LineTerminator), also the set `trim()` removes. */
  predicate IsSpace(c: char) {
    c == ' ' || c == '\t' || c == '\n' || c == '\U{000B}' || c == '\U{000C}' || c == '\r'
    || c == '\U{00A0}' || c == '\U{1680}' || ('\U{2000}' <= c <= '\U{200A}')
    || c == '\U{2028}' || c == '\U{2029}' || c == '\U{202F}' || c == '\U{205F}'
    || c == '\U{3000}' || c == '\U{FEFF}'
  }

  /** `\w`: ASCII letters, digits and underscore. */
  predicate IsWordChar(c: char) {
    ('a' <= c <= 'z') || ('A' <= c <= 'Z') || ('0' <= c <= '9') || c == '_'
  }

  predicate IsUpperAscii(c: char) { 'A' <= c <= 'Z' }

  predicate IsLowerAscii(c: char) { 'a' <= c <= 'z' }

  function Lower(c: char): (r: char)
    ensures !IsUpperAscii(r)
    ensures IsUpperAscii(c) ==> r as int == c as int + 32
    ensures !IsUpperAscii(c) ==> r == c
  {
    if IsUpperAscii(c) then (c as int + 32) as char else c
  }

  function Upper(c: char): (r: char)
    ensures !IsLowerAscii(r)
    ensures IsLowerAscii(c) ==> r as int == c as int - 32
    ensures !IsLowerAscii(c) ==> r == c
  {
    if IsLowerAscii(c) then (c as int - 32) as char else c
  }

  /** `toLowerCase()`, restricted to ASCII. */
  function LowerStr(s: string): (r: string)
    ensures |r| == |s|
    ensures forall i :: 0 <= i < |s| ==> r[i] == Lower(s[i])
  {
    seq(|s|, i requires 0 <= i < |s| => Lower(s[i]))
  }

  lemma LowerStrIdempotent(s: string)
    ensures LowerStr(LowerStr(s)) == LowerStr(s)
  {
  }

  /** `charAt(0).toUpperCase() + slice(1)`. */
  function Capitalize(w: string): (r: string)
    ensures |r| == |w|
    ensures |w| > 0 ==> r[0] == Upper(w[0]) && r[1..] == w[1..]
  {
    if |w| == 0 then w else [Upper(w[0])] + w[1..]
  }

  predicate StartsWith(s: string, p: string) {
    |p| <= |s| && s[..|p|] == p
  }

  predicate EndsWith(s: string, p: string) {
    |p| <= |s| && s[|s| - |p|..] == p
  }

  predicate Contains(s: string, c: char) {
    exists i :: 0 <= i < |s| && s[i] == c
  }

  predicate NoSpace(s: string) {
    forall i :: 0 <= i < |s| ==> !IsSpace(s[i])
  }

  /** `s.replace(/\.md$/, '')`: the content extension removed from the end, if present. */
  function StripMd(s: string): (r: string)
    ensures EndsWith(s, ".md") ==> r + ".md" == s
    ensures !EndsWith(s, ".md") ==> r == s
  {
    if EndsWith(s, ".md") then s[..|s| - 3] else s
  }

  // ---------------------------------------------------------------------------
  // split / join

  /** `s.split(c)` for a single-character separator: never empty, separators dropped. */
  function Split(s: string, c: char): (r: seq<string>)
    ensures |r| >= 1
    decreases |s|
  {
    if |s| == 0 then [""]
    else
      var rest := Split(s[1..], c);
      if s[0] == c then [""] + rest else [[s[0]] + rest[0]] + rest[1..]
  }

  /** `xs.join(sep)`. */
  function Join(xs: seq<string>, sep: string): string
    decreases |xs|
  {
    if |xs| == 0 then ""
    else if |xs| == 1 then xs[0]
    else xs[0] + sep + Join(xs[1..], sep)
  }

  lemma {:induction false} SplitPartsHaveNoSeparator(s: string, c: char)
    ensures forall k :: 0 <= k < |Split(s, c)| ==> !Contains(Split(s, c)[k], c)
    decreases |s|
  {
    if |s| > 0 {
      SplitPartsHaveNoSeparator(s[1..], c);
      var rest := Split(s[1..], c);
      if s[0] != c {
        var head := [s[0]] + rest[0];
        assert !Contains(rest[0], c);
        forall i | 0 <= i < |head| ensures head[i] != c {
          if i > 0 { assert head[i] == rest[0][i - 1]; }
        }
      }
    }
  }

  /** Joining the parts of a split gives back the string. */
  lemma {:induction false} JoinSplit(s: string, c: char)
    ensures Join(Split(s, c), [c]) == s
    decreases |s|
  {
    if |s| > 0 {
      JoinSplit(s[1..], c);
      var rest := Split(s[1..], c);
      if s[0] == c {
        assert Split(s, c) == [""] + rest;
        if |rest| == 1 {
          assert Join([""] + rest, [c]) == "" + [c] + rest[0];
        } else {
          assert ([""] + rest)[1..] == rest;
        }
      } else {
        var parts := [[s[0]] + rest[0]] + rest[1..];
        assert Split(s, c) == parts;
        if |rest| == 1 {
          assert Join(parts, [c]) == [s[0]] + rest[0];
        } else {
          assert parts[1..] == rest[1..];
          assert Join(rest, [c]) == rest[0] + [c] + Join(rest[1..], [c]);
          assert Join(parts, [c]) == [s[0]] + rest[0] + [c] + Join(rest[1..], [c]);
        }
      }
    }
  }

  lemma {:induction false} SplitNoSeparator(s: string, c: char)
    requires !Contains(s, c)
    ensures Split(s, c) == [s]
    decreases |s|
  {
    if |s| > 0 {
      assert !Contains(s[1..], c) by {
        forall i | 0 <= i < |s[1..]| ensures s[1..][i] != c { assert s[1..][i] == s[i + 1]; }
      }
      SplitNoSeparator(s[1..], c);
      assert s[0] != c;
      assert [s[0]] + s[1..] == s;
    }
  }

  /** Splitting `a + [c] + b` splits `a` and `b` independently when `a` has no separator. */
  lemma {:induction false} SplitAt(a: string, b: string, c: char)
    requires !Contains(a, c)
    ensures Split(a + [c] + b, c) == [a] + Split(b, c)
    decreases |a|
  {
    if |a| == 0 {
      assert a + [c] + b == [c] + b;
      assert ([c] + b)[1..] == b;
    } else {
      var s := a + [c] + b;
      assert s[0] == a[0] && s[0] != c;
      assert !Contains(a[1..], c) by {
        forall i | 0 <= i < |a[1..]| ensures a[1..][i] != c { assert a[1..][i] == a[i + 1]; }
      }
      assert s[1..] == a[1..] + [c] + b;
      SplitAt(a[1..], b, c);
      assert [a[0]] + a[1..] == a;
    }
  }

  /** Splitting a join undoes it, when no part contains the separator. */
  lemma {:induction false} SplitJoin(xs: seq<string>, c: char)
    requires |xs| >= 1
    requires forall k :: 0 <= k < |xs| ==> !Contains(xs[k], c)
    ensures Split(Join(xs, [c]), c) == xs
    decreases |xs|
  {
    if |xs| == 1 {
      SplitNoSeparator(xs[0], c);
    } else {
      SplitJoin(xs[1..], c);
      SplitAt(xs[0], Join(xs[1..], [c]), c);
      assert [xs[0]] + xs[1..] == xs;
    }
  }

  lemma {:induction false} JoinAppend(xs: seq<string>, y: string, sep: string)
    requires |xs| >= 1
    ensures Join(xs + [y], sep) == Join(xs, sep) + sep + y
    decreases |xs|
  {
    if |xs| == 1 {
      assert xs + [y] == [xs[0], y];
    } else {
      assert (xs + [y])[1..] == xs[1..] + [y];
      JoinAppend(xs[1..], y, sep);
    }
  }

  // ---------------------------------------------------------------------------
  // trim

  function TrimStart(s: string): (r: string)
    ensures |r| <= |s| && r == s[|s| - |r|..]
    ensures |r| > 0 ==> !IsSpace(r[0])
    ensures forall i :: 0 <= i < |s| - |r| ==> IsSpace(s[i])
    decreases |s|
  {
    if |s| > 0 && IsSpace(s[0]) then TrimStart(s[1..]) else s
  }

  function TrimEnd(s: string): (r: string)
    ensures |r| <= |s| && r == s[..|r|]
    ensures |r| > 0 ==> !IsSpace(r[|r| - 1])
    ensures forall i :: |r| <= i < |s| ==> IsSpace(s[i])
    decreases |s|
  {
    if |s| > 0 && IsSpace(s[|s| - 1]) then TrimEnd(s[..|s| - 1]) else s
  }

  /** `s.trim()`: leading and trailing whitespace removed. */
  function Trim(s: string): string {
    TrimEnd(TrimStart(s))
  }

  /** The result of `trim()` neither starts nor ends with whitespace, and trimming again changes nothing. */
  lemma TrimTrimmed(s: string)
    ensures var t := Trim(s); (|t| > 0 ==> !IsSpace(t[0]) && !IsSpace(t[|t| - 1])) && Trim(t) == t
  {
    var t := Trim(s);
    var u := TrimStart(s);
    if |t| > 0 {
      assert t[0] == u[0];
    }
  }

  /** Lower-casing a trimmed string leaves it trimmed: case mapping never makes or removes whitespace. */
  lemma LowerKeepsTrimmed(t: string)
    requires Trim(t) == t
    ensures Trim(LowerStr(t)) == LowerStr(t)
  {
    TrimTrimmed(t);
    var u := LowerStr(t);
    if |u| > 0 {
      assert !IsSpace(u[0]) && !IsSpace(u[|u| - 1]);
      var st := TrimStart(u);
      assert |st| == |u|;
      assert st == u;
      assert |TrimEnd(u)| == |u|;
    }
  }

  /** Trimming keeps any property every character of `s` has. */
  lemma TrimKeeps(s: string, q: char -> bool)
    requires forall i :: 0 <= i < |s| ==> q(s[i])
    ensures forall i :: 0 <= i < |Trim(s)| ==> q(Trim(s)[i])
  {
    var u := TrimStart(s);
    var t := TrimEnd(u);
    forall i | 0 <= i < |t| ensures q(t[i]) {
      assert t[i] == u[i];
      assert u[i] == s[|s| - |u| + i];
    }
  }

  lemma TrimNoSpace(s: string)
    requires NoSpace(s)
    ensures Trim(s) == s
  {
  }

  // ---------------------------------------------------------------------------
  // deletion: s.replace(/[^X]/g, '')

  /** The characters of `s` that satisfy `p`, in order: every other character deleted. */
  function Filter(s: string, p: char -> bool): (r: string)
    ensures |r| <= |s|
    ensures forall i :: 0 <= i < |r| ==> p(r[i])
    decreases |s|
  {
    if |s| == 0 then ""
    else (if p(s[0]) then [s[0]] else "") + Filter(s[1..], p)
  }

  /** Deleting characters keeps any property every character of `s` has. */
  lemma {:induction false} FilterKeeps(s: string, p: char -> bool, q: char -> bool)
    requires forall i :: 0 <= i < |s| ==> q(s[i])
    ensures forall i :: 0 <= i < |Filter(s, p)| ==> q(Filter(s, p)[i])
    decreases |s|
  {
    if |s| > 0 {
      assert forall i :: 0 <= i < |s[1..]| ==> q(s[1..][i]) by {
        forall i | 0 <= i < |s[1..]| ensures q(s[1..][i]) { assert s[1..][i] == s[i + 1]; }
      }
      FilterKeeps(s[1..], p, q);
      var head := if p(s[0]) then [s[0]] else "";
      var t := Filter(s[1..], p);
      forall i | 0 <= i < |head + t| ensures q((head + t)[i]) {
        if i >= |head| {
          assert (head + t)[i] == t[i - |head|];
        }
      }
    }
  }

  /** When every character satisfies `p`, nothing is deleted. */
  lemma {:induction false} FilterAll(s: string, p: char -> bool)
    requires forall i :: 0 <= i < |s| ==> p(s[i])
    ensures Filter(s, p) == s
    decreases |s|
  {
    if |s| > 0 {
      FilterAll(s[1..], p);
      assert [s[0]] + s[1..] == s;
    }
  }

  // ---------------------------------------------------------------------------
  // run replacement: s.replace(/X+/g, rep)

  /** Drops the leading characters satisfying `p`. */
  function DropRun(s: string, p: char -> bool): (r: string)
    ensures |r| <= |s| && r == s[|s| - |r|..]
    ensures |r| > 0 ==> !p(r[0])
    decreases |s|
  {
    if |s| > 0 && p(s[0]) then DropRun(s[1..], p) else s
  }

  /** `s.replace(/[p]+/g, rep)`: every maximal run of characters satisfying `p` becomes one `rep`. */
  function ReplaceRuns(s: string, p: char -> bool, rep: char): (r: string)
    decreases |s|
  {
    if |s| == 0 then ""
    else if p(s[0]) then [rep] + ReplaceRuns(DropRun(s, p), p, rep)
    else [s[0]] + ReplaceRuns(s[1..], p, rep)
  }

  lemma {:induction false} ReplaceRunsRemoves(s: string, p: char -> bool, rep: char)
    requires !p(rep)
    ensures forall i :: 0 <= i < |ReplaceRuns(s, p, rep)| ==> !p(ReplaceRuns(s, p, rep)[i])
    decreases |s|
  {
    if |s| > 0 {
      if p(s[0]) {
        ReplaceRunsRemoves(DropRun(s, p), p, rep);
      } else {
        ReplaceRunsRemoves(s[1..], p, rep);
      }
    }
  }

  lemma {:induction false} ReplaceRunsIdentity(s: string, p: char -> bool, rep: char)
    requires forall i :: 0 <= i < |s| ==> !p(s[i])
    ensures ReplaceRuns(s, p, rep) == s
    decreases |s|
  {
    if |s| > 0 {
      ReplaceRunsIdentity(s[1..], p, rep);
      assert [s[0]] + s[1..] == s;
    }
  }

  /**
   * A property `q` that `rep` has and that every character of `s` outside
   * the runs has, every character of the result has; and each character of
   * the result is `rep` or does not satisfy `p`.
   */
  predicate KeepsAt(r: string, i: nat, p: char -> bool, rep: char, q: char -> bool)
    requires i < |r|
  {
    q(r[i]) && (r[i] == rep || !p(r[i]))
  }

  lemma {:induction false} ReplaceRunsKeeps(s: string, p: char -> bool, rep: char, q: char -> bool)
    requires q(rep)
    requires forall i :: 0 <= i < |s| && !p(s[i]) ==> q(s[i])
    ensures forall i :: 0 <= i < |ReplaceRuns(s, p, rep)| ==> KeepsAt(ReplaceRuns(s, p, rep), i, p, rep, q)
    decreases |s|
  {
    if |s| > 0 {
      var d := if p(s[0]) then DropRun(s, p) else s[1..];
      SuffixKeeps(s, d, p, q);
      ReplaceRunsKeeps(d, p, rep, q);
      if p(s[0]) {
        KeepsCons(rep, ReplaceRuns(d, p, rep), p, rep, q);
      } else {
        KeepsCons(s[0], ReplaceRuns(d, p, rep), p, rep, q);
      }
    }
  }

  lemma SuffixKeeps(s: string, d: string, p: char -> bool, q: char -> bool)
    requires |d| <= |s| && d == s[|s| - |d|..]
    requires forall i :: 0 <= i < |s| && !p(s[i]) ==> q(s[i])
    ensures forall i :: 0 <= i < |d| && !p(d[i]) ==> q(d[i])
  {
    forall i | 0 <= i < |d| && !p(d[i]) ensures q(d[i]) {
      assert d[i] == s[|s| - |d| + i];
    }
  }

  lemma KeepsCons(c: char, rd: string, p: char -> bool, rep: char, q: char -> bool)
    requires q(c) && (c == rep || !p(c))
    requires forall i :: 0 <= i < |rd| ==> KeepsAt(rd, i, p, rep, q)
    ensures forall i :: 0 <= i < |[c] + rd| ==> KeepsAt([c] + rd, i, p, rep, q)
  {
    forall i | 1 <= i < |[c] + rd| ensures KeepsAt([c] + rd, i, p, rep, q) {
      assert ([c] + rd)[i] == rd[i - 1];
      assert KeepsAt(rd, i - 1, p, rep, q);
    }
  }

  /** No two neighbouring characters of `s` both satisfy `p`. */
  predicate NoAdjacent(s: string, p: char -> bool) {
    forall i :: 0 <= i < |s| - 1 ==> !(p(s[i]) && p(s[i + 1]))
  }

  /** When `rep` itself satisfies `p`, no two characters satisfying `p` are adjacent in the result. */
  lemma {:induction false} ReplaceRunsNoAdjacent(s: string, p: char -> bool, rep: char)
    requires p(rep)
    ensures NoAdjacent(ReplaceRuns(s, p, rep), p)
    decreases |s|
  {
    if |s| > 0 {
      var r := ReplaceRuns(s, p, rep);
      if p(s[0]) {
        var d := DropRun(s, p);
        ReplaceRunsNoAdjacent(d, p, rep);
        if |d| > 0 {
          assert ReplaceRuns(d, p, rep)[0] == d[0];
        }
        assert r == [rep] + ReplaceRuns(d, p, rep);
      } else {
        ReplaceRunsNoAdjacent(s[1..], p, rep);
        assert r == [s[0]] + ReplaceRuns(s[1..], p, rep);
      }
    }
  }

  /**
   * A string whose only characters satisfying `p` are single, isolated
   * copies of `rep` is left as it is.
   */
  lemma {:induction false} ReplaceRunsFixed(s: string, p: char -> bool, rep: char)
    requires forall i :: 0 <= i < |s| && p(s[i]) ==> s[i] == rep
    requires NoAdjacent(s, p)
    ensures ReplaceRuns(s, p, rep) == s
    decreases |s|
  {
    if |s| > 0 {
      ReplaceRunsFixed(s[1..], p, rep);
      if p(s[0]) {
        assert DropRun(s[1..], p) == s[1..];
        assert DropRun(s, p) == s[1..];
      }
      assert [s[0]] + s[1..] == s;
    }
  }

  /** `s.replace(/\s+/g, '-')`. */
  function HyphenateSpaces(s: string): string {
    ReplaceRuns(s, IsSpace, '-')
  }

  lemma HyphenatedHasNoSpace(s: string)
    ensures NoSpace(HyphenateSpaces(s))
  {
    ReplaceRunsRemoves(s, IsSpace, '-');
  }

  lemma HyphenateNoSpace(s: string)
    requires NoSpace(s)
    ensures HyphenateSpaces(s) == s
  {
    ReplaceRunsIdentity(s, IsSpace, '-');
  }

  /** Title-cases a hyphenated name: `s.split('-').map(w => w.charAt(0).toUpperCase() + w.slice(1)).join(' ')`. */
  function TitleCase(s: string): string {
    Join(CapitalizeAll(Split(s, '-')), " ")
  }

  /** `words.map(w => w.charAt(0).toUpperCase() + w.slice(1))`. */
  function CapitalizeAll(words: seq<string>): (r: seq<string>)
    ensures |r| == |words| && forall k :: 0 <= k < |words| ==> r[k] == Capitalize(words[k])
  {
    seq(|words|, k requires 0 <= k < |words| => Capitalize(words[k]))
  }

  /** What the title-casing does, character by character. */
  predicate TitleCaseOf(s: string, r: string) {
    |r| == |s| &&
    forall i :: 0 <= i < |s| ==>
      r[i] == (if s[i] == '-' then ' ' else if i == 0 || s[i - 1] == '-' then Upper(s[i]) else s[i])
  }

  /** A leading `-` becomes a space in front of the title-cased rest. */
  lemma TitleCaseHyphen(s: string)
    requires |s| > 0 && s[0] == '-'
    ensures TitleCase(s) == " " + TitleCase(s[1..])
  {
    var rest := Split(s[1..], '-');
    var caps := CapitalizeAll(rest);
    assert Split(s, '-') == [""] + rest;
    assert CapitalizeAll([""] + rest) == [""] + caps;
    if |caps| == 1 {
      assert Join([""] + caps, " ") == "" + " " + caps[0];
    } else {
      assert ([""] + caps)[1..] == caps;
    }
  }

  /**
   * A leading letter is upper-cased; the letter after it, if it is not a `-`,
   * stays as it was instead of being upper-cased as it is in the title-cased rest.
   */
  lemma TitleCaseWord(s: string)
    requires |s| > 0 && s[0] != '-'
    requires TitleCaseOf(s[1..], TitleCase(s[1..]))
    ensures var t := TitleCase(s[1..]);
      TitleCase(s) == [Upper(s[0])] + (if |s| > 1 && s[1] != '-' then [s[1]] + t[1..] else t)
  {
    var t := TitleCase(s[1..]);
    var rest := Split(s[1..], '-');
    var j := Join([""] + CapitalizeAll(rest)[1..], " ");
    TitleCaseFirstWord(s);
    SplitFirstPart(s[1..], '-');
    if |rest[0]| > 0 {
      assert s[1] == rest[0][0];
      assert t[1..] == rest[0][1..] + j;
      assert rest[0] == [s[1]] + rest[0][1..];
    } else {
      assert |s| > 1 ==> s[1] == '-';
    }
  }

  /** Title-casing `s` and `s[1..]` differ only in the first word, which `s[0]` extends. */
  lemma TitleCaseFirstWord(s: string)
    requires |s| > 0 && s[0] != '-'
    ensures var rest := Split(s[1..], '-');
      var j := Join([""] + CapitalizeAll(rest)[1..], " ");
      TitleCase(s) == [Upper(s[0])] + rest[0] + j && TitleCase(s[1..]) == Capitalize(rest[0]) + j
  {
    var rest := Split(s[1..], '-');
    var caps := CapitalizeAll(rest);
    var c0 := [Upper(s[0])] + rest[0];
    CapitalizeSplitHead(s);
    JoinHead(c0, caps[1..], " ");
    assert caps == [caps[0]] + caps[1..];
    JoinHead(caps[0], caps[1..], " ");
  }

  lemma CapitalizeSplitHead(s: string)
    requires |s| > 0 && s[0] != '-'
    ensures var rest := Split(s[1..], '-');
      CapitalizeAll(Split(s, '-')) == [[Upper(s[0])] + rest[0]] + CapitalizeAll(rest)[1..]
  {
    var rest := Split(s[1..], '-');
    var w0 := [s[0]] + rest[0];
    assert Split(s, '-') == [w0] + rest[1..];
    assert Capitalize(w0) == [Upper(s[0])] + rest[0];
    CapitalizeAllCons(w0, rest[1..]);
    CapitalizeAllTail(rest);
  }

  lemma CapitalizeAllCons(w: string, ws: seq<string>)
    ensures CapitalizeAll([w] + ws) == [Capitalize(w)] + CapitalizeAll(ws)
  {
    var l, r := CapitalizeAll([w] + ws), [Capitalize(w)] + CapitalizeAll(ws);
    forall k | 0 <= k < |l| ensures l[k] == r[k] {
      if k > 0 {
        assert ([w] + ws)[k] == ws[k - 1];
      }
    }
  }

  lemma CapitalizeAllTail(ws: seq<string>)
    requires |ws| > 0
    ensures CapitalizeAll(ws)[1..] == CapitalizeAll(ws[1..])
  {
    var l, r := CapitalizeAll(ws)[1..], CapitalizeAll(ws[1..]);
    forall k | 0 <= k < |l| ensures l[k] == r[k] {
      assert ws[1..][k] == ws[k + 1];
    }
  }

  /** Joining puts the first part in front of what joining the rest after an empty part gives. */
  lemma JoinHead(a: string, tail: seq<string>, sep: string)
    ensures Join([a] + tail, sep) == a + Join([""] + tail, sep)
  {
    if |tail| > 0 {
      assert ([a] + tail)[1..] == tail;
      assert ([""] + tail)[1..] == tail;
    }
  }

  /** Title-casing replaces each `-` by a space and upper-cases the first letter of every word, nothing else. */
  lemma {:induction false} TitleCaseIsCharwise(s: string)
    ensures TitleCaseOf(s, TitleCase(s))
    decreases |s|
  {
    if |s| == 0 {
      assert TitleCase(s) == "";
    } else {
      TitleCaseIsCharwise(s[1..]);
      var t := TitleCase(s[1..]);
      if s[0] == '-' {
        TitleCaseHyphen(s);
        forall i | 0 <= i < |s|
          ensures TitleCase(s)[i] == (if s[i] == '-' then ' ' else if i == 0 || s[i - 1] == '-' then Upper(s[i]) else s[i])
        {
          if i > 0 {
            assert TitleCase(s)[i] == t[i - 1] && s[i] == s[1..][i - 1];
            if i > 1 { assert s[i - 1] == s[1..][i - 2]; }
          }
        }
      } else {
        TitleCaseWord(s);
        forall i | 0 <= i < |s|
          ensures TitleCase(s)[i] == (if s[i] == '-' then ' ' else if i == 0 || s[i - 1] == '-' then Upper(s[i]) else s[i])
        {
          if i > 1 {
            assert s[i] == s[1..][i - 1];
            assert TitleCase(s)[i] == t[i - 1];
            assert s[i - 1] == s[1..][i - 2];
          }
        }
      }
    }
  }

  /** The first part of a split is the prefix before the first separator. */
  lemma {:induction false} SplitFirstPart(s: string, c: char)
    ensures var p := Split(s, c)[0];
      |p| <= |s| && p == s[..|p|] && (|p| < |s| ==> s[|p|] == c)
    decreases |s|
  {
    if |s| > 0 {
      SplitFirstPart(s[1..], c);
    }
  }
}

/**
  A small engine for the source's global regular-expression scans. Each regex
  is given as a matcher that tries a match anchored at one index; `Scan` finds
  the successive non-overlapping matches left to right (what `matchAll` and a
  `/g` regex do), and `ReplaceFrom` rebuilds the text with every match replaced
  (what `replace` with a `/g` regex does); the first element of a scan is what
  `match` without `/g` finds. None of the source's regexes can
  match the empty string, so a scan always moves past a match.
 */
module Matching {

  import opened Wrappers
  import opened Text

  /** A match: the text `s[start..end]` and its capture groups. */
  datatype Hit = Hit(start: nat, end: nat, groups: seq<string>)

  /** A regex tried at one index of a text. */
  type Matcher = (string, nat) -> Option<Hit>

  predicate ValidHit(s: string, i: nat, h: Hit) {
    h.start == i && i < h.end <= |s|
  }

  /** The match `m` finds at index `i`, if it is a well-formed non-empty one. */
  function MatchAt(m: Matcher, s: string, i: nat): (r: Option<Hit>)
    ensures r.Some? ==> ValidHit(s, i, r.value)
  {
    var h := m(s, i);
    if h.Some? && ValidHit(s, i, h.value) then h else None
  }

  /** Capture group `k`, or "" when the matcher did not provide it. */
  function Group(h: Hit, k: nat): string {
    if k < |h.groups| then h.groups[k] else ""
  }

  /** Every match at or after `from`, left to right, none overlapping. */
  function Scan(s: string, from: nat, m: Matcher): (hits: seq<Hit>)
    requires from <= |s|
    decreases |s| - from
    ensures forall k :: 0 <= k < |hits| ==> from <= hits[k].start && MatchAt(m, s, hits[k].start) == Some(hits[k])
    ensures forall i, j :: 0 <= i < j < |hits| ==> hits[i].end <= hits[j].start
  {
    if from == |s| then []
    else match MatchAt(m, s, from)
      case Some(h) => [h] + Scan(s, h.end, m)
      case None => Scan(s, from + 1, m)
  }

  /** The text from `from` on, with every match `h` replaced by `f(h)`. */
  function ReplaceFrom(s: string, from: nat, m: Matcher, f: Hit -> string): string
    requires from <= |s|
    decreases |s| - from
  {
    if from == |s| then ""
    else match MatchAt(m, s, from)
      case Some(h) => f(h) + ReplaceFrom(s, h.end, m, f)
      case None => [s[from]] + ReplaceFrom(s, from + 1, m, f)
  }

  /** `s.replace(regex, f)` with a global regex. */
  function ReplaceAll(s: string, m: Matcher, f: Hit -> string): string {
    ReplaceFrom(s, 0, m, f)
  }

  predicate NoMatchIn(m: Matcher, s: string, from: nat, to: nat)
    requires from <= to <= |s|
  {
    forall j :: from <= j < to ==> MatchAt(m, s, j).None?
  }

  /** Where nothing matches, replacing copies the text. */
  lemma {:induction false} ReplaceSkip(s: string, from: nat, to: nat, m: Matcher, f: Hit -> string)
    requires from <= to <= |s|
    requires NoMatchIn(m, s, from, to)
    ensures ReplaceFrom(s, from, m, f) == s[from..to] + ReplaceFrom(s, to, m, f)
    decreases |s| - from
  {
    if from < to {
      ReplaceSkip(s, from + 1, to, m, f);
    }
  }

  /** With no match anywhere, a global replace is the identity. */
  lemma ReplaceNoMatch(s: string, m: Matcher, f: Hit -> string)
    requires NoMatchIn(m, s, 0, |s|)
    ensures ReplaceAll(s, m, f) == s
  {
    ReplaceSkip(s, 0, |s|, m, f);
  }

  /** Where nothing matches, the scan skips ahead. */
  lemma {:induction false} ScanSkip(s: string, from: nat, to: nat, m: Matcher)
    requires from <= to <= |s|
    requires NoMatchIn(m, s, from, to)
    ensures Scan(s, from, m) == Scan(s, to, m)
    decreases |s| - from
  {
    if from < to {
      ScanSkip(s, from + 1, to, m);
    }
  }

  lemma ScanNoMatch(s: string, m: Matcher)
    requires NoMatchIn(m, s, 0, |s|)
    ensures Scan(s, 0, m) == []
  {
    ScanSkip(s, 0, |s|, m);
  }

  /** A text that is exactly one match, with nothing after it, is replaced whole. */
  lemma ReplaceWhole(s: string, from: nat, m: Matcher, f: Hit -> string, h: Hit)
    requires from <= |s|
    requires MatchAt(m, s, from) == Some(h) && h.end == |s|
    ensures ReplaceFrom(s, from, m, f) == f(h)
  {
  }

  predicate HitsWithin(hits: seq<Hit>, n: nat) {
    forall k :: 0 <= k < |hits| ==> hits[k].start <= hits[k].end <= n
  }

  lemma ScanWithin(s: string, from: nat, m: Matcher)
    requires from <= |s|
    ensures HitsWithin(Scan(s, from, m), |s|)
  {
    var hits := Scan(s, from, m);
    forall k | 0 <= k < |hits| ensures hits[k].start <= hits[k].end <= |s| {
      assert ValidHit(s, hits[k].start, hits[k]);
    }
  }

  /** The scan starts with the leftmost match, and is empty when nothing matches. */
  lemma {:induction false} ScanFirst(s: string, from: nat, m: Matcher)
    requires from <= |s|
    ensures Scan(s, from, m) == [] <==> NoMatchIn(m, s, from, |s|)
    ensures Scan(s, from, m) != [] ==> NoMatchIn(m, s, from, Scan(s, from, m)[0].start)
    decreases |s| - from
  {
    if from < |s| && MatchAt(m, s, from).None? {
      ScanFirst(s, from + 1, m);
    }
  }

  /** `s.match(regex)` without `/g`: the leftmost match. */
  function FirstMatch(s: string, m: Matcher): (r: Option<Hit>)
    ensures r.Some? ==> MatchAt(m, s, r.value.start) == r && NoMatchIn(m, s, 0, r.value.start)
    ensures r.None? <==> NoMatchIn(m, s, 0, |s|)
  {
    var hits := Scan(s, 0, m);
    ScanFirst(s, 0, m);
    if hits == [] then None else Some(hits[0])
  }

  /** A match anywhere gives `match` a result at or before it. */
  lemma FirstMatchFinds(s: string, m: Matcher, i: nat)
    requires i < |s| && MatchAt(m, s, i).Some?
    ensures FirstMatch(s, m).Some? && FirstMatch(s, m).value.start <= i
  {
  }

  /** Replacing removes every character that occurs only where a match
      starts, provided no replacement contains one. */
  lemma {:induction false} ReplaceAvoids(s: string, from: nat, m: Matcher, f: Hit -> string, p: char -> bool)
    requires from <= |s|
    requires forall j :: from <= j < |s| && p(s[j]) ==> MatchAt(m, s, j).Some?
    requires forall h: Hit, k :: 0 <= k < |f(h)| ==> !p(f(h)[k])
    ensures forall k :: 0 <= k < |ReplaceFrom(s, from, m, f)| ==> !p(ReplaceFrom(s, from, m, f)[k])
    decreases |s| - from
  {
    if from < |s| {
      match MatchAt(m, s, from)
      case Some(h) =>
        ReplaceAvoids(s, h.end, m, f, p);
        assert ReplaceFrom(s, from, m, f) == f(h) + ReplaceFrom(s, h.end, m, f);
      case None =>
        ReplaceAvoids(s, from + 1, m, f, p);
        assert ReplaceFrom(s, from, m, f) == [s[from]] + ReplaceFrom(s, from + 1, m, f);
    }
  }

  // ---------------------------------------------------------------------
  // Regexes used by more than one source file

  /** `/!\[\[([^\]]+?)\]\]/` tried at `i`: the lazy group cannot pass a ']',
      so it ends at the first ']', which must be followed by another. */
  function EmbedAt(s: string, i: nat): Option<Hit> {
    if At(s, i, "![[") then
      var j := FirstIndex(s, i + 3, ']');
      if i + 3 < j && j + 1 < |s| && s[j + 1] == ']' then Some(Hit(i, j + 2, [s[i + 3..j]])) else None
    else None
  }

  /** `/!\[([^\]]*)\]\(([^)]+)\)/` tried at `i`: alt text up to the first ']',
      then '(' and a non-empty source up to the first ')'. */
  function MarkdownImageAt(s: string, i: nat): Option<Hit> {
    if At(s, i, "![") then
      var j := FirstIndex(s, i + 2, ']');
      if j + 1 < |s| && s[j + 1] == '(' then
        var k := FirstIndex(s, j + 2, ')');
        if j + 2 < k < |s| then Some(Hit(i, k + 1, [s[i + 2..j], s[j + 2..k]])) else None
      else None
    else None
  }

  lemma MatcherExamples()
    ensures EmbedAt("![[a|b]]", 0) == Some(Hit(0, 8, ["a|b"]))
    ensures EmbedAt("![[]]", 0).None?
    ensures MarkdownImageAt("![x](p)", 0) == Some(Hit(0, 7, ["x", "p"]))
    ensures MarkdownImageAt("![x]()", 0).None?
  {
    FirstIndexIs("![[a|b]]", 3, ']', 6);
    assert "![[a|b]]"[3..6] == "a|b";
    FirstIndexIs("![x](p)", 2, ']', 3);
    FirstIndexIs("![x](p)", 5, ')', 6);
    assert "![x](p)"[2..3] == "x" && "![x](p)"[5..6] == "p";
    FirstIndexIs("![x]()", 2, ']', 3);
    FirstIndexIs("![x]()", 5, ')', 5);
  }

}

/**
  Character and string helpers shared by every module: the JavaScript
  whitespace set (what `\s` matches and what `String.prototype.trim` removes),
  ASCII lower-casing, `split` on one character, prefix and substring tests,
  first-occurrence replacement and decimal rendering of integers.
 */
module Text {

  import opened Wrappers

  /** JavaScript WhiteSpace and LineTerminator code points. */
  predicate IsSpace(c: char) {
    c == ' ' || c == '\t' || c == '\n' || c == '\r' || c == '\U{000B}' || c == '\U{000C}'
    || c == '\U{00A0}' || c == '\U{1680}' || ('\U{2000}' <= c <= '\U{200A}')
    || c == '\U{2028}' || c == '\U{2029}' || c == '\U{202F}' || c == '\U{205F}'
    || c == '\U{3000}' || c == '\U{FEFF}'
  }

  /** The characters at which `.` stops and at which `^`/`$` match in multiline mode. */
  predicate IsLineTerminator(c: char) {
    c == '\n' || c == '\r' || c == '\U{2028}' || c == '\U{2029}'
  }

  predicate AllSpace(s: string) {
    forall i :: 0 <= i < |s| ==> IsSpace(s[i])
  }

  predicate IsDigit(c: char) { '0' <= c <= '9' }

  predicate IsAsciiLower(c: char) { 'a' <= c <= 'z' }

  /** `toLowerCase`, restricted to the ASCII letters. */
  function Lower(c: char): (r: char)
    ensures 'A' <= c <= 'Z' ==> r as int == c as int + 32
    ensures !('A' <= c <= 'Z') ==> r == c
  {
    if 'A' <= c <= 'Z' then (c as int + 32) as char else c
  }

  function LowerStr(s: string): (r: string)
    ensures |r| == |s|
    ensures forall i :: 0 <= i < |s| ==> r[i] == Lower(s[i])
  {
    seq(|s|, i requires 0 <= i < |s| => Lower(s[i]))
  }

  lemma LowerStrAppend(a: string, b: string)
    ensures LowerStr(a + b) == LowerStr(a) + LowerStr(b)
  {
  }

  predicate StartsWith(s: string, p: string) {
    |p| <= |s| && s[..|p|] == p
  }

  predicate EndsWith(s: string, p: string) {
    |p| <= |s| && s[|s| - |p|..] == p
  }

  /** `s.startsWith(p, i)`: `p` occurs in `s` at index `i`. */
  predicate At(s: string, i: int, p: string) {
    0 <= i && i + |p| <= |s| && s[i..i + |p|] == p
  }

  lemma AtJoin(s: string, i: nat, p: string, q: string)
    requires At(s, i, p) && At(s, i + |p|, q)
    ensures At(s, i, p + q)
  {
    assert s[i..i + |p| + |q|] == s[i..i + |p|] + s[i + |p|..i + |p| + |q|];
  }

  lemma AtSplit(s: string, i: nat, p: string, q: string)
    requires At(s, i, p + q)
    ensures At(s, i, p) && At(s, i + |p|, q)
  {
    assert s[i..i + |p|] == (p + q)[..|p|];
    assert s[i + |p|..i + |p| + |q|] == (p + q)[|p|..];
  }

  /** `s.includes(p)`. */
  predicate Contains(s: string, p: string) {
    exists i :: 0 <= i <= |s| - |p| && At(s, i, p)
  }

  lemma EmptyContained(s: string)
    ensures Contains(s, "")
  {
    assert At(s, 0, "");
  }

  /** Index of the first occurrence of `p` in `s` at or after `from`, if any. */
  function IndexOf(s: string, p: string, from: nat): (r: Option<nat>)
    requires from <= |s|
    decreases |s| - from
    ensures r.Some? ==> from <= r.value <= |s| - |p| && At(s, r.value, p)
    ensures r.Some? ==> forall j :: from <= j < r.value ==> !At(s, j, p)
    ensures r.None? ==> forall j :: from <= j <= |s| - |p| ==> !At(s, j, p)
  {
    if At(s, from, p) then Some(from)
    else if from == |s| then None
    else IndexOf(s, p, from + 1)
  }

  lemma ContainsIndexOf(s: string, p: string)
    ensures Contains(s, p) <==> IndexOf(s, p, 0).Some?
  {
    if IndexOf(s, p, 0).Some? {
      assert At(s, IndexOf(s, p, 0).value, p);
    }
  }

  /** `s.replace(p, r)` with a string pattern: the first occurrence of `p` is
      replaced by `r` taken literally; with no occurrence the text is unchanged. */
  function ReplaceFirst(s: string, p: string, r: string): (t: string)
  {
    match IndexOf(s, p, 0)
    case None => s
    case Some(i) => s[..i] + r + s[i + |p|..]
  }

  lemma ReplaceFirstAbsent(s: string, p: string, r: string)
    requires !Contains(s, p)
    ensures ReplaceFirst(s, p, r) == s
  {
    ContainsIndexOf(s, p);
  }

  /** Index of the first `c` at or after `from`, or `|s|` when there is none. */
  function FirstIndex(s: string, from: nat, c: char): (j: nat)
    requires from <= |s|
    decreases |s| - from
    ensures from <= j <= |s|
    ensures j < |s| ==> s[j] == c
    ensures forall k :: from <= k < j ==> s[k] != c
  {
    if from == |s| || s[from] == c then from else FirstIndex(s, from + 1, c)
  }

  lemma FirstIndexIs(s: string, from: nat, c: char, j: nat)
    requires from <= j <= |s|
    requires j < |s| ==> s[j] == c
    requires forall k :: from <= k < j ==> s[k] != c
    ensures FirstIndex(s, from, c) == j
    decreases j - from
  {
    if from < j {
      FirstIndexIs(s, from + 1, c, j);
    }
  }

  /** End of the maximal run of whitespace starting at `from`. */
  function SpaceRunEnd(s: string, from: nat): (k: nat)
    requires from <= |s|
    decreases |s| - from
    ensures from <= k <= |s|
    ensures forall j :: from <= j < k ==> IsSpace(s[j])
    ensures k < |s| ==> !IsSpace(s[k])
  {
    if from == |s| || !IsSpace(s[from]) then from else SpaceRunEnd(s, from + 1)
  }

  lemma SpaceRunEndIs(s: string, from: nat, k: nat)
    requires from <= k <= |s|
    requires forall j :: from <= j < k ==> IsSpace(s[j])
    requires k < |s| ==> !IsSpace(s[k])
    ensures SpaceRunEnd(s, from) == k
    decreases k - from
  {
    if from < k {
      SpaceRunEndIs(s, from + 1, k);
    }
  }

  /** `trimStart`. */
  function TrimStart(s: string): (r: string)
    ensures |r| <= |s| && r == s[|s| - |r|..]
    ensures AllSpace(s[..|s| - |r|])
    ensures r != [] ==> !IsSpace(r[0])
  {
    s[SpaceRunEnd(s, 0)..]
  }

  /** `trimEnd`. */
  function TrimEnd(s: string): (r: string)
    ensures |r| <= |s| && r == s[..|r|]
    ensures AllSpace(s[|r|..])
    ensures r != [] ==> !IsSpace(r[|r| - 1])
  {
    if s == [] || !IsSpace(s[|s| - 1]) then s else TrimEnd(s[..|s| - 1])
  }

  /** `trim`: whitespace removed from both ends. */
  function Trim(s: string): (r: string)
    ensures |r| <= |s|
    ensures r != [] ==> !IsSpace(r[0]) && !IsSpace(r[|r| - 1])
  {
    TrimEnd(TrimStart(s))
  }

  /** No whitespace at either end: what `trim` returns. */
  predicate Trimmed(s: string) {
    s == [] || (!IsSpace(s[0]) && !IsSpace(s[|s| - 1]))
  }

  lemma TrimOfTrimmed(s: string)
    requires Trimmed(s)
    ensures Trim(s) == s
  {
  }

  /** A string is blank when it trims to nothing: `!s.trim()`. */
  lemma BlankIffAllSpace(s: string)
    ensures Trim(s) == [] <==> AllSpace(s)
  {
    if AllSpace(s) {
      SpaceRunEndIs(s, 0, |s|);
    }
  }

  lemma {:induction false} TrimEndIs(t: string, j: nat)
    requires j <= |t|
    requires forall k :: j <= k < |t| ==> IsSpace(t[k])
    requires 0 < j ==> !IsSpace(t[j - 1])
    ensures TrimEnd(t) == t[..j]
    decreases |t|
  {
    if j < |t| {
      assert t[..|t| - 1][..j] == t[..j];
      TrimEndIs(t[..|t| - 1], j);
    }
  }

  /** Trimming is determined by its result: a slice with blank surroundings and
      non-blank ends is the trimmed text. */
  lemma TrimUnique(s: string, i: nat, j: nat)
    requires i <= j <= |s|
    requires forall k :: 0 <= k < i ==> IsSpace(s[k])
    requires forall k :: j <= k < |s| ==> IsSpace(s[k])
    requires i < j ==> !IsSpace(s[i]) && !IsSpace(s[j - 1])
    ensures Trim(s) == s[i..j]
  {
    if i < j {
      SpaceRunEndIs(s, 0, i);
      TrimEndIs(s[i..], j - i);
      assert s[i..][..j - i] == s[i..j];
    } else {
      SpaceRunEndIs(s, 0, |s|);
    }
  }

  lemma ConcatIndex(a: string, s: string, b: string, k: nat)
    requires k < |a| + |s| + |b|
    ensures k < |a| ==> (a + s + b)[k] == a[k]
    ensures |a| <= k < |a| + |s| ==> (a + s + b)[k] == s[k - |a|]
    ensures |a| + |s| <= k ==> (a + s + b)[k] == b[k - |a| - |s|]
  {
  }

  /** Where the trimmed text sits, stated by indices. */
  lemma TrimBounds(s: string) returns (i: nat, j: nat)
    ensures i <= j <= |s| && Trim(s) == s[i..j]
    ensures forall k :: 0 <= k < i ==> IsSpace(s[k])
    ensures forall k :: j <= k < |s| ==> IsSpace(s[k])
    ensures i < j ==> !IsSpace(s[i]) && !IsSpace(s[j - 1])
  {
    i := SpaceRunEnd(s, 0);
    var r := TrimEnd(s[i..]);
    j := i + |r|;
    assert r == s[i..j];
    forall k | j <= k < |s|
      ensures IsSpace(s[k])
    {
      assert s[k] == s[i..][k - i];
    }
    if i < j {
      assert s[j - 1] == r[|r| - 1];
    }
  }

  /** The padded text meets the conditions of `TrimUnique` at the shifted bounds. */
  lemma PaddedBounds(a: string, s: string, b: string, i: nat, j: nat)
    requires AllSpace(a) && AllSpace(b)
    requires i <= j <= |s|
    requires forall k :: 0 <= k < i ==> IsSpace(s[k])
    requires forall k :: j <= k < |s| ==> IsSpace(s[k])
    requires i < j ==> !IsSpace(s[i]) && !IsSpace(s[j - 1])
    ensures forall k :: 0 <= k < |a| + i ==> IsSpace((a + s + b)[k])
    ensures forall k :: |a| + j <= k < |a + s + b| ==> IsSpace((a + s + b)[k])
    ensures i < j ==> !IsSpace((a + s + b)[|a| + i]) && !IsSpace((a + s + b)[|a| + j - 1])
    ensures (a + s + b)[|a| + i..|a| + j] == s[i..j]
  {
    var t := a + s + b;
    forall k | 0 <= k < |a| + i
      ensures IsSpace(t[k])
    {
      ConcatIndex(a, s, b, k);
    }
    forall k | |a| + j <= k < |t|
      ensures IsSpace(t[k])
    {
      ConcatIndex(a, s, b, k);
    }
    if i < j {
      ConcatIndex(a, s, b, |a| + i);
      ConcatIndex(a, s, b, |a| + j - 1);
    }
  }

  lemma TrimPaddedAt(a: string, s: string, b: string, i: nat, j: nat)
    requires AllSpace(a) && AllSpace(b)
    requires i <= j <= |s|
    requires forall k :: 0 <= k < i ==> IsSpace(s[k])
    requires forall k :: j <= k < |s| ==> IsSpace(s[k])
    requires i < j ==> !IsSpace(s[i]) && !IsSpace(s[j - 1])
    ensures Trim(a + s + b) == s[i..j]
  {
    PaddedBounds(a, s, b, i, j);
    TrimUnique(a + s + b, |a| + i, |a| + j);
  }

  /** A slice whose every character is whitespace is blank. */
  lemma SliceAllSpace(s: string, from: nat, to: nat)
    requires from <= to <= |s|
    requires forall k :: from <= k < to ==> IsSpace(s[k])
    ensures AllSpace(s[from..to])
  {
    forall k | 0 <= k < to - from
      ensures IsSpace(s[from..to][k])
    {
      assert s[from..to][k] == s[from + k];
    }
  }

  /** Two maps that agree on every key are equal. */
  lemma MapsAgree<K, V>(a: map<K, V>, b: map<K, V>)
    requires forall k :: k in a <==> k in b
    requires forall k :: k in a ==> a[k] == b[k]
    ensures a == b
  {
  }

  /** The last index in `[lo, k)` that satisfies `p`. */
  function LastWhere(p: nat -> bool, lo: nat, k: nat): (r: Option<nat>)
    requires lo <= k
    decreases k
    ensures r.Some? ==> lo <= r.value < k && p(r.value)
  {
    if k == lo then None else if p(k - 1) then Some(k - 1) else LastWhere(p, lo, k - 1)
  }

  /** Every index that satisfies `p` is at or below the one found. */
  lemma {:induction false} LastWhereIsLast(p: nat -> bool, lo: nat, k: nat, o: nat)
    requires lo <= o < k && p(o)
    ensures LastWhere(p, lo, k).Some? && o <= LastWhere(p, lo, k).value
    decreases k
  {
    if !p(k - 1) {
      LastWhereIsLast(p, lo, k - 1, o);
    }
  }

  /** The first index in `[from, hi)` that satisfies `p`. */
  function FirstWhere(p: nat -> bool, from: nat, hi: nat): (r: Option<nat>)
    requires from <= hi
    decreases hi - from
    ensures r.Some? ==> from <= r.value < hi && p(r.value)
  {
    if from == hi then None else if p(from) then Some(from) else FirstWhere(p, from + 1, hi)
  }

  /** Every index that satisfies `p` is at or after the one found. */
  lemma {:induction false} FirstWhereIsFirst(p: nat -> bool, from: nat, hi: nat, k: nat)
    requires from <= k < hi && p(k)
    ensures FirstWhere(p, from, hi).Some? && FirstWhere(p, from, hi).value <= k
    decreases k - from
  {
    if !p(from) {
      FirstWhereIsFirst(p, from + 1, hi, k);
    }
  }

  /** Concatenation is associative. */
  lemma ConcatAssoc<T>(a: seq<T>, b: seq<T>, c: seq<T>)
    ensures a + (b + c) == (a + b) + c
  {
  }

  /** Whitespace around a text does not change its trim. */
  lemma TrimPadded(a: string, s: string, b: string)
    requires AllSpace(a) && AllSpace(b)
    ensures Trim(a + s + b) == Trim(s)
  {
    var i, j := TrimBounds(s);
    TrimPaddedAt(a, s, b, i, j);
  }

  /** A character absent from a text is absent from its trimmed form. */
  lemma TrimLacks(s: string, c: char)
    requires c !in s
    ensures c !in Trim(s)
  {
    var i, j := TrimBounds(s);
  }

  /** `s.split(c)`: the pieces between the separators, always at least one. */
  function Split(s: string, c: char): (parts: seq<string>)
    decreases |s|
    ensures |parts| >= 1
    ensures forall k :: 0 <= k < |parts| ==> c !in parts[k]
  {
    var i := FirstIndex(s, 0, c);
    if i == |s| then [s] else [s[..i]] + Split(s[i + 1..], c)
  }

  /** `parts.join(c)`. */
  function Join(parts: seq<string>, c: char): string
  {
    if |parts| == 0 then "" else if |parts| == 1 then parts[0] else parts[0] + [c] + Join(parts[1..], c)
  }

  /** `parts.join(sep)` with a separator of any length. */
  function JoinWith(parts: seq<string>, sep: string): string
  {
    if |parts| == 0 then "" else if |parts| == 1 then parts[0] else parts[0] + sep + JoinWith(parts[1..], sep)
  }

  /** Joining with a one-character separator is `Join`, so `Split` undoes it. */
  lemma {:induction false} JoinWithChar(parts: seq<string>, c: char)
    ensures JoinWith(parts, [c]) == Join(parts, c)
    decreases |parts|
  {
    if |parts| > 1 {
      JoinWithChar(parts[1..], c);
    }
  }

  /** Splitting and joining on the same character restore the text. */
  lemma {:induction false} JoinSplit(s: string, c: char)
    ensures Join(Split(s, c), c) == s
    decreases |s|
  {
    var i := FirstIndex(s, 0, c);
    if i < |s| {
      JoinSplit(s[i + 1..], c);
      var rest := Split(s[i + 1..], c);
      assert Split(s, c) == [s[..i]] + rest;
      assert (Split(s, c))[1..] == rest;
      assert s == s[..i] + [c] + s[i + 1..];
    }
  }

  /** Joining pieces that do not hold the separator and splitting again gives the pieces back. */
  lemma {:induction false} SplitJoin(parts: seq<string>, c: char)
    requires |parts| >= 1
    requires forall k :: 0 <= k < |parts| ==> c !in parts[k]
    ensures Split(Join(parts, c), c) == parts
    decreases |parts|
  {
    if |parts| == 1 {
      SplitWithout(parts[0], c);
    } else {
      var s := Join(parts, c);
      assert s == parts[0] + [c] + Join(parts[1..], c);
      FirstIndexIs(s, 0, c, |parts[0]|);
      assert s[|parts[0]| + 1..] == Join(parts[1..], c);
      assert s[..|parts[0]|] == parts[0];
      SplitJoin(parts[1..], c);
    }
  }

  /** A character that is neither the separator nor in any piece is not in the joined text. */
  lemma {:induction false} JoinLacks(parts: seq<string>, c: char, d: char)
    requires c != d
    requires forall k :: 0 <= k < |parts| ==> d !in parts[k]
    ensures d !in Join(parts, c)
    decreases |parts|
  {
    if |parts| > 1 {
      JoinLacks(parts[1..], c, d);
    }
  }

  lemma SplitWithout(s: string, c: char)
    requires c !in s
    ensures Split(s, c) == [s]
  {
    FirstIndexIs(s, 0, c, |s|);
  }

  /** Text before the first separator is the first piece. */
  lemma SplitAtFirst(a: string, b: string, c: char)
    requires c !in a
    ensures Split(a + [c] + b, c) == [a] + Split(b, c)
  {
    var s := a + [c] + b;
    assert forall k :: 0 <= k < |a| ==> s[k] == a[k];
    FirstIndexIs(s, 0, c, |a|);
    assert s[..|a|] == a;
    assert s[|a| + 1..] == b;
  }

  /** A joined list opens with the first piece's first character. */
  lemma JoinFirst(parts: seq<string>, c: char)
    requires |parts| >= 1 && parts[0] != []
    ensures Join(parts, c) != [] && Join(parts, c)[0] == parts[0][0]
  {
  }

  /** A joined list closes with the last piece's last character. */
  lemma {:induction false} JoinLast(parts: seq<string>, c: char)
    requires |parts| >= 1 && parts[|parts| - 1] != []
    ensures Join(parts, c) != [] && Join(parts, c)[|Join(parts, c)| - 1] == parts[|parts| - 1][|parts[|parts| - 1]| - 1]
    decreases |parts|
  {
    if |parts| > 1 {
      JoinLast(parts[1..], c);
      assert parts[1..][|parts| - 2] == parts[|parts| - 1];
    }
  }

  /** Keeps the elements a predicate accepts, in order: `array.filter`. */
  function Filter<T>(xs: seq<T>, keep: T -> bool): (r: seq<T>)
    ensures |r| <= |xs|
    ensures forall k :: 0 <= k < |r| ==> keep(r[k]) && r[k] in xs
    ensures forall x :: x in xs && keep(x) ==> x in r
  {
    if xs == [] then [] else (if keep(xs[0]) then [xs[0]] else []) + Filter(xs[1..], keep)
  }

  /** An accepted last element stays last. */
  lemma {:induction false} FilterKeepsLast<T>(xs: seq<T>, keep: T -> bool)
    requires xs != [] && keep(xs[|xs| - 1])
    ensures Filter(xs, keep) != [] && Filter(xs, keep)[|Filter(xs, keep)| - 1] == xs[|xs| - 1]
    decreases |xs|
  {
    if |xs| > 1 {
      FilterKeepsLast(xs[1..], keep);
    }
  }

  lemma {:induction false} FilterKeepsAll<T>(xs: seq<T>, keep: T -> bool)
    requires forall k :: 0 <= k < |xs| ==> keep(xs[k])
    ensures Filter(xs, keep) == xs
  {
    if xs != [] {
      FilterKeepsAll(xs[1..], keep);
    }
  }

  /** No two adjacent copies of `c`. */
  predicate NoDoubled(s: string, c: char) {
    forall i :: 0 <= i < |s| - 1 && s[i] == c ==> s[i + 1] != c
  }

  /** `s` with every `c` removed. */
  function RemoveChar(s: string, c: char): string {
    if s == [] then [] else (if s[0] == c then [] else [s[0]]) + RemoveChar(s[1..], c)
  }

  /** `s.replace(/c+/g, c)`: every run of `c` shortened to one. */
  function CollapseRuns(s: string, c: char): (r: string)
    ensures |r| <= |s| && (r == [] <==> s == [])
    ensures s != [] ==> r[0] == s[0] && r[|r| - 1] == s[|s| - 1]
    ensures NoDoubled(r, c)
    ensures forall k :: 0 <= k < |r| ==> r[k] in s
  {
    if |s| <= 1 then s
    else if s[0] == c && s[1] == c then CollapseRuns(s[1..], c)
    else [s[0]] + CollapseRuns(s[1..], c)
  }

  /** Collapsing keeps every other character, in order. */
  lemma {:induction false} CollapseRunsKeepsOthers(s: string, c: char)
    ensures RemoveChar(CollapseRuns(s, c), c) == RemoveChar(s, c)
    decreases |s|
  {
    if |s| > 1 {
      CollapseRunsKeepsOthers(s[1..], c);
      if !(s[0] == c && s[1] == c) {
        var r := [s[0]] + CollapseRuns(s[1..], c);
        assert r[1..] == CollapseRuns(s[1..], c);
      }
    }
  }

  /** Collapsing changes nothing in a text without doubled separators. */
  lemma {:induction false} CollapseRunsIdle(s: string, c: char)
    requires NoDoubled(s, c)
    ensures CollapseRuns(s, c) == s
    decreases |s|
  {
    if |s| > 1 {
      CollapseRunsIdle(s[1..], c);
    }
  }

  /** End of the run of `c` starting at `from`: the first index at or after it holding something else. */
  function RunEnd(s: string, from: nat, c: char): (k: nat)
    requires from <= |s|
    decreases |s| - from
    ensures from <= k <= |s|
    ensures forall j :: from <= j < k ==> s[j] == c
    ensures k < |s| ==> s[k] != c
  {
    if from == |s| || s[from] != c then from else RunEnd(s, from + 1, c)
  }

  /** End of the run of characters satisfying `p` that starts at `from`. */
  function RunWhile(s: string, from: nat, p: char -> bool): (k: nat)
    requires from <= |s|
    decreases |s| - from
    ensures from <= k <= |s|
    ensures forall j :: from <= j < k ==> p(s[j])
    ensures k < |s| ==> !p(s[k])
  {
    if from == |s| || !p(s[from]) then from else RunWhile(s, from + 1, p)
  }

  /** Where `.*` starting at `from` stops: the next line terminator, or the end. */
  function LineEnd(s: string, from: nat): (k: nat)
    requires from <= |s|
    decreases |s| - from
    ensures from <= k <= |s|
    ensures forall j :: from <= j < k ==> !IsLineTerminator(s[j])
    ensures k < |s| ==> IsLineTerminator(s[k])
  {
    if from == |s| || IsLineTerminator(s[from]) then from else LineEnd(s, from + 1)
  }

  lemma LineEndIs(s: string, from: nat)
    requires from <= |s|
    requires forall k :: from <= k < |s| ==> !IsLineTerminator(s[k])
    ensures LineEnd(s, from) == |s|
  {
  }

  /** `c` removed from the front: `.replace(/^c+/, '')`. */
  function DropLeading(s: string, c: char): (r: string)
    ensures |r| <= |s| && r == s[|s| - |r|..]
    ensures r == [] || r[0] != c
  {
    s[RunEnd(s, 0, c)..]
  }

  /** `c` removed from the back: `.replace(/c+$/, '')`. */
  function DropTrailing(s: string, c: char): (r: string)
    ensures |r| <= |s| && r == s[..|r|]
    ensures r == [] || r[|r| - 1] != c
    ensures NoDoubled(s, c) ==> NoDoubled(r, c)
  {
    if s == [] || s[|s| - 1] != c then s else DropTrailing(s[..|s| - 1], c)
  }

  /** `array.reverse()`. */
  function Reverse<T>(xs: seq<T>): (r: seq<T>)
    ensures |r| == |xs|
    ensures forall k :: 0 <= k < |xs| ==> r[k] == xs[|xs| - 1 - k]
  {
    seq(|xs|, k requires 0 <= k < |xs| => xs[|xs| - 1 - k])
  }

  /** `array.map`. */
  function Map<T, U>(xs: seq<T>, f: T -> U): (r: seq<U>)
    ensures |r| == |xs|
    ensures forall k :: 0 <= k < |xs| ==> r[k] == f(xs[k])
  {
    seq(|xs|, k requires 0 <= k < |xs| => f(xs[k]))
  }

  lemma MapConcat<T, U>(a: seq<T>, b: seq<T>, f: T -> U)
    ensures Map(a + b, f) == Map(a, f) + Map(b, f)
  {
    var l := Map(a + b, f);
    var r := Map(a, f) + Map(b, f);
    forall k | 0 <= k < |l| ensures l[k] == r[k] {
      if k >= |a| {
        assert (a + b)[k] == b[k - |a|];
      }
    }
  }

  function DigitChar(d: nat): (c: char)
    requires d < 10
    ensures IsDigit(c)
  {
    ('0' as int + d) as char
  }

  /** Decimal rendering of a natural number, as `String(n)` gives it. */
  function NatToString(n: nat): (r: string)
    decreases n
    ensures |r| >= 1
    ensures forall k :: 0 <= k < |r| ==> IsDigit(r[k])
  {
    if n < 10 then [DigitChar(n)] else NatToString(n / 10) + [DigitChar(n % 10)]
  }

  /** The value of a string of decimal digits (`parseInt(s, 10)` on digits only). */
  function DigitsValue(s: string): nat
  {
    if s == [] then 0
    else DigitsValue(s[..|s| - 1]) * 10 + (if IsDigit(s[|s| - 1]) then s[|s| - 1] as int - '0' as int else 0)
  }

  /** Reading back the decimal rendering gives the number. */
  lemma {:induction false} NatToStringRoundTrip(n: nat)
    ensures DigitsValue(NatToString(n)) == n
    decreases n
  {
    var r := NatToString(n);
    if n >= 10 {
      NatToStringRoundTrip(n / 10);
      assert r[..|r| - 1] == NatToString(n / 10);
    }
  }

  /** Distinct numbers have distinct decimal renderings. */
  lemma NatToStringInjective(a: nat, b: nat)
    requires NatToString(a) == NatToString(b)
    ensures a == b
  {
    NatToStringRoundTrip(a);
    NatToStringRoundTrip(b);
  }

  /** Decimal rendering of an integer, with a leading '-' for negatives. */
  function IntToString(n: int): string
  {
    if n < 0 then "-" + NatToString(-n) else NatToString(n)
  }

  /** Index of the last `c` in `s`, if any. */
  function LastIndex(s: string, c: char): (r: Option<nat>)
    ensures r.Some? ==> r.value < |s| && s[r.value] == c
  {
    if s == [] then None else if s[|s| - 1] == c then Some(|s| - 1) else LastIndex(s[..|s| - 1], c)
  }

  lemma {:induction false} LastIndexIs(a: string, b: string, c: char)
    requires c !in b
    ensures LastIndex(a + [c] + b, c) == Some(|a|)
    decreases |b|
  {
    if b != [] {
      assert b[|b| - 1] in b;
      assert (a + [c] + b)[..|a + [c] + b| - 1] == a + [c] + b[..|b| - 1];
      LastIndexIs(a, b[..|b| - 1], c);
    }
  }

  /** Cancelling around the last separator: if `a + [c] + b == d + [c] + e`
      and neither `b` nor `e` holds `c`, then the parts agree. */
  lemma SplitAtLast(a: string, b: string, d: string, e: string, c: char)
    requires a + [c] + b == d + [c] + e
    requires c !in b && c !in e
    ensures a == d && b == e
  {
    var s := a + [c] + b;
    LastIndexIs(a, b, c);
    LastIndexIs(d, e, c);
    assert a == s[..|a|] == d;
    assert b == s[|a| + 1..] == e;
  }
}

/** The Python string built-ins that the post formatter relies on: `str.find`,
    ASCII `lower`/`upper`, `unicode.isspace`, `strip()`, `split()` without a
    separator, and the way a slice bound is normalised; and `split(sep)`, which
    the formatter does not call but which states how its `/`-separated
    message is read back. Strings are sequences of Unicode
    code points, as Python's `unicode` strings are. */
module PyStr {

  /** The code points for which `unicode.isspace()` holds in the Python 2.7
      runtime (Unicode 5.2 database): those whose bidirectional class is WS,
      B or S, or whose general category is Zs, as inclusive ranges. */
  const SpaceRanges: seq<(int, int)> := [
    (0x09, 0x0D), (0x1C, 0x1F), (0x20, 0x20), (0x85, 0x85), (0xA0, 0xA0),
    (0x1680, 0x1680), (0x180E, 0x180E), (0x2000, 0x200A), (0x2028, 0x2029),
    (0x202F, 0x202F), (0x205F, 0x205F), (0x3000, 0x3000)]

  /** `code` lies in one of the inclusive ranges `ranges[k..]`. */
  predicate InRangesFrom(code: int, ranges: seq<(int, int)>, k: nat)
    decreases |ranges| - k
  {
    k < |ranges| && (ranges[k].0 <= code <= ranges[k].1 || InRangesFrom(code, ranges, k + 1))
  }

  /** `unicode.isspace()`; `split()` and `strip()` without arguments use it. */
  predicate IsSpace(c: char) {
    InRangesFrom(c as int, SpaceRanges, 0)
  }

  /** On ASCII, `isspace()` holds of exactly the control characters tab to
      carriage return (0x09-0x0D), the separators 0x1C-0x1F, and the space. */
  lemma IsSpaceAscii(c: char)
    requires c as int < 0x80
    ensures IsSpace(c) <==> 0x09 <= c as int <= 0x0D || 0x1C <= c as int <= 0x20
  {
    if c as int > 0x20 {
      NotInRangesFrom(c as int, SpaceRanges, 3);
    }
  }

  /** A code point outside each of the ranges `ranges[k..]` is in none of them. */
  lemma {:induction false} NotInRangesFrom(code: int, ranges: seq<(int, int)>, k: nat)
    requires forall j :: k <= j < |ranges| ==> code < ranges[j].0 || ranges[j].1 < code
    ensures !InRangesFrom(code, ranges, k)
    decreases |ranges| - k
  {
    if k < |ranges| {
      NotInRangesFrom(code, ranges, k + 1);
    }
  }

  /** The printable ASCII characters other than the space are not whitespace. */
  lemma PrintableNotSpace(c: char)
    requires '!' <= c <= '~'
    ensures !IsSpace(c)
  {
    assert forall j :: 0 <= j < |SpaceRanges| ==>
      SpaceRanges[j].1 <= 0x20 || 0x85 <= SpaceRanges[j].0;
    NotInRangesFrom(c as int, SpaceRanges, 0);
  }

  ghost predicate AllSpace(s: string) {
    forall i :: 0 <= i < |s| ==> IsSpace(s[i])
  }

  ghost predicate NoSpace(s: string) {
    forall i :: 0 <= i < |s| ==> !IsSpace(s[i])
  }

  // ---------------------------------------------------------------------------
  // Substring search

  /** `sub` occurs in `text` starting at index `i`. */
  ghost predicate OccursAt(text: string, sub: string, i: int) {
    0 <= i && i + |sub| <= |text| && text[i..i + |sub|] == sub
  }

  /** Python's `sub in text`. */
  ghost predicate Contains(text: string, sub: string) {
    exists i :: OccursAt(text, sub, i)
  }

  /** `i` is the lowest index at which `sub` occurs in `text`. */
  ghost predicate IsFirstOccurrence(text: string, sub: string, i: int) {
    OccursAt(text, sub, i) && forall j :: 0 <= j < i ==> !OccursAt(text, sub, j)
  }

  /** A text has at most one first occurrence of a given string. */
  lemma FirstOccurrenceUnique(text: string, sub: string, p: int, q: int)
    requires IsFirstOccurrence(text, sub, p) && IsFirstOccurrence(text, sub, q)
    ensures p == q
  {
  }

  /** `text.find(sub)`: the lowest index where `sub` occurs, or -1 when it
      does not occur. The empty string occurs at index 0 of every text. */
  function Find(text: string, sub: string): (r: int)
    ensures r == -1 || 0 <= r <= |text| - |sub|
    ensures r == -1 <==> !Contains(text, sub)
    ensures r >= 0 ==> IsFirstOccurrence(text, sub, r)
  {
    FindFrom(text, sub, 0)
  }

  /** The search of `Find`, started at index `i`. */
  function FindFrom(text: string, sub: string, i: nat): (r: int)
    requires i <= |text|
    ensures r == -1 || (i <= r && r + |sub| <= |text|)
    ensures r == -1 ==> forall j :: i <= j ==> !OccursAt(text, sub, j)
    ensures r >= 0 ==> OccursAt(text, sub, r) && forall j :: i <= j < r ==> !OccursAt(text, sub, j)
    decreases |text| - i
  {
    if i + |sub| > |text| then -1
    else if text[i..i + |sub|] == sub then i
    else FindFrom(text, sub, i + 1)
  }

  // ---------------------------------------------------------------------------
  // Case mapping (ASCII letters only)

  /** `c.lower()` for ASCII: a capital becomes its own small letter. */
  function LowerChar(c: char): (r: char)
    ensures 'A' <= c <= 'Z' ==> r as int == c as int - 'A' as int + 'a' as int
    ensures !('A' <= r <= 'Z')
    ensures 'a' <= r <= 'z' <==> 'A' <= c <= 'Z' || 'a' <= c <= 'z'
    ensures !('A' <= c <= 'Z') ==> r == c
  {
    if 'A' <= c <= 'Z' then (c as int - 'A' as int + 'a' as int) as char else c
  }

  /** `c.upper()` for ASCII: a small letter becomes its own capital. */
  function UpperChar(c: char): (r: char)
    ensures 'a' <= c <= 'z' ==> r as int == c as int - 'a' as int + 'A' as int
    ensures !('a' <= r <= 'z')
    ensures 'A' <= r <= 'Z' <==> 'A' <= c <= 'Z' || 'a' <= c <= 'z'
    ensures !('a' <= c <= 'z') ==> r == c
  {
    if 'a' <= c <= 'z' then (c as int - 'a' as int + 'A' as int) as char else c
  }

  /** `s.lower()` for a string whose letters are ASCII. */
  function Lower(s: string): (r: string)
    ensures |r| == |s|
    ensures forall i :: 0 <= i < |s| && 'A' <= s[i] <= 'Z' ==>
      r[i] as int == s[i] as int - 'A' as int + 'a' as int
    ensures forall i :: 0 <= i < |s| && !('A' <= s[i] <= 'Z') ==> r[i] == s[i]
  {
    seq(|s|, i requires 0 <= i < |s| => LowerChar(s[i]))
  }

  /** `s.upper()` for a string whose letters are ASCII. */
  function Upper(s: string): (r: string)
    ensures |r| == |s|
    ensures forall i :: 0 <= i < |s| && 'a' <= s[i] <= 'z' ==>
      r[i] as int == s[i] as int - 'a' as int + 'A' as int
    ensures forall i :: 0 <= i < |s| && !('a' <= s[i] <= 'z') ==> r[i] == s[i]
  {
    seq(|s|, i requires 0 <= i < |s| => UpperChar(s[i]))
  }

  /** A string without capitals comes back unchanged from `upper()` followed
      by `lower()`: each small letter returns to itself. */
  lemma LowerUndoesUpper(s: string)
    requires forall i :: 0 <= i < |s| ==> !('A' <= s[i] <= 'Z')
    ensures Lower(Upper(s)) == s
  {
    var r := Lower(Upper(s));
    forall i | 0 <= i < |s|
      ensures r[i] == s[i]
    {
      assert 'a' <= s[i] <= 'z' ==> 'A' <= Upper(s)[i] <= 'Z';
    }
  }

  // ---------------------------------------------------------------------------
  // Slicing

  /** The index a Python slice bound `i` denotes in a string of length `n`:
      a negative bound counts from the end, and the result is clamped to
      `[0, n]`. */
  function SliceIndex(n: nat, i: int): (k: nat)
    ensures k <= n
    ensures 0 <= i <= n ==> k == i
    ensures -(n as int) <= i < 0 ==> k == n + i
    ensures i < -(n as int) ==> k == 0
    ensures n < i ==> k == n
  {
    if i < 0 then (if i + n < 0 then 0 else i + n)
    else if i > n then n
    else i
  }

  // ---------------------------------------------------------------------------
  // Whitespace runs

  /** `s[lo..hi]` is a range of `s` made of whitespace only. */
  ghost predicate SpaceBetween(s: string, lo: int, hi: int) {
    0 <= lo <= hi <= |s| && forall k :: lo <= k < hi ==> IsSpace(s[k])
  }

  /** `s[lo..hi]` is a range of `s` without any whitespace. */
  ghost predicate NoSpaceBetween(s: string, lo: int, hi: int) {
    0 <= lo <= hi <= |s| && forall k :: lo <= k < hi ==> !IsSpace(s[k])
  }

  /** The end of the run of whitespace that starts at `i`. */
  function SkipSpace(s: string, i: nat): (j: nat)
    requires i <= |s|
    ensures SpaceBetween(s, i, j)
    ensures j < |s| ==> !IsSpace(s[j])
    decreases |s| - i
  {
    if i < |s| && IsSpace(s[i]) then SkipSpace(s, i + 1) else i
  }

  /** The end of the run of non-whitespace characters that starts at `i`. */
  function SkipWord(s: string, i: nat): (j: nat)
    requires i <= |s|
    ensures NoSpaceBetween(s, i, j)
    ensures j < |s| ==> IsSpace(s[j])
    decreases |s| - i
  {
    if i < |s| && !IsSpace(s[i]) then SkipWord(s, i + 1) else i
  }

  /** The start of the run of whitespace that ends at `j`, looking no further
      back than `i`. */
  function TrimEnd(s: string, i: nat, j: nat): (e: nat)
    requires i <= j <= |s|
    ensures i <= e && SpaceBetween(s, e, j)
    ensures e > i ==> !IsSpace(s[e - 1])
    decreases j
  {
    if j > i && IsSpace(s[j - 1]) then TrimEnd(s, i, j - 1) else j
  }

  /** `SkipSpace` stops at the first non-whitespace character. */
  lemma {:induction false} SkipSpaceIs(s: string, i: nat, j: nat)
    requires SpaceBetween(s, i, j) && (j < |s| ==> !IsSpace(s[j]))
    ensures SkipSpace(s, i) == j
    decreases j - i
  {
    if i < j {
      SkipSpaceIs(s, i + 1, j);
    }
  }

  /** `SkipWord` stops at the first whitespace character. */
  lemma {:induction false} SkipWordIs(s: string, i: nat, j: nat)
    requires NoSpaceBetween(s, i, j) && (j < |s| ==> IsSpace(s[j]))
    ensures SkipWord(s, i) == j
    decreases j - i
  {
    if i < j {
      SkipWordIs(s, i + 1, j);
    }
  }

  /** `TrimEnd` stops after the last non-whitespace character. */
  lemma {:induction false} TrimEndIs(s: string, i: nat, e: nat, j: nat)
    requires i <= e && SpaceBetween(s, e, j) && (e > i ==> !IsSpace(s[e - 1]))
    ensures TrimEnd(s, i, j) == e
    decreases j
  {
    if e < j {
      TrimEndIs(s, i, e, j - 1);
    }
  }

  // ---------------------------------------------------------------------------
  // strip()

  /** `r` is `s` with exactly its `i` leading and its trailing whitespace cut
      off, and neither end of `r` is whitespace. */
  ghost predicate StrippedAt(s: string, r: string, i: int) {
    0 <= i && i + |r| <= |s| && r == s[i..i + |r|] &&
    SpaceBetween(s, 0, i) && SpaceBetween(s, i + |r|, |s|) &&
    (r == [] || (!IsSpace(r[0]) && !IsSpace(r[|r| - 1])))
  }

  /** `r` is what is left of `s` once whitespace is cut from both ends. */
  ghost predicate IsStripOf(s: string, r: string) {
    exists i :: StrippedAt(s, r, i)
  }

  /** `s.strip()`: whitespace is removed from BOTH ends. */
  function Strip(s: string): (r: string)
    ensures IsStripOf(s, r)
  {
    var i := SkipSpace(s, 0);
    var e := TrimEnd(s, i, |s|);
    var r := s[i..e];
    assert r != [] ==> r[0] == s[i] && r[|r| - 1] == s[e - 1];
    assert StrippedAt(s, r, i);
    r
  }

  /** Cutting whitespace from both ends has one outcome: whatever `r`
      satisfies `IsStripOf(s, r)` is `Strip(s)`. */
  lemma StripUnique(s: string, r: string)
    requires IsStripOf(s, r)
    ensures r == Strip(s)
  {
    var i :| StrippedAt(s, r, i);
    if r == [] {
      assert SpaceBetween(s, 0, |s|);
      SkipSpaceIs(s, 0, |s|);
    } else {
      assert s[i] == r[0] && s[i + |r| - 1] == r[|r| - 1];
      SkipSpaceIs(s, 0, i);
      TrimEndIs(s, i, i + |r|, |s|);
    }
  }

  // ---------------------------------------------------------------------------
  // split()

  /** Removes every whitespace character, keeping the rest in order. */
  function RemoveSpace(s: string): (r: string)
    ensures |r| <= |s|
  {
    if s == [] then []
    else if IsSpace(s[0]) then RemoveSpace(s[1..])
    else [s[0]] + RemoveSpace(s[1..])
  }

  lemma {:induction false} RemoveSpaceAppend(a: string, b: string)
    ensures RemoveSpace(a + b) == RemoveSpace(a) + RemoveSpace(b)
    decreases |a|
  {
    if a != [] {
      assert (a + b)[0] == a[0];
      assert (a + b)[1..] == a[1..] + b;
      RemoveSpaceAppend(a[1..], b);
    } else {
      assert a + b == b;
    }
  }

  lemma {:induction false} RemoveSpaceOfSpace(s: string)
    requires AllSpace(s)
    ensures RemoveSpace(s) == []
    decreases |s|
  {
    if s != [] {
      RemoveSpaceOfSpace(s[1..]);
    }
  }

  lemma {:induction false} RemoveSpaceOfWord(s: string)
    requires NoSpace(s)
    ensures RemoveSpace(s) == s
    decreases |s|
  {
    if s != [] {
      RemoveSpaceOfWord(s[1..]);
    }
  }

  function Concat(ws: seq<string>): string {
    if ws == [] then [] else ws[0] + Concat(ws[1..])
  }

  /** A piece `split()` can produce: non-empty and free of whitespace. */
  ghost predicate IsWord(w: string) {
    w != [] && NoSpace(w)
  }

  ghost predicate AllWords(ws: seq<string>) {
    forall k :: 0 <= k < |ws| ==> IsWord(ws[k])
  }

  /** From index `i`, `s` holds whitespace up to `j` and then the word `w`,
      which runs up to the next whitespace character or to the end of `s`. */
  ghost predicate WordAt(s: string, i: int, j: int, w: string) {
    SpaceBetween(s, i, j) && j + |w| <= |s| && IsWord(w) &&
    s[j..j + |w|] == w && (j + |w| == |s| || IsSpace(s[j + |w|]))
  }

  /** From index `i`, `s` is whitespace and the words `ws`, in order: each
      word is a maximal run of non-whitespace characters, and the runs
      between words and at both ends are whitespace. */
  ghost predicate SplitsIntoFrom(s: string, i: int, ws: seq<string>)
    decreases |ws|
  {
    if ws == [] then SpaceBetween(s, i, |s|)
    else exists j :: WordAt(s, i, j, ws[0]) && SplitsIntoFrom(s, j + |ws[0]|, ws[1..])
  }

  ghost predicate SplitsInto(s: string, ws: seq<string>) {
    SplitsIntoFrom(s, 0, ws)
  }

  /** The words of `s[i..]`, found by walking `s` from index `i`. */
  function SplitFrom(s: string, i: nat): seq<string>
    requires i <= |s|
    decreases |s| - i
  {
    var j := SkipSpace(s, i);
    if j == |s| then []
    else
      var k := SkipWord(s, j);
      [s[j..k]] + SplitFrom(s, k)
  }

  /** `s.split()`: the maximal runs of non-whitespace characters, in order.
      Its properties are the lemmas below: `SplitSplitsInto` with
      `SplitsIntoUnique`, and `SplitConcat`. */
  function Split(s: string): seq<string> {
    SplitFrom(s, 0)
  }

  /** The characters of a whitespace-free word `w` at `j` are a range of `s`
      without whitespace. */
  lemma WordRange(s: string, j: nat, w: string)
    requires j + |w| <= |s| && s[j..j + |w|] == w && NoSpace(w)
    ensures NoSpaceBetween(s, j, j + |w|)
  {
    forall t | j <= t < j + |w| ensures !IsSpace(s[t]) {
      assert s[t] == w[t - j];
    }
  }

  /** A word that fills `s[j..k]` has no whitespace. */
  lemma WordBetween(s: string, j: nat, k: nat)
    requires NoSpaceBetween(s, j, k)
    ensures NoSpace(s[j..k])
  {
    assert forall t :: 0 <= t < k - j ==> s[j..k][t] == s[j + t];
  }

  /** When `s` holds the word `w` after the whitespace `s[i..j]`, `w` is the
      first word from `i`, and the other words are those after it. */
  lemma SplitFromWordAt(s: string, i: nat, j: nat, w: string)
    requires WordAt(s, i, j, w)
    ensures SplitFrom(s, i) == [w] + SplitFrom(s, j + |w|)
  {
    WordRange(s, j, w);
    SkipSpaceIs(s, i, j);
    SkipWordIs(s, j, j + |w|);
  }

  /** Whitespace only, from `i` on, holds no word. */
  lemma SplitFromOfSpace(s: string, i: nat)
    requires SpaceBetween(s, i, |s|)
    ensures SplitFrom(s, i) == []
  {
    SkipSpaceIs(s, i, |s|);
  }

  /** A word after `i` followed by a text that splits into `rest`. */
  lemma SplitsIntoCons(s: string, i: nat, j: nat, w: string, rest: seq<string>)
    requires WordAt(s, i, j, w) && SplitsIntoFrom(s, j + |w|, rest)
    ensures SplitsIntoFrom(s, i, [w] + rest)
  {
    var ws := [w] + rest;
    assert ws[0] == w && ws[1..] == rest;
  }

  lemma {:induction false} SplitFromSplitsInto(s: string, i: nat)
    requires i <= |s|
    ensures SplitsIntoFrom(s, i, SplitFrom(s, i))
    decreases |s| - i
  {
    var j := SkipSpace(s, i);
    if j < |s| {
      var k := SkipWord(s, j);
      WordBetween(s, j, k);
      assert WordAt(s, i, j, s[j..k]);
      SplitFromSplitsInto(s, k);
      SplitsIntoCons(s, i, j, s[j..k], SplitFrom(s, k));
    }
  }

  lemma {:induction false} SplitsIntoFromUnique(s: string, i: nat, ws: seq<string>)
    requires i <= |s| && SplitsIntoFrom(s, i, ws)
    ensures ws == SplitFrom(s, i)
    decreases |ws|
  {
    if ws == [] {
      SplitFromOfSpace(s, i);
    } else {
      var w := ws[0];
      var j :| WordAt(s, i, j, w) && SplitsIntoFrom(s, j + |w|, ws[1..]);
      SplitsIntoFromUnique(s, j + |w|, ws[1..]);
      SplitFromWordAt(s, i, j, w);
      assert ws == [w] + ws[1..];
    }
  }

  /** The words `split()` returns are the maximal whitespace-free runs of `s`,
      in order. */
  lemma SplitSplitsInto(s: string)
    ensures SplitsInto(s, Split(s))
  {
    SplitFromSplitsInto(s, 0);
  }

  /** `SplitsInto` determines the words: `Split` is the only list of words
      that `s` splits into. */
  lemma SplitsIntoUnique(s: string, ws: seq<string>)
    requires SplitsInto(s, ws)
    ensures ws == Split(s)
  {
    SplitsIntoFromUnique(s, 0, ws);
  }

  /** The whitespace removed from `s[i..]` is that of `s[i..j]`, which is all
      whitespace, of `s[j..k]`, which has none, and of the rest. */
  lemma RemoveSpaceStep(s: string, i: nat, j: nat, k: nat)
    requires SpaceBetween(s, i, j) && NoSpaceBetween(s, j, k)
    ensures RemoveSpace(s[i..]) == s[j..k] + RemoveSpace(s[k..])
  {
    var lead, w, tail := s[i..j], s[j..k], s[k..];
    assert s[i..] == lead + (w + tail);
    assert forall t :: 0 <= t < |lead| ==> lead[t] == s[i + t];
    RemoveSpaceAppend(lead, w + tail);
    RemoveSpaceOfSpace(lead);
    WordBetween(s, j, k);
    RemoveSpaceAppend(w, tail);
    RemoveSpaceOfWord(w);
    assert [] + (w + RemoveSpace(tail)) == w + RemoveSpace(tail);
  }

  lemma {:induction false} SplitFromConcat(s: string, i: nat)
    requires i <= |s|
    ensures Concat(SplitFrom(s, i)) == RemoveSpace(s[i..])
    decreases |s| - i
  {
    var j := SkipSpace(s, i);
    if j == |s| {
      assert forall t :: 0 <= t < |s[i..]| ==> s[i..][t] == s[i + t];
      RemoveSpaceOfSpace(s[i..]);
    } else {
      var k := SkipWord(s, j);
      var ws := SplitFrom(s, i);
      assert ws[0] == s[j..k] && ws[1..] == SplitFrom(s, k);
      SplitFromConcat(s, k);
      RemoveSpaceStep(s, i, j, k);
    }
  }

  /** The words hold every non-whitespace character of `s`, in order, and
      nothing else. */
  lemma SplitConcat(s: string)
    ensures Concat(Split(s)) == RemoveSpace(s)
  {
    SplitFromConcat(s, 0);
    assert s[0..] == s;
  }

  /** Text put in front of `t` moves the end of a whitespace run along by
      its length. */
  lemma {:induction false} SkipSpacePrefix(p: string, t: string, i: nat)
    requires i <= |t|
    ensures SkipSpace(p + t, |p| + i) == |p| + SkipSpace(t, i)
    decreases |t| - i
  {
    if i < |t| {
      assert (p + t)[|p| + i] == t[i];
      if IsSpace(t[i]) {
        SkipSpacePrefix(p, t, i + 1);
      }
    }
  }

  /** Text put in front of `t` moves the end of a word along by its length. */
  lemma {:induction false} SkipWordPrefix(p: string, t: string, i: nat)
    requires i <= |t|
    ensures SkipWord(p + t, |p| + i) == |p| + SkipWord(t, i)
    decreases |t| - i
  {
    if i < |t| {
      assert (p + t)[|p| + i] == t[i];
      if !IsSpace(t[i]) {
        SkipWordPrefix(p, t, i + 1);
      }
    }
  }

  /** Text put in front of `t` does not change the words found from a
      position inside `t`. */
  lemma {:induction false} SplitFromPrefix(p: string, t: string, i: nat)
    requires i <= |t|
    ensures SplitFrom(p + t, |p| + i) == SplitFrom(t, i)
    decreases |t| - i
  {
    var s := p + t;
    SkipSpacePrefix(p, t, i);
    var j := SkipSpace(t, i);
    if j == |t| {
      assert SplitFrom(s, |p| + i) == [];
    } else {
      SkipWordPrefix(p, t, j);
      var k := SkipWord(t, j);
      SlicePrefix(p, t, j, k);
      SplitFromPrefix(p, t, k);
      assert SplitFrom(s, |p| + i) == [s[|p| + j..|p| + k]] + SplitFrom(s, |p| + k);
      assert SplitFrom(t, i) == [t[j..k]] + SplitFrom(t, k);
    }
  }

  lemma SlicePrefix(p: string, t: string, j: nat, k: nat)
    requires j <= k <= |t|
    ensures (p + t)[|p| + j..|p| + k] == t[j..k]
  {
    forall x | 0 <= x < k - j ensures (p + t)[|p| + j..|p| + k][x] == t[j..k][x] {
      assert (p + t)[|p| + j + x] == t[j + x];
    }
  }

  /** A whitespace character at `i` adds no word. */
  lemma SplitFromSkip(s: string, i: nat)
    requires i < |s| && IsSpace(s[i])
    ensures SplitFrom(s, i) == SplitFrom(s, i + 1)
  {
    assert SkipSpace(s, i) == SkipSpace(s, i + 1);
  }

  /** A whitespace character in front of a text adds no word. */
  lemma SplitSkipsLeadingSpace(c: char, s: string)
    requires IsSpace(c)
    ensures Split([c] + s) == Split(s)
  {
    SplitFromSkip([c] + s, 0);
    SplitFromPrefix([c], s, 0);
  }

  /** Words joined with single spaces, as `" ".join(ws)`. */
  function JoinWords(ws: seq<string>): string {
    if ws == [] then []
    else if |ws| == 1 then ws[0]
    else ws[0] + " " + JoinWords(ws[1..])
  }

  /** A single word is split into itself. */
  lemma SplitWord(w: string)
    requires IsWord(w)
    ensures Split(w) == [w]
  {
    assert w[0..|w|] == w;
    assert WordAt(w, 0, 0, w);
    SplitFromWordAt(w, 0, 0, w);
    SplitFromOfSpace(w, |w|);
  }

  /** A word, a space and a text: the word, then the words of the text. */
  lemma SplitWordSpace(w: string, t: string)
    requires IsWord(w)
    ensures Split(w + " " + t) == [w] + Split(t)
  {
    var p := w + " ";
    var s := p + t;
    WordThenSpace(w, t);
    SplitFromWordAt(s, 0, 0, w);
    SplitFromSkip(s, |w|);
    SplitFromPrefix(p, t, 0);
  }

  lemma WordThenSpace(w: string, t: string)
    requires IsWord(w)
    ensures WordAt(w + " " + t, 0, 0, w)
    ensures (w + " " + t)[|w|] == ' ' && IsSpace(' ')
  {
    var s := w + " " + t;
    assert s[0..|w|] == w;
    assert s[|w|] == ' ';
  }

  /** `split()` undoes `" ".join(...)` on a list of words. */
  lemma {:induction false} SplitJoinWords(ws: seq<string>)
    requires AllWords(ws)
    ensures Split(JoinWords(ws)) == ws
    decreases |ws|
  {
    if ws != [] {
      var w := ws[0];
      assert IsWord(w);
      if |ws| == 1 {
        SplitWord(w);
      } else {
        assert AllWords(ws[1..]) by {
          assert forall k :: 0 <= k < |ws| - 1 ==> ws[1..][k] == ws[k + 1];
        }
        SplitJoinWords(ws[1..]);
        SplitWordSpace(w, JoinWords(ws[1..]));
        assert ws == [w] + ws[1..];
      }
    }
  }

  // ---------------------------------------------------------------------------
  // split(sep)

  /** `s.split(sep)` for a one-character separator: the pieces between the
      separators, empty ones included; always at least one piece. */
  function SplitOn(s: string, sep: char): (r: seq<string>)
    ensures |r| >= 1
    decreases |s|
  {
    if s == [] then [[]]
    else
      var rest := SplitOn(s[1..], sep);
      if s[0] == sep then [[]] + rest
      else [[s[0]] + rest[0]] + rest[1..]
  }

  lemma {:induction false} SplitOnPiece(a: string, sep: char, b: string)
    requires sep !in a
    ensures SplitOn(a + b, sep) == [a + SplitOn(b, sep)[0]] + SplitOn(b, sep)[1..]
    decreases |a|
  {
    if a != [] {
      assert (a + b)[0] == a[0];
      assert (a + b)[1..] == a[1..] + b;
      SplitOnPiece(a[1..], sep, b);
      assert [a[0]] + (a[1..] + SplitOn(b, sep)[0]) == a + SplitOn(b, sep)[0];
    } else {
      assert a + b == b;
      assert a + SplitOn(b, sep)[0] == SplitOn(b, sep)[0];
      assert SplitOn(b, sep) == [SplitOn(b, sep)[0]] + SplitOn(b, sep)[1..];
    }
  }

  /** Splitting `a + sep + b` where `a` holds no separator yields `a` and
      then the pieces of `b`. */
  lemma SplitOnFirst(a: string, sep: char, b: string)
    requires sep !in a
    ensures SplitOn(a + [sep] + b, sep) == [a] + SplitOn(b, sep)
  {
    SplitOnPiece(a, sep, [sep] + b);
    assert ([sep] + b)[1..] == b;
    var pieces := SplitOn([sep] + b, sep);
    assert pieces == [[]] + SplitOn(b, sep);
    assert a + pieces[0] == a;
    assert pieces[1..] == SplitOn(b, sep);
    assert a + [sep] + b == a + ([sep] + b);
  }

  /** A text without the separator is a single piece. */
  lemma SplitOnNone(a: string, sep: char)
    requires sep !in a
    ensures SplitOn(a, sep) == [a]
  {
    SplitOnPiece(a, sep, []);
    assert a + [] == a;
  }
}

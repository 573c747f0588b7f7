/** The three text helpers of the formatter: `only_alphanumeric`,
    `insert_into_text` and `insert_hashtag`. */
module Hashtag {
  import opened PyStr

  /** Membership in the character class `[a-zA-Z0-9]`. */
  predicate IsAlnum(c: char) {
    'a' <= c <= 'z' || 'A' <= c <= 'Z' || '0' <= c <= '9'
  }

  ghost predicate AllAlnum(s: string) {
    forall i :: 0 <= i < |s| ==> IsAlnum(s[i])
  }

  /** `r` can be obtained from `s` by deleting characters, the rest keeping
      their order (matched greedily from the left). */
  ghost predicate IsSubsequence(r: string, s: string)
    decreases |s|
  {
    r == [] ||
    (s != [] &&
     if r[0] == s[0] then IsSubsequence(r[1..], s[1..]) else IsSubsequence(r, s[1..]))
  }

  // ---------------------------------------------------------------------------
  // only_alphanumeric

  /** `only_alphanumeric(text)`: every match of `[^a-zA-Z0-9]` is replaced by
      the empty string. What is left is a subsequence of the input made only
      of alphanumerics, and it keeps every alphanumeric of the input as often
      as the input has it. */
  function OnlyAlphanumeric(s: string): (r: string)
    ensures AllAlnum(r)
    ensures IsSubsequence(r, s)
    ensures forall c :: IsAlnum(c) ==> multiset(r)[c] == multiset(s)[c]
    ensures forall c :: !IsAlnum(c) ==> c !in r
    decreases |s|
  {
    if s == [] then []
    else
      var rest := OnlyAlphanumeric(s[1..]);
      assert s == [s[0]] + s[1..];
      if IsAlnum(s[0]) then
        assert ([s[0]] + rest)[1..] == rest;
        [s[0]] + rest
      else
        rest
  }

  /** A text that is already alphanumeric passes through unchanged. */
  lemma {:induction false} OnlyAlphanumericKeepsAlnum(s: string)
    requires AllAlnum(s)
    ensures OnlyAlphanumeric(s) == s
    decreases |s|
  {
    if s != [] {
      OnlyAlphanumericKeepsAlnum(s[1..]);
    }
  }

  /** Applying `only_alphanumeric` twice is the same as applying it once. */
  lemma OnlyAlphanumericIdempotent(s: string)
    ensures OnlyAlphanumeric(OnlyAlphanumeric(s)) == OnlyAlphanumeric(s)
  {
    OnlyAlphanumericKeepsAlnum(OnlyAlphanumeric(s));
  }

  /** The result of `only_alphanumeric` is the only alphanumeric subsequence
      of `s` that keeps all of its alphanumerics: the three properties of
      `OnlyAlphanumeric`'s contract determine it. */
  lemma {:induction false} OnlyAlphanumericUnique(s: string, r: string)
    requires AllAlnum(r) && IsSubsequence(r, s)
    requires forall c :: IsAlnum(c) ==> multiset(r)[c] == multiset(s)[c]
    ensures r == OnlyAlphanumeric(s)
    decreases |s|
  {
    if s == [] {
      assert r == [];
    } else {
      assert s == [s[0]] + s[1..];
      if r != [] && r[0] == s[0] {
        assert r == [r[0]] + r[1..];
        assert IsAlnum(s[0]);
        OnlyAlphanumericUnique(s[1..], r[1..]);
      } else if IsAlnum(s[0]) {
        // r skips s[0], so r holds fewer copies of it than s does
        SubsequenceCount(r, s[1..], s[0]);
        assert false;
      } else {
        OnlyAlphanumericUnique(s[1..], r);
      }
    }
  }

  /** A subsequence never holds more copies of a character than the text. */
  lemma {:induction false} SubsequenceCount(r: string, s: string, c: char)
    requires IsSubsequence(r, s)
    ensures multiset(r)[c] <= multiset(s)[c]
    decreases |s|
  {
    if r != [] {
      assert s == [s[0]] + s[1..];
      if r[0] == s[0] {
        assert r == [r[0]] + r[1..];
        SubsequenceCount(r[1..], s[1..], c);
      } else {
        SubsequenceCount(r, s[1..], c);
      }
    }
  }

  /** A tag after `only_alphanumeric` keeps its lower- and upper-case variants
      alphanumeric, so ASCII case mapping is all they need. */
  lemma CaseVariantsAlphanumeric(s: string)
    ensures AllAlnum(Lower(OnlyAlphanumeric(s)))
    ensures AllAlnum(Upper(OnlyAlphanumeric(s)))
  {
  }

  // ---------------------------------------------------------------------------
  // insert_into_text

  /** `insert_into_text(insertable, text, index)`, that is
      `text[:index] + insertable + text[index:]`, with Python's reading of a
      negative or out-of-range slice bound. */
  function InsertIntoText(ins: string, text: string, index: int): (r: string)
    ensures |r| == |text| + |ins|
    ensures var k := SliceIndex(|text|, index);
      r[..k] == text[..k] && r[k..k + |ins|] == ins && r[k + |ins|..] == text[k..]
    ensures var k := SliceIndex(|text|, index); r[..k] + r[k + |ins|..] == text
  {
    var k := SliceIndex(|text|, index);
    var r := text[..k] + ins + text[k..];
    assert r[..k] == text[..k];
    assert r[k..k + |ins|] == ins;
    assert r[k + |ins|..] == text[k..];
    r
  }

  // ---------------------------------------------------------------------------
  // insert_hashtag

  /** `r` is `text` with one `#` put at index `p`. */
  ghost predicate HashedAt(text: string, r: string, p: int) {
    0 <= p <= |text| && r == text[..p] + "#" + text[p..]
  }

  /** `r` is `text` with one `#` put in front of the first occurrence of `v`. */
  ghost predicate HashedBefore(text: string, v: string, r: string) {
    exists p :: IsFirstOccurrence(text, v, p) && HashedAt(text, r, p)
  }

  /** The case variants `insert_hashtag` tries, in priority order. */
  function Variants(tag: string): (vs: seq<string>)
    ensures |vs| == 3 && vs[0] == tag
  {
    [tag, Lower(tag), Upper(tag)]
  }

  /** `insert_into_text('#', text, p)` at an index inside the text puts the
      `#` exactly there. */
  function HashAt(text: string, p: nat): (r: string)
    requires p <= |text|
    ensures HashedAt(text, r, p)
  {
    var r := InsertIntoText("#", text, p);
    assert r == r[..p] + r[p..p + 1] + r[p + 1..];
    r
  }

  /** What the loop of `insert_hashtag` computes over the variants `vs`: a
      `#` before the first occurrence of the first of them that `text.find`
      locates, or `text` itself when it locates none. */
  function HashFirstOf(text: string, vs: seq<string>): string
    decreases |vs|
  {
    if vs == [] then text
    else
      var p := Find(text, vs[0]);
      if p >= 0 then HashAt(text, p) else HashFirstOf(text, vs[1..])
  }

  /** What `insert_hashtag(text, tag)` returns: a `#` before the first
      occurrence of the tag as it is, or else of its lower-case form, or else
      of its upper-case form; the text unchanged when none of them occurs. */
  function Hashtagged(text: string, tag: string): (r: string)
    ensures Contains(text, tag) ==> HashedBefore(text, tag, r)
    ensures !Contains(text, tag) && Contains(text, Lower(tag)) ==>
            HashedBefore(text, Lower(tag), r)
    ensures !Contains(text, tag) && !Contains(text, Lower(tag)) && Contains(text, Upper(tag)) ==>
            HashedBefore(text, Upper(tag), r)
    ensures !Contains(text, tag) && !Contains(text, Lower(tag)) && !Contains(text, Upper(tag)) ==>
            r == text
  {
    var p := Find(text, tag);
    if p >= 0 then HashAt(text, p)
    else
      var q := Find(text, Lower(tag));
      if q >= 0 then HashAt(text, q)
      else
        var u := Find(text, Upper(tag));
        if u >= 0 then HashAt(text, u) else text
  }

  /** The loop over the three variants computes `Hashtagged`. */
  lemma HashFirstOfVariants(text: string, tag: string)
    ensures HashFirstOf(text, Variants(tag)) == Hashtagged(text, tag)
  {
    var vs := Variants(tag);
    var vs1, vs2 := vs[1..], vs[1..][1..];
    assert vs1 == [Lower(tag), Upper(tag)] && vs2 == [Upper(tag)] && vs2[1..] == [];
    assert HashFirstOf(text, vs2) == Hashtagged(text, tag) || Find(text, tag) >= 0 || Find(text, Lower(tag)) >= 0;
  }

  /** A hashtag insertion adds exactly one `#` and nothing else. */
  lemma HashedBeforeGrows(text: string, v: string, r: string)
    requires HashedBefore(text, v, r)
    ensures |r| == |text| + 1
    ensures multiset(r) == multiset(text) + multiset{'#'}
  {
    var p :| IsFirstOccurrence(text, v, p) && HashedAt(text, r, p);
    assert text == text[..p] + text[p..];
  }

  /** `insert_hashtag` leaves the text alone exactly when none of the three
      variants occurs, and otherwise adds exactly one `#` and nothing else. */
  lemma HashtaggedGrowth(text: string, tag: string)
    ensures var r := Hashtagged(text, tag);
      (r == text <==> !Contains(text, tag) && !Contains(text, Lower(tag)) && !Contains(text, Upper(tag))) &&
      (r != text ==> |r| == |text| + 1 && multiset(r) == multiset(text) + multiset{'#'})
  {
    var r := Hashtagged(text, tag);
    if Contains(text, tag) {
      HashedBeforeGrows(text, tag, r);
    } else if Contains(text, Lower(tag)) {
      HashedBeforeGrows(text, Lower(tag), r);
    } else if Contains(text, Upper(tag)) {
      HashedBeforeGrows(text, Upper(tag), r);
    }
  }

  /** An empty tag (a word with no alphanumerics) occurs at index 0 of every
      text, so `insert_hashtag` puts `#` at the very start. */
  lemma HashtaggedEmptyTag(text: string)
    ensures Hashtagged(text, "") == "#" + text
  {
    assert OccursAt(text, "", 0);
    var r := Hashtagged(text, "");
    var p :| IsFirstOccurrence(text, "", p) && HashedAt(text, r, p);
    assert p == 0;
  }

  /** `insert_hashtag`: tries the variants in order, stopping at the first
      one that `text.find` locates. */
  method InsertHashtag(text: string, tag: string) returns (r: string)
    ensures r == Hashtagged(text, tag)
  {
    HashFirstOfVariants(text, tag);
    r := text;
    var variants := Variants(tag);
    var i := 0;
    while i < |variants|
      invariant 0 <= i <= |variants|
      invariant r == text
      invariant HashFirstOf(text, variants) == HashFirstOf(text, variants[i..])
    {
      var pos := Find(r, variants[i]);
      if pos >= 0 {
        r := InsertIntoText("#", r, pos);
        return;
      }
      assert variants[i..][1..] == variants[i + 1..];
      i := i + 1;
    }
  }
}

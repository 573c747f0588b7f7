/** The formatting part of `nychickens()`: from one chosen report to the text
    of a post of at most 140 characters and the report's coordinates. */
module Tweet {
  import opened PyStr
  import opened Hashtag

  /** A latitude or longitude as it comes from the dataset. The formatter
      passes it through untouched, so its representation does not matter. */
  type Coordinate

  /** One record of the dataset. */
  datatype Report = Report(
    animal: string,
    complaintDetails: string,
    additionalLocationDetails: string,
    parkOrFacility: string,
    siteCityZip: string,
    lat: Coordinate,
    lng: Coordinate)

  /** The longest post the service accepts. */
  const MaxLength: nat := 140

  /** U+2026 HORIZONTAL ELLIPSIS, appended to a truncated post. */
  const Ellipsis: char := '\U{2026}'

  // ---------------------------------------------------------------------------
  // The tag loop

  /** The complaint after each of `tags`, made alphanumeric, has had its
      hashtag inserted, in order, each into the text the previous ones left. */
  function Annotated(complaint: string, tags: seq<string>): (r: string)
    ensures |complaint| <= |r| <= |complaint| + |tags|
    ensures forall c :: c != '#' ==> multiset(r)[c] == multiset(complaint)[c]
    ensures multiset(r)['#'] == multiset(complaint)['#'] + (|r| - |complaint|)
    decreases |tags|
  {
    if tags == [] then complaint
    else
      var before := Annotated(complaint, tags[..|tags| - 1]);
      var tag := OnlyAlphanumeric(tags[|tags| - 1]);
      HashtaggedGrowth(before, tag);
      Hashtagged(before, tag)
  }

  /** Each step of the tag loop adds no character or a single `#`. */
  lemma AnnotatedStep(complaint: string, tags: seq<string>, tag: string)
    ensures var before := Annotated(complaint, tags);
      var after := Annotated(complaint, tags + [tag]);
      after == Hashtagged(before, OnlyAlphanumeric(tag)) &&
      (after == before || (|after| == |before| + 1 && multiset(after) == multiset(before) + multiset{'#'}))
  {
    assert (tags + [tag])[..|tags|] == tags;
    HashtaggedGrowth(Annotated(complaint, tags), OnlyAlphanumeric(tag));
  }

  /** The loop's step: the tags up to `i` inclusive are the tags before `i`
      followed by the hashtag of tag `i`. */
  lemma AnnotatedNext(complaint: string, tags: seq<string>, i: nat)
    requires i < |tags|
    ensures Annotated(complaint, tags[..i + 1]) ==
            Hashtagged(Annotated(complaint, tags[..i]), OnlyAlphanumeric(tags[i]))
  {
    assert tags[..i + 1][..i] == tags[..i];
  }

  /** The first tag is applied to the original complaint and the remaining
      tags to the result: the words are processed front to back. */
  lemma {:induction false} AnnotatedFirstTag(complaint: string, tag: string, tags: seq<string>)
    ensures Annotated(complaint, [tag] + tags) ==
            Annotated(Hashtagged(complaint, OnlyAlphanumeric(tag)), tags)
    decreases |tags|
  {
    if tags == [] {
      assert ([tag] + tags)[..0] == [];
    } else {
      var all := [tag] + tags;
      var init, last := tags[..|tags| - 1], tags[|tags| - 1];
      var first := Hashtagged(complaint, OnlyAlphanumeric(tag));
      assert all[..|all| - 1] == [tag] + init && all[|all| - 1] == last;
      AnnotatedFirstTag(complaint, tag, init);
      calc {
        Annotated(complaint, all);
        Hashtagged(Annotated(complaint, [tag] + init), OnlyAlphanumeric(last));
        Hashtagged(Annotated(first, init), OnlyAlphanumeric(last));
        Annotated(first, tags);
      }
    }
  }

  // ---------------------------------------------------------------------------
  // Assembly and truncation

  /** The complaint followed by the three location fields, `/` between each. */
  function Assembled(complaint: string, report: Report): (msg: string)
    ensures |msg| == |complaint| + |report.additionalLocationDetails| +
                     |report.parkOrFacility| + |report.siteCityZip| + 3
    ensures msg[..|complaint|] == complaint && msg[|complaint|] == '/'
  {
    complaint + "/" + report.additionalLocationDetails + "/" +
    report.parkOrFacility + "/" + report.siteCityZip
  }

  /** When none of the four parts holds a `/`, splitting the assembled
      message on `/` gives the four parts back. */
  lemma AssembledSplits(complaint: string, report: Report)
    requires '/' !in complaint && '/' !in report.additionalLocationDetails
    requires '/' !in report.parkOrFacility && '/' !in report.siteCityZip
    ensures SplitOn(Assembled(complaint, report), '/') ==
            [complaint, report.additionalLocationDetails, report.parkOrFacility, report.siteCityZip]
  {
    var a, p, z := report.additionalLocationDetails, report.parkOrFacility, report.siteCityZip;
    assert Assembled(complaint, report) == complaint + ['/'] + (a + ['/'] + (p + ['/'] + z));
    SplitOnFirst(complaint, '/', a + ['/'] + (p + ['/'] + z));
    SplitOnFirst(a, '/', p + ['/'] + z);
    SplitOnFirst(p, '/', z);
    SplitOnNone(z, '/');
  }

  /** The length policy: a message of more than 140 characters is cut to its
      first 139, stripped of whitespace at both ends, and given an ellipsis. */
  function Truncated(msg: string): (r: string)
    ensures |r| <= MaxLength
    ensures |msg| <= MaxLength ==> r == msg
    ensures |msg| > MaxLength ==>
      r != [] && r[|r| - 1] == Ellipsis &&
      IsStripOf(msg[..MaxLength - 1], r[..|r| - 1])
  {
    if |msg| > MaxLength then
      var kept := Strip(msg[..MaxLength - 1]);
      assert (kept + [Ellipsis])[..|kept|] == kept;
      kept + [Ellipsis]
    else msg
  }

  /** The post text made from one report. */
  function Formatted(report: Report): (tweet: string)
    ensures 0 < |tweet| <= MaxLength
  {
    var complaint := Annotated(report.complaintDetails, Split(report.animal));
    Truncated(Assembled(complaint, report))
  }

  /** The formatting part of `nychickens()`. `pick` stands for the index
      `random.choice` draws from the dataset. */
  method Nychickens(data: seq<Report>, pick: nat) returns (tweet: string, coords: (Coordinate, Coordinate))
    requires pick < |data|
    ensures tweet == Formatted(data[pick])
    ensures coords == (data[pick].lat, data[pick].lng)
  {
    var report := data[pick];
    var tags := Split(report.animal);
    var complaint := report.complaintDetails;
    var i := 0;
    while i < |tags|
      invariant 0 <= i <= |tags|
      invariant complaint == Annotated(report.complaintDetails, tags[..i])
    {
      var tag := OnlyAlphanumeric(tags[i]);
      complaint := InsertHashtag(complaint, tag);
      AnnotatedNext(report.complaintDetails, tags, i);
      i := i + 1;
    }
    assert tags[..i] == tags;
    var msg := Assembled(complaint, report);
    tweet := msg;
    if |msg| > MaxLength {
      tweet := Strip(msg[..MaxLength - 1]) + [Ellipsis];
    }
    assert tweet == Truncated(msg);
    coords := (report.lat, report.lng);
  }

  // ---------------------------------------------------------------------------
  // A worked example

  lemma AnnotatedOneTag(complaint: string, tag: string)
    ensures Annotated(complaint, [tag]) == Hashtagged(complaint, OnlyAlphanumeric(tag))
  {
    assert [tag][..0] == [];
  }

  lemma FormattedShort(report: Report)
    requires |Assembled(Annotated(report.complaintDetails, Split(report.animal)), report)| <= MaxLength
    ensures Formatted(report) == Assembled(Annotated(report.complaintDetails, Split(report.animal)), report)
  {
  }

  lemma ChickenAbsent()
    ensures !Contains("Found a chicken head", "Chicken")
  {
    var text := "Found a chicken head";
    forall i ensures !OccursAt(text, "Chicken", i) {
      if 0 <= i && i + 7 <= |text| {
        assert text[i..i + 7][0] == text[i] != 'C';
      }
    }
  }

  lemma ChickenFirstAt8()
    ensures IsFirstOccurrence("Found a chicken head", "chicken", 8)
  {
    var text := "Found a chicken head";
    assert text[8..15] == "chicken";
    forall j | 0 <= j < 8 ensures !OccursAt(text, "chicken", j) {
      assert text[j..j + 7][0] == text[j] != 'c';
    }
  }

  lemma ChickenLowerHashed()
    ensures HashedBefore("Found a chicken head", "chicken", Hashtagged("Found a chicken head", "Chicken"))
  {
    ChickenAbsent();
    ChickenFirstAt8();
    assert Lower("Chicken") == "chicken";
    assert Contains("Found a chicken head", "chicken");
  }

  lemma ChickenHashedAt8(text: string, tagged: string)
    requires text == "Found a chicken head"
    requires HashedBefore(text, "chicken", tagged)
    ensures tagged == "Found a #chicken head"
  {
    var p :| IsFirstOccurrence(text, "chicken", p) && HashedAt(text, tagged, p);
    ChickenFirstAt8();
    FirstOccurrenceUnique(text, "chicken", p, 8);
    assert text[..8] == "Found a " && text[8..] == "chicken head";
  }

  /** The tag as written does not occur in "Found a chicken head"; its
      lower-case form does, first at index 8, and gets the `#`. */
  lemma ChickenTagged()
    ensures Hashtagged("Found a chicken head", "Chicken") == "Found a #chicken head"
  {
    ChickenLowerHashed();
    ChickenHashedAt8("Found a chicken head", Hashtagged("Found a chicken head", "Chicken"));
  }

  lemma ChickenSplit(animal: string)
    requires animal == "Chicken"
    ensures Split(animal) == [animal]
  {
    forall k | 0 <= k < |animal| ensures !IsSpace(animal[k]) {
      PrintableNotSpace(animal[k]);
    }
    assert animal[0..7] == animal;
    assert WordAt(animal, 0, 0, animal);
    SplitFromWordAt(animal, 0, 0, animal);
    SplitFromOfSpace(animal, 7);
  }

  lemma ChickenIsAlnum(animal: string)
    requires animal == "Chicken"
    ensures AllAlnum(animal)
  {
  }

  lemma ChickenAnnotated(complaint: string, animal: string)
    requires complaint == "Found a chicken head" && animal == "Chicken"
    ensures Annotated(complaint, Split(animal)) == "Found a #chicken head"
  {
    ChickenSplit(animal);
    ChickenIsAlnum(animal);
    OnlyAlphanumericKeepsAlnum(animal);
    AnnotatedOneTag(complaint, animal);
    ChickenTagged();
  }

  /** The report `Chicken` / "Found a chicken head": the tag becomes
      `#chicken` inside the complaint, and the post, 61 characters long, is
      kept whole. */
  lemma ChickenHeadExample(report: Report)
    requires report.animal == "Chicken" && report.complaintDetails == "Found a chicken head"
    requires report.additionalLocationDetails == "near bench" && report.parkOrFacility == "Central Park"
    requires report.siteCityZip == "New York, 10022"
    ensures Formatted(report) == Assembled("Found a #chicken head", report)
    ensures |Formatted(report)| == 61
  {
    ChickenAnnotated(report.complaintDetails, report.animal);
    FormattedShort(report);
  }
}

# nychickens: the post formatter, in Dafny

`nychickens.py` posts a random report from a dataset of complaints about
decapitated animals found in New York City parks. This project models the
part of the script that turns one report into the text of a post, together
with the small decisions around it:

- `only_alphanumeric`, `insert_into_text` and `insert_hashtag`, the helpers
  that turn each word of the report's `animal` field into a hashtag inside
  the complaint text (module `Hashtag`);
- the middle of `nychickens()`: splitting the `animal` field into words, the
  tag loop, joining the complaint and the three location fields with `/`,
  cutting an over-long message to 139 characters, stripping it and adding
  `…` (U+2026), and returning the coordinates (module `Tweet`);
- the chance gate of the main block, the check that the credentials hold the
  four keys the client needs, and the empty-text guard of `tweet_it`
  (module `Launch`);
- the Python 2 string built-ins these rely on: `str.find`, ASCII
  `lower`/`upper`, `unicode.isspace`, `strip()`, `split()` and the reading of
  a slice bound (module `PyStr`); and `split('/')` (`PyStr.SplitOn`), which
  the script never calls but which states how the `/`-separated message
  reads back into its four fields.

The two loops of the source are methods: `Hashtag.InsertHashtag` loops over
the three case variants and stops at the first one found, and
`Tweet.Nychickens` loops over the tags. Each is proved equal to a function
(`Hashtagged`, `Formatted`) whose properties are proved as contracts and
lemmas: the exact priority order of the variants, "one `#` and nothing else,
or no change at all", the length bound of the post, the round trips of
`split()` and of the `/`-separated message.

Two details of the code that the model keeps: `text.find("")` is 0, so a
word with no alphanumerics becomes the empty tag and puts a `#` at the very
start of the complaint (`Hashtag.HashtaggedEmptyTag`); and truncation calls
`.strip()`, which removes whitespace at both ends of the 139 kept
characters, not only at the end.

In the worked example (`Tweet.ChickenHeadExample`) the tag `Chicken` does not
occur as written in "Found a chicken head"; its lower-case form does, so the
`#` goes in front of `chicken`.

## Model

| member | source | states |
|---|---|---|
| PyStr.Find | nychickens.py:91 | `text.find(sub)` is -1 exactly when `sub` does not occur in `text`, and otherwise the lowest index at which it occurs; the empty string occurs at 0 |
| PyStr.Lower | nychickens.py:90 | `tag.lower()` keeps the length and maps each ASCII capital to its own small letter (code point plus 32), leaving every other character as it is |
| PyStr.Upper | nychickens.py:90 | `tag.upper()` keeps the length and maps each ASCII small letter to its own capital (code point minus 32), leaving every other character as it is |
| PyStr.LowerUndoesUpper | nychickens.py:90 | a string without capitals comes back unchanged from `upper()` followed by `lower()` |
| PyStr.IsSpace | nychickens.py:105 | the whitespace of `split()` and `strip()`: the code points for which `unicode.isspace` holds in Python 2.7 (Unicode 5.2), as a table of ranges |
| PyStr.IsSpaceAscii | nychickens.py:105 | on ASCII the whitespace is exactly tab to carriage return, the separators 0x1C-0x1F and the space |
| PyStr.SliceIndex | nychickens.py:85 | a slice bound inside `[0, n]` is taken as is, a negative one counts from the end, and one out of range is clamped to 0 or `n` |
| PyStr.Strip | nychickens.py:119 | `strip()` returns the part of the text left when whitespace is cut from both ends: a contiguous piece of the text, all whitespace before and after it, and neither of its ends whitespace |
| PyStr.StripUnique | nychickens.py:119 | that description determines the result: any text satisfying it is `Strip`'s result |
| PyStr.Split | nychickens.py:105 | `report['animal'].split()`; its meaning is stated by `SplitSplitsInto` and `SplitsIntoUnique` below |
| PyStr.SplitSplitsInto | nychickens.py:105 | the words of `split()` are the maximal runs of non-whitespace characters, in order, with only whitespace before, between and after them |
| PyStr.SplitsIntoUnique | nychickens.py:105 | those runs determine the words: any list of words the text splits into is `Split`'s result |
| PyStr.SplitConcat | nychickens.py:105 | the words together hold every non-whitespace character of the text, in order, and nothing else |
| PyStr.SplitJoinWords | nychickens.py:105 | `split()` of words joined with single spaces gives the words back |
| PyStr.SplitSkipsLeadingSpace | nychickens.py:105 | a whitespace character in front of the text adds no word |
| Hashtag.OnlyAlphanumeric | nychickens.py:78-80 | the result holds only `[a-zA-Z0-9]` characters, is a subsequence of the input, keeps every alphanumeric of the input as often as the input has it, and holds no other character |
| Hashtag.OnlyAlphanumericUnique | nychickens.py:78-80 | that description determines the result: any alphanumeric subsequence that keeps all the input's alphanumerics is `OnlyAlphanumeric`'s result |
| Hashtag.OnlyAlphanumericKeepsAlnum | nychickens.py:78-80 | a text that is already alphanumeric is returned unchanged |
| Hashtag.OnlyAlphanumericIdempotent | nychickens.py:78-80 | applying `only_alphanumeric` twice gives the same as applying it once |
| Hashtag.CaseVariantsAlphanumeric | nychickens.py:90 | the lower- and upper-case variants of a cleaned tag are still alphanumeric |
| Hashtag.InsertIntoText | nychickens.py:83-85 | the result is `|text| + |ins|` long, keeps `text` before the normalised index, holds `ins` there and keeps the rest of `text` after it; removing `ins` gives `text` back |
| Hashtag.HashAt | nychickens.py:93 | inserting `#` at an index inside the text puts it exactly there, with the text unchanged on both sides |
| Hashtag.Hashtagged | nychickens.py:88-95 | a `#` goes before the first occurrence of the tag as written, or else of its lower-case form, or else of its upper-case form, in that priority order; with none of the three present the text is unchanged |
| Hashtag.HashtaggedGrowth | nychickens.py:88-95 | the text is unchanged exactly when none of the three variants occurs; otherwise it grows by one character and exactly one `#` is added, every other character kept |
| Hashtag.HashtaggedEmptyTag | nychickens.py:90-93 | an empty tag is found at index 0, so the result is `#` followed by the text |
| Hashtag.HashFirstOfVariants | nychickens.py:90-94 | trying the three variants in order and stopping at the first hit computes `Hashtagged` |
| Hashtag.InsertHashtag | nychickens.py:88-95 | the loop over the variants returns `Hashtagged(text, tag)` |
| Tweet.Annotated | nychickens.py:105-109 | after the tag loop the complaint is at least as long as before and at most one character longer per tag; every character other than `#` occurs as often as before, and each added character is a `#` |
| Tweet.AnnotatedStep | nychickens.py:107-109 | each step of the tag loop applies `insert_hashtag` to the complaint as the earlier steps left it, and adds either nothing or a single `#` |
| Tweet.AnnotatedFirstTag | nychickens.py:107-109 | the first tag is applied to the original complaint and the remaining tags to its result: the words are processed front to back |
| Tweet.Assembled | nychickens.py:111-116 | the message is the complaint, a `/`, and the three location fields separated by `/`: its length is the fields' lengths plus 3, and it starts with the complaint and a `/` |
| Tweet.AssembledSplits | nychickens.py:111-116 | when no field holds a `/`, splitting the message on `/` gives the four fields back |
| Tweet.Truncated | nychickens.py:118-119 | the post is at most 140 characters; a message of at most 140 is kept as it is; a longer one becomes its first 139 characters stripped at both ends, followed by `…` |
| Tweet.Formatted | nychickens.py:105-119 | the text made from any report is non-empty and at most 140 characters long |
| Tweet.Nychickens | nychickens.py:103-123 | for the report at the drawn index, the tag loop, assembly and truncation return `Formatted(report)`, and the coordinates are the report's `(lat, lng)` |
| Tweet.ChickenTagged | nychickens.py:88-95 | in "Found a chicken head" the tag `Chicken` is absent as written and found in lower case at index 8, giving "Found a #chicken head" |
| Tweet.ChickenHeadExample | nychickens.py:105-119 | the report with animal `Chicken` and complaint "Found a chicken head" is posted whole, 61 characters long, with the complaint "Found a #chicken head" |
| Launch.Gate | nychickens.py:153-154 | `randrange` of an empty range fails; otherwise the run goes on exactly when the draw is 0 and stops with "No tweet this time" when it is not; with a denominator of 1 it always goes on |
| Launch.GateOneDrawInN | nychickens.py:153-154 | of the `chance` possible draws exactly one, the draw 0, lets the run go on |
| Launch.LoadCredentials | nychickens.py:39-42 | the credentials are accepted, as loaded, exactly when all four of `access_token`, `access_token_secret`, `consumer_key` and `consumer_secret` are present; otherwise the run stops with a message naming the file |
| Launch.Posts | nychickens.py:48-49 | `tweet_it` goes on exactly when the text is not empty |
| Launch.FormattedIsPosted | nychickens.py:48-49 | a formatted post is never empty, so the guard never stops it |

## Left out

- Reading the dataset and the YAML file, and JSON and YAML parsing: the dataset is a sequence of `Report` values and the credentials a map from keys to values.
- The random choices: the index `random.choice` draws and the value `random.randrange` returns are parameters; probabilities are not modelled beyond counting the draws that proceed.
- Tweet.Nychickens: requires a drawn index inside the dataset, so the `IndexError` of `random.choice` on an empty dataset is not modelled.
- Launch.LoadCredentials: takes the parsed mapping, so a YAML file that parses to something other than a mapping, for which the key check itself raises `AttributeError`, is not modelled.
- `tweet_it` beyond its empty-text guard: the client, the OAuth credentials, the network call, the printing of the URL and `webbrowser.open` are outside the model.
- `print_it`, the `print` calls and the command-line parsing with `argparse`: plumbing with no effect on the post.
- `sys.exit` is modelled only as the outcome it stands for (`Skip` and `Missing` with their messages).
- Coordinates are an abstract type: the formatter passes them through untouched, so their floating-point values are not modelled.
- PyStr.Lower: maps only the ASCII letters, as does PyStr.Upper; full Unicode case mapping is not modelled, which is exact for the tags searched, since they are alphanumeric ASCII after `only_alphanumeric`.
- Lengths, slicing and `find` count Unicode code points, as a wide build of Python 2 does; a narrow build counts UTF-16 code units for characters outside the Basic Multilingual Plane, which is not modelled.
- Whitespace is the `unicode.isspace` set of the Python 2.7 runtime (Unicode 5.2), since the dataset's strings are `unicode`; the smaller set used for byte strings is not modelled.

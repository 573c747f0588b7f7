/** The decisions the script takes around the formatter: the chance gate
    that decides whether this run posts at all, the check that the
    credentials hold the four keys the service client needs, and the guard
    at the top of `tweet_it` that skips an empty post. */
module Launch {
  import Tweet

  // ---------------------------------------------------------------------------
  // The chance gate

  datatype GateOutcome =
    | Proceed
    | Skip(message: string)   // `sys.exit` with this message
    | EmptyRange              // `random.randrange` raises ValueError

  /** The gate of the main block for denominator `chance`, given the value
      `drawn` that `random.randrange(chance)` returned. `randrange` draws from
      `[0, chance)` and refuses an empty range; the run goes on only when the
      draw is 0, so with a denominator of 1 it always goes on. */
  function Gate(chance: int, drawn: int): (g: GateOutcome)
    requires chance > 0 ==> 0 <= drawn < chance
    ensures g == EmptyRange <==> chance <= 0
    ensures g == Proceed <==> chance > 0 && drawn == 0
    ensures g.Skip? ==> g.message == "No tweet this time"
    ensures chance == 1 ==> g == Proceed
  {
    if chance <= 0 then EmptyRange
    else if drawn > 0 then Skip("No tweet this time")
    else Proceed
  }

  /** Of the `chance` equally likely draws exactly one lets the run go on,
      which is what makes the chance of posting 1 in `chance`. */
  lemma GateOneDrawInN(chance: int)
    requires chance >= 1
    ensures (set d | 0 <= d < chance && Gate(chance, d) == Proceed) == {0}
    ensures |set d | 0 <= d < chance && Gate(chance, d) == Proceed| == 1
  {
    var proceeding := set d | 0 <= d < chance && Gate(chance, d) == Proceed;
    assert 0 in proceeding;
    assert proceeding == {0};
  }

  // ---------------------------------------------------------------------------
  // Credentials

  /** The keys the YAML credentials must contain. */
  const RequiredKeys: set<string> :=
    {"access_token", "access_token_secret", "consumer_key", "consumer_secret"}

  datatype Credentials<V> =
    | Loaded(values: map<string, V>)
    | Missing(message: string)   // `sys.exit` with this message

  /** The check of `load_yaml` on the mapping the YAML file was parsed into:
      the mapping is kept when all four keys are present, and the run stops
      with a message naming the file when any one of them is missing. */
  function LoadCredentials<V>(data: map<string, V>, filename: string): (r: Credentials<V>)
    ensures r.Loaded? <==>
      "access_token" in data && "access_token_secret" in data &&
      "consumer_key" in data && "consumer_secret" in data
    ensures r.Loaded? ==> r.values == data
    ensures r.Missing? ==> r.message == "Twitter credentials missing from YAML: " + filename
  {
    if data.Keys >= RequiredKeys then Loaded(data)
    else Missing("Twitter credentials missing from YAML: " + filename)
  }

  // ---------------------------------------------------------------------------
  // The guard of tweet_it

  /** `tweet_it` returns at once for a text of length 0 and posts otherwise. */
  function Posts(text: string): (b: bool)
    ensures b <==> text != []
  {
    !(|text| <= 0)
  }

  /** A formatted post always holds at least the three `/` separators, so
      the empty-text guard of `tweet_it` never stops a formatted post. */
  lemma FormattedIsPosted(report: Tweet.Report)
    ensures Posts(Tweet.Formatted(report))
  {
  }
}

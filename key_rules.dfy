/** Which listed object keys the handler aggregates, and where each one is
    downloaded to: the three filename patterns, the two filters of
    lambda_handler and the basename of a key. */
module KeyRules {
  import opened Text
  import opened Seqs

  const SearchVolumePrefix: string := "search_volume/"
  const ParquetSuffix: string := ".snappy.parquet"

  /** re.match(r"search_volume\/.+", key): the prefix and one more character
      that is not a newline (re.match does not anchor at the end). Such a key
      names an object inside the `search_volume` folder. */
  predicate MatchesSearchVolume(key: string)
    ensures MatchesSearchVolume(key) ==>
      |Split(key, '/')| >= 2 && Split(key, '/')[0] == "search_volume"
  {
    if |key| > 14 && StartsWith(key, SearchVolumePrefix) then
      InSearchVolumeFolder(key);
      key[14] != '\n'
    else false
  }

  /** A key starting with `search_volume/` splits on '/' into the folder
      name and at least one more piece. */
  lemma InSearchVolumeFolder(key: string)
    requires StartsWith(key, SearchVolumePrefix)
    ensures |Split(key, '/')| >= 2 && Split(key, '/')[0] == "search_volume"
  {
    var rest := key[14..];
    assert key == "search_volume" + ("/" + rest);
    SplitPrefix("search_volume", "/" + rest, '/');
    assert ("/" + rest)[1..] == rest;
  }

  /** re.match of `search_volume\/daily_\d{4}_\d{2}_\d{2}_.*\.snappy\.parquet`.
      Every daily key passes the first filter. */
  predicate MatchesDaily(key: string)
    ensures MatchesDaily(key) ==> MatchesSearchVolume(key)
  {
    && |key| >= 31
    && StartsWith(key, "search_volume/daily_")
    && AllDigits(key[20..24]) && key[24] == '_'
    && AllDigits(key[25..27]) && key[27] == '_'
    && AllDigits(key[28..30]) && key[30] == '_'
    && DotStarThen(key[31..], ParquetSuffix)
  }

  /** re.match of `search_volume\/monthly_\d{4}_\d{2}_.*\.snappy\.parquet`.
      Every monthly key passes the first filter. */
  predicate MatchesMonthly(key: string)
    ensures MatchesMonthly(key) ==> MatchesSearchVolume(key)
  {
    && |key| >= 30
    && StartsWith(key, "search_volume/monthly_")
    && AllDigits(key[22..26]) && key[26] == '_'
    && AllDigits(key[27..29]) && key[29] == '_'
    && DotStarThen(key[30..], ParquetSuffix)
  }

  /** re.match of `search_volume\/\d{4}\d{2}\d{2}_.*\.snappy\.parquet`: the
      file of the current day, still being written. Such a key passes the
      first filter and has a digit right after the folder. */
  predicate MatchesCurrent(key: string)
    ensures MatchesCurrent(key) ==> MatchesSearchVolume(key) && IsDigit(key[14])
  {
    && |key| >= 23
    && StartsWith(key, SearchVolumePrefix)
    && AllDigits(key[14..22]) && key[22] == '_'
    && DotStarThen(key[23..], ParquetSuffix)
  }

  predicate NotCurrent(key: string) { !MatchesCurrent(key) }

  /** A key survives both filters of the handler. */
  predicate Eligible(key: string) { MatchesSearchVolume(key) && !MatchesCurrent(key) }

  /** The first comprehension: keys under `search_volume/`, in listing order. */
  function SearchVolumeKeys(keys: seq<string>): (r: seq<string>)
    ensures |r| <= |keys|
    ensures forall k :: k in r <==> k in keys && MatchesSearchVolume(k)
  {
    FilterMembers(MatchesSearchVolume, keys);
    Filter(MatchesSearchVolume, keys)
  }

  /** The second comprehension: keys that are not the current day's file. */
  function HistoricalKeys(keys: seq<string>): (r: seq<string>)
    ensures |r| <= |keys|
    ensures forall k :: k in r <==> k in keys && !MatchesCurrent(k)
  {
    FilterMembers(NotCurrent, keys);
    Filter(NotCurrent, keys)
  }

  /** The keys the handler goes on to download, in listing order. */
  function SelectKeys(listing: seq<string>): (r: seq<string>)
    ensures |r| <= |listing|
    ensures forall k :: k in r <==> k in listing && Eligible(k)
  {
    HistoricalKeys(SearchVolumeKeys(listing))
  }

  /** The two filters amount to one filter by eligibility: the eligible
      keys, each as often as it is listed, in listing order. */
  lemma SelectionRule(listing: seq<string>)
    ensures SelectKeys(listing) == Filter(Eligible, listing)
    ensures forall k ::
      multiset(SelectKeys(listing))[k] == if Eligible(k) then multiset(listing)[k] else 0
  {
    FilterFilter(MatchesSearchVolume, NotCurrent, Eligible, listing);
    FilterCounts(Eligible, listing);
  }

  /** Selection works key by key: selecting from two listings one after the
      other gives the two selections one after the other. */
  lemma SelectionOrder(a: seq<string>, b: seq<string>)
    ensures SelectKeys(a + b) == SelectKeys(a) + SelectKeys(b)
  {
    SelectionRule(a);
    SelectionRule(b);
    SelectionRule(a + b);
    FilterAppend(Eligible, a, b);
  }

  /** A key under `search_volume/` whose next character is neither a digit nor
      a newline is selected, whatever follows: the current-day pattern needs a
      digit there. */
  lemma NonDigitAfterPrefixIsEligible(key: string)
    requires StartsWith(key, SearchVolumePrefix) && |key| > 14
    requires key[14] != '\n' && !IsDigit(key[14])
    ensures Eligible(key)
  {
  }

  /** Daily keys are never current-day keys, so they are selected. */
  lemma DailyKeysAreEligible(key: string)
    requires MatchesDaily(key)
    ensures !MatchesCurrent(key) && Eligible(key)
  {
  }

  /** Monthly keys are never current-day keys, so they are selected again. */
  lemma MonthlyKeysAreEligible(key: string)
    requires MatchesMonthly(key)
    ensures !MatchesCurrent(key) && Eligible(key)
  {
  }

  /** The daily and monthly patterns do not overlap either. */
  lemma DailyMonthlyDisjoint(key: string)
    ensures !(MatchesDaily(key) && MatchesMonthly(key))
  {
  }

  /** `key.split('/').pop()`: the name the object is downloaded to. */
  function Basename(key: string): (name: string)
    ensures '/' !in name
  {
    var parts := Split(key, '/');
    parts[|parts| - 1]
  }

  /** The basename is the longest suffix of the key without '/': it ends the
      key, and whatever precedes it is empty or ends with '/'. */
  lemma BasenameIsLastSegment(key: string)
    ensures var name := Basename(key);
      && |name| <= |key| && key[|key| - |name|..] == name
      && (|name| < |key| ==> key[|key| - |name| - 1] == '/')
  {
    JoinSplit(key, '/');
    JoinEndsWithLast(Split(key, '/'), '/');
  }

  /** A key without '/' is its own basename. */
  lemma BasenameOfPlainName(key: string)
    requires '/' !in key
    ensures Basename(key) == key
  {
    BasenameIsLastSegment(key);
  }

  /** A key ending in '/' has the empty basename. */
  lemma BasenameAfterSlash(key: string)
    requires |key| > 0 && key[|key| - 1] == '/'
    ensures Basename(key) == ""
  {
    BasenameIsLastSegment(key);
  }
}

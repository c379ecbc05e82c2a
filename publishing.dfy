/** The last stage of the handler: each partition directory's name is
    parsed back into a year and a zero-padded month, a key
    `search_volume/monthly_<year>_<MM>_<uuid>.snappy.parquet` is composed,
    and the directory's `part.0.parquet` is uploaded under it. */
module Publishing {
  import opened Text
  import opened Seqs
  import opened Outcomes
  import opened KeyRules
  import opened Aggregation
  import opened Partitioning

  /** The bucket the monthly files are uploaded to (not the one listed). */
  const DestinationBucket: string := "bmw-e2e-test-bucket"

  /** One `put`: bucket, key and the rows of the uploaded file. */
  datatype Upload = Upload(bucket: string, key: string, rows: Table)

  /** `year, month = name.split('=')[1].split('_')` followed by
      `month = month.zfill(2)`: the IndexError of a name without '=' and
      the ValueError of a value that is not exactly two '_'-pieces become
      Failures. Only the piece after the first '=' is read. */
  function ParseDirName(name: string): (r: Result<(string, string)>)
    ensures '=' !in name ==> r == Failure(NoPartitionValue(name))
    ensures r.Success? ==> '_' !in r.value.0 && '_' !in r.value.1 && |r.value.1| >= 2
  {
    var byEquals := Split(name, '=');
    SplitWhole(name, '=');
    if |byEquals| < 2 then Failure(NoPartitionValue(name))
    else
      var pieces := Split(byEquals[1], '_');
      if |pieces| != 2 then Failure(NotYearAndMonth(name))
      else Success((pieces[0], ZFill(pieces[1], 2)))
  }

  /** The name `monthly_<year>_<month>_<uuid>.snappy.parquet`: a plain file
      name when its parts hold no '/'. */
  function OutputFileName(year: string, month: string, uuid: string): (name: string)
    ensures '/' !in year && '/' !in month && '/' !in uuid ==> '/' !in name
  {
    "monthly_" + year + "_" + month + "_" + uuid + ParquetSuffix
  }

  /** The uploaded object's key: the file name directly inside the
      `search_volume` folder. */
  function OutputKey(year: string, month: string, uuid: string): (key: string)
    ensures '/' !in year && '/' !in month && '/' !in uuid ==>
      Split(key, '/') == ["search_volume", OutputFileName(year, month, uuid)]
  {
    var name := OutputFileName(year, month, uuid);
    if '/' !in year && '/' !in month && '/' !in uuid then
      var parts := ["search_volume", name];
      assert Join(parts, '/') == SearchVolumePrefix + name by {
        assert parts[1..] == [name];
      }
      SplitJoin(parts, '/');
      SearchVolumePrefix + name
    else
      SearchVolumePrefix + name
  }

  /** The key a row's partition is published under; its basename is the
      monthly file name built from the row's year and padded month. */
  function OutputKeyFor(d: Date, uuid: string): (key: string)
    ensures '/' !in uuid ==>
      Basename(key) == OutputFileName(IntToString(d.year), ZFill(IntToString(d.month), 2), uuid)
  {
    NoSlashInIntToString(d.year);
    NoSlashInIntToString(d.month);
    OutputKey(IntToString(d.year), ZFill(IntToString(d.month), 2), uuid)
  }

  /** The directory `to_parquet` writes for a `year_month` value parses back
      into the year and the zero-padded month. */
  lemma DirNameRoundTrip(d: Date)
    ensures ParseDirName("year_month=" + YearMonth(d)) ==
      Success((IntToString(d.year), ZFill(IntToString(d.month), 2)))
  {
    var name := "year_month=" + YearMonth(d);
    var parts := ["year_month", YearMonth(d)];
    assert Join(parts, '=') == name by {
      assert parts[1..] == [YearMonth(d)];
    }
    SplitJoin(parts, '=');
  }

  /** For a calendar month, the padded month is two digits whose value is
      the month. */
  lemma PaddedMonth(m: int)
    requires 1 <= m <= 12
    ensures var mm := ZFill(IntToString(m), 2);
      |mm| == 2 && AllDigits(mm) && ParseNat(mm) == m
  {
    ZFillValue(IntToString(m), 2);
    ParseNatToString(m);
  }

  /** A directory name with '=' whose value does not split into exactly two
      '_'-pieces is rejected with NotYearAndMonth. */
  lemma BadValueRejected(prefix: string, value: string)
    requires '=' !in prefix && '=' !in value && |Split(value, '_')| != 2
    ensures ParseDirName(prefix + "=" + value) == Failure(NotYearAndMonth(prefix + "=" + value))
  {
    var parts := [prefix, value];
    SplitJoin(parts, '=');
  }

  /** A four-digit year prints as four characters. */
  lemma FourDigitYear(y: int)
    requires 1000 <= y <= 9999
    ensures |IntToString(y)| == 4 && AllDigits(IntToString(y))
  {
    assert NatToString(y) == NatToString(y / 10) + [DigitChar(y % 10)];
  }

  /** For a four-digit year and a calendar month, the published key matches
      the monthly pattern and not the current-day one, so a later run over the
      same bucket selects it again. */
  lemma OutputKeyReselected(d: Date, uuid: string)
    requires 1000 <= d.year <= 9999 && 1 <= d.month <= 12 && '\n' !in uuid
    ensures MatchesMonthly(OutputKeyFor(d, uuid))
    ensures Eligible(OutputKeyFor(d, uuid))
  {
    var year, month := IntToString(d.year), ZFill(IntToString(d.month), 2);
    FourDigitYear(d.year);
    PaddedMonth(d.month);
    MonthlyShape(year, month, uuid);
    MonthlyKeysAreEligible(OutputKey(year, month, uuid));
  }

  /** The parts of a monthly key sit where the monthly pattern expects them. */
  lemma MonthlyShape(year: string, month: string, uuid: string)
    requires |year| == 4 && AllDigits(year) && |month| == 2 && AllDigits(month)
    requires '\n' !in uuid
    ensures MatchesMonthly(OutputKey(year, month, uuid))
  {
    var tail := uuid + ParquetSuffix;
    DotStarThenAfter(uuid, ParquetSuffix);
    assert OutputKey(year, month, uuid) == "search_volume/monthly_" + year + "_" + month + "_" + tail;
    MonthlyLayout(year, month, tail);
  }

  lemma MonthlyLayout(year: string, month: string, tail: string)
    requires |year| == 4 && AllDigits(year) && |month| == 2 && AllDigits(month)
    requires DotStarThen(tail, ParquetSuffix)
    ensures MatchesMonthly("search_volume/monthly_" + year + "_" + month + "_" + tail)
  {
  }

  predicate IsDirectory(e: DirEntry) { e.isDir }

  /** The upload for a directory whose name parses, with the given uuid. */
  function UploadFor(e: DirEntry, uuid: string): (u: Upload)
    requires ParseDirName(e.name).Success?
    ensures u.bucket == DestinationBucket && u.rows == e.rows
  {
    var parsed := ParseDirName(e.name).value;
    Upload(DestinationBucket, OutputKey(parsed.0, parsed.1, uuid), e.rows)
  }

  /** The upload for the partition directory of a date's `year_month` value
      goes to the destination bucket under the monthly key of that date,
      with the directory's rows. */
  lemma UploadKeyOfPartition(d: Date, rows: Table, uuid: string)
    ensures var e := DirEntry("year_month=" + YearMonth(d), true, rows);
      && ParseDirName(e.name).Success?
      && UploadFor(e, uuid) == Upload(DestinationBucket, OutputKeyFor(d, uuid), rows)
  {
    DirNameRoundTrip(d);
  }

  /** Entry `i` is the first directory whose name does not parse, failing with `error`. */
  predicate FirstBadDirectory(entries: seq<DirEntry>, i: int, error: Error) {
    && 0 <= i < |entries| && entries[i].isDir
    && ParseDirName(entries[i].name) == Failure(error)
    && forall j :: 0 <= j < i && entries[j].isDir ==> ParseDirName(entries[j].name).Success?
  }

  /** Upload k is the upload for directory k with the k-th uuid. */
  predicate UploadsFor(dirs: seq<DirEntry>, uploads: seq<Upload>, uuids: nat -> string) {
    && |uploads| == |dirs|
    && forall k :: 0 <= k < |dirs| ==>
      ParseDirName(dirs[k].name).Success? && uploads[k] == UploadFor(dirs[k], uuids(k))
  }

  lemma UploadsForSnoc(dirs: seq<DirEntry>, uploads: seq<Upload>, uuids: nat -> string, e: DirEntry)
    requires UploadsFor(dirs, uploads, uuids) && ParseDirName(e.name).Success?
    ensures UploadsFor(dirs + [e], uploads + [UploadFor(e, uuids(|dirs|))], uuids)
  {
  }

  /** The entries before `i` that are directories have names that parse. */
  predicate ParsedSoFar(entries: seq<DirEntry>, i: int) {
    forall j :: 0 <= j < i && j < |entries| && entries[j].isDir ==> ParseDirName(entries[j].name).Success?
  }

  /** The loop over `os.scandir`: entries that are not directories are
      skipped; each directory draws the next uuid (`uuids(n)` is the n-th
      `uuid4()`) and is uploaded. The first directory whose name does not
      parse stops the loop with its exception; the directories before it
      stay uploaded. `uploaded` is every `put` made, in order. */
  method PublishPartitions(entries: seq<DirEntry>, uuids: nat -> string)
    returns (r: Result<seq<Upload>>, uploaded: seq<Upload>)
    ensures r.Success? <==>
      forall i :: 0 <= i < |entries| && entries[i].isDir ==> ParseDirName(entries[i].name).Success?
    ensures r.Success? ==> r.value == uploaded
    ensures r.Success? ==> var dirs := Filter(IsDirectory, entries);
      && |r.value| == |dirs|
      && forall k :: 0 <= k < |dirs| ==>
        ParseDirName(dirs[k].name).Success? && r.value[k] == UploadFor(dirs[k], uuids(k))
    ensures r.Failure? ==> exists i :: && FirstBadDirectory(entries, i, r.error)
                                       && UploadsFor(Filter(IsDirectory, entries[..i]), uploaded, uuids)
  {
    uploaded := [];
    ghost var dirs: seq<DirEntry> := [];
    var i := 0;
    while i < |entries|
      invariant 0 <= i <= |entries|
      invariant dirs == Filter(IsDirectory, entries[..i])
      invariant ParsedSoFar(entries, i)
      invariant UploadsFor(dirs, uploaded, uuids)
    {
      var e := entries[i];
      assert entries[..i + 1] == entries[..i] + [e];
      FilterSnoc(IsDirectory, entries[..i], e);
      if e.isDir {
        var parsed := ParseDirName(e.name);
        if parsed.Failure? {
          assert FirstBadDirectory(entries, i, parsed.error);
          return Failure(parsed.error), uploaded;
        }
        var year, month := parsed.value.0, parsed.value.1;
        var uniqueId := uuids(|uploaded|);
        UploadsForSnoc(dirs, uploaded, uuids, e);
        uploaded := uploaded + [Upload(DestinationBucket, OutputKey(year, month, uniqueId), e.rows)];
        dirs := dirs + [e];
      }
      i := i + 1;
    }
    assert entries[..i] == entries;
    return Success(uploaded), uploaded;
  }
}

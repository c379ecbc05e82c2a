# Monthly roll-up of search-volume parquet files: the key and grouping rules

`build_monthly_parquet_files.py` is one AWS Lambda handler. It lists a bucket
and keeps the keys under `search_volume/` that are not the current day's file.
It downloads each of those keys to `/tmp/<basename>` and reads it as a
DataFrame. It concatenates the DataFrames and gives every row a
`year_month` value `str(year) + '_' + str(month)`. It writes the table
partitioned by that value, one directory `year_month=<value>` per month. Then,
for each directory, it parses the year and month back out of the name,
zero-pads the month, and uploads the directory's `part.0.parquet` as
`search_volume/monthly_<year>_<MM>_<uuid>.snappy.parquet` to the destination
bucket.

This project models those rules in Dafny and proves what they guarantee.
S3, pandas, the parquet format and the file system are replaced by values:

- the listing is a `seq<string>` of keys;
- the readable objects are a `map<string, Table>` of already-decoded rows;
- the generated uuids are a function `uuids: nat -> string` (the n-th call of
  `uuid4()`);
- the uploads are returned as a sequence of (bucket, key, rows).

Each exception the model covers is a `Failure` of `Outcomes.Result`, with
one constructor of `Outcomes.Error` per kind. Failures of the S3 calls and of
`to_parquet` are not modelled (see "Left out").

Modules, one per file:

- `Outcomes` (outcomes.dfy): the exceptions as an `Error` datatype, and `Result`.
- `Text` (text.dfy): the Python string behaviour the code relies on:
  - `str.split` with a one-character separator, and `join`;
  - `str(int)`, and `int()` on digit strings;
  - `str.zfill`;
  - the regular-expression fragment `.*LIT` as `re.match` runs it.
- `Seqs` (seqs.dfy): list comprehension with a condition (`Filter`) and its laws.
- `KeyRules` (key_rules.dfy): the three filename patterns, the two key filters and the basename.
- `Aggregation` (aggregation.dfy): rows and tables, `pd.concat`, and the `year_month` value.
- `Partitioning` (partitioning.dfy): `to_parquet(partition_cols=['year_month'])` as a group-by, and the scratch directory it leaves.
- `Publishing` (publishing.dfy): the directory-name parse, the output key and the upload loop.
- `Handler` (handler.dfy): the download loop and the whole invocation.

What the code does at its edges, as the model has it:

- A key is aggregated only if it passes both filters. It must match
  `search_volume/.+` (`build_monthly_parquet_files.py:29-30`), and it must not
  match the current-day pattern (`build_monthly_parquet_files.py:33`).
- An empty selection makes `pd.concat([])` raise. The model returns
  `Failure(NoObjectsToConcatenate)`.
- The code makes a single `list_objects` call and follows no continuation.
  The model's listing is that one response. An empty bucket has no `Contents`
  entry, so `bucket_files['Contents']` raises; the model returns
  `Failure(NoContents)`.
- A selected key ending in `/` (a folder marker) has the empty basename. Its
  download targets `/tmp/` itself and raises. The model returns
  `Failure(Unreadable(key))`.
- Monthly output keys match the monthly pattern, and a later run selects
  them again (`OutputKeyReselected`). The uploads go to `bmw-e2e-test-bucket`
  (`build_monthly_parquet_files.py:61`). The listing reads
  `bmw-e2e-dev-google-trends` (`build_monthly_parquet_files.py:9`). So a
  re-run reads its own output back only when the two buckets are the same.

## Model

| member | source | states |
|---|---|---|
| `KeyRules.MatchesSearchVolume` | build_monthly_parquet_files.py:29-30 | `re.match(r"search_volume\/.+", key)`. A matching key splits on `/` into the folder `search_volume` and at least one more piece, so it names an object inside that folder. |
| `KeyRules.MatchesDaily` | build_monthly_parquet_files.py:11 | The daily pattern under `re.match`. Every daily key also matches `search_volume/.+`. |
| `KeyRules.MatchesMonthly` | build_monthly_parquet_files.py:13 | The monthly pattern under `re.match`. Every monthly key also matches `search_volume/.+`. |
| `KeyRules.MatchesCurrent` | build_monthly_parquet_files.py:15 | The current-day pattern under `re.match`. A matching key also matches `search_volume/.+` and has a digit right after the folder. |
| `KeyRules.SearchVolumeKeys` | build_monthly_parquet_files.py:29-30 | The first comprehension keeps exactly the listed keys that match `search_volume/.+`, and is no longer than the listing. |
| `KeyRules.HistoricalKeys` | build_monthly_parquet_files.py:33 | The second comprehension keeps exactly the keys that do not match the current-day pattern, and is no longer than its input. |
| `KeyRules.SelectKeys` | build_monthly_parquet_files.py:29-33 | A key is selected iff it is listed, matches `search_volume/.+` and does not match the current-day pattern. |
| `KeyRules.SelectionRule` | build_monthly_parquet_files.py:29-33 | The two comprehensions equal one filter by that conjunction. Each selected key is kept exactly as often as it is listed. |
| `KeyRules.SelectionOrder` | build_monthly_parquet_files.py:29-33 | Selection is key by key and keeps listing order: selecting from `a + b` gives the selection of `a` followed by the selection of `b`. |
| `KeyRules.NonDigitAfterPrefixIsEligible` | build_monthly_parquet_files.py:29-33 | Any key under `search_volume/` whose 15th character is neither a digit nor a newline is selected, whatever follows it (for example a non-parquet file). |
| `KeyRules.DailyKeysAreEligible` | build_monthly_parquet_files.py:11-15 | A key matching the daily pattern never matches the current-day pattern, so it is selected. |
| `KeyRules.MonthlyKeysAreEligible` | build_monthly_parquet_files.py:13-15 | A key matching the monthly pattern never matches the current-day pattern, so it is selected. |
| `KeyRules.DailyMonthlyDisjoint` | build_monthly_parquet_files.py:11-13 | No key matches both the daily and the monthly pattern. |
| `Text.DotStarThenMeaning` | build_monthly_parquet_files.py:15 | The backtracking reading of `.*\.snappy\.parquet` under `re.match` is the same as "some newline-free stretch is followed by `.snappy.parquet`". |
| `Text.Split` | build_monthly_parquet_files.py:55 | `str.split(sep)` returns at least one piece, and no piece contains the separator. |
| `Text.JoinSplit` | build_monthly_parquet_files.py:55 | Joining the pieces of a split with the separator gives back the string. |
| `Text.SplitJoin` | build_monthly_parquet_files.py:55 | Splitting a join of separator-free pieces gives back the pieces. |
| `KeyRules.Basename` | build_monthly_parquet_files.py:40 | `key.split('/').pop()` contains no `/`. |
| `KeyRules.BasenameIsLastSegment` | build_monthly_parquet_files.py:40 | The basename is a suffix of the key. What precedes it is empty or ends in `/`, so it is the longest `/`-free suffix. |
| `KeyRules.BasenameOfPlainName` | build_monthly_parquet_files.py:40 | A key without `/` is its own basename. |
| `KeyRules.BasenameAfterSlash` | build_monthly_parquet_files.py:40 | A key that ends in `/` has the empty basename. |
| `Handler.FetchTables` | build_monthly_parquet_files.py:38-43 | The loop succeeds iff every key's object exists and its basename is non-empty. On success it yields one table per key, in order, each the content of that key's object, and `/tmp` holds one file per distinct basename. On failure the error names the first key that cannot be fetched. |
| `Handler.TablesHoldSelectedRows` | build_monthly_parquet_files.py:38-45 | The fetched tables, concatenated, are the rows of the selected objects, object after object. |
| `Handler.SelectedRowsMembers` | build_monthly_parquet_files.py:38-45 | Every row of every selected object is among the selected rows. |
| `Aggregation.Flatten` | build_monthly_parquet_files.py:45 | The concatenation has as many rows as all tables together. |
| `Aggregation.FlattenAppend` | build_monthly_parquet_files.py:45 | Concatenation distributes over appending lists of tables, for both the rows and their count. |
| `Aggregation.FlattenPosition` | build_monthly_parquet_files.py:45 | Row `j` of table `i` sits in the result right after all rows of the tables before it, so input order is kept. |
| `Aggregation.Concatenate` | build_monthly_parquet_files.py:45 | `pd.concat` fails exactly on an empty list, with `NoObjectsToConcatenate`. Otherwise the result holds the sum of the input row counts. |
| `Text.IntToString` | build_monthly_parquet_files.py:48 | `str(i)` is non-empty and holds no `_` or `=`. It is all digits for `i >= 0`. |
| `Text.IntToStringInjective` | build_monthly_parquet_files.py:48 | `str` on integers is injective, for negatives too. |
| `Text.ParseNatToString` | build_monthly_parquet_files.py:48 | `int(str(n)) == n` for every natural number. |
| `Aggregation.YearMonth` | build_monthly_parquet_files.py:47-48 | The `year_month` value splits on `_` into exactly `str(year)` and `str(month)`. It holds no `=`, so it can follow `year_month=` in a directory name. |
| `Aggregation.YearMonthInjective` | build_monthly_parquet_files.py:47-48 | Two rows get the same `year_month` value iff they have the same year and month. |
| `Partitioning.FindGroup` | build_monthly_parquet_files.py:51 | The lookup returns the position of a group with the key, or -1 exactly when no group has it. |
| `Partitioning.AddRow` | build_monthly_parquet_files.py:51 | After filing a row, its key has a group. The groups hold one more row in all: that row, once. |
| `Partitioning.GroupRows` | build_monthly_parquet_files.py:51 | The groups together hold the table's rows as a permutation: as many rows, and each row as often as in the table. |
| `Partitioning.GroupRowsSpec` | build_monthly_parquet_files.py:51 | Grouping by `year_month` partitions the rows. Keys are pairwise distinct. Each group holds exactly the rows with its key, in table order, and at least one. Every row's key has a group. Group sizes sum to the number of rows. |
| `Partitioning.RowInExactlyOneGroup` | build_monthly_parquet_files.py:51 | Every row is in the group of its key and in no other group. |
| `Partitioning.GroupsKeepMonthsApart` | build_monthly_parquet_files.py:51 | Rows of two different groups differ in year or month. |
| `Partitioning.PartitionDirs` | build_monthly_parquet_files.py:51 | There is one directory per group, named `year_month=<value>`, holding that group's rows. |
| `Partitioning.WritePartitions` | build_monthly_parquet_files.py:51 | The writer leaves two more entries than there are groups. Exactly the entries after the two metadata files are directories. |
| `Handler.DirectoriesOfPartitions` | build_monthly_parquet_files.py:53-54 | The `is_dir()` test skips the writer's metadata files and keeps every partition directory, in order. |
| `Publishing.ParseDirName` | build_monthly_parquet_files.py:55-56 | A name without `=` fails as the `IndexError` of `split('=')[1]`. A parsed year contains no `_`. A parsed month contains no `_` and has at least two characters. |
| `Publishing.BadValueRejected` | build_monthly_parquet_files.py:55 | A value after `=` that does not split into exactly two `_`-pieces fails, as Python's unpacking does. |
| `Publishing.DirNameRoundTrip` | build_monthly_parquet_files.py:55-56 | Parsing `year_month=` followed by the `year_month` value of a date gives back `str(year)` and `str(month).zfill(2)`. |
| `Text.ZFill` | build_monthly_parquet_files.py:56 | `zfill(w)` leaves strings of `w` or more characters unchanged. It pads shorter ones to exactly `w` characters by putting `0`s in front of the string, or after its leading `+` or `-` sign, and keeps the rest of the string as it was; digit strings stay digit strings. |
| `Text.ZFillValue` | build_monthly_parquet_files.py:56 | Zero-padding does not change the numeric value of a digit string. |
| `Text.ParseNatZeros` | build_monthly_parquet_files.py:56 | Leading zeros do not change the value of a digit string. |
| `Publishing.PaddedMonth` | build_monthly_parquet_files.py:56 | For months 1 to 12 the padded month has two digits whose value is the month. |
| `Publishing.FourDigitYear` | build_monthly_parquet_files.py:58 | A year from 1000 to 9999 prints as four digits. |
| `Publishing.OutputFileName` | build_monthly_parquet_files.py:58 | `monthly_<year>_<month>_<uuid>.snappy.parquet` is a plain file name (no `/`) when its parts hold none. |
| `Publishing.OutputKey` | build_monthly_parquet_files.py:61 | The object key `search_volume/<file name>` splits on `/` into exactly the folder `search_volume` and the file name, when the parts hold no `/`. |
| `Publishing.OutputKeyFor` | build_monthly_parquet_files.py:55-61 | For a uuid without `/`, the basename of a row's output key is the monthly file name built from the row's year and zero-padded month. |
| `Publishing.MonthlyShape` | build_monthly_parquet_files.py:58-61 | A key composed from a four-digit year, a two-digit month and a newline-free uuid matches the monthly pattern. |
| `Publishing.OutputKeyReselected` | build_monthly_parquet_files.py:58-61 | For a four-digit year, a month from 1 to 12 and a newline-free uuid, the published key matches the monthly pattern. It does not match the current-day pattern, so a later run over that bucket selects it again. |
| `Publishing.UploadKeyOfPartition` | build_monthly_parquet_files.py:55-62 | The upload for the partition directory of a date's `year_month` value goes to `bmw-e2e-test-bucket` under that date's monthly key (year, zero-padded month, uuid), with the directory's rows. |
| `Publishing.PublishPartitions` | build_monthly_parquet_files.py:53-62 | The scandir loop succeeds iff every directory name parses; otherwise it fails with the first bad directory's error and returns the uploads already made for the directories before it, each one with that directory's rows under its monthly key and its uuid. On success there is one upload per directory, in order, the k-th with the k-th uuid, under `search_volume/monthly_<year>_<MM>_<uuid>.snappy.parquet`. |
| `Handler.PartitionNamesParse` | build_monthly_parquet_files.py:47-56 | Each partition directory's name parses to the year and padded month of every row in it. |
| `Handler.EntriesPublishable` | build_monthly_parquet_files.py:51-55 | Every directory the writer leaves has a name that parses, so the upload loop never raises. |
| `Handler.PublishedMonthly` | build_monthly_parquet_files.py:51-62 | Each upload goes to the destination bucket and holds at least one row. Its key is the monthly key of every one of its rows. |
| `Handler.PublishedSeparate` | build_monthly_parquet_files.py:51-62 | No (year, month) is split over two uploads. |
| `Handler.PublishedMonthContents` | build_monthly_parquet_files.py:51-62 | Each upload holds exactly the table's rows that share its first row's `year_month` value, in table order. |
| `Handler.UploadedRowsOfGroups` | build_monthly_parquet_files.py:51-62 | The rows of the uploads, upload after upload, are the rows of the groups, group after group. |
| `Handler.PublishedAllRows` | build_monthly_parquet_files.py:51-62 | The uploads carry each row of the table exactly as often as the table does (equal as multisets), so every row is in some upload. |
| `Handler.PublishedGrouping` | build_monthly_parquet_files.py:51-62 | For the grouping of a table, the uploads are monthly-keyed and keep months apart. Each holds exactly its month's rows, and together they hold every row exactly as often as the table. |
| `Handler.PublishedSelection` | build_monthly_parquet_files.py:38-62 | Every row of every selected object ends up in some upload. |
| `Handler.LambdaHandler` | build_monthly_parquet_files.py:18-67 | An empty bucket fails with `NoContents`. An empty selection fails with `NoObjectsToConcatenate`. Otherwise it fails exactly when a selected key cannot be fetched, with the first such key. On success the uploads are exactly those for the grouping by `year_month` of the selected objects' rows, and: each holds exactly one month's rows, in order; each is under its rows' monthly key; no month is split; the uploads and the selected rows are equal as multisets. |

## Left out

- The S3 client and resource, and `list_objects`. The listing is a parameter. The model does not capture that one call returns at most one page (1000 keys), nor the order S3 lists keys in.
- `download_file` and `read_parquet` (fastparquet). Decoding is a parameter map from key to rows; a key outside the map is an object that cannot be downloaded or decoded. The bytes in `/tmp` are not modelled, only which names are written there.
- Failures of the S3 calls and of the writer. The model does not capture errors raised by `list_objects` (line 26), by `download_file` for reasons other than a missing or unreadable object (line 41), by `Object(...).put` (lines 61-62), or by `to_parquet` while writing the partitions (line 51). Each of these would escape the handler as an exception.
- Columns other than `date`. They are carried unread as `measurements`. The `pd.concat` schema reconciliation and its failures are not modelled.
- The `year_month` column itself. It is the grouping key here: `to_parquet` moves it into the directory names, and rows do not store it.
- The parquet file layout: `times='int96'`, the files' bytes, and the split of a large partition into several `part.N.parquet` files. The model assumes one `part.0.parquet` per partition holding all its rows, and that is the file uploaded.
- The order of `os.scandir`. The model lists the writer's two metadata files, then the partitions in order of each month's first row. The real order depends on the file system. Only the order of the uploads, and which uuid each one gets, depend on it.
- Leftovers from an earlier invocation in a reused container. The scratch folder is taken to hold only this run's output.
- `uuid.uuid4()`. It is the parameter `uuids`, and the model does not assume the values are distinct.
- `\d` in the patterns. It is taken as the ASCII digits `0`-`9`; Python's `\d` on `str` also matches other Unicode decimal digits.
- `Text.ParseNat`: gives 0 for the empty string, where Python's `int('')` raises. It is only applied to non-empty digit strings in the lemmas.
- Timestamp ranges. `Date` holds any integers; the re-selection lemma asks for a four-digit year and a month from 1 to 12, which pandas timestamps in practice have.
- A selection whose objects all have zero rows. The model succeeds with no uploads; what pandas `apply` does on an empty frame is not modelled.
- `print` calls, the fixed `{'statusCode': 200, 'body': '"Success"'}` return value, and the `__main__` entry point.

/** `lambda_handler` end to end: list, select, fetch, concatenate, derive
    `year_month`, partition, publish. The bucket listing, the decoded
    objects and the generated uuids are parameters. */
module Handler {
  import opened Outcomes
  import opened Text
  import opened Seqs
  import opened KeyRules
  import opened Aggregation
  import opened Partitioning
  import opened Publishing

  /** The rows of the objects under `keys`, object after object. */
  function SelectedRows(objects: map<string, Table>, keys: seq<string>): Table
    requires forall i :: 0 <= i < |keys| ==> keys[i] in objects
  {
    if keys == [] then [] else objects[keys[0]] + SelectedRows(objects, keys[1..])
  }

  /** The rows of all uploads, upload after upload. */
  function UploadedRows(uploads: seq<Upload>): Table {
    if uploads == [] then []
    else UploadedRows(uploads[..|uploads| - 1]) + uploads[|uploads| - 1].rows
  }

  /** Every upload goes to the destination bucket and holds at least one row,
      and its key is the monthly key of each of its rows' dates. */
  predicate MonthlyUploads(uploads: seq<Upload>, uuids: nat -> string) {
    forall k :: 0 <= k < |uploads| ==>
      && uploads[k].bucket == DestinationBucket
      && uploads[k].rows != []
      && forall row :: row in uploads[k].rows ==> uploads[k].key == OutputKeyFor(row.date, uuids(k))
  }

  /** No (year, month) is split over two uploads. */
  predicate SeparateMonths(uploads: seq<Upload>) {
    forall k, l, a, b :: 0 <= k < l < |uploads| && a in uploads[k].rows && b in uploads[l].rows ==>
      (a.date.year, a.date.month) != (b.date.year, b.date.month)
  }

  /** Each upload holds exactly the rows of `rows` that share the
      `year_month` value of its first row, in table order. */
  predicate MonthContents(uploads: seq<Upload>, rows: Table) {
    forall k :: 0 <= k < |uploads| && uploads[k].rows != [] ==>
      uploads[k].rows == RowsWithKey(rows, KeyOf(uploads[k].rows[0]))
  }

  /** The download of `key` succeeds: the object exists and decodes, and its
      basename is a file name. A key ending in '/' (a folder marker) has the
      empty basename, and downloading to `/tmp/` itself fails. */
  predicate Fetchable(objects: map<string, Table>, key: string) {
    key in objects && Basename(key) != ""
  }

  /** `keys[i]` is the first key whose download fails. */
  predicate FirstUnreadable(objects: map<string, Table>, keys: seq<string>, i: int) {
    && 0 <= i < |keys| && !Fetchable(objects, keys[i])
    && forall j :: 0 <= j < i ==> Fetchable(objects, keys[j])
  }

  /** The download loop: each key is downloaded to `/tmp/<basename>` and read
      back from there. The first key that cannot be downloaded or decoded
      stops the loop. `scratch` is what the loop leaves in `/tmp`. */
  method FetchTables(objects: map<string, Table>, keys: seq<string>)
    returns (r: Result<seq<Table>>, scratch: map<string, Table>)
    ensures r.Success? <==> forall i :: 0 <= i < |keys| ==> Fetchable(objects, keys[i])
    ensures r.Success? ==>
      |r.value| == |keys| && forall i :: 0 <= i < |keys| ==> r.value[i] == objects[keys[i]]
    ensures r.Success? ==> scratch.Keys == set i | 0 <= i < |keys| :: Basename(keys[i])
    ensures r.Failure? ==> exists i :: FirstUnreadable(objects, keys, i) && r.error == Unreadable(keys[i])
  {
    var tables: seq<Table> := [];
    scratch := map[];
    for i := 0 to |keys|
      invariant |tables| == i
      invariant forall j :: 0 <= j < i ==> Fetchable(objects, keys[j]) && tables[j] == objects[keys[j]]
      invariant scratch.Keys == set j | 0 <= j < i :: Basename(keys[j])
    {
      var key := keys[i];
      var filename := Basename(key);
      if key !in objects || filename == "" {
        assert FirstUnreadable(objects, keys, i);
        return Failure(Unreadable(key)), scratch;
      }
      scratch := scratch[filename := objects[key]];
      var table := scratch[filename];
      tables := tables + [table];
    }
    return Success(tables), scratch;
  }

  /** The fetched tables, concatenated, are the rows of the selected objects. */
  lemma {:induction false} TablesHoldSelectedRows(objects: map<string, Table>, keys: seq<string>, tables: seq<Table>)
    requires |tables| == |keys|
    requires forall i :: 0 <= i < |keys| ==> keys[i] in objects && tables[i] == objects[keys[i]]
    ensures Flatten(tables) == SelectedRows(objects, keys)
  {
    if keys != [] {
      TablesHoldSelectedRows(objects, keys[1..], tables[1..]);
    }
  }

  /** Uploading the groups one by one uploads the grouped rows, in order. */
  lemma {:induction false} UploadedRowsOfGroups(groups: seq<Group>, uploads: seq<Upload>)
    requires |uploads| == |groups|
    requires forall k :: 0 <= k < |groups| ==> uploads[k].rows == groups[k].rows
    ensures UploadedRows(uploads) == GroupedRows(groups)
  {
    if groups != [] {
      UploadedRowsOfGroups(groups[..|groups| - 1], uploads[..|uploads| - 1]);
    }
  }

  /** Every partition directory written for a grouping parses back. */
  lemma PartitionNamesParse(groups: seq<Group>, rows: Table, k: nat)
    requires IsGrouping(groups, rows) && k < |groups|
    ensures ParseDirName(PartitionDirs(groups)[k].name).Success?
    ensures forall row :: row in groups[k].rows ==>
      ParseDirName(PartitionDirs(groups)[k].name).value ==
        (IntToString(row.date.year), ZFill(IntToString(row.date.month), 2))
  {
    RowsWithKeyMembers(rows, groups[k].key);
    var row0 := groups[k].rows[0];
    assert row0 in groups[k].rows;
    DirNameRoundTrip(row0.date);
    forall row | row in groups[k].rows
      ensures ParseDirName(PartitionDirs(groups)[k].name).value ==
        (IntToString(row.date.year), ZFill(IntToString(row.date.month), 2))
    {
      YearMonthInjective(row.date, row0.date);
    }
  }

  /** The uploads made for the partition directories of a grouping. */
  predicate UploadsOfGrouping(groups: seq<Group>, uploads: seq<Upload>, uuids: nat -> string) {
    && |uploads| == |groups|
    && forall k :: 0 <= k < |groups| ==>
      ParseDirName(PartitionDirs(groups)[k].name).Success? &&
      uploads[k] == UploadFor(PartitionDirs(groups)[k], uuids(k))
  }

  /** Every partition directory's name parses. */
  lemma GroupingPublishable(groups: seq<Group>, rows: Table)
    requires IsGrouping(groups, rows)
    ensures forall k :: 0 <= k < |groups| ==> ParseDirName(PartitionDirs(groups)[k].name).Success?
  {
    forall k | 0 <= k < |groups| ensures ParseDirName(PartitionDirs(groups)[k].name).Success? {
      PartitionNamesParse(groups, rows, k);
    }
  }

  /** Every directory `to_parquet` leaves has a name that parses. */
  lemma EntriesPublishable(groups: seq<Group>, rows: Table)
    requires IsGrouping(groups, rows)
    ensures forall i :: 0 <= i < |WritePartitions(groups)| && WritePartitions(groups)[i].isDir ==>
      ParseDirName(WritePartitions(groups)[i].name).Success?
  {
    var entries := WritePartitions(groups);
    GroupingPublishable(groups, rows);
    forall i | 0 <= i < |entries| && entries[i].isDir ensures ParseDirName(entries[i].name).Success? {
    }
  }

  /** The `is_dir()` test skips the metadata files and keeps every partition. */
  lemma DirectoriesOfPartitions(groups: seq<Group>)
    ensures Filter(IsDirectory, WritePartitions(groups)) == PartitionDirs(groups)
  {
    var dirs := PartitionDirs(groups);
    FilterAll(IsDirectory, dirs);
    FilterAppend(IsDirectory, MetadataFiles, dirs);
  }

  /** Each upload of a grouping goes under the monthly key of its rows. */
  lemma PublishedMonthly(groups: seq<Group>, rows: Table, uploads: seq<Upload>, uuids: nat -> string)
    requires IsGrouping(groups, rows) && UploadsOfGrouping(groups, uploads, uuids)
    ensures MonthlyUploads(uploads, uuids)
  {
    forall k | 0 <= k < |uploads|
      ensures uploads[k].bucket == DestinationBucket && uploads[k].rows == groups[k].rows
      ensures forall row :: row in uploads[k].rows ==> uploads[k].key == OutputKeyFor(row.date, uuids(k))
    {
      PartitionNamesParse(groups, rows, k);
    }
  }

  /** Upload k carries the rows of group k. */
  predicate SameRows(groups: seq<Group>, uploads: seq<Upload>) {
    |uploads| == |groups| && forall k :: 0 <= k < |groups| ==> uploads[k].rows == groups[k].rows
  }

  /** The uploads of a grouping keep the months apart. */
  lemma PublishedSeparate(groups: seq<Group>, rows: Table, uploads: seq<Upload>)
    requires IsGrouping(groups, rows) && SameRows(groups, uploads)
    ensures SeparateMonths(uploads)
  {
    forall k, l, a, b | 0 <= k < l < |uploads| && a in uploads[k].rows && b in uploads[l].rows
      ensures (a.date.year, a.date.month) != (b.date.year, b.date.month)
    {
      GroupsKeepMonthsApart(groups, rows, k, l, a, b);
    }
  }

  /** Each upload of a grouping holds exactly the rows of its month. */
  lemma PublishedMonthContents(groups: seq<Group>, rows: Table, uploads: seq<Upload>)
    requires IsGrouping(groups, rows) && SameRows(groups, uploads)
    ensures MonthContents(uploads, rows)
  {
    forall k | 0 <= k < |uploads| && uploads[k].rows != []
      ensures uploads[k].rows == RowsWithKey(rows, KeyOf(uploads[k].rows[0]))
    {
      RowsWithKeyMembers(rows, groups[k].key);
      assert uploads[k].rows[0] in groups[k].rows;
    }
  }

  /** A row among the uploaded rows is in some upload. */
  lemma {:induction false} InSomeUpload(uploads: seq<Upload>)
    ensures forall row :: row in UploadedRows(uploads) ==>
      exists k :: 0 <= k < |uploads| && row in uploads[k].rows
  {
    if uploads != [] {
      var n := |uploads|;
      InSomeUpload(uploads[..n - 1]);
      forall row | row in UploadedRows(uploads)
        ensures exists k :: 0 <= k < n && row in uploads[k].rows
      {
        if row !in uploads[n - 1].rows {
          assert row in UploadedRows(uploads[..n - 1]);
          var k :| 0 <= k < n - 1 && row in uploads[..n - 1][k].rows;
          assert uploads[k] == uploads[..n - 1][k];
        }
      }
    }
  }

  /** The uploads of the grouping of a table carry each of its rows exactly
      as often as the table does. */
  lemma PublishedAllRows(rows: Table, uploads: seq<Upload>)
    requires SameRows(GroupRows(rows), uploads)
    ensures multiset(UploadedRows(uploads)) == multiset(rows)
    ensures forall row :: row in rows ==> exists k :: 0 <= k < |uploads| && row in uploads[k].rows
  {
    UploadedRowsOfGroups(GroupRows(rows), uploads);
    InSomeUpload(uploads);
    assert forall row :: row in rows ==> row in multiset(UploadedRows(uploads));
  }

  /** What the upload loop publishes for the grouping of a table: monthly
      keys, whole months kept apart, and every row exactly once. */
  lemma PublishedGrouping(rows: Table, uploads: seq<Upload>, uuids: nat -> string)
    requires UploadsOfGrouping(GroupRows(rows), uploads, uuids)
    ensures MonthlyUploads(uploads, uuids) && SeparateMonths(uploads)
    ensures MonthContents(uploads, rows)
    ensures multiset(UploadedRows(uploads)) == multiset(rows)
    ensures forall row :: row in rows ==> exists k :: 0 <= k < |uploads| && row in uploads[k].rows
  {
    var groups := GroupRows(rows);
    GroupRowsSpec(rows);
    PublishedMonthly(groups, rows, uploads, uuids);
    PublishedSeparate(groups, rows, uploads);
    PublishedMonthContents(groups, rows, uploads);
    PublishedAllRows(rows, uploads);
  }

  /** Every row of every selected object is among the selected rows. */
  lemma {:induction false} SelectedRowsMembers(objects: map<string, Table>, keys: seq<string>)
    requires forall i :: 0 <= i < |keys| ==> keys[i] in objects
    ensures forall key, row :: key in keys && row in objects[key] ==> row in SelectedRows(objects, keys)
  {
    if keys != [] {
      SelectedRowsMembers(objects, keys[1..]);
      forall key, row | key in keys && row in objects[key] ensures row in SelectedRows(objects, keys) {
        if key != keys[0] {
          assert key in keys[1..];
        }
      }
    }
  }

  /** What the upload loop publishes for the selected objects: every row of
      every selected object is in some upload. */
  lemma PublishedSelection(objects: map<string, Table>, keys: seq<string>, uploads: seq<Upload>, uuids: nat -> string)
    requires forall i :: 0 <= i < |keys| ==> keys[i] in objects
    requires UploadsOfGrouping(GroupRows(SelectedRows(objects, keys)), uploads, uuids)
    ensures forall key, row :: key in keys && row in objects[key] ==>
      exists k :: 0 <= k < |uploads| && row in uploads[k].rows
  {
    var rows := SelectedRows(objects, keys);
    assert SameRows(GroupRows(rows), uploads);
    PublishedAllRows(rows, uploads);
    SelectedRowsMembers(objects, keys);
    forall key, row | key in keys && row in objects[key]
      ensures exists k :: 0 <= k < |uploads| && row in uploads[k].rows
    {
      assert row in rows;
    }
  }

  /** The whole invocation. An empty bucket, a failed download, an empty
      selection and a partition name that does not parse are the exceptions
      the source lets escape; the last cannot happen for the names the
      partitioning writes. On success the uploads are exactly the partitions
      of the selected rows by `year_month`: one per (year, month) present,
      each under its monthly key, holding that month's rows in order, and
      every selected row is uploaded exactly once. */
  method LambdaHandler(listing: seq<string>, objects: map<string, Table>, uuids: nat -> string)
    returns (r: Result<seq<Upload>>)
    ensures listing == [] ==> r == Failure(NoContents)
    ensures r.Success? <==> (listing != [] && SelectKeys(listing) != [] &&
      forall i :: 0 <= i < |SelectKeys(listing)| ==> Fetchable(objects, SelectKeys(listing)[i]))
    ensures listing != [] && SelectKeys(listing) == [] ==> r == Failure(NoObjectsToConcatenate)
    ensures listing != [] && SelectKeys(listing) != [] && r.Failure? ==>
      exists i :: FirstUnreadable(objects, SelectKeys(listing), i) && r.error == Unreadable(SelectKeys(listing)[i])
    ensures r.Success? ==>
      UploadsOfGrouping(GroupRows(SelectedRows(objects, SelectKeys(listing))), r.value, uuids)
    ensures r.Success? ==> MonthlyUploads(r.value, uuids) && SeparateMonths(r.value)
    ensures r.Success? ==> MonthContents(r.value, SelectedRows(objects, SelectKeys(listing)))
    ensures r.Success? ==>
      multiset(UploadedRows(r.value)) == multiset(SelectedRows(objects, SelectKeys(listing)))
    ensures r.Success? ==> forall key, row :: key in SelectKeys(listing) && row in objects[key] ==>
      exists k :: 0 <= k < |r.value| && row in r.value[k].rows
  {
    if listing == [] {
      return Failure(NoContents);
    }
    var selected := SelectKeys(listing);
    var fetched, scratch := FetchTables(objects, selected);
    if fetched.Failure? {
      return Failure(fetched.error);
    }
    var concatenated := Concatenate(fetched.value);
    if concatenated.Failure? {
      return Failure(concatenated.error);
    }
    var rows := concatenated.value;
    TablesHoldSelectedRows(objects, selected, fetched.value);
    var groups := GroupRows(rows);
    var entries := WritePartitions(groups);
    var uploaded;
    r, uploaded := PublishPartitions(entries, uuids);

    GroupRowsSpec(rows);
    EntriesPublishable(groups, rows);
    DirectoriesOfPartitions(groups);
    assert r.Success?;
    assert UploadsOfGrouping(groups, r.value, uuids);
    PublishedGrouping(rows, r.value, uuids);
    PublishedSelection(objects, selected, r.value, uuids);
  }
}

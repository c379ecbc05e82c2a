/** `to_parquet(..., partition_cols=['year_month'])`: the rows split into one
    group per distinct `year_month` value, each written to a directory
    named `year_month=<value>`. */
module Partitioning {
  import opened Seqs
  import opened Aggregation

  /** The rows of one partition, under their shared `year_month` value. */
  datatype Group = Group(key: string, rows: Table)

  /** An entry of the scratch directory: its name, whether it is a
      directory, and the rows of the file `part.0.parquet` inside it. */
  datatype DirEntry = DirEntry(name: string, isDir: bool, rows: Table)

  function KeyOf(row: Row): string { YearMonth(row.date) }

  /** The rows whose `year_month` value is `key`, in table order. */
  function RowsWithKey(rows: Table, key: string): Table {
    Filter((row: Row) => KeyOf(row) == key, rows)
  }

  lemma RowsWithKeySnoc(rows: Table, row: Row, key: string)
    ensures RowsWithKey(rows + [row], key) ==
      RowsWithKey(rows, key) + (if KeyOf(row) == key then [row] else [])
  {
  }

  lemma RowsWithKeyMembers(rows: Table, key: string)
    ensures forall row :: row in RowsWithKey(rows, key) <==> row in rows && KeyOf(row) == key
  {
    FilterMembers((row: Row) => KeyOf(row) == key, rows);
  }

  predicate DistinctKeys(groups: seq<Group>) {
    forall i, j :: 0 <= i < j < |groups| ==> groups[i].key != groups[j].key
  }

  function TotalSize(groups: seq<Group>): nat {
    if groups == [] then 0 else TotalSize(groups[..|groups| - 1]) + |groups[|groups| - 1].rows|
  }

  /** The position of the group for `key`, or -1 when there is none. */
  function FindGroup(groups: seq<Group>, key: string): (i: int)
    ensures -1 <= i < |groups|
    ensures i >= 0 ==> groups[i].key == key
    ensures i < 0 ==> forall j :: 0 <= j < |groups| ==> groups[j].key != key
  {
    if groups == [] then -1
    else if groups[|groups| - 1].key == key then |groups| - 1
    else FindGroup(groups[..|groups| - 1], key)
  }

  /** The rows of all groups, group after group. */
  function GroupedRows(groups: seq<Group>): Table {
    if groups == [] then [] else GroupedRows(groups[..|groups| - 1]) + groups[|groups| - 1].rows
  }

  /** Files one more row: into the group of its key, or a new group at the
      end. The row's key then has a group, and the groups hold the row
      once more and nothing else new. */
  function AddRow(groups: seq<Group>, row: Row): (r: seq<Group>)
    ensures FindGroup(r, KeyOf(row)) >= 0
    ensures TotalSize(r) == TotalSize(groups) + 1
    ensures multiset(GroupedRows(r)) == multiset(GroupedRows(groups)) + multiset{row}
  {
    var i := FindGroup(groups, KeyOf(row));
    if i < 0 then
      assert (groups + [Group(KeyOf(row), [row])])[..|groups|] == groups;
      groups + [Group(KeyOf(row), [row])]
    else
      var g := Group(groups[i].key, groups[i].rows + [row]);
      TotalSizeGrow(groups, i, g);
      GroupedRowsGrow(groups, i, g, row);
      assert groups[i := g][i].key == KeyOf(row);
      groups[i := g]
  }

  /** The groups of a table, in order of each key's first row. Together
      they hold exactly the table's rows: as many, and each as often. */
  function GroupRows(rows: Table): (groups: seq<Group>)
    ensures TotalSize(groups) == |rows|
    ensures multiset(GroupedRows(groups)) == multiset(rows)
  {
    if rows == [] then []
    else
      assert rows == rows[..|rows| - 1] + [rows[|rows| - 1]];
      AddRow(GroupRows(rows[..|rows| - 1]), rows[|rows| - 1])
  }

  /** Growing one group by one row adds that row to the grouped rows. */
  lemma {:induction false} GroupedRowsGrow(groups: seq<Group>, i: nat, g: Group, row: Row)
    requires i < |groups| && g.rows == groups[i].rows + [row]
    ensures multiset(GroupedRows(groups[i := g])) == multiset(GroupedRows(groups)) + multiset{row}
  {
    var n := |groups|;
    if i < n - 1 {
      assert groups[i := g][..n - 1] == groups[..n - 1][i := g];
      GroupedRowsGrow(groups[..n - 1], i, g, row);
    } else {
      assert groups[i := g][..n - 1] == groups[..n - 1];
    }
  }

  /** Growing one group by one row grows the total by one. */
  lemma {:induction false} TotalSizeGrow(groups: seq<Group>, i: nat, g: Group)
    requires i < |groups| && |g.rows| == |groups[i].rows| + 1
    ensures TotalSize(groups[i := g]) == TotalSize(groups) + 1
  {
    var n := |groups|;
    if i < n - 1 {
      assert groups[i := g][..n - 1] == groups[..n - 1][i := g];
      TotalSizeGrow(groups[..n - 1], i, g);
    } else {
      assert groups[i := g][..n - 1] == groups[..n - 1];
    }
  }

  /** Every row's key has a group. */
  predicate Covers(groups: seq<Group>, rows: Table) {
    forall j :: 0 <= j < |rows| ==> FindGroup(groups, KeyOf(rows[j])) >= 0
  }

  /** Each group holds exactly the rows with its key, in table order, and
      at least one. */
  predicate ExactGroups(groups: seq<Group>, rows: Table) {
    forall i :: 0 <= i < |groups| ==>
      groups[i].rows == RowsWithKey(rows, groups[i].key) && groups[i].rows != []
  }

  /** `groups` partitions `rows` by key. */
  predicate IsGrouping(groups: seq<Group>, rows: Table) {
    && DistinctKeys(groups)
    && ExactGroups(groups, rows)
    && Covers(groups, rows)
    && TotalSize(groups) == |rows|
  }

  /** A key without a group has no rows. */
  lemma NoGroupNoRows(groups: seq<Group>, rows: Table, key: string)
    requires Covers(groups, rows) && FindGroup(groups, key) < 0
    ensures RowsWithKey(rows, key) == []
  {
    forall j | 0 <= j < |rows| ensures KeyOf(rows[j]) != key {
    }
    FilterNone((row: Row) => KeyOf(row) == key, rows);
  }

  /** A row with a new key opens a new group at the end. */
  lemma AddRowNewGroup(groups: seq<Group>, rows: Table, row: Row)
    requires IsGrouping(groups, rows) && FindGroup(groups, KeyOf(row)) < 0
    ensures IsGrouping(groups + [Group(KeyOf(row), [row])], rows + [row])
  {
    var k := KeyOf(row);
    var after := groups + [Group(k, [row])];
    var rows' := rows + [row];
    assert after[..|after| - 1] == groups;
    assert TotalSize(after) == |rows'|;
    assert DistinctKeys(after);
    NoGroupNoRows(groups, rows, k);
    assert ExactGroups(after, rows') by {
      forall i | 0 <= i < |after|
        ensures after[i].rows == RowsWithKey(rows', after[i].key) && after[i].rows != []
      {
        RowsWithKeySnoc(rows, row, after[i].key);
      }
    }
    assert Covers(after, rows') by {
      forall j | 0 <= j < |rows'| ensures FindGroup(after, KeyOf(rows'[j])) >= 0 {
        if j < |rows| {
          var m := FindGroup(groups, KeyOf(rows[j]));
          assert after[m].key == KeyOf(rows'[j]);
        } else {
          assert after[|groups|].key == KeyOf(rows'[j]);
        }
      }
    }
  }

  /** A row with a known key joins the end of its group. */
  lemma AddRowExistingGroup(groups: seq<Group>, rows: Table, row: Row)
    requires IsGrouping(groups, rows)
    requires FindGroup(groups, KeyOf(row)) >= 0
    ensures var i := FindGroup(groups, KeyOf(row));
      IsGrouping(groups[i := Group(groups[i].key, groups[i].rows + [row])], rows + [row])
  {
    var k := KeyOf(row);
    var i := FindGroup(groups, k);
    var g := Group(groups[i].key, groups[i].rows + [row]);
    var after := groups[i := g];
    var rows' := rows + [row];
    TotalSizeGrow(groups, i, g);
    forall m | 0 <= m < |after|
      ensures after[m].rows == RowsWithKey(rows', after[m].key) && after[m].rows != []
    {
      RowsWithKeySnoc(rows, row, after[m].key);
    }
    forall j | 0 <= j < |rows'| ensures FindGroup(after, KeyOf(rows'[j])) >= 0 {
      if j < |rows| {
        var m := FindGroup(groups, KeyOf(rows[j]));
        assert after[m].key == KeyOf(rows'[j]);
      } else {
        assert after[i].key == KeyOf(rows'[j]);
      }
    }
  }

  /** Grouping is a partition of the table by key: keys are pairwise
      distinct, each group holds exactly the rows with its key (in table
      order, at least one), every row's key has a group, and the group sizes
      add up to the number of rows. */
  lemma {:induction false} GroupRowsSpec(rows: Table)
    ensures IsGrouping(GroupRows(rows), rows)
    decreases |rows|
  {
    if rows != [] {
      var rows', row := rows[..|rows| - 1], rows[|rows| - 1];
      assert rows == rows' + [row];
      GroupRowsSpec(rows');
      if FindGroup(GroupRows(rows'), KeyOf(row)) < 0 {
        AddRowNewGroup(GroupRows(rows'), rows', row);
      } else {
        AddRowExistingGroup(GroupRows(rows'), rows', row);
      }
    }
  }

  /** Every row lands in exactly one group: the group of its key. */
  lemma RowInExactlyOneGroup(rows: Table, j: nat)
    requires j < |rows|
    ensures var groups := GroupRows(rows);
      var i := FindGroup(groups, KeyOf(rows[j]));
      && 0 <= i && rows[j] in groups[i].rows
      && forall i' :: 0 <= i' < |groups| && rows[j] in groups[i'].rows ==> i' == i
  {
    GroupRowsSpec(rows);
    var groups := GroupRows(rows);
    var i := FindGroup(groups, KeyOf(rows[j]));
    RowsWithKeyMembers(rows, groups[i].key);
    forall i' | 0 <= i' < |groups| && rows[j] in groups[i'].rows ensures i' == i {
      RowsWithKeyMembers(rows, groups[i'].key);
    }
  }

  /** Rows of two different groups differ in year or month. */
  lemma GroupsKeepMonthsApart(groups: seq<Group>, rows: Table, k: nat, l: nat, a: Row, b: Row)
    requires IsGrouping(groups, rows)
    requires k < l < |groups| && a in groups[k].rows && b in groups[l].rows
    ensures (a.date.year, a.date.month) != (b.date.year, b.date.month)
  {
    RowsWithKeyMembers(rows, groups[k].key);
    RowsWithKeyMembers(rows, groups[l].key);
    YearMonthInjective(a.date, b.date);
  }

  /** One directory per group, named `year_month=<value>`, holding the
      group's rows. */
  function PartitionDirs(groups: seq<Group>): (dirs: seq<DirEntry>)
    ensures |dirs| == |groups|
    ensures forall i :: 0 <= i < |groups| ==>
      dirs[i] == DirEntry("year_month=" + groups[i].key, true, groups[i].rows)
  {
    if groups == [] then []
    else [DirEntry("year_month=" + groups[0].key, true, groups[0].rows)] + PartitionDirs(groups[1..])
  }

  /** The two dataset-wide metadata files the parquet writer puts beside the
      partition directories; they are plain files. */
  const MetadataFiles: seq<DirEntry> :=
    [DirEntry("_common_metadata", false, []), DirEntry("_metadata", false, [])]

  /** What `to_parquet` leaves in the scratch folder: the two metadata
      files, then one directory per group; only the latter are directories. */
  function WritePartitions(groups: seq<Group>): (entries: seq<DirEntry>)
    ensures |entries| == |groups| + 2
    ensures forall i :: 0 <= i < |entries| ==> (entries[i].isDir <==> 2 <= i)
  {
    MetadataFiles + PartitionDirs(groups)
  }
}

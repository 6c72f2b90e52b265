/**
 * The analytics component's statistics over every stored file record:
 * the file count, the share of Completed files, the average size, and a
 * breakdown by upper-cased file type with per-type count, average size and
 * success rate.
 */
module Analytics {

  import opened Numbers
  import opened Strings
  import opened Store

  /** `parseFloat(file.file_size.replace(' KB', ''))`. */
  function SizeOf(r: FileRecord): Num
  {
    ParseFloat(RemoveFirst(r.fileSize, " KB"))
  }

  /** `file.file_type.toUpperCase()`: the key a record is grouped under. */
  function TypeKey(r: FileRecord): string
  {
    ToUpperCase(r.fileType)
  }

  function IsCompleted(r: FileRecord): nat
  {
    if r.status == Completed then 1 else 0
  }

  /** `data.filter(f => f.status === 'Completed').length`. */
  function CompletedCount(data: seq<FileRecord>): (n: nat)
    ensures n <= |data|
    ensures n == 0 <==> forall i | 0 <= i < |data| :: data[i].status != Completed
  {
    if data == [] then 0 else CompletedCount(data[..|data| - 1]) + IsCompleted(data[|data| - 1])
  }

  /** `data.reduce((acc, file) => acc + size, 0)`. */
  function TotalSize(data: seq<FileRecord>): Num
  {
    if data == [] then Fin(0.0) else Add(TotalSize(data[..|data| - 1]), SizeOf(data[|data| - 1]))
  }

  /** `(part / whole * 100)`. */
  function Percent(part: nat, whole: nat): Num
    requires whole > 0
  {
    Fin((part as real) / (whole as real) * 100.0)
  }

  // ------------------------------------------------------------ typeStats

  /** One entry of `typeStats`: `{ count, totalSize, successful }`. */
  datatype Tally = Tally(count: nat, totalSize: Num, successful: nat)

  /** The `typeStats` object: its entries, and its keys in insertion order. */
  datatype Groups = Groups(stats: map<string, Tally>, order: seq<string>)

  /**
   * One step of the `typeStats` reduce for a record with upper-cased type
   * `key`, parsed size `size` and `completed` 1 or 0: create the entry if
   * missing, then count the record in.
   */
  function Tallied(g: Groups, key: string, size: Num, completed: nat): Groups
  {
    var t := if key in g.stats then g.stats[key] else Tally(0, Fin(0.0), 0);
    Groups(
      g.stats[key := Tally(t.count + 1, Add(t.totalSize, size), t.successful + completed)],
      if key in g.stats then g.order else g.order + [key])
  }

  /** `typeStats`: the reduce over all records, from an empty object. */
  function GroupByType(data: seq<FileRecord>): Groups
  {
    if data == [] then Groups(map[], [])
    else
      var r := data[|data| - 1];
      Tallied(GroupByType(data[..|data| - 1]), TypeKey(r), SizeOf(r), IsCompleted(r))
  }

  predicate NoDuplicates(keys: seq<string>)
  {
    forall i, j | 0 <= i < j < |keys| :: keys[i] != keys[j]
  }

  /**
   * The shape every `typeStats` has: each key listed once, the listed keys
   * are the entries, and each entry has counted at least one file and no
   * more successes than files.
   */
  predicate WellFormed(g: Groups)
  {
    && NoDuplicates(g.order)
    && (forall k | k in g.order :: k in g.stats)
    && (forall k | k in g.stats :: k in g.order)
    && (forall k | k in g.stats :: 1 <= g.stats[k].count && g.stats[k].successful <= g.stats[k].count)
  }

  lemma NoDuplicatesTail(keys: seq<string>)
    requires keys != [] && NoDuplicates(keys)
    ensures NoDuplicates(keys[1..]) && keys[0] !in keys[1..]
  {
    forall i, j | 0 <= i < j < |keys[1..]| ensures keys[1..][i] != keys[1..][j] {
      assert keys[1..][i] == keys[i + 1] && keys[1..][j] == keys[j + 1];
    }
    forall j | 0 <= j < |keys[1..]| ensures keys[1..][j] != keys[0] {
      assert keys[1..][j] == keys[j + 1];
    }
  }

  /** The type keys that occur in `data`. */
  function KeysOf(data: seq<FileRecord>): set<string>
  {
    set i | 0 <= i < |data| :: TypeKey(data[i])
  }

  lemma KeysOfSnoc(data: seq<FileRecord>)
    requires data != []
    ensures KeysOf(data) == KeysOf(data[..|data| - 1]) + {TypeKey(data[|data| - 1])}
  {
    var init := data[..|data| - 1];
    forall k | k in KeysOf(data) ensures k in KeysOf(init) + {TypeKey(data[|data| - 1])} {
      var i :| 0 <= i < |data| && TypeKey(data[i]) == k;
      if i < |data| - 1 {
        assert TypeKey(init[i]) == k;
      }
    }
    forall k | k in KeysOf(init) ensures k in KeysOf(data) {
      var i :| 0 <= i < |init| && TypeKey(init[i]) == k;
      assert TypeKey(data[i]) == k;
    }
  }

  /** `typeStats` is well formed, with one entry per distinct upper-cased type in the data. */
  lemma {:induction false} GroupByTypeWellFormed(data: seq<FileRecord>)
    ensures WellFormed(GroupByType(data))
    ensures GroupByType(data).stats.Keys == KeysOf(data)
  {
    if data != [] {
      var init := data[..|data| - 1];
      GroupByTypeWellFormed(init);
      KeysOfSnoc(data);
    }
  }

  /** What a per-type sum adds up. */
  datatype Measure = Files | Successes

  function Pick(t: Tally, m: Measure): nat
  {
    match m
    case Files => t.count
    case Successes => t.successful
  }

  /** The sum of one measure over the entries listed in `keys`. */
  function SumOf(keys: seq<string>, stats: map<string, Tally>, m: Measure): nat
    requires forall k | k in keys :: k in stats
  {
    if keys == [] then 0 else Pick(stats[keys[0]], m) + SumOf(keys[1..], stats, m)
  }

  /** The sum of the size totals over the entries listed in `keys`, from 0 in key order. */
  function SumSizes(keys: seq<string>, stats: map<string, Tally>): Num
    requires forall k | k in keys :: k in stats
  {
    if keys == [] then Fin(0.0) else Add(stats[keys[0]].totalSize, SumSizes(keys[1..], stats))
  }

  lemma {:induction false} SumOfAppend(keys: seq<string>, stats: map<string, Tally>, k: string, m: Measure)
    requires forall x | x in keys :: x in stats
    requires k in stats
    ensures SumOf(keys + [k], stats, m) == SumOf(keys, stats, m) + Pick(stats[k], m)
  {
    if keys != [] {
      assert (keys + [k])[1..] == keys[1..] + [k];
      SumOfAppend(keys[1..], stats, k, m);
    }
  }

  lemma {:induction false} SumOfFrame(keys: seq<string>, stats: map<string, Tally>, k: string, t: Tally, m: Measure)
    requires forall x | x in keys :: x in stats
    requires k !in keys
    ensures SumOf(keys, stats[k := t], m) == SumOf(keys, stats, m)
  {
    if keys != [] {
      SumOfFrame(keys[1..], stats, k, t, m);
    }
  }

  /** Changing one listed entry changes the sum by exactly the change of that entry. */
  lemma {:induction false} SumOfUpdate(keys: seq<string>, stats: map<string, Tally>, k: string, t: Tally, m: Measure)
    requires forall x | x in keys :: x in stats
    requires k in stats
    requires NoDuplicates(keys)
    ensures SumOf(keys, stats[k := t], m) ==
            SumOf(keys, stats, m) + (if k in keys then Pick(t, m) - Pick(stats[k], m) else 0)
  {
    if keys != [] {
      NoDuplicatesTail(keys);
      assert k in keys <==> keys[0] == k || k in keys[1..];
      SumOfUpdate(keys[1..], stats, k, t, m);
    }
  }

  lemma {:induction false} SumSizesAppend(keys: seq<string>, stats: map<string, Tally>, k: string)
    requires forall x | x in keys :: x in stats
    requires k in stats
    ensures SumSizes(keys + [k], stats) == Add(SumSizes(keys, stats), stats[k].totalSize)
  {
    if keys == [] {
      assert keys + [k] == [k];
    } else {
      assert (keys + [k])[1..] == keys[1..] + [k];
      SumSizesAppend(keys[1..], stats, k);
      AddAssociative(stats[keys[0]].totalSize, SumSizes(keys[1..], stats), stats[k].totalSize);
    }
  }

  /** Adding `d` to one listed entry's size total adds `d` to the sum. */
  lemma {:induction false} SumSizesUpdate(keys: seq<string>, stats: map<string, Tally>, k: string, t: Tally, d: Num)
    requires forall x | x in keys :: x in stats
    requires k in keys && NoDuplicates(keys)
    requires t.totalSize == Add(stats[k].totalSize, d)
    ensures SumSizes(keys, stats[k := t]) == Add(SumSizes(keys, stats), d)
  {
    NoDuplicatesTail(keys);
    if keys[0] == k {
      SumSizesFrame(keys[1..], stats, k, t);
      var rest := SumSizes(keys[1..], stats);
      AddAssociative(stats[k].totalSize, d, rest);
      AddCommutative(d, rest);
      AddAssociative(stats[k].totalSize, rest, d);
    } else {
      SumSizesUpdate(keys[1..], stats, k, t, d);
      AddAssociative(stats[keys[0]].totalSize, SumSizes(keys[1..], stats), d);
    }
  }

  lemma {:induction false} SumSizesFrame(keys: seq<string>, stats: map<string, Tally>, k: string, t: Tally)
    requires forall x | x in keys :: x in stats
    requires k !in keys
    ensures SumSizes(keys, stats[k := t]) == SumSizes(keys, stats)
  {
    if keys != [] {
      SumSizesFrame(keys[1..], stats, k, t);
    }
  }

  /** What a measure adds up to over all records: the file count, or the Completed count. */
  function Expected(data: seq<FileRecord>, m: Measure): nat
  {
    match m
    case Files => |data|
    case Successes => CompletedCount(data)
  }

  /** The per-type counts add up to the number of files, and the per-type successes to the Completed files. */
  lemma {:induction false} GroupCountsSum(data: seq<FileRecord>, m: Measure)
    ensures WellFormed(GroupByType(data))
    ensures SumOf(GroupByType(data).order, GroupByType(data).stats, m) == Expected(data, m)
  {
    GroupByTypeWellFormed(data);
    if data != [] {
      var init := data[..|data| - 1];
      var r := data[|data| - 1];
      var g := GroupByType(init);
      GroupCountsSum(init, m);
      var k := TypeKey(r);
      var t := GroupByType(data).stats[k];
      if k in g.stats {
        SumOfUpdate(g.order, g.stats, k, t, m);
      } else {
        SumOfFrame(g.order, g.stats, k, t, m);
        SumOfAppend(g.order, g.stats[k := t], k, m);
      }
    }
  }

  /** The per-type size totals add up to the overall `totalSize`. */
  lemma {:induction false} GroupSizesSum(data: seq<FileRecord>)
    ensures WellFormed(GroupByType(data))
    ensures SumSizes(GroupByType(data).order, GroupByType(data).stats) == TotalSize(data)
  {
    GroupByTypeWellFormed(data);
    if data != [] {
      var init := data[..|data| - 1];
      var r := data[|data| - 1];
      var g := GroupByType(init);
      GroupSizesSum(init);
      var k := TypeKey(r);
      var t := GroupByType(data).stats[k];
      if k in g.stats {
        SumSizesUpdate(g.order, g.stats, k, t, SizeOf(r));
      } else {
        SumSizesFrame(g.order, g.stats, k, t);
        SumSizesAppend(g.order, g.stats[k := t], k);
        AddCommutative(Fin(0.0), SizeOf(r));
      }
    }
  }

  /** The records whose upper-cased type is `k`, in their order in `data`. */
  function OfType(data: seq<FileRecord>, k: string): (rs: seq<FileRecord>)
    ensures |rs| <= |data|
    ensures forall i | 0 <= i < |rs| :: TypeKey(rs[i]) == k
  {
    if data == [] then []
    else
      var r := data[|data| - 1];
      OfType(data[..|data| - 1], k) + (if TypeKey(r) == k then [r] else [])
  }

  /** The sums over `rs + [r]` are those over `rs` plus `r`'s contribution. */
  lemma AppendOne(rs: seq<FileRecord>, r: FileRecord)
    ensures TotalSize(rs + [r]) == Add(TotalSize(rs), SizeOf(r))
    ensures CompletedCount(rs + [r]) == CompletedCount(rs) + IsCompleted(r)
  {
    assert (rs + [r])[..|rs|] == rs;
  }

  /**
   * What each `typeStats` entry holds: a key is present exactly when some
   * record has that type, and its entry counts the records of that type,
   * adds up their sizes in order, and counts the Completed ones among them.
   */
  lemma {:induction false} GroupEntry(data: seq<FileRecord>, k: string)
    ensures k in GroupByType(data).stats <==> OfType(data, k) != []
    ensures k in GroupByType(data).stats ==>
      var rs := OfType(data, k);
      GroupByType(data).stats[k] == Tally(|rs|, TotalSize(rs), CompletedCount(rs))
  {
    if data != [] {
      var init := data[..|data| - 1];
      var r := data[|data| - 1];
      GroupEntry(init, k);
      var g := GroupByType(init);
      var rs := OfType(init, k);
      var size := SizeOf(r);
      var completed := IsCompleted(r);
      assert GroupByType(data) == Tallied(g, TypeKey(r), size, completed);
      TalliedAt(g, TypeKey(r), size, completed, k);
      if TypeKey(r) == k {
        assert OfType(data, k) == rs + [r];
        AppendOne(rs, r);
        if k !in g.stats {
          assert rs == [] && rs + [r] == [r];
        }
      } else {
        assert OfType(data, k) == rs;
      }
    }
  }

  /** How one reducer step changes the entry under `k`. */
  lemma TalliedAt(g: Groups, key: string, size: Num, completed: nat, k: string)
    ensures var g' := Tallied(g, key, size, completed);
      k != key ==> (k in g'.stats <==> k in g.stats) && (k in g.stats ==> g'.stats[k] == g.stats[k])
    ensures var g' := Tallied(g, key, size, completed);
      var t := if k in g.stats then g.stats[k] else Tally(0, Fin(0.0), 0);
      k == key ==> k in g'.stats && g'.stats[k] == Tally(t.count + 1, Add(t.totalSize, size), t.successful + completed)
  {
  }

  lemma GroupByTypeSnoc(data: seq<FileRecord>, i: nat)
    requires i < |data|
    ensures GroupByType(data[..i + 1]) ==
            Tallied(GroupByType(data[..i]), TypeKey(data[i]), SizeOf(data[i]), IsCompleted(data[i]))
  {
    assert data[..i + 1][..i] == data[..i];
  }

  /**
   * `Tallied` as the source writes it: `created` is the table once the
   * entry for `key` exists, and the entry is then updated field by field.
   */
  lemma TalliedInPlace(g: Groups, created: Groups, key: string, size: Num, completed: nat, entry: Tally)
    requires key in g.stats ==> created == g
    requires key !in g.stats ==> created == Groups(g.stats[key := Tally(0, Fin(0.0), 0)], g.order + [key])
    requires key in created.stats
    requires entry == Tally(created.stats[key].count + 1, Add(created.stats[key].totalSize, size),
                            created.stats[key].successful + completed)
    ensures Tallied(g, key, size, completed) == Groups(created.stats[key := entry], created.order)
  {
  }

  /** The `typeStats` reduce, as the loop that mutates the accumulator entry by entry. */
  method TypeStats(data: seq<FileRecord>) returns (stats: map<string, Tally>, order: seq<string>)
    ensures Groups(stats, order) == GroupByType(data)
  {
    stats, order := map[], [];
    for i := 0 to |data|
      invariant Groups(stats, order) == GroupByType(data[..i])
    {
      ghost var before := Groups(stats, order);
      var size := SizeOf(data[i]);
      var key := ToUpperCase(data[i].fileType);
      if key !in stats {
        stats := stats[key := Tally(0, Fin(0.0), 0)];
        order := order + [key];
      }
      ghost var created := Groups(stats, order);
      var entry := stats[key];
      entry := entry.(count := entry.count + 1);
      entry := entry.(totalSize := Add(entry.totalSize, size));
      if data[i].status == Completed {
        entry := entry.(successful := entry.successful + 1);
      }
      assert entry == Tally(created.stats[key].count + 1, Add(created.stats[key].totalSize, size),
                            created.stats[key].successful + IsCompleted(data[i]));
      TalliedInPlace(before, created, key, size, IsCompleted(data[i]), entry);
      stats := stats[key := entry];
      GroupByTypeSnoc(data, i);
    }
    assert data[..|data|] == data;
  }

  // -------------------------------------------------------------- the summary

  /** A statistic as shown: the number 0 of the empty case, or the text of `toFixed(1)`. */
  datatype Metric = ZeroNumber | Shown(text: Fixed1)

  /** One `fileTypes` entry. */
  datatype TypeRow = TypeRow(kind: string, files: nat, avgSize: Fixed1, successRate: Fixed1)

  datatype Summary = Summary(
    totalFiles: nat,
    successRate: Metric,
    avgProcessTime: string,
    avgFileSize: Metric,
    fileTypes: seq<TypeRow>)

  /** The `fileTypes` entry of one `typeStats` entry. */
  function Row(kind: string, t: Tally): TypeRow
    requires t.count > 0
  {
    TypeRow(kind, t.count, ToFixed1(DivCount(t.totalSize, t.count)), ToFixed1(Percent(t.successful, t.count)))
  }

  function SumFiles(rows: seq<TypeRow>): nat
  {
    if rows == [] then 0 else rows[0].files + SumFiles(rows[1..])
  }

  /** `Object.entries(typeStats).map(...)`, entries taken in key order. */
  function FileTypeRows(g: Groups): (rows: seq<TypeRow>)
    requires WellFormed(g)
    ensures |rows| == |g.order|
    ensures forall i | 0 <= i < |rows| :: rows[i].kind == g.order[i] && rows[i].files == g.stats[g.order[i]].count
    ensures forall i | 0 <= i < |rows| ::
      var t := g.stats[g.order[i]];
      && rows[i].avgSize == ToFixed1(DivCount(t.totalSize, t.count))
      && rows[i].successRate == ToFixed1(Percent(t.successful, t.count))
  {
    seq(|g.order|, i requires 0 <= i < |g.order| => Row(g.order[i], g.stats[g.order[i]]))
  }

  lemma {:induction false} SumFilesOfRows(keys: seq<string>, rows: seq<TypeRow>, stats: map<string, Tally>)
    requires forall k | k in keys :: k in stats
    requires |rows| == |keys|
    requires forall i | 0 <= i < |rows| :: rows[i].files == stats[keys[i]].count
    ensures SumFiles(rows) == SumOf(keys, stats, Files)
  {
    if keys != [] {
      SumFilesOfRows(keys[1..], rows[1..], stats);
    }
  }

  /**
   * Every `fileTypes` entry names a distinct key of `typeStats`, covers at
   * least one file and has a success rate between 0.0 and 100.0.
   */
  lemma RowsWellDefined(g: Groups)
    requires WellFormed(g)
    ensures var rows := FileTypeRows(g);
      && (forall i, j | 0 <= i < j < |rows| :: rows[i].kind != rows[j].kind)
      && (forall k :: k in g.stats <==> exists i | 0 <= i < |rows| :: rows[i].kind == k)
      && (forall i | 0 <= i < |rows| ::
            && rows[i].files >= 1
            && rows[i].successRate.Tenths?
            && !rows[i].successRate.negative
            && rows[i].successRate.tenths <= 1000)
  {
    var rows := FileTypeRows(g);
    forall i | 0 <= i < |rows|
      ensures rows[i].successRate.Tenths? && !rows[i].successRate.negative
      ensures rows[i].successRate.tenths <= 1000
    {
      PercentFixed1Bounds(g.stats[g.order[i]].successful, g.stats[g.order[i]].count);
    }
    forall k | k in g.stats ensures exists i | 0 <= i < |rows| :: rows[i].kind == k {
      var i :| 0 <= i < |g.order| && g.order[i] == k;
      assert rows[i].kind == k;
    }
  }

  /**
   * Each `fileTypes` row holds the statistics of the records of its type:
   * their number, their mean size and their success rate.
   */
  lemma FileTypeRowsOfData(data: seq<FileRecord>)
    ensures WellFormed(GroupByType(data))
    ensures var rows := FileTypeRows(GroupByType(data));
      forall i | 0 <= i < |rows| ::
        var rs := OfType(data, rows[i].kind);
        && |rs| > 0
        && rows[i].files == |rs|
        && rows[i].avgSize == ToFixed1(DivCount(TotalSize(rs), |rs|))
        && rows[i].successRate == ToFixed1(Percent(CompletedCount(rs), |rs|))
  {
    var g := GroupByType(data);
    GroupByTypeWellFormed(data);
    var rows := FileTypeRows(g);
    forall i | 0 <= i < |rows|
      ensures var rs := OfType(data, rows[i].kind);
        && |rs| > 0
        && rows[i].files == |rs|
        && rows[i].avgSize == ToFixed1(DivCount(TotalSize(rs), |rs|))
        && rows[i].successRate == ToFixed1(Percent(CompletedCount(rs), |rs|))
    {
      GroupEntry(data, g.order[i]);
    }
  }

  /** The statistics `fetchAnalytics` computes from the fetched records. */
  method ComputeStats(data: seq<FileRecord>) returns (s: Summary)
    ensures s.totalFiles == |data|
    ensures s.avgProcessTime == "1.85s"
    ensures |data| == 0 ==> s.successRate == ZeroNumber && s.avgFileSize == ZeroNumber && s.fileTypes == []
    ensures |data| > 0 ==> s.successRate == Shown(ToFixed1(Percent(CompletedCount(data), |data|)))
    ensures |data| > 0 ==> s.avgFileSize == Shown(ToFixed1(DivCount(TotalSize(data), |data|)))
    ensures s.successRate.Shown? ==>
      s.successRate.text.Tenths? && !s.successRate.text.negative && s.successRate.text.tenths <= 1000
    ensures SumFiles(s.fileTypes) == |data|
    ensures forall i, j | 0 <= i < j < |s.fileTypes| :: s.fileTypes[i].kind != s.fileTypes[j].kind
    ensures forall k :: k in KeysOf(data) <==> exists i | 0 <= i < |s.fileTypes| :: s.fileTypes[i].kind == k
    ensures forall i | 0 <= i < |s.fileTypes| ::
      && s.fileTypes[i].files >= 1
      && s.fileTypes[i].successRate.Tenths?
      && !s.fileTypes[i].successRate.negative
      && s.fileTypes[i].successRate.tenths <= 1000
    ensures WellFormed(GroupByType(data)) && s.fileTypes == FileTypeRows(GroupByType(data))
    ensures forall i | 0 <= i < |s.fileTypes| ::
      var rs := OfType(data, s.fileTypes[i].kind);
      && |rs| > 0
      && s.fileTypes[i].files == |rs|
      && s.fileTypes[i].avgSize == ToFixed1(DivCount(TotalSize(rs), |rs|))
      && s.fileTypes[i].successRate == ToFixed1(Percent(CompletedCount(rs), |rs|))
  {
    var totalFiles := |data|;
    var completedFiles := CompletedCount(data);
    var successRate := ZeroNumber;
    if totalFiles > 0 {
      successRate := Shown(ToFixed1(Percent(completedFiles, totalFiles)));
      PercentFixed1Bounds(completedFiles, totalFiles);
    }
    var totalSize := TotalSize(data);
    var avgFileSize := if totalFiles > 0 then Shown(ToFixed1(DivCount(totalSize, totalFiles))) else ZeroNumber;

    var stats, order := TypeStats(data);
    GroupByTypeWellFormed(data);
    GroupCountsSum(data, Files);
    var g := Groups(stats, order);
    var fileTypes := FileTypeRows(g);
    SumFilesOfRows(order, fileTypes, stats);
    RowsWellDefined(g);
    FileTypeRowsOfData(data);
    s := Summary(totalFiles, successRate, "1.85s", avgFileSize, fileTypes);
  }
}

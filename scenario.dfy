/**
 * What the analytics page shows for records the upload component wrote:
 * the size text written at upload reads back as the same number of
 * kilobytes, and a worked three-file example.
 */
module Scenario {

  import opened Numbers
  import opened Store
  import opened FileUpload
  import opened Analytics

  /** The size the analytics page reads from an uploaded record is the file's size in KB, to the hundredth. */
  lemma UploadedSizeReadsBack(bytes: nat, r: FileRecord)
    requires r.fileSize == FileSizeText(bytes)
    ensures SizeOf(r) == Fin(KiloHundredths(bytes) as real / 100.0)
    ensures (bytes as real) / 1024.0 - 0.005 < SizeOf(r).v <= (bytes as real) / 1024.0 + 0.005
  {
    FileSizeRoundTrip(bytes);
  }

  /**
   * The three example records: 10, 20 and 30 KB as read back by the
   * analytics page (what `UploadedSizeReadsBack` gives for uploads of
   * 10240, 20480 and 30720 bytes), two Completed and one Failed.
   */
  predicate ThreeFilesData(data: seq<FileRecord>)
  {
    && |data| == 3
    && SizeOf(data[0]) == Fin(10.0) && SizeOf(data[1]) == Fin(20.0) && SizeOf(data[2]) == Fin(30.0)
    && data[0].status == Completed && data[1].status == Completed && data[2].status == Failed
  }

  lemma ThreeFilesPrefixes(data: seq<FileRecord>)
    requires |data| == 3
    ensures data[..1][..0] == [] && data[..2][..1] == data[..1] && data[..3][..2] == data[..2] && data[..3] == data
  {
  }

  lemma ThreeFilesCompleted(data: seq<FileRecord>)
    requires ThreeFilesData(data)
    ensures CompletedCount(data) == 2
  {
    ThreeFilesPrefixes(data);
    assert CompletedCount(data[..1]) == 1;
    assert CompletedCount(data[..2]) == 2;
  }

  lemma PercentOfThirds()
    ensures ToFixed1(Percent(2, 3)) == Tenths(false, 667)
  {
    assert Percent(2, 3) == Fin(2.0 / 3.0 * 100.0);
  }

  /** Two of the three example files are Completed: the success rate shows as 66.7. */
  lemma ThreeFilesSuccessRate(data: seq<FileRecord>)
    requires ThreeFilesData(data)
    ensures ToFixed1(Percent(CompletedCount(data), |data|)) == Tenths(false, 667)
  {
    ThreeFilesCompleted(data);
    PercentOfThirds();
  }

  lemma ThreeFilesTotal(data: seq<FileRecord>)
    requires ThreeFilesData(data)
    ensures TotalSize(data) == Fin(60.0)
  {
    ThreeFilesPrefixes(data);
    assert TotalSize(data[..1]) == Fin(10.0);
    assert TotalSize(data[..2]) == Fin(30.0);
  }

  lemma AverageOfSixty()
    ensures ToFixed1(DivCount(Fin(60.0), 3)) == Tenths(false, 200)
  {
    assert DivCount(Fin(60.0), 3) == Fin(20.0);
  }

  /** The example sizes add up to 60 KB: the average shows as 20.0. */
  lemma ThreeFilesAverageSize(data: seq<FileRecord>)
    requires ThreeFilesData(data)
    ensures ToFixed1(DivCount(TotalSize(data), |data|)) == Tenths(false, 200)
  {
    ThreeFilesTotal(data);
    AverageOfSixty();
  }
}

/** Concrete runs of the poll on a small directory, computed from the model. */
module Scenarios {
  import opened Text
  import opened WatchTable
  import opened Events
  import opened MagicScanner
  import opened FileTracker

  const FIRST: seq<string> := ["hello", "MAGIC here", "world"]

  function Snapshot(lines: seq<string>): Directory {
    Directory(true, ["a.txt"], map["a.txt" := lines])
  }

  /** A line as long as the needle that differs in its first character does
      not contain it. */
  lemma NotFound(line: string, needle: string)
    requires |line| == |needle| > 0 && line[0] != needle[0]
    ensures Find(line, needle) == -1
  {
  }

  /** First poll of `a.txt` holding FIRST: the file is added and line 2 is
      reported; the watermark becomes 3. */
  lemma FirstPoll()
    ensures Poll(Empty, "dir", Snapshot(FIRST), "MAGIC", "txt")
         == PollResult(Table(["a.txt"], map["a.txt" := 3]),
                       [FileAdded("a.txt"), MagicFound("a.txt", [2])], Completed)
  {
    var t1 := Table([], map[]).Put("a.txt", 0);
    assert RemovePass(Empty, [], ["a.txt"]) == (Empty, []);
    NotFound("world", "MAGIC");
    assert "MAGIC here"[0..5] == "MAGIC";
    assert HitsBelow(FIRST, 0, "MAGIC", 1) == [];
    assert HitsBelow(FIRST, 0, "MAGIC", 2) == [2];
    assert Hits(FIRST, 0, "MAGIC") == [2];
    assert ["a.txt"][..0] == [];
  }

  /** A second poll with the file unchanged logs nothing. */
  lemma SecondPoll()
    ensures Poll(Table(["a.txt"], map["a.txt" := 3]), "dir", Snapshot(FIRST), "MAGIC", "txt")
         == PollResult(Table(["a.txt"], map["a.txt" := 3]), [], Completed)
  {
  }

  /** A third poll after "MAGIC again" is appended as line 4 reports
      nothing and keeps the watermark at 3: the new line has index 3, which
      is not above the stored watermark 3. */
  lemma ThirdPollSkipsAppendedLine(grown: seq<string>)
    requires grown == FIRST + ["MAGIC again"]
    ensures Poll(Table(["a.txt"], map["a.txt" := 3]), "dir", Snapshot(grown), "MAGIC", "txt")
         == PollResult(Table(["a.txt"], map["a.txt" := 3]), [], Completed)
  {
    var t := Table(["a.txt"], map["a.txt" := 3]);
    AppendedLineSkipped(t, "a.txt", FIRST, "MAGIC again", "MAGIC");
    RemoveNothing(t, t.order, ["a.txt"]);
    var dir := Snapshot(grown);
    assert EndsWith("a.txt", "txt");
    var r0 := AddScanPass(t, [], dir, "MAGIC", "txt");
    assert ["a.txt"][..0] == [];
    assert AddScanPass(t, ["a.txt"], dir, "MAGIC", "txt") == Visit(r0, "a.txt", dir, "MAGIC", "txt");
    assert Visit(r0, "a.txt", dir, "MAGIC", "txt") == PollResult(t, [], Completed);
  }

  /** Once `a.txt` is gone from the listing, the next poll logs its
      deletion and leaves the table empty. */
  lemma DeletedFile()
    ensures Poll(Table(["a.txt"], map["a.txt" := 3]), "dir", Directory(true, [], map[]), "MAGIC", "txt")
         == PollResult(Empty, [FileDeleted("a.txt")], Completed)
  {
  }

  /** A path that is not a directory logs one warning on every poll. */
  lemma MissingDirectory()
    ensures Poll(Empty, "nowhere", Directory(false, [], map[]), "MAGIC", "txt")
         == PollResult(Empty, [DirectoryMissing("nowhere")], Completed)
  {
  }
}

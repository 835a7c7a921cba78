/** What one call of `search_for_magic` computes: which line numbers it
    reports, what it leaves in the watch table, and what it logs. The skip
    test is `index <= start`, exactly as written: with `start == 0` the first
    line of a file is never examined, and after a file grows the first new
    line (whose index equals the stored watermark) is skipped as well. */
module MagicScanner {
  import opened Text
  import opened WatchTable
  import opened Events

  /** The 1-based numbers, in increasing order, of those of the first `n`
      lines that the scan examines (0-based index above `start`) and that
      contain `magic`. */
  function HitsBelow(lines: seq<string>, start: nat, magic: string, n: nat): seq<nat>
    requires n <= |lines|
  {
    if n == 0 then []
    else
      var earlier := HitsBelow(lines, start, magic, n - 1);
      if n - 1 <= start || Find(lines[n - 1], magic) == -1 then earlier else earlier + [n]
  }

  /** The hit list of a scan of `lines` from watermark `start`. */
  function Hits(lines: seq<string>, start: nat, magic: string): seq<nat> {
    HitsBelow(lines, start, magic, |lines|)
  }

  /** The watermark a scan of `lines` from `start` leaves behind: the last
      examined index + 1, or `start` when no line is examined. */
  function ScanMark(start: nat, lines: seq<string>): nat {
    if |lines| > start + 1 then |lines| else start
  }

  /** The watch table after a scan of `lines` under key `name` from `start`:
      every examined line overwrites the entry with its index + 1, so the
      entry ends at `|lines|` when some line was examined and is left alone
      otherwise. */
  function ScanTable(t: Table, name: string, start: nat, lines: seq<string>): (r: Table)
    ensures t.Valid() ==> r.Valid()
    ensures r.marks.Keys == if |lines| > start + 1 then t.marks.Keys + {name} else t.marks.Keys
    ensures name in r.marks ==> r.marks[name] == if |lines| > start + 1 then |lines| else t.marks[name]
    ensures forall k :: k in t.marks && k != name ==> r.marks[k] == t.marks[k]
    ensures name in t.marks && t.marks[name] == start ==> r.marks[name] == ScanMark(start, lines) >= start
    ensures name in t.marks ==> r.order == t.order
  {
    if |lines| > start + 1 then t.Put(name, |lines|) else t
  }

  /** The log output of a scan: one event listing all hits, or nothing. */
  function MagicEvents(name: string, hits: seq<nat>): (ev: seq<Event>)
    ensures |ev| <= 1
    ensures ev != [] <==> hits != []
    ensures forall e :: e in ev ==> e == MagicFound(name, hits)
  {
    if |hits| > 0 then [MagicFound(name, hits)] else []
  }

  lemma {:induction false} HitsBelowExactly(lines: seq<string>, start: nat, magic: string, n: nat)
    requires n <= |lines|
    ensures forall k :: k in HitsBelow(lines, start, magic, n) <==>
                        start + 2 <= k <= n && Occurs(lines[k - 1], magic)
  {
    if n > 0 {
      HitsBelowExactly(lines, start, magic, n - 1);
    }
  }

  /** A number is reported exactly when it is the 1-based number of an
      examined line (index above `start`) that contains `magic`. */
  lemma HitsExactly(lines: seq<string>, start: nat, magic: string)
    ensures forall k :: k in Hits(lines, start, magic) <==>
                        start + 2 <= k <= |lines| && Occurs(lines[k - 1], magic)
  {
    HitsBelowExactly(lines, start, magic, |lines|);
  }

  predicate Increasing(s: seq<nat>) {
    forall i, j :: 0 <= i < j < |s| ==> s[i] < s[j]
  }

  lemma {:induction false} HitsBelowIncreasing(lines: seq<string>, start: nat, magic: string, n: nat)
    requires n <= |lines|
    ensures Increasing(HitsBelow(lines, start, magic, n))
    ensures forall k :: k in HitsBelow(lines, start, magic, n) ==> k <= n
  {
    if n > 0 {
      var earlier := HitsBelow(lines, start, magic, n - 1);
      HitsBelowIncreasing(lines, start, magic, n - 1);
      assert forall i :: 0 <= i < |earlier| ==> earlier[i] in earlier;
    }
  }

  /** The hit list is strictly increasing. */
  lemma HitsIncreasing(lines: seq<string>, start: nat, magic: string)
    ensures Increasing(Hits(lines, start, magic))
  {
    HitsBelowIncreasing(lines, start, magic, |lines|);
  }

  lemma {:induction false} HitsBelowIgnoreSkipped(lines: seq<string>, other: seq<string>, start: nat, magic: string, n: nat)
    requires n <= |lines| == |other|
    requires forall i :: start < i < |lines| ==> lines[i] == other[i]
    ensures HitsBelow(lines, start, magic, n) == HitsBelow(other, start, magic, n)
  {
    if n > 0 {
      HitsBelowIgnoreSkipped(lines, other, start, magic, n - 1);
    }
  }

  /** Lines with 0-based index at most `start` are never examined: replacing
      them changes nothing in the hit list. */
  lemma SkippedLinesNeverExamined(lines: seq<string>, other: seq<string>, start: nat, magic: string)
    requires |lines| == |other|
    requires forall i :: start < i < |lines| ==> lines[i] == other[i]
    ensures Hits(lines, start, magic) == Hits(other, start, magic)
  {
    HitsBelowIgnoreSkipped(lines, other, start, magic, |lines|);
  }

  /** From watermark 0 the first line of a file is never checked, whatever
      it holds, and line number 1 is never reported. */
  lemma FirstLineNeverChecked(first: string, other: string, rest: seq<string>, magic: string)
    ensures Hits([first] + rest, 0, magic) == Hits([other] + rest, 0, magic)
    ensures 1 !in Hits([first] + rest, 0, magic)
  {
    SkippedLinesNeverExamined([first] + rest, [other] + rest, 0, magic);
    HitsExactly([first] + rest, 0, magic);
  }

  lemma {:induction false} HitsBelowNone(lines: seq<string>, start: nat, magic: string, n: nat)
    requires n <= |lines| && n <= start + 1
    ensures HitsBelow(lines, start, magic, n) == []
  {
    if n > 0 {
      HitsBelowNone(lines, start, magic, n - 1);
    }
  }

  /** Scanning again from the watermark the first scan stored, with the file
      unchanged, reports nothing and leaves the table as it was. */
  lemma RescanIsIdempotent(t: Table, name: string, lines: seq<string>, magic: string)
    requires name in t.marks
    ensures var t1 := ScanTable(t, name, t.marks[name], lines);
            && name in t1.marks
            && Hits(lines, t1.marks[name], magic) == []
            && ScanTable(t1, name, t1.marks[name], lines) == t1
  {
    var t1 := ScanTable(t, name, t.marks[name], lines);
    HitsBelowNone(lines, t1.marks[name], magic, |lines|);
  }

  /** After a file grows, the first new line is skipped too: a scan from the
      stored watermark `|lines|` reports exactly the matching new lines from
      the second one on. */
  lemma GrownFileHits(lines: seq<string>, more: seq<string>, magic: string)
    ensures forall k :: k in Hits(lines + more, |lines|, magic) <==>
                        |lines| + 2 <= k <= |lines| + |more| && Occurs(more[k - |lines| - 1], magic)
  {
    HitsExactly(lines + more, |lines|, magic);
  }

  /** In particular a single appended line is never reported, and the
      watermark does not move. */
  lemma AppendedLineSkipped(t: Table, name: string, lines: seq<string>, line: string, magic: string)
    requires name in t.marks && t.marks[name] == |lines|
    ensures Hits(lines + [line], |lines|, magic) == []
    ensures ScanTable(t, name, t.marks[name], lines + [line]) == t
  {
    HitsBelowNone(lines + [line], |lines|, magic, |lines| + 1);
  }
}

/** The scan engine as the program runs it: one object holds the watch
    table (`watch_dict`) and the log, and the two entry points update them
    step by step. Each method is proved to leave exactly the state that the
    functions of MagicScanner and FileTracker describe. */
module DirWatcher {
  import opened Text
  import opened WatchTable
  import opened Events
  import opened MagicScanner
  import opened FileTracker

  class Watcher {
    /** The keys of `watch_dict` in insertion order. */
    var order: seq<string>
    /** `watch_dict`: filename -> watermark. */
    var marks: map<string, nat>
    /** Everything logged so far. */
    var log: seq<Event>

    function Watched(): Table
      reads this
    {
      Table(order, marks)
    }

    ghost predicate Valid()
      reads this
    {
      Watched().Valid()
    }

    constructor ()
      ensures Valid() && Watched() == Empty && log == []
    {
      order, marks, log := [], map[], [];
    }

    /** `watch_dict[name] = v` */
    method Set(name: string, v: nat)
      modifies this
      ensures Watched() == old(Watched()).Put(name, v)
      ensures log == old(log)
    {
      if name !in marks {
        order := order + [name];
      }
      marks := marks[name := v];
    }

    /** `watch_dict.pop(name)`; the key is present, as it is at every call. */
    method Pop(name: string)
      requires name in marks
      modifies this
      ensures Watched() == old(Watched()).Pop(name)
      ensures log == old(log)
    {
      order := Without(order, name);
      marks := marks - {name};
    }

    /** `search_for_magic(filename, start_line, magic_string, path)` for a
        file whose lines are `lines`. */
    method SearchForMagic(filename: string, startLine: nat, magic: string, lines: seq<string>)
      modifies this
      ensures Watched() == ScanTable(old(Watched()), filename, startLine, lines)
      ensures log == old(log) + MagicEvents(filename, Hits(lines, startLine, magic))
    {
      ghost var t0 := Watched();
      var foundLines: seq<nat> := [];
      var lineNum := 0;
      while lineNum < |lines|
        invariant 0 <= lineNum <= |lines|
        invariant foundLines == HitsBelow(lines, startLine, magic, lineNum)
        invariant Watched() == if lineNum > startLine + 1 then t0.Put(filename, lineNum) else t0
        invariant log == old(log)
      {
        if lineNum > startLine {
          var foundItem := Find(lines[lineNum], magic);
          if lineNum > startLine + 1 {
            t0.PutTwice(filename, lineNum, lineNum + 1);
          }
          Set(filename, lineNum + 1);
          if foundItem != -1 {
            foundLines := foundLines + [lineNum + 1];
          }
        }
        lineNum := lineNum + 1;
      }
      if |foundLines| > 0 {
        log := log + [MagicFound(filename, foundLines)];
      }
    }

    /** The first loop of `watch_directory`: walk a snapshot of the keys and
        pop, with a log line, every one the listing no longer holds. */
    method RemoveVanished(fileList: seq<string>)
      requires Valid()
      modifies this
      ensures var p := RemovePass(old(Watched()), old(order), fileList);
              Watched() == p.0 && log == old(log) + p.1
    {
      ghost var t0 := Watched();
      var keys := order;
      var i := 0;
      while i < |keys|
        invariant 0 <= i <= |keys|
        invariant var p := RemovePass(t0, keys[..i], fileList);
                  Watched() == p.0 && log == old(log) + p.1
      {
        var k := keys[i];
        RemovePassKeepsRest(t0, i, fileList);
        RemovePassStep(t0, keys, i, fileList);
        if k !in fileList {
          log := log + [FileDeleted(k)];
          Pop(k);
        }
        i := i + 1;
      }
      assert keys[..i] == keys;
    }

    /** One turn of the second loop of `watch_directory`: a new listed name
        with the extension is logged and inserted at watermark 0, then every
        listed name with the extension is scanned; `open` fails for a name
        the snapshot holds no lines for. */
    method VisitName(filename: string, dir: Directory, magic: string, ext: string) returns (outcome: Outcome)
      modifies this
      ensures var r := Visit(PollResult(old(Watched()), [], Completed), filename, dir, magic, ext);
              Watched() == r.table && log == old(log) + r.events && outcome == r.outcome
    {
      if filename !in marks && EndsWith(filename, ext) {
        log := log + [FileAdded(filename)];
        Set(filename, 0);
      }
      if EndsWith(filename, ext) {
        if filename !in dir.contents {
          return ScanFailed(filename);
        }
        SearchForMagic(filename, marks[filename], magic, dir.contents[filename]);
      }
      return Completed;
    }

    /** The second loop of `watch_directory`, over the listing in order; a
        failed `open` ends it. */
    method AddAndScan(dir: Directory, magic: string, ext: string) returns (outcome: Outcome)
      modifies this
      ensures var r := AddScanPass(old(Watched()), dir.listing, dir, magic, ext);
              Watched() == r.table && log == old(log) + r.events && outcome == r.outcome
    {
      ghost var t1 := Watched();
      var fileList := dir.listing;
      var j := 0;
      while j < |fileList|
        invariant 0 <= j <= |fileList|
        invariant var r := AddScanPass(t1, fileList[..j], dir, magic, ext);
                  r.outcome == Completed && Watched() == r.table && log == old(log) + r.events
      {
        ghost var r := AddScanPass(t1, fileList[..j], dir, magic, ext);
        ghost var logBefore := log;
        var filename := fileList[j];
        assert fileList[..j + 1][..j] == fileList[..j];
        assert AddScanPass(t1, fileList[..j + 1], dir, magic, ext) == Visit(r, filename, dir, magic, ext);
        outcome := VisitName(filename, dir, magic, ext);
        VisitShift(r, filename, dir, magic, ext);
        if outcome.ScanFailed? {
          FailureStops(t1, fileList, j + 1, dir, magic, ext);
          return;
        }
        j := j + 1;
      }
      assert fileList[..j] == fileList;
      return Completed;
    }

    /** `watch_directory(path, magic_string, extension, interval)` against
        the snapshot `dir` of `path`. A failed `open` ends the poll early;
        the outcome says so, and what was done before it stays done. */
    method WatchDirectory(path: string, dir: Directory, magic: string, ext: string) returns (outcome: Outcome)
      requires Valid()
      modifies this
      ensures Valid()
      ensures var r := Poll(old(Watched()), path, dir, magic, ext);
              Watched() == r.table && log == old(log) + r.events && outcome == r.outcome
    {
      PollKeepsInvariant(Watched(), path, dir, magic, ext);
      if !dir.isDir {
        log := log + [DirectoryMissing(path)];
        return Completed;
      }
      RemoveVanished(dir.listing);
      outcome := AddAndScan(dir, magic, ext);
    }
  }
}

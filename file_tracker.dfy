/** What one call of `watch_directory` does to the watch table and the log,
    as a function of the table before the poll and a snapshot of the
    directory, and the properties of that reconciliation. */
module FileTracker {
  import opened Text
  import opened WatchTable
  import opened Events
  import opened MagicScanner

  /** A snapshot of the watched path: whether it is a directory, what
      listing the directory gives, and the lines of every listed file that
      can be opened. A listed name with no entry in `contents` is one whose
      `open` fails. */
  datatype Directory = Directory(isDir: bool, listing: seq<string>, contents: map<string, seq<string>>)

  /** A directory listing never names a file twice. */
  predicate WellFormed(dir: Directory) {
    Distinct(dir.listing)
  }

  /** How a poll ends: normally, or by the exception of a failed `open`,
      which stops the rest of the poll and keeps what was done before it. */
  datatype Outcome = Completed | ScanFailed(name: string)

  datatype PollResult = PollResult(table: Table, events: seq<Event>, outcome: Outcome)

  /** The table never holds a name lacking the extension. */
  ghost predicate TableInv(t: Table, ext: string) {
    t.Valid() && forall k :: k in t.marks ==> EndsWith(k, ext)
  }

  /** `n` is one of `names` and carries the watched extension. */
  predicate Qualifies(n: string, names: seq<string>, ext: string) {
    n in names && EndsWith(n, ext)
  }

  /** The watermark a listed file enters its scan with: its stored value if
      it was tracked before the poll, 0 if it is new. */
  function StartMark(t: Table, n: string): nat {
    if n in t.marks then t.marks[n] else 0
  }

  /** The removal pass over the first `|keys|` keys of the table's snapshot:
      every key that is not listed is logged and popped. */
  function RemovePass(t: Table, keys: seq<string>, listing: seq<string>): (Table, seq<Event>)
  {
    if keys == [] then (t, [])
    else
      var before := RemovePass(t, keys[..|keys| - 1], listing);
      var k := keys[|keys| - 1];
      if k in listing then before else (before.0.Pop(k), before.1 + [FileDeleted(k)])
  }

  /** One turn of the add-and-scan loop, for the listed name `name`. */
  function Visit(r: PollResult, name: string, dir: Directory, magic: string, ext: string): PollResult
  {
    if !EndsWith(name, ext) then r
    else
      var tracked := name in r.table.marks;
      var t1 := if tracked then r.table else r.table.Put(name, 0);
      var added := if tracked then [] else [FileAdded(name)];
      if name !in dir.contents then PollResult(t1, r.events + added, ScanFailed(name))
      else
        var lines := dir.contents[name];
        var start := t1.marks[name];
        PollResult(ScanTable(t1, name, start, lines),
                   r.events + added + MagicEvents(name, Hits(lines, start, magic)),
                   Completed)
  }

  /** A turn does not look at the events logged before it. */
  lemma VisitShift(r: PollResult, name: string, dir: Directory, magic: string, ext: string)
    ensures var alone := Visit(PollResult(r.table, [], r.outcome), name, dir, magic, ext);
            Visit(r, name, dir, magic, ext) == PollResult(alone.table, r.events + alone.events, alone.outcome)
  {
  }

  /** The add-and-scan loop over the first `|names|` listed names; the first
      failed scan ends it. */
  function AddScanPass(t: Table, names: seq<string>, dir: Directory, magic: string, ext: string): PollResult
  {
    if names == [] then PollResult(t, [], Completed)
    else
      var r := AddScanPass(t, names[..|names| - 1], dir, magic, ext);
      if r.outcome.ScanFailed? then r else Visit(r, names[|names| - 1], dir, magic, ext)
  }

  /** One poll: the directory check, then the removal pass over a snapshot
      of the keys, then the add-and-scan pass over the listing. */
  function Poll(t: Table, path: string, dir: Directory, magic: string, ext: string): PollResult
  {
    if !dir.isDir then PollResult(t, [DirectoryMissing(path)], Completed)
    else
      var removed := RemovePass(t, t.order, dir.listing);
      var r := AddScanPass(removed.0, dir.listing, dir, magic, ext);
      PollResult(r.table, removed.1 + r.events, r.outcome)
  }

  // ---------------------------------------------------------------------
  // The removal pass

  /** What the removal pass over `keys` has done, with result `p`. */
  ghost predicate Removed(t: Table, keys: seq<string>, listing: seq<string>, p: (Table, seq<Event>)) {
    && p.0.Valid()
    && (forall k :: k in p.0.marks <==> k in t.marks && (k in listing || k !in keys))
    && (forall k :: k in p.0.marks ==> p.0.marks[k] == t.marks[k])
    && (forall e :: e in p.1 ==> e.FileDeleted?)
    && (forall k :: multiset(p.1)[FileDeleted(k)] == if k in keys && k !in listing then 1 else 0)
  }

  /** The removal pass over one more, not yet visited, key. */
  lemma RemoveStep(t: Table, pre: seq<string>, last: string, listing: seq<string>, p: (Table, seq<Event>))
    requires last !in pre && last in t.marks
    requires Removed(t, pre, listing, p)
    ensures Removed(t, pre + [last], listing,
                    if last in listing then p else (p.0.Pop(last), p.1 + [FileDeleted(last)]))
  {
    assert forall k :: k in pre + [last] <==> k in pre || k == last;
    if last !in listing {
      assert multiset(p.1 + [FileDeleted(last)]) == multiset(p.1) + multiset{FileDeleted(last)};
    }
  }

  lemma {:induction false} RemovePassSpec(t: Table, keys: seq<string>, listing: seq<string>)
    requires t.Valid() && Distinct(keys)
    requires forall k :: k in keys ==> k in t.marks
    ensures var p := RemovePass(t, keys, listing);
            && p.0.Valid()
            && (forall k :: k in p.0.marks <==> k in t.marks && (k in listing || k !in keys))
            && (forall k :: k in p.0.marks ==> p.0.marks[k] == t.marks[k])
            && (forall e :: e in p.1 ==> e.FileDeleted?)
            && (forall k :: multiset(p.1)[FileDeleted(k)] == if k in keys && k !in listing then 1 else 0)
  {
    if keys != [] {
      var pre := keys[..|keys| - 1];
      var last := keys[|keys| - 1];
      assert keys == pre + [last];
      DistinctInit(keys);
      RemovePassSpec(t, pre, listing);
      RemoveStep(t, pre, last, listing, RemovePass(t, pre, listing));
    }
  }

  /** After the removal pass every remaining key is listed, kept keys keep
      their watermark, and each dropped key is logged exactly once. */
  lemma RemovalPass(t: Table, listing: seq<string>)
    requires t.Valid()
    ensures var p := RemovePass(t, t.order, listing);
            && p.0.Valid()
            && (forall k :: k in p.0.marks <==> k in t.marks && k in listing)
            && (forall k :: k in p.0.marks ==> p.0.marks[k] == t.marks[k])
            && (forall e :: e in p.1 ==> e.FileDeleted?)
            && (forall k :: multiset(p.1)[FileDeleted(k)] == if k in t.marks && k !in listing then 1 else 0)
  {
    RemovePassSpec(t, t.order, listing);
  }

  /** The removal pass over one more key. */
  lemma RemovePassStep(t: Table, keys: seq<string>, i: nat, listing: seq<string>)
    requires i < |keys|
    ensures var p := RemovePass(t, keys[..i], listing);
            RemovePass(t, keys[..i + 1], listing)
              == if keys[i] in listing then p else (p.0.Pop(keys[i]), p.1 + [FileDeleted(keys[i])])
  {
    assert keys[..i + 1][..i] == keys[..i];
  }

  /** A key the removal pass has not reached yet is still tracked. */
  lemma RemovePassKeepsRest(t: Table, i: nat, listing: seq<string>)
    requires t.Valid() && i < |t.order|
    ensures t.order[i] in RemovePass(t, t.order[..i], listing).0.marks
  {
    DistinctPrefix(t.order, i);
    assert forall k :: k in t.order[..i] ==> k in t.order;
    RemovePassSpec(t, t.order[..i], listing);
  }

  lemma {:induction false} RemoveNothing(t: Table, keys: seq<string>, listing: seq<string>)
    requires forall k :: k in keys ==> k in listing
    ensures RemovePass(t, keys, listing) == (t, [])
  {
    if keys != [] {
      RemoveNothing(t, keys[..|keys| - 1], listing);
    }
  }

  // ---------------------------------------------------------------------
  // The add-and-scan pass

  /** Facts that hold however the pass ends. */
  lemma {:induction false} AddScanPassKeeps(t: Table, names: seq<string>, dir: Directory, magic: string, ext: string)
    ensures var r := AddScanPass(t, names, dir, magic, ext);
            && (t.Valid() ==> r.table.Valid())
            && (forall n :: n in t.marks ==> n in r.table.marks && r.table.marks[n] >= t.marks[n])
            && (forall n :: n in r.table.marks ==> n in t.marks || Qualifies(n, names, ext))
            && (forall e :: e in r.events ==> e.FileAdded? || e.MagicFound?)
            && (r.outcome.ScanFailed? ==>
                  && Qualifies(r.outcome.name, names, ext)
                  && r.outcome.name !in dir.contents
                  && r.outcome.name in r.table.marks)
  {
    if names != [] {
      var pre := names[..|names| - 1];
      AddScanPassKeeps(t, pre, dir, magic, ext);
    }
  }

  /** What a pass over `names` that ran to the end has done, name by name. */
  ghost predicate Reconciled(t: Table, names: seq<string>, dir: Directory, magic: string, ext: string, r: PollResult) {
    && (forall n :: n in r.table.marks <==> n in t.marks || Qualifies(n, names, ext))
    && (forall n :: Qualifies(n, names, ext) ==>
          n in dir.contents && n in r.table.marks &&
          r.table.marks[n] == ScanMark(StartMark(t, n), dir.contents[n]))
    && (forall n :: n in t.marks && !Qualifies(n, names, ext) ==>
          n in r.table.marks && r.table.marks[n] == t.marks[n])
    && (forall n :: FileAdded(n) in r.events <==> Qualifies(n, names, ext) && n !in t.marks)
    && (forall n, h :: MagicFound(n, h) in r.events <==>
          Qualifies(n, names, ext) && n in dir.contents &&
          h == Hits(dir.contents[n], StartMark(t, n), magic) && h != [])
  }

  /** The bookkeeping of one turn that scanned `last`, stated on the turn's
      effect rather than on `Visit` itself. */
  lemma ScannedStep(t: Table, pre: seq<string>, last: string, dir: Directory, magic: string, ext: string,
                    r: PollResult, r': PollResult)
    requires last !in pre && EndsWith(last, ext) && last in dir.contents
    requires Reconciled(t, pre, dir, magic, ext, r)
    requires forall n :: n != last ==> (n in r'.table.marks <==> n in r.table.marks)
    requires forall n :: n != last && n in r.table.marks ==> r'.table.marks[n] == r.table.marks[n]
    requires last in r'.table.marks
    requires r'.table.marks[last] == ScanMark(StartMark(t, last), dir.contents[last])
    requires forall n :: FileAdded(n) in r'.events <==>
               FileAdded(n) in r.events || (n == last && last !in t.marks)
    requires forall n, h :: MagicFound(n, h) in r'.events <==>
               MagicFound(n, h) in r.events ||
               (n == last && h == Hits(dir.contents[last], StartMark(t, last), magic) && h != [])
    ensures Reconciled(t, pre + [last], dir, magic, ext, r')
  {
  }

  lemma VisitStep(t: Table, pre: seq<string>, last: string, dir: Directory, magic: string, ext: string, r: PollResult)
    requires r.outcome.Completed? && last !in pre
    requires Reconciled(t, pre, dir, magic, ext, r)
    ensures var r' := Visit(r, last, dir, magic, ext);
            r'.outcome.Completed? ==> Reconciled(t, pre + [last], dir, magic, ext, r')
  {
    var r' := Visit(r, last, dir, magic, ext);
    var names := pre + [last];
    if !EndsWith(last, ext) {
      assert forall n :: Qualifies(n, names, ext) <==> Qualifies(n, pre, ext);
    } else if last in dir.contents {
      var lines := dir.contents[last];
      var tracked := last in r.table.marks;
      assert tracked <==> last in t.marks;
      var t1 := if tracked then r.table else r.table.Put(last, 0);
      var start := t1.marks[last];
      assert start == StartMark(t, last);
      var added := if tracked then [] else [FileAdded(last)];
      var found := MagicEvents(last, Hits(lines, start, magic));
      assert r'.table == ScanTable(t1, last, start, lines);
      assert r'.events == r.events + added + found;
      assert forall n :: FileAdded(n) in r'.events <==> FileAdded(n) in r.events || FileAdded(n) in added;
      assert forall n, h :: MagicFound(n, h) in r'.events <==>
               MagicFound(n, h) in r.events || MagicFound(n, h) in found;
      ScannedStep(t, pre, last, dir, magic, ext, r, r');
    }
  }

  lemma {:induction false} AddScanPassSpec(t: Table, names: seq<string>, dir: Directory, magic: string, ext: string)
    requires Distinct(names)
    ensures var r := AddScanPass(t, names, dir, magic, ext);
            r.outcome.Completed? ==> Reconciled(t, names, dir, magic, ext, r)
  {
    if names != [] {
      var pre := names[..|names| - 1];
      var last := names[|names| - 1];
      assert names == pre + [last];
      DistinctInit(names);
      AddScanPassSpec(t, pre, dir, magic, ext);
      var r := AddScanPass(t, pre, dir, magic, ext);
      if r.outcome.Completed? {
        VisitStep(t, pre, last, dir, magic, ext, r);
      }
    }
  }

  /** How often the events `ev` of a pass over `names` log each name: added
      once if it was new, its hits once if there are any. */
  ghost predicate LoggedOnce(t: Table, names: seq<string>, dir: Directory, magic: string, ext: string, ev: seq<Event>) {
    && (forall n :: multiset(ev)[FileAdded(n)] == if Qualifies(n, names, ext) && n !in t.marks then 1 else 0)
    && (forall n, h :: multiset(ev)[MagicFound(n, h)] ==
          if Qualifies(n, names, ext) && n in dir.contents &&
             h == Hits(dir.contents[n], StartMark(t, n), magic) && h != [] then 1 else 0)
  }

  /** The counts of one turn that scanned `last`, stated on the messages the
      turn appends. */
  lemma CountedStep(t: Table, pre: seq<string>, last: string, dir: Directory, magic: string, ext: string,
                    ev: seq<Event>, isNew: bool, hits: seq<nat>)
    requires last !in pre && EndsWith(last, ext) && last in dir.contents
    requires isNew <==> last !in t.marks
    requires hits == Hits(dir.contents[last], StartMark(t, last), magic)
    requires LoggedOnce(t, pre, dir, magic, ext, ev)
    ensures LoggedOnce(t, pre + [last], dir, magic, ext,
                       ev + (if isNew then [FileAdded(last)] else []) + MagicEvents(last, hits))
  {
    var added := if isNew then [FileAdded(last)] else [];
    var found := MagicEvents(last, hits);
    assert found == if hits != [] then [MagicFound(last, hits)] else [];
    assert multiset(ev + added + found) == multiset(ev) + multiset(added) + multiset(found);
    assert forall n :: Qualifies(n, pre + [last], ext) <==> Qualifies(n, pre, ext) || n == last;
  }

  lemma VisitCounts(t: Table, pre: seq<string>, last: string, dir: Directory, magic: string, ext: string, r: PollResult)
    requires r.outcome.Completed? && last !in pre
    requires Reconciled(t, pre, dir, magic, ext, r)
    requires LoggedOnce(t, pre, dir, magic, ext, r.events)
    ensures var r' := Visit(r, last, dir, magic, ext);
            r'.outcome.Completed? ==> LoggedOnce(t, pre + [last], dir, magic, ext, r'.events)
  {
    if !EndsWith(last, ext) {
      assert forall n :: Qualifies(n, pre + [last], ext) <==> Qualifies(n, pre, ext);
    } else if last in dir.contents {
      var tracked := last in r.table.marks;
      assert tracked <==> last in t.marks;
      var t1 := if tracked then r.table else r.table.Put(last, 0);
      assert t1.marks[last] == StartMark(t, last);
      CountedStep(t, pre, last, dir, magic, ext, r.events, !tracked, Hits(dir.contents[last], t1.marks[last], magic));
    }
  }

  /** A completed pass over a duplicate-free listing logs each new name as
      added exactly once and each non-empty hit list exactly once. */
  lemma {:induction false} AddScanPassCounts(t: Table, names: seq<string>, dir: Directory, magic: string, ext: string)
    requires Distinct(names)
    ensures var r := AddScanPass(t, names, dir, magic, ext);
            r.outcome.Completed? ==> LoggedOnce(t, names, dir, magic, ext, r.events)
  {
    if names != [] {
      var pre := names[..|names| - 1];
      var last := names[|names| - 1];
      assert names == pre + [last];
      DistinctInit(names);
      AddScanPassCounts(t, pre, dir, magic, ext);
      var r := AddScanPass(t, pre, dir, magic, ext);
      if r.outcome.Completed? {
        AddScanPassSpec(t, pre, dir, magic, ext);
        VisitCounts(t, pre, last, dir, magic, ext, r);
      }
    }
  }

  /** Once a scan has failed, the rest of the listing changes nothing. */
  lemma {:induction false} FailureStops(t: Table, names: seq<string>, j: nat, dir: Directory, magic: string, ext: string)
    requires j <= |names|
    requires AddScanPass(t, names[..j], dir, magic, ext).outcome.ScanFailed?
    ensures AddScanPass(t, names, dir, magic, ext) == AddScanPass(t, names[..j], dir, magic, ext)
  {
    if j < |names| {
      assert names[..|names| - 1][..j] == names[..j];
      FailureStops(t, names[..|names| - 1], j, dir, magic, ext);
    } else {
      assert names[..j] == names;
    }
  }

  lemma {:induction false} AddScanPassQuiet(t: Table, names: seq<string>, dir: Directory, magic: string, ext: string)
    requires forall n :: Qualifies(n, names, ext) ==>
               n in t.marks && n in dir.contents && |dir.contents[n]| <= t.marks[n] + 1
    ensures AddScanPass(t, names, dir, magic, ext) == PollResult(t, [], Completed)
  {
    if names != [] {
      var pre := names[..|names| - 1];
      var last := names[|names| - 1];
      assert forall n :: Qualifies(n, pre, ext) ==> Qualifies(n, names, ext);
      AddScanPassQuiet(t, pre, dir, magic, ext);
      if EndsWith(last, ext) {
        var lines := dir.contents[last];
        HitsBelowNone(lines, t.marks[last], magic, |lines|);
      }
    }
  }

  // ---------------------------------------------------------------------
  // Properties of a whole poll

  /** If the path is not a directory, the poll logs one warning and changes
      nothing. */
  lemma NotADirectory(t: Table, path: string, dir: Directory, magic: string, ext: string)
    requires !dir.isDir
    ensures Poll(t, path, dir, magic, ext) == PollResult(t, [DirectoryMissing(path)], Completed)
  {
  }

  /** However a poll ends, the table stays well formed, no name lacking the
      extension is ever inserted, and no watermark goes down. */
  lemma PollKeepsInvariant(t: Table, path: string, dir: Directory, magic: string, ext: string)
    requires t.Valid()
    ensures var r := Poll(t, path, dir, magic, ext);
            && r.table.Valid()
            && (TableInv(t, ext) ==> TableInv(r.table, ext))
            && (forall n :: n in t.marks && n in r.table.marks ==> r.table.marks[n] >= t.marks[n])
  {
    if dir.isDir {
      RemovalPass(t, dir.listing);
      var removed := RemovePass(t, t.order, dir.listing);
      AddScanPassKeeps(removed.0, dir.listing, dir, magic, ext);
    }
  }

  /** However a poll of a directory ends, every tracked name that is not
      listed is gone afterwards and was logged as deleted exactly once. */
  lemma PollDropsVanished(t: Table, path: string, dir: Directory, magic: string, ext: string)
    requires t.Valid() && dir.isDir
    ensures var r := Poll(t, path, dir, magic, ext);
            && (forall k :: k !in dir.listing ==> k !in r.table.marks)
            && (forall k :: multiset(r.events)[FileDeleted(k)] == if k in t.marks && k !in dir.listing then 1 else 0)
  {
    RemovalPass(t, dir.listing);
    var removed := RemovePass(t, t.order, dir.listing);
    AddScanPassKeeps(removed.0, dir.listing, dir, magic, ext);
    var r := AddScanPass(removed.0, dir.listing, dir, magic, ext);
    assert forall k :: FileDeleted(k) !in r.events;
  }

  /** The message counts of a completed poll: the removal pass logs no
      addition and no hit list, so the counts are those of the add-and-scan
      pass, with the watermarks from before the poll. */
  lemma PollLogsOnce(t: Table, path: string, dir: Directory, magic: string, ext: string)
    requires t.Valid() && WellFormed(dir) && dir.isDir
    requires Poll(t, path, dir, magic, ext).outcome.Completed?
    ensures LoggedOnce(t, dir.listing, dir, magic, ext, Poll(t, path, dir, magic, ext).events)
  {
    RemovalPass(t, dir.listing);
    var removed := RemovePass(t, t.order, dir.listing);
    AddScanPassCounts(removed.0, dir.listing, dir, magic, ext);
    var r := AddScanPass(removed.0, dir.listing, dir, magic, ext);
    assert multiset(removed.1 + r.events) == multiset(removed.1) + multiset(r.events);
    assert forall n :: n in dir.listing ==> StartMark(removed.0, n) == StartMark(t, n);
    assert forall n, h :: MagicFound(n, h) !in removed.1;
    assert forall n :: FileAdded(n) !in removed.1;
  }

  /** After a poll that ran to the end, the keys are exactly the listed
      names that carry the extension; each of them entered its scan with its
      old watermark if it was tracked and with 0 otherwise, was logged as
      added exactly once when it was new and never otherwise, and had its
      hits, if any, logged in exactly one event. */
  lemma PollReconciles(t: Table, path: string, dir: Directory, magic: string, ext: string)
    requires TableInv(t, ext) && WellFormed(dir) && dir.isDir
    requires Poll(t, path, dir, magic, ext).outcome.Completed?
    ensures var r := Poll(t, path, dir, magic, ext);
            && (forall n :: n in r.table.marks <==> Qualifies(n, dir.listing, ext))
            && (forall n :: Qualifies(n, dir.listing, ext) ==>
                  n in dir.contents &&
                  r.table.marks[n] == ScanMark(StartMark(t, n), dir.contents[n]))
            && (forall n :: FileAdded(n) in r.events <==> Qualifies(n, dir.listing, ext) && n !in t.marks)
            && (forall n, h :: MagicFound(n, h) in r.events <==>
                  Qualifies(n, dir.listing, ext) && n in dir.contents &&
                  h == Hits(dir.contents[n], StartMark(t, n), magic) && h != [])
            && LoggedOnce(t, dir.listing, dir, magic, ext, r.events)
  {
    RemovalPass(t, dir.listing);
    var removed := RemovePass(t, t.order, dir.listing);
    AddScanPassSpec(removed.0, dir.listing, dir, magic, ext);
    PollLogsOnce(t, path, dir, magic, ext);
    var r := AddScanPass(removed.0, dir.listing, dir, magic, ext);
    assert forall n :: n in dir.listing ==> StartMark(removed.0, n) == StartMark(t, n);
    assert forall n, h :: MagicFound(n, h) !in removed.1;
    assert forall n :: FileAdded(n) !in removed.1;
  }

  /** Deletions followed by other messages: no deletion comes after another
      message. */
  lemma DeletionsFirst(deleted: seq<Event>, rest: seq<Event>)
    requires forall e :: e in deleted ==> e.FileDeleted?
    requires forall e :: e in rest ==> !e.FileDeleted?
    ensures var ev := deleted + rest;
            forall i, j :: 0 <= i < j < |ev| ==> ev[j].FileDeleted? ==> ev[i].FileDeleted?
  {
    var ev := deleted + rest;
    forall i, j | 0 <= i < j < |ev|
      ensures ev[j].FileDeleted? ==> ev[i].FileDeleted?
    {
      if j < |deleted| {
        assert ev[i] == deleted[i];
      } else {
        assert ev[j] == rest[j - |deleted|];
      }
    }
  }

  /** However a poll ends, every deletion is logged before every other
      message: the removal pass runs to the end before the first name is
      added or scanned. */
  lemma PollDeletesFirst(t: Table, path: string, dir: Directory, magic: string, ext: string)
    requires t.Valid()
    ensures var ev := Poll(t, path, dir, magic, ext).events;
            forall i, j :: 0 <= i < j < |ev| ==> ev[j].FileDeleted? ==> ev[i].FileDeleted?
  {
    if dir.isDir {
      RemovalPass(t, dir.listing);
      var removed := RemovePass(t, t.order, dir.listing);
      AddScanPassKeeps(removed.0, dir.listing, dir, magic, ext);
      var r := AddScanPass(removed.0, dir.listing, dir, magic, ext);
      DeletionsFirst(removed.1, r.events);
    }
  }

  /** A poll that fails to open a listed file keeps everything done before
      the failure, including the entry of the failed file itself. */
  lemma PollAbortsOnOpenFailure(t: Table, path: string, dir: Directory, magic: string, ext: string)
    requires Poll(t, path, dir, magic, ext).outcome.ScanFailed?
    ensures var r := Poll(t, path, dir, magic, ext);
            && dir.isDir
            && Qualifies(r.outcome.name, dir.listing, ext)
            && r.outcome.name !in dir.contents
            && r.outcome.name in r.table.marks
  {
    var removed := RemovePass(t, t.order, dir.listing);
    AddScanPassKeeps(removed.0, dir.listing, dir, magic, ext);
  }

  /** A second poll of an unchanged directory logs nothing and leaves the
      table as the first one left it. */
  lemma UnchangedDirectoryIsQuiet(t: Table, path: string, dir: Directory, magic: string, ext: string)
    requires TableInv(t, ext) && WellFormed(dir) && dir.isDir
    requires Poll(t, path, dir, magic, ext).outcome.Completed?
    ensures var t1 := Poll(t, path, dir, magic, ext).table;
            Poll(t1, path, dir, magic, ext) == PollResult(t1, [], Completed)
  {
    var t1 := Poll(t, path, dir, magic, ext).table;
    PollReconciles(t, path, dir, magic, ext);
    PollKeepsInvariant(t, path, dir, magic, ext);
    assert forall k :: k in t1.order ==> k in dir.listing;
    RemoveNothing(t1, t1.order, dir.listing);
    AddScanPassQuiet(t1, dir.listing, dir, magic, ext);
  }

  /** A name dropped by one poll and listed again by a later one starts over
      from watermark 0 and is logged as added again. */
  lemma RecreatedFileRestarts(t: Table, path: string, dir1: Directory, dir2: Directory, n: string, magic: string, ext: string)
    requires TableInv(t, ext) && dir1.isDir && n !in dir1.listing
    requires WellFormed(dir2) && dir2.isDir && Qualifies(n, dir2.listing, ext)
    ensures var t1 := Poll(t, path, dir1, magic, ext).table;
            var r2 := Poll(t1, path, dir2, magic, ext);
            r2.outcome.Completed? ==>
              && n in dir2.contents
              && n in r2.table.marks
              && FileAdded(n) in r2.events
              && r2.table.marks[n] == ScanMark(0, dir2.contents[n])
              && (var h := Hits(dir2.contents[n], 0, magic); h != [] ==> MagicFound(n, h) in r2.events)
  {
    var t1 := Poll(t, path, dir1, magic, ext).table;
    PollKeepsInvariant(t, path, dir1, magic, ext);
    PollDropsVanished(t, path, dir1, magic, ext);
    if Poll(t1, path, dir2, magic, ext).outcome.Completed? {
      PollReconciles(t1, path, dir2, magic, ext);
    }
  }
}

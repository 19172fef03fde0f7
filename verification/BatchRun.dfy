/** The resumable log of a batch of end-to-end runs: continuing an interrupted batch and
    closing a complete one. */
module BatchRun {
  import opened Text

  /** One finished file. An absent text field is empty; `fixed` is its `parse_boolish` value. */
  datatype Entry = Entry(testFile: string, status: string, fixed: bool)

  datatype Index = Absent | NotInt | Int(value: int)

  /** The JSON report as read back: `None` where a field is missing or has the wrong type. */
  datatype Payload = Payload(
    status: string,
    invocation: string,
    discovered: Option<seq<string>>,
    entries: Option<seq<Option<Entry>>>,
    currentFile: Option<string>,
    currentIndex: Index,
    total: int,
    passed: int,
    failed: int)

  predicate GoodFiles(files: Option<seq<string>>) {
    files.Some? && files.value != [] && forall i | 0 <= i < |files.value| :: files.value[i] != ""
  }

  /** The entry at every position is about the file discovered at that position. */
  predicate InOrder(entries: seq<Option<Entry>>, files: seq<string>) {
    |entries| <= |files| && forall i | 0 <= i < |entries| :: entries[i].Some? && entries[i].value.testFile == files[i]
  }

  // ----- Continuing ----------------------------------------------------------------------------

  /** When a report can be continued. The resume index is then the number of its entries. */
  predicate Resumable(p: Payload) {
    && GoodFiles(p.discovered) && p.entries.Some? && p.status == "running"
    && InOrder(p.entries.value, p.discovered.value)
    && var files, k := p.discovered.value, |p.entries.value|;
    if p.currentFile.Some? && p.currentFile.value != "" then
      k < |files| && files[k] == p.currentFile.value && files[k] !in files[..k]
    else
      p.currentIndex == Absent || p.currentIndex == Int(k)
  }

  /** `list.index`: the first position, if any. */
  method IndexOf(files: seq<string>, file: string) returns (r: Option<nat>)
    ensures r.None? <==> file !in files
    ensures r.Some? ==> r.value < |files| && files[r.value] == file && file !in files[..r.value]
  {
    for i := 0 to |files|
      invariant file !in files[..i]
    {
      if files[i] == file { return Some(i); }
      assert files[..i + 1] == files[..i] + [files[i]];
    }
    assert files[..|files|] == files;
    return None;
  }

  method PayloadEntryPaths(p: Payload) returns (ok: bool)
    ensures ok <==> GoodFiles(p.discovered)
  {
    if p.discovered.None? || p.discovered.value == [] { return false; }
    var files := p.discovered.value;
    for i := 0 to |files|
      invariant forall j | 0 <= j < i :: files[j] != ""
    {
      if files[i] == "" { return false; }
    }
    return true;
  }

  /** The files of the entries; `None` for a non-object entry or one without a file. */
  method CompletedFiles(entries: seq<Option<Entry>>) returns (r: Option<seq<string>>)
    ensures r.Some? <==> forall i | 0 <= i < |entries| :: entries[i].Some? && entries[i].value.testFile != ""
    ensures r.Some? ==> |r.value| == |entries|
                        && forall i | 0 <= i < |entries| :: r.value[i] == entries[i].value.testFile
  {
    var completed := [];
    for i := 0 to |entries|
      invariant |completed| == i
      invariant forall j | 0 <= j < i :: entries[j].Some? && entries[j].value.testFile != ""
      invariant forall j | 0 <= j < i :: completed[j] == entries[j].value.testFile
    {
      if entries[i].None? || entries[i].value.testFile == "" { return None; }
      completed := completed + [entries[i].value.testFile];
    }
    return Some(completed);
  }

  /** `determine_resume_index`: an accepted index is the number of completed entries. */
  method DetermineResumeIndex(p: Payload) returns (r: Option<nat>)
    ensures r.Some? <==> Resumable(p)
    ensures r.Some? ==> r.value == |p.entries.value|
    ensures r.Some? <==>
              && GoodFiles(p.discovered) && p.entries.Some? && p.status == "running"
              && var files, entries, k := p.discovered.value, p.entries.value, |p.entries.value|;
              && k <= |files|
              && (forall i | 0 <= i < k :: entries[i].Some? && entries[i].value.testFile == files[i])
              && if p.currentFile.Some? && p.currentFile.value != "" then
                   k < |files| && files[k] == p.currentFile.value && files[k] !in files[..k]
                 else
                   p.currentIndex == Absent || p.currentIndex == Int(k)
  {
    var good := PayloadEntryPaths(p);
    if !good || p.entries.None? || p.status != "running" { return None; }
    var files, entries := p.discovered.value, p.entries.value;
    var completed := CompletedFiles(entries);
    if completed.None? {
      assert !InOrder(entries, files);
      return None;
    }
    var expected := if |completed.value| <= |files| then files[..|completed.value|] else files;
    CompletedPrefix(entries, files, completed.value);
    if completed.value != expected { return None; }
    if p.currentFile.Some? && p.currentFile.value != "" {
      var at := IndexOf(files, p.currentFile.value);
      if at.None? || at.value != |entries| {
        if at.Some? { FirstIndexUnique(files, p.currentFile.value, at.value); }
        return None;
      }
      return at;
    }
    if p.currentIndex == Absent { return Some(|entries|); }
    if p.currentIndex == NotInt || p.currentIndex != Int(|entries|) { return None; }
    return Some(|entries|);
  }

  lemma CompletedPrefix(entries: seq<Option<Entry>>, files: seq<string>, completed: seq<string>)
    requires |completed| == |entries|
    requires forall i | 0 <= i < |entries| :: entries[i].Some? && completed[i] == entries[i].value.testFile
    ensures completed == (if |completed| <= |files| then files[..|completed|] else files) <==> InOrder(entries, files)
  {
    if InOrder(entries, files) { assert completed == files[..|completed|]; }
  }

  lemma FirstIndexUnique(files: seq<string>, file: string, at: nat)
    requires at < |files| && files[at] == file && file !in files[..at]
    ensures forall k | 0 <= k < |files| && files[k] == file && file !in files[..k] :: k == at
  {
  }

  /** How many entries have this status. */
  function CountStatus(entries: seq<Option<Entry>>, status: string): nat {
    if entries == [] then 0
    else
      var last := entries[|entries| - 1];
      CountStatus(entries[..|entries| - 1], status) + (if last.Some? && last.value.status == status then 1 else 0)
  }

  /** The count is that of the positions with the status. */
  lemma {:induction false} CountStatusIs(entries: seq<Option<Entry>>, status: string)
    ensures CountStatus(entries, status)
         == |set i | 0 <= i < |entries| && entries[i].Some? && entries[i].value.status == status|
  {
    if entries != [] {
      var n := |entries| - 1;
      CountStatusIs(entries[..n], status);
      var all := set i | 0 <= i < |entries| && entries[i].Some? && entries[i].value.status == status;
      var before := set i | 0 <= i < n && entries[..n][i].Some? && entries[..n][i].value.status == status;
      if entries[n].Some? && entries[n].value.status == status {
        assert all == before + {n};
      } else {
        assert all == before;
      }
    }
  }

  /** The report that `restore_payload_for_continue` writes back. */
  function Restored(p: Payload): Payload
    requires Resumable(p) && |p.entries.value| < |p.discovered.value|
  {
    var files, entries := p.discovered.value, p.entries.value;
    p.(status := "running", invocation := "continue", currentIndex := Int(|entries|),
       currentFile := Some(files[|entries|]), total := |files|,
       passed := CountStatus(entries, "passed"), failed := CountStatus(entries, "failed"))
  }

  /** The files on disk, as paths with slashes below the repository, and whether the platform
      reads a backslash as a separator. */
  datatype Disk = Disk(windows: bool, paths: set<string>)

  function Backslashed(path: string): string {
    seq(|path|, i requires 0 <= i < |path| => if path[i] == '/' then '\\' else path[i])
  }

  function Slashed(path: string): string {
    seq(|path|, i requires 0 <= i < |path| => if path[i] == '\\' then '/' else path[i])
  }

  /** The script looks up `rel_path.replace("/", "\\")`. */
  predicate Found(disk: Disk, file: string) {
    (if disk.windows then Slashed(Backslashed(file)) else Backslashed(file)) in disk.paths
  }

  /** Where a backslash is a name character, a file in a directory is never found. */
  lemma FoundExactlyWhen(disk: Disk, file: string)
    requires '\\' !in file && forall path | path in disk.paths :: '\\' !in path
    ensures Found(disk, file) <==> file in disk.paths && (disk.windows || '/' !in file)
  {
    assert Slashed(Backslashed(file)) == file;
    if i :| 0 <= i < |file| && file[i] == '/' {
      assert Backslashed(file)[i] == '\\';
    } else {
      assert Backslashed(file) == file;
    }
  }

  predicate Continuable(p: Payload, disk: Disk) {
    && Resumable(p) && |p.entries.value| < |p.discovered.value|
    && forall i | 0 <= i < |p.discovered.value| :: Found(disk, p.discovered.value[i])
  }

  /** Restoring a second time succeeds and changes nothing, exactly when the file to run
      next is not among the completed ones. */
  lemma RestoreIdempotentWhen(p: Payload, disk: Disk)
    requires Continuable(p, disk)
    ensures var files, k, q := p.discovered.value, |p.entries.value|, Restored(p);
            Continuable(q, disk) && Restored(q) == q <==> files[k] !in files[..k]
  {
  }

  predicate Distinct(files: seq<string>) { forall i, j | 0 <= i < j < |files| :: files[i] != files[j] }

  lemma RestoreIdempotent(p: Payload, disk: Disk)
    requires Continuable(p, disk) && Distinct(p.discovered.value)
    ensures Continuable(Restored(p), disk) && Restored(Restored(p)) == Restored(p)
  {
    var files, k := p.discovered.value, |p.entries.value|;
    assert files[k] !in files[..k];
    RestoreIdempotentWhen(p, disk);
  }

  /** With a repeated file the second continuation is refused. */
  lemma RepeatedFileBlocks()
    ensures var p := Payload("running", "fresh", Some(["a", "a"]), Some([Some(Entry("a", "passed", false))]),
                             Some(""), Int(1), 2, 0, 0);
            Continuable(p, Disk(true, {"a"})) && !Resumable(Restored(p))
  {
    var p := Payload("running", "fresh", Some(["a", "a"]), Some([Some(Entry("a", "passed", false))]),
                     Some(""), Int(1), 2, 0, 0);
    FoundExactlyWhen(Disk(true, {"a"}), "a");
    assert ["a", "a"][..1][0] == "a";
  }

  // ----- Finalizing --------------------------------------------------------------------------------

  predicate ValidOutcome(e: Entry) {
    (e.status == "passed" || e.status == "failed") && (e.fixed ==> e.status == "passed")
  }

  predicate Finalizable(p: Payload) {
    && GoodFiles(p.discovered) && p.entries.Some? && |p.entries.value| == |p.discovered.value|
    && InOrder(p.entries.value, p.discovered.value)
    && forall i | 0 <= i < |p.entries.value| :: ValidOutcome(p.entries.value[i].value)
  }

  function Finalized(p: Payload): Payload
    requires Finalizable(p)
  {
    var n, passed := |p.entries.value|, CountStatus(p.entries.value, "passed");
    p.(status := "completed", total := |p.discovered.value|, passed := passed, failed := n - passed,
       currentIndex := Int(n), currentFile := Some(""))
  }

  predicate AllValid(entries: seq<Option<Entry>>) {
    forall i | 0 <= i < |entries| :: entries[i].Some? && ValidOutcome(entries[i].value)
  }

  lemma {:induction false} StatusesPartition(entries: seq<Option<Entry>>)
    requires AllValid(entries)
    ensures CountStatus(entries, "passed") + CountStatus(entries, "failed") == |entries|
  {
    if entries != [] { StatusesPartition(entries[..|entries| - 1]); }
  }

  /** The numbers of the Markdown report. */
  function CountReport(entries: seq<Option<Entry>>, status: string): nat {
    if entries == [] then 0
    else
      var last := entries[|entries| - 1];
      CountReport(entries[..|entries| - 1], status)
      + (if last.Some? && last.value.status == status && !last.value.fixed then 1 else 0)
  }

  function CountFixed(entries: seq<Option<Entry>>): nat {
    if entries == [] then 0
    else CountFixed(entries[..|entries| - 1])
         + (if entries[|entries| - 1].Some? && entries[|entries| - 1].value.fixed then 1 else 0)
  }

  lemma {:induction false} ReportPartition(entries: seq<Option<Entry>>)
    requires AllValid(entries)
    ensures CountReport(entries, "passed") + CountFixed(entries) == CountStatus(entries, "passed")
    ensures CountReport(entries, "failed") == CountStatus(entries, "failed")
  {
    if entries != [] { ReportPartition(entries[..|entries| - 1]); }
  }

  /** What a finalized report holds: an entry for each discovered file in order, matching
      counts in both reports, and no way to continue it; finalizing again changes nothing. */
  lemma FinalizedMeans(p: Payload)
    requires Finalizable(p)
    ensures var q := Finalized(p); var entries, files := q.entries.value, q.discovered.value;
            && q.entries == p.entries && q.discovered == p.discovered
            && q.status == "completed" && q.currentIndex == Int(|files|) && q.currentFile == Some("")
            && |entries| == |files| && (forall i | 0 <= i < |files| :: entries[i].value.testFile == files[i])
            && q.passed + q.failed == q.total == |files| && q.failed == CountStatus(entries, "failed")
            && CountReport(entries, "passed") + CountFixed(entries) + CountReport(entries, "failed") == q.total
            && CountReport(entries, "passed") + CountFixed(entries) == q.passed
            && CountReport(entries, "failed") == q.failed
            && !Resumable(q)
            && Finalizable(q) && Finalized(q) == q
  {
    StatusesPartition(p.entries.value);
    ReportPartition(p.entries.value);
  }

  /** In a finalized batch of distinct files exactly one entry is about each of them. */
  lemma CoveredOnce(p: Payload, i: nat, j: nat)
    requires Finalizable(p) && Distinct(p.discovered.value)
    requires i < |p.entries.value| && j < |p.discovered.value|
    ensures p.entries.value[i].value.testFile == p.discovered.value[j] <==> i == j
  {
    assert p.entries.value[i].value.testFile == p.discovered.value[i];
  }

  // ----- The report on disk -------------------------------------------------------------------------

  class BatchReport {
    var payload: Payload

    /** `build_fresh_payload`. */
    constructor (files: seq<string>)
      ensures payload == Fresh(files)
      ensures payload.status == "running" && payload.invocation == "fresh" && payload.discovered == Some(files)
      ensures payload.entries == Some([]) && payload.currentFile == Some("") && payload.currentIndex == Int(0)
      ensures payload.total == |files| && payload.passed == payload.failed == 0
    {
      payload := Fresh(files);
    }

    /** `discover continue`: the report changes only when the batch can be continued. */
    method Continue(disk: Disk) returns (r: Option<nat>)
      modifies this
      ensures r.Some? <==> Continuable(old(payload), disk)
      ensures r.Some? ==> r.value == |old(payload).entries.value| && payload == Restored(old(payload))
      ensures r.Some? ==>
                && payload.status == "running" && payload.invocation == "continue"
                && payload.discovered == old(payload).discovered && payload.entries == old(payload).entries
                && payload.currentIndex == Int(r.value) && r.value < |payload.discovered.value|
                && payload.currentFile == Some(payload.discovered.value[r.value])
                && payload.total == |payload.discovered.value|
                && payload.passed == CountStatus(payload.entries.value, "passed")
                && payload.failed == CountStatus(payload.entries.value, "failed")
      ensures r.None? ==> payload == old(payload)
    {
      r := DetermineResumeIndex(payload);
      if r.None? || r.value >= |payload.discovered.value| { return None; }
      var files, entries := payload.discovered.value, payload.entries.value;
      if exists i | 0 <= i < |files| :: !Found(disk, files[i]) { return None; }
      payload := payload.(status := "running", invocation := "continue");
      payload := payload.(currentIndex := Int(r.value), currentFile := Some(files[r.value]));
      var passed := Count(entries, "passed");
      var failed := Count(entries, "failed");
      payload := payload.(total := |files|, passed := passed, failed := failed);
    }

    method Count(entries: seq<Option<Entry>>, status: string) returns (n: nat)
      ensures n == CountStatus(entries, status)
    {
      n := 0;
      for i := 0 to |entries|
        invariant n == CountStatus(entries[..i], status)
      {
        assert entries[..i + 1][..i] == entries[..i];
        if entries[i].Some? && entries[i].value.status == status { n := n + 1; }
      }
      assert entries[..|entries|] == entries;
    }

    /** `finalize`: refused, changing nothing, unless every file has its valid entry. */
    method Finalize() returns (ok: bool)
      modifies this
      ensures ok <==>
                var p := old(payload);
                && GoodFiles(p.discovered) && p.entries.Some? && |p.entries.value| == |p.discovered.value|
                && forall i | 0 <= i < |p.entries.value| ::
                     && p.entries.value[i].Some? && p.entries.value[i].value.testFile == p.discovered.value[i]
                     && p.entries.value[i].value.status in {"passed", "failed"}
                     && (p.entries.value[i].value.fixed ==> p.entries.value[i].value.status == "passed")
      ensures ok <==> Finalizable(old(payload))
      ensures payload == if ok then Finalized(old(payload)) else old(payload)
    {
      if payload.entries.None? { return false; }
      var good := PayloadEntryPaths(payload);
      if !good || |payload.entries.value| != |payload.discovered.value| { return false; }
      var files, entries := payload.discovered.value, payload.entries.value;
      for i := 0 to |entries|
        invariant forall j | 0 <= j < i :: entries[j].Some? && entries[j].value.testFile == files[j]
        invariant forall j | 0 <= j < i :: ValidOutcome(entries[j].value)
      {
        if entries[i].None? || entries[i].value.testFile != files[i] || !ValidOutcome(entries[i].value) {
          return false;
        }
      }
      var passed := Count(entries, "passed");
      payload := payload.(status := "completed", total := |files|, passed := passed, failed := |entries| - passed,
                          currentIndex := Int(|entries|), currentFile := Some(""));
      ok := true;
    }
  }

  // ----- Whole runs -------------------------------------------------------------------------------------

  function Fresh(files: seq<string>): Payload {
    Payload("running", "fresh", Some(files), Some([]), Some(""), Int(0), |files|, 0, 0)
  }

  /** What happens to a report: the driver announces the next file or records its outcome,
      and the two commands. An interruption is the absence of further events. */
  datatype Event = Begin | Record(entry: Entry, announce: bool) | Continue(disk: Disk) | Finalize

  function Next(p: Payload, event: Event): Payload {
    match event
    case Begin =>
      if p.status == "running" && p.entries.Some? && p.discovered.Some? && |p.entries.value| < |p.discovered.value|
      then
        var k := |p.entries.value|;
        p.(currentFile := Some(p.discovered.value[k]), currentIndex := Int(k))
      else p
    case Record(entry, announce) =>
      if p.status == "running" && p.entries.Some? && p.discovered.Some? && |p.entries.value| < |p.discovered.value|
         && entry.testFile == p.discovered.value[|p.entries.value|]
      then
        var k := |p.entries.value| + 1;
        p.(entries := Some(p.entries.value + [Some(entry)]), currentIndex := Int(k),
           currentFile := Some(if announce && k < |p.discovered.value| then p.discovered.value[k] else ""))
      else p
    case Continue(disk) => if Continuable(p, disk) then Restored(p) else p
    case Finalize => if Finalizable(p) then Finalized(p) else p
  }

  function Run(p: Payload, events: seq<Event>): Payload {
    if events == [] then p else Next(Run(p, events[..|events| - 1]), events[|events| - 1])
  }

  /** Of every report of a batch over `files`. */
  predicate BatchInv(p: Payload, files: seq<string>) {
    && p.discovered == Some(files) && p.entries.Some? && InOrder(p.entries.value, files)
    && (p.status == "running" ==> Resumable(p))
    && (p.status != "running" ==> Finalizable(p) && Finalized(p) == p)
  }

  lemma NextKeepsInv(p: Payload, event: Event, files: seq<string>)
    requires BatchInv(p, files) && GoodFiles(Some(files)) && Distinct(files)
    ensures BatchInv(Next(p, event), files)
    ensures p.entries.value <= Next(p, event).entries.value
    ensures p.status != "running" ==> Next(p, event) == p
  {
    var k := |p.entries.value|;
    assert k < |files| ==> files[k] !in files[..k];
    if event.Record? && Next(p, event) != p {
      var q := Next(p, event);
      assert k + 1 < |files| ==> files[k + 1] !in files[..k + 1];
      assert InOrder(q.entries.value, files);
    }
    if event.Finalize? && Finalizable(p) { FinalizedMeans(p); }
  }

  /** Whatever the interruptions, a batch that is not closed can be continued at the first
      file without an entry, and a closed one has an entry for every file, in order. */
  lemma {:induction false} EveryRun(files: seq<string>, events: seq<Event>)
    requires GoodFiles(Some(files)) && Distinct(files)
    ensures BatchInv(Run(Fresh(files), events), files)
  {
    if events != [] {
      var before := events[..|events| - 1];
      EveryRun(files, before);
      NextKeepsInv(Run(Fresh(files), before), events[|events| - 1], files);
    }
  }

  /** Entries are never lost or changed, and a closed batch stays as it is. */
  lemma {:induction false} EntriesStay(files: seq<string>, events: seq<Event>, more: seq<Event>)
    requires GoodFiles(Some(files)) && Distinct(files)
    ensures var p, q := Run(Fresh(files), events), Run(Fresh(files), events + more);
            && p.entries.Some? && q.entries.Some? && p.entries.value <= q.entries.value
            && (p.status == "completed" ==> q == p)
  {
    EveryRun(files, events);
    if more == [] {
      assert events + more == events;
    } else {
      var shorter := more[..|more| - 1];
      EntriesStay(files, events, shorter);
      assert (events + more)[..|events + more| - 1] == events + shorter;
      EveryRun(files, events + shorter);
      NextKeepsInv(Run(Fresh(files), events + shorter), more[|more| - 1], files);
    }
  }

  /** An interrupted batch can be continued exactly when it is still open, a file is left and
      all files are found; the continuation is at that file. So on a platform where a backslash
      is a name character, a batch with a file in a directory can never be continued. */
  lemma InterruptedRunContinues(files: seq<string>, events: seq<Event>, disk: Disk)
    requires GoodFiles(Some(files)) && Distinct(files)
    requires forall i | 0 <= i < |files| :: '\\' !in files[i]
    requires forall path | path in disk.paths :: '\\' !in path
    ensures var p := Run(Fresh(files), events);
            && p.entries.Some?
            && (Continuable(p, disk) <==>
                  && p.status == "running" && |p.entries.value| < |files|
                  && forall i | 0 <= i < |files| :: files[i] in disk.paths && (disk.windows || '/' !in files[i]))
            && (Continuable(p, disk) ==> Restored(p).currentFile == Some(files[|p.entries.value|]))
            && (p.status == "completed" ==> |p.entries.value| == |files|)
  {
    EveryRun(files, events);
    forall i | 0 <= i < |files|
      ensures Found(disk, files[i]) <==> files[i] in disk.paths && (disk.windows || '/' !in files[i])
    {
      FoundExactlyWhen(disk, files[i]);
    }
  }
}

/** Rotation of the log files cron jobs write, over whole histories of runs. */
module CronLogs {
  import opened Prelude
  import opened Decimals
  import opened TextOrder

  datatype LogRotation = KeepLast(n: nat) | Unlimited {
    /** How many files to retain, `None` for all. */
    function KeepCount(): Option<nat> {
      match this
      case KeepLast(n) => Some(if n == 0 then 1 else n)
      case Unlimited => None
    }
  }

  // ----- file names

  const LOG := ".log"

  /** `%Y-%m-%d_%H-%M-%S`: nineteen characters, the only `_` between date and time. */
  predicate IsDateTime(dt: string) {
    |dt| == 19 && IsDigit(dt[0]) && IsDigit(dt[11]) && forall i | 0 <= i < 19 :: dt[i] == '_' <==> i == 10
  }

  function FileName(job: string, dt: string): string {
    job + "_" + dt + LOG
  }

  function StripPrefix(s: string, p: string): Option<string> {
    if p <= s then Some(s[|p|..]) else None
  }

  function StripSuffix(s: string, x: string): Option<string> {
    if |s| >= |x| && s[|s| - |x|..] == x then Some(s[..|s| - |x|]) else None
  }

  /** A run log of exactly `job`, as the rotation recognizes one. */
  predicate IsJobLog(name: string, job: string) {
    var rest := StripPrefix(name, job + "_");
    rest.Some? && var dt := StripSuffix(rest.value, LOG); dt.Some? && dt.value != [] && IsDigit(dt.value[0])
  }

  /** `longer` is `job`, an underscore, and a text starting with a digit. */
  predicate Extends(longer: string, job: string) {
    |longer| > |job| + 1 && job + "_" <= longer && IsDigit(longer[|job| + 1])
  }

  /** File names sort by time within a job. */
  lemma NamesSortByTime(job: string, a: string, b: string)
    requires |a| == |b|
    ensures Less(FileName(job, a), FileName(job, b)) <==> Less(a, b)
  {
    assert FileName(job, a) == job + "_" + (a + LOG) && FileName(job, b) == job + "_" + (b + LOG);
    LessAfterPrefix(job + "_", a + LOG, b + LOG);
    LessBeforeSuffix(a, b, LOG);
  }

  /** What is left of a file name after `n` characters of it. */
  lemma NameChars(owner: string, dt: string, i: nat)
    requires i < |FileName(owner, dt)|
    ensures |FileName(owner, dt)| == |owner| + 1 + |dt| + 4
    ensures FileName(owner, dt)[i] ==
            if i < |owner| then owner[i] else if i == |owner| then '_'
            else if i <= |owner| + |dt| then dt[i - |owner| - 1] else LOG[i - |owner| - 1 - |dt|]
  {
  }

  lemma TailOf(owner: string, dt: string, k: nat)
    requires k <= |owner| + 1 + |dt|
    ensures StripSuffix(FileName(owner, dt)[k..], LOG) == Some((owner + "_" + dt)[k..])
  {
    var name, stem := FileName(owner, dt), owner + "_" + dt;
    assert name == stem + LOG;
    assert name[k..] == stem[k..] + LOG;
    assert (stem[k..] + LOG)[|stem| - k..] == LOG && (stem[k..] + LOG)[..|stem| - k] == stem[k..];
  }

  /** Whose logs a job's rotation takes for its own: its own, those of jobs whose name extends its own
      by `_` and a digit, and those of a job this one is named after with the log's date added. */
  lemma TakenExactly(owner: string, dt: string, job: string)
    requires IsDateTime(dt)
    ensures IsJobLog(FileName(owner, dt), job) <==> owner == job || Extends(owner, job) || job == owner + "_" + dt[..10]
  {
    var name := FileName(owner, dt);
    var stem := owner + "_" + dt;
    assert name == stem + LOG;
    if owner == job {
      assert job + "_" <= name by { assert name[..|job| + 1] == job + "_"; }
      TailOf(owner, dt, |job| + 1);
      assert stem[|job| + 1..] == dt;
    } else if Extends(owner, job) {
      assert name[..|job| + 1] == owner[..|job| + 1] == job + "_";
      TailOf(owner, dt, |job| + 1);
      assert stem[|job| + 1..][0] == owner[|job| + 1];
    } else if job == owner + "_" + dt[..10] {
      assert name[..|job| + 1] == job + "_";
      TailOf(owner, dt, |job| + 1);
      assert stem[|job| + 1..][0] == dt[11];
    } else if job + "_" <= name {
      NotTaken(owner, dt, job);
    }
  }

  lemma NotTaken(owner: string, dt: string, job: string)
    requires IsDateTime(dt) && job + "_" <= FileName(owner, dt)
    requires owner != job && !Extends(owner, job) && job != owner + "_" + dt[..10]
    ensures !IsJobLog(FileName(owner, dt), job)
  {
    var name := FileName(owner, dt);
    var stem := owner + "_" + dt;
    NameChars(owner, dt, |job|);
    assert name[|job|] == (job + "_")[|job|] == '_';
    if |job| <= |owner| {
      assert job == name[..|job|] == owner[..|job|];
      assert |job| < |owner|;
      TailOf(owner, dt, |job| + 1);
      if |owner| > |job| + 1 {
        assert owner[..|job| + 1] == name[..|job| + 1] == job + "_";
        assert stem[|job| + 1..][0] == owner[|job| + 1];
      } else {
        assert stem[|job| + 1..][0] == '_';
        assert !IsDigit('_');
      }
    } else {
      SecondUnderscore(owner, dt, job);
    }
  }

  /** The only later underscore is the one after the date. */
  lemma SecondUnderscore(owner: string, dt: string, job: string)
    requires IsDateTime(dt) && job + "_" <= FileName(owner, dt) && |job| > |owner|
    ensures job == owner + "_" + dt[..10]
  {
    var name := FileName(owner, dt);
    NameChars(owner, dt, |job|);
    assert name[|job|] == (job + "_")[|job|] == '_';
    assert |job| == |owner| + 11;
    assert job == name[..|job|] == owner + "_" + dt[..10];
  }

  // ----- pruning

  function Logs(files: set<string>, job: string): set<string> {
    set f | f in files && IsJobLog(f, job)
  }

  function Newer(names: set<string>, f: string): set<string> {
    set g | g in names && Less(f, g)
  }

  /** The newest `n` names: those with fewer than `n` newer ones. */
  function Newest(names: set<string>, n: nat): set<string> {
    set f | f in names && |Newer(names, f)| < n
  }

  ghost predicate Ascending(s: seq<string>) {
    forall i, j | 0 <= i < j < |s| :: Less(s[i], s[j])
  }

  function Elements(s: seq<string>): set<string> {
    set i | 0 <= i < |s| :: s[i]
  }

  lemma {:induction false} InsertSorts(s: seq<string>, x: string)
    requires Ascending(s) && x !in s
    ensures Ascending(Insert(s, x)) && |Insert(s, x)| == |s| + 1
    ensures forall y :: y in Insert(s, x) <==> y == x || y in s
  {
    if s == [] {
    } else if Less(x, s[0]) {
      forall j | 0 <= j < |s| ensures Less(x, s[j]) { LessOrder(x, s[0], s[j]); }
    } else {
      InsertSorts(s[1..], x);
      LessOrder(x, s[0], x);
      var t := Insert(s[1..], x);
      forall j | 0 <= j < |t| ensures Less(s[0], t[j]) {
        assert t[j] in t;
        if t[j] != x {
          var i :| 0 <= i < |s[1..]| && s[1..][i] == t[j];
          assert s[i + 1] == t[j];
        }
      }
      assert s == [s[0]] + s[1..];
    }
  }

  /** Collects the folder's entries, in whatever order it lists them, and sorts them. */
  method SortNames(names: set<string>) returns (sorted: seq<string>)
    ensures Ascending(sorted) && Elements(sorted) == names && |sorted| == |names|
  {
    sorted := [];
    var pending := names;
    while pending != {}
      invariant pending <= names && Ascending(sorted) && |sorted| == |names| - |pending|
      invariant forall y :: y in sorted <==> y in names && y !in pending
    {
      var name :| name in pending;
      pending := pending - {name};
      InsertSorts(sorted, name);
      sorted := Insert(sorted, name);
    }
    ElementsAre(sorted);
  }

  lemma ElementsAre(s: seq<string>)
    ensures forall y :: y in Elements(s) <==> y in s
  {
  }

  lemma {:induction false} AscendingSize(s: seq<string>)
    requires Ascending(s)
    ensures |Elements(s)| == |s|
  {
    if s != [] {
      var n := |s| - 1;
      AscendingSize(s[..n]);
      LessOrder(s[n], s[n], s[n]);
      assert Elements(s) == Elements(s[..n]) + {s[n]};
      assert s[n] !in Elements(s[..n]);
    }
  }

  lemma NewerThan(s: seq<string>, i: nat)
    requires Ascending(s) && i < |s|
    ensures Newer(Elements(s), s[i]) == Elements(s[i + 1..])
    ensures |Newer(Elements(s), s[i])| == |s| - 1 - i
  {
    var rest := s[i + 1..];
    forall g ensures g in Newer(Elements(s), s[i]) <==> g in Elements(rest) {
      if g in Newer(Elements(s), s[i]) {
        var j :| 0 <= j < |s| && s[j] == g;
        LessOrder(s[i], s[i], s[i]);
        LessOrder(s[i], s[j], s[i]);
        assert j > i;
        assert rest[j - i - 1] == g;
      }
      if g in Elements(rest) {
        var j :| 0 <= j < |rest| && rest[j] == g;
        assert s[i + 1 + j] == g;
      }
    }
    AscendingSize(rest);
  }

  /** The newest `n` are the last `n` in order. */
  lemma NewestIsTail(s: seq<string>, n: nat)
    requires Ascending(s)
    ensures var cut := if |s| <= n then 0 else |s| - n;
            Newest(Elements(s), n) == Elements(s[cut..])
  {
    var cut := if |s| <= n then 0 else |s| - n;
    forall f ensures f in Newest(Elements(s), n) <==> f in Elements(s[cut..]) {
      if f in Newest(Elements(s), n) {
        var i :| 0 <= i < |s| && s[i] == f;
        NewerThan(s, i);
        assert s[cut..][i - cut] == f;
      }
      if f in Elements(s[cut..]) {
        var i :| 0 <= i < |s[cut..]| && s[cut..][i] == f;
        assert s[cut + i] == f;
        NewerThan(s, cut + i);
      }
    }
  }

  lemma EarlierIsLess(s: seq<string>, cut: nat, f: string, g: string)
    requires Ascending(s) && cut <= |s| && f in Elements(s[..cut]) && g in Elements(s[cut..])
    ensures Less(f, g)
  {
    var i :| 0 <= i < |s[..cut]| && s[..cut][i] == f;
    var j :| 0 <= j < |s[cut..]| && s[cut..][j] == g;
    assert s[i] == f && s[cut + j] == g;
  }

  /** How many are kept, and that nothing kept is older than anything dropped. */
  lemma NewestOf(names: set<string>, n: nat)
    ensures |Newest(names, n)| == if |names| <= n then |names| else n
    ensures forall f, g | f in names && f !in Newest(names, n) && g in Newest(names, n) :: Less(f, g)
  {
    var s := SortedOf(names);
    var cut := if |s| <= n then 0 else |s| - n;
    NewestIsTail(s, n);
    AscendingSize(s[cut..]);
    SplitElements(s, cut);
    var kept := Newest(names, n);
    assert kept == Elements(s[cut..]);
    forall f, g | f in names && f !in kept && g in kept ensures Less(f, g) {
      EarlierIsLess(s, cut, f, g);
    }
  }

  lemma {:induction false} SortedOf(names: set<string>) returns (s: seq<string>)
    ensures Ascending(s) && Elements(s) == names && |s| == |names|
  {
    if names == {} {
      s := [];
    } else {
      var x :| x in names;
      var t := SortedOf(names - {x});
      ElementsAre(t);
      InsertSorts(t, x);
      s := Insert(t, x);
      ElementsAre(s);
    }
  }

  class LogFolder {
    var files: set<string>

    /** Deletes the job's oldest logs until at most `keep` are left; nothing else. */
    method PruneOldLogs(job: string, keep: nat)
      modifies this
      ensures files == Pruned(old(files), job, keep)
    {
      var matching := Logs(files, job);
      if |matching| <= keep {
        NewestOf(matching, keep);
        AllNewest(matching, keep);
        return;
      }
      var sorted := SortNames(matching);
      NewestIsTail(sorted, keep);
      var removeCount := |sorted| - keep;
      ghost var before := files;
      for i := 0 to removeCount
        invariant files == before - Elements(sorted[..i])
      {
        files := files - {sorted[i]};
        assert sorted[..i + 1] == sorted[..i] + [sorted[i]];
      }
      SplitElements(sorted, removeCount);
    }

    /** One run of a job: prune so that a slot is free, then create the run's file. */
    method ExecuteJob(job: string, rotation: LogRotation, dt: string)
      modifies this
      ensures files == AfterRun(old(files), job, rotation, dt)
    {
      var keep := rotation.KeepCount();
      if keep.Some? {
        PruneOldLogs(job, if keep.value == 0 then 0 else keep.value - 1);
      }
      files := files + {FileName(job, dt)};
    }
  }

  function Pruned(files: set<string>, job: string, keep: nat): set<string> {
    set f | f in files && (IsJobLog(f, job) ==> f in Newest(Logs(files, job), keep))
  }

  function AfterRun(files: set<string>, job: string, rotation: LogRotation, dt: string): set<string> {
    var keep := rotation.KeepCount();
    (if keep.Some? then Pruned(files, job, keep.value - 1) else files) + {FileName(job, dt)}
  }

  lemma AllNewest(names: set<string>, n: nat)
    requires |names| <= n
    ensures Newest(names, n) == names
  {
    var s := SortedOf(names);
    NewestIsTail(s, n);
    assert s[0..] == s;
  }

  lemma SplitElements(s: seq<string>, k: nat)
    requires Ascending(s) && k <= |s|
    ensures Elements(s[..k]) + Elements(s[k..]) == Elements(s)
    ensures Elements(s[..k]) !! Elements(s[k..])
  {
    forall f | f in Elements(s) ensures f in Elements(s[..k]) || f in Elements(s[k..]) {
      var i :| 0 <= i < |s| && s[i] == f;
      if i < k { assert s[..k][i] == f; } else { assert s[k..][i - k] == f; }
    }
    forall f | f in Elements(s[..k]) ensures f in Elements(s) && f !in Elements(s[k..]) {
      var i :| 0 <= i < |s[..k]| && s[..k][i] == f;
      assert s[i] == f;
      if f in Elements(s[k..]) {
        var j :| 0 <= j < |s[k..]| && s[k..][j] == f;
        assert s[k + j] == f;
        LessOrder(f, f, f);
      }
    }
    forall f | f in Elements(s[k..]) ensures f in Elements(s) {
      var j :| 0 <= j < |s[k..]| && s[k..][j] == f;
      assert s[k + j] == f;
    }
  }

  // ----- histories

  datatype Run = Run(job: string, dt: string)

  function Folder(rotation: string -> LogRotation, runs: seq<Run>): set<string> {
    if runs == [] then {}
    else
      var last := runs[|runs| - 1];
      AfterRun(Folder(rotation, runs[..|runs| - 1]), last.job, rotation(last.job), last.dt)
  }

  /** Well-formed times that never go back. */
  ghost predicate Timely(runs: seq<Run>) {
    && (forall i | 0 <= i < |runs| :: IsDateTime(runs[i].dt))
    && forall i, j | 0 <= i < j < |runs| :: !Less(runs[j].dt, runs[i].dt)
  }

  /** No job of the history is named like `job` extended by `_` and a digit, nor the other way round. */
  ghost predicate Apart(runs: seq<Run>, job: string) {
    forall i | 0 <= i < |runs| :: !Extends(runs[i].job, job) && !Extends(job, runs[i].job)
  }

  /** The log files a job's runs wrote. */
  ghost function Written(runs: seq<Run>, job: string): set<string> {
    set i | 0 <= i < |runs| && runs[i].job == job :: FileName(job, runs[i].dt)
  }

  /** A job's files in the folder are its own and its most recent ones. */
  ghost predicate Recent(files: set<string>, runs: seq<Run>, job: string) {
    && Logs(files, job) <= Written(runs, job)
    && forall f, g | f in Written(runs, job) && f !in files && g in Logs(files, job) :: Less(f, g)
  }

  lemma DatedExtends(owner: string, dt: string)
    requires IsDateTime(dt)
    ensures Extends(owner + "_" + dt[..10], owner)
  {
    var longer := owner + "_" + dt[..10];
    assert longer[..|owner| + 1] == owner + "_";
    assert longer[|owner| + 1] == dt[0];
  }

  /** With names apart, a rotation takes its own job's logs and no other's. */
  lemma OwnLogsOnly(owner: string, dt: string, job: string)
    requires IsDateTime(dt) && !Extends(owner, job) && !Extends(job, owner)
    ensures IsJobLog(FileName(owner, dt), job) <==> owner == job
  {
    TakenExactly(owner, dt, job);
    DatedExtends(owner, dt);
  }

  lemma WrittenMore(runs: seq<Run>, last: Run, job: string)
    ensures Written(runs + [last], job) ==
            Written(runs, job) + (if last.job == job then {FileName(job, last.dt)} else {})
  {
    var all := runs + [last];
    forall f ensures f in Written(all, job) <==>
        f in Written(runs, job) || (last.job == job && f == FileName(job, last.dt)) {
      if f in Written(runs, job) {
        var i :| 0 <= i < |runs| && runs[i].job == job && FileName(job, runs[i].dt) == f;
        assert all[i] == runs[i];
      }
      assert all[|runs|] == last;
    }
  }

  /** Another job's run leaves the job's logs alone. */
  lemma OtherRun(files: set<string>, runs: seq<Run>, job: string, last: Run, rotation: LogRotation)
    requires last.job != job && Timely(runs + [last]) && Apart(runs + [last], job)
    requires Logs(files, job) <= Written(runs, job)
    ensures Logs(AfterRun(files, last.job, rotation, last.dt), job) == Logs(files, job)
  {
    var all := runs + [last];
    assert all[|runs|] == last;
    OwnLogsOnly(last.job, last.dt, job);
    forall f | f in Logs(files, job) ensures !IsJobLog(f, last.job) {
      var i :| 0 <= i < |runs| && runs[i].job == job && FileName(job, runs[i].dt) == f;
      assert all[i] == runs[i];
      OwnLogsOnly(job, runs[i].dt, last.job);
    }
  }

  /** A run's file is newer than every other file the job has written. */
  lemma LatestIsNewest(runs: seq<Run>, last: Run, f: string)
    requires Timely(runs + [last]) && f in Written(runs, last.job) && f != FileName(last.job, last.dt)
    ensures Less(f, FileName(last.job, last.dt))
  {
    var all := runs + [last];
    var i :| 0 <= i < |runs| && runs[i].job == last.job && FileName(last.job, runs[i].dt) == f;
    assert all[i] == runs[i] && all[|runs|] == last;
    NamesSortByTime(last.job, runs[i].dt, last.dt);
    LessOrder(runs[i].dt, last.dt, runs[i].dt);
  }

  lemma LogsAfterOwnRun(files: set<string>, job: string, rotation: LogRotation, dt: string)
    requires IsDateTime(dt)
    ensures var keep := rotation.KeepCount();
            Logs(AfterRun(files, job, rotation, dt), job) ==
            (if keep.Some? then Newest(Logs(files, job), keep.value - 1) else Logs(files, job)) + {FileName(job, dt)}
  {
    TakenExactly(job, dt, job);
  }

  lemma DroppedIsOlder(files: set<string>, runs: seq<Run>, last: Run, rotation: LogRotation, f: string, g: string)
    requires Timely(runs + [last]) && Recent(files, runs, last.job) && IsDateTime(last.dt)
    requires var after := AfterRun(files, last.job, rotation, last.dt);
             f in Written(runs, last.job) && f !in after && g in Logs(after, last.job)
    ensures Less(f, g)
  {
    var job := last.job;
    var keep := rotation.KeepCount();
    LogsAfterOwnRun(files, job, rotation, last.dt);
    if keep.Some? { NewestOf(Logs(files, job), keep.value - 1); }
    if g == FileName(job, last.dt) {
      LatestIsNewest(runs, last, f);
    } else if f in files {
      WrittenIsLog(files, runs, last, f);
    }
  }

  /** The job's own run keeps its logs its most recent ones. */
  lemma OwnRun(files: set<string>, runs: seq<Run>, last: Run, rotation: LogRotation)
    requires Timely(runs + [last]) && Recent(files, runs, last.job)
    ensures Recent(AfterRun(files, last.job, rotation, last.dt), runs + [last], last.job)
  {
    var job := last.job;
    assert (runs + [last])[|runs|] == last;
    LogsAfterOwnRun(files, job, rotation, last.dt);
    WrittenMore(runs, last, job);
    var after := AfterRun(files, job, rotation, last.dt);
    var keep := rotation.KeepCount();
    if keep.Some? { NewestOf(Logs(files, job), keep.value - 1); }
    forall f, g | f in Written(runs + [last], job) && f !in after && g in Logs(after, job) ensures Less(f, g) {
      DroppedIsOlder(files, runs, last, rotation, f, g);
    }
  }

  lemma WrittenIsLog(files: set<string>, runs: seq<Run>, last: Run, f: string)
    requires Timely(runs + [last]) && f in Written(runs, last.job) && f in files
    ensures f in Logs(files, last.job)
  {
    var job := last.job;
    var i :| 0 <= i < |runs| && runs[i].job == job && FileName(job, runs[i].dt) == f;
    assert (runs + [last])[i] == runs[i];
    TakenExactly(job, runs[i].dt, job);
  }

  /** In every history, the logs a job has in the folder are its own most recent ones. */
  lemma {:induction false} AlwaysRecent(rotation: string -> LogRotation, runs: seq<Run>, job: string)
    requires Timely(runs) && Apart(runs, job)
    ensures Recent(Folder(rotation, runs), runs, job)
    decreases |runs|
  {
    if runs != [] {
      var n := |runs| - 1;
      var before, last := runs[..n], runs[n];
      assert runs == before + [last];
      AlwaysRecent(rotation, before, job);
      if last.job == job {
        OwnRun(Folder(rotation, before), before, last, rotation(job));
      } else {
        OtherRun(Folder(rotation, before), before, job, last, rotation(last.job));
        WrittenMore(before, last, job);
        OthersKept(Folder(rotation, before), before, last, job, rotation(last.job));
      }
    }
  }

  lemma OthersKept(files: set<string>, runs: seq<Run>, last: Run, job: string, rotation: LogRotation)
    requires last.job != job && Timely(runs + [last]) && Apart(runs + [last], job) && Recent(files, runs, job)
    ensures Recent(AfterRun(files, last.job, rotation, last.dt), runs + [last], job)
  {
    var all := runs + [last];
    var after := AfterRun(files, last.job, rotation, last.dt);
    OtherRun(files, runs, job, last, rotation);
    WrittenMore(runs, last, job);
    forall f | f in Written(all, job) && f !in after ensures f !in files {
      var i :| 0 <= i < |runs| && runs[i].job == job && FileName(job, runs[i].dt) == f;
      assert all[i] == runs[i];
      TakenExactly(job, runs[i].dt, job);
      assert f in Logs(files, job) ==> f in Logs(after, job);
    }
  }

  lemma OwnRunBound(files: set<string>, job: string, rotation: LogRotation, dt: string)
    requires IsDateTime(dt) && rotation.KeepLast?
    ensures |Logs(AfterRun(files, job, rotation, dt), job)| <= rotation.KeepCount().value
  {
    LogsAfterOwnRun(files, job, rotation, dt);
    NewestOf(Logs(files, job), rotation.KeepCount().value - 1);
  }

  /** With `KeepLast(n)` a job never has more than `max(n, 1)` logs in the folder. */
  lemma {:induction false} AlwaysBounded(rotation: string -> LogRotation, runs: seq<Run>, job: string)
    requires Timely(runs) && Apart(runs, job) && rotation(job).KeepLast?
    ensures |Logs(Folder(rotation, runs), job)| <= if rotation(job).n == 0 then 1 else rotation(job).n
    decreases |runs|
  {
    if runs != [] {
      var n := |runs| - 1;
      var before, last := runs[..n], runs[n];
      assert runs == before + [last];
      var files := Folder(rotation, before);
      assert Folder(rotation, runs) == AfterRun(files, last.job, rotation(last.job), last.dt);
      if last.job == job {
        OwnRunBound(files, job, rotation(job), last.dt);
      } else {
        AlwaysBounded(rotation, before, job);
        AlwaysRecent(rotation, before, job);
        OtherRun(files, before, job, last, rotation(last.job));
      }
    }
  }

  /** A run in a new second drops a log only to make room: with fewer than `n` logs none is dropped. */
  lemma NewRunSize(files: set<string>, job: string, rotation: LogRotation, dt: string)
    requires IsDateTime(dt) && rotation.KeepLast? && FileName(job, dt) !in files
    ensures var n := if rotation.n == 0 then 1 else rotation.n;
            var size := |Logs(files, job)|;
            |Logs(AfterRun(files, job, rotation, dt), job)| == if size < n then size + 1 else n
  {
    LogsAfterOwnRun(files, job, rotation, dt);
    SizeKeeping(Logs(files, job), Logs(AfterRun(files, job, rotation, dt), job), FileName(job, dt),
                if rotation.n == 0 then 1 else rotation.n);
  }

  lemma SizeKeeping(logs: set<string>, after: set<string>, f: string, n: nat)
    requires n > 0 && f !in logs && after == Newest(logs, n - 1) + {f}
    ensures |after| == if |logs| < n then |logs| + 1 else n
  {
    NewestOf(logs, n - 1);
    OneMore(Newest(logs, n - 1), f);
  }

  lemma OneMore(s: set<string>, f: string)
    requires f !in s
    ensures |s + {f}| == |s| + 1
  {
  }

  /** No two runs of the job start in the same second. */
  ghost predicate SecondsApart(runs: seq<Run>, job: string) {
    forall i, j | 0 <= i < j < |runs| && runs[i].job == job && runs[j].job == job :: runs[i].dt != runs[j].dt
  }

  lemma NewName(runs: seq<Run>, last: Run)
    requires Timely(runs + [last]) && SecondsApart(runs + [last], last.job)
    ensures FileName(last.job, last.dt) !in Written(runs, last.job)
  {
    var all := runs + [last];
    forall i | 0 <= i < |runs| && runs[i].job == last.job
      ensures FileName(last.job, runs[i].dt) != FileName(last.job, last.dt)
    {
      assert all[i] == runs[i] && all[|runs|] == last;
      assert IsDateTime(all[i].dt) && IsDateTime(all[|runs|].dt);
      if FileName(last.job, runs[i].dt) == FileName(last.job, last.dt) { SameName(last.job, runs[i].dt, last.dt); }
    }
  }

  lemma SameName(job: string, a: string, b: string)
    requires |a| == |b| && FileName(job, a) == FileName(job, b)
    ensures a == b
  {
    var n := |job| + 1;
    assert FileName(job, a)[n..n + |a|] == a && FileName(job, b)[n..n + |b|] == b;
  }

  /** The last `max(n, 1)` of the logs written, or all while they are fewer; without a limit all. */
  predicate IsFull(rotation: LogRotation, size: nat, written: nat) {
    match rotation
    case KeepLast(n) => size == if written < n then written else if n == 0 && written > 0 then 1 else n
    case Unlimited => size == written
  }

  lemma OwnRunFull(files: set<string>, runs: seq<Run>, last: Run, rotation: LogRotation)
    requires IsDateTime(last.dt) && Logs(files, last.job) <= Written(runs, last.job)
    requires FileName(last.job, last.dt) !in Written(runs, last.job)
    requires IsFull(rotation, |Logs(files, last.job)|, |Written(runs, last.job)|)
    ensures IsFull(rotation, |Logs(AfterRun(files, last.job, rotation, last.dt), last.job)|,
                   |Written(runs + [last], last.job)|)
  {
    var job, f := last.job, FileName(last.job, last.dt);
    WrittenMore(runs, last, job);
    OneMore(Written(runs, job), f);
    TakenExactly(job, last.dt, job);
    assert f in files ==> f in Logs(files, job);
    if rotation.KeepLast? {
      NewRunSize(files, job, rotation, last.dt);
    } else {
      LogsAfterOwnRun(files, job, rotation, last.dt);
      OneMore(Logs(files, job), f);
    }
  }

  /** In every history without two runs in one second, a job has exactly its last `max(n, 1)` logs, or all of them
      while they are fewer; and without a limit it has all of them. */
  lemma {:induction false} AlwaysFull(rotation: string -> LogRotation, runs: seq<Run>, job: string)
    requires Timely(runs) && Apart(runs, job) && SecondsApart(runs, job)
    ensures IsFull(rotation(job), |Logs(Folder(rotation, runs), job)|, |Written(runs, job)|)
    decreases |runs|
  {
    if runs != [] {
      var n := |runs| - 1;
      var before, last := runs[..n], runs[n];
      assert runs == before + [last];
      var files := Folder(rotation, before);
      AlwaysFull(rotation, before, job);
      AlwaysRecent(rotation, before, job);
      if last.job == job {
        NewName(before, last);
        OwnRunFull(files, before, last, rotation(job));
      } else {
        WrittenMore(before, last, job);
        OtherRun(files, before, job, last, rotation(last.job));
        assert Written(runs, job) == Written(before, job);
      }
    }
  }

  /** A job that keeps one log deletes every log of a job whose name extends its own. */
  lemma ExtendedLogsDeleted(files: set<string>, job: string, dt: string, owner: string, written: string)
    requires Extends(owner, job) && IsDateTime(written) && FileName(owner, written) != FileName(job, dt)
    ensures FileName(owner, written) !in AfterRun(files, job, KeepLast(1), dt)
  {
    TakenExactly(owner, written, job);
    NewestOf(Logs(files, job), 0);
  }

  /** So a run of `report` deletes the log of `report_2`, another job. */
  lemma ReportDeletesReport2()
    ensures var log := "report_2_2026-07-19_10-00-00.log";
            log !in AfterRun({log}, "report", KeepLast(1), "2026-07-19_11-00-00")
  {
    var owner, job := "report_2", "report";
    var early, late := "2026-07-19_10-00-00", "2026-07-19_11-00-00";
    assert FileName(owner, early) == "report_2_2026-07-19_10-00-00.log";
    assert owner[..7] == job + "_" && IsDigit(owner[7]);
    assert IsDateTime(early);
    assert FileName(owner, early)[7] == '2' && FileName(owner, early)[8] == '_' && FileName(job, late)[8] == '0';
    ExtendedLogsDeleted({FileName(owner, early)}, job, late, owner, early);
  }
}

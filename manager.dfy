/** The task manager (internal/backup/manager.go): a map of tasks keyed by
    name, a map of armed timers, and the JSON config file they are saved
    to and loaded from.  Locks, timer goroutines and logging are not part
    of this model; a timer is armed exactly when its name is in `timers`. */
module TaskManager {
  import opened FileSystem
  import opened Scan
  import opened SyncEngine
  import opened SyncFacts
  import opened Task

  type Tasks = map<string, BackupTask>

  /** A `time.Timer` created with `time.NewTimer(interval)`. */
  datatype Timer = Timer(interval: int)

  /** The config file as `os.ReadFile` and `json.Unmarshal` see it: absent,
      unreadable, not a JSON task list, or a list of task records. */
  datatype Store = Missing | Unreadable | Corrupt | Saved(records: seq<BackupTask>)

  /** What `os.MkdirAll` and `os.WriteFile` do with the config file:
      `Writable` writes it whole; `Unwritable` fails before the file is
      opened (the directory cannot be made, or the file cannot be opened),
      leaving it as it was; `Truncating` opens and truncates the file and
      then fails to write it (a full disk), leaving a JSON prefix that no
      longer parses. */
  datatype Disk = Writable | Unwritable | Truncating

  /** The config file after a save that failed on `disk`. */
  function FailedSave(store: Store, disk: Disk): Store {
    if disk.Truncating? then Corrupt else store
  }

  datatype ManagerError =
    | TaskExists(name: string)
    | NoSuchTask(name: string)
    | InvalidSchedule(schedule: string)
    | ReadFailed
    | ParseFailed
    | WriteFailed

  /** Every key of the task map is the name of the task it maps to. */
  predicate KeyedByName(m: Tasks) {
    forall k | k in m :: m[k].name == k
  }

  lemma KeyedUpdate(m: Tasks, k: string, t: BackupTask)
    requires KeyedByName(m) && t.name == k
    ensures KeyedByName(m[k := t])
  {
  }

  function NamesOf(records: seq<BackupTask>): set<string> {
    set i | 0 <= i < |records| :: records[i].name
  }

  /** The task map `loadTasks` builds from a list of records: each record
      is stored under its name, a later record replacing an earlier one. */
  function LoadAll(records: seq<BackupTask>): (m: Tasks)
    ensures KeyedByName(m)
    ensures m.Keys == NamesOf(records)
    decreases |records|
  {
    if records == [] then map[]
    else
      var init, r := records[..|records| - 1], records[|records| - 1];
      assert records == init + [r];
      assert NamesOf(records) == NamesOf(init) + {r.name};
      LoadAll(init)[r.name := r]
  }

  /** The names `loadTasks` tries to arm: records not "Stopped" whose
      schedule, read as a number of minutes, parses. */
  function ArmedNames(records: seq<BackupTask>, parse: string -> Option<int>): set<string> {
    set i | 0 <= i < |records| && records[i].status != Stopped && parse(records[i].schedule + "m").Some? :: records[i].name
  }

  /** The timer map after `loadTasks` has called `startBackupTimer` for
      every record not "Stopped"; a schedule that does not parse leaves
      the map as it was, and existing timers are never cleared. */
  function ArmAll(timers: map<string, Timer>, records: seq<BackupTask>, parse: string -> Option<int>): (r: map<string, Timer>)
    ensures r.Keys == timers.Keys + ArmedNames(records, parse)
    decreases |records|
  {
    if records == [] then timers
    else
      var init, rec := records[..|records| - 1], records[|records| - 1];
      assert records == init + [rec];
      var t := ArmAll(timers, init, parse);
      var d := parse(rec.schedule + "m");
      assert ArmedNames(records, parse) == ArmedNames(init, parse) + (if rec.status != Stopped && d.Some? then {rec.name} else {});
      if rec.status != Stopped && d.Some? then t[rec.name := Timer(d.value)] else t
  }

  /** What `loadTasks` leaves behind. */
  datatype Loaded = Loaded(tasks: Tasks, timers: map<string, Timer>, err: Option<ManagerError>)

  /** `loadTasks`: a missing file is not an error and changes nothing; an
      unreadable or unparsable file is an error and changes nothing; a
      task list replaces the task map and arms timers on top of the old
      timer map. */
  function Reload(store: Store, tasks: Tasks, timers: map<string, Timer>, parse: string -> Option<int>): (l: Loaded)
    ensures !store.Saved? ==> l.tasks == tasks && l.timers == timers
    ensures l.err.None? <==> store.Missing? || store.Saved?
    ensures store.Saved? ==> l.tasks.Keys == NamesOf(store.records) && KeyedByName(l.tasks)
    ensures store.Saved? ==> l.timers.Keys == timers.Keys + ArmedNames(store.records, parse)
  {
    match store
    case Missing => Loaded(tasks, timers, None)
    case Unreadable => Loaded(tasks, timers, Some(ReadFailed))
    case Corrupt => Loaded(tasks, timers, Some(ParseFailed))
    case Saved(records) => Loaded(LoadAll(records), ArmAll(timers, records, parse), None)
  }

  /** A save that truncated the file and then failed makes the next
      `loadTasks` fail to parse it and keep the tasks in memory. */
  lemma TruncatedSaveFailsReload(store: Store, tasks: Tasks, timers: map<string, Timer>, parse: string -> Option<int>)
    ensures Reload(FailedSave(store, Truncating), tasks, timers, parse) == Loaded(tasks, timers, Some(ParseFailed))
  {
  }

  /** A reload takes every task named in the file from the file, whatever
      the task map held: status, progress and last backup that were only
      in memory (as `performBackup`, which never saves, leaves them) are
      replaced by the saved record. */
  lemma ReloadForgetsUnsaved(records: seq<BackupTask>, tasks: Tasks, timers: map<string, Timer>,
                             parse: string -> Option<int>, i: nat)
    requires i < |records|
    requires forall j, k | 0 <= j < k < |records| :: records[j].name != records[k].name
    ensures var l := Reload(Saved(records), tasks, timers, parse);
      records[i].name in l.tasks && l.tasks[records[i].name] == records[i]
  {
    LoadDistinct(records, i);
  }

  /** `list` holds the tasks of `m` once each, in the key order `order`. */
  predicate Enumerates(list: seq<BackupTask>, m: Tasks, order: seq<string>) {
    && ListsUnder(list, m, order)
    && (forall i, j | 0 <= i < j < |order| :: order[i] != order[j])
    && (forall k | k in m :: k in order)
  }

  /** The `i`-th element of `list` is the task of `m` under `order[i]`. */
  predicate ListsUnder(list: seq<BackupTask>, m: Tasks, order: seq<string>) {
    |list| == |order| && forall i | 0 <= i < |order| :: order[i] in m && list[i] == m[order[i]]
  }

  /** The fields `AddTask` resets before storing a new task. */
  function Initialized(task: BackupTask): BackupTask {
    task.(status := Ready, progress := 100.0, lastBackup := None)
  }

  /** The partial enumeration after the keys outside `rest` are visited. */
  predicate ListedSoFar(list: seq<BackupTask>, m: Tasks, order: seq<string>, rest: set<string>) {
    && rest <= m.Keys
    && |list| == |order|
    && (forall i | 0 <= i < |order| :: order[i] in m && order[i] !in rest && list[i] == m[order[i]])
    && (forall i, j | 0 <= i < j < |order| :: order[i] != order[j])
    && (forall k | k in m && k !in rest :: k in order)
  }

  lemma ListedNext(list: seq<BackupTask>, m: Tasks, order: seq<string>, rest: set<string>, k: string)
    requires ListedSoFar(list, m, order, rest) && k in rest
    ensures ListedSoFar(list + [m[k]], m, order + [k], rest - {k})
  {
    var order', list' := order + [k], list + [m[k]];
    assert forall i | 0 <= i < |order| :: order'[i] == order[i] && list'[i] == list[i];
    forall j | j in m && j !in rest - {k}
      ensures j in order'
    {
      if j != k {
        assert j in order;
        var i :| 0 <= i < |order| && order[i] == j;
        assert order'[i] == j;
      } else {
        assert order'[|order|] == j;
      }
    }
  }

  /** The tasks of `m` under the keys listed in `ks`. */
  function Restrict(m: Tasks, ks: seq<string>): Tasks {
    map k | k in ks && k in m :: m[k]
  }

  /** Loading the list `saveTasks` wrote brings back the map it was written
      from, provided that map is keyed by name. */
  lemma SaveLoadRoundTrip(list: seq<BackupTask>, m: Tasks, order: seq<string>)
    requires KeyedByName(m) && Enumerates(list, m, order)
    ensures LoadAll(list) == m
  {
    LoadEnumeratedPrefix(list, m, order, |list|);
    assert list[..|list|] == list && order[..|order|] == order;
    assert Restrict(m, order) == m;
  }

  lemma {:induction false} LoadEnumeratedPrefix(list: seq<BackupTask>, m: Tasks, order: seq<string>, i: nat)
    requires KeyedByName(m) && ListsUnder(list, m, order) && i <= |list|
    ensures LoadAll(list[..i]) == Restrict(m, order[..i])
    decreases i
  {
    if i == 0 {
      assert Restrict(m, order[..0]) == map[];
    } else {
      LoadEnumeratedPrefix(list, m, order, i - 1);
      var k, r := order[i - 1], list[i - 1];
      assert list[..i][..i - 1] == list[..i - 1];
      assert LoadAll(list[..i]) == LoadAll(list[..i - 1])[r.name := r];
      assert r == m[k] && r.name == k;
      assert order[..i] == order[..i - 1] + [k];
      assert Restrict(m, order[..i]) == Restrict(m, order[..i - 1])[k := m[k]];
    }
  }

  /** With no two records of the same name, each record is loaded as it is. */
  lemma {:induction false} LoadDistinct(records: seq<BackupTask>, i: nat)
    requires i < |records|
    requires forall j, k | 0 <= j < k < |records| :: records[j].name != records[k].name
    ensures records[i].name in LoadAll(records) && LoadAll(records)[records[i].name] == records[i]
    decreases |records|
  {
    var init, r := records[..|records| - 1], records[|records| - 1];
    assert records == init + [r];
    if i < |records| - 1 {
      assert forall j | 0 <= j < |init| :: init[j] == records[j];
      LoadDistinct(init, i);
      assert records[i].name != r.name;
    }
  }

  /** A run of values in (0, 100] that never falls, framed by a leading 0
      and a trailing 100, still never falls and stays in [0, 100]. */
  lemma Framed(p: seq<real>)
    requires forall i, j | 0 <= i < j < |p| :: p[i] <= p[j]
    requires forall i | 0 <= i < |p| :: 0.0 < p[i] <= 100.0
    ensures var s := [0.0] + p + [100.0];
      && (forall i, j | 0 <= i < j < |s| :: s[i] <= s[j])
      && (forall i | 0 <= i < |s| :: 0.0 <= s[i] <= 100.0)
  {
    var s := [0.0] + p + [100.0];
    assert forall i | 0 < i < |s| - 1 :: s[i] == p[i - 1];
  }

  /** The progress a task shows over one backup rises from 0 to 100 and
      never falls back. */
  lemma BackupProgressRises(fs: FS, source: Path, target: Path, hash: Hasher, now: int,
                            applied: seq<Entry>, removed: seq<Entry>)
    requires Planned(fs, source, target, hash, now, applied, removed)
    ensures var s := [0.0] + SyncRun(fs, source, target, hash, now, applied, removed).progress + [100.0];
      && (forall i, j | 0 <= i < j < |s| :: s[i] <= s[j])
      && (forall i | 0 <= i < |s| :: 0.0 <= s[i] <= 100.0)
  {
    SyncProgress(fs, source, target, hash, now, applied, removed);
    Framed(SyncRun(fs, source, target, hash, now, applied, removed).progress);
  }

  /** The states a task passes through while the progress values `p`
      arrive: `start`, then `start` showing each value in turn. */
  function Trail(start: BackupTask, p: seq<real>): (t: seq<BackupTask>)
    ensures |t| == |p| + 1 && t[0] == start
    ensures forall i | 0 < i <= |p| :: t[i] == start.(progress := p[i - 1])
  {
    [start] + seq(|p|, i requires 0 <= i < |p| => start.(progress := p[i]))
  }

  /** A backup's state history shows exactly the framed progress values. */
  lemma HistoryShowsProgress(start: BackupTask, p: seq<real>, final: BackupTask)
    ensures var h, s := Trail(start, p) + [final], [start.progress] + p + [final.progress];
      |h| == |s| && forall i | 0 <= i < |h| :: h[i].progress == s[i]
  {
    var h, s := Trail(start, p) + [final], [start.progress] + p + [final.progress];
    forall i | 0 <= i < |h|
      ensures h[i].progress == s[i]
    {
      if 0 < i < |h| - 1 {
        assert h[i] == start.(progress := p[i - 1]);
      }
    }
  }

  /** Over one backup, the progress shown by the task never falls: 0 at
      the start, each value the sync sends, 100 at the end. */
  lemma BackupHistoryRises(fs: FS, source: Path, target: Path, hash: Hasher, now: int,
                           applied: seq<Entry>, removed: seq<Entry>, start: BackupTask, final: BackupTask)
    requires Planned(fs, source, target, hash, now, applied, removed)
    requires start.progress == 0.0 && final.progress == 100.0
    ensures var h := Trail(start, SyncRun(fs, source, target, hash, now, applied, removed).progress) + [final];
      forall i, j | 0 <= i < j < |h| :: h[i].progress <= h[j].progress
  {
    BackupProgressRises(fs, source, target, hash, now, applied, removed);
    HistoryShowsProgress(start, SyncRun(fs, source, target, hash, now, applied, removed).progress, final);
  }

  class Manager {
    var tasks: Tasks
    var timers: map<string, Timer>
    /** The config file, and what writing it does. */
    var store: Store
    var disk: Disk
    /** `time.ParseDuration` */
    const parseDuration: string -> Option<int>
    /** How a task's path string names a path of the filesystem. */
    const resolve: string -> Path

    ghost predicate Valid()
      reads this
    {
      KeyedByName(tasks)
    }

    /** `NewManager`: empty maps, then one `loadTasks` whose error is only
        logged. */
    constructor (store: Store, disk: Disk, parseDuration: string -> Option<int>, resolve: string -> Path)
      ensures Valid()
      ensures this.store == store && this.disk == disk
      ensures this.parseDuration == parseDuration && this.resolve == resolve
      ensures var l := Reload(store, map[], map[], parseDuration); tasks == l.tasks && timers == l.timers
    {
      this.tasks := map[];
      this.timers := map[];
      this.store := store;
      this.disk := disk;
      this.parseDuration := parseDuration;
      this.resolve := resolve;
      new;
      var _ := LoadTasks();
    }

    /** `loadTasks` */
    method LoadTasks() returns (err: Option<ManagerError>)
      modifies this`tasks, this`timers
      ensures var l := Reload(store, old(tasks), old(timers), parseDuration);
        tasks == l.tasks && timers == l.timers && err == l.err
    {
      match store {
        case Missing =>
          return None;
        case Unreadable =>
          return Some(ReadFailed);
        case Corrupt =>
          return Some(ParseFailed);
        case Saved(records) =>
          tasks := map[];
          var i := 0;
          while i < |records|
            invariant 0 <= i <= |records|
            invariant tasks == LoadAll(records[..i])
            invariant timers == ArmAll(old(timers), records[..i], parseDuration)
          {
            var r := records[i];
            assert records[..i + 1][..i] == records[..i];
            tasks := tasks[r.name := r];
            if r.status != Stopped {
              var _ := StartBackupTimer(r.name);
            }
            i := i + 1;
          }
          assert records[..|records|] == records;
          return None;
      }
    }

    /** `startBackupTimer`: the schedule is a number of minutes. The first
        backup it launches runs concurrently and is not part of this
        method. */
    method StartBackupTimer(name: string) returns (err: Option<ManagerError>)
      requires name in tasks
      modifies this`timers
      ensures var d := parseDuration(tasks[name].schedule + "m");
        && (d.None? ==> err == Some(InvalidSchedule(tasks[name].schedule)) && timers == old(timers))
        && (d.Some? ==> err.None? && timers == old(timers)[name := Timer(d.value)])
    {
      var interval := parseDuration(tasks[name].schedule + "m");
      if interval.None? {
        return Some(InvalidSchedule(tasks[name].schedule));
      }
      timers := timers[name := Timer(interval.value)];
      return None;
    }

    /** `stopBackupTimer`: disarming a name without a timer does nothing. */
    method StopBackupTimer(name: string)
      modifies this`timers
      ensures timers == old(timers) - {name}
    {
      if name in timers {
        timers := timers - {name};
      }
    }

    /** `ListTasks`: one copy of every task, in map order. */
    method ListTasks() returns (list: seq<BackupTask>, ghost order: seq<string>)
      ensures Enumerates(list, tasks, order)
    {
      list, order := [], [];
      var rest := tasks.Keys;
      while rest != {}
        invariant ListedSoFar(list, tasks, order, rest)
        decreases |rest|
      {
        var k :| k in rest;
        ListedNext(list, tasks, order, rest, k);
        list, order := list + [tasks[k]], order + [k];
        rest := rest - {k};
      }
    }

    /** `saveTasks`: writes every task, in map order; creating the config
        directory or opening the file may fail and leave the file as it
        was, and a write that fails after the open has truncated it leaves
        a file that no longer parses. */
    method SaveTasks() returns (err: Option<ManagerError>, ghost order: seq<string>)
      modifies this`store
      ensures disk.Writable? ==> err.None? && store.Saved? && Enumerates(store.records, tasks, order)
      ensures disk.Writable? && KeyedByName(tasks) ==> LoadAll(store.records) == tasks
      ensures !disk.Writable? ==> err == Some(WriteFailed) && store == FailedSave(old(store), disk)
    {
      var list;
      list, order := ListTasks();
      if !disk.Writable? {
        store := FailedSave(store, disk);
        return Some(WriteFailed), order;
      }
      store := Saved(list);
      if KeyedByName(tasks) {
        SaveLoadRoundTrip(list, tasks, order);
      }
      return None, order;
    }

    /** `AddTask`: reload, reject a name already present, store the task as
        Ready at 100% with no last backup, arm its timer, save; a failure
        after the insertion takes the task (and, on a failed save, its
        timer) out again. */
    method AddTask(task: BackupTask) returns (err: Option<ManagerError>)
      requires Valid()
      modifies this`tasks, this`timers, this`store
      ensures Valid()
      ensures var l, d := Reload(old(store), old(tasks), old(timers), parseDuration), parseDuration(task.schedule + "m");
        && (task.name in l.tasks ==>
              err == Some(TaskExists(task.name)) && tasks == l.tasks && timers == l.timers && store == old(store))
        && (task.name !in l.tasks && d.None? ==>
              err == Some(InvalidSchedule(task.schedule)) && tasks == l.tasks && timers == l.timers && store == old(store))
        && (task.name !in l.tasks && d.Some? && !disk.Writable? ==>
              && err == Some(WriteFailed) && tasks == l.tasks && timers == l.timers - {task.name}
              && store == FailedSave(old(store), disk))
        && (task.name !in l.tasks && d.Some? && disk.Writable? ==>
              && err.None?
              && tasks == l.tasks[task.name := Initialized(task)]
              && timers == l.timers[task.name := Timer(d.value)]
              && store.Saved? && LoadAll(store.records) == tasks)
    {
      var _ := LoadTasks();
      if task.name in tasks {
        return Some(TaskExists(task.name));
      }
      err := InsertNew(task);
    }

    /** The part of `AddTask` after the duplicate check: insert, arm, save,
        and take the task (and on a failed save its timer) out again when
        a step fails. */
    method InsertNew(task: BackupTask) returns (err: Option<ManagerError>)
      requires Valid() && task.name !in tasks
      modifies this`tasks, this`timers, this`store
      ensures Valid()
      ensures var d := parseDuration(task.schedule + "m");
        && (d.None? ==>
              err == Some(InvalidSchedule(task.schedule)) && tasks == old(tasks) && timers == old(timers) && store == old(store))
        && (d.Some? && !disk.Writable? ==>
              && err == Some(WriteFailed) && tasks == old(tasks) && timers == old(timers) - {task.name}
              && store == FailedSave(old(store), disk))
        && (d.Some? && disk.Writable? ==>
              && err.None?
              && tasks == old(tasks)[task.name := Initialized(task)]
              && timers == old(timers)[task.name := Timer(d.value)]
              && store.Saved? && LoadAll(store.records) == tasks)
    {
      tasks := tasks[task.name := Initialized(task)];
      var e := StartBackupTimer(task.name);
      if e.Some? {
        tasks := tasks - {task.name};
        assert tasks == old(tasks);
        return Some(InvalidSchedule(task.schedule));
      }
      var saved, _ := SaveTasks();
      if saved.Some? {
        tasks := tasks - {task.name};
        assert tasks == old(tasks);
        StopBackupTimer(task.name);
        return Some(WriteFailed);
      }
      return None;
    }

    /** `DeleteTask`: an unknown name changes nothing; otherwise the timer
        and the task go, then the map is saved (a failed save is reported
        but not undone). */
    method DeleteTask(name: string) returns (err: Option<ManagerError>)
      requires Valid()
      modifies this`tasks, this`timers, this`store
      ensures Valid()
      ensures name !in old(tasks) ==>
        err == Some(NoSuchTask(name)) && tasks == old(tasks) && timers == old(timers) && store == old(store)
      ensures name in old(tasks) ==>
        && tasks == old(tasks) - {name}
        && timers == old(timers) - {name}
        && (disk.Writable? ==> err.None? && store.Saved? && LoadAll(store.records) == tasks)
        && (!disk.Writable? ==> err == Some(WriteFailed) && store == FailedSave(old(store), disk))
    {
      if name !in tasks {
        return Some(NoSuchTask(name));
      }
      StopBackupTimer(name);
      tasks := tasks - {name};
      var saved, _ := SaveTasks();
      return saved;
    }

    /** `StopTask`: an unknown name changes nothing; otherwise the timer goes
        and only this task becomes Stopped at 0%, then the map is saved (a
        failed save is reported but not undone). */
    method StopTask(name: string) returns (err: Option<ManagerError>)
      requires Valid()
      modifies this`tasks, this`timers, this`store
      ensures Valid()
      ensures name !in old(tasks) ==>
        err == Some(NoSuchTask(name)) && tasks == old(tasks) && timers == old(timers) && store == old(store)
      ensures name in old(tasks) ==>
        && tasks == old(tasks)[name := old(tasks)[name].(status := Stopped, progress := 0.0)]
        && timers == old(timers) - {name}
        && (disk.Writable? ==> err.None? && store.Saved? && LoadAll(store.records) == tasks)
        && (!disk.Writable? ==> err == Some(WriteFailed) && store == FailedSave(old(store), disk))
    {
      if name !in tasks {
        return Some(NoSuchTask(name));
      }
      StopBackupTimer(name);
      tasks := tasks[name := tasks[name].(status := Stopped, progress := 0.0)];
      var saved, _ := SaveTasks();
      return saved;
    }

    /** `Shutdown`: every timer is stopped; tasks are not touched. */
    method Shutdown()
      modifies this`timers
      ensures timers == map[]
      ensures tasks == old(tasks)
    {
      while timers != map[]
        decreases |timers|
      {
        var name :| name in timers;
        StopBackupTimer(name);
      }
    }

    /** The receive loop of `performBackup` and the update after it: the
        task takes each progress value as it arrives, then `final`. */
    method ReceiveProgress(name: string, start: BackupTask, progress: seq<real>, final: BackupTask, ghost base: Tasks)
      returns (ghost trail: seq<BackupTask>)
      requires KeyedByName(base) && tasks == base[name := start] && final.name == name
      modifies this`tasks
      ensures Valid()
      ensures trail == Trail(start, progress) + [final]
      ensures tasks == base[name := final]
    {
      trail := [start];
      for i := 0 to |progress|
        invariant trail == Trail(start, progress[..i])
        invariant tasks == base[name := trail[|trail| - 1]]
      {
        assert Trail(start, progress[..i + 1]) == trail + [start.(progress := progress[i])];
        trail := trail + [start.(progress := progress[i])];
        tasks := tasks[name := start.(progress := progress[i])];
      }
      assert progress[..|progress|] == progress;
      KeyedUpdate(base, name, final);
      trail := trail + [final];
      tasks := tasks[name := final];
    }

    /** `performBackup`: an unknown name is an error; otherwise the task
        becomes Running at 0% with no error, takes each progress value the
        sync sends, and ends Ready at 100% with `finishedAt` as its last
        backup, whatever the sync returned.  `history` lists the states the
        task goes through. */
    method PerformBackup(name: string, fs: FS, hash: Hasher, now: int, finishedAt: int)
      returns (err: Option<ManagerError>, fs': FS,
               ghost history: seq<BackupTask>, ghost applied: seq<Entry>, ghost removed: seq<Entry>)
      requires Valid()
      modifies this`tasks
      ensures Valid()
      ensures name !in old(tasks) ==> err == Some(NoSuchTask(name)) && tasks == old(tasks) && fs' == fs && history == []
      ensures name in old(tasks) ==>
        var t := old(tasks)[name];
        var source, target := resolve(t.sourcePath), resolve(t.targetPath);
        var run := SyncRun(fs, source, target, hash, now, applied, removed);
        var final := t.(status := Ready, progress := 100.0, lastBackup := Some(finishedAt), error := "");
        && err.None?
        && Planned(fs, source, target, hash, now, applied, removed)
        && fs' == run.fs
        && history == Trail(t.(status := Running, progress := 0.0, error := ""), run.progress) + [final]
        && tasks == old(tasks)[name := final]
    {
      if name !in tasks {
        return Some(NoSuchTask(name)), fs, [], [], [];
      }
      var t := tasks[name];
      var source, target := resolve(t.sourcePath), resolve(t.targetPath);
      var start := t.(status := Running, progress := 0.0, error := "");
      tasks := tasks[name := start];
      var progress, syncErr;
      fs', progress, syncErr, applied, removed := Sync(fs, source, target, hash, now);
      var final := t.(status := Ready, progress := 100.0, lastBackup := Some(finishedAt), error := "");
      history := ReceiveProgress(name, start, progress, final, old(tasks));
      return None, fs', history, applied, removed;
    }
  }
}

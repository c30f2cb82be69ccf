/** The manifest several bootstrap processes share (scripts/bootstrap_assets.py).

A process reads the file once, keeps its own copy of the steps, and after every step merges that one step into the file:
lock, read again, merge, write a temporary file, put it in place, unlock. Any process may die between any two of these
actions, and its process number may then be used again. */
module Manifest {
  import opened Py

  datatype Status = Succeeded | Skipped | Failed

  datatype Entry = Entry(status: Status, details: string)

  type Steps = map<string, Entry>

  /** The JSON object in the file: its other top-level keys, and the three that every write sets. */
  datatype Doc = Doc(other: map<string, string>, root: string, updated: int, steps: Steps)

  /** What a path holds: nothing, something that is not a complete manifest, or a manifest. */
  datatype File = Missing | Garbled | Whole(doc: Doc)

  function StepsIn(f: File): Steps { if f.Whole? then f.doc.steps else map[] }

  function OtherIn(f: File): map<string, string> { if f.Whole? then f.doc.other else map[] }

  /** The document a writer makes of what it finds on disk. With a step name only that step is taken from memory. */
  function Merge(onDisk: File, memory: Steps, wrote: Option<string>, root: string, now: int): Doc {
    var steps := match wrote
                 case Some(name) => if name in memory then StepsIn(onDisk)[name := memory[name]] else StepsIn(onDisk)
                 case None => StepsIn(onDisk) + memory;
    Doc(OtherIn(onDisk), root, now, steps)
  }

  // ---------------------------------------------------------------- the protocol

  datatype Phase =
    | Idle                  // not running
    | Working               // computing a step
    | Recorded              // the step is in memory, the lock is not held
    | Locked
    | Merged(doc: Doc)
    | Writing(doc: Doc)     // the temporary file is there, but not complete
    | Written(doc: Doc)
    | Replaced

  /** `wrote` is the step recorded last. */
  datatype Process = Process(phase: Phase, memory: Steps, wrote: string)

  datatype Store = Store(disk: File, temps: map<nat, File>, lock: Option<nat>, processes: map<nat, Process>)

  datatype Event =
    | Start(p: nat)
    | Record(p: nat, name: string, entry: Entry)
    | Lock(p: nat)
    | ReadAndMerge(p: nat, root: string, now: int)
    | OpenTemp(p: nat)
    | FillTemp(p: nat)
    | Replace(p: nat)
    | Unlock(p: nat)
    | Exit(p: nat)
    | Crash(p: nat)

  function ProcessOf(s: Store, p: nat): Process {
    if p in s.processes then s.processes[p] else Process(Idle, map[], "")
  }

  /** A process only reads the manifest at its start if it is complete; otherwise the start fails. */
  predicate Enabled(s: Store, e: Event) {
    var phase := ProcessOf(s, e.p).phase;
    match e
    case Start(_) => phase.Idle? && !s.disk.Garbled?
    case Record(_, _, _) => phase.Working?
    case Lock(_) => phase.Recorded? && s.lock.None?
    case ReadAndMerge(_, _, _) => phase.Locked?
    case OpenTemp(_) => phase.Merged?
    case FillTemp(_) => phase.Writing?
    case Replace(p) => phase.Written? && p in s.temps
    case Unlock(_) => phase.Replaced?
    case Exit(_) => phase.Working?
    case Crash(_) => !phase.Idle?
  }

  function Enter(s: Store, p: nat, phase: Phase): Store {
    s.(processes := s.processes[p := ProcessOf(s, p).(phase := phase)])
  }

  /** One action. An action that is not enabled changes nothing. The lock goes with the process that holds it. */
  function Next(s: Store, e: Event): Store {
    if !Enabled(s, e) then s
    else
      var q := ProcessOf(s, e.p);
      match e
      case Start(p) => s.(processes := s.processes[p := Process(Working, StepsIn(s.disk), "")])
      case Record(p, name, entry) =>
        s.(processes := s.processes[p := Process(Recorded, q.memory[name := entry], name)])
      case Lock(p) => Enter(s, p, Locked).(lock := Some(p))
      case ReadAndMerge(p, root, now) => Enter(s, p, Merged(Merge(s.disk, q.memory, Some(q.wrote), root, now)))
      case OpenTemp(p) => Enter(s, p, Writing(q.phase.doc)).(temps := s.temps[p := Garbled])
      case FillTemp(p) => Enter(s, p, Written(q.phase.doc)).(temps := s.temps[p := Whole(q.phase.doc)])
      case Replace(p) => Enter(s, p, Replaced).(disk := s.temps[p], temps := s.temps - {p})
      case Unlock(p) => Enter(s, p, Working).(lock := None)
      case Exit(p) => Enter(s, p, Idle)
      case Crash(p) => Enter(s, p, Idle).(lock := if s.lock == Some(p) then None else s.lock)
  }

  function Run(s: Store, trace: seq<Event>): Store
    decreases |trace|
  {
    if trace == [] then s else Run(Next(s, trace[0]), trace[1..])
  }

  function Before(disk: File): Store { Store(disk, map[], None, map[]) }

  // ---------------------------------------------------------------- what a trace should leave on disk

  /** The steps recorded and not yet committed, by process. */
  function Noted(s: Store, pending: map<nat, (string, Entry)>, e: Event): map<nat, (string, Entry)> {
    if !Enabled(s, e) then pending
    else
      match e
      case Record(p, name, entry) => pending[p := (name, entry)]
      case Replace(p) => pending - {p}
      case Crash(p) => pending - {p}
      case _ => pending
  }

  /** The steps in the order in which they were put on disk: at every replacement, the step its process recorded since
  its last one. */
  function Committed(s: Store, pending: map<nat, (string, Entry)>, trace: seq<Event>): seq<(string, Entry)>
    decreases |trace|
  {
    if trace == [] then []
    else
      var e := trace[0];
      (if e.Replace? && Enabled(s, e) && e.p in pending then [pending[e.p]] else [])
      + Committed(Next(s, e), Noted(s, pending, e), trace[1..])
  }

  function Overlay(steps: Steps, commits: seq<(string, Entry)>): Steps
    decreases |commits|
  {
    if commits == [] then steps else Overlay(steps[commits[0].0 := commits[0].1], commits[1..])
  }

  // ---------------------------------------------------------------- the invariant

  predicate Critical(phase: Phase) { phase.Locked? || HasDoc(phase) || phase.Replaced? }

  predicate HasDoc(phase: Phase) { phase.Merged? || phase.Writing? || phase.Written? }

  ghost predicate ProcessOk(s: Store, pending: map<nat, (string, Entry)>, p: nat) {
    var q := ProcessOf(s, p);
    (Critical(q.phase) <==> s.lock == Some(p))
    && (q.phase.Recorded? || q.phase.Locked? || HasDoc(q.phase) ==>
          p in pending && q.wrote in q.memory && pending[p] == (q.wrote, q.memory[q.wrote]))
    && (HasDoc(q.phase) ==>
          q.phase.doc.steps == StepsIn(s.disk)[q.wrote := q.memory[q.wrote]] && q.phase.doc.other == OtherIn(s.disk))
    && (q.phase.Written? ==> p in s.temps && s.temps[p] == Whole(q.phase.doc))
    && (!q.phase.Idle? ==> !s.disk.Garbled?)
  }

  ghost predicate Consistent(s: Store, pending: map<nat, (string, Entry)>) {
    forall p: nat :: ProcessOk(s, pending, p)
  }

  /** Every action of every process keeps the invariant. */
  lemma NextConsistent(s: Store, pending: map<nat, (string, Entry)>, e: Event)
    requires Consistent(s, pending)
    ensures Consistent(Next(s, e), Noted(s, pending, e))
  {
    var t, after := Next(s, e), Noted(s, pending, e);
    assert ProcessOk(s, pending, e.p);
    forall p: nat ensures ProcessOk(t, after, p) {
      assert ProcessOk(s, pending, p);
    }
  }

  /** What one action does to the disk. */
  lemma NextDisk(s: Store, pending: map<nat, (string, Entry)>, e: Event)
    requires Consistent(s, pending)
    ensures var t := Next(s, e);
            if e.Replace? && Enabled(s, e)
            then e.p in pending && t.disk.Whole? && !s.disk.Garbled? && OtherIn(t.disk) == OtherIn(s.disk)
                 && StepsIn(t.disk) == StepsIn(s.disk)[pending[e.p].0 := pending[e.p].1]
            else t.disk == s.disk
  {
    assert ProcessOk(s, pending, e.p);
  }

  lemma {:induction false} RunDisk(s: Store, pending: map<nat, (string, Entry)>, trace: seq<Event>)
    requires Consistent(s, pending)
    ensures var t := Run(s, trace);
            var commits := Committed(s, pending, trace);
            StepsIn(t.disk) == Overlay(StepsIn(s.disk), commits) && OtherIn(t.disk) == OtherIn(s.disk)
            && (s.disk.Garbled? ==> t.disk == s.disk && commits == [])
            && (t.disk.Garbled? ==> s.disk.Garbled?)
            && (t.disk.Missing? <==> s.disk.Missing? && commits == [])
    decreases |trace|
  {
    if trace != [] {
      hide Next, Enabled, Noted, StepsIn, OtherIn;
      var e := trace[0];
      var t, after := Next(s, e), Noted(s, pending, e);
      NextConsistent(s, pending, e);
      NextDisk(s, pending, e);
      RunDisk(t, after, trace[1..]);
      var more := Committed(t, after, trace[1..]);
      if e.Replace? && Enabled(s, e) {
        var c := pending[e.p];
        assert ([c] + more)[1..] == more;
      } else {
        assert [] + more == more;
      }
    }
  }

  /** No lost updates: for every interleaving of any number of processes, dying anywhere, the steps on disk are the
  first ones overlaid with the recorded steps in the order of their commits, the other keys are untouched, and the file
  is never garbled by the protocol. */
  lemma NoLostUpdates(disk: File, trace: seq<Event>)
    ensures var after := Run(Before(disk), trace).disk;
            var commits := Committed(Before(disk), map[], trace);
            StepsIn(after) == Overlay(StepsIn(disk), commits)
            && (disk.Whole? ==> after.Whole? && after.doc.other == disk.doc.other)
            && (after.Garbled? <==> disk.Garbled?) && (disk.Garbled? ==> commits == [])
            && (after.Missing? <==> disk.Missing? && commits == [])
  {
    StartConsistent(disk);
    RunDisk(Before(disk), map[], trace);
  }

  lemma StartConsistent(disk: File)
    ensures Consistent(Before(disk), map[])
  {
  }

  ghost predicate LastFor(commits: seq<(string, Entry)>, i: nat)
    requires i < |commits|
  {
    forall j :: i < j < |commits| ==> commits[j].0 != commits[i].0
  }

  /** The value of a step after the commits: the last one committed for it, or else the first one. */
  lemma {:induction false} OverlayLookup(steps: Steps, commits: seq<(string, Entry)>, name: string)
    ensures var after := Overlay(steps, commits);
            name in after <==> name in steps || exists i :: 0 <= i < |commits| && commits[i].0 == name
    ensures forall i | 0 <= i < |commits| && commits[i].0 == name :: LastFor(commits, i) ==>
              name in Overlay(steps, commits) && Overlay(steps, commits)[name] == commits[i].1
    ensures name in steps && (forall i :: 0 <= i < |commits| ==> commits[i].0 != name) ==>
              name in Overlay(steps, commits) && Overlay(steps, commits)[name] == steps[name]
    decreases |commits|
  {
    if commits != [] {
      var c, rest := commits[0], commits[1..];
      var first := steps[c.0 := c.1];
      OverlayLookup(first, rest, name);
      assert forall i :: 1 <= i < |commits| ==> commits[i] == rest[i - 1];
      forall i | 0 <= i < |commits| && commits[i].0 == name && LastFor(commits, i)
        ensures name in Overlay(steps, commits) && Overlay(steps, commits)[name] == commits[i].1
      {
        if i > 0 {
          assert LastFor(rest, i - 1);
        } else {
          assert forall j :: 0 <= j < |rest| ==> rest[j] == commits[j + 1];
        }
      }
      if name in Overlay(steps, commits) && name !in steps && c.0 != name {
        var i :| 0 <= i < |rest| && rest[i].0 == name;
        assert commits[i + 1].0 == name;
      }
    }
  }

  lemma {:induction false} RunConsistent(s: Store, pending: map<nat, (string, Entry)>, trace: seq<Event>)
    returns (after: map<nat, (string, Entry)>)
    requires Consistent(s, pending)
    ensures Consistent(Run(s, trace), after)
    decreases |trace|
  {
    if trace == [] {
      after := pending;
    } else {
      NextConsistent(s, pending, trace[0]);
      after := RunConsistent(Next(s, trace[0]), Noted(s, pending, trace[0]), trace[1..]);
    }
  }

  /** At most one process is between lock and unlock, and a process there never finds a partly written file. */
  lemma Exclusive(disk: File, trace: seq<Event>, p: nat, q: nat)
    ensures var s := Run(Before(disk), trace);
            Critical(ProcessOf(s, p).phase) ==>
              !s.disk.Garbled? && (Critical(ProcessOf(s, q).phase) ==> p == q)
  {
    StartConsistent(disk);
    var s := Run(Before(disk), trace);
    var pending := RunConsistent(Before(disk), map[], trace);
    assert ProcessOk(s, pending, p) && ProcessOk(s, pending, q);
  }

  /** Any process may die anywhere: it takes the lock with it, and leaves everything else as it is. One that ends
  between two steps does not even have the lock. */
  lemma CrashFrees(disk: File, trace: seq<Event>, p: nat)
    ensures var s := Run(Before(disk), trace);
            var t := Next(s, Crash(p));
            && ProcessOf(t, p).phase.Idle? && t.lock == (if s.lock == Some(p) then None else s.lock)
            && t.disk == s.disk && t.temps == s.temps && (forall q :: q != p ==> ProcessOf(t, q) == ProcessOf(s, q))
            && (ProcessOf(s, p).phase.Working? ==> s.lock != Some(p) && Next(s, Exit(p)) == t)
  {
    StartConsistent(disk);
    var s := Run(Before(disk), trace);
    var pending := RunConsistent(Before(disk), map[], trace);
    assert ProcessOk(s, pending, p);
  }

  /** Nobody waits for ever for a dead process: whoever holds the lock can go on to give it back. */
  lemma LockComesBack(disk: File, trace: seq<Event>, p: nat, root: string, now: int)
    requires Run(Before(disk), trace).lock == Some(p)
    ensures Run(Run(Before(disk), trace), Finishing(p, root, now)).lock == None
  {
    StartConsistent(disk);
    var s := Run(Before(disk), trace);
    var pending := RunConsistent(Before(disk), map[], trace);
    assert ProcessOk(s, pending, p);
    FinishWrite(s, p, root, now);
  }

  function Finishing(p: nat, root: string, now: int): seq<Event> {
    [ReadAndMerge(p, root, now), OpenTemp(p), FillTemp(p), Replace(p), Unlock(p)]
  }

  /** How far a writer has come. */
  function Stage(phase: Phase): int {
    match phase
    case Locked => 0
    case Merged(_) => 1
    case Writing(_) => 2
    case Written(_) => 3
    case Replaced => 4
    case _ => 5
  }

  lemma StageStep(s: Store, p: nat, root: string, now: int, k: nat)
    requires k < 5 && (ProcessOf(s, p).phase.Written? ==> p in s.temps)
    ensures var t := Next(s, Finishing(p, root, now)[k]);
            if Stage(ProcessOf(s, p).phase) == k
            then Stage(ProcessOf(t, p).phase) == k + 1 && (k == 4 ==> t.lock == None)
                 && (ProcessOf(t, p).phase.Written? ==> p in t.temps)
            else t == s
  {
  }

  lemma FinishWrite(s: Store, p: nat, root: string, now: int)
    requires Critical(ProcessOf(s, p).phase) && (ProcessOf(s, p).phase.Written? ==> p in s.temps)
    ensures Run(s, Finishing(p, root, now)).lock == None
  {
    hide Next;
    var e := Finishing(p, root, now);
    var s1 := Next(s, e[0]);
    var s2 := Next(s1, e[1]);
    var s3 := Next(s2, e[2]);
    var s4 := Next(s3, e[3]);
    StageStep(s, p, root, now, 0);
    StageStep(s1, p, root, now, 1);
    StageStep(s2, p, root, now, 2);
    StageStep(s3, p, root, now, 3);
    StageStep(s4, p, root, now, 4);
    Five(s, e);
  }

  lemma Five(s: Store, e: seq<Event>)
    requires |e| == 5
    ensures Run(s, e) == Next(Next(Next(Next(Next(s, e[0]), e[1]), e[2]), e[3]), e[4])
  {
    hide Next;
    assert e[1..][1..] == e[2..] && e[2..][1..] == e[3..] && e[3..][1..] == e[4..] && e[4..][1..] == [];
    var s1 := Next(s, e[0]);
    var s2 := Next(s1, e[1]);
    var s3 := Next(s2, e[2]);
    assert Run(s, e) == Run(s1, e[1..]) == Run(s2, e[2..]);
    assert Run(s2, e[2..]) == Run(s3, e[3..]) == Run(Next(s3, e[3]), e[4..]);
    assert Run(Next(s3, e[3]), e[4..]) == Run(Next(Next(s3, e[3]), e[4]), []);
  }

  /** The two halves of a write that nobody interrupts. */
  lemma FirstHalf(s: Store, p: nat, root: string, now: int)
    requires ProcessOf(s, p).phase.Recorded? && s.lock.None?
    ensures var q := ProcessOf(s, p);
            var t := Next(Next(Next(s, Event.Lock(p)), ReadAndMerge(p, root, now)), OpenTemp(p));
            ProcessOf(t, p) == q.(phase := Writing(Merge(s.disk, q.memory, Some(q.wrote), root, now)))
            && t.temps == s.temps[p := Garbled] && t.disk == s.disk
  {
    hide Merge;
  }

  lemma SecondHalf(s: Store, p: nat)
    requires ProcessOf(s, p).phase.Writing?
    ensures var q := ProcessOf(s, p);
            var t := Next(Next(Next(s, FillTemp(p)), Replace(p)), Unlock(p));
            t.disk == Whole(q.phase.doc) && t.temps == s.temps - {p} && t.lock.None?
            && ProcessOf(t, p) == q.(phase := Working)
  {
  }

  /** A write that nobody interrupts puts the merged document on disk and leaves no temporary file of its own. */
  lemma OneWrite(s: Store, p: nat, root: string, now: int)
    requires ProcessOf(s, p).phase.Recorded? && s.lock.None?
    ensures var q := ProcessOf(s, p);
            var t := Run(Next(s, Event.Lock(p)), Finishing(p, root, now));
            t.disk == Whole(Merge(s.disk, q.memory, Some(q.wrote), root, now)) && t.temps == s.temps - {p}
            && t.lock.None? && ProcessOf(t, p) == q.(phase := Working)
  {
    hide Next, Merge;
    Five(Next(s, Event.Lock(p)), Finishing(p, root, now));
    FirstHalf(s, p, root, now);
    SecondHalf(Next(Next(Next(s, Event.Lock(p)), ReadAndMerge(p, root, now)), OpenTemp(p)), p);
  }

  /** A write without a step name takes over every step in memory. It keeps what is on disk for a step exactly when the
  copy in memory, if there is one, is not older: when it is the same. */
  lemma WholeMemoryWrite(onDisk: File, memory: Steps, root: string, now: int, name: string)
    requires name in StepsIn(onDisk)
    ensures var doc := Merge(onDisk, memory, None, root, now);
            name in doc.steps
            && (doc.steps[name] == StepsIn(onDisk)[name] <==>
                (name in memory ==> memory[name] == StepsIn(onDisk)[name]))
  {
  }

  /** In that mode a peer's newer entry is lost, even for a step the writer has only read at its start. */
  lemma StaleOverwrite(before: Entry, newer: Entry, root: string, now: int)
    requires before != newer
    ensures var disk := Whole(Doc(map[], root, now, map["env" := before]));
            var s := Run(Next(Next(Next(Next(Before(disk), Start(0)), Start(1)), Record(1, "env", newer)),
                              Event.Lock(1)),
                         Finishing(1, root, now));
            StepsIn(s.disk) == map["env" := newer] && ProcessOf(s, 0).wrote == ""
            && Merge(s.disk, ProcessOf(s, 0).memory, None, root, now).steps == map["env" := before]
  {
    hide Run, Finishing;
    var disk := Whole(Doc(map[], root, now, map["env" := before]));
    var s := Next(Next(Next(Before(disk), Start(0)), Start(1)), Record(1, "env", newer));
    assert ProcessOf(s, 1) == Process(Recorded, map["env" := newer], "env");
    assert ProcessOf(s, 0) == Process(Working, map["env" := before], "");
    OneWrite(s, 1, root, now);
    OthersKept(s, 0, 1, root, now);
    var written := Run(Next(s, Event.Lock(1)), Finishing(1, root, now));
    WholeMemoryWrite(written.disk, ProcessOf(written, 0).memory, root, now, "env");
  }

  lemma OthersKept(s: Store, p: nat, q: nat, root: string, now: int)
    requires p != q
    ensures ProcessOf(Run(Next(s, Event.Lock(q)), Finishing(q, root, now)), p) == ProcessOf(s, p)
  {
    hide Next;
    var e := Finishing(q, root, now);
    var s0 := Next(s, Event.Lock(q));
    Five(s0, e);
    OtherKept(s, p, Event.Lock(q));
    OtherKept(s0, p, e[0]);
    OtherKept(Next(s0, e[0]), p, e[1]);
    OtherKept(Next(Next(s0, e[0]), e[1]), p, e[2]);
    OtherKept(Next(Next(Next(s0, e[0]), e[1]), e[2]), p, e[3]);
    OtherKept(Next(Next(Next(Next(s0, e[0]), e[1]), e[2]), e[3]), p, e[4]);
  }

  lemma OtherKept(s: Store, p: nat, e: Event)
    requires p != e.p
    ensures ProcessOf(Next(s, e), p) == ProcessOf(s, p)
  {
  }

  // ---------------------------------------------------------------- one process

  /** The directory of the manifest, as one process sees it. */
  class Folder {
    var file: File
    var temps: map<nat, File>

    constructor ()
      ensures file == Missing && temps == map[]
    {
      file := Missing;
      temps := map[];
    }
  }

  /** A process's own copy of the steps. */
  class Memory {
    var steps: Steps

    constructor (first: Steps)
      ensures steps == first
    {
      steps := first;
    }

    /** `_record` */
    method Record(name: string, entry: Entry)
      modifies this
      ensures steps == old(steps)[name := entry]
    {
      steps := steps[name := entry];
    }
  }

  /** `_write_manifest`, while it has the lock. */
  method WriteManifest(folder: Folder, memory: Memory, pid: nat, wrote: Option<string>, root: string, now: int)
    modifies folder
    ensures folder.file == Whole(Merge(old(folder.file), memory.steps, wrote, root, now))
    ensures folder.temps == old(folder.temps) - {pid}
  {
    var onDisk := folder.file;
    if onDisk.Garbled? {
      onDisk := Missing;
    }
    var merged := StepsIn(onDisk);
    if wrote.Some? {
      if wrote.value in memory.steps {
        merged := merged[wrote.value := memory.steps[wrote.value]];
      }
    } else {
      merged := merged + memory.steps;
    }
    folder.temps := folder.temps[pid := Garbled];
    folder.temps := folder.temps[pid := Whole(Doc(OtherIn(onDisk), root, now, merged))];
    folder.file := folder.temps[pid];
    folder.temps := folder.temps - {pid};
  }

  /** The entry of a step that gave a result, or raised. */
  function EntryOf(result: Option<Entry>): Entry {
    match result case Some(entry) => entry case None => Entry(Failed, "error")
  }

  /** The exit code: whether one of the steps that ran has failed. */
  method ExitCode(steps: Steps, ran: seq<string>) returns (rc: int)
    requires forall k :: 0 <= k < |ran| ==> ran[k] in steps
    ensures rc == if exists k :: 0 <= k < |ran| && steps[ran[k]].status.Failed? then 1 else 0
  {
    rc := 0;
    for k := 0 to |ran|
      invariant rc == if exists j :: 0 <= j < k && steps[ran[j]].status.Failed? then 1 else 0
    {
      if steps[ran[k]].status.Failed? {
        rc := 1;
      }
    }
  }

  /** One of the selected steps raised, or gave a result that says it failed. */
  ghost predicate SomeFailed(names: seq<string>, selected: set<string>, results: seq<Option<Entry>>)
    requires |results| == |names|
  {
    exists i :: 0 <= i < |names| && names[i] in selected && (results[i].None? || results[i].value.status.Failed?)
  }

  /** The file holds what the peers have left with this one step put in: its result, or a failure if it raised. */
  ghost predicate Holds(file: File, peers: File, name: string, result: Option<Entry>, root: string, now: int) {
    && file.Whole? && file.doc.other == (if peers.Whole? then peers.doc.other else map[])
    && file.doc.root == root && file.doc.updated == now
    && file.doc.steps - {name} == StepsIn(peers) - {name}
    && name in file.doc.steps
    && match result
       case Some(entry) => file.doc.steps[name] == entry
       case None => file.doc.steps[name].status.Failed?
  }

  lemma MergedHolds(peers: File, memory: Steps, name: string, result: Option<Entry>, root: string, now: int)
    requires name in memory && memory[name] == EntryOf(result)
    ensures Holds(Whole(Merge(peers, memory, Some(name), root, now)), peers, name, result, root, now)
  {
  }

  /** `cmd_run`: `results` are what the steps give, `peers` what the other processes have left in the file before each
  write, and `left` is the file at the start and after every step. There is no exit code when the manifest cannot be
  read at the start. Otherwise the exit code tells whether a step of this very run raised or failed, whatever the file
  or the peers say of it; every selected step leaves what the peers left with its own entry put in, and no other step
  touches the file. */
  method CmdRun(folder: Folder, pid: nat, root: string, now: int, names: seq<string>, selected: set<string>,
                results: seq<Option<Entry>>, peers: seq<File>)
    returns (rc: Option<int>, ghost left: seq<File>)
    requires |results| == |names| == |peers| && Distinct(names)
    modifies folder
    ensures rc == if old(folder.file).Garbled? then None
                  else Some(if SomeFailed(names, selected, results) then 1 else 0)
    ensures |left| == (if rc.Some? then |names| else 0) + 1
    ensures left[0] == old(folder.file) && left[|left| - 1] == folder.file
    ensures forall i :: 0 <= i < |left| - 1 ==>
              if names[i] in selected then Holds(left[i + 1], peers[i], names[i], results[i], root, now)
              else left[i + 1] == left[i]
  {
    hide Holds, Merge;
    left := [folder.file];
    if folder.file.Garbled? {
      return None, left;
    }
    var memory := new Memory(StepsIn(folder.file));
    var ran: seq<string> := [];
    ghost var index: seq<nat> := [];
    for n := 0 to |names|
      invariant |index| == |ran|
      invariant forall k :: 0 <= k < |ran| ==> index[k] < n && names[index[k]] == ran[k] && ran[k] in selected
      invariant forall i :: 0 <= i < n && names[i] in selected ==> i in index
      invariant forall i :: 0 <= i < n && names[i] in selected ==>
                  names[i] in memory.steps && memory.steps[names[i]] == EntryOf(results[i])
      invariant |left| == n + 1 && left[0] == old(folder.file) && left[n] == folder.file
      invariant forall i :: 0 <= i < n ==>
                  if names[i] in selected then Holds(left[i + 1], peers[i], names[i], results[i], root, now)
                  else left[i + 1] == left[i]
    {
      if names[n] in selected {
        memory.Record(names[n], EntryOf(results[n]));
        folder.file := peers[n];
        WriteManifest(folder, memory, pid, Some(names[n]), root, now);
        MergedHolds(peers[n], memory.steps, names[n], results[n], root, now);
        ran := ran + [names[n]];
        index := index + [n];
        assert index[|ran| - 1] == n;
      }
      left := left + [folder.file];
    }
    var code := ExitCode(memory.steps, ran);
    return Some(code), left;
  }
}

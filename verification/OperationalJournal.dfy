/** The operational journal: an append-only log that several processes share.

    The files rotate by rename through `generations` older files; a private lock
    directory serialises the writers.  `Journal` is the writer as one process runs
    it; `State` and `Step` are the same actions, one file-system call at a time, in
    every interleaving with other processes, crashes and stale-lock recovery. */
module OperationalJournal {
  import opened Common

  const STALE_LOCK_SECONDS := 60

  /** One encoded journal line. */
  type Record = string

  /** A journal file: the records written to it, oldest first. */
  type File = seq<Record>

  datatype Config = Config(generations: nat, maximumBytes: nat) {
    predicate Valid() { generations >= 1 }
  }

  datatype Files = Files(active: Option<File>, older: map<nat, File>)

  const NO_FILES := Files(None, map[])

  function Size(f: File): nat {
    if f == [] then 0 else Size(f[..|f| - 1]) + |f[|f| - 1]|
  }

  function Contents(f: Option<File>): File {
    if f.Some? then f.value else []
  }

  function Generation(fs: Files, g: nat): File {
    if g in fs.older then fs.older[g] else []
  }

  // ----- the file-system calls of one append -----

  predicate NeedsRotation(c: Config, fs: Files, incoming: nat) {
    fs.active.Some? && Size(fs.active.value) + incoming > c.maximumBytes
  }

  function DropOldest(c: Config, fs: Files): Files {
    fs.(older := fs.older - {c.generations})
  }

  /** `os.replace` of generation `g` onto `g + 1`, when `g` exists. */
  function ShiftOne(fs: Files, g: nat): Files {
    if g in fs.older then fs.(older := (fs.older - {g})[g + 1 := fs.older[g]]) else fs
  }

  function RotateActive(fs: Files): Files {
    if fs.active.Some? then Files(None, fs.older[1 := fs.active.value]) else fs
  }

  function OpenActive(fs: Files): Files {
    fs.(active := Some(Contents(fs.active)))
  }

  function WriteRecord(fs: Files, r: Record): Files {
    fs.(active := Some(Contents(fs.active) + [r]))
  }

  /** The renames of the rotation loop that are still to come at generation `g`. */
  function ShiftFrom(fs: Files, g: nat): Files
    decreases g
  {
    if g == 0 then RotateActive(fs) else ShiftFrom(ShiftOne(fs, g), g - 1)
  }

  function Rotated(c: Config, fs: Files, incoming: nat): Files
    requires c.Valid()
  {
    if NeedsRotation(c, fs, incoming) then ShiftFrom(DropOldest(c, fs), c.generations - 1) else fs
  }

  /** The effect of one whole append on the files. */
  function Appended(c: Config, fs: Files, r: Record): Files
    requires c.Valid()
  {
    WriteRecord(OpenActive(Rotated(c, fs, |r|)), r)
  }

  // ----- the window: what the files hold, oldest record first -----

  function Older(fs: Files, n: nat): File {
    if n == 0 then [] else Generation(fs, n) + Older(fs, n - 1)
  }

  function Window(c: Config, fs: Files): File {
    Older(fs, c.generations) + Contents(fs.active)
  }

  ghost predicate IsSuffix(s: File, whole: File) {
    |s| <= |whole| && s == whole[|whole| - |s|..]
  }

  predicate BoundedFile(c: Config, f: File) {
    Size(f) <= c.maximumBytes || |f| == 1
  }

  ghost predicate WellFormed(c: Config, fs: Files) {
    && (forall g :: g in fs.older ==> 1 <= g <= c.generations)
    && (forall g :: g in fs.older ==> BoundedFile(c, fs.older[g]))
    && (fs.active.Some? ==> BoundedFile(c, fs.active.value))
  }

  lemma {:induction false} OlderFrame(a: Files, b: Files, n: nat)
    requires forall g :: 1 <= g <= n ==> Generation(a, g) == Generation(b, g)
    ensures Older(a, n) == Older(b, n)
  {
    if n > 0 { OlderFrame(a, b, n - 1); }
  }

  lemma {:induction false} DropOldestWindow(c: Config, fs: Files)
    requires c.Valid()
    ensures Window(c, fs) == Generation(fs, c.generations) + Window(c, DropOldest(c, fs))
  {
    OlderFrame(fs, DropOldest(c, fs), c.generations - 1);
  }

  lemma {:induction false} ShiftOneOlder(fs: Files, g: nat, n: nat)
    requires 1 <= g < n && g + 1 !in fs.older
    ensures Older(ShiftOne(fs, g), n) == Older(fs, n)
  {
    var after := ShiftOne(fs, g);
    if n == g + 1 {
      OlderFrame(fs, after, g - 1);
      assert Older(fs, n) == Generation(fs, g + 1) + (Generation(fs, g) + Older(fs, g - 1));
      assert Older(after, n) == Generation(after, g + 1) + (Generation(after, g) + Older(after, g - 1));
    } else {
      ShiftOneOlder(fs, g, n - 1);
    }
  }

  lemma {:induction false} RotateActiveOlder(fs: Files, n: nat)
    requires n >= 1 && fs.active.Some? && 1 !in fs.older
    ensures Older(RotateActive(fs), n) == Older(fs, n) + fs.active.value
  {
    if n == 1 {
      assert Older(RotateActive(fs), 0) == [] == Older(fs, 0);
    } else {
      RotateActiveOlder(fs, n - 1);
    }
  }

  // ----- one process on its own -----

  /** The journal files as one writer, holding the lock, changes them. */
  class Journal {
    const c: Config
    var active: Option<File>
    var older: map<nat, File>

    ghost function Snapshot(): Files reads this { Files(active, older) }

    constructor (c: Config)
      ensures this.c == c && Snapshot() == NO_FILES
    {
      this.c := c;
      active, older := None, map[];
    }

    method RotateIfNeeded(incoming: nat)
      requires c.Valid()
      modifies this
      ensures Snapshot() == Rotated(c, old(Snapshot()), incoming)
    {
      if active == None { return; }
      if Size(active.value) + incoming <= c.maximumBytes { return; }
      older := older - {c.generations};
      var generation: nat := c.generations - 1;
      while generation > 0
        invariant active == old(active)
        invariant ShiftFrom(Snapshot(), generation) == Rotated(c, old(Snapshot()), incoming)
      {
        if generation in older {
          older := (older - {generation})[generation + 1 := older[generation]];
        }
        generation := generation - 1;
      }
      older := older[1 := active.value];
      active := None;
    }

    method AppendBytes(r: Record)
      modifies this
      ensures Snapshot() == WriteRecord(OpenActive(old(Snapshot())), r)
    {
      if active == None { active := Some([]); }
      active := Some(active.value + [r]);
    }

    method Append(r: Record)
      requires c.Valid()
      modifies this
      ensures Snapshot() == Appended(c, old(Snapshot()), r)
    {
      RotateIfNeeded(|r|);
      AppendBytes(r);
    }
  }

  // ----- every process, one file-system call at a time -----

  type Pid = nat

  /** What `owner.json` in the lock directory says: absent, created but not yet
      readable, or naming a process. */
  datatype Owner = Nobody | Unreadable(pid: Pid) | Named(pid: Pid)

  datatype Lock = Free | Dir(owner: Owner, mtime: int)

  /** Where a process stands inside `append`. */
  datatype Phase =
    | Idle
    | Dead
    | Waiting(r: Record)               // about to `mkdir` the lock
    | Detaching(r: Record)             // judged the lock stale, about to rename it away
    | Made(r: Record)                  // made the directory, no owner file yet
    | Opened(r: Record)                // created the owner file, not yet written
    | Sizing(r: Record)                // lock acquired
    | Dropping(r: Record)              // about to unlink the oldest generation
    | Shifting(r: Record, g: nat)      // about to rename generation g (0: the active file)
    | Opening(r: Record)               // about to open or create the active file
    | Writing(r: Record)               // about to write the record
    | Unlinking                        // releasing: about to unlink the owner file
    | Removing                         // releasing: about to remove the directory

  datatype State = State(now: int, lock: Lock, procs: map<Pid, Phase>, files: Files, history: seq<Record>) {
    function At(p: Pid): Phase { if p in procs then procs[p] else Idle }

    function Move(p: Pid, phase: Phase): State { this.(procs := procs[p := phase]) }
  }

  const INITIAL := State(0, Free, map[], NO_FILES, [])

  datatype Step =
    | Tick(seconds: nat)
    | Start(p: Pid, r: Record)
    | Mkdir(p: Pid)
    | GiveUp(p: Pid)
    | CheckStale(p: Pid)
    | Detach(p: Pid)
    | OpenOwner(p: Pid)
    | OwnerExists(p: Pid)
    | OwnerOpenFails(p: Pid)
    | WriteOwner(p: Pid)
    | OwnerWriteFails(p: Pid)
    | Measure(p: Pid)
    | Drop(p: Pid)
    | Shift(p: Pid)
    | Open(p: Pid)
    | Write(p: Pid)
    | Fail(p: Pid)
    | UnlinkOwner(p: Pid)
    | RemoveDir(p: Pid)
    | Crash(p: Pid)

  /** The phases between creating the owner file and unlinking it. */
  predicate Holding(phase: Phase) {
    phase.Opened? || InSection(phase) || phase.Unlinking?
  }

  /** The body of the `with` statement: rotation and append. */
  predicate InSection(phase: Phase) {
    phase.Sizing? || phase.Dropping? || phase.Shifting? || phase.Opening? || phase.Writing?
  }

  /** The lock is old and was left by a dead process, or is an old empty directory. */
  predicate Stale(s: State, p: Pid) {
    && s.lock.Dir?
    && s.now - s.lock.mtime >= STALE_LOCK_SECONDS
    && (s.lock.owner.Nobody? || (s.lock.owner.Named? && s.lock.owner.pid != p && s.At(s.lock.owner.pid).Dead?))
  }

  predicate Enabled(s: State, step: Step) {
    match step
    case Tick(_) => true
    case Start(p, _) => s.At(p).Idle? || s.At(p).Dead?
    case Mkdir(p) => s.At(p).Waiting? && s.lock.Free?
    case GiveUp(p) => s.At(p).Waiting?
    case CheckStale(p) => s.At(p).Waiting? && Stale(s, p)
    case Detach(p) => s.At(p).Detaching?
    case OpenOwner(p) => s.At(p).Made? && s.lock.Dir? && s.lock.owner.Nobody?
    case OwnerExists(p) => s.At(p).Made? && s.lock.Dir? && !s.lock.owner.Nobody?
    case OwnerOpenFails(p) => s.At(p).Made?
    case WriteOwner(p) => s.At(p).Opened?
    case OwnerWriteFails(p) => s.At(p).Opened?
    case Measure(p) => s.At(p).Sizing?
    case Drop(p) => s.At(p).Dropping?
    case Shift(p) => s.At(p).Shifting?
    case Open(p) => s.At(p).Opening?
    case Write(p) => s.At(p).Writing?
    case Fail(p) => InSection(s.At(p))
    case UnlinkOwner(p) => s.At(p).Unlinking?
    case RemoveDir(p) => s.At(p).Removing?
    case Crash(p) => !s.At(p).Dead?
  }

  function Apply(c: Config, s: State, step: Step): State
    requires c.Valid() && Enabled(s, step)
  {
    match step
    case Tick(d) => s.(now := s.now + d)
    case Start(p, r) => s.Move(p, Waiting(r))
    case Mkdir(p) => s.Move(p, Made(s.At(p).r)).(lock := Dir(Nobody, s.now))
    case GiveUp(p) => s.Move(p, Idle)
    case CheckStale(p) => s.Move(p, Detaching(s.At(p).r))
    case Detach(p) => s.Move(p, Waiting(s.At(p).r)).(lock := Free)
    case OpenOwner(p) => s.Move(p, Opened(s.At(p).r)).(lock := Dir(Unreadable(p), s.now))
    case OwnerExists(p) => s.Move(p, Waiting(s.At(p).r))
    case OwnerOpenFails(p) => s.Move(p, Idle)
    case WriteOwner(p) =>
      s.Move(p, Sizing(s.At(p).r))
      .(lock := if s.lock.Dir? && s.lock.owner == Unreadable(p) then Dir(Named(p), s.lock.mtime) else s.lock)
    case OwnerWriteFails(p) => s.Move(p, Unlinking)
    case Measure(p) =>
      var r := s.At(p).r;
      s.Move(p, if NeedsRotation(c, s.files, |r|) then Dropping(r) else Opening(r))
    case Drop(p) =>
      s.Move(p, Shifting(s.At(p).r, c.generations - 1)).(files := DropOldest(c, s.files))
    case Shift(p) =>
      var Shifting(r, g) := s.At(p);
      if g == 0 then s.Move(p, Opening(r)).(files := RotateActive(s.files))
      else s.Move(p, Shifting(r, g - 1)).(files := ShiftOne(s.files, g))
    case Open(p) => s.Move(p, Writing(s.At(p).r)).(files := OpenActive(s.files))
    case Write(p) =>
      s.Move(p, Unlinking).(files := WriteRecord(s.files, s.At(p).r), history := s.history + [s.At(p).r])
    case Fail(p) => s.Move(p, Unlinking)
    case UnlinkOwner(p) =>
      s.Move(p, Removing).(lock := if s.lock.Dir? && !s.lock.owner.Nobody? then Dir(Nobody, s.now) else s.lock)
    case RemoveDir(p) =>
      s.Move(p, Idle).(lock := if s.lock.Dir? && s.lock.owner.Nobody? then Free else s.lock)
    case Crash(p) => s.Move(p, Dead)
  }

  /** `steps` lead from state to state, from any state on. */
  ghost predicate IsTrace(c: Config, states: seq<State>, steps: seq<Step>) {
    && c.Valid()
    && |states| == |steps| + 1
    && forall i {:trigger steps[i]} :: 0 <= i < |steps| ==>
         Enabled(states[i], steps[i]) && states[i + 1] == Apply(c, states[i], steps[i])
  }

  /** A run starts with no files and no lock. */
  ghost predicate IsRun(c: Config, states: seq<State>, steps: seq<Step>) {
    IsTrace(c, states, steps) && states[0] == INITIAL
  }

  // ----- mutual exclusion -----

  /** Every process that holds the lock is named by the directory at the lock path. */
  ghost predicate LockInPlace(s: State) {
    forall p :: Holding(s.At(p)) ==> s.lock.Dir? && !s.lock.owner.Nobody? && s.lock.owner.pid == p
  }

  ghost predicate MutualExclusion(s: State) {
    forall p, q :: Holding(s.At(p)) && Holding(s.At(q)) ==> p == q
  }

  ghost predicate SomeoneHolds(s: State) {
    exists p :: Holding(s.At(p))
  }

  /** A recovery that renames away the lock of a live holder. */
  ghost predicate Steals(s: State, step: Step) {
    step.Detach? && SomeoneHolds(s)
  }

  /** Check and rename of a recovery are adjacent, as if they were one call. */
  ghost predicate AtomicRecovery(steps: seq<Step>) {
    forall i :: 0 <= i < |steps| && steps[i].Detach? ==> i > 0 && steps[i - 1] == CheckStale(steps[i].p)
  }

  lemma StepKeepsLockInPlace(c: Config, s: State, step: Step)
    requires c.Valid() && Enabled(s, step) && LockInPlace(s)
    ensures LockInPlace(Apply(c, s, step)) <==> !Steals(s, step)
  {
    var after := Apply(c, s, step);
    if Steals(s, step) {
      var p :| Holding(s.At(p));
      assert Holding(after.At(p));
    } else {
      forall p | Holding(after.At(p))
        ensures after.lock.Dir? && !after.lock.owner.Nobody? && after.lock.owner.pid == p
      {
        assert Holding(s.At(p)) || step == OpenOwner(p);
      }
    }
  }

  /** In every interleaving, up to any point: every holder is named by the lock exactly as
      long as no recovery has renamed away the lock of a live holder. */
  lemma {:induction false} LockInPlaceExactly(c: Config, states: seq<State>, steps: seq<Step>, n: nat)
    requires IsRun(c, states, steps) && n <= |steps|
    ensures (forall i :: 0 <= i <= n ==> LockInPlace(states[i]))
       <==> (forall i :: 0 <= i < n ==> !Steals(states[i], steps[i]))
  {
    if n > 0 {
      LockInPlaceExactly(c, states, steps, n - 1);
      if LockInPlace(states[n - 1]) { StepKeepsLockInPlace(c, states[n - 1], steps[n - 1]); }
      assert states[n] == Apply(c, states[n - 1], steps[n - 1]);
      assert (forall i :: 0 <= i <= n ==> LockInPlace(states[i]))
        <==> (forall i :: 0 <= i <= n - 1 ==> LockInPlace(states[i])) && LockInPlace(states[n]);
      assert (forall i :: 0 <= i < n ==> !Steals(states[i], steps[i]))
        <==> (forall i :: 0 <= i < n - 1 ==> !Steals(states[i], steps[i])) && !Steals(states[n - 1], steps[n - 1]);
    }
  }

  /** A rename that directly follows its own check finds nobody holding the lock. */
  lemma AtomicRecoveryNeverSteals(c: Config, s: State, p: Pid)
    requires c.Valid() && LockInPlace(s) && Enabled(s, CheckStale(p))
    ensures !Steals(Apply(c, s, CheckStale(p)), Detach(p))
  {
    var after := Apply(c, s, CheckStale(p));
    assert forall q :: Holding(after.At(q)) ==> Holding(s.At(q));
  }

  /** Every recovery but perhaps the first step follows its own check. */
  ghost predicate LaterRecoveriesAtomic(steps: seq<Step>) {
    forall i :: 0 < i < |steps| && steps[i].Detach? ==> steps[i - 1] == CheckStale(steps[i].p)
  }

  lemma {:induction false} AtomicTracesKeepLockInPlace(c: Config, states: seq<State>, steps: seq<Step>, n: nat)
    requires IsTrace(c, states, steps) && LaterRecoveriesAtomic(steps) && n <= |steps|
    requires LockInPlace(states[0]) && (steps != [] ==> !Steals(states[0], steps[0]))
    ensures forall i :: 0 <= i <= n ==> LockInPlace(states[i])
  {
    if n > 0 {
      AtomicTracesKeepLockInPlace(c, states, steps, n - 1);
      var step := steps[n - 1];
      if n > 1 && step.Detach? {
        assert steps[n - 2] == CheckStale(step.p);
        AtomicRecoveryNeverSteals(c, states[n - 2], step.p);
      }
      StepKeepsLockInPlace(c, states[n - 1], step);
      assert states[n] == Apply(c, states[n - 1], step);
    }
  }

  lemma AtomicRunsKeepLockInPlace(c: Config, states: seq<State>, steps: seq<Step>, n: nat)
    requires IsRun(c, states, steps) && AtomicRecovery(steps) && n <= |steps|
    ensures forall i :: 0 <= i <= n ==> LockInPlace(states[i])
  {
    AtomicTracesKeepLockInPlace(c, states, steps, n);
  }

  /** At most one process is between acquiring and releasing the lock, at every point
      of every run whose recoveries are atomic. */
  lemma AtomicRunsExclude(c: Config, states: seq<State>, steps: seq<Step>, n: nat)
    requires IsRun(c, states, steps) && AtomicRecovery(steps) && n < |states|
    ensures MutualExclusion(states[n])
  {
    AtomicRunsKeepLockInPlace(c, states, steps, n);
  }

  /** In such runs a recovery only ever takes away a lock that is at least 60 seconds old
      and either empty or left by a dead process. */
  lemma OnlyStaleLocksAreTaken(c: Config, states: seq<State>, steps: seq<Step>, k: nat, p: Pid)
    requires IsRun(c, states, steps) && AtomicRecovery(steps) && k < |steps| && steps[k] == Detach(p)
    ensures var s := states[k];
            && s.lock.Dir? && s.now - s.lock.mtime >= 60
            && (s.lock.owner.Nobody? || (s.lock.owner.Named? && s.At(s.lock.owner.pid).Dead?))
  {
    assert steps[k - 1] == CheckStale(p);
    assert states[k] == Apply(c, states[k - 1], steps[k - 1]);
  }

  // ----- the files, in every interleaving -----

  /** What a process inside the section has already made true of the files. */
  ghost predicate Prepared(c: Config, fs: Files, phase: Phase) {
    match phase
    case Dropping(r) => fs.active.Some? && Size(fs.active.value) + |r| > c.maximumBytes
    case Shifting(_, g) => fs.active.Some? && g < c.generations && g + 1 !in fs.older
    case Opening(r) => fs.active.Some? ==> Size(fs.active.value) + |r| <= c.maximumBytes
    case Writing(r) => fs.active.Some? && (fs.active.value == [] || Size(fs.active.value) + |r| <= c.maximumBytes)
    case _ => true
  }

  ghost predicate FilesSafe(c: Config, s: State) {
    && WellFormed(c, s.files)
    && IsSuffix(Window(c, s.files), s.history)
    && forall p :: InSection(s.At(p)) ==> Prepared(c, s.files, s.At(p))
  }

  /** A rename whose target is an existing generation. */
  ghost predicate Overwrites(s: State, step: Step)
    requires Enabled(s, step)
  {
    step.Shift? && (var g := s.At(step.p).g; (g == 0 || g in s.files.older) && g + 1 in s.files.older)
  }

  /** The appended record is the new end of the window. */
  lemma WriteWindow(c: Config, s: State, p: Pid)
    requires FilesSafe(c, s) && s.At(p).Writing?
    ensures var fs := WriteRecord(s.files, s.At(p).r);
            WellFormed(c, fs) && IsSuffix(Window(c, fs), s.history + [s.At(p).r])
  {
    var r := s.At(p).r;
    var fs := WriteRecord(s.files, r);
    OlderFrame(s.files, fs, c.generations);
    assert Window(c, fs) == Window(c, s.files) + [r];
    var f := s.files.active.value;
    assert (f + [r])[..|f|] == f && (f + [r])[|f|] == r;
    assert Size(f + [r]) == Size(f) + |r|;
  }

  lemma DropKeepsSuffix(c: Config, fs: Files, history: File)
    requires c.Valid() && IsSuffix(Window(c, fs), history)
    ensures IsSuffix(Window(c, DropOldest(c, fs)), history)
  {
    DropOldestWindow(c, fs);
  }

  lemma ShiftKeepsWindow(c: Config, fs: Files, phase: Phase)
    requires c.Valid() && phase.Shifting? && Prepared(c, fs, phase)
    ensures Window(c, if phase.g == 0 then RotateActive(fs) else ShiftOne(fs, phase.g)) == Window(c, fs)
  {
    if phase.g == 0 {
      RotateActiveOlder(fs, c.generations);
    } else {
      ShiftOneOlder(fs, phase.g, c.generations);
    }
  }

  lemma OpenKeepsWindow(c: Config, fs: Files)
    ensures Window(c, OpenActive(fs)) == Window(c, fs)
  {
    OlderFrame(fs, OpenActive(fs), c.generations);
  }

  lemma {:induction false} ShiftFromKeepsWindow(c: Config, fs: Files, g: nat)
    requires c.Valid() && fs.active.Some? && g < c.generations && g + 1 !in fs.older
    ensures Window(c, ShiftFrom(fs, g)) == Window(c, fs)
    decreases g
  {
    if g == 0 {
      RotateActiveOlder(fs, c.generations);
    } else {
      ShiftOneOlder(fs, g, c.generations);
      ShiftFromKeepsWindow(c, ShiftOne(fs, g), g - 1);
    }
  }

  /** What one whole append loses: the oldest generation when it has to rotate, and nothing
      otherwise. */
  lemma AppendedWindow(c: Config, fs: Files, r: Record)
    requires c.Valid()
    ensures Window(c, Appended(c, fs, r))
         == Window(c, if NeedsRotation(c, fs, |r|) then DropOldest(c, fs) else fs) + [r]
  {
    if NeedsRotation(c, fs, |r|) { ShiftFromKeepsWindow(c, DropOldest(c, fs), c.generations - 1); }
    var rotated := Rotated(c, fs, |r|);
    OpenKeepsWindow(c, rotated);
    OlderFrame(OpenActive(rotated), Appended(c, fs, r), c.generations);
  }

  /** The record can be added to the active file, if there is one, within the limit. */
  ghost predicate Fits(c: Config, fs: Files, r: Record) {
    fs.active.Some? ==> Size(fs.active.value) + |r| <= c.maximumBytes
  }

  /** Records are only lost when the active file and the record together exceed the limit,
      and then exactly those of the oldest generation. */
  lemma AppendLosesExactly(c: Config, fs: Files, r: Record)
    requires c.generations >= 1
    ensures var after := Appended(c, fs, r);
            && (Fits(c, fs, r) ==> after.older == fs.older && Window(c, after) == Window(c, fs) + [r]
                                   && after.active == Some(Contents(fs.active) + [r]))
            && (!Fits(c, fs, r) ==> Window(c, fs) + [r] == Generation(fs, c.generations) + Window(c, after)
                                    && after.active == Some([r]))
  {
    AppendedWindow(c, fs, r);
    if !Fits(c, fs, r) {
      DropOldestWindow(c, fs);
      ShiftFromEmptiesActive(DropOldest(c, fs), c.generations - 1);
      Regroup(Generation(fs, c.generations), Window(c, DropOldest(c, fs)), [r]);
      assert [] + [r] == [r];
    }
  }

  lemma {:induction false} ShiftFromEmptiesActive(fs: Files, g: nat)
    requires fs.active.Some?
    ensures ShiftFrom(fs, g).active == None
    decreases g
  {
    if g > 0 { ShiftFromEmptiesActive(ShiftOne(fs, g), g - 1); }
  }

  /** Generation `g`, if there is one. */
  function Slot(fs: Files, g: nat): Option<File> {
    if g in fs.older then Some(fs.older[g]) else None
  }

  lemma {:induction false} ShiftFromSlot(fs: Files, g: nat, k: nat)
    requires fs.active.Some? && g + 1 !in fs.older && k >= 1
    ensures Slot(ShiftFrom(fs, g), k)
         == if k == 1 then fs.active else if k <= g + 1 then Slot(fs, k - 1) else Slot(fs, k)
    decreases g
  {
    if g > 0 { ShiftFromSlot(ShiftOne(fs, g), g - 1, k); }
  }

  /** A rotation moves every file up by one generation, the active one to generation 1. */
  lemma RotationMovesUp(c: Config, fs: Files, r: Record)
    requires c.generations >= 1 && !Fits(c, fs, r)
    ensures var after := Appended(c, fs, r);
            && Slot(after, 1) == fs.active
            && forall k: nat :: 1 <= k < c.generations ==> Slot(after, k + 1) == Slot(fs, k)
  {
    var dropped, g := DropOldest(c, fs), c.generations - 1;
    ShiftFromSlot(dropped, g, 1);
    forall k: nat | 1 <= k < c.generations ensures Slot(Appended(c, fs, r), k + 1) == Slot(fs, k) {
      ShiftFromSlot(dropped, g, k + 1);
    }
  }

  ghost predicate TouchesFiles(step: Step) {
    step.Drop? || step.Shift? || step.Open? || step.Write?
  }

  /** While `p` holds the lock, no step of another process changes the files. */
  lemma Isolation(c: Config, s: State, step: Step, p: Pid)
    requires c.Valid() && Enabled(s, step) && LockInPlace(s) && Holding(s.At(p))
    ensures step.Tick? || step.p == p || (!TouchesFiles(step)
            && Apply(c, s, step).files == s.files && Apply(c, s, step).history == s.history)
  {
  }

  lemma StepKeepsWindow(c: Config, s: State, step: Step)
    requires c.Valid() && Enabled(s, step) && FilesSafe(c, s)
    ensures var after := Apply(c, s, step);
            WellFormed(c, after.files) && IsSuffix(Window(c, after.files), after.history)
  {
    match step {
      case Drop(p) => DropKeepsSuffix(c, s.files, s.history);
      case Shift(p) => ShiftKeepsWindow(c, s.files, s.At(p));
      case Open(p) => OpenKeepsWindow(c, s.files);
      case Write(p) => WriteWindow(c, s, p);
      case _ =>
    }
  }

  lemma OwnStepPrepares(c: Config, s: State, step: Step)
    requires c.Valid() && Enabled(s, step) && FilesSafe(c, s) && !step.Tick?
    requires InSection(Apply(c, s, step).At(step.p))
    ensures var after := Apply(c, s, step); Prepared(c, after.files, after.At(step.p))
  {
    assert InSection(s.At(step.p)) || step.WriteOwner?;
  }

  lemma StepKeepsFilesSafe(c: Config, s: State, step: Step)
    requires c.Valid() && Enabled(s, step) && LockInPlace(s) && FilesSafe(c, s)
    ensures FilesSafe(c, Apply(c, s, step)) && !Overwrites(s, step)
  {
    var after := Apply(c, s, step);
    StepKeepsWindow(c, s, step);
    forall p | InSection(after.At(p)) ensures Prepared(c, after.files, after.At(p)) {
      if !step.Tick? && step.p == p {
        OwnStepPrepares(c, s, step);
      } else {
        assert after.At(p) == s.At(p) && InSection(s.At(p));
        Isolation(c, s, step, p);
      }
    }
    if step.Shift? { assert InSection(s.At(step.p)); }
  }

  /** At every point of every run whose recoveries are atomic, mid-rotation and after any
      crash included: what the files hold, oldest generation first, is a suffix of all records ever written;
      every file is within the limit or holds a single record; and the next rename, if
      there is one, overwrites nothing. */
  lemma {:induction false} FilesAreAlwaysAWindow(c: Config, states: seq<State>, steps: seq<Step>, n: nat)
    requires IsRun(c, states, steps) && AtomicRecovery(steps) && n < |states|
    ensures FilesSafe(c, states[n])
    ensures n < |steps| ==> !Overwrites(states[n], steps[n])
  {
    if n == 0 {
      OlderFrame(NO_FILES, NO_FILES, c.generations);
      EmptyWindow(c.generations);
    } else {
      FilesAreAlwaysAWindow(c, states, steps, n - 1);
      AtomicRunsKeepLockInPlace(c, states, steps, n);
      StepKeepsFilesSafe(c, states[n - 1], steps[n - 1]);
    }
    if n < |steps| {
      AtomicRunsKeepLockInPlace(c, states, steps, n);
      StepKeepsFilesSafe(c, states[n], steps[n]);
    }
  }

  /** In such runs a generation is unlinked only while the record being appended does not
      fit beside the active file. */
  lemma DropOnlyWhenFull(c: Config, states: seq<State>, steps: seq<Step>, k: nat, p: Pid)
    requires IsRun(c, states, steps) && AtomicRecovery(steps) && k < |steps| && steps[k] == Drop(p)
    ensures states[k].At(p).Dropping? && !Fits(c, states[k].files, states[k].At(p).r)
  {
    FilesAreAlwaysAWindow(c, states, steps, k);
    assert InSection(states[k].At(p));
  }

  lemma {:induction false} EmptyWindow(n: nat)
    ensures Older(NO_FILES, n) == []
  {
    if n > 0 { EmptyWindow(n - 1); }
  }

  // ----- the interleaved protocol refines one append at a time -----

  /** The files once the append that stands at `phase` has run to its end. */
  function Finished(c: Config, fs: Files, phase: Phase): Files
    requires c.Valid() && InSection(phase)
  {
    match phase
    case Sizing(r) => Appended(c, fs, r)
    case Dropping(r) => WriteRecord(OpenActive(ShiftFrom(DropOldest(c, fs), c.generations - 1)), r)
    case Shifting(r, g) => WriteRecord(OpenActive(ShiftFrom(fs, g)), r)
    case Opening(r) => WriteRecord(OpenActive(fs), r)
    case Writing(r) => WriteRecord(fs, r)
  }

  lemma OwnStepKeepsFinished(c: Config, s: State, step: Step, p: Pid)
    requires c.Valid() && Enabled(s, step) && InSection(s.At(p)) && (step.Tick? || step.p == p)
    requires InSection(Apply(c, s, step).At(p))
    ensures var after := Apply(c, s, step);
            && after.At(p).r == s.At(p).r && after.history == s.history
            && Finished(c, after.files, after.At(p)) == Finished(c, s.files, s.At(p))
  {
  }

  /** As long as a process stays inside the section, no step of anyone changes what its
      append will have done to the files. */
  lemma StepKeepsFinished(c: Config, s: State, step: Step, p: Pid)
    requires c.Valid() && Enabled(s, step) && LockInPlace(s) && InSection(s.At(p))
    requires InSection(Apply(c, s, step).At(p))
    ensures var after := Apply(c, s, step);
            && after.At(p).r == s.At(p).r && after.history == s.history
            && Finished(c, after.files, after.At(p)) == Finished(c, s.files, s.At(p))
  {
    if step.Tick? || step.p == p {
      OwnStepKeepsFinished(c, s, step, p);
    } else {
      Isolation(c, s, step, p);
      assert Apply(c, s, step).At(p) == s.At(p);
    }
  }

  lemma EntersByAcquiring(c: Config, s: State, step: Step, p: Pid)
    requires c.Valid() && Enabled(s, step) && InSection(Apply(c, s, step).At(p))
    ensures InSection(s.At(p)) || (step == WriteOwner(p) && Apply(c, s, step).At(p).Sizing?)
  {
  }

  /** A process inside the section got there by acquiring the lock at some point `i`;
      finishing from here leaves exactly what the whole append does to the files of `i`. */
  lemma {:induction false} SectionRefinesAppend(c: Config, states: seq<State>, steps: seq<Step>, k: nat, p: Pid)
    returns (i: nat)
    requires IsRun(c, states, steps) && AtomicRecovery(steps) && k < |states| && InSection(states[k].At(p))
    ensures 0 < i <= k && steps[i - 1] == WriteOwner(p)
    ensures forall m :: i <= m <= k ==> InSection(states[m].At(p))
    ensures states[i].history == states[k].history
    ensures Finished(c, states[k].files, states[k].At(p)) == Appended(c, states[i].files, states[k].At(p).r)
  {
    assert k > 0;
    EntersByAcquiring(c, states[k - 1], steps[k - 1], p);
    if !InSection(states[k - 1].At(p)) {
      i := k;
    } else {
      i := SectionRefinesAppend(c, states, steps, k - 1, p);
      AtomicRunsKeepLockInPlace(c, states, steps, k - 1);
      StepKeepsFinished(c, states[k - 1], steps[k - 1], p);
    }
  }

  /** Process `p` acquired the lock on reaching point `i`, stayed in the section, and writes
      its record at step `k`. */
  ghost predicate IsSection(states: seq<State>, steps: seq<Step>, i: nat, k: nat, p: Pid) {
    && 0 < i <= k < |steps| < |states|
    && steps[i - 1] == WriteOwner(p) && steps[k] == Write(p)
    && forall m :: i <= m <= k ==> InSection(states[m].At(p))
  }

  /** Every completed append of every run whose recoveries are atomic is one atomic append:
      between acquiring the lock at `i` and writing the record, the files go from those of
      `i` to exactly what `Journal.Append` makes of them, and the history grows by that one
      record. */
  lemma CompletedAppendsAreSerial(c: Config, states: seq<State>, steps: seq<Step>, k: nat, p: Pid) returns (i: nat)
    requires IsRun(c, states, steps) && AtomicRecovery(steps) && k < |steps| && steps[k] == Write(p)
    ensures IsSection(states, steps, i, k, p)
    ensures var r := states[k].At(p).r;
            && states[k + 1].files == Appended(c, states[i].files, r)
            && states[k + 1].history == states[i].history + [r]
  {
    i := SectionRefinesAppend(c, states, steps, k, p);
    assert states[k + 1] == Apply(c, states[k], steps[k]);
  }

  /** When a record has just been written, nobody is in the section. */
  lemma WriteEmptiesSection(c: Config, states: seq<State>, steps: seq<Step>, k: nat, p: Pid, q: Pid)
    requires IsRun(c, states, steps) && AtomicRecovery(steps) && k < |steps| && steps[k] == Write(p)
    ensures !InSection(states[k + 1].At(q))
  {
    AtomicRunsExclude(c, states, steps, k);
    var s := states[k];
    assert states[k + 1] == Apply(c, s, steps[k]);
    assert Holding(s.At(p)) && (Holding(s.At(q)) ==> q == p);
  }

  /** The completed appends of such a run follow one another: the later one acquires the
      lock only after the earlier one has written. */
  lemma SectionsDoNotOverlap(
    c: Config, states: seq<State>, steps: seq<Step>, i1: nat, k1: nat, p1: Pid, i2: nat, k2: nat, p2: Pid)
    requires IsRun(c, states, steps) && AtomicRecovery(steps) && k1 < k2
    requires IsSection(states, steps, i1, k1, p1) && IsSection(states, steps, i2, k2, p2)
    ensures k1 < i2
  {
    WriteEmptiesSection(c, states, steps, k1, p1, p2);
    assert !InSection(states[k1 + 1].At(p2));
  }

  // ----- states that can follow -----

  /** Some trace goes from `s` to `t`. */
  ghost predicate Leads(c: Config, s: State, t: State) {
    exists states, steps :: IsTrace(c, states, steps) && states[0] == s && states[|steps|] == t
  }

  ghost predicate Reachable(c: Config, s: State) {
    Leads(c, INITIAL, s)
  }

  lemma LeadsNowhere(c: Config, s: State)
    requires c.Valid()
    ensures Leads(c, s, s)
  {
    assert IsTrace(c, [s], []) && [s][0] == s;
  }

  lemma Extend(c: Config, s: State, t: State, step: Step)
    requires Leads(c, s, t) && Enabled(t, step)
    ensures c.Valid() && Leads(c, s, Apply(c, t, step))
  {
    var states, steps :| IsTrace(c, states, steps) && states[0] == s && states[|steps|] == t;
    var states', steps' := states + [Apply(c, t, step)], steps + [step];
    assert IsTrace(c, states', steps') && states'[0] == s && states'[|steps'|] == Apply(c, t, step);
  }

  // ----- what the steps do to processes and to the lock -----

  /** Every process starts idle, and only a crash kills one. */
  lemma OnlyCrashesKill(c: Config, s: State, step: Step, p: Pid)
    requires c.Valid() && Enabled(s, step)
    ensures INITIAL.At(p) == Idle && INITIAL.lock == Free
    ensures Apply(c, s, step).At(p).Dead? <==> step == Crash(p) || (s.At(p).Dead? && !(step.Start? && step.p == p))
  {
  }

  /** The owner file is created exclusively: who made the directory either creates it or
      finds it there. */
  lemma OwnerFileIsExclusive(s: State, p: Pid)
    requires s.At(p).Made? && s.lock.Dir?
    ensures Enabled(s, OpenOwner(p)) <==> s.lock.owner == Nobody
    ensures Enabled(s, OwnerExists(p)) <==> s.lock.owner != Nobody
  {
  }

  /** Only making the directory lets a lock appear, empty and new; only its creator names
      itself in it; and its time is that of the last change of its entries. */
  lemma LockChanges(c: Config, s: State, step: Step)
    requires c.Valid() && Enabled(s, step)
    ensures var after := Apply(c, s, step);
            && (s.lock.Free? && after.lock.Dir? ==> step.Mkdir? && after.lock == Dir(Nobody, s.now))
            && (s.lock.Dir? && after.lock.Dir? ==>
                  && (after.lock.owner.Named? && after.lock.owner != s.lock.owner ==>
                        step == WriteOwner(after.lock.owner.pid) && s.lock.owner == Unreadable(step.p))
                  && (after.lock.mtime
                      == if s.lock.owner.Nobody? != after.lock.owner.Nobody? then s.now else s.lock.mtime))
  {
  }

  /** The owner file as its writer left it. */
  ghost predicate Signed(s: State) {
    forall p :: (s.At(p).Opened? ==> s.lock.Dir? && s.lock.owner == Unreadable(p))
                && (InSection(s.At(p)) ==> s.lock.Dir? && s.lock.owner == Named(p))
  }

  lemma StepKeepsSigned(c: Config, s: State, step: Step)
    requires c.Valid() && Enabled(s, step) && LockInPlace(s) && Signed(s) && !Steals(s, step)
    ensures Signed(Apply(c, s, step))
  {
    var after := Apply(c, s, step);
    forall p | after.At(p).Opened? || InSection(after.At(p))
      ensures after.lock.Dir?
      ensures after.At(p).Opened? ==> after.lock.owner == Unreadable(p)
      ensures InSection(after.At(p)) ==> after.lock.owner == Named(p)
    {
      assert Holding(s.At(p)) || step == OpenOwner(p);
      if !step.Tick? { assert Holding(s.At(step.p)) && Holding(s.At(p)) ==> p == step.p; }
    }
  }

  /** In runs whose recoveries are atomic, the lock names the process in the section. */
  lemma {:induction false} SectionIsNamed(c: Config, states: seq<State>, steps: seq<Step>, n: nat)
    requires IsRun(c, states, steps) && AtomicRecovery(steps) && n <= |steps|
    ensures Signed(states[n])
  {
    if n > 0 {
      SectionIsNamed(c, states, steps, n - 1);
      AtomicRunsKeepLockInPlace(c, states, steps, n);
      StepKeepsLockInPlace(c, states[n - 1], steps[n - 1]);
      assert states[n] == Apply(c, states[n - 1], steps[n - 1]);
      StepKeepsSigned(c, states[n - 1], steps[n - 1]);
    }
  }

  // ----- an append that nobody disturbs -----

  /** `t` is `s` at the same time, but for the phase of `p`. */
  ghost predicate Beside(s: State, t: State, p: Pid, phase: Phase) {
    && t.now == s.now && t.files == s.files && t.history == s.history && t.At(p) == phase
    && forall q :: q != p ==> t.At(q) == s.At(q)
  }

  /** Whoever holds the lock can give up at once, whatever fails: the lock is free again and
      nothing else has changed. */
  lemma FailureReleases(c: Config, s: State, p: Pid) returns (t: State)
    requires c.Valid() && Holding(s.At(p)) && LockInPlace(s)
    ensures Leads(c, s, t) && t.lock == Free && Beside(s, t, p, Idle)
  {
    LeadsNowhere(c, s);
    t := s;
    if t.At(p).Opened? {
      Extend(c, s, t, OwnerWriteFails(p));
      t := Apply(c, t, OwnerWriteFails(p));
    } else if InSection(t.At(p)) {
      Extend(c, s, t, Fail(p));
      t := Apply(c, t, Fail(p));
    }
    t := Releases(c, s, t, p);
  }

  lemma Releases(c: Config, s: State, t: State, p: Pid) returns (u: State)
    requires Leads(c, s, t) && t.At(p).Unlinking? && t.lock.Dir? && !t.lock.owner.Nobody?
    ensures Leads(c, s, u) && u.lock == Free && Beside(t, u, p, Idle)
  {
    Extend(c, s, t, UnlinkOwner(p));
    u := Apply(c, t, UnlinkOwner(p));
    Extend(c, s, u, RemoveDir(p));
    u := Apply(c, u, RemoveDir(p));
  }

  /** A process, new or started again after a crash, that nobody disturbs takes the free
      lock, ... */
  lemma Acquires(c: Config, s: State, p: Pid, r: Record) returns (t: State)
    requires c.Valid() && s.lock.Free? && (s.At(p).Idle? || s.At(p).Dead?)
    ensures Leads(c, s, t) && Beside(s, t, p, Sizing(r)) && t.lock.Dir? && t.lock.owner == Named(p)
  {
    LeadsNowhere(c, s);
    Extend(c, s, s, Start(p, r));
    t := Apply(c, s, Start(p, r));
    Extend(c, s, t, Mkdir(p));
    t := Apply(c, t, Mkdir(p));
    Extend(c, s, t, OpenOwner(p));
    t := Apply(c, t, OpenOwner(p));
    Extend(c, s, t, WriteOwner(p));
    t := Apply(c, t, WriteOwner(p));
  }

  /** ... goes through rotation to the write, ... */
  lemma {:induction false} Finishes(c: Config, s: State, t: State, p: Pid) returns (u: State)
    requires Leads(c, s, t) && InSection(t.At(p))
    ensures c.Valid() && Leads(c, s, u) && u.At(p).Unlinking? && u.lock == t.lock && u.now == t.now
    ensures u.files == Finished(c, t.files, t.At(p)) && u.history == t.history + [t.At(p).r]
    ensures forall q :: q != p ==> u.At(q) == t.At(q)
    decreases Remaining(c, t.At(p))
  {
    var step := NextStep(t, p);
    Extend(c, s, t, step);
    u := Apply(c, t, step);
    if !step.Write? {
      OwnStepKeepsFinished(c, t, step, p);
      var next := u;
      u := Finishes(c, s, next, p);
    }
  }

  function NextStep(s: State, p: Pid): (step: Step)
    requires InSection(s.At(p))
    ensures Enabled(s, step)
  {
    match s.At(p)
    case Sizing(_) => Measure(p)
    case Dropping(_) => Drop(p)
    case Shifting(_, _) => Shift(p)
    case Opening(_) => Open(p)
    case Writing(_) => Write(p)
  }

  function Remaining(c: Config, phase: Phase): nat {
    match phase
    case Sizing(_) => c.generations + 4
    case Dropping(_) => c.generations + 3
    case Shifting(_, g) => g + 2
    case Opening(_) => 1
    case _ => 0
  }

  /** ... and releases the lock: from a free lock to a free lock, without any time passing,
      one append has been made and nothing else has changed. */
  lemma UndisturbedAppend(c: Config, s: State, p: Pid, r: Record) returns (t: State)
    requires c.generations >= 1 && s.lock.Free? && (s.At(p).Idle? || s.At(p).Dead?)
    ensures Leads(c, s, t) && t.lock == Free && t.now == s.now
    ensures t.files == Appended(c, s.files, r) && t.history == s.history + [r]
    ensures t.At(p) == Idle && forall q :: q != p ==> t.At(q) == s.At(q)
  {
    t := Acquires(c, s, p, r);
    t := Finishes(c, s, t, p);
    t := Releases(c, s, t, p);
  }

  // ----- exactly which recoveries break exclusion -----

  /** `step` and then anything, as long as every later recovery is atomic, leaves at most
      one process holding the lock at every point. */
  ghost predicate StaysExclusive(c: Config, s: State, step: Step) {
    forall states, steps ::
      IsTrace(c, states, steps) && states[0] == s && steps != [] && steps[0] == step && LaterRecoveriesAtomic(steps)
      ==> forall n :: 0 <= n < |states| ==> MutualExclusion(states[n])
  }

  /** After a theft the thief can acquire the lock at once, beside its live holder. */
  lemma TheftEndsInTwoHolders(c: Config, s: State, step: Step)
    requires c.Valid() && Enabled(s, step) && Steals(s, step)
    ensures !StaysExclusive(c, s, step)
  {
    var p :| Holding(s.At(p));
    var q := step.p;
    var s1 := Apply(c, s, step);
    var s2 := Apply(c, s1, Mkdir(q));
    var s3 := Apply(c, s2, OpenOwner(q));
    var states, steps := [s, s1, s2, s3], [step, Mkdir(q), OpenOwner(q)];
    assert IsTrace(c, states, steps) && LaterRecoveriesAtomic(steps);
    assert Holding(states[3].At(p)) && Holding(states[3].At(q)) && p != q;
  }

  /** From a state in which every holder owns the lock: exclusion survives a step and every
      continuation whose later recoveries are atomic, exactly when the step is not the
      rename of a live holder's lock. */
  lemma ExclusiveExactly(c: Config, s: State, step: Step)
    requires c.Valid() && Enabled(s, step) && LockInPlace(s)
    ensures StaysExclusive(c, s, step) <==> !Steals(s, step)
  {
    if Steals(s, step) {
      TheftEndsInTwoHolders(c, s, step);
    } else {
      forall states, steps | IsTrace(c, states, steps) && states[0] == s && steps != [] && steps[0] == step
                             && LaterRecoveriesAtomic(steps)
        ensures forall n :: 0 <= n < |states| ==> MutualExclusion(states[n])
      {
        AtomicTracesKeepLockInPlace(c, states, steps, |steps|);
      }
    }
  }

  // ----- what recovery does not recover -----

  /** The owner file exists but was never written, and its creator is gone. */
  ghost predicate Wedged(s: State) {
    && s.lock.Dir? && s.lock.owner.Unreadable?
    && forall p :: !Holding(s.At(p)) && !s.At(p).Detaching?
  }

  /** From then on, whatever processes do and however long they wait, the lock stays and no
      record is written. */
  lemma {:induction false} WedgedForever(c: Config, states: seq<State>, steps: seq<Step>, k: nat, n: nat)
    requires IsTrace(c, states, steps) && k <= n < |states| && Wedged(states[k])
    ensures Wedged(states[n]) && states[n].lock == states[k].lock
    ensures states[n].files == states[k].files && states[n].history == states[k].history
  {
    if n > k {
      WedgedForever(c, states, steps, k, n - 1);
      var s, after := states[n - 1], states[n];
      assert after == Apply(c, s, steps[n - 1]);
      assert !steps[n - 1].Tick? ==> !Holding(s.At(steps[n - 1].p)) && !s.At(steps[n - 1].p).Detaching?;
      forall p ensures !Holding(after.At(p)) && !after.At(p).Detaching? {
        assert !Holding(s.At(p)) && !s.At(p).Detaching?;
      }
    }
  }

  /** A crash between creating and writing the owner file gets there. */
  lemma CrashWedges(c: Config) returns (s: State)
    requires c.Valid()
    ensures Reachable(c, s) && Wedged(s)
  {
    s := INITIAL;
    LeadsNowhere(c, s);
    Extend(c, INITIAL, s, Start(1, "a")); s := Apply(c, s, Start(1, "a"));
    Extend(c, INITIAL, s, Mkdir(1)); s := Apply(c, s, Mkdir(1));
    Extend(c, INITIAL, s, OpenOwner(1)); s := Apply(c, s, OpenOwner(1));
    Extend(c, INITIAL, s, Crash(1)); s := Apply(c, s, Crash(1));
  }

  /** Some continuation of `s` writes a record. */
  ghost predicate CanWrite(c: Config, s: State) {
    exists t :: Leads(c, s, t) && |t.history| > |s.history|
  }

  /** `t` can follow `s`, and nothing is lost from the history on the way. */
  ghost predicate OnTheWay(c: Config, s: State, t: State) {
    Leads(c, s, t) && |t.history| >= |s.history|
  }

  lemma Take(c: Config, s: State, t: State, step: Step) returns (after: State)
    requires OnTheWay(c, s, t) && Enabled(t, step)
    ensures c.Valid() && after == Apply(c, t, step) && OnTheWay(c, s, after)
  {
    Extend(c, s, t, step);
    after := Apply(c, t, step);
  }

  lemma OpeningWrites(c: Config, s: State, t: State, p: Pid)
    requires OnTheWay(c, s, t) && (t.At(p).Opening? || t.At(p).Writing?)
    ensures CanWrite(c, s)
  {
    var u := t;
    if t.At(p).Opening? { u := Take(c, s, t, Open(p)); }
    u := Take(c, s, u, Write(p));
  }

  lemma {:induction false} ShiftingWrites(c: Config, s: State, t: State, p: Pid)
    requires OnTheWay(c, s, t) && t.At(p).Shifting?
    ensures CanWrite(c, s)
    decreases t.At(p).g
  {
    var u := Take(c, s, t, Shift(p));
    if t.At(p).g == 0 { OpeningWrites(c, s, u, p); } else { ShiftingWrites(c, s, u, p); }
  }

  /** A process in the section can go on to write its record. */
  lemma SectionWrites(c: Config, s: State, t: State, p: Pid)
    requires OnTheWay(c, s, t) && InSection(t.At(p))
    ensures CanWrite(c, s)
  {
    var u := t;
    if u.At(p).Sizing? { u := Take(c, s, u, Measure(p)); }
    if u.At(p).Dropping? { u := Take(c, s, u, Drop(p)); }
    if u.At(p).Shifting? { ShiftingWrites(c, s, u, p); } else { OpeningWrites(c, s, u, p); }
  }

  /** A waiting process can acquire a free lock and write. */
  lemma WaitingWrites(c: Config, s: State, t: State, p: Pid)
    requires OnTheWay(c, s, t) && t.lock.Free? && t.At(p).Waiting?
    ensures CanWrite(c, s)
  {
    var u := Take(c, s, t, Mkdir(p));
    u := Take(c, s, u, OpenOwner(p));
    u := Take(c, s, u, WriteOwner(p));
    SectionWrites(c, s, u, p);
  }

  /** A process that is not in the table yet. */
  lemma FreshProcess(t: State, other: Pid) returns (p: Pid)
    ensures p !in t.procs && p != other
  {
    p := Beyond(t.procs.Keys + {other});
  }

  lemma {:induction false} Beyond(pids: set<Pid>) returns (p: Pid)
    ensures forall q :: q in pids ==> q < p
    decreases |pids|
  {
    if pids == {} {
      p := 0;
    } else {
      var q :| q in pids;
      var rest := Beyond(pids - {q});
      p := if q < rest then rest else q + 1;
      assert forall x :: x in pids ==> x == q || x in pids - {q};
    }
  }

  /** An empty lock, or one that names its owner, can be recovered once the owner is gone. */
  lemma RecoveryWrites(c: Config, s: State, t: State)
    requires OnTheWay(c, s, t) && t.lock.Dir? && !t.lock.owner.Unreadable?
    ensures CanWrite(c, s)
  {
    var u := t;
    var owner: Pid := if t.lock.owner.Named? then t.lock.owner.pid else 0;
    if t.lock.owner.Named? && !t.At(owner).Dead? { u := Take(c, s, u, Crash(owner)); }
    var age := u.now - u.lock.mtime;
    var wait: nat := if age >= STALE_LOCK_SECONDS then 0 else STALE_LOCK_SECONDS - age;
    u := Take(c, s, u, Tick(wait));
    var p := FreshProcess(u, owner);
    u := Take(c, s, u, Start(p, ""));
    u := Take(c, s, u, CheckStale(p));
    u := Take(c, s, u, Detach(p));
    WaitingWrites(c, s, u, p);
  }

  lemma FreeLockWrites(c: Config, s: State, t: State)
    requires OnTheWay(c, s, t) && t.lock.Free?
    ensures CanWrite(c, s)
  {
    var p := FreshProcess(t, 0);
    var u := Take(c, s, t, Start(p, ""));
    WaitingWrites(c, s, u, p);
  }

  /** A process about to rename the lock away, or holding it, opens a way to write. */
  lemma BusyWrites(c: Config, s: State, t: State, p: Pid)
    requires OnTheWay(c, s, t) && t.lock.Dir? && t.lock.owner.Unreadable? && (Holding(t.At(p)) || t.At(p).Detaching?)
    ensures CanWrite(c, s)
  {
    if t.At(p).Detaching? {
      var u := Take(c, s, t, Detach(p));
      WaitingWrites(c, s, u, p);
    } else if t.At(p).Unlinking? {
      var u := Take(c, s, t, UnlinkOwner(p));
      RecoveryWrites(c, s, u);
    } else {
      var u := t;
      if t.At(p).Opened? { u := Take(c, s, t, WriteOwner(p)); }
      SectionWrites(c, s, u, p);
    }
  }

  /** From any state, some continuation writes a record exactly when the journal is not
      wedged.  The code leaves a wedged lock for a human to inspect. */
  lemma WritableExactly(c: Config, s: State)
    requires c.Valid()
    ensures CanWrite(c, s) <==> !Wedged(s)
  {
    LeadsNowhere(c, s);
    if Wedged(s) {
      forall t | Leads(c, s, t) ensures t.history == s.history {
        var states, steps :| IsTrace(c, states, steps) && states[0] == s && states[|steps|] == t;
        WedgedForever(c, states, steps, 0, |steps|);
      }
    } else if s.lock.Free? {
      FreeLockWrites(c, s, s);
    } else if !s.lock.owner.Unreadable? {
      RecoveryWrites(c, s, s);
    } else {
      var p :| Holding(s.At(p)) || s.At(p).Detaching?;
      BusyWrites(c, s, s, p);
    }
  }

  // ----- recovery that is not atomic -----

  /** After a process died with an empty lock directory, two others have judged that
      directory stale. */
  lemma BothJudgeStale(c: Config) returns (s: State)
    requires c.Valid()
    ensures Reachable(c, s) && s.At(2) == Detaching("b") && s.At(3) == Detaching("c")
  {
    s := INITIAL;
    LeadsNowhere(c, s);
    Extend(c, INITIAL, s, Start(1, "a")); s := Apply(c, s, Start(1, "a"));
    Extend(c, INITIAL, s, Mkdir(1)); s := Apply(c, s, Mkdir(1));
    Extend(c, INITIAL, s, Crash(1)); s := Apply(c, s, Crash(1));
    Extend(c, INITIAL, s, Tick(60)); s := Apply(c, s, Tick(60));
    Extend(c, INITIAL, s, Start(2, "b")); s := Apply(c, s, Start(2, "b"));
    Extend(c, INITIAL, s, Start(3, "c")); s := Apply(c, s, Start(3, "c"));
    Extend(c, INITIAL, s, CheckStale(2)); s := Apply(c, s, CheckStale(2));
    Extend(c, INITIAL, s, CheckStale(3)); s := Apply(c, s, CheckStale(3));
  }

  /** A process about to rename a stale lock away can go on to hold the lock itself. */
  lemma DetachAndAcquire(c: Config, s: State, p: Pid) returns (after: State)
    requires c.Valid() && Reachable(c, s) && s.At(p).Detaching?
    ensures Reachable(c, after) && after.At(p).Opened?
    ensures forall q :: q != p ==> after.At(q) == s.At(q)
  {
    Extend(c, INITIAL, s, Detach(p));
    var s1 := Apply(c, s, Detach(p));
    Extend(c, INITIAL, s1, Mkdir(p));
    var s2 := Apply(c, s1, Mkdir(p));
    Extend(c, INITIAL, s2, OpenOwner(p));
    after := Apply(c, s2, OpenOwner(p));
  }

  /** When other processes may act between the staleness check and the rename, two
      processes can hold the lock at once: the second rename takes away the lock that
      the first recoverer made. */
  lemma SplitRecoveryBreaksExclusion(c: Config) returns (s: State)
    requires c.Valid()
    ensures Reachable(c, s) && !MutualExclusion(s)
  {
    s := BothJudgeStale(c);
    s := DetachAndAcquire(c, s, 3);
    s := DetachAndAcquire(c, s, 2);
    assert Holding(s.At(2)) && Holding(s.At(3));
  }
}

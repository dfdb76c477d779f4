/**
  How both flight applications replace a state file: open a temporary file for truncation, write, sync
  and close it, rename it over the target, sync the directory.  Every step can fail, and power can be
  lost between any two of them.
 */
module AtomicFile {
  import opened Bytes

  /** `target` is what a reader finds now, `durable` what it finds after a loss of power that undoes a
      rename not yet synced, and `temp` the temporary file. */
  datatype Disk = Disk(target: Option<seq<byte>>, durable: Option<seq<byte>>, temp: Option<seq<byte>>)

  /** How far the current save has come. */
  datatype Saver = Idle | Opened(data: seq<byte>) | Written(data: seq<byte>) | Renamed

  datatype System = System(disk: Disk, saver: Saver)

  datatype Step =
    | Start(data: seq<byte>)          // the temporary file opens, empty
    | OpenFails
    | Write(n: nat)                   // `n` bytes reach the file; fewer than all end the save
    | Rename
    | RenameFails
    | SyncDirectory                   // the rename becomes durable, and the save ends
    | SkipSync                        // the directory cannot be opened; the save ends
    | Crash(undone: bool)             // power is lost, and with it perhaps the last rename

  predicate Enabled(s: System, step: Step) {
    match step
    case Start(_) => s.saver == Idle
    case OpenFails => s.saver == Idle
    case Write(n) => s.saver.Opened? && n <= |s.saver.data|
    case Rename => s.saver.Written? && s.disk.temp.Some?
    case RenameFails => s.saver.Written?
    case SyncDirectory => s.saver == Renamed
    case SkipSync => s.saver == Renamed
    case Crash(_) => true
  }

  function Next(s: System, step: Step): System
    requires Enabled(s, step)
  {
    match step
    case Start(data) => System(s.disk.(temp := Some([])), Opened(data))
    case OpenFails => s
    case Write(n) =>
      System(s.disk.(temp := Some(s.saver.data[..n])), if n == |s.saver.data| then Written(s.saver.data) else Idle)
    case Rename => System(Disk(s.disk.temp, s.disk.durable, None), Renamed)
    case RenameFails => s.(saver := Idle)
    case SyncDirectory => System(s.disk.(durable := s.disk.target), Idle)
    case SkipSync => s.(saver := Idle)
    case Crash(undone) =>
      var after := if undone then s.disk.durable else s.disk.target;
      System(s.disk.(target := after, durable := after), Idle)
  }

  /** A run that takes only enabled steps. */
  ghost predicate Run(s: System, steps: seq<Step>)
    decreases |steps|
  {
    steps == [] || (Enabled(s, steps[0]) && Run(Next(s, steps[0]), steps[1..]))
  }

  function End(s: System, steps: seq<Step>): System
    requires Run(s, steps)
    decreases |steps|
  {
    if steps == [] then s else End(Next(s, steps[0]), steps[1..])
  }

  /** The images that a reader may find: what was there, and what was to be saved. */
  function Images(s: System, steps: seq<Step>): set<Option<seq<byte>>> {
    {s.disk.target, s.disk.durable} + Begun(s.saver) + Saved(steps)
  }

  function Begun(saver: Saver): set<Option<seq<byte>>> {
    if saver.Opened? || saver.Written? then {Some(saver.data)} else {}
  }

  function Saved(steps: seq<Step>): (r: set<Option<seq<byte>>>)
    ensures forall k :: 0 <= k < |steps| && steps[k].Start? ==> Some(steps[k].data) in r
    ensures forall i :: i in r ==> i.Some? && exists k :: 0 <= k < |steps| && steps[k] == Start(i.value)
  {
    if steps == [] then {}
    else if steps[0].Start? then
      assert steps[0] == Start(steps[0].data);
      assert forall k :: 0 <= k < |steps[1..]| ==> steps[1..][k] == steps[k + 1];
      {Some(steps[0].data)} + Saved(steps[1..])
    else
      assert forall k :: 0 <= k < |steps[1..]| ==> steps[1..][k] == steps[k + 1];
      Saved(steps[1..])
  }

  /** A save that has written everything finds all of it in the temporary file. */
  predicate Consistent(s: System) {
    s.saver.Written? ==> s.disk.temp == Some(s.saver.data)
  }

  /** Over any run of saves, failures and power losses, a reader finds what was on disk before the run or
      the complete image of some save of the run, never a mixture and never a part. */
  lemma {:induction false} ReadersSeeWholeImages(s: System, steps: seq<Step>)
    requires Consistent(s) && Run(s, steps)
    ensures Consistent(End(s, steps))
    ensures End(s, steps).disk.target in Images(s, steps)
    ensures End(s, steps).disk.durable in Images(s, steps)
    decreases |steps|
  {
    if steps != [] {
      assert steps[0].Write? ==> s.saver.data[..|s.saver.data|] == s.saver.data;
      ReadersSeeWholeImages(Next(s, steps[0]), steps[1..]);
      hide Enabled, Run, End, Saved;
      ImagesShrink(s, steps);
    }
  }

  lemma ImagesShrink(s: System, steps: seq<Step>)
    requires Consistent(s) && steps != [] && Enabled(s, steps[0])
    ensures Images(Next(s, steps[0]), steps[1..]) <= Images(s, steps)
  {
  }

  /** One save, cut short by a loss of power anywhere: the next reader finds the old image or the new. */
  lemma OldOrNew(disk: Disk, data: seq<byte>, steps: seq<Step>, undone: bool)
    requires disk.target == disk.durable
    requires Run(System(disk, Idle), [Start(data)] + steps + [Crash(undone)])
    requires forall step :: step in steps ==> !step.Start?
    ensures End(System(disk, Idle), [Start(data)] + steps + [Crash(undone)]).disk.target in {disk.target, Some(data)}
  {
    var s, all := System(disk, Idle), [Start(data)] + steps + [Crash(undone)];
    ReadersSeeWholeImages(s, all);
    assert forall k :: 0 < k < |all| - 1 ==> all[k] == steps[k - 1] && steps[k - 1] in steps;
    forall k | 0 <= k < |all| && all[k].Start?
      ensures all[k].data == data
    {
    }
  }

  /** A save that goes through is what every later reader finds, even after a loss of power. */
  lemma CompletedSaveIsRead(disk: Disk, data: seq<byte>, undone: bool)
    ensures var steps := [Start(data), Write(|data|), Rename, SyncDirectory, Crash(undone)];
            Run(System(disk, Idle), steps) && End(System(disk, Idle), steps).disk.target == Some(data)
  {
    assert data[..|data|] == data;
    var s0 := System(disk, Idle);
    var s1 := Next(s0, Start(data));
    var s2 := Next(s1, Write(|data|));
    var s3 := Next(s2, Rename);
    var s4 := Next(s3, SyncDirectory);
    RunStep(s4, Crash(undone), []);
    RunStep(s3, SyncDirectory, [Crash(undone)]);
    RunStep(s2, Rename, [SyncDirectory, Crash(undone)]);
    RunStep(s1, Write(|data|), [Rename, SyncDirectory, Crash(undone)]);
    RunStep(s0, Start(data), [Write(|data|), Rename, SyncDirectory, Crash(undone)]);
  }

  lemma RunStep(s: System, step: Step, rest: seq<Step>)
    requires Enabled(s, step) && Run(Next(s, step), rest)
    ensures Run(s, [step] + rest) && End(s, [step] + rest) == End(Next(s, step), rest)
  {
    assert ([step] + rest)[1..] == rest;
  }
}

/**
  The core application over whole lives: messages, commands, saves that may fail, and reboots.
 */
module CoreLife {
  import opened Bytes
  import opened ConfigCommand
  import opened CoreState
  import Health
  import Restarts
  import CoreFile

  /** The state after a boot: the defaults, or what a good state file says. */
  function FromFile(file: Option<seq<byte>>): Monitor {
    if file == None || CoreFile.Load(file.value) == None then Booted(DEFAULTS, Health.NOMINAL)
    else Booted(CoreFile.Load(file.value).value.params, CoreFile.Load(file.value).value.health)
  }

  datatype Life = Life(monitor: Monitor, file: Option<seq<byte>>)

  /** A save that goes through writes the parameters and the last health state of the moment, beside
      counters and a fault code that are not followed here. */
  datatype Moment =
    | Happens(e: Event)
    | Saves(bridge: u32, uplink: u32, lora: u32, fault: byte)
    | Reboots

  function Lived(l: Life, x: Moment): Life {
    match x
    case Happens(e) => l.(monitor := Step(l.monitor, e).monitor)
    case Saves(b, u, r, fault) =>
      l.(file := Some(CoreFile.Print(CoreFile.Record(l.monitor.health.last, l.monitor.params, b, u, r, fault))))
    case Reboots => l.(monitor := FromFile(l.file))
  }

  function LifeAfter(l: Life, xs: seq<Moment>): Life {
    if xs == [] then l else Lived(LifeAfter(l, xs[..|xs| - 1]), xs[|xs| - 1])
  }

  /** The file, if it is any good, holds parameters in range. */
  ghost predicate Sound(l: Life) {
    InRange(l.monitor.params) && InRange(FromFile(l.file).params)
  }

  lemma StepStaysSound(l: Life, x: Moment)
    requires Sound(l)
    ensures Sound(Lived(l, x))
  {
    hide InRange, Configured, CoreFile.Print, CoreFile.Load, Health.Remember, Restarts.Check, InputsOf;
    match x
    case Happens(e) =>
      if e.ConfigArrived? {
        ConfiguredChangesOne(l.monitor.params, e.payload);
      }
    case Saves(b, u, r, fault) =>
      CoreFile.LoadsWhatWasSaved(CoreFile.Record(l.monitor.health.last, l.monitor.params, b, u, r, fault));
    case Reboots =>
  }

  /** From a first boot without a state file, all six parameters stay in range through any run of messages,
      well-formed and malformed commands, saves and reboots. */
  lemma {:induction false} ParamsStayInRange(xs: seq<Moment>)
    ensures Sound(LifeAfter(Life(FromFile(None), None), xs))
  {
    if xs == [] {
      DefaultsInRange();
    } else {
      hide Sound, Lived;
      ParamsStayInRange(xs[..|xs| - 1]);
      StepStaysSound(LifeAfter(Life(FromFile(None), None), xs[..|xs| - 1]), xs[|xs| - 1]);
    }
  }

  /** What a first boot starts with. */
  lemma DefaultsInRange()
    ensures InRange(DEFAULTS) && FromFile(None) == Booted(Params(2000, 2000, 3000, 2000, 3000, 1000), 0)
  {
  }

  /** A reboot restores the parameters and the last health state of the last save, and stops all timers. */
  lemma RebootRestoresLastSave(l: Life, bridge: u32, uplink: u32, lora: u32, fault: byte, xs: seq<Moment>)
    requires forall x :: x in xs ==> x.Happens?
    ensures LifeAfter(l, [Saves(bridge, uplink, lora, fault)] + xs + [Reboots]).monitor
            == Booted(l.monitor.params, l.monitor.health.last)
  {
    hide CoreFile.Print, CoreFile.Load, Step;
    var saved := Lived(l, Saves(bridge, uplink, lora, fault));
    CoreFile.LoadsWhatWasSaved(CoreFile.Record(l.monitor.health.last, l.monitor.params, bridge, uplink, lora, fault));
    var all := [Saves(bridge, uplink, lora, fault)] + xs + [Reboots];
    assert all[..|all| - 1] == [Saves(bridge, uplink, lora, fault)] + xs;
    FileIsKept(l, Saves(bridge, uplink, lora, fault), xs);
  }

  lemma {:induction false} FileIsKept(l: Life, first: Moment, xs: seq<Moment>)
    requires forall x :: x in xs ==> x.Happens?
    ensures LifeAfter(l, [first] + xs).file == Lived(l, first).file
  {
    hide Step, CoreFile.Print, FromFile;
    var all := [first] + xs;
    if xs == [] {
      assert all[..0] == [];
    } else {
      assert all[..|all| - 1] == [first] + xs[..|xs| - 1];
      FileIsKept(l, first, xs[..|xs| - 1]);
      assert xs[|xs| - 1] in xs;
    }
  }

  /** Where this ends for a file that holds two parameters below the minimum, which loads like any other: after
      the boot no configuration command is ever acted on, whatever else happens. */
  lemma {:induction false} LowFileLocksForGood(r: CoreFile.Record, i: nat, j: nat, events: seq<Event>,
                                               payload: seq<byte>)
    requires i < j <= 5 && ParamOf(r.params, i) < 100 && ParamOf(r.params, j) < 100
    ensures var m := FromFile(Some(CoreFile.Print(r)));
            Run(m, events).params == r.params && !Activates(Run(m, events).params, payload)
  {
    hide CoreFile.Print, CoreFile.Load, Activates, Health.Remember, Restarts.Check, InputsOf;
    CoreFile.LoadsWhatWasSaved(r);
    if events == [] {
      TwoLowParametersLockAll(r.params, payload, i, j);
    } else {
      var last := events[|events| - 1];
      LowFileLocksForGood(r, i, j, events[..|events| - 1], if last.ConfigArrived? then last.payload else payload);
      TwoLowParametersLockAll(r.params, payload, i, j);
    }
  }
}

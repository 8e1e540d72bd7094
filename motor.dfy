/** The actuation loop of `run_motor_control`: it polls the shared state and turns the
    published direction into one motor message per poll until shutdown is requested. */
module Motor {
  import opened Optional

  /** The directions the actuation side understands, and the message for each, in the same
      order. */
  const DIRECTIONS: seq<string> := ["left", "right", "up", "down", "center"]
  const MESSAGES: seq<string> := ["Pan left", "Pan right", "Tilt up", "Tilt down", "Target centered"]
  const NO_TARGET := "No target"

  /** The if/elif chain. `None` stands both for a missing `direction` key (the default of
      `get`) and for a stored None. */
  function Command(direction: Option<string>): (m: string)
    ensures m == NO_TARGET || m in MESSAGES
    ensures m == NO_TARGET <==> direction.None? || direction.value !in DIRECTIONS
  {
    if direction == Some("left") then "Pan left"
    else if direction == Some("right") then "Pan right"
    else if direction == Some("up") then "Tilt up"
    else if direction == Some("down") then "Tilt down"
    else if direction == Some("center") then "Target centered"
    else NO_TARGET
  }

  /** Each known direction gets the message at its own position in the table. */
  lemma CommandTable(i: nat)
    requires i < |DIRECTIONS|
    ensures Command(Some(DIRECTIONS[i])) == MESSAGES[i]
  {
  }

  lemma CommandPan()
    ensures Command(Some("left")) == "Pan left" && Command(Some("right")) == "Pan right"
  {
  }

  lemma CommandTilt()
    ensures Command(Some("up")) == "Tilt up" && Command(Some("down")) == "Tilt down"
  {
  }

  lemma CommandCentered()
    ensures Command(Some("center")) == "Target centered"
  {
  }

  /** Distinct known directions give distinct messages, so a message other than "No target"
      names its direction. */
  lemma CommandInjective(d1: Option<string>, d2: Option<string>)
    requires Command(d1) == Command(d2) != NO_TARGET
    ensures d1 == d2
  {
  }

  /** One read of the shared dictionary: `direction`, and `shutdown` (None when the key is
      missing, which `get` turns into False). */
  datatype Snapshot = Snapshot(direction: Option<string>, shutdown: Option<bool>)

  predicate ShutdownRequested(s: Snapshot) {
    s.shutdown == Some(true)
  }

  /** The polling loop, over the successive snapshots it reads: one message per snapshot
      while shutdown is not requested, and nothing from the first snapshot that requests it. */
  method Poll(snapshots: seq<Snapshot>) returns (log: seq<string>)
    ensures |log| <= |snapshots|
    ensures forall i :: 0 <= i < |log| ==>
              !ShutdownRequested(snapshots[i]) && log[i] == Command(snapshots[i].direction)
    ensures |log| < |snapshots| ==> ShutdownRequested(snapshots[|log|])
  {
    log := [];
    var i := 0;
    while i < |snapshots| && !ShutdownRequested(snapshots[i])
      invariant i <= |snapshots| && |log| == i
      invariant forall j :: 0 <= j < i ==>
                  !ShutdownRequested(snapshots[j]) && log[j] == Command(snapshots[j].direction)
    {
      log := log + [Command(snapshots[i].direction)];
      i := i + 1;
    }
  }
}

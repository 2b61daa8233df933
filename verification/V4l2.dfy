/** What the sessions see of a V4L2 device besides its buffers. */
module V4l2 {
  /** `c2_status_t` values the sessions return. */
  datatype Status = OK | BadValue | Corrupted | Blocking | TimedOut | NotFound | NoInit | Omitted | NoMemory

  datatype Dequeue<T> = Buffer(buffer: T) | Again | Pipe | Failed

  /** `VIDIOC_REQBUFS`: the driver grants a number of its own, but not none when some were asked for. */
  method RequestBuffers(requested: nat) returns (s: Status, count: nat)
    ensures s == OK || s == Corrupted || s == NoMemory
    ensures s == OK && requested != 0 ==> count != 0
  {
    var succeeds: bool := *;
    count := *;
    if !succeeds { return Corrupted, count; }
    return if requested != 0 && count == 0 then NoMemory else OK, count;
  }

  predicate Uncorrupted(statuses: seq<Status>, from: nat) {
    forall k :: from <= k < |statuses| ==> statuses[k] != Corrupted
  }

  /** Where the epoch that the last command belongs to begins. */
  function EpochStart<T>(commands: seq<T>, begins: T -> bool): (n: nat)
    ensures n <= |commands|
  {
    if commands == [] then 0
    else
      var last := |commands| - 1;
      if begins(commands[last]) then |commands| else EpochStart(commands[..last], begins)
  }

  lemma EpochGrows<T>(commands: seq<T>, begins: T -> bool, command: T, statuses: seq<Status>, s: Status)
    requires |statuses| == |commands|
    ensures EpochStart(commands + [command], begins) ==
      if begins(command) then |commands| + 1 else EpochStart(commands, begins)
    ensures !begins(command) && Uncorrupted(statuses + [s], EpochStart(commands + [command], begins)) ==>
      Uncorrupted(statuses, EpochStart(commands, begins)) && s != Corrupted
  {
    assert (commands + [command])[..|commands|] == commands;
    assert (statuses + [s])[|statuses|] == s;
    assert forall k :: 0 <= k < |statuses| ==> (statuses + [s])[k] == statuses[k];
  }

  /** Any `ioctl` or `poll` that hands over no buffer: it succeeds or not. */
  method Succeeds() returns (ok: bool) {
    ok := *;
  }
}

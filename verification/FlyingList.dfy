// The transfers in flight, in the order of their deadlines: io.c and do_close of core.c.

/** struct timespec and its comparison. Zero stands for no deadline. */
module Timespecs {
  const NSEC_PER_SEC := 1_000_000_000

  datatype Timespec = Timespec(sec: nat, nsec: nat) {
    predicate IsSet() {
      sec != 0 || nsec != 0
    }

    predicate Later(other: Timespec) {
      if sec == other.sec then nsec > other.nsec else sec > other.sec
    }

    function Nanos(): nat {
      sec * NSEC_PER_SEC + nsec
    }
  }

  /** The deadline of a transfer submitted now, with a timeout in milliseconds; 0 means none. */
  function Deadline(now: Timespec, timeout: nat): (d: Timespec)
    requires now.nsec < NSEC_PER_SEC
    ensures d.nsec < NSEC_PER_SEC
    ensures d.IsSet() <==> timeout != 0
    ensures timeout != 0 ==> d.Nanos() == now.Nanos() + 1_000_000 * timeout
  {
    if timeout == 0 then Timespec(0, 0)
    else
      var sec, nsec := now.sec + timeout / 1000, now.nsec + timeout % 1000 * 1_000_000;
      if nsec >= NSEC_PER_SEC then Timespec(sec + 1, nsec - NSEC_PER_SEC) else Timespec(sec, nsec)
  }

  /** The comparison field by field is the comparison of instants. */
  lemma LaterIsGreater(a: Timespec, b: Timespec)
    requires a.nsec < NSEC_PER_SEC && b.nsec < NSEC_PER_SEC
    ensures a.Later(b) <==> a.Nanos() > b.Nanos()
  {
  }

  /** The order of the list: a may stand before b. Transfers without a deadline come last. */
  predicate MayPrecede(a: Timespec, b: Timespec) {
    b.IsSet() ==> a.IsSet() && !a.Later(b)
  }

  predicate IsSorted(deadlines: seq<Timespec>) {
    forall i, j | 0 <= i < j < |deadlines| :: MayPrecede(deadlines[i], deadlines[j])
  }

  /** Where a deadline belongs: behind all that may precede it, so first come first served among equals. */
  predicate BelongsAt(deadlines: seq<Timespec>, d: Timespec, k: nat) {
    && k <= |deadlines|
    && (forall i | 0 <= i < k :: MayPrecede(deadlines[i], d))
    && (forall i | k <= i < |deadlines| :: !MayPrecede(deadlines[i], d))
  }

  lemma PlaceFound(deadlines: seq<Timespec>, d: Timespec, k: nat)
    requires IsSorted(deadlines) && k <= |deadlines|
    requires forall i | 0 <= i < k :: MayPrecede(deadlines[i], d)
    requires k < |deadlines| ==> !MayPrecede(deadlines[k], d)
    ensures BelongsAt(deadlines, d, k)
  {
    forall i | k <= i < |deadlines| ensures !MayPrecede(deadlines[i], d) {
      if k < i {
        assert MayPrecede(deadlines[k], deadlines[i]);
      }
    }
  }

  lemma InsertKeepsSorted(deadlines: seq<Timespec>, d: Timespec, k: nat)
    requires IsSorted(deadlines) && BelongsAt(deadlines, d, k)
    ensures IsSorted(deadlines[..k] + [d] + deadlines[k..])
  {
  }

  lemma RemoveKeepsSorted(deadlines: seq<Timespec>, k: nat)
    requires IsSorted(deadlines) && k < |deadlines|
    ensures IsSorted(deadlines[..k] + deadlines[k + 1..])
  {
  }

  /** Behind a transfer that has no deadline, or one in the future, nothing has expired. */
  lemma NothingExpiredBehind(deadlines: seq<Timespec>, k: nat, j: nat, now: Timespec)
    requires IsSorted(deadlines) && k <= j < |deadlines|
    requires !deadlines[k].IsSet() || deadlines[k].Later(now)
    ensures !deadlines[j].IsSet() || deadlines[j].Later(now)
  {
  }
}

module FlyingList {
  import opened Timespecs

  /** The fields of a transfer that the list and the timeouts use. */
  class Transfer {
    var deadline: Timespec
    var timeout: nat
    var device: nat
    var handled: bool
    var timedOut: bool
    var osHandles: bool
    var inFlight: bool
    var cancelling: bool
  }

  ghost function Deadlines(list: seq<Transfer>): (ds: seq<Timespec>)
    reads list
    ensures |ds| == |list| && forall i | 0 <= i < |list| :: ds[i] == list[i].deadline
  {
    seq(|list|, i requires 0 <= i < |list| reads list => list[i].deadline)
  }

  ghost predicate Distinct(list: seq<Transfer>) {
    forall i, j | 0 <= i < j < |list| :: list[i] != list[j]
  }

  /** A transfer whose deadline has passed and whose timeout is nobody else's business. */
  predicate IsDue(t: Transfer, now: Timespec)
    reads t
  {
    t.deadline.IsSet() && !t.deadline.Later(now) && !t.handled && !t.osHandles
  }

  class Flying {
    var list: seq<Transfer>

    ghost predicate Valid()
      reads this, list
    {
      Distinct(list) && IsSorted(Deadlines(list))
    }

    constructor ()
      ensures Valid() && list == []
    {
      list := [];
    }

    /** add_to_flying_list: behind every transfer that is due no later. */
    method Add(t: Transfer, now: Timespec) returns (ghost k: nat)
      requires Valid() && t !in list && now.nsec < NSEC_PER_SEC
      modifies this, t`deadline
      ensures Valid() && t.deadline == Deadline(now, t.timeout)
      ensures BelongsAt(old(Deadlines(list)), t.deadline, k) && list == old(list[..k] + [t] + list[k..])
    {
      hide MayPrecede, IsSorted, BelongsAt, Deadline;
      ghost var before := Deadlines(list);
      t.deadline := Deadline(now, t.timeout);
      assert Deadlines(list) == before;
      var i := FindPlace(t.deadline);
      k := i;
      InsertKeepsSorted(before, t.deadline, i);
      list := list[..i] + [t] + list[i..];
      assert Deadlines(list) == before[..i] + [t.deadline] + before[i..];
    }

    /** The search for the first deadline that is later. */
    method FindPlace(d: Timespec) returns (i: nat)
      requires IsSorted(Deadlines(list))
      ensures i <= |list| && BelongsAt(Deadlines(list), d, i)
    {
      hide BelongsAt, IsSorted;
      i := |list|;
      if d.IsSet() {
        i := 0;
        while i < |list| && list[i].deadline.IsSet() && !list[i].deadline.Later(d)
          invariant i <= |list|
          invariant forall j | 0 <= j < i :: MayPrecede(list[j].deadline, d)
        {
          i := i + 1;
        }
      }
      PlaceFound(Deadlines(list), d, i);
    }

    /** remove_from_flying_list, of the transfer that its links place at position k. */
    method Remove(t: Transfer, k: nat)
      requires Valid() && k < |list| && list[k] == t
      modifies this
      ensures Valid() && list == old(list[..k] + list[k + 1..]) && t !in list
    {
      ghost var before := Deadlines(list);
      RemoveKeepsSorted(before, k);
      list := list[..k] + list[k + 1..];
      assert Deadlines(list) == before[..k] + before[k + 1..];
    }

    /** libusb_cancel_transfer, for a backend that may refuse. */
    method Cancel(t: Transfer, accepts: bool) returns (success: bool)
      modifies t`cancelling
      ensures success == (old(t.inFlight && !t.cancelling) && accepts)
      ensures t.cancelling == (old(t.cancelling) || t.inFlight)
    {
      if !t.inFlight || t.cancelling {
        return false;
      }
      success := accepts;
      t.cancelling := true;
    }

    /** handle_timeout. */
    method HandleTimeout(t: Transfer, accepts: bool)
      modifies t`cancelling, t`handled, t`timedOut
      ensures t.handled && t.cancelling == (old(t.cancelling) || t.inFlight)
      ensures t.timedOut == (old(t.timedOut) || (old(t.inFlight && !t.cancelling) && accepts))
    {
      t.handled := true;
      var success := Cancel(t, accepts);
      if success {
        t.timedOut := true;
      }
    }

    /**
     * handle_timeouts_locked. Although it stops at the first deadline that has not passed, it cancels exactly the
     * transfers that are due, and marks as timed out those in flight that were not being cancelled and whose
     * cancellation the backend accepts.
     */
    method HandleTimeouts(now: Timespec, accepting: set<Transfer>)
      requires Valid()
      modifies list
      ensures Valid()
      ensures forall t | t in list :: Treated(t, now, t in accepting)
    {
      for i := 0 to |list|
        invariant Deadlines(list) == old(Deadlines(list))
        invariant forall j | 0 <= j < i :: Treated(list[j], now, list[j] in accepting)
        invariant forall j | i <= j < |list| :: unchanged(list[j])
      {
        var t := list[i];
        if !t.deadline.IsSet() || (!t.handled && !t.osHandles && t.deadline.Later(now)) {
          forall j | i <= j < |list| ensures !IsDue(list[j], now) {
            NothingExpiredBehind(Deadlines(list), i, j, now);
          }
          return;
        }
        if t.handled || t.osHandles {
          continue;
        }
        HandleTimeout(t, t in accepting);
      }
    }

    /** do_close: the transfers of the device leave the list and forget the device; the rest keep their order. */
    method CloseDevice(device: nat)
      requires Valid() && device != NO_DEVICE
      modifies this, list
      ensures Valid() && list == Others(old(list), old(Devices(list)), device, |old(list)|)
      ensures forall i | 0 <= i < |old(list)| :: old(list)[i] in list <==> old(Devices(list))[i] != device
      ensures Devices(old(list)) == Cleared(old(Devices(list)), device, |old(list)|)
      ensures Deadlines(old(list)) == old(Deadlines(list))
    {
      hide Others, Cleared, Devices, Deadlines, Flying.Valid;
      ghost var all, devices, n := list, Devices(list), 0;
      NoneTwice();
      CloseStart(all, devices, device);
      var i := 0;
      while i < |list|
        invariant i <= |list| && n <= |all| && Valid()
        invariant list == Others(all, devices, device, n) + all[n..] && i == |Others(all, devices, device, n)|
        invariant Devices(all) == Cleared(devices, device, n) && Deadlines(all) == old(Deadlines(list))
        decreases |list| - i
      {
        CloseStep(all, devices, device, n, list, i);
        if list[i].device == device {
          Unlink(list[i], i, all, n);
        } else {
          i := i + 1;
        }
        n := n + 1;
      }
      OthersAreKept(all, devices, device, n);
      assert all[n..] == [];
    }

    lemma NoneTwice()
      requires Valid()
      ensures Distinct(list)
    {
    }

    /** list_del, and the device forgotten. */
    method Unlink(t: Transfer, i: nat, ghost all: seq<Transfer>, ghost n: nat)
      requires Valid() && i < |list| && list[i] == t
      requires Distinct(all) && n < |all| && all[n] == t
      modifies this, t`device
      ensures Valid() && list == old(list[..i] + list[i + 1..])
      ensures Devices(all) == old(Devices(all))[n := NO_DEVICE] && Deadlines(all) == old(Deadlines(all))
    {
      hide IsSorted;
      ghost var before := Deadlines(list);
      RemoveKeepsSorted(before, i);
      t.device := NO_DEVICE;
      list := list[..i] + list[i + 1..];
      assert Deadlines(list) == before[..i] + before[i + 1..];
    }
  }

  const NO_DEVICE := 0

  ghost function Devices(list: seq<Transfer>): (ds: seq<nat>)
    reads list
    ensures |ds| == |list| && forall i | 0 <= i < |list| :: ds[i] == list[i].device
  {
    seq(|list|, i requires 0 <= i < |list| reads list => list[i].device)
  }

  /** Those of the first n transfers that do not belong to a device. */
  function Others(list: seq<Transfer>, devices: seq<nat>, device: nat, n: nat): (kept: seq<Transfer>)
    requires n <= |list| == |devices|
    ensures |kept| <= n
  {
    if n == 0 then []
    else if devices[n - 1] == device then Others(list, devices, device, n - 1)
    else Others(list, devices, device, n - 1) + [list[n - 1]]
  }

  lemma {:induction false} OthersAreKept(list: seq<Transfer>, devices: seq<nat>, device: nat, n: nat)
    requires n <= |list| == |devices| && Distinct(list)
    ensures forall i | 0 <= i < n :: list[i] in Others(list, devices, device, n) <==> devices[i] != device
    ensures forall i | n <= i < |list| :: list[i] !in Others(list, devices, device, n)
  {
    if n > 0 {
      OthersAreKept(list, devices, device, n - 1);
    }
  }

  /** The devices of the transfers once the first n have been visited. */
  function Cleared(devices: seq<nat>, device: nat, n: nat): (after: seq<nat>)
    ensures |after| == |devices|
    ensures forall j | 0 <= j < |devices| ::
      after[j] == if j < n && devices[j] == device then NO_DEVICE else devices[j]
  {
    seq(|devices|, j requires 0 <= j < |devices| => if j < n && devices[j] == device then NO_DEVICE else devices[j])
  }

  lemma CloseStart(all: seq<Transfer>, devices: seq<nat>, device: nat)
    requires |all| == |devices|
    ensures Others(all, devices, device, 0) == [] && Cleared(devices, device, 0) == devices
  {
  }

  lemma CloseStep(all: seq<Transfer>, devices: seq<nat>, device: nat, n: nat, list: seq<Transfer>, i: nat)
    requires n <= |all| == |devices| && i == |Others(all, devices, device, n)| < |list|
    requires list == Others(all, devices, device, n) + all[n..]
    ensures n < |all| && list[i] == all[n] && Cleared(devices, device, n)[n] == devices[n]
    ensures devices[n] == device ==>
      && list[..i] + list[i + 1..] == Others(all, devices, device, n + 1) + all[n + 1..]
      && i == |Others(all, devices, device, n + 1)|
      && Cleared(devices, device, n + 1) == Cleared(devices, device, n)[n := NO_DEVICE]
    ensures devices[n] != device ==>
      && list == Others(all, devices, device, n + 1) + all[n + 1..]
      && i + 1 == |Others(all, devices, device, n + 1)|
      && Cleared(devices, device, n + 1) == Cleared(devices, device, n)
  {
  }

  /** What a pass over the timeouts does to a transfer: everything if it is due, nothing otherwise. */
  twostate predicate Treated(t: Transfer, now: Timespec, accepts: bool)
    reads t
  {
    && t.deadline == old(t.deadline) && t.inFlight == old(t.inFlight) && t.osHandles == old(t.osHandles)
    && t.handled == (old(t.handled) || old(IsDue(t, now)))
    && t.cancelling == (old(t.cancelling) || (old(IsDue(t, now)) && t.inFlight))
    && t.timedOut == (old(t.timedOut) || (old(IsDue(t, now) && t.inFlight && !t.cancelling) && accepts))
  }
}

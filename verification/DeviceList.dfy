/**
 * The list of registered bus bridges and the minor numbers they are given: sorted, in range, without
 * duplicates, and every registration takes the least free number.
 */
module DeviceList {

  /** `wb->list`: initialised, on the list, or poisoned by `list_del`. */
  datatype Link = Alone | Listed | Poisoned

  /** `struct wishbone`: its place on the list and its minor number, counted from the first one. */
  class Wishbone {
    var link: Link
    var minor: nat

    constructor ()
      ensures link == Alone && minor == 0
    {
      link, minor := Alone, 0;
    }
  }

  datatype Status = Success | OutOfMemory | Invalid

  // ---------------------------------------------------------------- minor numbers

  /** `m` is the least number not taken. */
  predicate Least(taken: set<nat>, m: nat) {
    m !in taken && forall k | 0 <= k < m :: k in taken
  }

  /** Every number below `max` is taken. */
  predicate Full(taken: set<nat>, max: nat) {
    forall k | 0 <= k < max :: k in taken
  }

  /** Giving a number back makes it the next one given out, unless a smaller one is free. */
  lemma GivenBack(taken: set<nat>, m: nat, next: nat)
    requires m in taken
    ensures Least(taken - {m}, next) <==>
              (next == m && forall k | 0 <= k < m :: k in taken) || (next < m && Least(taken, next))
  {
    if Least(taken - {m}, next) {
      assert m !in taken - {m};
      forall k | 0 <= k < next
        ensures k in taken
      {
        assert k in taken - {m};
      }
    }
  }

  /** A strictly sorted list of numbers reaches at least the position of each. */
  lemma {:induction false} SortedReach(minors: seq<nat>, k: nat)
    requires k < |minors| && forall i, j | 0 <= i < j < |minors| :: minors[i] < minors[j]
    ensures minors[k] >= k
  {
    if k > 0 {
      SortedReach(minors, k - 1);
    }
  }

  /** Strictly sorted numbers below `max` are at most `max` many, and that many only if none is left out. */
  lemma {:induction false} SortedBound(minors: seq<nat>, taken: set<nat>, max: nat)
    requires forall i, j | 0 <= i < j < |minors| :: minors[i] < minors[j]
    requires forall i | 0 <= i < |minors| :: minors[i] < max
    requires forall m :: m in taken <==> m in minors
    ensures |minors| <= max
    ensures |minors| == max <==> Full(taken, max)
    decreases max
  {
    if |minors| > 0 {
      SortedReach(minors, |minors| - 1);
      var n := |minors| - 1;
      var last := minors[n];
      var fewer := taken - {last};
      assert minors == minors[..n] + [last];
      SortedBound(minors[..n], fewer, last);
      if Full(taken, max) {
        assert max - 1 in taken && last == max - 1;
        assert Full(fewer, last);
      }
      if |minors| == max {
        assert last == max - 1;
      }
    } else if max > 0 {
      assert 0 !in taken;
    }
  }

  // ---------------------------------------------------------------- the list

  /** All on the list, in range, strictly sorted. */
  ghost predicate Ordered(devices: seq<Wishbone>, max: nat)
    reads devices
  {
    && (forall i | 0 <= i < |devices| :: devices[i].link == Listed && devices[i].minor < max)
    && (forall i, j | 0 <= i < j < |devices| :: devices[i].minor < devices[j].minor)
  }

  ghost function MinorsOf(devices: seq<Wishbone>): set<nat>
    reads devices
  {
    set d | d in devices :: d.minor
  }

  /** Number `m` belongs at place `pos`. */
  ghost predicate Between(devices: seq<Wishbone>, pos: nat, m: nat)
    reads devices
  {
    forall i | 0 <= i < |devices| :: if i < pos then devices[i].minor < m else devices[i].minor > m
  }

  /** Putting an entry into its gap keeps the order and takes one number. */
  lemma Inserted(devices: seq<Wishbone>, wb: Wishbone, pos: nat, max: nat)
    requires Ordered(devices, max) && pos <= |devices| && wb.link == Listed && wb.minor < max
    requires Between(devices, pos, wb.minor)
    ensures var now := devices[..pos] + [wb] + devices[pos..];
            Ordered(now, max) && MinorsOf(now) == MinorsOf(devices) + {wb.minor}
  {
    var now := devices[..pos] + [wb] + devices[pos..];
    assert |now| == |devices| + 1;
    forall i, j | 0 <= i < j < |now|
      ensures now[i].minor < now[j].minor
    {
    }
    assert MinorsOf(now) == MinorsOf(devices) + {wb.minor} by {
      hide Ordered;
      assert forall d :: d in now <==> d in devices[..pos] || d == wb || d in devices[pos..];
      assert devices == devices[..pos] + devices[pos..];
    }
  }

  /** Taking an entry out keeps the order and frees its number. */
  lemma Removed(devices: seq<Wishbone>, at: nat, max: nat)
    requires Ordered(devices, max) && at < |devices|
    ensures var now := devices[..at] + devices[at + 1..];
            && Ordered(now, max) && MinorsOf(now) == MinorsOf(devices) - {devices[at].minor}
            && forall d :: d in now <==> d in devices && d != devices[at]
  {
    var now := devices[..at] + devices[at + 1..];
    forall i | 0 <= i < |devices| && i != at
      ensures devices[i] in now
    {
      assert devices[i] == if i < at then now[i] else now[i - 1];
    }
    OnlyOnce(devices, at, max);
    hide Ordered;
    assert devices == devices[..at] + [devices[at]] + devices[at + 1..];
  }

  /** No other entry equals entry `at`, or has its number. */
  lemma OnlyOnce(devices: seq<Wishbone>, at: nat, max: nat)
    requires Ordered(devices, max) && at < |devices|
    ensures var now := devices[..at] + devices[at + 1..];
            Ordered(now, max) && forall d | d in now :: d.minor != devices[at].minor
  {
    var now := devices[..at] + devices[at + 1..];
    forall i | 0 <= i < |now|
      ensures now[i] == if i < at then devices[i] else devices[i + 1]
    {
    }
  }

  class Registry {
    const maxDevices: nat
    var devices: seq<Wishbone>

    ghost predicate Valid()
      reads this, devices
    {
      && maxDevices >= 1
      && Ordered(devices, maxDevices)
    }

    ghost function Taken(): set<nat>
      reads this, devices
    {
      MinorsOf(devices)
    }

    /** There are never more devices than numbers, and as many only when no number is free. */
    lemma AtMostMax()
      requires Valid()
      ensures |devices| <= maxDevices
      ensures |devices| == maxDevices <==> Full(Taken(), maxDevices)
    {
      var minors := seq(|devices|, i requires 0 <= i < |devices| reads this, devices => devices[i].minor);
      forall d | d in devices
        ensures d.minor in minors
      {
        var i :| 0 <= i < |devices| && devices[i] == d;
        assert minors[i] == d.minor;
      }
      forall i | 0 <= i < |minors|
        ensures minors[i] in Taken()
      {
        assert devices[i].minor == minors[i];
      }
      SortedBound(minors, Taken(), maxDevices);
    }

    /** Module initialisation refuses a limit of zero. */
    constructor (max: nat)
      requires max >= 1
      ensures Valid() && maxDevices == max && devices == []
    {
      maxDevices, devices := max, [];
    }

    /** Looks for the first gap; `pos` is where it is, and the number free there. */
    method FindGap() returns (pos: nat, found: bool)
      requires Valid()
      ensures found <==> !Full(Taken(), maxDevices)
      ensures found ==> pos <= |devices| && pos < maxDevices && Least(Taken(), pos)
      ensures found ==> Between(devices, pos, pos)
    {
      pos := 0;
      while pos < |devices|
        invariant 0 <= pos <= |devices| && pos < maxDevices
        invariant forall i | 0 <= i < pos :: devices[i].minor == i
      {
        if devices[pos].minor != pos {
          break;
        }
        if pos == maxDevices - 1 {
          forall k | 0 <= k < maxDevices
            ensures k in Taken()
          {
            assert devices[k].minor == k;
          }
          return pos, false;
        }
        pos := pos + 1;
      }
      Gap(pos);
      found := true;
    }

    /** Where the entry's number differs from its place, that number is free. */
    lemma Gap(pos: nat)
      requires Valid() && pos <= |devices|
      requires forall i | 0 <= i < pos :: devices[i].minor == i
      requires pos < |devices| ==> devices[pos].minor != pos
      ensures Least(Taken(), pos)
      ensures Between(devices, pos, pos)
    {
      var minors := seq(|devices|, i requires 0 <= i < |devices| reads this, devices => devices[i].minor);
      if pos < |devices| {
        SortedReach(minors, pos);
      }
      forall k | 0 <= k < pos
        ensures k in Taken()
      {
        assert devices[k].minor == k;
      }
    }

    /**
     * `wishbone_register`; `accepted` says whether the kernel takes the character devices and their
     * sysfs entries.
     */
    method Register(wb: Wishbone, accepted: bool) returns (status: Status)
      requires Valid() && wb.link != Listed
      modifies this`devices, wb
      ensures Valid()
      ensures status == if accepted && !Full(old(Taken()), maxDevices) then Success else OutOfMemory
      ensures status == Success ==>
                && Least(old(Taken()), wb.minor) && wb.minor < maxDevices && wb.link == Listed
                && wb.minor <= |old(devices)|
                && devices == old(devices)[..wb.minor] + [wb] + old(devices)[wb.minor..]
                && Taken() == old(Taken()) + {wb.minor}
      ensures status != Success ==> devices == old(devices) && wb.link == Alone
      ensures if Full(old(Taken()), maxDevices) then wb.minor == old(wb.minor) else Least(old(Taken()), wb.minor)
    {
      assert wb !in devices;
      hide Ordered, Least, Full, Between, MinorsOf;
      wb.link := Alone;
      var pos, found := FindGap();
      if !found {
        return OutOfMemory;
      }
      wb.minor := pos;
      if !accepted {
        return OutOfMemory;
      }
      Insert(wb, pos);
      status := Success;
    }

    /** `list_add_tail` in front of the entry at `pos`. */
    method Insert(wb: Wishbone, pos: nat)
      requires Valid() && wb !in devices && wb.minor < maxDevices
      requires pos <= |devices| && Between(devices, pos, wb.minor)
      modifies this`devices, wb`link
      ensures Valid() && wb.link == Listed
      ensures devices == old(devices)[..pos] + [wb] + old(devices)[pos..]
      ensures Taken() == old(Taken()) + {wb.minor}
    {
      hide Ordered, Between, MinorsOf;
      wb.link := Listed;
      Inserted(devices, wb, pos, maxDevices);
      devices := devices[..pos] + [wb] + devices[pos..];
    }

    /** `wishbone_unregister` of a device that was not unregistered before. */
    method Unregister(wb: Wishbone) returns (status: Status)
      requires Valid() && wb.link != Poisoned && (wb.link == Listed ==> wb in devices)
      modifies this`devices, wb`link
      ensures Valid()
      ensures status == if old(wb.link) == Alone then Invalid else Success
      ensures status == Invalid ==> devices == old(devices) && wb.link == Alone
      ensures status == Success ==>
                && wb.link == Poisoned && wb !in devices
                && Taken() == old(Taken()) - {wb.minor}
                && forall d :: d in devices <==> d in old(devices) && d != wb
    {
      if wb.link == Alone {
        return Invalid;
      }
      var at := 0;
      while devices[at] != wb
        invariant 0 <= at < |devices| && wb in devices[at..]
        decreases |devices| - at
      {
        at := at + 1;
      }
      Removed(devices, at, maxDevices);
      devices := devices[..at] + devices[at + 1..];
      wb.link := Poisoned;
      status := Success;
    }
  }
}

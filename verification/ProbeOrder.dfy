/** The numbers that the wupper driver gives to the PCIe devices it probes. */
module ProbeOrder {
  import opened Wrappers

  const MAXCARDS := 8

  /** The four device ids: two vendors, first and second end point of a card. */
  datatype Kind = WupperFw1 | WupperFw2 | CernFw1 | CernFw2

  predicate IsSecond(k: Kind) { k.WupperFw2? || k.CernFw2? }

  /** The number for a device probed at `index`. */
  function Number(index: nat, swap: bool, k: Kind): nat {
    if swap && IsSecond(k) && index % 2 == 0 then index + 1
    else if swap && !IsSecond(k) && index % 2 == 1 then index - 1
    else index
  }

  /** The driver's probing state. */
  class Prober {
    var index: nat
    var autoswap: bool
    var seenFirst: bool

    constructor (autoswap: bool)
      ensures index == 0 && this.autoswap == autoswap && !seenFirst
    {
      index, this.autoswap, seenFirst := 0, autoswap, false;
    }

    /** wupper_Probe up to the numbering: the first device decides about swapping if the
        module parameter does not; a device that cannot be enabled and powered gives its index
        back, one beyond the last card is refused but keeps it. */
    method Probe(k: Kind, canEnable: bool) returns (number: Option<nat>)
      modifies this
      ensures seenFirst && autoswap == (old(autoswap) || (!old(seenFirst) && IsSecond(k)))
      ensures var n := Number(old(index), autoswap, k);
        if n >= MAXCARDS then number == None && index == old(index) + 1
        else if !canEnable then number == None && index == old(index)
        else number == Some(n) && index == old(index) + 1
    {
      var deviceNumber: int := index;
      if !seenFirst {
        if k.WupperFw2? || k.CernFw2? {
          autoswap := true;
        }
        seenFirst := true;
      }
      if autoswap {
        if k.WupperFw2? && index % 2 == 0 {
          deviceNumber := deviceNumber + 1;
        }
        if k.WupperFw1? && index % 2 == 1 {
          deviceNumber := deviceNumber - 1;
        }
        if k.CernFw2? && index % 2 == 0 {
          deviceNumber := deviceNumber + 1;
        }
        if k.CernFw1? && index % 2 == 1 {
          deviceNumber := deviceNumber - 1;
        }
      }
      index := index + 1;
      if deviceNumber < MAXCARDS {
        if !canEnable {
          index := index - 1;
          return None;
        }
        number := Some(deviceNumber);
      } else {
        number := None;
      }
    }

    /** `numbers` are those of the devices `found` so far. */
    ghost predicate Progress(found: seq<Kind>, numbers: seq<nat>, swap: bool)
      reads this
    {
      && (if index < MAXCARDS then |found| == index else |found| >= MAXCARDS)
      && numbers == Numbers(FirstCards(found), swap)
    }

    method ProbeNext(k: Kind, canEnable: bool, numbers: seq<nat>, ghost found: seq<Kind>, ghost swap: bool)
      returns (all: seq<nat>)
      requires Progress(found, numbers, swap) && swap == (autoswap || (!seenFirst && IsSecond(k)))
      modifies this
      ensures seenFirst && autoswap == swap
      ensures Progress(found + (if canEnable then [k] else []), all, swap)
    {
      NumbersStep(found, k, swap);
      var n := Probe(k, canEnable);
      all := if n.Some? then numbers + [n.value] else numbers;
    }

    /** Probing any sequence of devices, some of which are refused: the numbers handed out are
        those of the devices that can be enabled, up to the last card.  The first device decides
        about swapping even if it is refused. */
    method ProbeAll(ks: seq<Kind>, canEnable: seq<bool>) returns (numbers: seq<nat>)
      requires index == 0 && !seenFirst && |canEnable| == |ks|
      modifies this
      ensures numbers == Numbers(FirstCards(Enabled(ks, canEnable)), old(autoswap) || (ks != [] && IsSecond(ks[0])))
    {
      numbers := [];
      ghost var swap := autoswap || (ks != [] && IsSecond(ks[0]));
      ghost var found := [];
      for i := 0 to |ks|
        invariant seenFirst == (i > 0) && autoswap == if i > 0 then swap else old(autoswap)
        invariant found == Enabled(ks[..i], canEnable[..i]) && Progress(found, numbers, swap)
      {
        EnabledStep(ks, canEnable, i);
        numbers := ProbeNext(ks[i], canEnable[i], numbers, found, swap);
        found := found + if canEnable[i] then [ks[i]] else [];
      }
      assert ks[..|ks|] == ks && canEnable[..|ks|] == canEnable;
    }
  }

  /** The devices that can be enabled, in the order of probing. */
  function Enabled(ks: seq<Kind>, canEnable: seq<bool>): seq<Kind>
    requires |canEnable| == |ks|
  {
    if ks == [] then []
    else Enabled(ks[..|ks| - 1], canEnable[..|ks| - 1]) + if canEnable[|ks| - 1] then [ks[|ks| - 1]] else []
  }

  function FirstCards(ks: seq<Kind>): seq<Kind> {
    if |ks| <= MAXCARDS then ks else ks[..MAXCARDS]
  }

  lemma EnabledStep(ks: seq<Kind>, canEnable: seq<bool>, i: nat)
    requires i < |ks| == |canEnable|
    ensures Enabled(ks[..i + 1], canEnable[..i + 1])
            == Enabled(ks[..i], canEnable[..i]) + if canEnable[i] then [ks[i]] else []
  {
    assert ks[..i + 1][..i] == ks[..i] && canEnable[..i + 1][..i] == canEnable[..i];
  }

  lemma NumbersStep(ks: seq<Kind>, k: Kind, swap: bool)
    ensures Numbers(FirstCards(ks + [k]), swap)
            == Numbers(FirstCards(ks), swap) + if |ks| < MAXCARDS then [Number(|ks|, swap, k)] else []
  {
    if |ks| >= MAXCARDS {
      assert FirstCards(ks + [k]) == FirstCards(ks);
    }
  }

  function Numbers(ks: seq<Kind>, swap: bool): (ns: seq<nat>)
    ensures |ns| == |ks| && forall i :: 0 <= i < |ks| ==> ns[i] == Number(i, swap, ks[i])
  {
    seq(|ks|, i requires 0 <= i < |ks| => Number(i, swap, ks[i]))
  }

  ghost predicate Distinct(ns: seq<nat>) {
    forall i, j :: 0 <= i < j < |ns| ==> ns[i] != ns[j]
  }

  /** Consecutive devices come in pairs of one first and one second end point. */
  predicate Mixed(ks: seq<Kind>, p: nat)
    requires 2 * p + 1 < |ks|
  {
    IsSecond(ks[2 * p]) != IsSecond(ks[2 * p + 1])
  }

  ghost predicate Paired(ks: seq<Kind>) {
    forall p: nat :: 2 * p + 1 < |ks| ==> Mixed(ks, p)
  }

  /** With swapping on, a device's number is even for a first and odd for a second end point,
      within the two numbers of its pair. */
  lemma SwappedNumber(ks: seq<Kind>, i: nat)
    requires i < |ks|
    ensures Numbers(ks, true)[i] == i / 2 * 2 + if ks[i] == WupperFw2 || ks[i] == CernFw2 then 1 else 0
  {
  }

  /** Without swapping the devices are numbered in the order in which they are probed. */
  lemma UnswappedNumber(ks: seq<Kind>, i: nat)
    requires i < |ks|
    ensures Numbers(ks, false)[i] == i
  {
  }

  /** With swapping on, the numbers are distinct if and only if every pair has one first and one
      second end point, in either order; a single last device does no harm. */
  lemma DistinctIffPaired(ks: seq<Kind>)
    ensures Distinct(Numbers(ks, true)) <==> Paired(ks)
  {
    var ns := Numbers(ks, true);
    if Paired(ks) {
      forall i, j | 0 <= i < j < |ks| ensures ns[i] != ns[j] {
        SwappedNumber(ks, i);
        SwappedNumber(ks, j);
        if i / 2 == j / 2 {
          assert i == 2 * (i / 2) && j == i + 1;
          assert Mixed(ks, i / 2);
        }
      }
    }
    if Distinct(ns) {
      forall p: nat | 2 * p + 1 < |ks| ensures Mixed(ks, p) {
        SwappedNumber(ks, 2 * p);
        SwappedNumber(ks, 2 * p + 1);
        assert ns[2 * p] != ns[2 * p + 1];
      }
    }
  }

  /** Then the two devices of a pair get adjacent numbers, the first end point the even one,
      and all numbers below the count are used. */
  lemma PairsAdjacent(ks: seq<Kind>, p: nat)
    requires Paired(ks) && 2 * p + 1 < |ks|
    ensures var ns := Numbers(ks, true);
      {ns[2 * p], ns[2 * p + 1]} == {2 * p, 2 * p + 1}
      && (ns[2 * p] % 2 == 1 <==> IsSecond(ks[2 * p])) && (ns[2 * p + 1] % 2 == 1 <==> IsSecond(ks[2 * p + 1]))
  {
    SwappedNumber(ks, 2 * p);
    SwappedNumber(ks, 2 * p + 1);
    assert Mixed(ks, p);
  }

  /** The second end point of the first card cannot be enabled: the first end point of the next
      card takes its place in the pair and gets the number of the first card. */
  lemma RefusedDeviceRepeatsNumber()
    ensures Numbers(FirstCards(Enabled([WupperFw1, WupperFw2, WupperFw1], [true, false, true])), true) == [0, 0]
  {
    var ks, can := [WupperFw1, WupperFw2, WupperFw1], [true, false, true];
    EnabledStep(ks, can, 0);
    EnabledStep(ks, can, 1);
    EnabledStep(ks, can, 2);
    assert ks[..3] == ks && can[..3] == can;
    assert Enabled(ks, can) == [WupperFw1, WupperFw1];
  }
}

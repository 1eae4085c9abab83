// Legacy interrupt routing: the pin's way up through the bridges (pci_int.c;
// section 9.1 of the PCI-to-PCI Bridge Architecture Specification 1.2).

module Intx {
  import opened SlotPool

  /** pci_swizzle_interrupt_pin: through one bridge, from device slot `dev`. */
  function Swizzle(dev: nat, pin: nat): nat
    requires pin > 0
  {
    (pin - 1 + dev) % 4 + 1
  }

  ghost function Sum(devs: seq<nat>): nat {
    if devs == [] then 0 else Sum(devs[..|devs| - 1]) + devs[|devs| - 1]
  }

  /** "Cope with illegal". */
  function Legal(raw: nat): nat { if raw > 4 then 1 else raw }

  /** A function on its way to the root: its device number and the function that is
      the bridge above it, none for one on the root bus. */
  datatype Place = OnRoot(dev: nat) | Behind(dev: nat, bridge: Place)

  /** The device numbers on the path, root bus left out, from the device up. */
  ghost function Slots(p: Place): seq<nat> {
    match p
    case OnRoot(_) => []
    case Behind(dev, up) => Slots(up) + [dev]
  }

  lemma ModAdd(a: nat, b: nat)
    ensures (a % 4 + b) % 4 == (a + b) % 4
  {}

  lemma SumLast(devs: seq<nat>, d: nat)
    ensures Sum(devs + [d]) == Sum(devs) + d
  {}

  /** Where a pin ends up after the swizzles of a path. */
  ghost function Routed(p: Place, pin: nat): nat
    requires pin > 0
  {
    match p
    case OnRoot(_) => pin
    case Behind(dev, up) => Routed(up, Swizzle(dev, pin))
  }

  /** The bridges' swizzles add up: the pin comes out moved by the sum of the slot
      numbers below the root bus. */
  lemma {:induction false} SwizzleSum(p: Place, pin: nat)
    requires 1 <= pin <= 4
    ensures Routed(p, pin) == (pin - 1 + Sum(Slots(p))) % 4 + 1
    decreases p
  {
    match p
    case OnRoot(_) =>
    case Behind(dev, up) =>
      SwizzleSum(up, Swizzle(dev, pin));
      ModAdd(pin - 1 + dev, Sum(Slots(up)));
      SumLast(Slots(up), dev);
  }

  /** intx of one device; gicIrq 0 means no INTx. */
  class Line {
    var pin: nat
    var pinRouted: nat
    var gicIrq: nat
    var register: nat         // PCI_INTERRUPT_LINE

    /** pci_assign_irq with the controller's four-entry map. */
    method AssignIrq(raw: nat, at: Place, mapping: seq<nat>)
      requires |mapping| == 4
      modifies this
      ensures pin == raw
      ensures raw == 0 ==> unchanged(`pinRouted) && unchanged(`gicIrq) && unchanged(`register)
      ensures raw != 0 ==>
        && 1 <= pinRouted <= 4 && register == pinRouted
        && pinRouted == ((if raw > 4 then 1 else raw) - 1 + Sum(Slots(at))) % 4 + 1
        && gicIrq == mapping[pinRouted - 1]
    {
      pin := raw;
      var routed := Legal(raw);
      if routed == 0 { return; }
      SwizzleSum(at, routed);
      var walker := at;
      while walker.Behind?
        invariant 1 <= routed <= 4 && Routed(walker, routed) == Routed(at, Legal(raw))
        decreases walker
      {
        routed := Swizzle(walker.dev, routed);
        walker := walker.bridge;
      }
      gicIrq := mapping[routed - 1];
      pinRouted := routed;
      register := routed;
    }
  }
}

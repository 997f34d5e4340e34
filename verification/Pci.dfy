/** PCI enumeration (pci.c) over any configuration space. */
module Pci {

  const MAX_DEVICES: nat := 64
  const INVALID: bv32 := 0xFFFF

  // What a read of the configuration data port returns for each address word.
  type ConfigSpace = bv32 -> bv32

  // The address word of section 3.2.2.3.2 of the PCI Local Bus Specification 3.0.
  function Address(bus: bv8, device: bv8, function_: bv8, offset: bv8): bv32 {
    0x8000_0000 | ((bus as bv32) << 16) | ((device as bv32) << 11) | ((function_ as bv32) << 8)
        | ((offset & 0xFC) as bv32)
  }

  // Different registers of different functions have different address words.
  lemma AddressIsInjective(b: bv8, d: bv8, f: bv8, o: bv8, b': bv8, d': bv8, f': bv8, o': bv8)
    requires d < 32 && d' < 32 && f < 8 && f' < 8 && o & 3 == 0 && o' & 3 == 0
    requires Address(b, d, f, o) == Address(b', d', f', o')
    ensures b == b' && d == d' && f == f' && o == o'
  {
    var a, a' := Address(b, d, f, o), Address(b', d', f', o');
    assert (a >> 16) & 0xFF == b as bv32 && (a >> 11) & 0x1F == d as bv32 && (a >> 8) & 0x7 == f as bv32
           && a & 0xFC == o as bv32;
    assert (a' >> 16) & 0xFF == b' as bv32 && (a' >> 11) & 0x1F == d' as bv32 && (a' >> 8) & 0x7 == f' as bv32
           && a' & 0xFC == o' as bv32;
  }

  // The word's fields: the enable bit, the bus, the device, the function and the register, and nothing else.
  lemma AddressFields(bus: bv8, device: bv8, function_: bv8, offset: bv8)
    requires device < 32 && function_ < 8
    ensures var w := Address(bus, device, function_, offset);
            && w >> 31 == 1
            && (w >> 16) & 0xFF == bus as bv32
            && (w >> 11) & 0x1F == device as bv32
            && (w >> 8) & 0x7 == function_ as bv32
            && (w >> 2) & 0x3F == (offset as bv32) >> 2
            && w & 0x7F00_0003 == 0
  {
  }

  // A function of a device on a bus.
  datatype Loc = Loc(bus: nat, device: nat, func: nat)

  predicate InRange(l: Loc) {
    l.bus < 256 && l.device < 32 && l.func < 8
  }

  function Read(cfg: ConfigSpace, l: Loc, offset: bv8): bv32
    requires InRange(l)
  {
    cfg(Address(l.bus as bv8, l.device as bv8, l.func as bv8, offset))
  }

  // A vendor id is there.
  predicate Present(cfg: ConfigSpace, l: Loc)
    requires InRange(l)
  {
    Read(cfg, l, 0) & 0xFFFF != INVALID
  }

  // The multifunction bit of the header type.
  predicate Multi(cfg: ConfigSpace, bus: nat, device: nat)
    requires bus < 256 && device < 32
  {
    ((Read(cfg, Loc(bus, device, 0), 0x0C) >> 16) & 0xFF) & 0x80 != 0
  }

  // A function is there if the low half of its first register is not all ones, and a device has several if bit 23 of
  // its fourth register is set.
  lemma PresentIs(cfg: ConfigSpace, l: Loc)
    requires InRange(l)
    ensures Present(cfg, l) <==> Read(cfg, l, 0) & 0xFFFF != 0xFFFF
  {
    hide Read;
  }

  lemma ReadIs(cfg: ConfigSpace, l: Loc, offset: bv8)
    requires InRange(l)
    ensures Read(cfg, l, offset) == cfg(Address(l.bus as bv8, l.device as bv8, l.func as bv8, offset))
  {
    hide Address;
  }

  lemma MultiIs(cfg: ConfigSpace, bus: nat, device: nat)
    requires bus < 256 && device < 32
    ensures Multi(cfg, bus, device) <==> (Read(cfg, Loc(bus, device, 0), 0x0C) >> 23) & 1 == 1
  {
    hide Read;
    Bit23(Read(cfg, Loc(bus, device, 0), 0x0C));
  }

  lemma Bit23(w: bv32)
    ensures ((w >> 16) & 0xFF) & 0x80 != 0 <==> (w >> 23) & 1 == 1
  {
  }

  // ---- Which functions are listed ----

  // Every bus is looked at only if the host bridge is multifunction, and the last one never.
  predicate BusScanned(cfg: ConfigSpace, bus: nat) {
    bus == 0 || (bus < 255 && Multi(cfg, 0, 0))
  }

  predicate Listed(cfg: ConfigSpace, l: Loc) {
    && InRange(l) && BusScanned(cfg, l.bus)
    && Present(cfg, Loc(l.bus, l.device, 0)) && Present(cfg, l)
    && (l.func == 0 || Multi(cfg, l.bus, l.device))
  }

  predicate Before(l: Loc, m: Loc) {
    l.bus < m.bus || (l.bus == m.bus && (l.device < m.device || (l.device == m.device && l.func < m.func)))
  }

  predicate Sorted(s: seq<Loc>) {
    forall i, j | 0 <= i < j < |s| :: Before(s[i], s[j])
  }

  // ---- The lists the loops build ----

  function Functions(cfg: ConfigSpace, bus: nat, device: nat, f: nat): seq<Loc>
    requires bus < 256 && device < 32 && f <= 8
    decreases 8 - f
  {
    if f == 8 then []
    else One(cfg, bus, device, f) + Functions(cfg, bus, device, f + 1)
  }

  function One(cfg: ConfigSpace, bus: nat, device: nat, f: nat): seq<Loc>
    requires bus < 256 && device < 32 && f < 8
  {
    if Present(cfg, Loc(bus, device, f)) then [Loc(bus, device, f)] else []
  }

  function OneDevice(cfg: ConfigSpace, bus: nat, device: nat): seq<Loc>
    requires bus < 256 && device < 32
  {
    if !Present(cfg, Loc(bus, device, 0)) then []
    else [Loc(bus, device, 0)] + (if Multi(cfg, bus, device) then Functions(cfg, bus, device, 1) else [])
  }

  function Devices(cfg: ConfigSpace, bus: nat, device: nat): seq<Loc>
    requires bus < 256 && device <= 32
    decreases 32 - device
  {
    if device == 32 then [] else OneDevice(cfg, bus, device) + Devices(cfg, bus, device + 1)
  }

  function Buses(cfg: ConfigSpace, bus: nat): seq<Loc>
    requires bus <= 255
    decreases 255 - bus
  {
    if bus == 255 then [] else Devices(cfg, bus, 0) + Buses(cfg, bus + 1)
  }

  function All(cfg: ConfigSpace): seq<Loc> {
    Devices(cfg, 0, 0) + (if Multi(cfg, 0, 0) then Buses(cfg, 1) else [])
  }

  function Take(s: seq<Loc>): seq<Loc> {
    if |s| <= MAX_DEVICES then s else s[..MAX_DEVICES]
  }

  // ---- What the lists hold ----

  lemma SortedJoin(s: seq<Loc>, t: seq<Loc>)
    requires Sorted(s) && Sorted(t) && forall l, m | l in s && m in t :: Before(l, m)
    ensures Sorted(s + t)
  {
    forall i, j | 0 <= i < j < |s + t|
      ensures Before((s + t)[i], (s + t)[j])
    {
      if i < |s| <= j {
        assert s[i] in s && t[j - |s|] in t;
      }
    }
  }

  lemma {:induction false} FunctionsListed(cfg: ConfigSpace, bus: nat, device: nat, f: nat)
    requires bus < 256 && device < 32 && f <= 8
    ensures Sorted(Functions(cfg, bus, device, f))
    ensures forall l :: l in Functions(cfg, bus, device, f) <==>
                        InRange(l) && l.bus == bus && l.device == device && f <= l.func && Present(cfg, l)
    decreases 8 - f
  {
    hide Present, Functions, One, Sorted;
    if f < 8 {
      FunctionsListed(cfg, bus, device, f + 1);
      FunctionsStep(cfg, bus, device, f);
      OneListed(cfg, bus, device, f);
      SortedJoin(One(cfg, bus, device, f), Functions(cfg, bus, device, f + 1));
    } else {
      NoFunctionLeft(cfg, bus, device);
    }
  }

  lemma OneListed(cfg: ConfigSpace, bus: nat, device: nat, f: nat)
    requires bus < 256 && device < 32 && f < 8
    ensures Sorted(One(cfg, bus, device, f))
    ensures forall l :: l in One(cfg, bus, device, f) <==> l == Loc(bus, device, f) && Present(cfg, l)
  {
    hide Present;
  }

  lemma FunctionsStep(cfg: ConfigSpace, bus: nat, device: nat, f: nat)
    requires bus < 256 && device < 32 && f < 8
    ensures Functions(cfg, bus, device, f) == One(cfg, bus, device, f) + Functions(cfg, bus, device, f + 1)
  {
  }

  lemma NoFunctionLeft(cfg: ConfigSpace, bus: nat, device: nat)
    requires bus < 256 && device < 32
    ensures Functions(cfg, bus, device, 8) == [] && Sorted([])
  {
  }

  lemma OneDeviceListed(cfg: ConfigSpace, bus: nat, device: nat)
    requires bus < 256 && device < 32
    ensures Sorted(OneDevice(cfg, bus, device))
    ensures BusScanned(cfg, bus) ==>
              forall l :: l in OneDevice(cfg, bus, device) <==> Listed(cfg, l) && l.bus == bus && l.device == device
    ensures forall l | l in OneDevice(cfg, bus, device) :: l.bus == bus && l.device == device
  {
    hide Present, Multi, Functions;
    FunctionsListed(cfg, bus, device, 1);
    if Present(cfg, Loc(bus, device, 0)) && Multi(cfg, bus, device) {
      SortedJoin([Loc(bus, device, 0)], Functions(cfg, bus, device, 1));
    }
  }

  lemma {:induction false} DevicesListed(cfg: ConfigSpace, bus: nat, device: nat)
    requires bus < 256 && device <= 32
    ensures Sorted(Devices(cfg, bus, device))
    ensures BusScanned(cfg, bus) ==>
              forall l :: l in Devices(cfg, bus, device) <==> Listed(cfg, l) && l.bus == bus && device <= l.device
    ensures forall l | l in Devices(cfg, bus, device) :: l.bus == bus && device <= l.device
    decreases 32 - device
  {
    hide Present, Multi, OneDevice, BusScanned;
    if device < 32 {
      OneDeviceListed(cfg, bus, device);
      DevicesListed(cfg, bus, device + 1);
      SortedJoin(OneDevice(cfg, bus, device), Devices(cfg, bus, device + 1));
    }
  }

  lemma {:induction false} BusesListed(cfg: ConfigSpace, bus: nat)
    requires 1 <= bus <= 255 && Multi(cfg, 0, 0)
    ensures Sorted(Buses(cfg, bus))
    ensures forall l :: l in Buses(cfg, bus) <==> Listed(cfg, l) && bus <= l.bus
    decreases 255 - bus
  {
    hide Present, Multi, Devices;
    if bus < 255 {
      DevicesListed(cfg, bus, 0);
      BusesListed(cfg, bus + 1);
      SortedJoin(Devices(cfg, bus, 0), Buses(cfg, bus + 1));
    }
  }

  // The scan order is bus, device, function, nothing is listed twice, and what is listed is exactly what the
  // multifunction rules let through.
  lemma AllListed(cfg: ConfigSpace)
    ensures Sorted(All(cfg))
    ensures forall l :: l in All(cfg) <==> Listed(cfg, l)
    ensures Sorted(Take(All(cfg)))
            && forall i, j | 0 <= i < j < |Take(All(cfg))| :: Take(All(cfg))[i] != Take(All(cfg))[j]
  {
    hide Present, Multi, Devices, Buses;
    DevicesListed(cfg, 0, 0);
    if Multi(cfg, 0, 0) {
      BusesListed(cfg, 1);
      SortedJoin(Devices(cfg, 0, 0), Buses(cfg, 1));
    }
  }

  // A function the multifunction rules let through on any of the 256 buses, the last one included.
  predicate Reachable(cfg: ConfigSpace, l: Loc) {
    && InRange(l) && (l.bus == 0 || Multi(cfg, 0, 0))
    && Present(cfg, Loc(l.bus, l.device, 0)) && Present(cfg, l)
    && (l.func == 0 || Multi(cfg, l.bus, l.device))
  }

  // The scan stops before bus 255: it meets every such function exactly when the host bridge has one function only or
  // no device of bus 255 is there.
  lemma ScanIsCompleteIff(cfg: ConfigSpace)
    ensures (forall l | Reachable(cfg, l) :: l in All(cfg))
            <==> !Multi(cfg, 0, 0) || forall d: nat | d < 32 :: !Present(cfg, Loc(255, d, 0))
  {
    hide Present, Multi, All;
    AllListed(cfg);
    if Multi(cfg, 0, 0) && exists d: nat :: d < 32 && Present(cfg, Loc(255, d, 0)) {
      var d: nat :| d < 32 && Present(cfg, Loc(255, d, 0));
      assert Reachable(cfg, Loc(255, d, 0)) && !Listed(cfg, Loc(255, d, 0));
    }
  }

  // ---- pci.c ----

  // pci_devices and pci_device_count; all is every function the scan has come upon, also past the 64th.
  class Enumeration {
    var devices: seq<Loc>
    ghost var all: seq<Loc>

    ghost predicate Valid()
      reads this
    {
      devices == Take(all)
    }

    constructor ()
      ensures Valid() && all == []
    {
      devices, all := [], [];
    }

    method CheckDevice(cfg: ConfigSpace, l: Loc)
      requires Valid() && InRange(l)
      modifies this
      ensures Valid() && all == old(all) + if Present(cfg, l) then [l] else []
    {
      var vendorId := Read(cfg, l, 0) & 0xFFFF;
      if vendorId == INVALID {
        return;
      }
      all := all + [l];
      if |devices| >= MAX_DEVICES {
        return;
      }
      devices := devices + [l];
    }

    // The functions 1 to 7 of a multifunction device.
    method CheckFunctions(cfg: ConfigSpace, bus: nat, device: nat)
      requires Valid() && bus < 256 && device < 32
      modifies this
      ensures Valid() && all == old(all) + Functions(cfg, bus, device, 1)
    {
      hide Present, Take, Functions;
      for f := 1 to 8
        invariant Valid() && all + Functions(cfg, bus, device, f) == old(all) + Functions(cfg, bus, device, 1)
      {
        ghost var before := all;
        if Present(cfg, Loc(bus, device, f)) {
          CheckDevice(cfg, Loc(bus, device, f));
        }
        FunctionsStep(cfg, bus, device, f);
        Associative(before, One(cfg, bus, device, f), Functions(cfg, bus, device, f + 1));
      }
      NoFunctionLeft(cfg, bus, device);
    }

    method CheckSlot(cfg: ConfigSpace, bus: nat, device: nat)
      requires Valid() && bus < 256 && device < 32
      modifies this
      ensures Valid() && all == old(all) + OneDevice(cfg, bus, device)
    {
      hide Present, Multi, Take, Functions;
      if !Present(cfg, Loc(bus, device, 0)) {
        return;
      }
      CheckDevice(cfg, Loc(bus, device, 0));
      if Multi(cfg, bus, device) {
        CheckFunctions(cfg, bus, device);
      }
    }

    method CheckBus(cfg: ConfigSpace, bus: nat)
      requires Valid() && bus < 256
      modifies this
      ensures Valid() && all == old(all) + Devices(cfg, bus, 0)
    {
      hide Take, OneDevice;
      for device := 0 to 32
        invariant Valid() && all + Devices(cfg, bus, device) == old(all) + Devices(cfg, bus, 0)
      {
        ghost var before := all;
        CheckSlot(cfg, bus, device);
        Associative(before, OneDevice(cfg, bus, device), Devices(cfg, bus, device + 1));
      }
    }

    // pci_init: exactly the first 64 listed functions in scan order.
    method Init(cfg: ConfigSpace)
      modifies this
      ensures Valid() && all == All(cfg) && devices == Take(All(cfg))
      ensures |devices| == (if |All(cfg)| <= 64 then |All(cfg)| else 64)
      ensures forall i | 0 <= i < |devices| :: devices[i] == All(cfg)[i]
    {
      hide Take, Devices, Multi, Buses;
      TakeNone();
      devices, all := [], [];
      CheckBus(cfg, 0);
      assert all == Devices(cfg, 0, 0);
      if Multi(cfg, 0, 0) {
        ghost var mid := all;
        for bus := 1 to 255
          invariant Valid() && all + Buses(cfg, bus) == mid + Buses(cfg, 1)
        {
          ghost var before := all;
          BusesUnfold(cfg, bus);
          CheckBus(cfg, bus);
          Associative(before, Devices(cfg, bus, 0), Buses(cfg, bus + 1));
        }
        BusesUnfold(cfg, 255);
        assert all == mid + Buses(cfg, 1);
      }
      TakenPrefix(All(cfg));
    }
  }

  lemma TakenPrefix(s: seq<Loc>)
    ensures |Take(s)| == (if |s| <= 64 then |s| else 64) && forall i | 0 <= i < |Take(s)| :: Take(s)[i] == s[i]
  {
  }

  lemma TakeNone()
    ensures Take([]) == []
  {
  }

  lemma BusesUnfold(cfg: ConfigSpace, bus: nat)
    requires bus <= 255
    ensures Buses(cfg, bus) == if bus == 255 then [] else Devices(cfg, bus, 0) + Buses(cfg, bus + 1)
  {
  }

  lemma Associative(a: seq<Loc>, b: seq<Loc>, c: seq<Loc>)
    ensures a + (b + c) == a + b + c
  {
  }
}

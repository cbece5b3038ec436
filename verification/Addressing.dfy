/**
 Mesh addressing (crates/common/src/netid.rs) and the check on a configured mesh range
 (crates/coordinator/src/main.rs). An IPv4 address is its 32-bit number; a network is any address in it
 and a prefix length.
 */
module Addressing {
  import opened Prelude

  const ADDRESSES: nat := 0x1_0000_0000

  type Ip = ip: nat | ip < ADDRESSES

  datatype Net = Net(addr: Ip, prefix: nat)

  predicate WellFormed(net: Net) {
    net.prefix <= 32
  }

  function Pow2(n: nat): (p: nat)
    ensures p >= 1
  {
    if n == 0 then 1 else 2 * Pow2(n - 1)
  }

  function HostCount(net: Net): nat
    requires WellFormed(net)
  {
    Pow2(32 - net.prefix)
  }

  /** The indices handed to devices are 1 up to this; the first and last address are reserved. */
  function Allocatable(net: Net): nat
    requires WellFormed(net)
  {
    if HostCount(net) < 2 then 0 else HostCount(net) - 2
  }

  /** `a` with its low bits cleared. */
  function Masked(a: nat, bits: nat): (m: nat)
    ensures m <= a
  {
    if bits == 0 then a else 2 * Masked(a / 2, bits - 1)
  }

  function Network(net: Net): Ip
    requires WellFormed(net)
  {
    Masked(net.addr, 32 - net.prefix)
  }

  /** The addresses from the network address to the broadcast address. */
  predicate Contains(net: Net, ip: Ip)
    requires WellFormed(net)
  {
    Network(net) <= ip < Network(net) + HostCount(net)
  }

  lemma Multiple(a: nat, h: nat)
    requires h > 0
    ensures a == h * (a / h) + a % h && a % h <= a
  {
  }

  lemma MulAdd(h: nat, x: nat, y: nat)
    ensures h * (x + y) == h * x + h * y
  {
  }

  lemma MulAssoc(f: nat, m: nat, x: nat)
    ensures f * m * x == f * (m * x)
  {
  }

  lemma MulStep(h: nat, a: nat, b: nat)
    requires a < b
    ensures h * a + h <= h * b
  {
    var more: nat := b - a - 1;
    MulAdd(h, a, more + 1);
    MulAdd(h, more, 1);
    assert b == a + (more + 1);
  }

  lemma DivRange(a: nat, h: nat, q: nat)
    requires h > 0
    ensures a / h == q <==> h * q <= a < h * q + h
  {
    Multiple(a, h);
    var d := a / h;
    if d < q {
      MulStep(h, d, q);
    } else if q < d {
      MulStep(h, q, d);
    }
  }

  function Shifted(a: nat, bits: nat): nat {
    if bits == 0 then a else Shifted(a / 2, bits - 1)
  }

  lemma {:induction false} MaskedIsAligned(a: nat, bits: nat)
    ensures Masked(a, bits) == Pow2(bits) * Shifted(a, bits)
    ensures a < Masked(a, bits) + Pow2(bits)
  {
    if bits > 0 {
      MaskedIsAligned(a / 2, bits - 1);
      MulAssoc(2, Pow2(bits - 1), Shifted(a / 2, bits - 1));
    }
  }

  /** An aligned address is its own network address. */
  lemma AlignedIsMasked(a: nat, bits: nat, q: nat)
    requires a == Pow2(bits) * q
    ensures Masked(a, bits) == a
  {
    MaskedIsAligned(a, bits);
    if Shifted(a, bits) < q {
      MulStep(Pow2(bits), Shifted(a, bits), q);
    } else if q < Shifted(a, bits) {
      MulStep(Pow2(bits), q, Shifted(a, bits));
    }
  }

  /** A network holds the addresses that share its prefix bits. */
  lemma ContainsMeansSamePrefix(net: Net, ip: Ip)
    requires WellFormed(net)
    ensures Contains(net, ip) <==> ip / HostCount(net) == net.addr / HostCount(net)
  {
    var bits := 32 - net.prefix;
    MaskedIsAligned(net.addr, bits);
    DivRange(net.addr, Pow2(bits), Shifted(net.addr, bits));
    DivRange(ip, Pow2(bits), Shifted(net.addr, bits));
  }

  lemma {:induction false} Pow2Adds(a: nat, b: nat)
    ensures Pow2(a + b) == Pow2(a) * Pow2(b)
  {
    if a > 0 {
      Pow2Adds(a - 1, b);
      assert a + b - 1 == a - 1 + b;
    }
  }

  lemma AlignedEnd(h: nat, m: nat, q: nat)
    requires h * q < h * m
    ensures h * q + h <= h * m
  {
    if q > m {
      MulStep(h, m, q);
    } else if q < m {
      MulStep(h, q, m);
    }
  }

  lemma NetworkEnds(net: Net)
    requires WellFormed(net)
    ensures Network(net) + HostCount(net) <= ADDRESSES
  {
    Pow2Adds(32 - net.prefix, net.prefix);
    Pow32();
    MaskedIsAligned(net.addr, 32 - net.prefix);
    AlignedEnd(HostCount(net), Pow2(net.prefix), Shifted(net.addr, 32 - net.prefix));
  }

  lemma Pow32()
    ensures Pow2(32) == ADDRESSES
  {
    assert Pow2(8) == 256;
    Pow2Adds(8, 8);
    Pow2Adds(16, 16);
  }

  // ---- Overlap ----

  predicate NetsOverlap(a: Net, b: Net)
    requires WellFormed(a) && WellFormed(b)
  {
    Contains(a, Network(b)) || Contains(b, Network(a))
  }

  /** Aligned blocks of `f` and of `f * m` addresses that meet are nested. */
  lemma NestedBlocks(f: nat, m: nat, u: nat, y: nat, ip: nat)
    requires f * u <= ip < f * u + f * m && f * y <= ip < f * y + f
    ensures f * u <= f * y && f * y + f <= f * u + f * m
  {
    MulAdd(f, u, m);
    if y < u {
      MulStep(f, y, u);
      assert false;
    } else if y >= u + m {
      if y > u + m { MulStep(f, u + m, y); }
      assert false;
    } else {
      MulStep(f, y, u + m);
      if u < y { MulStep(f, u, y); }
    }
  }

  lemma AlignedBlocks(h: nat, f: nat, m: nat, x: nat, y: nat, ip: nat)
    requires h == f * m && h * x <= ip < h * x + h && f * y <= ip < f * y + f
    ensures h * x <= f * y && f * y + f <= h * x + h
  {
    assert h * x == f * (m * x) by { MulAssoc(f, m, x); }
    NestedBlocks(f, m, m * x, y, ip);
  }

  /** A network that meets a coarser one lies inside it. */
  lemma CoarserBlock(coarse: Net, fine: Net, ip: Ip)
    requires WellFormed(coarse) && WellFormed(fine) && coarse.prefix <= fine.prefix
    requires Contains(coarse, ip) && Contains(fine, ip)
    ensures Network(coarse) <= Network(fine)
    ensures Network(fine) + HostCount(fine) <= Network(coarse) + HostCount(coarse)
    ensures Contains(coarse, Network(fine))
  {
    var f: nat, more: nat := 32 - fine.prefix, fine.prefix - coarse.prefix;
    Pow2Adds(f, more);
    MaskedIsAligned(fine.addr, f);
    MaskedIsAligned(coarse.addr, f + more);
    AlignedBlocks(Pow2(f + more), Pow2(f), Pow2(more), Shifted(coarse.addr, f + more), Shifted(fine.addr, f), ip);
  }

  /** Two networks overlap exactly when they share an address; then the finer lies inside the coarser. */
  lemma OverlapMeansShared(a: Net, b: Net)
    requires WellFormed(a) && WellFormed(b)
    ensures NetsOverlap(a, b) <==> exists ip: Ip :: Contains(a, ip) && Contains(b, ip)
    ensures NetsOverlap(a, b) && a.prefix <= b.prefix ==> forall ip: Ip :: Contains(b, ip) ==> Contains(a, ip)
    ensures NetsOverlap(a, b) && b.prefix <= a.prefix ==> forall ip: Ip :: Contains(a, ip) ==> Contains(b, ip)
  {
    if ip: Ip :| Contains(a, ip) && Contains(b, ip) {
      if a.prefix <= b.prefix {
        CoarserBlock(a, b, ip);
      } else {
        CoarserBlock(b, a, ip);
      }
    }
  }

  // ---- Indices ----

  predicate IndexIsValid(net: Net, index: nat)
    requires WellFormed(net)
  {
    1 <= index <= Allocatable(net)
  }

  function AddrFromIndex(net: Net, index: nat): Ip
    requires WellFormed(net) && IndexIsValid(net, index)
  {
    NetworkEnds(net);
    Network(net) + index
  }

  /** Distinct valid indices are distinct addresses of the network, and none of them is its network or
      broadcast address. */
  lemma AddressesAreDistinct(net: Net, i: nat, j: nat)
    requires WellFormed(net) && IndexIsValid(net, i) && IndexIsValid(net, j)
    ensures Contains(net, AddrFromIndex(net, i))
    ensures AddrFromIndex(net, i) == AddrFromIndex(net, j) <==> i == j
    ensures AddrFromIndex(net, i) != Network(net)
    ensures AddrFromIndex(net, i) + 1 < Network(net) + HostCount(net)
  {
  }

  /** An address is some index's exactly if it lies in the network and is neither its first nor its last. */
  lemma AddressableExactly(net: Net, ip: Ip)
    requires WellFormed(net)
    ensures
      (exists i: nat :: IndexIsValid(net, i) && AddrFromIndex(net, i) == ip) <==>
        Contains(net, ip) && ip != Network(net) && ip + 1 != Network(net) + HostCount(net)
  {
    if Contains(net, ip) && ip != Network(net) && ip + 1 != Network(net) + HostCount(net) {
      var i := ip - Network(net);
      assert IndexIsValid(net, i) && AddrFromIndex(net, i) == ip;
    }
  }

  /** `digest` is the hash of the device's key. */
  function DeviceHint(net: Net, digest: nat): (hint: nat)
    requires WellFormed(net)
    ensures Allocatable(net) > 0 ==> IndexIsValid(net, hint)
  {
    if Allocatable(net) == 0 then 1 else digest % Allocatable(net) + 1
  }

  /** Hints are spread evenly: every index is the hint of one digest in as many as there are indices, and two devices
      share one exactly if their digests agree modulo that number. */
  lemma HintsExactly(net: Net, d: nat, e: nat, i: nat)
    requires WellFormed(net) && IndexIsValid(net, i)
    ensures DeviceHint(net, d) == i <==> d % Allocatable(net) == i - 1
    ensures DeviceHint(net, d) == DeviceHint(net, e) <==> d % Allocatable(net) == e % Allocatable(net)
  {
  }

  function Clamp(x: nat, last: nat): nat
    requires last >= 1
  {
    if x < 1 then 1 else if x > last then last else x
  }

  /** The index probed after `step` steps upward from `start`, wrapping from `last` to 1. */
  function Probe(start: nat, last: nat, step: nat): nat
    requires 1 <= start <= last && step < last
  {
    if start + step <= last then start + step else start + step - last
  }

  /** `index` is free, and every index probed on the way from the hint to it is taken. */
  ghost predicate FirstFreeIndex(net: Net, taken: set<nat>, hint: nat, index: nat)
    requires WellFormed(net)
  {
    && IndexIsValid(net, index) && index !in taken
    && exists step: nat ::
         && step < Allocatable(net)
         && index == Probe(Clamp(hint, Allocatable(net)), Allocatable(net), step)
         && forall earlier: nat :: earlier < step ==>
              Probe(Clamp(hint, Allocatable(net)), Allocatable(net), earlier) in taken
  }

  /** The index is valid, and no device has it. */
  predicate Free(net: Net, taken: set<nat>, i: nat)
    requires WellFormed(net)
  {
    1 <= i <= Allocatable(net) && i !in taken
  }

  /** How many steps after `start` an index is probed. */
  function StepTo(start: nat, last: nat, i: nat): (step: nat)
    requires 1 <= start <= last && 1 <= i <= last
    ensures step < last && Probe(start, last, step) == i
    ensures forall other: nat :: other < last && Probe(start, last, other) == i ==> other == step
  {
    if i >= start then i - start else i + last - start
  }

  /** In numbers: the lowest free index from the hint up, or the lowest of all if there is none; a hint past the last
      index counts as the last. */
  lemma FirstFreeExactly(net: Net, taken: set<nat>, hint: nat, index: nat)
    requires WellFormed(net)
    ensures FirstFreeIndex(net, taken, hint, index) <==>
      && Free(net, taken, index)
      && forall i: nat :: Free(net, taken, i) && i != index ==>
           var from := Min(hint, Allocatable(net));
           if index >= from then i < from || index < i else index < i < from
  {
    var last := Allocatable(net);
    if Free(net, taken, index) {
      var start := Clamp(hint, last);
      var step := StepTo(start, last, index);
      forall i: nat | Free(net, taken, i) && i != index
        ensures StepTo(start, last, i) < step <==>
          !(if index >= Min(hint, last) then i < Min(hint, last) || index < i else index < i < Min(hint, last))
      {
      }
      if FirstFreeIndex(net, taken, hint, index) {
        forall i: nat | Free(net, taken, i) && i != index ensures StepTo(start, last, i) >= step {
          assert Probe(start, last, StepTo(start, last, i)) == i;
        }
      } else {
        var earlier: nat :| earlier < step && Probe(start, last, earlier) !in taken;
        var i := Probe(start, last, earlier);
        assert Free(net, taken, i) && StepTo(start, last, i) == earlier;
      }
    }
  }

  /** The first free index in probing order, or None exactly when every allocatable index is taken. */
  method PickFreeIndex(net: Net, taken: set<nat>, hint: nat) returns (r: Option<nat>)
    requires WellFormed(net)
    ensures r.None? <==> forall i :: IndexIsValid(net, i) ==> i in taken
    ensures r.Some? ==> FirstFreeIndex(net, taken, hint, r.value)
  {
    var last := Allocatable(net);
    if last == 0 {
      return None;
    }
    var start := Clamp(hint, last);
    var idx := start;
    for step := 0 to last
      invariant step < last ==> idx == Probe(start, last, step)
      invariant forall earlier: nat :: earlier < step ==> Probe(start, last, earlier) in taken
    {
      if idx !in taken {
        return Some(idx);
      }
      idx := if idx >= last then 1 else idx + 1;
    }
    forall i | IndexIsValid(net, i) ensures i in taken {
      var step := if i >= start then i - start else i + last - start;
      assert Probe(start, last, step) == i;
    }
    r := None;
  }

  // ---- The configured range ----

  function Quad(a: nat, b: nat, c: nat, d: nat): Ip
    requires a < 256 && b < 256 && c < 256 && d < 256
  {
    ((a * 256 + b) * 256 + c) * 256 + d
  }

  /** Section 3 of RFC 1918 and section 7 of RFC 6598, as address ranges. */
  predicate Private(ip: Ip) {
    || Quad(10, 0, 0, 0) <= ip <= Quad(10, 255, 255, 255)
    || Quad(172, 16, 0, 0) <= ip <= Quad(172, 31, 255, 255)
    || Quad(192, 168, 0, 0) <= ip <= Quad(192, 168, 255, 255)
    || Quad(100, 64, 0, 0) <= ip <= Quad(100, 127, 255, 255)
  }

  const PRIVATE: seq<Net> := [
    Net(Quad(10, 0, 0, 0), 8), Net(Quad(172, 16, 0, 0), 12),
    Net(Quad(192, 168, 0, 0), 16), Net(Quad(100, 64, 0, 0), 10)]

  datatype CidrError = BadPrefix | NotPrivate

  function ValidateMeshCidr(net: Net): Result<(), CidrError>
    requires WellFormed(net)
  {
    if !(8 <= net.prefix <= 30) then Err(BadPrefix)
    else if exists i :: 0 <= i < |PRIVATE| && Contains(PRIVATE[i], Network(net)) && net.prefix >= PRIVATE[i].prefix
      then Ok(())
    else Err(NotPrivate)
  }

  lemma SmallPowers()
    ensures Pow2(2) == 4 && Pow2(16) == 0x1_0000 && Pow2(17) == 0x2_0000 && Pow2(18) == 0x4_0000
    ensures Pow2(19) == 0x8_0000 && Pow2(20) == 0x10_0000 && Pow2(21) == 0x20_0000 && Pow2(22) == 0x40_0000
    ensures Pow2(23) == 0x80_0000 && Pow2(24) == 0x100_0000
  {
    assert Pow2(8) == 256;
    Pow2Adds(8, 8);
    assert Pow2(18) == 2 * Pow2(17);
    assert Pow2(20) == 2 * Pow2(19);
    assert Pow2(22) == 2 * Pow2(21);
    assert Pow2(24) == 2 * Pow2(23);
  }

  /** A range is accepted exactly when it has room for 2 to 2^24 - 2 devices and every address in it is
      private. */
  lemma AcceptedRangesArePrivate(net: Net)
    requires WellFormed(net)
    ensures ValidateMeshCidr(net).Ok? <==>
      8 <= net.prefix <= 30 && forall ip: Ip :: Contains(net, ip) ==> Private(ip)
  {
    if 8 <= net.prefix <= 30 {
      if ValidateMeshCidr(net).Ok? {
        var i :| 0 <= i < |PRIVATE| && Contains(PRIVATE[i], Network(net)) && net.prefix >= PRIVATE[i].prefix;
        forall ip: Ip | Contains(net, ip) ensures Private(ip) {
          WithinCoarser(PRIVATE[i], net, ip);
          PrivateBlock(i, ip);
        }
      } else {
        PublicAddress(net);
      }
    }
  }

  lemma WithinCoarser(coarse: Net, fine: Net, ip: Ip)
    requires WellFormed(coarse) && WellFormed(fine) && coarse.prefix <= fine.prefix
    requires Contains(coarse, Network(fine)) && Contains(fine, ip)
    ensures Contains(coarse, ip)
  {
    CoarserBlock(coarse, fine, Network(fine));
  }

  lemma {:induction false} Pow2Grows(a: nat, b: nat)
    requires a < b
    ensures 2 * Pow2(a) <= Pow2(b)
  {
    if a + 1 < b {
      Pow2Grows(a, b - 1);
    }
  }

  lemma PrivateBlock(i: nat, ip: Ip)
    requires i < |PRIVATE|
    ensures WellFormed(PRIVATE[i])
    ensures Contains(PRIVATE[i], ip) <==> PRIVATE[i].addr <= ip < PRIVATE[i].addr + HostCount(PRIVATE[i])
    ensures Contains(PRIVATE[i], ip) ==> Private(ip)
  {
    SmallPowers();
    if i == 0 {
      AlignedIsMasked(Quad(10, 0, 0, 0), 24, 10);
    } else if i == 1 {
      AlignedIsMasked(Quad(172, 16, 0, 0), 20, 172 * 16 + 1);
    } else if i == 2 {
      AlignedIsMasked(Quad(192, 168, 0, 0), 16, 192 * 256 + 168);
    } else {
      AlignedIsMasked(Quad(100, 64, 0, 0), 22, 100 * 4 + 1);
    }
  }

  /** A range of acceptable size that is refused contains an address outside the private ranges. */
  lemma PublicAddress(net: Net)
    requires WellFormed(net) && 8 <= net.prefix <= 30 && ValidateMeshCidr(net) == Err(NotPrivate)
    ensures exists ip: Ip :: Contains(net, ip) && !Private(ip)
  {
    NetworkEnds(net);
    var base := Network(net);
    if Private(base) {
      var top := base + HostCount(net) - 1;
      SmallPowers();
      forall i | 0 <= i < |PRIVATE|
        ensures PRIVATE[i].addr <= base < PRIVATE[i].addr + HostCount(PRIVATE[i]) ==>
          2 * HostCount(PRIVATE[i]) <= HostCount(net)
      {
        PrivateBlock(i, base);
        if Contains(PRIVATE[i], base) {
          Pow2Grows(32 - PRIVATE[i].prefix, 32 - net.prefix);
        }
      }
      if net.prefix > 8 {
        Pow2Grows(32 - net.prefix, 24);
      }
      TopIsPublic(base, HostCount(net));
    }
  }

  lemma TopIsPublic(base: Ip, size: nat)
    requires Private(base) && size <= 0x100_0000 && base + size <= ADDRESSES
    requires forall i :: 0 <= i < |PRIVATE| ==>
      PRIVATE[i].addr <= base < PRIVATE[i].addr + HostCount(PRIVATE[i]) ==> 2 * HostCount(PRIVATE[i]) <= size
    ensures !Private(base + size - 1)
  {
    SmallPowers();
    assert PRIVATE[0].addr == Quad(10, 0, 0, 0) && HostCount(PRIVATE[0]) == 0x100_0000;
    assert PRIVATE[1].addr == Quad(172, 16, 0, 0) && HostCount(PRIVATE[1]) == 0x10_0000;
    assert PRIVATE[2].addr == Quad(192, 168, 0, 0) && HostCount(PRIVATE[2]) == 0x1_0000;
    assert PRIVATE[3].addr == Quad(100, 64, 0, 0) && HostCount(PRIVATE[3]) == 0x40_0000;
  }
}

/** Starting a transfer on a DMA channel and moving its software pointer, on the channel's
    registers; the choice of the packet size for from-host transfers. */
module DmaChannel {
  import opened Arithmetic
  import opened Wrappers
  import opened DmaRing

  // ---------------------------------------------------------------- packet size

  function Pow2(n: nat): (p: nat)
    ensures p > 0
  {
    if n == 0 then 1 else 2 * Pow2(n - 1)
  }

  predicate Divides(d: nat, n: nat) {
    d > 0 && n % d == 0
  }

  /** `g` divides both numbers, and every common divisor is at most `g` and divides it. */
  ghost predicate IsGcd(g: nat, a: nat, b: nat) {
    && Divides(g, a) && Divides(g, b)
    && forall d: nat :: Divides(d, a) && Divides(d, b) ==> d <= g && Divides(d, g)
  }

  lemma {:induction false} Pow2Split(i: nat, j: nat)
    requires i <= j
    ensures Pow2(j) == Pow2(j - i) * Pow2(i)
    decreases j
  {
    if i > 0 {
      Pow2Split(i - 1, j - 1);
      assert Pow2(j) == 2 * (Pow2(j - i) * Pow2(i - 1)) == Pow2(j - i) * Pow2(i);
    }
  }

  lemma Pow2Divides(i: nat, j: nat)
    requires i <= j
    ensures Divides(Pow2(i), Pow2(j)) && Pow2(i) <= Pow2(j)
  {
    Pow2Split(i, j);
    DivModIs(Pow2(j), Pow2(i), Pow2(j - i), 0);
    MulMono(1, Pow2(j - i), Pow2(i));
  }

  lemma HalfOfProduct(d: nat, q: nat, n: nat)
    requires d * q == 2 * n && q % 2 == 0
    ensures d * (q / 2) == n
  {
    assert q == 2 * (q / 2);
    assert 2 * (d * (q / 2)) == d * q;
  }

  /** The divisors of a power of two are powers of two. */
  lemma {:induction false} DivisorOfPow2(d: nat, n: nat) returns (j: nat)
    requires Divides(d, Pow2(n))
    ensures j <= n && d == Pow2(j)
  {
    var q := Pow2(n) / d;
    assert Pow2(n) == d * q;
    if n == 0 {
      MulMono(1, q, d);
      j := 0;
    } else if d % 2 == 0 {
      HalfOfProduct(q, d, Pow2(n - 1));
      DivModIs(Pow2(n - 1), d / 2, q, 0);
      j := DivisorOfPow2(d / 2, n - 1);
      j := j + 1;
    } else {
      OddFactor(d, q, Pow2(n - 1));
      HalfOfProduct(d, q, Pow2(n - 1));
      DivModIs(Pow2(n - 1), d, q / 2, 0);
      j := DivisorOfPow2(d, n - 1);
    }
  }

  lemma OddFactor(d: nat, q: nat, n: nat)
    requires d * q == 2 * n && d % 2 == 1
    ensures q % 2 == 0
  {
    var h := d / 2;
    assert d == 2 * h + 1;
    assert d * q == 2 * (h * q) + q;
  }

  lemma CommonDivisor(size: nat, b: nat, m: nat, d: nat)
    requires Divides(d, size) && Divides(d, Pow2(m))
    requires forall j: nat :: b < j <= m ==> !Divides(Pow2(j), size)
    ensures d <= Pow2(b) && Divides(d, Pow2(b))
  {
    var j := DivisorOfPow2(d, m);
    assert Divides(Pow2(j), size);
    Pow2Divides(j, b);
  }

  /** The largest power of two up to `Pow2(m)` that divides `size` is their gcd. */
  lemma LargestPowerIsGcd(size: nat, b: nat, m: nat)
    requires b <= m && Divides(Pow2(b), size)
    requires forall j: nat :: b < j <= m ==> !Divides(Pow2(j), size)
    ensures IsGcd(Pow2(b), size, Pow2(m))
  {
    Pow2Divides(b, m);
    forall d: nat | Divides(d, size) && Divides(d, Pow2(m)) ensures d <= Pow2(b) && Divides(d, Pow2(b)) {
      CommonDivisor(size, b, m, d);
    }
  }

  /** The packet size for a from-host transfer: halve the maximum until it divides the size.
      For a size that is a multiple of 32 and a maximum of 128 shifted by the encoded
      payload size, this ends at their greatest common divisor, never below 32. */
  method BestTlp(size: nat, maxTlp: nat, ghost m: nat) returns (best: nat)
    requires size > 0 && size % 32 == 0 && m >= 7 && maxTlp == Pow2(m)
    ensures IsGcd(best, size, maxTlp) && best >= 32
  {
    best := maxTlp;
    ghost var b := m;
    assert Pow2(5) == 32;
    Pow2Divides(5, m);
    while size % best != 0
      invariant 5 <= b <= m && best == Pow2(b)
      invariant forall j: nat :: b < j <= m ==> !Divides(Pow2(j), size)
      decreases b
    {
      assert b != 5;
      best := best / 2;
      b := b - 1;
    }
    LargestPowerIsGcd(size, b, m);
    Pow2Divides(5, b);
  }

  // ---------------------------------------------------------------- the channel

  datatype Fault = ZeroParameter | SizeNotMultiple

  class DmaChannel {
    const maxTlp: nat
    const gap: nat
    var enabled: bool
    var startAddress: nat
    var endAddress: nat
    var tlpWords: nat
    var fromHost: bool
    var wrapAround: bool
    var regs: Regs

    /** While a channel is disabled the firmware holds its pointer at the start address and
        both cycle bits at 0. */
    ghost predicate Idle()
      reads this
    {
      !enabled ==> regs.current == startAddress && !regs.evenDma && !regs.evenPc && !regs.pending
    }

    constructor (maxTlp: nat, gap: nat)
      ensures Idle() && !enabled && this.maxTlp == maxTlp && this.gap == gap
    {
      this.maxTlp, this.gap := maxTlp, gap;
      enabled, startAddress, endAddress, tlpWords, fromHost, wrapAround := false, 0, 0, 0, false, false;
      regs := Regs(0, 0, false, false, false);
    }

    /** A write to the pointer register; see `WritePtr`. */
    method StorePtr(ptr: nat)
      requires Idle()
      modifies this`regs
      ensures Idle()
      ensures regs == if enabled then WritePtr(Config(startAddress, 0, 0, gap), old(regs), ptr)
              else old(regs).(readPtr := ptr)
    {
      if enabled && regs.readPtr > ptr + gap {
        regs := regs.(evenPc := !regs.evenPc);
      }
      regs := regs.(readPtr := ptr);
    }

    method Stop()
      modifies this`enabled, this`regs
      ensures !enabled && Idle() && regs.readPtr == old(regs.readPtr)
    {
      enabled := false;
      regs := regs.(current := startAddress, evenDma := false, evenPc := false, pending := false);
    }

    method SetStart(address: nat)
      requires !enabled && Idle()
      modifies this`startAddress, this`regs
      ensures Idle() && startAddress == address && regs == old(regs).(current := address)
    {
      startAddress := address;
      regs := regs.(current := address);
    }

    /** dma_to_host.  A faulty request leaves the channel stopped. */
    method ToHost(dst: nat, size: nat, wrap: bool) returns (fault: Option<Fault>)
      requires maxTlp > 0
      modifies this
      ensures Idle() && enabled == fault.None?
      ensures fault == if dst == 0 || size == 0 then Some(ZeroParameter)
                       else if size % maxTlp != 0 then Some(SizeNotMultiple) else None
      ensures fault.None? ==>
        && startAddress == dst && endAddress == dst + size && tlpWords == maxTlp / 4
        && !fromHost && wrapAround == wrap
        && ValidConfig(Config(dst, size, maxTlp, gap)) && DmaRing.ToHost(Config(dst, size, maxTlp, gap), regs, 0, 0)
    {
      Stop();
      if dst == 0 || size == 0 {
        return Some(ZeroParameter);
      }
      if size % maxTlp != 0 {
        return Some(SizeNotMultiple);
      }
      SetStart(dst);
      endAddress := dst + size;
      tlpWords := maxTlp / 4;
      fromHost := false;
      wrapAround := wrap;
      StorePtr(dst);
      if regs.evenPc == regs.evenDma {
        // meant to make the cycle bits differ; the firmware ignores it while disabled
        StorePtr(regs.readPtr - 1);
        StorePtr(regs.readPtr + 1);
      }
      enabled := true;
      StartedTracks(Config(dst, size, maxTlp, gap));
      fault := None;
    }

    /** dma_from_host; `userTlp` is the packet size packed into the upper half of the flags.  The
        ring starts correctly if and only if the packet size in use divides the buffer; the size
        that the loop chooses always does. */
    method FromHost(src: nat, size: nat, wrap: bool, userTlp: nat, ghost m: nat) returns (fault: Option<Fault>)
      requires m >= 7 && maxTlp == Pow2(m)
      modifies this
      ensures Idle() && enabled == fault.None?
      ensures fault == if src == 0 || size == 0 then Some(ZeroParameter)
                       else if size % 32 != 0 then Some(SizeNotMultiple) else None
      ensures fault.None? ==>
        && startAddress == src && endAddress == src + size && fromHost && wrapAround == wrap
        && regs == Regs(src, src, false, false, false)
        && (userTlp > 0 ==> tlpWords == (if userTlp > maxTlp then maxTlp else userTlp) / 4)
        && (userTlp == 0 ==> IsGcd(4 * tlpWords, size, maxTlp) && 4 * tlpWords >= 32)
        && (DmaRing.FromHost(Config(src, size, 4 * tlpWords, gap), regs, 0, 0)
            <==> tlpWords > 0 && size % (4 * tlpWords) == 0)
        && (userTlp == 0 ==> DmaRing.FromHost(Config(src, size, 4 * tlpWords, gap), regs, 0, 0))
    {
      Stop();
      if src == 0 || size == 0 {
        return Some(ZeroParameter);
      }
      if size % 32 != 0 {
        return Some(SizeNotMultiple);
      }
      var best := BestTlp(size, maxTlp, m);
      if userTlp != 0 {
        tlpWords := (if userTlp > maxTlp then maxTlp else userTlp) / 4;
      } else {
        tlpWords := best / 4;
        TlpInWords(best, size, m);
      }
      SetStart(src);
      endAddress := src + size;
      fromHost := true;
      wrapAround := wrap;
      StorePtr(src);
      enabled := true;
      fault := None;
      if tlpWords > 0 && size % (4 * tlpWords) == 0 {
        StartedTracks(Config(src, size, 4 * tlpWords, gap));
      }
    }

    /** dma_advance_ptr on an enabled channel. */
    method AdvancePtr(dst: nat, size: nat, bytes: nat)
      requires Idle() && enabled
      modifies this`regs
      ensures Idle()
      ensures forall unit: nat :: regs == Advance(Config(dst, size, unit, gap), old(regs), bytes)
    {
      var tmp := regs.readPtr + bytes;
      if tmp >= dst + size {
        tmp := tmp - size;
      }
      StorePtr(tmp);
    }

    /** The computation of wupper-dma-stat. */
    method UnreadPercent() returns (percent: Option<nat>)
      ensures percent == Percent(startAddress, endAddress, regs)
    {
      var pwrite, pread, pstart, pend := regs.current, regs.readPtr, startAddress, endAddress;
      percent := None;
      if pend > pstart && pwrite >= pstart && pwrite <= pend && pread >= pstart && pread <= pend {
        var p: nat;
        if pread == pwrite {
          p := if regs.evenDma == regs.evenPc then 100 else 0;
        } else if pread < pwrite {
          p := (100 * (pwrite - pread)) / (pend - pstart);
        } else {
          p := (100 * ((pend - pread) + (pwrite - pstart))) / (pend - pstart);
        }
        percent := Some(p);
      }
    }
  }

  /** The packet size is a multiple of four bytes, so nothing is lost in counting words. */
  lemma TlpInWords(best: nat, size: nat, m: nat)
    requires IsGcd(best, size, Pow2(m)) && best >= 32
    ensures 4 * (best / 4) == best
  {
    var j := DivisorOfPow2(best, m);
    if j < 2 {
      assert Pow2(0) == 1 && Pow2(1) == 2;
    } else {
      Pow2Divides(2, j);
      assert Pow2(2) == 4;
    }
  }
}

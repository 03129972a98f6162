/** buffer.c: searching the address space for free regions within reach of an origin (64-bit only). */
module Region {

  /** What VirtualQuery reports; Fail for addresses above the application range. */
  datatype Query = Fail | Region(base: nat, size: nat, allocBase: nat, free: bool)

  /** The operating system at the time of a call. */
  datatype Os = Os(minApp: nat, maxApp: nat, gran: nat, query: nat -> Query,
                   grant: nat -> bool,   // does VirtualAlloc of one block at this address succeed?
                   anywhere: nat)        // where VirtualAlloc places a block when it may choose, 0 if it fails

  const WRAP: nat := 0x1_0000_0000_0000_0000

  /** Subtraction of unsigned addresses. */
  function Sub(a: int, b: int): nat {
    (a - b) % WRAP
  }

  predicate Aligned(a: nat, g: nat)
    requires g > 0
  {
    a % g == 0
  }

  /** The granule of a. */
  function Floor(a: nat, g: nat): nat
    requires g > 0
  {
    a - a % g
  }

  predicate FreeAt(os: Os, a: nat) {
    os.query(a).Region? && os.query(a).free
  }

  /** The regions tile the application range; an allocation starts on the granularity and is nowhere free. */
  ghost predicate Coherent(os: Os) {
    && 0 < os.gran && os.gran <= os.minApp <= os.maxApp && os.maxApp + 2 * os.gran < WRAP
    && (forall a: nat :: os.query(a).Region? <==> a <= os.maxApp)
    && (forall a: nat :: a <= os.maxApp ==> var r := os.query(a);
        r.base <= a < r.base + r.size && r.base + r.size <= os.maxApp + 1)
    && (forall a: nat, b: nat {:trigger os.query(a), os.query(b)} ::
        a <= os.maxApp && os.query(a).base <= b < os.query(a).base + os.query(a).size ==>
          os.query(b).free == os.query(a).free)
    && (forall a: nat :: a <= os.maxApp && !os.query(a).free ==>
          os.query(a).allocBase <= a && Aligned(os.query(a).allocBase, os.gran))
    && (forall a: nat, b: nat {:trigger os.query(a), os.query(b)} ::
        a <= os.maxApp && !os.query(a).free && os.query(a).allocBase <= b <= a ==> !os.query(b).free)
  }

  // ---------- Multiples of the granularity ----------

  lemma Quotient(a: nat, g: nat)
    requires g > 0
    ensures a == g * (a / g) + a % g
  {
  }

  lemma MulMonotone(q: int, r: int, g: nat)
    ensures q <= r ==> g * q <= g * r
    ensures g * (q + 1) == g * q + g
  {
  }

  /** Distinct multiples of g are at least g apart. */
  lemma Spaced(a: nat, b: nat, g: nat)
    requires g > 0 && Aligned(a, g) && Aligned(b, g) && a < b
    ensures a + g <= b
  {
    Quotient(a, g);
    Quotient(b, g);
    MulMonotone(b / g, a / g, g);
    MulMonotone(a / g + 1, b / g, g);
    MulMonotone(a / g, b / g, g);
  }

  lemma MultipleAligned(q: nat, g: nat)
    requires g > 0
    ensures Aligned(g * q, g)
  {
    ModMultiple(q, g);
  }

  lemma ModMultiple(q: nat, g: nat)
    requires g > 0
    ensures (g * q) % g == 0
  {
    var k := g * q / g;
    Quotient(g * q, g);
    MulMonotone(k + 1, q, g);
    MulMonotone(k, q, g);
    MulMonotone(q + 1, k, g);
    MulMonotone(q, k, g);
  }

  lemma FloorAligned(a: nat, g: nat)
    requires g > 0
    ensures Aligned(Floor(a, g), g) && Floor(a, g) <= a < Floor(a, g) + g
  {
    Quotient(a, g);
    MultipleAligned(a / g, g);
  }

  lemma StepAligned(a: nat, g: nat)
    requires g > 0 && Aligned(a, g)
    ensures Aligned(a + g, g)
    ensures a >= g ==> Aligned(a - g, g)
  {
    Quotient(a, g);
    var q := a / g;
    assert a + g == g * (q + 1);
    MultipleAligned(q + 1, g);
    if a >= g {
      if q > 0 {
        assert a - g == g * (q - 1);
        MultipleAligned(q - 1, g);
      }
    }
  }

  /** No aligned free address in [lo, hi). */
  ghost predicate NoneFree(os: Os, lo: int, hi: int)
    requires os.gran > 0
  {
    forall a: nat :: Aligned(a, os.gran) && lo <= a < hi ==> !FreeAt(os, a)
  }

  // ---------- The searches ----------

  lemma QueryAt(os: Os, a: nat)
    requires Coherent(os)
    ensures 0 < os.gran && os.gran <= os.minApp <= os.maxApp && os.maxApp + 2 * os.gran < WRAP
    ensures os.query(a).Region? <==> a <= os.maxApp
    ensures a <= os.maxApp && !os.query(a).free ==>
            os.query(a).allocBase <= a && Aligned(os.query(a).allocBase, os.gran)
  {
  }

  /** Everything from above `at` up to the granule top has been searched, and `at` is the next multiple to try. */
  ghost predicate Searched(os: Os, at: nat, top: nat)
    requires os.gran > 0
  {
    && (at <= os.maxApp ==> Aligned(at, os.gran) && at + os.gran <= top && NoneFree(os, at + 1, top))
    && (top <= os.maxApp + os.gran ==> at <= os.maxApp || NoneFree(os, 0, top))
  }

  /**
   The greatest aligned free address below the origin's granule and not below pMinAddr, 0 (NULL) exactly when
   there is none.
   */
  method FindPrevFreeRegion(os: Os, pAddress: nat, pMinAddr: nat) returns (r: nat)
    requires Coherent(os)
    requires 0 < pMinAddr && pAddress < WRAP
    ensures r != 0 ==> FreeAt(os, r) && Aligned(r, os.gran) && pMinAddr <= r && r + os.gran <= Floor(pAddress, os.gran)
    ensures Floor(pAddress, os.gran) <= os.maxApp + os.gran ==>
              NoneFree(os, if r == 0 then pMinAddr else r + 1, Floor(pAddress, os.gran))
  {
    hide *;
    QueryAt(os, 0);
    FloorAligned(pAddress, os.gran);
    ghost var top := Floor(pAddress, os.gran);
    // Round down, then start from the previous multiple; from granule 0 the subtraction wraps around.
    SearchStart(os, top);
    var tryAddr: nat := Sub(Floor(pAddress, os.gran), os.gran);
    while tryAddr >= pMinAddr
      invariant Searched(os, tryAddr, top)
      decreases tryAddr
    {
      QueryAt(os, tryAddr);
      SearchStep(os, tryAddr, pMinAddr, top);
      var mbi := os.query(tryAddr);
      if mbi.Fail? {
        return 0;
      }
      if mbi.free {
        return tryAddr;
      }
      if mbi.allocBase < os.gran {
        return 0;
      }
      tryAddr := Sub(mbi.allocBase, os.gran);
    }
    SearchEnd(os, tryAddr, pMinAddr, top);
    return 0;
  }

  lemma SearchStart(os: Os, top: nat)
    requires Coherent(os) && top < WRAP && Aligned(top, os.gran)
    ensures Searched(os, Sub(top, os.gran), top)
  {
    FirstBelow(os, top);
    hide Aligned;
  }

  lemma SearchFailed(os: Os, at: nat, lo: nat, top: nat)
    requires Coherent(os) && Searched(os, at, top)
    ensures os.query(at).Fail? && top <= os.maxApp + os.gran ==> NoneFree(os, lo, top)
    ensures os.query(at).Region? && os.query(at).free ==>
              FreeAt(os, at) && Aligned(at, os.gran) && at + os.gran <= top && NoneFree(os, at + 1, top)
  {
    hide Aligned;
  }

  lemma SearchOn(os: Os, at: nat, lo: nat, top: nat)
    requires Coherent(os) && Searched(os, at, top) && os.query(at).Region? && !os.query(at).free
    ensures var base := os.query(at).allocBase;
            if base < os.gran then NoneFree(os, lo, top)
            else Searched(os, Sub(base, os.gran), top) && Sub(base, os.gran) < at
  {
    hide Aligned;
    SameAllocation(os, at, top);
    var base := os.query(at).allocBase;
    if base >= os.gran {
      StepAligned(base, os.gran);
      SubExact(base, os.gran);
    }
  }

  lemma SearchStep(os: Os, at: nat, lo: nat, top: nat)
    requires Coherent(os) && Searched(os, at, top)
    ensures os.query(at).Fail? && top <= os.maxApp + os.gran ==> NoneFree(os, lo, top)
    ensures os.query(at).Region? && os.query(at).free ==>
              FreeAt(os, at) && Aligned(at, os.gran) && at + os.gran <= top && NoneFree(os, at + 1, top)
    ensures os.query(at).Region? && !os.query(at).free ==>
              var base := os.query(at).allocBase;
              if base < os.gran then NoneFree(os, lo, top)
                else Searched(os, Sub(base, os.gran), top) && Sub(base, os.gran) < at
  {
    hide Aligned, Coherent, Searched, NoneFree, FreeAt, Sub;
    SearchFailed(os, at, lo, top);
    if os.query(at).Region? && !os.query(at).free {
      SearchOn(os, at, lo, top);
    }
  }

  lemma SearchEnd(os: Os, at: nat, lo: nat, top: nat)
    requires Coherent(os) && Searched(os, at, top) && at < lo
    ensures top <= os.maxApp + os.gran ==> NoneFree(os, lo, top)
  {
    hide Aligned;
  }

  lemma SubExact(a: nat, b: nat)
    requires b <= a < WRAP
    ensures Sub(a, b) == a - b
  {
  }

  lemma FirstBelow(os: Os, top: nat)
    requires 0 < os.gran < WRAP && top < WRAP && Aligned(top, os.gran)
    ensures top >= os.gran ==>
              Sub(top, os.gran) == top - os.gran && Aligned(top - os.gran, os.gran) &&
                NoneFree(os, top - os.gran + 1, top)
    ensures top < os.gran ==> top == 0 && Sub(top, os.gran) == WRAP - os.gran
  {
    if top >= os.gran {
      StepAligned(top, os.gran);
      NextMultiple(top - os.gran, os.gran);
    }
  }

  lemma AllocationNotFree(os: Os, at: nat)
    requires Coherent(os) && at <= os.maxApp && !os.query(at).free
    ensures forall a: nat :: os.query(at).allocBase <= a <= at ==> !FreeAt(os, a)
  {
    hide Aligned;
  }

  /** Nothing is free from the granule below an allocation up to an address of the allocation. */
  lemma SameAllocation(os: Os, at: nat, top: nat)
    requires Coherent(os) && at <= os.maxApp && !os.query(at).free
    requires NoneFree(os, at + 1, top)
    ensures NoneFree(os, os.query(at).allocBase - os.gran + 1, top)
    ensures os.query(at).allocBase < os.gran ==> NoneFree(os, 0, top)
  {
    var g, base := os.gran, os.query(at).allocBase;
    if base >= g {
      StepAligned(base, g);
      NextMultiple(base - g, g);
    }
    BeforeMultiple(base, g);
    AllocationNotFree(os, at);
    hide Aligned, Coherent;
  }

  /**
   The least aligned free address above the origin's granule and not above pMaxAddr, 0 (NULL) exactly when
   there is none.
   */
  method FindNextFreeRegion(os: Os, pAddress: nat, pMaxAddr: nat) returns (r: nat)
    requires Coherent(os)
    requires pAddress <= os.maxApp && pMaxAddr <= os.maxApp
    ensures r != 0 ==> FreeAt(os, r) && Aligned(r, os.gran) && r <= pMaxAddr && Floor(pAddress, os.gran) + os.gran <= r
    ensures NoneFree(os, Floor(pAddress, os.gran) + 1, if r == 0 then pMaxAddr + 1 else r)
  {
    var g := os.gran;
    FloorAligned(pAddress, g);
    ghost var bottom := Floor(pAddress, g);
    StepAligned(bottom, g);
    FirstAbove(os, bottom);
    hide Aligned, Floor;
    // Round down, then start from the next multiple.
    var tryAddr := (Floor(pAddress, g) + g) % WRAP;
    while tryAddr <= pMaxAddr
      invariant Aligned(tryAddr, g) && bottom + g <= tryAddr <= os.maxApp + g
      invariant NoneFree(os, bottom + 1, tryAddr)
      decreases os.maxApp + g - tryAddr
    {
      var mbi := os.query(tryAddr);
      if mbi.Fail? {
        break;
      }
      if mbi.free {
        return tryAddr;
      }
      SameRegion(os, tryAddr, bottom + 1);
      tryAddr := RoundUp(mbi, g);
    }
    return 0;
  }

  /** The next multiple from the end of a region on. */
  function RoundUp(mbi: Query, g: nat): nat
    requires mbi.Region? && g > 0
  {
    var t := (mbi.base + mbi.size + g - 1) % WRAP;
    t - t % g
  }

  lemma FirstAbove(os: Os, bottom: nat)
    requires Coherent(os) && Aligned(bottom, os.gran) && bottom <= os.maxApp
    ensures (bottom + os.gran) % WRAP == bottom + os.gran
    ensures NoneFree(os, bottom + 1, bottom + os.gran)
  {
    NextMultiple(bottom, os.gran);
  }

  lemma NextMultiple(a: nat, g: nat)
    requires g > 0 && Aligned(a, g)
    ensures forall b: nat :: Aligned(b, g) && a < b ==> a + g <= b
  {
    forall b: nat | Aligned(b, g) && a < b
      ensures a + g <= b
    {
      Spaced(a, b, g);
    }
  }

  lemma RegionFacts(os: Os, at: nat)
    requires Coherent(os) && at <= os.maxApp
    ensures var r := os.query(at);
            && os.gran > 0 && r.Region? && r.base <= at < r.base + r.size <= os.maxApp + 1
            && r.base + r.size + os.gran < WRAP
            && forall a: nat :: r.base <= a < r.base + r.size ==> os.query(a).free == r.free
  {
  }

  lemma RoundedUp(r: Query, g: nat)
    requires r.Region? && g > 0 && 0 < r.base + r.size && r.base + r.size + g < WRAP
    ensures var next := RoundUp(r, g);
            Aligned(next, g) && r.base + r.size <= next < r.base + r.size + g
  {
    FloorAligned(r.base + r.size + g - 1, g);
  }

  /** The next multiple after a region that is not free skips no free multiple. */
  lemma SameRegion(os: Os, at: nat, lo: nat)
    requires Coherent(os) && at <= os.maxApp && !os.query(at).free && Aligned(at, os.gran)
    requires NoneFree(os, lo, at)
    ensures var next := RoundUp(os.query(at), os.gran);
            && Aligned(next, os.gran) && at < next <= os.maxApp + os.gran
            && NoneFree(os, lo, next)
  {
    hide Coherent, Aligned, RoundUp;
    RegionFacts(os, at);
    var g, r := os.gran, os.query(at);
    RoundedUp(r, g);
    BeforeMultiple(RoundUp(r, g), g);
    forall a: nat | Aligned(a, g) && at <= a < RoundUp(r, g)
      ensures !FreeAt(os, a)
    {
      assert a + g <= RoundUp(r, g);
    }
  }

  lemma BeforeMultiple(b: nat, g: nat)
    requires g > 0 && Aligned(b, g)
    ensures forall a: nat :: Aligned(a, g) && a < b ==> a + g <= b
  {
    forall a: nat | Aligned(a, g) && a < b
      ensures a + g <= b
    {
      Spaced(a, b, g);
    }
  }
}

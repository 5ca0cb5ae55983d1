/** The search for the divisors of a PLL that gives the processor exactly the frequency asked for. */
module Clocks {
  import opened Arithmetic
  import opened Words

  /** What is programmed into the power manager: the PLL, and the dividers behind it. */
  datatype Registers = Registers(mul: nat, div: nat, div2: bool, cpuDiv: bool, cpuSel: nat, pbaDiv: bool, pbaSel: nat)

  function PllFrequency(r: Registers, osc: nat): int
    requires r.div > 0
  {
    osc * (r.mul + 1) / (r.div * if r.div2 then 2 else 1)
  }

  function Divided(frequency: int, on: bool, sel: nat): int {
    if on then frequency / Pow2(sel + 1) else frequency
  }

  /** The limits of the chip: the fastest range of the oscillator, the fastest peripheral bus, the greatest factor. */
  datatype Limits = Limits(vco: nat, pba: nat, mul: nat)

  /** The bound on a request under which every product that the search forms fits a word. */
  predicate FitsWord(cpu: nat, osc: nat, limits: Limits) {
    cpu * 31 < 0x1_0000_0000 && osc * 31 < 0x1_0000_0000 && osc * 2 * limits.mul < 0x1_0000_0000
  }

  /** div times the frequency is a multiple of the oscillator's. */
  predicate Divides(cpu: nat, osc: nat, div: nat)
    requires osc > 0
  {
    cpu * div % osc == 0
  }

  /** And no smaller one is. */
  ghost predicate LeastDivides(cpu: nat, osc: nat, div: nat)
    requires osc > 0
  {
    Divides(cpu, osc, div) && forall d :: 1 <= d < div ==> !Divides(cpu, osc, d)
  }

  /** The least divisor below 32 that makes the ratio exact needs a factor that the PLL has. */
  ghost predicate Solvable(cpu: nat, osc: nat, maxMul: nat)
    requires osc > 0
  {
    exists div :: 1 <= div < 32 && LeastDivides(cpu, osc, div) && cpu * div / osc <= maxMul
  }

  /** A divisor and a factor of the PLL that give the processor exactly its frequency. */
  predicate Setting(cpu: nat, osc: nat, div: nat, mul: nat) {
    osc * mul == cpu * div
  }

  lemma HasSetting(cpu: nat, osc: nat, maxMul: nat) returns (div: nat, mul: nat)
    requires osc > 0 && Solvable(cpu, osc, maxMul)
    ensures 1 <= div < 32 && mul <= maxMul && Setting(cpu, osc, div, mul)
  {
    div :| 1 <= div < 32 && LeastDivides(cpu, osc, div) && cpu * div / osc <= maxMul;
    QuotientNonNegative(cpu * div, osc);
    mul := cpu * div / osc;
  }

  lemma SettingSolves(cpu: nat, osc: nat, maxMul: nat, div: nat, mul: nat)
    requires osc > 0 && 1 <= div < 32 && mul <= maxMul && Setting(cpu, osc, div, mul)
    ensures Solvable(cpu, osc, maxMul)
  {
    QuotientUnique(cpu * div, osc, mul, 0);
    assert Divides(cpu, osc, div);
    hide Divides;
    var least := LeastOf(cpu, osc, div);
    Multiples(cpu, div, least);
    QuotientOrder(cpu * least, cpu * div, osc);
  }

  /** Without the search: some divisor and some factor of the PLL give exactly the frequency. */
  lemma SolvableMeans(cpu: nat, osc: nat, maxMul: nat)
    requires osc > 0
    ensures Solvable(cpu, osc, maxMul) <==>
      exists div, mul: nat :: 1 <= div < 32 && mul <= maxMul && Setting(cpu, osc, div, mul)
  {
    hide Solvable;
    hide Setting;
    if Solvable(cpu, osc, maxMul) {
      var div, mul := HasSetting(cpu, osc, maxMul);
    }
    if div, mul: nat :| 1 <= div < 32 && mul <= maxMul && Setting(cpu, osc, div, mul) {
      SettingSolves(cpu, osc, maxMul, div, mul);
    }
  }

  lemma LeastOf(cpu: nat, osc: nat, div: nat) returns (least: nat)
    requires osc > 0 && div >= 1 && Divides(cpu, osc, div)
    ensures 1 <= least <= div && LeastDivides(cpu, osc, least)
    decreases div
  {
    hide Divides;
    if d :| 1 <= d < div && Divides(cpu, osc, d) {
      least := LeastOf(cpu, osc, d);
    } else {
      least := div;
    }
  }

  lemma QuotientOrder(x: nat, y: nat, n: nat)
    requires n > 0 && x <= y
    ensures x / n <= y / n
  {
    Multiples(n, y / n, x / n);
  }

  lemma RestDecides(cpu: nat, osc: nat, div: nat)
    requires osc > 0
    ensures div * (cpu % osc) % osc == 0 <==> Divides(cpu, osc, div)
  {
    var q, r := cpu / osc, cpu % osc;
    assert cpu == osc * q + r;
    var q2, r2 := (div * r) / osc, (div * r) % osc;
    ProductAtLeast(div, r);
    assert div * r == osc * q2 + r2;
    assert cpu * div == osc * (q * div) + div * r == osc * (q * div + q2) + r2;
    QuotientUnique(cpu * div, osc, q * div + q2, r2);
  }

  lemma ExactQuotient(x: nat, n: nat, q: nat)
    requires n > 0 && x == n * q
    ensures x / n == q
  {
    QuotientUnique(x, n, q, 0);
  }

  /** osc * mul is what the processor's frequency needs of the PLL after division by div and 2^shift. */
  predicate Exact(cpu: nat, osc: nat, mul: nat, div: nat, shift: nat) {
    osc * mul == cpu * (div * Pow2(shift))
  }

  lemma HalveDiv(cpu: nat, osc: nat, mul: nat, div: nat, shift: nat)
    requires Exact(cpu, osc, mul, div, shift) && div % 2 == 0
    ensures Exact(cpu, osc, mul, div / 2, shift + 1)
  {
    assert div / 2 * (2 * Pow2(shift)) == div * Pow2(shift);
  }

  lemma DoubleMul(cpu: nat, osc: nat, mul: nat, div: nat, shift: nat)
    requires Exact(cpu, osc, mul, div, shift)
    ensures Exact(cpu, osc, 2 * mul, div, shift + 1)
  {
    assert div * (2 * Pow2(shift)) == 2 * (div * Pow2(shift));
    assert cpu * (2 * (div * Pow2(shift))) == 2 * (cpu * (div * Pow2(shift)));
    assert osc * (2 * mul) == 2 * (osc * mul);
  }

  /** The PLL, with its own divider by two, runs at a power of two times the processor's frequency. */
  lemma PllIsExact(cpu: nat, osc: nat, mul: nat, div: nat, shift: nat)
    requires Exact(cpu, osc, mul, div, shift) && div > 0
    ensures shift == 0 ==> osc * mul / (div * 1) == cpu
    ensures shift > 0 ==>
      osc * mul / (div * 2) == cpu * Pow2(shift - 1) && cpu * Pow2(shift - 1) / Pow2(shift - 1) == cpu
  {
    if shift == 0 {
      assert cpu * (div * 1) == div * cpu;
      ExactQuotient(osc * mul, div * 1, cpu);
    } else {
      var p := Pow2(shift - 1);
      assert cpu * (div * (2 * p)) == (div * 2) * (cpu * p);
      ExactQuotient(osc * mul, div * 2, cpu * p);
      assert cpu * p == p * cpu;
      ExactQuotient(cpu * p, p, cpu);
    }
  }

  lemma SmallProduct(a: nat, b: nat, c: nat, d: nat)
    requires a <= c && b <= d
    ensures 0 <= a * b <= c * d
  {
    ProductAtLeast(a, b);
    Multiples(a, d, b);
    Multiples(d, c, a);
  }

  lemma FitsMeans(x: nat)
    requires x < 0x1_0000_0000
    ensures Wrap32(x) == x
  {
  }

  method FindDivisor(cpu: u4, osc: u4) returns (div: nat)
    requires osc > 0
    ensures 1 <= div <= 32
    ensures osc * 31 < 0x1_0000_0000 ==>
      if div < 32 then LeastDivides(cpu, osc, div) else forall d :: 1 <= d < 32 ==> !Divides(cpu, osc, d)
  {
    hide Divides;
    hide Wrap32;
    var rest: nat := cpu % osc;
    div := 1;
    while div < 32
      invariant 1 <= div <= 32
      invariant osc * 31 < 0x1_0000_0000 ==> forall d :: 1 <= d < div ==> !Divides(cpu, osc, d)
    {
      SmallProduct(div, rest, 31, osc);
      if osc * 31 < 0x1_0000_0000 {
        FitsMeans(div * rest);
        RestDecides(cpu, osc, div);
      }
      if Wrap32(div * rest) % osc == 0 {
        break;
      }
      div := div + 1;
    }
  }

  /** Powers of two in the divisor go to the divider of the processor; then the PLL is made as fast as it may be. */
  method Scale(cpu: u4, osc: u4, mul0: nat, div0: nat, limits: Limits) returns (mul: nat, div: nat, shift: nat)
    requires osc > 0 && 0 < mul0 <= limits.mul && 0 < div0
    ensures Exact(cpu, osc, mul0, div0, 0) ==> Exact(cpu, osc, mul, div, shift)
    ensures 0 < mul <= limits.mul && div % 2 == 1 && 0 < div <= div0
    ensures Wrap32(osc * 2 * mul) / div >= limits.vco || 2 * mul > limits.mul
    ensures Pow2(shift) <= div0 * limits.mul
  {
    hide Exact;
    hide Pow2;
    hide Wrap32;
    mul, div, shift := mul0, div0, 0;
    ghost var exact, factor: nat := Exact(cpu, osc, mul0, div0, 0), 1;
    PowerSteps(0);
    while div % 2 == 0
      invariant 0 < div <= div0 && (exact ==> Exact(cpu, osc, mul, div, shift))
      invariant factor == Pow2(shift) && factor * div == div0
      decreases div
    {
      if exact {
        HalveDiv(cpu, osc, mul, div, shift);
      }
      PowerSteps(shift);
      HalvedProduct(factor, div);
      factor := 2 * factor;
      div := div / 2;
      shift := shift + 1;
    }
    ghost var fromDiv := factor;
    FactorAtMost(factor, div, mul, limits.mul);
    while Wrap32(osc * 2 * mul) / div < limits.vco
      invariant 0 < mul <= limits.mul && (exact ==> Exact(cpu, osc, mul, div, shift))
      invariant Pow2(shift) <= fromDiv * mul
      decreases limits.mul - mul
    {
      if 2 * mul > limits.mul {
        break;
      }
      if exact {
        DoubleMul(cpu, osc, mul, div, shift);
      }
      PowerSteps(shift);
      DoubledProduct(fromDiv, mul);
      mul := mul * 2;
      shift := shift + 1;
    }
    FactorAtMost(fromDiv, div, mul, limits.mul);
  }

  lemma PowerSteps(k: nat)
    ensures Pow2(0) == 1 && Pow2(k + 1) == 2 * Pow2(k)
  {
  }

  lemma HalvedProduct(factor: nat, div: nat)
    requires div % 2 == 0
    ensures 2 * factor * (div / 2) == factor * div
  {
    assert 2 * (div / 2) == div;
  }

  lemma DoubledProduct(a: nat, b: nat)
    ensures a * (b * 2) == 2 * (a * b)
  {
  }

  lemma FactorAtMost(factor: nat, div: nat, mul: nat, maxMul: nat)
    requires div > 0 && 0 < mul <= maxMul
    ensures factor <= factor * mul <= factor * div * maxMul
  {
    Multiples(factor, mul, 1);
    Multiples(factor, maxMul, mul);
    Multiples(factor, div, 1);
    Multiples(maxMul, factor * div, factor);
  }

  /** The bus gets the first of the frequencies pll, pll / 2, pll / 4, ... that is small enough; pll itself only if
      it is exactly what has been asked for. */
  predicate BusChoice(pll: int, wanted: nat, limit: nat, k: nat) {
    && Stops(pll, wanted, limit, k)
    && forall j :: 0 <= j < k ==> !Stops(pll, wanted, limit, j)
  }

  predicate Stops(pll: int, wanted: nat, limit: nat, k: nat) {
    var f := pll / Pow2(k);
    (f == wanted && f <= limit) || (k > 0 && f < wanted)
  }

  method ChooseBusDivider(pll: nat, wanted: nat, limit: nat) returns (k: nat)
    ensures BusChoice(pll, wanted, limit, k)
  {
    hide Pow2;
    k := 0;
    Undivided(pll);
    var rest := pll;
    while rest > limit || rest != wanted
      invariant 0 <= rest == pll / Pow2(k) && (k > 0 ==> rest >= wanted)
      invariant forall j :: 0 <= j < k ==> !Stops(pll, wanted, limit, j)
      decreases rest, k == 0
    {
      assert !Stops(pll, wanted, limit, k);
      Halved(pll, k);
      k := k + 1;
      rest := pll / Pow2(k);
      if rest < wanted {
        break;
      }
    }
  }

  lemma Undivided(pll: nat)
    ensures pll / Pow2(0) == pll
  {
  }

  lemma Halved(pll: nat, k: nat)
    ensures 0 <= pll / Pow2(k + 1) == pll / Pow2(k) / 2
  {
    HalfOfQuotient(pll, Pow2(k));
    Multiples(Pow2(k), pll / Pow2(k), -1);
  }

  class FreqParam {
    var cpuF: u4
    var pbaF: u4
    const osc0F: u4

    constructor (cpuF: u4, pbaF: u4, osc0F: u4)
      ensures this.cpuF == cpuF && this.pbaF == pbaF && this.osc0F == osc0F
    {
      this.cpuF, this.pbaF, this.osc0F := cpuF, pbaF, osc0F;
    }
  }

  /** Hangs: the search for a fast PLL does not end. */
  datatype Status = Osc0 | Pll(regs: Registers) | Fail | Hangs

  /** The power of two by which the processor is slower than the PLL. */
  function CpuShift(r: Registers): nat {
    if r.cpuDiv then r.cpuSel + 1 else 0
  }

  /** What a request below the bound leads to: the search hangs for a processor without a frequency, fails iff no
      setting of the PLL is exact, and otherwise gives exactly the frequency asked for, and a bus that is not too
      fast. */
  ghost predicate Exactly(cpu: nat, osc: nat, wanted: nat, limits: Limits, status: Status, cpu2: nat, bus: nat)
    requires osc > 0
  {
    && cpu2 == cpu && (status.Hangs? <==> cpu == 0)
    && (status.Fail? <==> cpu != 0 && cpu != osc && !Solvable(cpu, osc, limits.mul))
    && (status.Pll? ==>
          var regs := status.regs;
          regs.div > 0
          && var pll := PllFrequency(regs, osc);
          && pll == cpu * Pow2(CpuShift(regs)) && Divided(pll, regs.cpuDiv, regs.cpuSel) == cpu
          && osc * (regs.mul + 1) == cpu * ((regs.div * if regs.div2 then 2 else 1) * Pow2(CpuShift(regs)))
          && Divided(pll, regs.pbaDiv, regs.pbaSel) == bus
          && BusChoice(pll, wanted, limits.pba, if regs.pbaDiv then regs.pbaSel + 1 else 0)
          && (regs.cpuDiv ==> Pow2(regs.cpuSel + 2) <= 31 * limits.mul))
  }

  /** pm_configure_clocks; products are taken modulo 2^32. */
  method ConfigureClocks(param: FreqParam, limits: Limits) returns (status: Status)
    requires param.osc0F > 0 && limits.vco > 0
    modifies param
    ensures status.Osc0? <==> old(param.cpuF) == param.osc0F
    ensures status.Osc0? ==> param.cpuF == old(param.cpuF) && param.pbaF == param.osc0F
    ensures status.Fail? || status.Hangs? ==> param.cpuF == old(param.cpuF) && param.pbaF == old(param.pbaF)
    ensures !status.Osc0? ==> param.pbaF <= old(param.pbaF)
    ensures status.Pll? ==> status.regs.mul < limits.mul && 0 < status.regs.div < 32 && status.regs.div % 2 == 1
    ensures FitsWord(old(param.cpuF), param.osc0F, limits) ==>
      Exactly(old(param.cpuF), param.osc0F, old(param.pbaF), limits, status, param.cpuF, param.pbaF)
  {
    hide Exact;
    hide Divides;
    hide BusChoice;
    hide Pow2;
    hide Wrap32;
    hide Solvable;
    var cpu: nat, osc: nat := param.cpuF, param.osc0F;
    ghost var fits := FitsWord(cpu, osc, limits);
    if cpu == osc {
      param.pbaF := osc;
      return Osc0;
    }
    var div := FindDivisor(cpu, osc);
    if div == 32 {
      if fits {
        NoDivisor(cpu, osc, limits.mul);
      }
      return Fail;
    }
    var mul := Factor(cpu, osc, div, limits);
    if mul > limits.mul {
      return Fail;
    }
    if mul == 0 {
      return Hangs;
    }
    var divCpu: nat;
    ghost var least := div;
    mul, div, divCpu := Scale(cpu, osc, mul, div, limits);
    Multiples(limits.mul, 31, least);
    ghost var shift := divCpu;
    var div2 := false;
    if divCpu != 0 {
      divCpu := divCpu - 1;
      div2 := true;
    }
    var pll := PllOf(cpu, osc, mul, div, div2, shift, limits);
    QuotientAtMost(pll, Pow2(divCpu));
    param.cpuF := pll / Pow2(divCpu);
    var divPba: nat := ChooseBusDivider(pll, param.pbaF, limits.pba);
    BusIsSlowEnough(pll, param.pbaF, limits.pba, divPba);
    QuotientAtMost(pll, Pow2(divPba));
    Undivided(pll);
    param.pbaF := pll / Pow2(divPba);
    status := Pll(Registers(mul - 1, div, div2, divCpu != 0, if divCpu != 0 then divCpu - 1 else 0,
                            divPba != 0, if divPba != 0 then divPba - 1 else 0));
  }

  /** The factor that belongs to the divisor. */
  method Factor(cpu: u4, osc: u4, div: nat, limits: Limits) returns (mul: nat)
    requires osc > 0 && 1 <= div < 32
    ensures FitsWord(cpu, osc, limits) && LeastDivides(cpu, osc, div) ==>
      Exact(cpu, osc, mul, div, 0) && (mul == 0 <==> cpu == 0) &&
      (mul <= limits.mul <==> Solvable(cpu, osc, limits.mul))
  {
    hide Divides;
    hide Wrap32;
    hide Solvable;
    hide Exact;
    SmallProduct(cpu, div, cpu, 31);
    var product: nat := Wrap32(cpu * div);
    mul := Quotient(product, osc);
    if FitsWord(cpu, osc, limits) && LeastDivides(cpu, osc, div) {
      FitsMeans(cpu * div);
      DivisorIsExact(cpu, osc, div);
      LeastDivisor(cpu, osc, limits.mul, div);
    }
  }

  function Quotient(x: nat, n: nat): nat
    requires n > 0
  {
    QuotientNonNegative(x, n);
    x / n
  }

  lemma PllProduct(cpu: nat, osc: nat, mul: nat, div: nat, shift: nat)
    requires Exact(cpu, osc, mul, div, shift)
    ensures osc * mul == cpu * if shift == 0 then (div * 1) * Pow2(0) else (div * 2) * Pow2(shift - 1)
  {
    if shift > 0 {
      assert div * (2 * Pow2(shift - 1)) == (div * 2) * Pow2(shift - 1);
    }
  }

  /** The frequency of the PLL behind its own divider. */
  method PllOf(cpu: u4, osc: u4, mul: nat, div: nat, div2: bool, ghost shift: nat, ghost limits: Limits)
      returns (pll: u4)
    requires 0 < mul <= limits.mul && div > 0 && div2 == (shift > 0)
    ensures FitsWord(cpu, osc, limits) && Exact(cpu, osc, mul, div, shift) ==>
      var down := if shift > 0 then shift - 1 else 0;
      && pll == osc * mul / (div * if div2 then 2 else 1) && pll == cpu * Pow2(down) && pll / Pow2(down) == cpu
      && osc * mul == cpu * ((div * if div2 then 2 else 1) * Pow2(down))
  {
    hide Wrap32;
    hide Exact;
    hide Pow2;
    var product: nat := Wrap32(osc * mul);
    QuotientAtMost(product, div * if div2 then 2 else 1);
    pll := product / (div * if div2 then 2 else 1);
    if FitsWord(cpu, osc, limits) && Exact(cpu, osc, mul, div, shift) {
      SmallProduct(osc, mul, osc, 2 * limits.mul);
      FitsMeans(osc * mul);
      PllIsExact(cpu, osc, mul, div, shift);
      PllProduct(cpu, osc, mul, div, shift);
      OnceIsAll(cpu);
    }
  }

  lemma OnceIsAll(x: nat)
    ensures x * Pow2(0) == x && x / Pow2(0) == x
  {
  }

  lemma NoDivisor(cpu: nat, osc: nat, maxMul: nat)
    requires osc > 0 && forall d :: 1 <= d < 32 ==> !Divides(cpu, osc, d)
    ensures !Solvable(cpu, osc, maxMul) && cpu != 0
  {
    if cpu == 0 {
      assert Divides(cpu, osc, 1);
    }
  }

  lemma QuotientNonNegative(x: nat, n: nat)
    requires n > 0
    ensures x / n >= 0
  {
    Multiples(n, x / n, -1);
  }

  lemma QuotientAtMost(x: nat, n: nat)
    requires n > 0
    ensures 0 <= x / n <= x
  {
    QuotientNonNegative(x, n);
    ProductAtLeast(x / n, n);
    assert x == n * (x / n) + x % n;
  }

  lemma DivisorIsExact(cpu: nat, osc: nat, div: nat)
    requires osc > 0 && div > 0 && Divides(cpu, osc, div)
    ensures cpu * div / osc >= 0 && (cpu * div / osc == 0 <==> cpu == 0) && Exact(cpu, osc, cpu * div / osc, div, 0)
  {
    var q := cpu * div / osc;
    assert cpu * div == osc * q;
    ProductAtLeast(cpu, div);
    Multiples(osc, 0, q);
    Multiples(osc, q, 0);
  }

  lemma LeastDivisor(cpu: nat, osc: nat, maxMul: nat, div: nat)
    requires osc > 0 && 1 <= div < 32 && LeastDivides(cpu, osc, div)
    ensures Solvable(cpu, osc, maxMul) <==> cpu * div / osc <= maxMul
  {
    hide Divides;
  }

  /** What has been asked of the bus is kept, unless the oscillator itself drives it, and no smaller division would have
      kept it; but an undivided PLL drives the bus only at exactly the frequency asked for. */
  lemma BusIsSlowEnough(pll: nat, wanted: nat, limit: nat, k: nat)
    requires BusChoice(pll, wanted, limit, k)
    ensures pll / Pow2(k) <= wanted && (wanted <= limit ==> pll / Pow2(k) <= limit)
    ensures forall j: nat :: 0 < j < k ==> pll / Pow2(j) > wanted || pll / Pow2(j) == wanted > limit
    ensures k == 0 <==> pll == wanted <= limit
  {
    hide Pow2;
    Undivided(pll);
    assert k > 0 ==> !Stops(pll, wanted, limit, 0);
    forall j: nat | 0 < j < k ensures pll / Pow2(j) > wanted || pll / Pow2(j) == wanted > limit {
      assert !Stops(pll, wanted, limit, j);
    }
  }

  /** The divider of the bus has a selector of `width` bits.  It can hold what the search finds exactly if the
      largest division that it has slows the bus down enough; the frequency divided is that of the processor, as
      often doubled as the divider chosen for the processor says. */
  lemma BusSelectorFitsIff(cpu: nat, osc: nat, wanted: nat, limits: Limits, status: Status, bus: nat, width: nat)
    requires osc > 0 && status.Pll? && Exactly(cpu, osc, wanted, limits, status, cpu, bus)
    ensures var slowest := cpu * Pow2(CpuShift(status.regs)) / Pow2(Pow2(width));
      (status.regs.pbaDiv ==> status.regs.pbaSel < Pow2(width)) <==>
      slowest < wanted || (slowest == wanted && slowest <= limits.pba)
  {
    hide Pow2;
    hide BusChoice;
    hide Solvable;
    hide CpuShift;
    ProductAtLeast(cpu, Pow2(CpuShift(status.regs)));
    DivisionsReach(cpu * Pow2(CpuShift(status.regs)), wanted, limits.pba,
                   if status.regs.pbaDiv then status.regs.pbaSel + 1 else 0, Pow2(width));
  }

  lemma DivisionsReach(pll: nat, wanted: nat, limit: nat, k: nat, n: nat)
    requires BusChoice(pll, wanted, limit, k) && n > 0
    ensures k <= n <==> pll / Pow2(n) < wanted || (pll / Pow2(n) == wanted && pll / Pow2(n) <= limit)
  {
    hide Pow2;
    if n < k {
      assert !Stops(pll, wanted, limit, n);
    } else {
      SlowerAndSlower(pll, k, n);
    }
  }

  lemma {:induction false} SlowerAndSlower(pll: nat, k: nat, n: nat)
    requires k <= n
    ensures pll / Pow2(n) <= pll / Pow2(k)
    decreases n
  {
    hide Pow2;
    if k < n {
      SlowerAndSlower(pll, k, n - 1);
      Halved(pll, n - 1);
    }
  }

  /** An oscillator of 12 MHz, a processor at 66 MHz, and one hertz for the bus: the search succeeds, and the
      selector of the bus is at least 8, which three bits do not hold. */
  method SelectorOverflows(limits: Limits) returns (param: FreqParam, status: Status)
    requires limits.vco > 0 && 11 <= limits.mul <= 15
    ensures fresh(param) && param.osc0F == 12000000 && param.cpuF == 66000000
    ensures status.Pll? && status.regs.pbaDiv && status.regs.pbaSel >= 8
  {
    hide Pow2;
    hide BusChoice;
    hide Solvable;
    hide CpuShift;
    param := new FreqParam(66000000, 1, 12000000);
    status := ConfigureClocks(param, limits);
    assert Setting(66000000, 12000000, 2, 11);
    SolvableMeans(66000000, 12000000, limits.mul);
    EightPowers();
    BusSelectorFitsIff(66000000, 12000000, 1, limits, status, param.pbaF, 3);
    StillFast(66000000, Pow2(CpuShift(status.regs)), 0x100);
  }

  lemma EightPowers()
    ensures Pow2(3) == 8 && Pow2(8) == 0x100
  {
    assert Pow2(4) == 16 && Pow2(8) == 16 * Pow2(4);
  }

  lemma StillFast(cpu: nat, n: nat, d: nat)
    requires d > 0 && n > 0 && cpu >= 2 * d
    ensures cpu * n / d >= 2
  {
    SmallProduct(cpu, 1, cpu, n);
    QuotientOrder(2 * d, cpu * n, d);
    ExactQuotient(2 * d, d, 2);
  }

  /** The loop that speeds up the PLL goes round n times from this factor on. */
  predicate GoesRound(osc: u4, mul: nat, div: nat, limits: Limits, n: nat)
    requires div > 0
    decreases n
  {
    n == 0
    || (Wrap32(osc * 2 * mul) / div < limits.vco && 2 * mul <= limits.mul
        && GoesRound(osc, 2 * mul, div, limits, n - 1))
  }

  /** From a factor of zero, the one for a processor frequency of zero, it goes round for ever. */
  lemma {:induction false} ZeroNeverEnds(osc: u4, div: nat, limits: Limits, n: nat)
    requires div > 0 && limits.vco > 0
    ensures GoesRound(osc, 0, div, limits, n)
  {
    if n > 0 {
      ZeroNeverEnds(osc, div, limits, n - 1);
    }
  }
}

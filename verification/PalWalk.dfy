/** The PALcode's TB miss flow: the PTE through the virtual page table, a double miss walking the
    upper levels (firmware/ev8/pal.c: dtbm_flow, itb_flow, dtbm_double), against a direct three-level
    walk. 43-bit addresses, 8 KB pages. */
module PalWalk {
  import opened Bits

  const PAGE: nat := 0x2000
  const VAS: nat := 0x800_0000_0000 // 2^43 addresses
  const VPT_PAGES: nat := 0x10_0000 // pages of level 3 PTEs, one for each VA<42:23>
  const REACH: nat := 0x80_0000 // 2^23, what a page of PTEs maps

  // ---- Page tables -----------------------------------------------------------------------------

  predicate V(pte: Word) { pte % 2 == 1 }
  predicate FaultOnRead(pte: Word) { pte / 2 % 2 == 1 }
  predicate FaultOnExecute(pte: Word) { pte / 8 % 2 == 1 }
  predicate KernelReads(pte: Word) { pte / 0x100 % 2 == 1 }
  function Pfn(pte: Word): nat { pte / 0x1_0000_0000 }

  /** The pages a granularity hint of the PTE covers. */
  function Block(pte: Word): (n: nat)
    ensures n in {1, 8, 64, 512}
  {
    var gh := pte / 32 % 4;
    if gh == 0 then 1 else if gh == 1 then 8 else if gh == 2 then 64 else 512
  }

  /** A PTE by its fields: valid <0>, fault on read <1> and on execute <3>, granularity hint <6:5>, kernel
      read enable <8>, frame <63:32>; the rest are other bits. */
  lemma PteFields(v: nat, fr: nat, b2: nat, fe: nat, b4: nat, gh: nat, b7: nat, kre: nat, high: nat, pfn: nat)
    requires v < 2 && fr < 2 && b2 < 2 && fe < 2 && b4 < 2 && gh < 4 && b7 < 2 && kre < 2
    requires high < 0x80_0000 && pfn < 0x1_0000_0000
    ensures var pte := v + 2 * fr + 4 * b2 + 8 * fe + 16 * b4 + 32 * gh + 128 * b7 + 256 * kre + 512 * high
                       + 0x1_0000_0000 * pfn;
            && pte < WORD
            && (V(pte) <==> v == 1) && (FaultOnRead(pte) <==> fr == 1) && (FaultOnExecute(pte) <==> fe == 1)
            && (KernelReads(pte) <==> kre == 1) && Pfn(pte) == pfn && Block(pte) == Pow2(3 * gh)
  {
    hide V, FaultOnRead, FaultOnExecute, KernelReads, Pfn, Block, Cut, Pow2;
    var low := v + 2 * fr + 4 * b2 + 8 * fe + 16 * b4 + 32 * gh + 128 * b7 + 256 * kre + 512 * high;
    var pte := low + 0x1_0000_0000 * pfn;
    var above := b7 + 2 * kre + 4 * high + 0x200_0000 * pfn;
    CutIs(pte, 0, 1, v, 2, fr + 2 * b2 + 4 * fe + 8 * b4 + 16 * gh + 64 * above);
    CutIs(pte, v, 2, fr, 2, b2 + 2 * fe + 4 * b4 + 8 * gh + 32 * above);
    CutIs(pte, v + 2 * fr + 4 * b2, 8, fe, 2, b4 + 2 * gh + 8 * above);
    CutIs(pte, v + 2 * fr + 4 * b2 + 8 * fe + 16 * b4, 32, gh, 4, above);
    CutIs(pte, low - 256 * kre - 512 * high, 256, kre, 2, high + 0x80_0000 * pfn);
    CutIs(pte, low, 0x1_0000_0000, pfn, 0x1_0000_0000, 0);
    ReadsFields(pte);
  }

  function Cut(x: nat, c: nat, w: nat): nat
    requires c > 0 && w > 0
  {
    x / c % w
  }

  lemma CutIs(pte: nat, low: nat, c: nat, x: nat, w: nat, high: nat)
    requires low < c && x < w && pte == low + c * (x + w * high)
    ensures Cut(pte, c, w) == x
  {
    DivUnique(pte, c, x + w * high, low);
    DivUnique(x + w * high, w, high, x);
  }

  lemma ReadsFields(pte: Word)
    ensures V(pte) <==> Cut(pte, 1, 2) == 1
    ensures FaultOnRead(pte) <==> Cut(pte, 2, 2) == 1
    ensures FaultOnExecute(pte) <==> Cut(pte, 8, 2) == 1
    ensures KernelReads(pte) <==> Cut(pte, 256, 2) == 1
    ensures Pfn(pte) == Cut(pte, 0x1_0000_0000, 0x1_0000_0000)
    ensures Block(pte) == Pow2(3 * Cut(pte, 32, 4))
  {
    var gh := pte / 32 % 4;
    assert gh == 0 || gh == 1 || gh == 2 || gh == 3;
    assert Pow2(0) == 1 && Pow2(3) == 8 && Pow2(6) == 64 && Pow2(9) == 512;
  }

  /** Physical memory by quadword address, and the level 1 table's page. */
  datatype Tables = Tables(mem: nat -> Word, ptbr: nat)

  /** Where a lookup finds the level 3 PTE, what entMM is told when something above it is unusable,
      or the TPU halted, kernel stack not valid. */
  datatype Lookup = At(address: nat) | Above(mmcsr: nat) | Halts

  /** What comes of it: a valid PTE into the TB, or entMM. */
  datatype Answer = Loaded(pte: Word) | EntersMM(mmcsr: nat) | Halted

  const TNV: nat := 0
  const ACV: nat := 1
  const FOE: nat := 3

  /** The level 2 PTE for a page of the virtual page table, or what is wrong above it. */
  datatype Upper = Table(pte: Word) | Unusable(mmcsr: nat)

  /** An unusable upper PTE is an access violation when the kernel may not read it. */
  function Wrong(pte: Word): nat { if KernelReads(pte) then TNV else ACV }

  function Level1(t: Tables, vp: nat): Word { t.mem(t.ptbr * PAGE + vp / 1024 % 1024 * 8) }

  function Level2(t: Tables, vp: nat): Upper {
    var l1 := Level1(t, vp);
    if !V(l1) then Unusable(Wrong(l1))
    else
      var l2 := t.mem(Pfn(l1) * PAGE + vp % 1024 * 8);
      if !V(l2) || !KernelReads(l2) then Unusable(Wrong(l2)) else Table(l2)
  }

  /** What the flow makes of a lookup: the instruction stream's checks FOE too. */
  function Judge(t: Tables, l: Lookup, istream: bool): Answer {
    match l
    case Halts => Halted
    case Above(mmcsr) => EntersMM(mmcsr)
    case At(address) =>
      var pte := t.mem(address);
      if !V(pte) then EntersMM(TNV) else if istream && FaultOnExecute(pte) then EntersMM(FOE) else Loaded(pte)
  }

  function PageOf(va: nat): nat { va / REACH }

  function Index3(va: nat): nat { va / PAGE % 1024 }

  /** The direct walk. */
  function Walk(t: Tables, va: nat): Lookup {
    match Level2(t, PageOf(va))
    case Unusable(mmcsr) => Above(mmcsr)
    case Table(l2) => At(Pfn(l2) * PAGE + Index3(va) * 8)
  }

  // ---- The virtual page table's addresses ------------------------------------------------------

  /** VA_FORM and IVA_FORM for 43-bit addresses, from VPTE_BASE already sign-extended. */
  function VaForm(base: Word, va: nat): nat { base + va / PAGE % 0x4000_0000 * 8 }

  predicate Vptb(base: Word) { base % 0x2_0000_0000 == 0 }

  datatype Front = Virtual | Superpage | BadSign

  /** The front end with SPE52 and SPE43 enabled, as the reset leaves them: the superpages first, then
      the sign. */
  function FrontEnd(va: nat): Front {
    if va / 0x4_0000_0000_0000 == 0x3ffe || va / 0x200_0000_0000 == 0x7ffffe then Superpage
    else if va / 0x400_0000_0000 == 0 || va / 0x400_0000_0000 == 0x3f_ffff then Virtual
    else BadSign
  }

  /** The two superpages, and the addresses of 43 bits sign-extended from bit 42 that they leave. */
  lemma FrontIs(va: Word)
    ensures FrontEnd(va) == Superpage <==>
              || 0xfff8_0000_0000_0000 <= va < 0xfffc_0000_0000_0000
              || 0xffff_fc00_0000_0000 <= va < 0xffff_fe00_0000_0000
    ensures FrontEnd(va) == Virtual <==> va < 0x400_0000_0000 || 0xffff_fe00_0000_0000 <= va
  {
  }

  /** An address splits into its virtual page table page and its PTE's place there. */
  lemma VaFormSplits(base: Word, va: nat)
    requires Vptb(base) && va < VAS
    ensures VaForm(base, va) == base + PageOf(va) * PAGE + Index3(va) * 8 < base + 0x2_0000_0000 <= WORD
    ensures PageOf(va) < VPT_PAGES
  {
    DivDiv(va, PAGE, 1024);
    DivMod(va / PAGE, 1024);
    assert va / PAGE < 0x4000_0000;
  }

  lemma HighBits(base: Word, off: nat, k: nat)
    requires Vptb(base) && off < 0x2_0000_0000 && k > 0
    ensures (base + off) / (0x2_0000_0000 * k) == base / (0x2_0000_0000 * k)
  {
    DivUnique(base + off, 0x2_0000_0000, base / 0x2_0000_0000, off);
    DivDiv(base + off, 0x2_0000_0000, k);
    DivDiv(base, 0x2_0000_0000, k);
  }

  /** The whole virtual page table is translated by the TB exactly when its base is. */
  lemma VptbDecides(base: Word, va: nat)
    requires Vptb(base) && va < VAS
    ensures FrontEnd(VaForm(base, va)) == FrontEnd(base)
  {
    hide FrontEnd;
    VaFormSplits(base, va);
    var off := VaForm(base, va) - base;
    HighBits(base, off, 0x2_0000);
    HighBits(base, off, 0x100);
    HighBits(base, off, 0x200);
    FrontHigh(base, base + off);
  }

  lemma FrontHigh(x: nat, y: nat)
    requires x / 0x4_0000_0000_0000 == y / 0x4_0000_0000_0000 && x / 0x200_0000_0000 == y / 0x200_0000_0000
    requires x / 0x400_0000_0000 == y / 0x400_0000_0000
    ensures FrontEnd(x) == FrontEnd(y)
  {
  }

  /** The kernel's base and the architecture's own both are. */
  lemma KnownBases()
    ensures Vptb(0xffff_fffe_0000_0000) && FrontEnd(0xffff_fffe_0000_0000) == Virtual
    ensures Vptb(0x2_0000_0000) && FrontEnd(0x2_0000_0000) == Virtual
  {
  }

  // ---- dtbm_double -----------------------------------------------------------------------------

  function Sll(x: int, n: nat): int { x * Pow2(n) % Pow2(64) }

  function Srl(x: int, n: nat): int { x / Pow2(n) }

  lemma CutField(x: nat, c: nat, l: nat, w: nat)
    requires c > 0 && l > 0 && w > 0
    ensures (l * w) * c > 0 && l * c > 0
    ensures (x * c) % ((l * w) * c) / (l * c) == x / l % w
  {
    DivDiv(x, l, w);
    DivScale(x, l * w, c);
    DivScale(x % (l * w), l, c);
    DivMod(x, l);
    DivUnique(x % (l * w), l, x / l % w, x % l);
  }

  /** A left shift then a right one cut out a field. */
  lemma FieldByShifts(x: Word, up: nat, low: nat, width: nat)
    requires up + low + width == 64
    ensures Srl(Sll(x, up), up + low) == x / Pow2(low) % Pow2(width)
  {
    hide Pow2;
    Pow2Add(low, width);
    Pow2Add(low + width, up);
    Pow2Add(low, up);
    CutField(x, Pow2(up), Pow2(low), Pow2(width));
  }

  /** The double miss's walk as it runs, on the PTE's address in S0. */
  method DoubleMiss(t: Tables, s0: Word) returns (r: Upper)
    ensures r == Level2(t, s0 / PAGE)
  {
    hide Srl, Sll;
    assert s0 / 0x80_0000 % 0x400 == s0 / PAGE / 1024 % 1024 by { DivDiv(s0, PAGE, 1024); }
    Pow2Values();
    FieldByShifts(s0, 31, 23, 10);
    var index := Srl(Sll(s0, 31), 54);
    var pte := t.mem(t.ptbr * PAGE + index * 8);
    if pte % 2 == 1 {
      FieldByShifts(s0, 41, 13, 10);
      index := Srl(Sll(s0, 41), 54);
      pte := t.mem(pte / 0x1_0000_0000 * PAGE + index * 8);
      if pte % 2 == 1 && pte / 0x100 % 2 == 1 {
        return Table(pte);
      }
    }
    // dm_bad: KRE complemented
    r := Unusable(1 - pte / 0x100 % 2);
  }

  // ---- The flow over runs ----------------------------------------------------------------------

  /** A DTB entry for pages of level 3 PTEs: n pages from a block's first, at frame. faults is FOR. */
  datatype Vpte = Vpte(block: nat, n: nat, frame: nat, faults: bool)

  /** ev8_add_tb of a level 2 PTE for the virtual page x. */
  function Filled(x: nat, l2: Word): (e: Vpte)
    ensures e.n > 0 && e.block == x / e.n
  {
    var n := Block(l2);
    Vpte(x / n, n, Pfn(l2) / n * n, FaultOnRead(l2))
  }

  predicate Holds(e: Vpte, x: nat) { e.n > 0 && x / e.n == e.block }

  /** The HW_LD/PTE through an entry; a fault on read in PALmode halts. */
  function Through(e: Vpte, x: nat, va: nat): Lookup
    requires e.n > 0
  {
    if e.faults then Halts else At((e.frame + x % e.n) * PAGE + Index3(va) * 8)
  }

  /** The virtual page of an address's PTE. */
  function VptPage(base: Word, va: nat): nat { VaForm(base, va) / PAGE }

  /** A miss with the entry it used and what it found, or an eviction. */
  datatype Event = Missed(va: nat, used: Vpte, found: Lookup) | Evicted(e: Vpte)

  /** One event: a hit on any matching entry, or with none a double miss and its retry. */
  ghost predicate Happens(t: Tables, base: Word, dtb: set<Vpte>, ev: Event, dtb': set<Vpte>) {
    match ev
    case Evicted(e) => dtb' == dtb - {e}
    case Missed(va, used, found) =>
      var x := VptPage(base, va);
      && va < VAS
      && if exists e :: e in dtb && Holds(e, x) then
           used in dtb && Holds(used, x) && found == Through(used, x, va) && dtb' == dtb
         else
           match Level2(t, x) {
             case Unusable(mmcsr) => found == Above(mmcsr) && dtb' == dtb
             case Table(l2) => used == Filled(x, l2) && found == Through(used, x, va) && dtb' == dtb + {used}
           }
  }

  ghost predicate Run(t: Tables, base: Word, dtbs: seq<set<Vpte>>, evs: seq<Event>) {
    && |dtbs| == |evs| + 1
    && forall i :: 0 <= i < |evs| ==> Happens(t, base, dtbs[i], evs[i], dtbs[i + 1])
  }

  /** Every miss found what the direct walk finds. */
  ghost predicate Right(t: Tables, evs: seq<Event>) {
    forall i :: 0 <= i < |evs| && evs[i].Missed? ==> evs[i].found == Walk(t, evs[i].va)
  }

  /** The flow's entry for one page of PTEs is right for another one it covers. */
  predicate Agree(t: Tables, p: nat, q: nat) {
    match Level2(t, p)
    case Unusable(_) => true
    case Table(l2) =>
      var n := Block(l2);
      p / n == q / n ==>
        && !FaultOnRead(l2)
        && Level2(t, q).Table?
        && Pfn(Level2(t, q).pte) == Pfn(l2) / n * n + q % n
  }

  /** What the page tables must be: no usable level 2 PTE faults on read, and a granularity hint in
      one covers pages whose own level 2 PTEs map the same frames. */
  ghost predicate Consistent(t: Tables) {
    forall p, q :: 0 <= p < VPT_PAGES && 0 <= q < VPT_PAGES ==> Agree(t, p, q)
  }

  /** The page of PTEs in the table and its virtual page differ by the base, a multiple of every
      block. */
  lemma VptPageIs(base: Word, va: nat)
    requires Vptb(base) && va < VAS
    ensures PageOf(va) < VPT_PAGES && VptPage(base, va) == base / PAGE + PageOf(va)
    ensures base / PAGE % VPT_PAGES == 0
  {
    VaFormSplits(base, va);
    DivMod(base, 0x2_0000_0000);
    assert base == base / 0x2_0000_0000 * VPT_PAGES * PAGE;
    DivUnique(base, PAGE, base / 0x2_0000_0000 * VPT_PAGES, 0);
    DivUnique(VaForm(base, va), PAGE, base / PAGE + PageOf(va), Index3(va) * 8);
    DivUnique(base / PAGE, VPT_PAGES, base / 0x2_0000_0000, 0);
  }

  lemma Offset(b: nat, p: nat, n: nat, k: nat)
    requires n > 0 && b == k * n
    ensures (b + p) / n == k + p / n && (b + p) % n == p % n
  {
    DivMod(p, n);
    DivUnique(b + p, n, k + p / n, p % n);
  }

  lemma BlockDivides(b: nat, n: nat) returns (k: nat)
    requires b % VPT_PAGES == 0 && n in {1, 8, 64, 512}
    ensures b == k * n
  {
    var j := b / VPT_PAGES;
    k := if n == 1 then j * 0x10_0000 else if n == 8 then j * 0x2_0000 else if n == 64 then j * 0x4000 else j * 0x800;
  }

  /** Blocks and places in them do not depend on the base. */
  lemma BlocksAlike(base: Word, va: nat, va2: nat, n: nat)
    requires Vptb(base) && va < VAS && va2 < VAS && n in {1, 8, 64, 512}
    ensures VptPage(base, va) / n == VptPage(base, va2) / n <==> PageOf(va) / n == PageOf(va2) / n
    ensures VptPage(base, va) % n == PageOf(va) % n
  {
    hide VptPage, PageOf;
    VptPageIs(base, va);
    VptPageIs(base, va2);
    var k := BlockDivides(base / PAGE, n);
    Offset(base / PAGE, PageOf(va), n, k);
    Offset(base / PAGE, PageOf(va2), n, k);
  }

  lemma UpperIndexes(b: nat, p: nat, m: nat, k: nat)
    requires m > 0 && b == (k * m) * m
    ensures (b + p) % m == p % m && (b + p) / m % m == p / m % m
  {
    Offset(b, p, m, k * m);
    DivMod(p, m);
    NatQuotient(p, m);
    Offset(k * m, p / m, m, k);
  }

  /** The double miss walks to the level 2 PTE of the address that missed. */
  lemma WalksSamePage(t: Tables, base: Word, va: nat)
    requires Vptb(base) && va < VAS
    ensures Level2(t, VptPage(base, va)) == Level2(t, PageOf(va))
  {
    hide VptPage, PageOf, V, KernelReads, Pfn, Wrong;
    VptPageIs(base, va);
    DivMod(base / PAGE, VPT_PAGES);
    UpperIndexes(base / PAGE, PageOf(va), 1024, base / PAGE / VPT_PAGES);
  }

  /** Every entry finds what the walk finds, for every address it holds. */
  ghost predicate DtbOk(t: Tables, base: Word, dtb: set<Vpte>) {
    forall e, va :: e in dtb && 0 <= va < VAS && Holds(e, VptPage(base, va)) ==>
      Through(e, VptPage(base, va), va) == Walk(t, va)
  }

  /** A fill from consistent tables is right for all the pages it holds. */
  lemma FilledOk(t: Tables, base: Word, va: nat, va2: nat, l2: Word)
    requires Vptb(base) && va < VAS && va2 < VAS && Consistent(t)
    requires Level2(t, PageOf(va)) == Table(l2) && Holds(Filled(VptPage(base, va), l2), VptPage(base, va2))
    ensures Through(Filled(VptPage(base, va), l2), VptPage(base, va2), va2) == Walk(t, va2)
  {
    hide Level2, VptPage, PageOf, FaultOnRead, Pfn, Index3;
    var p, q, n := PageOf(va), PageOf(va2), Block(l2);
    BlocksAlike(base, va, va2, n);
    BlocksAlike(base, va2, va, n);
    assert p < VPT_PAGES && q < VPT_PAGES by { VptPageIs(base, va); VptPageIs(base, va2); }
    assert Agree(t, p, q);
    assert p / n == q / n;
  }

  lemma HappensOk(t: Tables, base: Word, dtb: set<Vpte>, ev: Event, dtb': set<Vpte>)
    requires Vptb(base) && Consistent(t) && DtbOk(t, base, dtb) && Happens(t, base, dtb, ev, dtb')
    ensures DtbOk(t, base, dtb') && Right(t, [ev])
  {
    hide Consistent, Level2, Through, VptPage, Filled, Holds;
    if ev.Missed? {
      var x := VptPage(base, ev.va);
      WalksSamePage(t, base, ev.va);
      if !exists e :: e in dtb && Holds(e, x) {
        if Level2(t, x).Table? {
          var l2 := Level2(t, x).pte;
          forall va2 | 0 <= va2 < VAS && Holds(ev.used, VptPage(base, va2))
            ensures Through(ev.used, VptPage(base, va2), va2) == Walk(t, va2)
          {
            FilledOk(t, base, ev.va, va2, l2);
          }
          assert Holds(Filled(x, l2), x) by { FilledHolds(x, l2); }
        }
      }
    }
  }

  lemma FilledHolds(x: nat, l2: Word)
    ensures Holds(Filled(x, l2), x)
  {
  }

  lemma {:induction false} RunOk(t: Tables, base: Word, dtbs: seq<set<Vpte>>, evs: seq<Event>)
    requires Vptb(base) && Consistent(t) && Run(t, base, dtbs, evs) && dtbs[0] == {}
    ensures DtbOk(t, base, dtbs[|evs|]) && Right(t, evs)
    decreases |evs|
  {
    hide Consistent, Happens, Through, Walk;
    if evs != [] {
      var n := |evs| - 1;
      RunOk(t, base, dtbs[..n + 1], evs[..n]);
      HappensOk(t, base, dtbs[n], evs[n], dtbs[n + 1]);
      assert [evs[n]][0] == evs[n];
      forall i | 0 <= i < |evs| && evs[i].Missed?
        ensures evs[i].found == Walk(t, evs[i].va)
      {
        if i < n { assert evs[..n][i] == evs[i]; }
      }
    }
  }

  /** The first address of a page of PTEs' reach. */
  lemma FirstOf(p: nat)
    requires p < VPT_PAGES
    ensures p * REACH < VAS && PageOf(p * REACH) == p && Index3(p * REACH) == 0
  {
    DivUnique(p * REACH, REACH, p, 0);
    DivUnique(p * REACH, PAGE, p * 1024, 0);
    DivUnique(p * 1024, 1024, p, 0);
  }

  /** Where two pages of PTEs disagree, misses on one and then on the other go wrong. */
  lemma DisagreementShows(t: Tables, base: Word, p: nat, q: nat) returns (dtbs: seq<set<Vpte>>, evs: seq<Event>)
    requires Vptb(base) && p < VPT_PAGES && q < VPT_PAGES && !Agree(t, p, q)
    ensures Run(t, base, dtbs, evs) && dtbs[0] == {} && !Right(t, evs)
  {
    hide Level2, FaultOnRead, VptPage, PageOf, Pfn, Index3, Block;
    var va, va2 := p * REACH, q * REACH;
    FirstOf(p);
    FirstOf(q);
    WalksSamePage(t, base, va);
    var l2 := Level2(t, p).pte;
    var e := Filled(VptPage(base, va), l2);
    FilledHolds(VptPage(base, va), l2);
    BlocksAlike(base, va2, va, e.n);
    var first := Missed(va, e, Through(e, VptPage(base, va), va));
    var second := Missed(va2, e, Through(e, VptPage(base, va2), va2));
    assert Happens(t, base, {}, first, {e});
    assert Happens(t, base, {e}, second, {e}) by { assert e in {e} && Holds(e, VptPage(base, va2)); }
    evs, dtbs := [first, second], [{}, {e}, {e}];
    assert second.found != Walk(t, va2) by { WrongThrough(t, base, p, q, e, l2); }
    assert evs[1] == second;
  }

  lemma WrongThrough(t: Tables, base: Word, p: nat, q: nat, e: Vpte, l2: Word)
    requires Vptb(base) && p < VPT_PAGES && q < VPT_PAGES && !Agree(t, p, q)
    requires Level2(t, p) == Table(l2) && e == Filled(VptPage(base, p * REACH), l2)
    ensures Through(e, VptPage(base, q * REACH), q * REACH) != Walk(t, q * REACH)
  {
    hide Level2, FaultOnRead, VptPage, PageOf, Pfn, Index3, Block;
    FirstOf(p);
    FirstOf(q);
    BlocksAlike(base, q * REACH, p * REACH, e.n);
  }

  /** The miss flow finds, over every run from an empty DTB and for every address, what a direct walk
      of the page tables finds, if and only if the level 2 PTEs are consistent. */
  lemma FlowRefinesWalk(t: Tables, base: Word)
    requires Vptb(base) && FrontEnd(base) == Virtual
    ensures Consistent(t) <==> forall dtbs, evs :: Run(t, base, dtbs, evs) && dtbs[0] == {} ==> Right(t, evs)
  {
    hide Agree, Right, Happens;
    if Consistent(t) {
      forall dtbs, evs | Run(t, base, dtbs, evs) && dtbs[0] == {}
        ensures Right(t, evs)
      {
        RunOk(t, base, dtbs, evs);
      }
    } else {
      var p, q :| 0 <= p < VPT_PAGES && 0 <= q < VPT_PAGES && !Agree(t, p, q);
      var dtbs, evs := DisagreementShows(t, base, p, q);
    }
  }

  /** Plain page tables, 8 KB pages of PTEs that the kernel may read, are consistent: every miss puts
      the level 3 PTE the walk finds into the TB, or enters entMM as the walk says. */
  lemma PlainTablesConsistent(t: Tables)
    requires forall p :: 0 <= p < VPT_PAGES && Level2(t, p).Table? ==>
               !FaultOnRead(Level2(t, p).pte) && Block(Level2(t, p).pte) == 1
    ensures Consistent(t)
  {
  }

  /** So over every run each miss ends as the three levels say: the level 3 PTE into the TB when all
      three are usable; entMM with 1, ACV, exactly when an unusable upper PTE denies the kernel, with 3, FOE,
      for an instruction's only, with 0, TNV, otherwise; never a halt. */
  lemma MissAnswers(t: Tables, base: Word, dtbs: seq<set<Vpte>>, evs: seq<Event>, i: nat, istream: bool)
    requires Vptb(base) && FrontEnd(base) == Virtual && Consistent(t) && Run(t, base, dtbs, evs) && dtbs[0] == {}
    requires i < |evs| && evs[i].Missed?
    ensures var va := evs[i].va;
            var l1 := t.mem(t.ptbr * PAGE + va / 0x2_0000_0000 * 8);
            var l2 := t.mem(Pfn(l1) * PAGE + va / REACH % 1024 * 8);
            var l3 := t.mem(Pfn(l2) * PAGE + va / PAGE % 1024 * 8);
            var usable := V(l1) && V(l2) && KernelReads(l2);
            var upper := if V(l1) then l2 else l1;
            match Judge(t, evs[i].found, istream) {
              case Loaded(pte) => usable && V(l3) && !(istream && FaultOnExecute(l3)) && pte == l3
              case EntersMM(mmcsr) =>
                if !usable then mmcsr == (if KernelReads(upper) then 0 else 1)
                else if !V(l3) then mmcsr == 0
                else mmcsr == 3 && istream && FaultOnExecute(l3)
              case Halted => false
            }
  {
    hide Consistent, Happens, V, KernelReads, Pfn, FaultOnExecute;
    RunOk(t, base, dtbs, evs);
    var va := evs[i].va;
    assert va < VAS by { MissedInRange(t, base, dtbs, evs, i); }
    assert va / REACH / 1024 == va / 0x2_0000_0000 by { DivDiv(va, REACH, 1024); }
    assert va / REACH / 1024 % 1024 == va / 0x2_0000_0000;
  }

  lemma MissedInRange(t: Tables, base: Word, dtbs: seq<set<Vpte>>, evs: seq<Event>, i: nat)
    requires Run(t, base, dtbs, evs) && i < |evs| && evs[i].Missed?
    ensures evs[i].va < VAS
  {
    assert Happens(t, base, dtbs[i], evs[i], dtbs[i + 1]);
  }

  /** A granularity hint in one level 2 PTE, its neighbour elsewhere: 8 pages at frame 8, the second
      page's own PTE at frame 100. */
  lemma HintMisleads(t: Tables, base: Word)
    requires Vptb(base) && t.ptbr == 1
    requires t.mem(0x2000) == 2 * 0x1_0000_0000 + 0x101
    requires t.mem(0x4000) == 8 * 0x1_0000_0000 + 0x121 && t.mem(0x4008) == 100 * 0x1_0000_0000 + 0x101
    ensures exists dtbs, evs :: Run(t, base, dtbs, evs) && dtbs[0] == {} && !Right(t, evs)
  {
    assert Level2(t, 0) == Table(t.mem(0x4000)) && Level2(t, 1) == Table(t.mem(0x4008));
    assert !Agree(t, 0, 1);
    var dtbs, evs := DisagreementShows(t, base, 0, 1);
  }
}

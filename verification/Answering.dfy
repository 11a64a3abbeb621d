/** That the data translation path answers: a page the TB or its shadow maps is served and then cached,
    what a fill installs is what the next access gets, and what each invalidate leaves keeps
    answering. */
module Answering {
  import opened Bits
  import opened TbIndex
  import opened TbSearch
  import opened PageCache
  import opened DataTb
  import opened Coverage
  import opened CoverageRuns

  // ---- What an entry covers --------------------------------------------------------------------

  /** An entry is for the 8^size pages from its own, of VA<47:13>, on the native EV8 VA<51:13>; in its
      address space, or in all with ASM. */
  lemma EntryCovers(e: Entry, v: nat, asn: nat)
    requires e.page == Align(e.page, e.wide, e.size)
    ensures Matches(e, v, asn) <==>
              && e.page <= v % (if e.wide then 0x80_0000_0000 else 0x8_0000_0000) < e.page + Pow2(3 * e.size)
              && (e.asmBit || e.asn == asn)
  {
    PagesIs(e.size);
    AlignAligned(e.page, e.wide, e.size);
    InBlock(Field(v, e.wide), Pages(e.size), Tag(e.page, e.wide, e.size));
  }

  lemma {:induction false} PagesIs(size: nat)
    ensures Pages(size) == Pow2(3 * size)
  {
    if size > 0 {
      PagesIs(size - 1);
      Pow2Add(3 * (size - 1), 3);
      assert Pow2(3) == 8;
    }
  }

  /** The block a number is in, by its bounds. */
  lemma InBlock(x: nat, n: nat, q: nat)
    requires n > 0
    ensures x / n == q <==> q * n <= x < q * n + n
  {
    DivMod(x, n);
    if q * n <= x < q * n + n { DivUnique(x, n, q, x - q * n); }
  }

  /** A PTE word's protection, as both fills take it: read enables <11:8> and write enables <15:12> by
      mode, fault on read <1> and on write <2>. */
  function Decoded(phys: nat, word: nat): Pte {
    Pte(phys,
        set write: bool, mode: nat | mode < 4 && AccessBit(word, write, mode) :: (write, mode),
        set write: bool | FaultBit(word, write))
  }

  predicate AccessBit(word: nat, write: bool, mode: nat) { word / Pow2((if write then 12 else 8) + mode) % 2 == 1 }

  predicate FaultBit(word: nat, write: bool) { word / (if write then 4 else 2) % 2 == 1 }

  /** An access is admitted exactly when its enable is set and its fault bit clear. */
  lemma AdmitsByBits(phys: nat, word: nat, mode: nat)
    requires mode < 4
    ensures Decoded(phys, word).Permits(false, mode) <==> word / Pow2(8 + mode) % 2 == 1 && word / 2 % 2 == 0
    ensures Decoded(phys, word).Permits(true, mode) <==> word / Pow2(12 + mode) % 2 == 1 && word / 4 % 2 == 0
  {
    hide Pow2;
  }

  // ---- A mapped page is served -----------------------------------------------------------------

  /** Every entry that may answer for the page admits the access. */
  ghost predicate Admitted(d: Dtb, rw: nat, v: nat)
    requires DtbShape(d)
  {
    && (forall i :: 0 <= i < ENTRIES && Hit(d.tb.es[i], v, d.asn0) ==> d.tb.es[i].pte.Permits(rw == 1, d.mode))
    && (var sh := d.shadow[v % SHADOW]; Hit(sh, v, d.asn0) ==> sh.pte.Permits(rw == 1, d.mode))
  }

  /** The page comes from e, which matches it and admits the access. */
  ghost predicate From(d: Dtb, e: Entry, rw: nat, v: nat, a: Answer) {
    Hit(e, v, d.asn0) && e.pte.Permits(rw == 1, d.mode) && a == Page(PhysOf(e, v))
  }

  /** Without the page cache, an access gets the page of an entry of the TB or the shadow. */
  lemma UncachedAnswer(d: Dtb, rw: nat, v: nat, host: nat)
    requires Inv(d) && rw < 2 && !AnswersAt(d, rw, v)
    ensures var (a, r) := Access(d, rw, v, host);
            a.Page? ==> HitL1(r, rw, v) && r.cache.l1[rw][v % L1].phys == a.phys
                        && ((exists i :: 0 <= i < ENTRIES && From(d, d.tb.es[i], rw, v, a))
                            || From(d, d.shadow[v % SHADOW], rw, v, a))
    ensures (Maps(d.tb.es, v, d.asn0) || Hit(d.shadow[v % SHADOW], v, d.asn0)) && Admitted(d, rw, v) ==>
              Access(d, rw, v, host).0.Page?
  {
    hide FindData, Inv, PhysOf, Hit, Maps;
    assert DtbShape(d) by { InvIs(d); }
    FindDataExact(d, v, rw);
    FindMoves(d, v, rw);
    var (i, d1) := FindData(d, v, rw);
    if i != -1 {
      var e := d1.tb.es[i];
      assert e == d.tb.es[i] || e == d.shadow[v % SHADOW];
    }
  }

  /** A page that the TB or the shadow maps, with an access every such entry admits, is served, and level
      1 then holds it. */
  lemma Answers(d: Dtb, rw: nat, v: nat, host: nat)
    requires Inv(d) && rw < 2 && Admitted(d, rw, v)
    requires Maps(d.tb.es, v, d.asn0) || Hit(d.shadow[v % SHADOW], v, d.asn0)
    ensures var (a, r) := Access(d, rw, v, host);
            a.Page? && HitL1(r, rw, v) && r.cache.l1[rw][v % L1].phys == a.phys
  {
    hide FindData, Inv;
    InvIs(d);
    if !AnswersAt(d, rw, v) {
      UncachedAnswer(d, rw, v, host);
    } else if !HitL1(d, rw, v) {
      PromoteOk(d.cache, rw, v, d.mode, d.asn0);
    }
  }

  /** A page once served is served again without a look at the TB, and nothing changes. */
  lemma ServedAgain(d: Dtb, rw: nat, v: nat, host: nat, host': nat)
    requires Inv(d) && rw < 2 && Access(d, rw, v, host).0.Page?
    ensures var (a, r) := Access(d, rw, v, host); Access(r, rw, v, host') == (a, r)
  {
    hide FindData, Inv;
    InvIs(d);
    if !AnswersAt(d, rw, v) {
      UncachedAnswer(d, rw, v, host);
    } else if !HitL1(d, rw, v) {
      PromoteOk(d.cache, rw, v, d.mode, d.asn0);
    }
  }

  /** Level 2 keeps what a fill takes from level 1. */
  lemma LevelTwoKeeps(c: Cache, rw: nat, v: nat, mode: nat, asn: nat,
                      w: nat, phys: nat, host: nat, mode': nat, asn': nat)
    requires CacheOk(c) && rw < 2 && v % L2 != w % L2
    requires Serves(c.l1[rw][v % L1], v, mode, asn) || Promotes(c, rw, v, mode, asn)
    ensures Promotes(Fill(c, rw, w, phys, host, mode', asn'), rw, v, mode, asn)
  {
    assert L1Ok(c, rw, v % L1);
  }

  // ---- A fill answers --------------------------------------------------------------------------

  /** The slot a fill takes: the first entry that matches the page, else the round-robin one. */
  function FillSlot(d: Dtb, v: nat, asn: nat): (slot: nat)
    requires DtbShape(d)
    ensures slot < ENTRIES
    ensures forall i :: 0 <= i < slot && Maps(d.tb.es, v, asn) ==> !Hit(d.tb.es[i], v, asn)
    ensures if Maps(d.tb.es, v, asn) then Hit(d.tb.es[slot], v, asn) else slot == d.tb.next
  {
    ScanFirst(d.tb.es, v, asn, 0);
    var found := Scan(d.tb.es, v, asn, 0);
    if found == -1 then d.tb.next else found
  }

  lemma {:induction false} ScanFirst(es: seq<Entry>, v: nat, asn: nat, j: nat)
    requires j <= |es|
    ensures var r := Scan(es, v, asn, j); forall i :: j <= i < r ==> !Hit(es[i], v, asn)
    decreases |es| - j
  {
    if j < |es| && !Hit(es[j], v, asn) { ScanFirst(es, v, asn, j + 1); }
  }

  /** A fill installs the translation in that slot, and in the shadow for an 8 KB page; the other
      entries stay, and the round-robin pointer moves on exactly when it was used. */
  lemma FillTakes(d: Dtb, v: nat, size: nat, asmBit: bool, asn: nat, pte: Pte)
    requires DtbShape(d)
    ensures var (r, slot) := (AddTb(d, v, size, asmBit, asn, pte), FillSlot(d, v, asn));
            var e := r.tb.es[slot];
            && Hit(e, v, asn) && e.pte == pte && e.size == size && e.asmBit == asmBit && e.asn == asn && !e.wide
            && (forall i :: 0 <= i < ENTRIES && i != slot ==> r.tb.es[i] == d.tb.es[i])
            && r.tb.next == (if Maps(d.tb.es, v, asn) then d.tb.next else (d.tb.next + 1) % 128)
            && (forall k :: 0 <= k < SHADOW && k != v % SHADOW ==> r.shadow[k] == d.shadow[k])
            && r.shadow[v % SHADOW] == (if size == 0 then e else d.shadow[v % SHADOW])
            && r.tb.last == d.tb.last[0 := slot] && r.asn0 == d.asn0 && r.mode == d.mode && r.native == d.native
  {
    hide AddFlush, Add, DropReplaced, Align, Scan;
    var slot := FillSlot(d, v, asn);
    AlignAligned(v, false, size);
  }

  /** What FindTBEntry returns for the page after a fill: the new entry, unless the last slot a write
      found is another one that also matches. */
  lemma FillFinds(d: Dtb, v: nat, size: nat, asmBit: bool, pte: Pte, rw: nat)
    requires Inv(d) && !d.native && rw < 2
    ensures var last := d.tb.last[1];
            FindData(AddTb(d, v, size, asmBit, d.asn0, pte), v, rw).0 ==
            if rw == 1 && Hit(d.tb.es[last], v, d.asn0) then last else FillSlot(d, v, d.asn0)
  {
    hide AddTb, Inv, Refill, Scan, Probe;
    InvIs(d);
    var r, slot := AddTb(d, v, size, asmBit, d.asn0, pte), FillSlot(d, v, d.asn0);
    AddTbKeeps(d, v, size, asmBit, d.asn0, pte);
    InvIs(r);
    FillTakes(d, v, size, asmBit, d.asn0, pte);
    if rw == 1 && r.tb.last[1] != slot && !Hit(d.tb.es[r.tb.last[1]], v, d.asn0) {
      if r.tb.ix.large == 0 {
        FillProbes(d, v, size, asmBit, pte);
      } else {
        ScanIs(r.tb.es, v, d.asn0, 0, slot);
      }
    }
  }

  lemma {:induction false} ScanIs(es: seq<Entry>, v: nat, asn: nat, j: nat, slot: nat)
    requires j <= slot < |es| && Hit(es[slot], v, asn) && forall i :: j <= i < slot ==> !Hit(es[i], v, asn)
    ensures Scan(es, v, asn, j) == slot
    decreases slot - j
  {
    if j < slot { ScanIs(es, v, asn, j + 1, slot); }
  }

  /** With no large page live the index has the new entry first in its set. */
  lemma FillProbes(d: Dtb, v: nat, size: nat, asmBit: bool, pte: Pte)
    requires Inv(d) && !d.native
    requires AddTb(d, v, size, asmBit, d.asn0, pte).tb.ix.large == 0
    ensures var r := AddTb(d, v, size, asmBit, d.asn0, pte);
            Probe(r.tb.es, r.tb.ix.rows[SetOf(v)], v, d.asn0, 0) == FillSlot(d, v, d.asn0)
  {
    hide AddTb, Inv, Hit, SetOf, Scan, Exact;
    InvIs(d);
    var r, slot := AddTb(d, v, size, asmBit, d.asn0, pte), FillSlot(d, v, d.asn0);
    FillTakes(d, v, size, asmBit, d.asn0, pte);
    AddTbKeeps(d, v, size, asmBit, d.asn0, pte);
    NoneLarge(r);
    HitLive(r.tb.es[slot], v, d.asn0);
    HitMatches(r.tb.es[slot], v, d.asn0);
    HitSet(r.tb.es[slot], v, d.asn0);
    FirstWay(d, v, asmBit, d.asn0, pte);
  }

  lemma HitMatches(e: Entry, v: nat, asn: nat)
    requires Hit(e, v, asn)
    ensures Matches(e, v, asn)
  {
  }

  lemma NoneLarge(d: Dtb)
    requires Inv(d) && d.tb.ix.large == 0
    ensures forall i :: 0 <= i < |d.tb.es| && d.tb.es[i].valid ==> d.tb.es[i].size == 0
  {
    AllSmall(d.tb.es);
  }

  lemma FirstWay(d: Dtb, v: nat, asmBit: bool, asn: nat, pte: Pte)
    requires DtbShape(d)
    ensures var (r, slot) := (AddTb(d, v, 0, asmBit, asn, pte), FillSlot(d, v, asn));
            r.tb.ix.rows[SetOf(r.tb.es[slot].page)][0] == slot + 1
  {
    hide DropReplaced, Align, SetOf, AddFlush, Scan;
  }

  /** The answer an entry gives an access to one of its pages. */
  function Reply(e: Entry, rw: nat, v: nat, mode: nat): Answer {
    if e.pte.Permits(rw == 1, mode) then Page(PhysOf(e, v)) else NoAnswer
  }

  /** With the page not cached, an access gets the reply of the entry found. */
  lemma FoundReplies(d: Dtb, rw: nat, v: nat, host: nat)
    requires Inv(d) && rw < 2 && Maps(d.tb.es, v, d.asn0)
    requires forall r, s :: Holds(d.cache, r, s) ==> !SamePage(s.vp, v)
    ensures var i := FindData(d, v, rw).0;
            i != -1 && Access(d, rw, v, host).0 == Reply(d.tb.es[i], rw, v, d.mode)
  {
    hide FindData, Inv, Hit, Maps, PhysOf;
    InvIs(d);
    FindDataExact(d, v, rw);
    FindMoves(d, v, rw);
    NotCached(d, rw, v);
  }

  lemma NotCached(d: Dtb, rw: nat, v: nat)
    requires DtbShape(d) && CacheOk(d.cache) && rw < 2
    requires forall r, s :: Holds(d.cache, r, s) ==> !SamePage(s.vp, v)
    ensures !AnswersAt(d, rw, v)
  {
    assert L1Ok(d.cache, rw, v % L1) && L2Ok(d.cache, rw, v % L2);
    assert SamePage(v, v);
    assert !Holds(d.cache, rw, d.cache.l2[rw][v % L2]) || d.cache.l2[rw][v % L2].vp != v;
  }

  /** The physical page is as far from the PTE's as page w is from the first of v's block. */
  predicate Placed(a: Answer, pte: Pte, v: nat, w: nat, wide: bool, size: nat) {
    a.Page? && a.phys - pte.phys == Field(w, wide) - Align(v, wide, size)
  }

  /** A page's place in the block an entry maps gives its place in the physical block. */
  lemma PlaceInBlock(e: Entry, v: nat, w: nat)
    requires e.page == Align(v, e.wide, e.size) && Tag(w, e.wide, e.size) == Tag(v, e.wide, e.size)
    ensures Placed(Page(PhysOf(e, w)), e.pte, v, w, e.wide, e.size)
  {
    DivMod(Field(w, e.wide), Pages(e.size));
  }

  /** The page of a fill is then what an access gets, if the PTE admits it; but a write gets the page of
      the last entry a write found if that one matches too. */
  lemma FillAnswers(d: Dtb, v: nat, size: nat, asmBit: bool, pte: Pte, rw: nat, host: nat)
    requires Inv(d) && !d.native && rw < 2
    ensures var was := d.tb.es[d.tb.last[1]];
            var stale := rw == 1 && Hit(was, v, d.asn0) && d.tb.last[1] != FillSlot(d, v, d.asn0);
            var a := Access(AddTb(d, v, size, asmBit, d.asn0, pte), rw, v, host).0;
            && (stale ==> a == Reply(was, rw, v, d.mode))
            && (!stale && pte.Permits(rw == 1, d.mode) ==> Placed(a, pte, v, v, false, size))
            && (!stale && !pte.Permits(rw == 1, d.mode) ==> a == NoAnswer)
  {
    hide AddTb, Inv, FindData, Align, Maps, Hit, Access, PhysOf, Field, Placed;
    InvIs(d);
    var r, slot := AddTb(d, v, size, asmBit, d.asn0, pte), FillSlot(d, v, d.asn0);
    AddTbKeeps(d, v, size, asmBit, d.asn0, pte);
    FillTakes(d, v, size, asmBit, d.asn0, pte);
    FillFinds(d, v, size, asmBit, pte, rw);
    FilledUncached(d, v, size, asmBit, pte, v);
    SlotMaps(r.tb.es, slot, v, d.asn0);
    FoundReplies(r, rw, v, host);
    FilledPage(d, v, size, asmBit, pte, v);
  }

  lemma SlotMaps(es: seq<Entry>, slot: nat, v: nat, asn: nat)
    requires slot < |es| && Hit(es[slot], v, asn)
    ensures Maps(es, v, asn)
  {
  }

  /** Nothing of the filled block is cached after the fill. */
  lemma FilledUncached(d: Dtb, v: nat, size: nat, asmBit: bool, pte: Pte, w: nat)
    requires Inv(d) && !d.native && Tag(w, false, size) == Tag(v, false, size)
    ensures forall rw, s :: Holds(AddTb(d, v, size, asmBit, d.asn0, pte).cache, rw, s) ==> !SamePage(s.vp, w)
  {
    hide Inv, AddTables, AddFlush, Holds, Scan;
    InvIs(d);
    AddFlushCovers(d, FillSlot(d, v, d.asn0), v, size, asmBit, d.asn0, pte);
    assert Pages(0) == 1;
  }

  lemma FilledPage(d: Dtb, v: nat, size: nat, asmBit: bool, pte: Pte, w: nat)
    requires DtbShape(d) && Tag(w, false, size) == Tag(v, false, size)
    ensures var e := AddTb(d, v, size, asmBit, d.asn0, pte).tb.es[FillSlot(d, v, d.asn0)];
            && Hit(e, w, d.asn0) && e.pte == pte
            && Placed(Page(PhysOf(e, w)), pte, v, w, false, size)
  {
    hide AddFlush, Add, DropReplaced, Align, Field, Scan, PhysOf, Placed;
    AlignAligned(v, false, size);
    PlaceInBlock(AddTb(d, v, size, asmBit, d.asn0, pte).tb.es[FillSlot(d, v, d.asn0)], v, w);
  }

  /** A fill with a granularity hint serves its whole block: each page read is the physical page as far
      into the physical block as the page is into the virtual one. */
  lemma BlockAnswers(d: Dtb, v: nat, size: nat, asmBit: bool, pte: Pte, w: nat, host: nat)
    requires Inv(d) && !d.native && pte.Permits(false, d.mode) && Tag(w, false, size) == Tag(v, false, size)
    ensures Placed(Access(AddTb(d, v, size, asmBit, d.asn0, pte), 0, w, host).0, pte, v, w, false, size)
  {
    hide AddTb, Inv, Align, Maps, Hit, Access, PhysOf, Field, Tag, Placed;
    InvIs(d);
    var r, slot := AddTb(d, v, size, asmBit, d.asn0, pte), FillSlot(d, v, d.asn0);
    AddTbKeeps(d, v, size, asmBit, d.asn0, pte);
    FillTakes(d, v, size, asmBit, d.asn0, pte);
    FilledPage(d, v, size, asmBit, pte, w);
    FilledUncached(d, v, size, asmBit, pte, w);
    SlotMaps(r.tb.es, slot, w, d.asn0);
    FoundReplies(r, 0, w, host);
  }

  /** An 8 KB fill serves its own page, from the TB and, once that entry is evicted, from the shadow. */
  lemma SmallFillAnswers(d: Dtb, v: nat, asmBit: bool, pte: Pte, host: nat)
    requires Inv(d) && !d.native && pte.Permits(false, d.mode)
    ensures var r := AddTb(d, v, 0, asmBit, d.asn0, pte);
            && Access(r, 0, v, host).0 == Page(pte.phys)
            && Hit(r.shadow[v % SHADOW], v, d.asn0) && Maps(r.tb.es, v, d.asn0)
            && PhysOf(r.shadow[v % SHADOW], v) == pte.phys
  {
    hide AddTb, Inv, Access, Hit, Maps;
    InvIs(d);
    BlockAnswers(d, v, 0, asmBit, pte, v, host);
    FillTakes(d, v, 0, asmBit, d.asn0, pte);
    SlotMaps(AddTb(d, v, 0, asmBit, d.asn0, pte).tb.es, FillSlot(d, v, d.asn0), v, d.asn0);
    assert Pages(0) == 1;
  }

  /** Enough of an access that gets a page for the next operation: the slot it found, and no entry of
      the TB moved. */
  lemma AccessRemembers(d: Dtb, rw: nat, v: nat, host: nat)
    requires Inv(d) && rw < 2 && Maps(d.tb.es, v, d.asn0)
    requires forall r, s :: Holds(d.cache, r, s) ==> !SamePage(s.vp, v)
    ensures var (i, r) := (FindData(d, v, rw).0, Access(d, rw, v, host).1);
            && i != -1 && r.tb.es == d.tb.es && r.tb.last == d.tb.last[rw := i]
            && r.native == d.native && r.mode == d.mode
  {
    hide FindData, Inv, Hit, Maps, PhysOf;
    InvIs(d);
    FindDataExact(d, v, rw);
    FindMoves(d, v, rw);
    NotCached(d, rw, v);
  }

  /** An empty TB for address space 1, kernel mode. */
  ghost predicate Cleared(d: Dtb) {
    && Inv(d) && !d.native && d.asn0 == 1 && d.mode == 0 && d.tb.next == 0 && d.tb.last == [0, 0]
    && forall i :: 0 <= i < ENTRIES ==> !d.tb.es[i].valid
  }

  /** That a write gets another entry's page is possible: page 5 filled for address space 1, then with
      ASM in address space 2 and written there, then filled for address space 1 again. */
  lemma WriteServedOther(d: Dtb, p: Pte, q: Pte, last: Pte, host: nat)
    requires Cleared(d) && q.Permits(true, 0)
    ensures var in2 := SetAsn0(AddTb(d, 5, 0, false, 1, p), 2);
            var wrote := Access(AddTb(in2, 5, 0, true, 2, q), 1, 5, host).1;
            Access(AddTb(SetAsn0(wrote, 1), 5, 0, false, 1, last), 1, 5, host).0 == Page(q.phys)
  {
    hide AddTb, FlushAll, FindData, Access, Inv, Maps, Hit, FillSlot, PhysOf;
    var in2 := FirstFilled(d, p);
    InvIs(in2);
    var two := AddTb(in2, 5, 0, true, 2, q);
    AddTbKeeps(in2, 5, 0, true, 2, q);
    FillTakes(in2, 5, 0, true, 2, q);
    SlotIs(in2, 5, 2);
    FillFinds(in2, 5, 0, true, q, 1);
    FilledUncached(in2, 5, 0, true, q, 5);
    SlotMaps(two.tb.es, 1, 5, 2);
    AccessRemembers(two, 1, 5, host);
    AccessKeeps(two, 1, 5, host);
    var wrote := Access(two, 1, 5, host).1;
    var back := SetAsn0(wrote, 1);
    StepKeeps(wrote, DoAsn0(1));
    SharedHits(back.tb.es[1], 5, 2, 1);
    SlotMaps(back.tb.es, 0, 5, 1);
    SlotIs(back, 5, 1);
    FillAnswers(back, 5, 0, false, last, 1, host);
    assert PhysOf(back.tb.es[1], 5) == q.phys by { SmallPhys(back.tb.es[1], 5); }
  }

  lemma SmallPhys(e: Entry, v: nat)
    requires e.size == 0
    ensures PhysOf(e, v) == e.pte.phys
  {
    assert Pages(0) == 1;
  }

  lemma SharedHits(e: Entry, v: nat, asn: nat, asn': nat)
    requires Hit(e, v, asn) && e.asmBit
    ensures Hit(e, v, asn')
  {
  }

  lemma SlotIs(d: Dtb, v: nat, asn: nat)
    requires DtbShape(d)
    ensures Hit(d.tb.es[0], v, asn) ==> FillSlot(d, v, asn) == 0
    ensures !Maps(d.tb.es, v, asn) ==> FillSlot(d, v, asn) == d.tb.next
  {
  }

  /** The first of those fills, and the switch to address space 2. */
  lemma FirstFilled(d: Dtb, p: Pte) returns (in2: Dtb)
    requires Cleared(d)
    ensures in2 == SetAsn0(AddTb(d, 5, 0, false, 1, p), 2)
    ensures Inv(in2) && !in2.native && in2.asn0 == 2 && in2.mode == 0 && in2.tb.next == 1 && in2.tb.last == [0, 0]
    ensures Hit(in2.tb.es[0], 5, 1) && !Hit(in2.tb.es[0], 5, 2) && !Maps(in2.tb.es, 5, 2)
  {
    hide AddTb, FlushAll, Inv;
    InvIs(d);
    AddTbKeeps(d, 5, 0, false, 1, p);
    FillTakes(d, 5, 0, false, 1, p);
    var one := AddTb(d, 5, 0, false, 1, p);
    StepKeeps(one, DoAsn0(2));
    in2 := SetAsn0(one, 2);
  }

  // ---- The native EV8 --------------------------------------------------------------------------

  /** A native fill serves every page of its block, reads and writes, in this group. */
  lemma Ev8FillAnswers(d: Dtb, v: nat, size: nat, asmBit: bool, pte: Pte, rw: nat, w: nat, host: nat)
    requires Inv(d) && d.native && rw < 2
    requires pte.Permits(rw == 1, d.mode) && Tag(w, true, size) == Tag(v, true, size)
    ensures Placed(Access(Ev8AddTb(d, v, size, asmBit, pte), rw, w, host).0, pte, v, w, true, size)
  {
    hide Ev8AddTb, Inv, Align, Maps, Hit, Access, PhysOf, Field, Tag, Placed;
    InvIs(d);
    var r := Ev8AddTb(d, v, size, asmBit, pte);
    Ev8AddTbKeeps(d, v, size, asmBit, pte);
    var slot := Ev8Takes(d, v, size, asmBit, pte, w);
    Ev8Uncached(d, v, size, asmBit, pte, w);
    SlotMaps(r.tb.es, slot, w, d.asn0);
    FoundReplies(r, rw, w, host);
  }

  /** The native fill's entry, found by both hints; the others stay. */
  lemma Ev8Takes(d: Dtb, v: nat, size: nat, asmBit: bool, pte: Pte, w: nat) returns (slot: nat)
    requires DtbShape(d) && Tag(w, true, size) == Tag(v, true, size)
    ensures slot < ENTRIES
    ensures var r := Ev8AddTb(d, v, size, asmBit, pte);
            var e := r.tb.es[slot];
            && Hit(e, w, d.asn0) && e.pte == pte && e.present && e.grp == d.grp
            && Placed(Page(PhysOf(e, w)), pte, v, w, true, size)
            && (forall i :: 0 <= i < ENTRIES && i != slot ==> r.tb.es[i] == d.tb.es[i])
            && r.tb.last == [slot, slot] && r.asn0 == d.asn0 && r.mode == d.mode && r.grp == d.grp
  {
    hide Ev8Scan, Align, Field, PhysOf, Drop, Add, FlushRange, Placed;
    var found := Ev8Scan(d.tb.es, v, d.asn0, asmBit, d.grp, 0);
    slot := if found == -1 then d.tb.next else found;
    AlignAligned(v, true, size);
    PlaceInBlock(Ev8AddTb(d, v, size, asmBit, pte).tb.es[slot], v, w);
  }

  lemma Ev8Uncached(d: Dtb, v: nat, size: nat, asmBit: bool, pte: Pte, w: nat)
    requires Inv(d) && d.native && Tag(w, true, size) == Tag(v, true, size)
    ensures forall rw, s :: Holds(Ev8AddTb(d, v, size, asmBit, pte).cache, rw, s) ==> !SamePage(s.vp, w)
  {
    hide FlushRange, CacheOk, Holds, Drop, Add, Ev8Scan, Tag, Field, Align;
    var found := Ev8Scan(d.tb.es, v, d.asn0, asmBit, d.grp, 0);
    var was := d.tb.es[if found == -1 then d.tb.next else found];
    var c1 := if was.valid then FlushRange(d.cache, was.page, was.size, d.keep) else d.cache;
    if was.valid { FlushRangeOk(d.cache, was.page, was.size, d.keep); }
    FlushRangeOk(c1, v, size, d.keep);
    if size == 0 { WideSame(v, w); }
  }

  lemma WideSame(v: nat, w: nat)
    requires Tag(w, true, 0) == Tag(v, true, 0)
    ensures SamePage(v, w)
  {
    assert Pages(0) == 1;
    ModMod(v, 0x8_0000_0000, 16);
    ModMod(w, 0x8_0000_0000, 16);
  }
}

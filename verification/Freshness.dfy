/** What the data translation path serves is what PALcode filled last: over every run of 8 KB fills
    that give a page one ASM setting between invalidates, each translation in the TB, the shadow or
    the page cache is the most recent one filled for its page and address space and not invalidated
    since. */
module Freshness {
  import opened Bits
  import opened TbIndex
  import opened TbSearch
  import opened PageCache
  import opened DataTb
  import opened Coverage
  import opened CoverageRuns
  import opened Answering

  datatype Space = All | In(asn: nat)

  /** A translation's name: VA<47:13> and the address spaces it is for. */
  datatype Name = Name(page: nat, space: Space)

  type Filled = map<Name, Pte>

  function SpaceOf(asmBit: bool, asn: nat): Space { if asmBit then All else In(asn) }

  function NameOf(e: Entry): Name { Name(e.page, SpaceOf(e.asmBit, e.asn)) }

  /** The architecture's view: what was filled and not invalidated, by name. */
  function Fills(f: Filled, d: Dtb, op: Op): Filled {
    match op
    case DoFill(v, _, asmBit, port1, pte) =>
      f[Name(Field(v, false), SpaceOf(asmBit, if port1 then d.asn1 else d.asn0)) := pte]
    case DoTbisD(v, port1) => Forget(f, v, if port1 then d.asn1 else d.asn0)
    case DoTbis(v) => Forget(Forget(f, v, d.asn0), v, d.asn1)
    case DoTbiap => map n | n in f && n.space == All :: f[n]
    case DoTbia => map[]
    case _ => f
  }

  function Forget(f: Filled, v: nat, asn: nat): Filled {
    f - {Name(Field(v, false), All), Name(Field(v, false), In(asn))}
  }

  /** Software's discipline: 8 KB pages, each with one ASM setting between invalidates. */
  ghost predicate Disciplined(f: Filled, d: Dtb, op: Op) {
    op.DoFill? ==> op.size == 0 && SameSetting(f, op.v, op.asmBit)
  }

  /** The translation the architecture gives a page in an address space. */
  function Current(f: Filled, page: nat, asn: nat): set<Pte> {
    if Name(page, All) in f then {f[Name(page, All)]}
    else if Name(page, In(asn)) in f then {f[Name(page, In(asn))]}
    else {}
  }

  ghost predicate FreshEntry(f: Filled, e: Entry) {
    e.valid ==> e.size == 0 && e.page == Field(e.page, false) && NameOf(e) in f && f[NameOf(e)] == e.pte
  }

  ghost predicate FreshSlot(f: Filled, rw: nat, s: Slot) {
    exists pte :: pte in Current(f, Field(s.vp, false), s.asn) && pte.phys == s.phys && pte.Permits(rw == 1, s.mode)
  }

  ghost predicate OneSetting(f: Filled) {
    forall n, m :: n in f && m in f && n.page == m.page && n.space == All ==> m.space == All
  }

  ghost predicate Distinct(es: seq<Entry>) {
    forall i, j :: 0 <= i < j < |es| && es[i].valid && es[j].valid ==> NameOf(es[i]) != NameOf(es[j])
  }

  ghost predicate Fresh(f: Filled, d: Dtb) {
    && Inv(d) && !d.native && OneSetting(f)
    && (forall i :: 0 <= i < ENTRIES ==> FreshEntry(f, d.tb.es[i]))
    && (forall k :: 0 <= k < SHADOW ==> FreshEntry(f, d.shadow[k]))
    && Distinct(d.tb.es)
    && (forall rw, s :: Holds(d.cache, rw, s) ==> FreshSlot(f, rw, s))
  }

  // ---- Names and hits --------------------------------------------------------------------------

  /** A fresh entry hits a page exactly when it is named for it. */
  lemma HitIsNamed(f: Filled, e: Entry, v: nat, asn: nat)
    requires FreshEntry(f, e) && !e.wide
    ensures Hit(e, v, asn) <==>
              e.valid && (NameOf(e) == Name(Field(v, false), All) || NameOf(e) == Name(Field(v, false), In(asn)))
  {
    assert Pages(0) == 1;
  }

  /** What a hit serves is the current translation. */
  lemma HitIsCurrent(f: Filled, e: Entry, v: nat, asn: nat)
    requires OneSetting(f) && FreshEntry(f, e) && !e.wide && Hit(e, v, asn)
    ensures e.pte in Current(f, Field(v, false), asn)
  {
    HitIsNamed(f, e, v, asn);
  }

  // ---- Fills -----------------------------------------------------------------------------------

  /** One ASM setting for the page of a fill. */
  ghost predicate SameSetting(f: Filled, v: nat, asmBit: bool) {
    if asmBit then forall n :: n in f && n.page == Field(v, false) ==> n.space == All
    else Name(Field(v, false), All) !in f
  }

  lemma FillFresh(f: Filled, d: Dtb, v: nat, asmBit: bool, asn: nat, pte: Pte)
    requires Fresh(f, d) && SameSetting(f, v, asmBit)
    ensures Fresh(f[Name(Field(v, false), SpaceOf(asmBit, asn)) := pte], AddTb(d, v, 0, asmBit, asn, pte))
  {
    hide Inv, AddTables, AddFlush, Holds, FreshEntry, Distinct, FreshSlot, OneSetting, Scan, SameSetting;
    InvParts(d);
    var found := Scan(d.tb.es, v, asn, 0);
    var slot := if found == -1 then d.tb.next else found;
    FillTablesFresh(f, d, v, asmBit, asn, pte, slot);
    FillCacheFresh(f, d, v, asmBit, asn, pte, slot);
    AddTbKeeps(d, v, 0, asmBit, asn, pte);
    AddKeepsRest(d, slot, v, 0, asmBit, asn, pte);
  }

  lemma FillCacheFresh(f: Filled, d: Dtb, v: nat, asmBit: bool, asn: nat, pte: Pte, slot: nat)
    requires Fresh(f, d) && slot < ENTRIES
    ensures var t := AddTables(d, slot, v, 0, asmBit, asn, pte);
            forall rw, s :: Holds(AddFlush(d, t, d.tb.es[slot], v, 0), rw, s) ==>
              FreshSlot(f[Name(Field(v, false), SpaceOf(asmBit, asn)) := pte], rw, s)
  {
    hide Inv, AddTables, AddFlush, Holds, FreshEntry, Distinct, OneSetting;
    InvParts(d);
    var n := Name(Field(v, false), SpaceOf(asmBit, asn));
    var t := AddTables(d, slot, v, 0, asmBit, asn, pte);
    AddFlushCovers(d, slot, v, 0, asmBit, asn, pte);
    forall rw, s | Holds(AddFlush(d, t, d.tb.es[slot], v, 0), rw, s)
      ensures FreshSlot(f[n := pte], rw, s)
    {
      assert FreshSlot(f, rw, s);
      OtherPageCurrent(f, n, pte, s.vp, s.asn, v);
    }
  }

  lemma InvParts(d: Dtb)
    requires Inv(d)
    ensures DtbShape(d) && TablesOk(d) && d.tb.next < ENTRIES
  {
  }

  lemma OtherPageCurrent(f: Filled, n: Name, pte: Pte, vp: nat, asn: nat, v: nat)
    requires n.page == Field(v, false) && !SamePage(vp, v)
    ensures Current(f[n := pte], Field(vp, false), asn) == Current(f, Field(vp, false), asn)
  {
  }

  lemma FillTablesFresh(f: Filled, d: Dtb, v: nat, asmBit: bool, asn: nat, pte: Pte, slot: nat)
    requires Fresh(f, d)
    requires var found := Scan(d.tb.es, v, asn, 0); slot == if found == -1 then d.tb.next else found
    requires SameSetting(f, v, asmBit)
    ensures slot < ENTRIES
    ensures var t := AddTables(d, slot, v, 0, asmBit, asn, pte);
            var f' := f[Name(Field(v, false), SpaceOf(asmBit, asn)) := pte];
            && OneSetting(f')
            && (forall i :: 0 <= i < ENTRIES ==> FreshEntry(f', t.tb.es[i]))
            && (forall k :: 0 <= k < SHADOW ==> FreshEntry(f', t.shadow[k]))
            && Distinct(t.tb.es)
  {
    hide CacheOk, AllCovered, Exact, Field, Holds, NewEntry, Add, DropReplaced, Scan, TablesOk;
    var e := NewEntry(d.tb.es[slot], v, 0, asmBit, asn, pte);
    var t := AddTables(d, slot, v, 0, asmBit, asn, pte);
    var f' := f[Name(Field(v, false), SpaceOf(asmBit, asn)) := pte];
    NewEntryOk(d.tb.es[slot], v, 0, asmBit, asn, pte);
    assert NameOf(e) == Name(Field(v, false), SpaceOf(asmBit, asn));
    forall i | 0 <= i < ENTRIES && i != slot
      ensures FreshEntry(f', d.tb.es[i])
      ensures d.tb.es[i].valid ==> NameOf(d.tb.es[i]) != NameOf(e)
    {
      OthersNamed(f, d, v, asmBit, asn, slot, i);
    }
    forall k | 0 <= k < SHADOW
      ensures FreshEntry(f', t.shadow[k])
    {
      assert FreshEntry(f, d.shadow[k]) && ShadowOk(d, k) by { ShadowAt(d, k); }
    }
  }

  lemma ShadowAt(d: Dtb, k: nat)
    requires Inv(d) && k < SHADOW
    ensures ShadowOk(d, k)
  {
  }

  /** No other entry has the new one's name. */
  lemma OthersNamed(f: Filled, d: Dtb, v: nat, asmBit: bool, asn: nat, slot: nat, i: nat)
    requires Fresh(f, d) && i < ENTRIES && i != slot
    requires var found := Scan(d.tb.es, v, asn, 0); slot == if found == -1 then d.tb.next else found
    requires SameSetting(f, v, asmBit)
    ensures d.tb.es[i].valid ==> NameOf(d.tb.es[i]) != Name(Field(v, false), SpaceOf(asmBit, asn))
    ensures FreshEntry(f, d.tb.es[i])
  {
    var es := d.tb.es;
    assert EntryOk(d, es[i]) && EntryOk(d, es[slot]);
    assert FreshEntry(f, es[i]) && FreshEntry(f, es[slot]);
    HitIsNamed(f, es[i], v, asn);
    HitIsNamed(f, es[slot], v, asn);
  }

  // ---- Refills and accesses --------------------------------------------------------------------

  lemma FindFresh(f: Filled, d: Dtb, v: nat, rw: nat)
    requires Fresh(f, d) && rw < 2
    ensures var (i, d') := FindData(d, v, rw);
            && Fresh(f, d') && d'.asn0 == d.asn0 && d'.mode == d.mode
            && (i != -1 ==> Hit(d'.tb.es[i], v, d.asn0) && d'.tb.es[i].pte in Current(f, Field(v, false), d.asn0))
  {
    hide Inv, Refill, Holds;
    assert DtbShape(d) by { InvParts(d); }
    FindDataExact(d, v, rw);
    FindMoves(d, v, rw);
    var (i, d') := FindData(d, v, rw);
    forall j | 0 <= j < ENTRIES
      ensures FreshEntry(f, d'.tb.es[j])
    {
      assert FreshEntry(f, d.tb.es[j]) && FreshEntry(f, d.shadow[v % SHADOW]);
    }
    if d'.tb.es != d.tb.es { RefillDistinct(f, d, v); }
    if i != -1 {
      assert EntryOk(d', d'.tb.es[i]) by { InvEntry(d', i); }
      HitIsCurrent(f, d'.tb.es[i], v, d.asn0);
    }
  }

  lemma InvEntry(d: Dtb, i: nat)
    requires Inv(d) && i < ENTRIES
    ensures EntryOk(d, d.tb.es[i])
  {
  }

  lemma RefillDistinct(f: Filled, d: Dtb, v: nat)
    requires Fresh(f, d) && Hit(d.shadow[v % SHADOW], v, d.asn0) && !Maps(d.tb.es, v, d.asn0)
    ensures Distinct(d.tb.es[d.tb.next := d.shadow[v % SHADOW]])
  {
    hide CacheOk, AllCovered, Exact;
    var sh := d.shadow[v % SHADOW];
    assert ShadowOk(d, v % SHADOW) && FreshEntry(f, sh);
    HitIsNamed(f, sh, v, d.asn0);
    forall i | 0 <= i < ENTRIES && d.tb.es[i].valid
      ensures NameOf(d.tb.es[i]) != NameOf(sh)
    {
      assert EntryOk(d, d.tb.es[i]) && FreshEntry(f, d.tb.es[i]);
      HitIsNamed(f, d.tb.es[i], v, d.asn0);
      assert !Hit(d.tb.es[i], v, d.asn0);
    }
  }

  /** An access is served the current translation, and the PTE it comes from admits it. */
  lemma AccessFresh(f: Filled, d: Dtb, rw: nat, v: nat, host: nat)
    requires Fresh(f, d) && rw < 2 && v * PAGE < WORD
    ensures Fresh(f, Access(d, rw, v, host).1)
    ensures var a := Access(d, rw, v, host).0;
            a.Page? ==>
              exists pte :: pte in Current(f, Field(v, false), d.asn0) && pte.phys == a.phys
                            && pte.Permits(rw == 1, d.mode)
  {
    hide FindData, Exact, Fill, Promote;
    AccessKeeps(d, rw, v, host);
    if HitL1(d, rw, v) {
      CacheServes(f, d, rw, v);
    } else if Promotes(d.cache, rw, v, d.mode, d.asn0) {
      CacheServes(f, d, rw, v);
      PromoteOk(d.cache, rw, v, d.mode, d.asn0);
    } else {
      FindFresh(f, d, v, rw);
      var (i, d1) := FindData(d, v, rw);
      if i != -1 && d1.tb.es[i].pte.Permits(rw == 1, d1.mode) {
        assert FreshEntry(f, d1.tb.es[i]);
        assert Pages(0) == 1;
        var phys := PhysOf(d1.tb.es[i], v);
        FillOk(d1.cache, rw, v, phys, host, d1.mode, d1.asn0);
        var r := Access(d, rw, v, host).1;
        forall rw', s | Holds(r.cache, rw', s)
          ensures FreshSlot(f, rw', s)
        {
          if !Holds(d1.cache, rw', s) { assert d1.tb.es[i].pte in Current(f, Field(s.vp, false), s.asn); }
        }
      }
    }
  }

  lemma CacheServes(f: Filled, d: Dtb, rw: nat, v: nat)
    requires Fresh(f, d) && rw < 2 && AnswersAt(d, rw, v)
    ensures var phys := if HitL1(d, rw, v) then d.cache.l1[rw][v % L1].phys else d.cache.l2[rw][v % L2].phys;
            exists pte :: pte in Current(f, Field(v, false), d.asn0) && pte.phys == phys && pte.Permits(rw == 1, d.mode)
  {
    assert L1Ok(d.cache, rw, v % L1) && L2Ok(d.cache, rw, v % L2);
    var s := d.cache.l2[rw][v % L2];
    assert Holds(d.cache, rw, s);
    assert FreshSlot(f, rw, s);
  }

  /** The TB or the shadow still has a translation for the page. */
  ghost predicate Resident(d: Dtb, v: nat)
    requires |d.shadow| == SHADOW
  {
    Maps(d.tb.es, v, d.asn0) || Hit(d.shadow[v % SHADOW], v, d.asn0)
  }

  /** The current translation of a resident page is served to every access it admits. */
  lemma CurrentServed(f: Filled, d: Dtb, rw: nat, v: nat, host: nat, pte: Pte)
    requires Fresh(f, d) && rw < 2 && v * PAGE < WORD
    requires pte in Current(f, Field(v, false), d.asn0) && pte.Permits(rw == 1, d.mode) && Resident(d, v)
    ensures Access(d, rw, v, host).0 == Page(pte.phys)
  {
    hide Inv, Holds, Access, Hit, Maps;
    InvParts(d);
    forall i | 0 <= i < ENTRIES && Hit(d.tb.es[i], v, d.asn0)
      ensures d.tb.es[i].pte == pte
    {
      InvEntry(d, i);
      assert FreshEntry(f, d.tb.es[i]);
      HitIsCurrent(f, d.tb.es[i], v, d.asn0);
    }
    var sh := d.shadow[v % SHADOW];
    if Hit(sh, v, d.asn0) {
      HitLive(sh, v, d.asn0);
      assert ShadowOk(d, v % SHADOW) by { ShadowAt(d, v % SHADOW); }
      assert FreshEntry(f, sh);
      HitIsCurrent(f, sh, v, d.asn0);
    }
    Answers(d, rw, v, host);
    AccessFresh(f, d, rw, v, host);
  }

  // ---- Invalidates -----------------------------------------------------------------------------

  lemma ForgetOther(f: Filled, v: nat, asn: nat, vp: nat, asn': nat)
    requires !SamePage(vp, v)
    ensures Current(Forget(f, v, asn), Field(vp, false), asn') == Current(f, Field(vp, false), asn')
  {
  }

  lemma ForgetSetting(f: Filled, v: nat, asn: nat)
    requires OneSetting(f)
    ensures OneSetting(Forget(f, v, asn))
  {
  }

  /** tbis_d invalidates every entry of the names it forgets. */
  lemma TbisDFresh(f: Filled, d: Dtb, v: nat, asn: nat)
    requires Fresh(f, d)
    ensures Fresh(Forget(f, v, asn), TbisD(d, v, asn))
  {
    hide Inv, Holds, Distinct, FreshEntry, TbisD, FreshSlot;
    InvParts(d);
    TbisDKeeps(d, v, asn);
    TbisDRest(d, v, asn);
    TbisDTablesFresh(f, d, v, asn);
    ForgetSetting(f, v, asn);
    var r := TbisD(d, v, asn);
    forall rw, s | Holds(r.cache, rw, s)
      ensures FreshSlot(Forget(f, v, asn), rw, s)
    {
      assert FreshSlot(f, rw, s);
      SlotForgotten(f, v, asn, rw, s);
    }
  }

  lemma SlotForgotten(f: Filled, v: nat, asn: nat, rw: nat, s: Slot)
    requires FreshSlot(f, rw, s) && !SamePage(s.vp, v)
    ensures FreshSlot(Forget(f, v, asn), rw, s)
  {
    ForgetOther(f, v, asn, s.vp, s.asn);
  }

  lemma TbisDTablesFresh(f: Filled, d: Dtb, v: nat, asn: nat)
    requires Fresh(f, d) && DtbShape(d)
    ensures var r := TbisD(d, v, asn);
            && (forall i :: 0 <= i < ENTRIES ==> FreshEntry(Forget(f, v, asn), r.tb.es[i]))
            && (forall k :: 0 <= k < SHADOW ==> FreshEntry(Forget(f, v, asn), r.shadow[k]))
            && Distinct(r.tb.es)
  {
    hide CacheOk, AllCovered, Sound, Complete, Hit, FlushRange, Holds, Sweep, SweepFlush;
    var kill := Hits(v, asn);
    var r := TbisD(d, v, asn);
    SweepFlushIs(d.tb.es, d.tb.ix, d.cache, kill, false, d.keep, 0);
    SweepExact(d.tb.es, d.tb.ix, kill, false, 0);
    forall i | 0 <= i < ENTRIES
      ensures FreshEntry(Forget(f, v, asn), r.tb.es[i])
    {
      assert EntryOk(d, d.tb.es[i]) && FreshEntry(f, d.tb.es[i]);
      HitIsNamed(f, d.tb.es[i], v, asn);
    }
    forall k | 0 <= k < SHADOW
      ensures FreshEntry(Forget(f, v, asn), r.shadow[k])
    {
      UnshadowedFresh(f, d, v, asn, k);
    }
  }

  lemma UnshadowedFresh(f: Filled, d: Dtb, v: nat, asn: nat, k: nat)
    requires Fresh(f, d) && k < SHADOW
    ensures FreshEntry(Forget(f, v, asn), Unshadow(d, v, asn).shadow[k])
  {
    hide CacheOk, AllCovered, Exact, Holds;
    var e := d.shadow[k];
    assert ShadowOk(d, k) && FreshEntry(f, e);
    assert ShadowOk(d, v % SHADOW);
    if e.valid { HitIsNamed(f, e, v, asn); }
    ShadowHitIs(d, v, asn);
    FieldLow(v, false);
  }

  /** Forgetting a shadow entry keeps everything fresh that it does not cover. */
  lemma TbisFresh(f: Filled, d: Dtb, v: nat)
    requires Fresh(f, d)
    ensures Fresh(Forget(Forget(f, v, d.asn0), v, d.asn1), Tbis(d, v))
  {
    hide Inv, Holds, Distinct, FreshEntry, TbisD, FreshSlot, OneSetting;
    InvParts(d);
    var sh := d.shadow[v % SHADOW];
    var d1 := if sh.valid && sh.page == Align(v, sh.wide, sh.size)
              then d.(shadow := d.shadow[v % SHADOW := sh.(valid := false)]) else d;
    FirstTbisFresh(f, d, v, d1);
    TbisDRest(d1, v, d.asn0);
    if d.asn1 != d.asn0 {
      TbisDFresh(Forget(f, v, d.asn0), TbisD(d1, v, d.asn0), v, d.asn1);
    } else {
      assert Forget(Forget(f, v, d.asn0), v, d.asn1) == Forget(f, v, d.asn0);
    }
  }

  lemma FirstTbisFresh(f: Filled, d: Dtb, v: nat, d1: Dtb)
    requires Fresh(f, d) && DtbShape(d)
    requires var sh := d.shadow[v % SHADOW];
             d1 == if sh.valid && sh.page == Align(v, sh.wide, sh.size)
                   then d.(shadow := d.shadow[v % SHADOW := sh.(valid := false)]) else d
    ensures Fresh(Forget(f, v, d.asn0), TbisD(d1, v, d.asn0))
  {
    hide Inv, Holds, Distinct, FreshSlot, OneSetting, SweepFlush, Sweep, FlushRange, Hit;
    TbisDFresh(f, d, v, d.asn0);
    if d1 != d {
      FirstTbisDKeeps(d, v);
      var r, r1 := TbisD(d, v, d.asn0), TbisD(d1, v, d.asn0);
      assert r1.tb == r.tb && r1.cache == r.cache && r1.native == r.native;
      forall k | 0 <= k < SHADOW
        ensures FreshEntry(Forget(f, v, d.asn0), r1.shadow[k])
      {
        assert FreshEntry(Forget(f, v, d.asn0), r.shadow[k]);
      }
    }
  }

  lemma TbiapFresh(f: Filled, d: Dtb)
    requires Fresh(f, d)
    ensures Fresh(map n | n in f && n.space == All :: f[n], Tbiap(d))
  {
    hide CacheOk, AllCovered, Sound, Complete, Sweep, FlushAll;
    var kill := OwnedLive();
    var f' := map n | n in f && n.space == All :: f[n];
    TbiapKeeps(d);
    SweepExact(d.tb.es, d.tb.ix, kill, false, 0);
    var r := Tbiap(d);
    forall i | 0 <= i < ENTRIES
      ensures FreshEntry(f', r.tb.es[i])
    {
      assert FreshEntry(f, d.tb.es[i]);
    }
    forall k | 0 <= k < SHADOW
      ensures FreshEntry(f', r.shadow[k])
    {
      assert FreshEntry(f, d.shadow[k]);
    }
    FlushAllOk(d.cache);
  }

  lemma TbiaFresh(f: Filled, d: Dtb)
    requires Fresh(f, d)
    ensures Fresh(map[], Tbia(d))
  {
    hide CacheOk, AllCovered, Exact, FlushAll;
    TbiaKeeps(d);
    FlushAllOk(d.cache);
  }

  /** The address space and mode writes change no table. */
  lemma ContextFresh(f: Filled, d: Dtb, r: Dtb)
    requires Fresh(f, d) && Inv(r) && r.tb == d.tb && r.shadow == d.shadow && r.native == d.native
    requires r.cache == d.cache || r.cache == FlushAll(d.cache)
    ensures Fresh(f, r)
  {
    FlushAllOk(d.cache);
  }

  // ---- Runs ------------------------------------------------------------------------------------

  lemma StepFresh(f: Filled, d: Dtb, op: Op)
    requires Fresh(f, d) && Enabled(d, op) && Disciplined(f, d, op)
    ensures DtbShape(d) && Fresh(Fills(f, d, op), Step(d, op))
  {
    InvParts(d);
    StepKeeps(d, op);
    hide Fresh, Inv, AddTb, Tbis, TbisD, Tbiap, Tbia, Access, FindData, FlushAll, Forget;
    assert !d.native by { FreshNative(f, d); }
    match op
    case DoFill(v, size, asmBit, port1, pte) => FillFresh(f, d, v, asmBit, if port1 then d.asn1 else d.asn0, pte);
    case DoTbis(v) => TbisFresh(f, d, v);
    case DoTbisD(v, port1) => TbisDFresh(f, d, v, if port1 then d.asn1 else d.asn0);
    case DoTbiap => TbiapFresh(f, d);
    case DoTbia => TbiaFresh(f, d);
    case DoAccess(rw, v, host) => AccessFresh(f, d, rw, v, host);
    case DoFind(rw, v) => FindFresh(f, d, v, rw);
    case _ => ContextStepFresh(f, d, op);
  }

  lemma ContextStepFresh(f: Filled, d: Dtb, op: Op)
    requires Fresh(f, d) && DtbShape(d) && Enabled(d, op) && !d.native && (op.DoAsn0? || op.DoAsn1? || op.DoMode?)
    requires Inv(Step(d, op))
    ensures Fresh(Fills(f, d, op), Step(d, op))
  {
    hide Fresh, Inv, FlushAll;
    match op
    case DoAsn0(asn) => ContextFresh(f, d, SetAsn0(d, asn));
    case DoAsn1(asn) => ContextFresh(f, d, SetAsn1(d, asn));
    case DoMode(mode) => ContextFresh(f, d, d.(mode := mode));
  }

  lemma FreshNative(f: Filled, d: Dtb)
    requires Fresh(f, d)
    ensures !d.native
  {
  }

  ghost predicate DisciplinedRun(states: seq<Dtb>, ops: seq<Op>, fills: seq<Filled>) {
    && Run(states, ops) && |fills| == |states|
    && (forall i :: 0 <= i < |ops| ==>
          Disciplined(fills[i], states[i], ops[i]) && fills[i + 1] == Fills(fills[i], states[i], ops[i]))
  }

  /** Over every disciplined run, any access is served the physical page most recently filled for its
      page and address space and not invalidated since, under a PTE that admits it; and it is served as
      long as the TB or the shadow has the page. */
  lemma {:induction false} RunServesLatest(states: seq<Dtb>, ops: seq<Op>, fills: seq<Filled>, n: nat)
    requires DisciplinedRun(states, ops, fills) && Fresh(fills[0], states[0]) && n < |states|
    ensures Fresh(fills[n], states[n])
    ensures forall rw, v, host | 0 <= rw < 2 && 0 <= v && 0 <= host && v * PAGE < WORD ::
              var a := Access(states[n], rw, v, host).0;
              a.Page? ==> exists pte :: pte in Current(fills[n], Field(v, false), states[n].asn0) && pte.phys == a.phys
                                        && pte.Permits(rw == 1, states[n].mode)
    ensures forall rw, v, host, pte | 0 <= rw < 2 && 0 <= v && 0 <= host && v * PAGE < WORD && Resident(states[n], v)
              && pte in Current(fills[n], Field(v, false), states[n].asn0) && pte.Permits(rw == 1, states[n].mode) ::
              Access(states[n], rw, v, host).0 == Page(pte.phys)
  {
    hide Fresh, Access, Step, Fills;
    if n > 0 {
      RunServesLatest(states, ops, fills, n - 1);
      StepFresh(fills[n - 1], states[n - 1], ops[n - 1]);
    }
    forall rw, v, host | 0 <= rw < 2 && 0 <= v && 0 <= host && v * PAGE < WORD
      ensures var a := Access(states[n], rw, v, host).0;
              a.Page? ==> exists pte :: pte in Current(fills[n], Field(v, false), states[n].asn0) && pte.phys == a.phys
                                        && pte.Permits(rw == 1, states[n].mode)
    {
      AccessFresh(fills[n], states[n], rw, v, host);
    }
    forall rw, v, host, pte | 0 <= rw < 2 && 0 <= v && 0 <= host && v * PAGE < WORD && Resident(states[n], v)
             && pte in Current(fills[n], Field(v, false), states[n].asn0) && pte.Permits(rw == 1, states[n].mode)
      ensures Access(states[n], rw, v, host).0 == Page(pte.phys)
    {
      CurrentServed(fills[n], states[n], rw, v, host, pte);
    }
  }

  /** So a disciplined fill is served at once, to reads and writes. */
  lemma FillServed(f: Filled, d: Dtb, v: nat, asmBit: bool, pte: Pte, rw: nat, host: nat)
    requires Fresh(f, d) && SameSetting(f, v, asmBit) && rw < 2 && v * PAGE < WORD && pte.Permits(rw == 1, d.mode)
    ensures DtbShape(d) && Access(AddTb(d, v, 0, asmBit, d.asn0, pte), rw, v, host).0 == Page(pte.phys)
  {
    hide Inv, Holds, Access, Hit, Maps, AddTb;
    InvParts(d);
    var r, slot := AddTb(d, v, 0, asmBit, d.asn0, pte), FillSlot(d, v, d.asn0);
    FillTakes(d, v, 0, asmBit, d.asn0, pte);
    FillFresh(f, d, v, asmBit, d.asn0, pte);
    SlotMaps(r.tb.es, slot, v, d.asn0);
    var n := Name(Field(v, false), SpaceOf(asmBit, d.asn0));
    CurrentServed(f[n := pte], r, rw, v, host, pte);
  }

  /** After a reset nothing is filled, and nothing is served. */
  lemma ResetFresh(d: Dtb)
    requires Inv(d) && !d.native
    requires forall i :: 0 <= i < ENTRIES ==> !d.tb.es[i].valid
    requires forall k :: 0 <= k < SHADOW ==> !d.shadow[k].valid
    requires forall rw, i :: 0 <= rw < 2 && 0 <= i < L2 ==> !d.cache.l2[rw][i].valid
    ensures Fresh(map[], d)
  {
    hide CacheOk, AllCovered, Exact;
  }
}

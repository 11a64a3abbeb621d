/** The data translation path of one processor: the TB, its shadow and the page cache, updated in
    place. Every method's new state is DataTb's function of the old one, so what Coverage and
    Freshness prove of every run holds of these. */
module DataPath {
  import opened TbIndex
  import opened TbSearch
  import opened PageCache
  import opened DataTb
  import opened Coverage
  import opened CoverageRuns
  import TbStore
  import CacheStore

  class Processor {
    const tb: TbStore.Table
    const cache: CacheStore.Levels
    const shadow: array<Entry>
    var asn0: nat
    var asn1: nat
    var mode: nat
    var grp: nat
    const keep: bool
    const native: bool

    ghost const Repr: set<object>

    ghost predicate Valid()
      reads this, Repr
    {
      && Repr == {this, shadow} + tb.Repr + cache.Repr
      && {tb, cache} <= Repr
      && {this, shadow} !! tb.Repr && {this, shadow} !! cache.Repr && tb.Repr !! cache.Repr
      && tb.Valid() && cache.Sizes() && shadow.Length == SHADOW
    }

    ghost function View(): (d: Dtb)
      requires Valid()
      reads this, Repr
      ensures DtbShape(d)
      ensures d.asn0 == asn0 && d.asn1 == asn1 && d.mode == mode && d.grp == grp && d.keep == keep && d.native == native
    {
      Dtb(tb.View(), shadow[..], cache.View(), asn0, asn1, mode, grp, keep, native)
    }

    /** After a reset the invariant holds. */
    constructor (keep: bool, native: bool)
      ensures Valid() && fresh(Repr) && this.keep == keep && this.native == native
      ensures Inv(View())
    {
      var t := new TbStore.Table();
      var c := new CacheStore.Levels();
      var sh := new Entry[SHADOW](_ => Entry(false, 0, false, 0, 0, false, Pte(0, {}, {}), false, 0));
      tb, cache, shadow := t, c, sh;
      asn0, asn1, mode, grp := 0, 0, 0, 0;
      this.keep, this.native := keep, native;
      Repr := {this, sh} + t.Repr + c.Repr;
      new;
      hide EmptyIndex, DtbShape;
      ResetInv(View());
    }

    // ---- One table at a time -------------------------------------------------------------------

    function EntryAt(i: nat): (e: Entry)
      requires Valid() && i < ENTRIES
      reads this, Repr
      ensures e == View().tb.es[i]
    {
      tb.es[i]
    }

    function ShadowAt(v: nat): (e: Entry)
      requires Valid()
      reads this, Repr
      ensures e == View().shadow[v % SHADOW]
    {
      shadow[v % SHADOW]
    }

    function Next(): (n: nat)
      requires Valid()
      reads this, Repr
      ensures n == View().tb.next < ENTRIES
    {
      tb.next
    }

    method SetEntry(slot: nat, e: Entry)
      requires Valid() && slot < ENTRIES
      modifies Repr
      ensures Valid() && View() == old(View()).(tb := old(View()).tb.(es := old(View()).tb.es[slot := e]))
    {
      tb.SetEntry(slot, e);
    }

    method SetShadow(v: nat, e: Entry)
      requires Valid()
      modifies Repr
      ensures Valid() && View() == old(View()).(shadow := old(View()).shadow[v % SHADOW := e])
    {
      hide TbShape;
      shadow[v % SHADOW] := e;
    }

    method SetNext(n: nat)
      requires Valid() && n < ENTRIES
      modifies Repr
      ensures Valid() && View() == old(View()).(tb := old(View()).tb.(next := n))
    {
      tb.next := n;
    }

    method SetHint(rw: nat, slot: nat)
      requires Valid() && rw < 2 && slot < ENTRIES
      modifies Repr
      ensures Valid() && View() == old(View()).(tb := old(View()).tb.(last := old(View()).tb.last[rw := slot]))
    {
      tb.last[rw] := slot;
    }

    method DropIndex(e: Entry, slot: nat)
      requires Valid() && slot < ENTRIES
      modifies Repr
      ensures Valid() && View() == old(View()).(tb := old(View()).tb.(ix := Drop(old(View()).tb.ix, e, slot)))
    {
      hide Drop;
      tb.IdxDrop(e, slot);
    }

    method AddIndex(e: Entry, slot: nat)
      requires Valid() && slot < ENTRIES
      modifies Repr
      ensures Valid() && View() == old(View()).(tb := old(View()).tb.(ix := Add(old(View()).tb.ix, e, slot)))
    {
      hide Add;
      tb.IdxAdd(e, slot);
    }

    /** add_tb's removal of the replaced entry from the index. */
    method DropReplacedIndex(e: Entry, slot: nat)
      requires Valid() && slot < ENTRIES
      modifies Repr
      ensures Valid() && View() == old(View()).(tb := old(View()).tb.(ix := DropReplaced(old(View()).tb.ix, e, slot)))
    {
      hide Remove;
      if e.valid {
        if e.size == 0 && !e.wide {
          tb.IdxRemove(e.page, slot);
        } else {
          tb.large := tb.large - 1;
        }
      }
    }

    method FlushPages(v: nat, size: nat)
      requires Valid()
      modifies Repr
      ensures Valid() && View() == old(View()).(cache := FlushRange(old(View()).cache, v, size, keep))
    {
      hide FlushRange, CacheShape, TbShape;
      cache.FlushPages(v, size, keep);
    }

    method Flush()
      requires Valid()
      modifies Repr
      ensures Valid() && View() == old(View()).(cache := FlushAll(old(View()).cache))
    {
      hide FlushAll, CacheShape, TbShape;
      cache.Flush();
    }

    method ForgetShadow(kill: Kill)
      requires Valid()
      modifies Repr
      ensures Valid() && View() == old(View()).(shadow := KillEntries(old(View()).shadow, kill))
    {
      hide TbShape;
      forall k | 0 <= k < SHADOW {
        shadow[k] := if kill(shadow[k]) then shadow[k].(valid := false) else shadow[k];
      }
      assert shadow[..] == KillEntries(old(shadow[..]), kill);
    }

    method ForgetEntries()
      requires Valid()
      modifies Repr
      ensures Valid() && View() == old(View()).(tb := old(View()).tb.(es := KillEntries(old(View()).tb.es, Every())))
    {
      hide KillEntries, Every;
      tb.ForgetEntries();
    }

    method RegroupEntries(g: nat)
      requires Valid()
      modifies Repr
      ensures Valid() && View() == old(View()).(tb := old(View()).tb.(es := Regroup(old(View()).tb.es, g)))
    {
      hide Regroup;
      tb.RegroupEntries(g);
    }

    method ClearIndex()
      requires Valid()
      modifies Repr
      ensures Valid() && View() == old(View()).(tb := old(View()).tb.(ix := EmptyIndex()))
    {
      tb.ClearIndex();
    }

    method RebuildIndex()
      requires Valid()
      modifies Repr
      ensures Valid() &&
                      View() == old(View()).(tb := old(View()).tb.(ix := Rebuild(old(View()).tb.es, EmptyIndex(), 0)))
    {
      hide Rebuild;
      tb.RebuildIndex();
    }

    method SweepEntries(kill: Kill, ev8: bool)
      requires Valid()
      modifies Repr
      ensures Valid()
      ensures var d := old(View());
              var (es, ix) := Sweep(d.tb.es, d.tb.ix, kill, ev8, 0);
              View() == d.(tb := d.tb.(es := es, ix := ix))
    {
      hide Sweep;
      tb.SweepSlots(kill, ev8);
    }

    method SearchTb(v: nat, asn: nat, rw: nat) returns (i: int)
      requires Valid() && rw < 2
      modifies Repr
      ensures Valid()
      ensures var d := old(View()); var (r, t) := Find(d.tb, v, asn, rw); i == r && View() == d.(tb := t)
    {
      hide Find;
      i := tb.Search(v, asn, rw);
    }

    method ScanEntries(v: nat, asn: nat) returns (i: int)
      requires Valid()
      ensures i == Scan(View().tb.es, v, asn, 0)
    {
      hide Scan;
      i := tb.ScanSlots(v, asn);
    }

    // ---- dtb_still_maps, drop_unmapped_page ----------------------------------------------------

    method WaysHaveSame(e: Entry) returns (r: bool)
      requires Valid()
      ensures r == ProbeSame(View().tb.es, View().tb.ix.rows[SetOf(e.page)], e, 0)
    {
      var s := SetOf(e.page);
      ghost var row := View().tb.ix.rows[s];
      var k := 0;
      while k < WAYS && tb.ways[s * WAYS + k] != 0
        invariant 0 <= k <= WAYS && ProbeSame(tb.es[..], row, e, 0) == ProbeSame(tb.es[..], row, e, k)
      {
        assert row[k] == tb.ways[s * WAYS + k];
        if Same(tb.es[tb.ways[s * WAYS + k] - 1], e) {
          return true;
        }
        k := k + 1;
      }
      assert k < WAYS ==> row[k] == tb.ways[s * WAYS + k];
      r := false;
    }

    method SlotsHaveSame(e: Entry) returns (r: bool)
      requires Valid()
      ensures r == ScanSame(View().tb.es, e, 0)
    {
      var j := 0;
      while j < ENTRIES
        invariant 0 <= j <= ENTRIES && ScanSame(tb.es[..], e, 0) == ScanSame(tb.es[..], e, j)
      {
        if Same(tb.es[j], e) {
          return true;
        }
        j := j + 1;
      }
      r := false;
    }

    method DtbStillMaps(e: Entry) returns (r: bool)
      requires Valid()
      ensures r == StillMaps(View(), e)
    {
      hide ProbeSame, ScanSame, Same;
      if e.size != 0 || e.wide {
        return false;
      }
      if Same(shadow[e.page % SHADOW], e) {
        return true;
      }
      r := WaysHaveSame(e);
      if !r && tb.lost[SetOf(e.page)] {
        r := SlotsHaveSame(e);
      }
    }

    method DropUnmappedPage(e: Entry)
      requires Valid()
      modifies Repr
      ensures Valid() && View() == old(View()).(cache := DropUnmapped(old(View()).cache, old(View()), e))
    {
      hide Valid, View, FlushRange, StillMaps;
      if e.valid {
        var still := DtbStillMaps(e);
        if !still {
          FlushPages(e.page, e.size);
        }
      }
    }

    // ---- Fills ---------------------------------------------------------------------------------

    /** add_tb's tables: the entry written, the one it replaces out of the index, the new one in, an
        8 KB page into the shadow. */
    method WriteEntry(slot: nat, v: nat, size: nat, asmBit: bool, asn: nat, pte: Pte)
      requires Valid() && slot < ENTRIES
      modifies Repr
      ensures Valid() && View() == AddTables(old(View()), slot, v, size, asmBit, asn, pte)
    {
      hide Valid, View, Add, DropReplaced, NewEntry;
      var was := EntryAt(slot);
      var e := NewEntry(was, v, size, asmBit, asn, pte);
      SetEntry(slot, e);
      DropReplacedIndex(was, slot);
      AddIndex(e, slot);
      if size == 0 {
        SetShadow(v, e);
      }
      SetHint(0, slot);
    }

    /** add_tb for a data fill. */
    method AddTranslation(v: nat, size: nat, asmBit: bool, asn: nat, pte: Pte)
      requires Valid()
      modifies Repr
      ensures Valid() && View() == AddTb(old(View()), v, size, asmBit, asn, pte)
    {
      hide Valid, View, AddTables, FlushRange, DropUnmapped, Scan;
      var slot := ScanEntries(v, asn);
      var found := slot != -1;
      if !found {
        slot := Next();
      }
      var was, wasShadow := EntryAt(slot), ShadowAt(v);
      WriteEntry(slot, v, size, asmBit, asn, pte);
      ghost var t := View();
      if was.valid && !keep {
        FlushPages(was.page, was.size);
      } else if was.valid {
        DropUnmappedPage(was);
      }
      DropLooksAtTables(View(), t);
      if keep && size == 0 {
        DropUnmappedPage(wasShadow);
      }
      FlushPages(v, size);
      if !found {
        SetNext(NextSlot(slot));
      }
    }

    /** tb_refill_from_shadow. */
    method RefillFromShadow(v: nat, asn: nat) returns (slot: int)
      requires Valid()
      modifies Repr
      ensures Valid()
      ensures var d := old(View());
              if ShadowHit(d, v, asn) then slot == d.tb.next && View() == Refill(d, v) else slot == -1 && View() == d
    {
      hide Valid, View, Drop, Add, FlushRange, DropUnmapped, Align;
      ghost var d := View();
      var sh := ShadowAt(v);
      if !sh.valid || sh.page != Align(v, sh.wide, sh.size) || !(sh.asmBit || sh.asn == asn) {
        return -1;
      }
      slot := Next();
      SetNext(NextSlot(slot));
      var victim := EntryAt(slot);
      if victim.valid {
        if !keep {
          FlushPages(victim.page, victim.size);
        }
        DropIndex(victim, slot);
      }
      SetEntry(slot, sh);
      AddIndex(sh, slot);
      DropLooksAtTables(View(), RefillTables(d, v));
      if keep {
        DropUnmappedPage(victim);
      }
    }

    /** FindTBEntry for data. */
    method FindEntry(v: nat, rw: nat) returns (i: int)
      requires Valid() && rw < 2
      modifies Repr
      ensures Valid() && (i, View()) == FindData(old(View()), v, rw)
    {
      hide Valid, View, Find, Refill, ShadowHit;
      i := SearchTb(v, asn0, rw);
      if i == -1 {
        i := RefillFromShadow(v, asn0);
        if i != -1 {
          SetHint(rw, i);
        }
      }
    }

    // ---- Invalidates ---------------------------------------------------------------------------

    /** The pass of tbis_d and DTB_IS: each entry selected leaves, and its page leaves the cache. */
    method SweepAndFlush(kill: Kill, ev8: bool)
      requires Valid()
      modifies Repr
      ensures Valid()
      ensures var d := old(View());
              var (es, ix, c) := SweepFlush(d.tb.es, d.tb.ix, d.cache, kill, ev8, d.keep, 0);
              View() == d.(tb := d.tb.(es := es, ix := ix), cache := c)
    {
      hide Valid, View, Drop, Gone, FlushRange;
      ghost var d := View();
      ghost var final := SweepFlush(d.tb.es, d.tb.ix, d.cache, kill, ev8, keep, 0);
      var i := 0;
      while i < ENTRIES
        invariant 0 <= i <= ENTRIES && Valid()
        invariant SweepFlush(View().tb.es, View().tb.ix, View().cache, kill, ev8, keep, i) == final
        invariant View() == d.(tb := d.tb.(es := View().tb.es, ix := View().tb.ix), cache := View().cache)
      {
        var e := EntryAt(i);
        if kill(e) {
          SetEntry(i, Gone(e, ev8));
          if e.valid {
            DropIndex(e, i);
          }
          FlushPages(e.page, e.size);
        }
        i := i + 1;
      }
    }

    /** tbis_d. */
    method InvalidateSingleD(v: nat, asn: nat)
      requires Valid()
      modifies Repr
      ensures Valid() && View() == TbisD(old(View()), v, asn)
    {
      hide Valid, View, SweepFlush, FlushRange, Align;
      var sh := ShadowAt(v);
      if sh.valid && sh.page == Align(v, sh.wide, sh.size) && (sh.asmBit || sh.asn == asn) {
        SetShadow(v, sh.(valid := false));
      }
      SweepAndFlush(Hits(v, asn), false);
      FlushPages(v, 0);
    }

    /** tbis for data. */
    method InvalidateSingle(v: nat)
      requires Valid()
      modifies Repr
      ensures Valid() && View() == Tbis(old(View()), v)
    {
      hide Valid, View, TbisD, Align;
      var a0, a1 := asn0, asn1;
      var sh := ShadowAt(v);
      if sh.valid && sh.page == Align(v, sh.wide, sh.size) {
        SetShadow(v, sh.(valid := false));
      }
      InvalidateSingleD(v, a0);
      if a1 != a0 {
        InvalidateSingleD(v, a1);
      }
    }

    /** tbiap for data. */
    method InvalidateProcess()
      requires Valid()
      modifies Repr
      ensures Valid() && View() == Tbiap(old(View()))
    {
      hide Valid, View, Sweep, FlushAll, KillEntries, Owned, OwnedLive;
      ForgetShadow(Owned());
      SweepEntries(OwnedLive(), false);
      Flush();
    }

    /** tbia for data. */
    method InvalidateAll()
      requires Valid()
      modifies Repr
      ensures Valid() && View() == Tbia(old(View()))
    {
      hide Valid, View, EmptyIndex, FlushAll, KillEntries, Every;
      ForgetShadow(Every());
      ForgetEntries();
      ClearIndex();
      SetHint(0, 0);
      SetHint(1, 0);
      SetNext(0);
      Flush();
      assert View().tb.last == [0, 0];
    }

    // ---- The native EV8 ------------------------------------------------------------------------

    method ScanGroup(v: nat, asmBit: bool) returns (i: int)
      requires Valid()
      ensures i == Ev8Scan(View().tb.es, v, asn0, asmBit, grp, 0)
    {
      hide Valid, View;
      var j := 0;
      while j < ENTRIES
        invariant 0 <= j <= ENTRIES
        invariant Ev8Scan(View().tb.es, v, asn0, asmBit, grp, 0) == Ev8Scan(View().tb.es, v, asn0, asmBit, grp, j)
      {
        if Ev8Replaces(EntryAt(j), v, asn0, asmBit, grp) {
          return j;
        }
        j := j + 1;
      }
      i := -1;
    }

    /** ev8_add_tb for a valid PTE. */
    method AddGroupTranslation(v: nat, size: nat, asmBit: bool, pte: Pte)
      requires Valid()
      modifies Repr
      ensures Valid() && View() == Ev8AddTb(old(View()), v, size, asmBit, pte)
    {
      hide Valid, View, Ev8Scan, Add, Drop, FlushRange, Align;
      var slot := ScanGroup(v, asmBit);
      if slot == -1 {
        slot := Next();
        SetNext(NextSlot(slot));
      }
      var was := EntryAt(slot);
      if was.valid {
        DropIndex(was, slot);
        FlushPages(was.page, was.size);
      }
      InstallEntry(slot, Entry(true, Align(v, true, size), true, size, asn0, asmBit, pte, true, grp));
      FlushPages(v, size);
    }

    /** The slot written and indexed, both hints at it. */
    method InstallEntry(slot: nat, e: Entry)
      requires Valid() && slot < ENTRIES
      modifies Repr
      ensures Valid()
      ensures var d := old(View());
              View() == d.(tb := Tb(d.tb.es[slot := e], Add(d.tb.ix, e, slot), d.tb.next, [slot, slot]))
    {
      hide Valid, View, Add;
      SetEntry(slot, e);
      AddIndex(e, slot);
      SetHint(0, slot);
      SetHint(1, slot);
      assert View().tb.last == [slot, slot];
    }

    /** ev8_tb_im. */
    method InvalidateMultiple(bits: bv5)
      requires Valid()
      modifies Repr
      ensures Valid() && View() == Ev8TbIm(old(View()), bits)
    {
      hide Valid, View, Sweep, FlushAll, ImSelects;
      SweepEntries(ImSelects(bits, grp, asn0), true);
      if bits & 16 != 0 {
        SetNext(0);
      }
      Flush();
    }

    /** ev8_tb_is. */
    method InvalidateSelected(v: nat)
      requires Valid()
      modifies Repr
      ensures Valid() && View() == Ev8TbIs(old(View()), v)
    {
      hide Valid, View, SweepFlush, FlushRange, IsSelects;
      SweepAndFlush(IsSelects(v, grp, asn0), true);
      FlushPages(v, 0);
    }

    /** ev8_set_group. */
    method SetGroup(g: nat)
      requires Valid()
      modifies Repr
      ensures Valid() && View() == Ev8SetGroup(old(View()), g)
    {
      hide Valid, View, Rebuild, FlushAll, EmptyIndex, Regroup;
      if grp != g {
        RegroupEntries(g);
        RebuildIndex();
        Flush();
        WriteGroup(g);
      }
    }

    method WriteGroup(g: nat)
      requires Valid()
      modifies Repr
      ensures Valid() && View() == old(View()).(grp := g)
    {
      hide TbShape;
      grp := g;
    }

    /** ev8_tb_clear. */
    method ClearGroups()
      requires Valid()
      modifies Repr
      ensures Valid() && View() == Ev8Clear(old(View()))
    {
      hide Valid, View, Tbia, NoneIn;
      InvalidateAll();
      RemoveEntries();
    }

    method RemoveEntries()
      requires Valid()
      modifies Repr
      ensures Valid() && View() == old(View()).(tb := old(View()).tb.(es := NoneIn(old(View()).tb.es)))
    {
      hide NoneIn;
      tb.RemoveAll();
    }

    // ---- Accesses ------------------------------------------------------------------------------

    method WriteAsn0(asn: nat)
      requires Valid()
      modifies Repr
      ensures Valid() && View() == SetAsn0(old(View()), asn)
    {
      hide FlushAll, CacheShape, TbShape;
      asn0 := asn;
      cache.Flush();
    }

    method WriteAsn1(asn: nat)
      requires Valid()
      modifies Repr
      ensures Valid() && View() == SetAsn1(old(View()), asn)
    {
      hide FlushAll, CacheShape, TbShape;
      asn1 := asn;
      cache.Flush();
    }

    function SlotAt(rw: nat, v: nat): (s: Slot)
      requires Valid() && rw < 2
      reads this, Repr
      ensures s == View().cache.l1[rw][v % L1]
    {
      cache.RowL1(rw)[v % L1]
    }

    method TryPromote(rw: nat, v: nat) returns (ok: bool)
      requires Valid() && rw < 2
      modifies Repr
      ensures Valid() && ok == Promotes(old(View()).cache, rw, v, mode, asn0)
      ensures View() == if ok then old(View()).(cache := Promote(old(View()).cache, rw, v)) else old(View())
    {
      hide TbShape, Promote;
      ok := cache.TryPromote(rw, v, mode, asn0);
    }

    method FillBoth(rw: nat, v: nat, phys: nat, host: nat)
      requires Valid() && rw < 2
      modifies Repr
      ensures Valid() && View() == old(View()).(cache := Fill(old(View()).cache, rw, v, phys, host, mode, asn0))
    {
      hide TbShape, Fill;
      cache.FillBoth(rw, v, phys, host, mode, asn0);
    }

    /** A load's or store's translation: level 1, level 2, the TB, the shadow. */
    method Translate(rw: nat, v: nat, host: nat) returns (r: Answer)
      requires Valid() && rw < 2
      modifies Repr
      ensures Valid() && (r, View()) == Access(old(View()), rw, v, host)
    {
      hide Valid, View, FindData, Fill, PhysOf;
      var s := SlotAt(rw, v);
      if Serves(s, v, mode, asn0) {
        return Page(s.phys);
      }
      var ok := TryPromote(rw, v);
      if ok {
        return Page(SlotAt(rw, v).phys);
      }
      var i := FindEntry(v, rw);
      if i == -1 || !EntryAt(i).pte.Permits(rw == 1, mode) {
        return NoAnswer;
      }
      var phys := PhysOf(EntryAt(i), v);
      FillBoth(rw, v, phys, host);
      r := Page(phys);
    }
  }

  /** drop_unmapped_page looks at the tables only. */
  lemma DropLooksAtTables(d: Dtb, t: Dtb)
    requires DtbShape(d) && DtbShape(t)
    requires d.tb.es == t.tb.es && d.tb.ix == t.tb.ix && d.shadow == t.shadow && d.keep == t.keep
    ensures forall c, e :: CacheShape(c) ==> DropUnmapped(c, d, e) == DropUnmapped(c, t, e)
  {
  }
}

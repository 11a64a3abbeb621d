/** What every operation of the data translation path keeps: the index stays exact, the cache levels
    behave as one, and a page the page cache holds is one the TB or its shadow still maps, so that a
    page-cache hit never hides a miss PALcode would have to take. */
module Coverage {
  import Bits
  import opened TbIndex
  import opened TbSearch
  import opened PageCache
  import opened DataTb

  /** The TB maps the page, or with keep the shadow would refill it. */
  ghost predicate Covered(d: Dtb, v: nat, asn: nat)
    requires |d.shadow| == SHADOW
  {
    Maps(d.tb.es, v, asn) || (d.keep && Hit(d.shadow[v % SHADOW], v, asn))
  }

  ghost predicate AllCovered(d: Dtb)
    requires |d.shadow| == SHADOW && CacheShape(d.cache)
  {
    forall rw, s :: Holds(d.cache, rw, s) ==> Covered(d, s.vp, s.asn)
  }

  /** Entries have the row's match width; on the native EV8 valid means present and of this group. */
  ghost predicate EntryOk(d: Dtb, e: Entry) {
    if d.native then e.valid <==> e.present && e.grp == d.grp
    else !e.wide && e.page == Align(e.page, false, e.size)
  }

  ghost predicate ShadowOk(d: Dtb, k: nat)
    requires |d.shadow| == SHADOW && k < SHADOW
  {
    var e := d.shadow[k];
    e.valid ==> !d.native && e.size == 0 && !e.wide && e.page == Field(e.page, false) && e.page % SHADOW == k
  }

  ghost predicate TablesOk(d: Dtb) {
    && |d.shadow| == SHADOW && TbOk(d.tb)
    && (forall i :: 0 <= i < ENTRIES ==> EntryOk(d, d.tb.es[i]))
    && (forall k :: 0 <= k < SHADOW ==> ShadowOk(d, k))
  }

  ghost predicate Inv(d: Dtb) {
    && DtbShape(d) && d.mode < 4 && d.asn0 < 256
    && TablesOk(d) && CacheOk(d.cache) && AllCovered(d)
  }

  // ---- Pages and entries -----------------------------------------------------------------------

  /** An 8 KB entry that matches a page is for that page. */
  lemma HitSamePage(e: Entry, v: nat, asn: nat)
    requires Matches(e, v, asn) && e.size == 0
    ensures SamePage(v, e.page)
  {
    assert Field(e.page, e.wide) == Field(v, e.wide);
    if e.wide {
      ModMod(v, 0x8_0000_0000, 16);
      ModMod(e.page, 0x8_0000_0000, 16);
    }
  }

  lemma SameHits(x: Entry, e: Entry, v: nat, asn: nat)
    requires Same(x, e) && e.size == 0 && !e.wide && Matches(e, v, asn)
    ensures Hit(x, v, asn)
  {
  }

  /** The shadow's test of virt & match_mask is the match. */
  lemma ShadowHitIs(d: Dtb, v: nat, asn: nat)
    requires |d.shadow| == SHADOW && ShadowOk(d, v % SHADOW)
    ensures ShadowHit(d, v, asn) <==> Hit(d.shadow[v % SHADOW], v, asn)
  {
    assert Pages(0) == 1;
  }

  // ---- dtb_still_maps --------------------------------------------------------------------------

  ghost predicate SomewhereSame(d: Dtb, e: Entry)
    requires |d.shadow| == SHADOW
  {
    Same(d.shadow[e.page % SHADOW], e) || exists i :: 0 <= i < |d.tb.es| && Same(d.tb.es[i], e)
  }

  lemma {:induction false} ProbeSameFinds(es: seq<Entry>, w: seq<nat>, e: Entry, k: nat)
    requires k <= |w| && RowShape(w) && |es| == ENTRIES
    ensures ProbeSame(es, w, e, k) ==> exists i :: 0 <= i < |es| && Same(es[i], e)
    ensures forall j :: k <= j < |w| && (forall m :: k <= m <= j ==> w[m] != 0) && Same(es[w[j] - 1], e) ==>
              ProbeSame(es, w, e, k)
    decreases |w| - k
  {
    if k < |w| && w[k] != 0 { ProbeSameFinds(es, w, e, k + 1); }
  }

  lemma {:induction false} ScanSameFinds(es: seq<Entry>, e: Entry, j: nat)
    requires j <= |es|
    ensures ScanSame(es, e, j) <==> exists i :: j <= i < |es| && Same(es[i], e)
    decreases |es| - j
  {
    if j < |es| { ScanSameFinds(es, e, j + 1); }
  }

  /** dtb_still_maps answers exactly whether the shadow or the TB holds the translation. */
  lemma StillMapsExact(d: Dtb, e: Entry)
    requires TablesOk(d) && e.size == 0 && !e.wide
    ensures StillMaps(d, e) <==> SomewhereSame(d, e)
  {
    var s := SetOf(e.page);
    var w := d.tb.ix.rows[s];
    hide Exact, ProbeSame, ScanSame;
    ProbeSameFinds(d.tb.es, w, e, 0);
    ScanSameFinds(d.tb.es, e, 0);
    if i :| 0 <= i < |d.tb.es| && Same(d.tb.es[i], e) {
      if !d.tb.ix.lost[s] {
        var j := WayOf(d.tb.ix, d.tb.es, i);
        assert Same(d.tb.es[w[j] - 1], e);
      }
    }
  }

  /** The entries it looks for are those for exactly the same pages and address spaces. */
  lemma SameIs(x: Entry, e: Entry)
    requires x.size == 0 && !x.wide && x.page == Field(x.page, false)
    requires e.size == 0 && !e.wide && e.page == Field(e.page, false)
    ensures Same(x, e) <==>
              x.valid && forall v, asn :: 0 <= v && 0 <= asn ==> (Matches(x, v, asn) <==> Matches(e, v, asn))
  {
    hide Field;
    SmallMatches(x);
    SmallMatches(e);
    if x.valid && forall v, asn :: 0 <= v && 0 <= asn ==> (Matches(x, v, asn) <==> Matches(e, v, asn)) {
      var neither := e.asn + x.asn + 1;
      assert Matches(x, x.page, x.asn) && Matches(e, e.page, e.asn);
      assert Matches(e, x.page, neither) == e.asmBit && Matches(x, x.page, neither) == x.asmBit;
    }
  }

  lemma SmallMatches(e: Entry)
    requires e.size == 0 && !e.wide
    ensures forall v: nat, asn: nat {:trigger Matches(e, v, asn)} ::
              Matches(e, v, asn) <==> Field(e.page, false) == Field(v, false) && (e.asmBit || e.asn == asn)
  {
    assert Pages(0) == 1;
  }

  /** What a dropped entry covered is either gone from the cache or covered still. */
  lemma DropCovers(c: Cache, d: Dtb, e: Entry)
    requires CacheOk(c) && TablesOk(d) && d.keep
    requires d.native || !e.wide
    ensures CacheOk(DropUnmapped(c, d, e))
    ensures forall rw, s :: Holds(DropUnmapped(c, d, e), rw, s) ==> Holds(c, rw, s)
    ensures forall rw, s :: Holds(DropUnmapped(c, d, e), rw, s) && Hit(e, s.vp, s.asn) ==> Covered(d, s.vp, s.asn)
  {
    FlushRangeOk(c, e.page, e.size, d.keep);
    forall rw, s | Holds(DropUnmapped(c, d, e), rw, s) && Hit(e, s.vp, s.asn)
      ensures Covered(d, s.vp, s.asn)
    {
      if e.size == 0 {
        HitSamePage(e, s.vp, s.asn);
        if StillMaps(d, e) {
          StillMapsExact(d, e);
          HitSet(e, s.vp, s.asn);
          if Same(d.shadow[e.page % SHADOW], e) {
            SameHits(d.shadow[e.page % SHADOW], e, s.vp, s.asn);
          } else {
            var i :| 0 <= i < |d.tb.es| && Same(d.tb.es[i], e);
            SameHits(d.tb.es[i], e, s.vp, s.asn);
          }
        }
      }
    }
  }

  /** drop_unmapped_page keeps what it may: every other page, and the entry's own while the tables have
      its translation. */
  lemma DropSpares(c: Cache, d: Dtb, e: Entry, rw: nat, s: Slot)
    requires CacheOk(c) && TablesOk(d) && d.keep && e.size == 0 && !e.wide
    requires Holds(c, rw, s) && (!SamePage(s.vp, e.page) || SomewhereSame(d, e))
    ensures Holds(DropUnmapped(c, d, e), rw, s)
  {
    hide FlushRange, CacheOk, StillMaps, SomewhereSame, SamePage;
    StillMapsExact(d, e);
    FlushRangeSpares(c, e.page, rw);
  }

  // ---- Fills -----------------------------------------------------------------------------------

  lemma AlignAligned(v: nat, wide: bool, size: nat)
    ensures var p := Align(v, wide, size);
            Field(p, wide) == p && Align(p, wide, size) == p && Tag(p, wide, size) == Tag(v, wide, size)
  {
    var f, n := Field(v, wide), Pages(size);
    var limit := if wide then 0x80_0000_0000 else 0x8_0000_0000;
    MultipleBelow(f, n);
    Bits.DivUnique((f / n) * n, limit, 0, (f / n) * n);
  }

  lemma MultipleBelow(f: nat, n: nat)
    requires n > 0
    ensures 0 <= (f / n) * n <= f && ((f / n) * n) / n == f / n
  {
    Bits.DivMod(f, n);
    Bits.NatQuotient(f, n);
    Bits.MulMono(0, f / n, n);
    Bits.DivUnique((f / n) * n, n, f / n, 0);
  }

  /** A slot's entry replaced: the old one dropped from the index, the new one added. */
  lemma ReplaceExact(ix: Index, es: seq<Entry>, slot: nat, e: Entry)
    requires slot < |es| && e.valid && Exact(ix, es)
    ensures Exact(Add(if es[slot].valid then Drop(ix, es[slot], slot) else ix, e, slot), es[slot := e])
  {
    if es[slot].valid {
      var gone := es[slot].(valid := false);
      DropExact(ix, es, slot, gone);
      AddExact(Drop(ix, es[slot], slot), es[slot := gone], slot, e);
      assert es[slot := gone][slot := e] == es[slot := e];
    } else {
      AddExact(ix, es, slot, e);
    }
  }

  lemma AddTablesOk(d: Dtb, slot: nat, v: nat, size: nat, asmBit: bool, asn: nat, pte: Pte)
    requires DtbShape(d) && TablesOk(d) && !d.native && slot < ENTRIES
    ensures TablesOk(AddTables(d, slot, v, size, asmBit, asn, pte))
  {
    hide Exact, Align, Field, Add, DropReplaced, NewEntry;
    var was := d.tb.es[slot];
    var e := NewEntry(was, v, size, asmBit, asn, pte);
    var t := AddTables(d, slot, v, size, asmBit, asn, pte);
    assert EntryOk(d, was);
    DropReplacedIs(d.tb.ix, was, slot);
    NewEntryOk(was, v, size, asmBit, asn, pte);
    ReplaceExact(d.tb.ix, d.tb.es, slot, e);
    forall k | 0 <= k < SHADOW
      ensures ShadowOk(t, k)
    {
      assert ShadowOk(d, k);
    }
    forall i | 0 <= i < ENTRIES
      ensures EntryOk(t, t.tb.es[i])
    {
      assert EntryOk(d, d.tb.es[i]);
    }
  }

  lemma DropReplacedIs(ix: Index, was: Entry, slot: nat)
    requires Shape(ix) && slot < ENTRIES && !was.wide
    ensures DropReplaced(ix, was, slot) == if was.valid then Drop(ix, was, slot) else ix
  {
  }

  lemma NewEntryOk(was: Entry, v: nat, size: nat, asmBit: bool, asn: nat, pte: Pte)
    ensures var e := NewEntry(was, v, size, asmBit, asn, pte);
            && e.valid && !e.wide && e.size == size && e.page == Align(e.page, false, size)
            && e.asmBit == asmBit && e.asn == asn && e.pte == pte
            && (size == 0 ==> e.page == Field(e.page, false) == Field(v, false) && e.page % SHADOW == v % SHADOW)
  {
    AlignAligned(v, false, size);
    FieldLow(v, false);
    assert Pages(0) == 1;
  }

  /** Replacing one slot loses only what its old entry mapped. */
  lemma MapsReplaced(es: seq<Entry>, slot: nat, e: Entry, v: nat, asn: nat)
    requires slot < |es| && Maps(es, v, asn)
    ensures Maps(es[slot := e], v, asn) || Hit(es[slot], v, asn)
  {
    var i :| 0 <= i < |es| && Hit(es[i], v, asn);
    if i != slot { assert Hit(es[slot := e][i], v, asn); }
  }

  lemma FlushUncovers(c: Cache, e: Entry, keep: bool)
    requires CacheOk(c)
    ensures CacheOk(FlushRange(c, e.page, e.size, keep))
    ensures forall rw, s :: Holds(FlushRange(c, e.page, e.size, keep), rw, s) ==>
              Holds(c, rw, s) && !Hit(e, s.vp, s.asn)
  {
    FlushRangeOk(c, e.page, e.size, keep);
    forall rw, s | Holds(FlushRange(c, e.page, e.size, keep), rw, s)
      ensures !Hit(e, s.vp, s.asn)
    {
      if Matches(e, s.vp, s.asn) { HitSamePage(e, s.vp, s.asn); }
    }
  }

  lemma AddFlushCovers(d: Dtb, slot: nat, v: nat, size: nat, asmBit: bool, asn: nat, pte: Pte)
    requires Inv(d) && !d.native && slot < ENTRIES
    ensures var t := AddTables(d, slot, v, size, asmBit, asn, pte);
            var c := AddFlush(d, t, d.tb.es[slot], v, size);
            && CacheOk(c)
            && (forall rw, s :: Holds(c, rw, s) ==> Holds(d.cache, rw, s) && Covered(t, s.vp, s.asn))
            && (forall rw, s :: Holds(c, rw, s) ==> size == 0 && !SamePage(s.vp, v))
  {
    hide FlushRange, DropUnmapped, Exact, CacheOk, Hit;
    var was, oldShadow := d.tb.es[slot], d.shadow[v % SHADOW];
    var e := NewEntry(was, v, size, asmBit, asn, pte);
    var t := AddTables(d, slot, v, size, asmBit, asn, pte);
    AddTablesOk(d, slot, v, size, asmBit, asn, pte);
    assert EntryOk(d, was);
    assert ShadowOk(d, v % SHADOW);
    var c1 := if !was.valid then d.cache
              else if !d.keep then FlushRange(d.cache, was.page, was.size, d.keep)
              else DropUnmapped(d.cache, t, was);
    if was.valid && !d.keep { FlushUncovers(d.cache, was, d.keep); }
    if was.valid && d.keep { DropCovers(d.cache, t, was); }
    var c2 := if d.keep && size == 0 then DropUnmapped(c1, t, oldShadow) else c1;
    if d.keep && size == 0 { DropShadowCovers(c1, t, oldShadow); }
    FlushRangeOk(c2, v, size, d.keep);
    forall rw, s | Holds(AddFlush(d, t, was, v, size), rw, s)
      ensures Covered(t, s.vp, s.asn)
    {
      assert Holds(c2, rw, s) && Holds(c1, rw, s) && Holds(d.cache, rw, s);
      assert Covered(d, s.vp, s.asn);
      if Maps(d.tb.es, s.vp, s.asn) {
        MapsReplaced(d.tb.es, slot, e, s.vp, s.asn);
        if Hit(was, s.vp, s.asn) { HitValid(was, s.vp, s.asn); }
      } else if s.vp % SHADOW == v % SHADOW && size == 0 {
        assert Hit(oldShadow, s.vp, s.asn);
      }
    }
  }

  lemma HitValid(e: Entry, v: nat, asn: nat)
    requires Hit(e, v, asn)
    ensures e.valid
  {
  }

  /** DropCovers for the shadow's entry, which need not be valid. */
  lemma DropShadowCovers(c: Cache, d: Dtb, e: Entry)
    requires CacheOk(c) && TablesOk(d) && d.keep && (e.valid ==> !e.wide)
    ensures CacheOk(DropUnmapped(c, d, e))
    ensures forall rw, s :: Holds(DropUnmapped(c, d, e), rw, s) ==> Holds(c, rw, s)
    ensures forall rw, s :: Holds(DropUnmapped(c, d, e), rw, s) && Hit(e, s.vp, s.asn) ==> Covered(d, s.vp, s.asn)
  {
    if e.valid { DropCovers(c, d, e); }
  }

  lemma AddTbKeeps(d: Dtb, v: nat, size: nat, asmBit: bool, asn: nat, pte: Pte)
    requires Inv(d) && !d.native
    ensures Inv(AddTb(d, v, size, asmBit, asn, pte))
  {
    hide AddTables, AddFlush, Exact, CacheOk, EntryOk, ShadowOk;
    var found := Scan(d.tb.es, v, asn, 0);
    var slot := if found == -1 then d.tb.next else found;
    AddTablesOk(d, slot, v, size, asmBit, asn, pte);
    AddFlushCovers(d, slot, v, size, asmBit, asn, pte);
    AddKeepsRest(d, slot, v, size, asmBit, asn, pte);
    var t := AddTables(d, slot, v, size, asmBit, asn, pte);
    TablesAlike(t, AddTb(d, v, size, asmBit, asn, pte));
  }

  lemma AddKeepsRest(d: Dtb, slot: nat, v: nat, size: nat, asmBit: bool, asn: nat, pte: Pte)
    requires DtbShape(d) && slot < ENTRIES
    ensures var t := AddTables(d, slot, v, size, asmBit, asn, pte);
            t.mode == d.mode && t.asn0 == d.asn0 && t.asn1 == d.asn1 && t.keep == d.keep && t.native == d.native
  {
  }

  /** The tables' invariant does not look at the round-robin pointer, the hints or the cache. */
  lemma TablesAlike(t: Dtb, r: Dtb)
    requires TablesOk(t) && TbShape(r.tb)
    requires r.tb.es == t.tb.es && r.tb.ix == t.tb.ix && r.shadow == t.shadow && r.native == t.native && r.grp == t.grp
    ensures TablesOk(r)
  {
    forall i | 0 <= i < ENTRIES
      ensures EntryOk(r, r.tb.es[i])
    {
      assert EntryOk(t, t.tb.es[i]);
    }
    forall k | 0 <= k < SHADOW
      ensures ShadowOk(r, k)
    {
      assert ShadowOk(t, k);
    }
  }

  // ---- Refills and searches --------------------------------------------------------------------

  lemma RefillKeeps(d: Dtb, v: nat, asn: nat)
    requires Inv(d) && ShadowHit(d, v, asn)
    ensures Inv(Refill(d, v))
    ensures Hit(Refill(d, v).tb.es[d.tb.next], v, asn)
    ensures forall rw, s :: Holds(Refill(d, v).cache, rw, s) ==> Holds(d.cache, rw, s)
  {
    hide FlushRange, DropUnmapped, Exact, CacheOk;
    var t := RefillTables(d, v);
    var slot := d.tb.next;
    var victim, sh := d.tb.es[slot], d.shadow[v % SHADOW];
    ShadowHitIs(d, v, asn);
    assert ShadowOk(d, v % SHADOW);
    assert Pages(0) == 1;
    ReplaceExact(d.tb.ix, d.tb.es, slot, sh);
    RefillTablesOk(d, v, t);
    assert EntryOk(d, victim);
    if d.keep { DropShadowCovers(d.cache, t, victim); }
    else if victim.valid { FlushUncovers(d.cache, victim, d.keep); }
    TablesAlike(t, Refill(d, v));
    forall rw, s | Holds(Refill(d, v).cache, rw, s)
      ensures Covered(Refill(d, v), s.vp, s.asn)
    {
      assert Covered(d, s.vp, s.asn);
      if Maps(d.tb.es, s.vp, s.asn) { MapsReplaced(d.tb.es, slot, sh, s.vp, s.asn); }
    }
  }

  lemma RefillTablesOk(d: Dtb, v: nat, t: Dtb)
    requires DtbShape(d) && TablesOk(d) && d.shadow[v % SHADOW].valid && t == RefillTables(d, v) && TbOk(t.tb)
    ensures TablesOk(t)
  {
    assert ShadowOk(d, v % SHADOW);
    assert Pages(0) == 1;
    forall i | 0 <= i < ENTRIES
      ensures EntryOk(t, t.tb.es[i])
    {
      assert EntryOk(d, d.tb.es[i]);
    }
    forall k | 0 <= k < SHADOW
      ensures ShadowOk(t, k)
    {
      assert ShadowOk(d, k);
    }
  }

  /** FindTBEntry for data: it succeeds exactly when the TB maps the page or the shadow has it, its
      entry then matches, and the invariant is kept. */
  lemma FindDataExact(d: Dtb, v: nat, rw: nat)
    requires Inv(d) && rw < 2
    ensures var (i, d') := FindData(d, v, rw);
            && Inv(d')
            && (i != -1 <==> Maps(d.tb.es, v, d.asn0) || Hit(d.shadow[v % SHADOW], v, d.asn0))
            && (i != -1 ==> Hit(d'.tb.es[i], v, d.asn0))
            && d'.asn0 == d.asn0 && d'.mode == d.mode
            && (forall r, s :: Holds(d'.cache, r, s) ==> Holds(d.cache, r, s))
  {
    hide Exact, CacheOk, Refill;
    FindExact(d.tb, v, d.asn0, rw);
    var (i, tb) := Find(d.tb, v, d.asn0, rw);
    var d1 := d.(tb := tb);
    TablesAlikeButIndex(d, d1);
    assert ShadowOk(d1, v % SHADOW);
    ShadowHitIs(d1, v, d.asn0);
    if i == -1 && ShadowHit(d1, v, d.asn0) {
      RefillKeeps(d1, v, d.asn0);
      RefillRest(d1, v);
      var d2 := Refill(d1, v);
      TablesAlike(d2, d2.(tb := d2.tb.(last := d2.tb.last[rw := d1.tb.next])));
    }
  }

  /** A search remembers the slot found; it changes the entries only by moving the shadow's into the
      round-robin slot, and only when no entry matched. */
  lemma FindMoves(d: Dtb, v: nat, rw: nat)
    requires Inv(d) && rw < 2
    ensures var (i, d') := FindData(d, v, rw);
            && (i != -1 ==> d'.tb.last == d.tb.last[rw := i])
            && d'.shadow == d.shadow && d'.native == d.native
            && (d'.tb.es == d.tb.es ||
                (&& d'.tb.es == d.tb.es[d.tb.next := d.shadow[v % SHADOW]]
                 && Hit(d.shadow[v % SHADOW], v, d.asn0) && !Maps(d.tb.es, v, d.asn0)))
  {
    FindExact(d.tb, v, d.asn0, rw);
    assert ShadowOk(d, v % SHADOW);
    ShadowHitIs(d, v, d.asn0);
  }

  lemma RefillRest(d: Dtb, v: nat)
    requires DtbShape(d)
    ensures var t := Refill(d, v);
            && t.mode == d.mode && t.asn0 == d.asn0 && t.asn1 == d.asn1
            && t.keep == d.keep && t.native == d.native && t.shadow == d.shadow
  {
  }

  lemma TablesAlikeButIndex(d: Dtb, r: Dtb)
    requires TablesOk(d) && TbOk(r.tb) && r.tb.es == d.tb.es && r.shadow == d.shadow
             && r.native == d.native && r.grp == d.grp
    ensures TablesOk(r)
  {
    forall i | 0 <= i < ENTRIES
      ensures EntryOk(r, r.tb.es[i])
    {
      assert EntryOk(d, d.tb.es[i]);
    }
    forall k | 0 <= k < SHADOW
      ensures ShadowOk(r, k)
    {
      assert ShadowOk(d, k);
    }
  }

  /** A page-cache hit in the current mode and address space means FindTBEntry would not miss. */
  lemma CacheHitNeverHidesMiss(d: Dtb, rw: nat, v: nat, rw': nat)
    requires Inv(d) && rw < 2 && rw' < 2
    requires HitL1(d, rw, v) || Promotes(d.cache, rw, v, d.mode, d.asn0)
    ensures FindData(d, v, rw').0 != -1
  {
    FindDataExact(d, v, rw');
    assert L1Ok(d.cache, rw, v % L1) && L2Ok(d.cache, rw, v % L2);
    assert Holds(d.cache, rw, d.cache.l2[rw][v % L2]);
  }
}

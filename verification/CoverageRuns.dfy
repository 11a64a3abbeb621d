/** The invariant of Coverage over the invalidates, the native EV8's operations and the accesses, and
    so over every run. */
module CoverageRuns {
  import opened Bits
  import opened TbIndex
  import opened TbSearch
  import opened PageCache
  import opened DataTb
  import opened Coverage

  // ---- Invalidates -----------------------------------------------------------------------------

  /** After the pass, the cache holds nothing an invalidated entry mapped. */
  lemma {:induction false} SweepFlushCovers(es: seq<Entry>, ix: Index, c: Cache, kill: Kill, ev8: bool, keep: bool,
                                            i: nat)
    requires |es| == ENTRIES && i <= |es| && Shape(ix) && CacheOk(c)
    ensures var c' := SweepFlush(es, ix, c, kill, ev8, keep, i).2;
            && CacheOk(c')
            && (forall rw, s :: Holds(c', rw, s) ==>
                  Holds(c, rw, s) && forall j :: i <= j < |es| && kill(es[j]) ==> !Hit(es[j], s.vp, s.asn))
    decreases |es| - i
  {
    hide L1Ok, L2Ok, FlushRange, Hit;
    if i < |es| {
      if kill(es[i]) {
        var es1 := es[i := Gone(es[i], ev8)];
        var ix1 := if es[i].valid then Drop(ix, es[i], i) else ix;
        var c1 := FlushRange(c, es[i].page, es[i].size, keep);
        FlushUncovers(c, es[i], keep);
        SweepFlushCovers(es1, ix1, c1, kill, ev8, keep, i + 1);
        var c' := SweepFlush(es1, ix1, c1, kill, ev8, keep, i + 1).2;
        forall rw, s | Holds(c', rw, s)
          ensures forall j :: i <= j < |es| && kill(es[j]) ==> !Hit(es[j], s.vp, s.asn)
        {
          assert forall j :: i < j < |es| ==> es1[j] == es[j];
        }
      } else {
        SweepFlushCovers(es, ix, c, kill, ev8, keep, i + 1);
      }
    }
  }

  lemma UnshadowOk(d: Dtb, v: nat, asn: nat)
    requires TablesOk(d)
    ensures TablesOk(Unshadow(d, v, asn))
    ensures forall k :: 0 <= k < SHADOW && k != v % SHADOW ==> Unshadow(d, v, asn).shadow[k] == d.shadow[k]
    ensures d.shadow[v % SHADOW].valid && !Unshadow(d, v, asn).shadow[v % SHADOW].valid ==>
              d.shadow[v % SHADOW].size == 0 && SamePage(d.shadow[v % SHADOW].page, v)
    ensures Unshadow(d, v, asn).shadow[v % SHADOW].valid ==> Unshadow(d, v, asn).shadow == d.shadow
  {
    ShadowForgotten(d, v % SHADOW);
    assert ShadowOk(d, v % SHADOW);
    assert Pages(0) == 1;
    FieldTwice(v);
  }

  lemma FieldTwice(v: nat)
    ensures Field(Field(v, false), false) == Field(v, false)
  {
  }

  lemma ShadowForgotten(d: Dtb, k: nat)
    requires TablesOk(d) && k < SHADOW
    ensures TablesOk(d.(shadow := d.shadow[k := d.shadow[k].(valid := false)]))
  {
    var r := d.(shadow := d.shadow[k := d.shadow[k].(valid := false)]);
    forall j | 0 <= j < SHADOW
      ensures ShadowOk(r, j)
    {
      assert ShadowOk(d, j);
    }
    forall i | 0 <= i < ENTRIES
      ensures EntryOk(r, r.tb.es[i])
    {
      assert EntryOk(d, d.tb.es[i]);
    }
  }

  /** A pass over the entries keeps the tables. */
  lemma SweptTablesOk(d: Dtb, kill: Kill, ev8: bool, next: nat)
    requires TablesOk(d) && ev8 == d.native && next < ENTRIES
    ensures var (es, ix) := Sweep(d.tb.es, d.tb.ix, kill, ev8, 0);
            TablesOk(d.(tb := d.tb.(es := es, ix := ix, next := next)))
  {
    hide Exact;
    SweepExact(d.tb.es, d.tb.ix, kill, ev8, 0);
    var (es, ix) := Sweep(d.tb.es, d.tb.ix, kill, ev8, 0);
    var r := d.(tb := d.tb.(es := es, ix := ix, next := next));
    forall i | 0 <= i < ENTRIES
      ensures EntryOk(r, es[i])
    {
      assert EntryOk(d, d.tb.es[i]);
    }
    forall k | 0 <= k < SHADOW
      ensures ShadowOk(r, k)
    {
      assert ShadowOk(d, k);
    }
  }

  /** Entries a pass leaves alone still map what they did. */
  lemma SweptMaps(es: seq<Entry>, ix: Index, kill: Kill, ev8: bool, v: nat, asn: nat)
    requires Exact(ix, es) && Maps(es, v, asn)
    requires forall j :: 0 <= j < |es| && kill(es[j]) ==> !Hit(es[j], v, asn)
    ensures Maps(Sweep(es, ix, kill, ev8, 0).0, v, asn)
  {
    hide Sound, Complete;
    SweepExact(es, ix, kill, ev8, 0);
    var i :| 0 <= i < |es| && Hit(es[i], v, asn);
    assert Hit(Sweep(es, ix, kill, ev8, 0).0[i], v, asn);
  }

  lemma TbisDKeeps(d: Dtb, v: nat, asn: nat)
    requires Inv(d) && !d.native
    ensures Inv(TbisD(d, v, asn))
    ensures forall rw, s :: Holds(TbisD(d, v, asn).cache, rw, s) ==> Holds(d.cache, rw, s) && !SamePage(s.vp, v)
  {
    hide Exact, CacheOk, SweepFlush, FlushRange, Hit;
    var kill := Hits(v, asn);
    var d1 := Unshadow(d, v, asn);
    UnshadowOk(d, v, asn);
    SweepFlushIs(d.tb.es, d.tb.ix, d.cache, kill, false, d.keep, 0);
    SweepFlushCovers(d.tb.es, d.tb.ix, d.cache, kill, false, d.keep, 0);
    SweptTablesOk(d1, kill, false, d.tb.next);
    var (es, ix, c) := SweepFlush(d.tb.es, d.tb.ix, d.cache, kill, false, d.keep, 0);
    FlushRangeOk(c, v, 0, d.keep);
    var r := TbisD(d, v, asn);
    TablesAlike(d1.(tb := d.tb.(es := es, ix := ix)), r);
    forall rw, s | Holds(r.cache, rw, s)
      ensures Covered(r, s.vp, s.asn)
    {
      assert Covered(d, s.vp, s.asn);
      if Maps(d.tb.es, s.vp, s.asn) {
        SweptMaps(d.tb.es, d.tb.ix, kill, false, s.vp, s.asn);
      } else {
        ShadowStays(d, v, asn, s.vp, s.asn);
      }
    }
  }

  /** A page other than the one unshadowed keeps its shadow entry. */
  lemma ShadowStays(d: Dtb, v: nat, asn: nat, w: nat, asn': nat)
    requires TablesOk(d) && Hit(d.shadow[w % SHADOW], w, asn') && !SamePage(w, v)
    ensures Hit(Unshadow(d, v, asn).shadow[w % SHADOW], w, asn')
  {
    UnshadowOk(d, v, asn);
    assert ShadowOk(d, w % SHADOW);
    HitSamePage(d.shadow[w % SHADOW], w, asn');
  }

  /** Forgetting a shadow entry whose page the cache no longer holds. */
  lemma TbisKeeps(d: Dtb, v: nat)
    requires Inv(d) && !d.native
    ensures Inv(Tbis(d, v))
  {
    hide Exact, CacheOk, TbisD;
    var sh := d.shadow[v % SHADOW];
    if sh.valid && sh.page == Align(v, sh.wide, sh.size) {
      // The cache may hold the page until the first tbis_d flushes it: prune, then forget.
      var d1 := d.(shadow := d.shadow[v % SHADOW := sh.(valid := false)]);
      FirstTbisDKeeps(d, v);
      if d.asn1 != d.asn0 {
        TbisDRest(d1, v, d.asn0);
        TbisDKeeps(TbisD(d1, v, d.asn0), v, d.asn1);
      }
    } else {
      TbisDKeeps(d, v, d.asn0);
      if d.asn1 != d.asn0 {
        TbisDRest(d, v, d.asn0);
        TbisDKeeps(TbisD(d, v, d.asn0), v, d.asn1);
      }
    }
  }

  lemma TbisDRest(d: Dtb, v: nat, asn: nat)
    requires DtbShape(d)
    ensures var r := TbisD(d, v, asn);
            r.mode == d.mode && r.asn0 == d.asn0 && r.asn1 == d.asn1 && r.keep == d.keep && r.native == d.native
  {
  }

  /** tbis's first step drops the page's shadow entry before tbis_d flushes the page: after tbis_d the
      invariant holds again. */
  lemma FirstTbisDKeeps(d: Dtb, v: nat)
    requires Inv(d) && !d.native
    requires var sh := d.shadow[v % SHADOW]; sh.valid && sh.page == Align(v, sh.wide, sh.size)
    ensures Inv(TbisD(d.(shadow := d.shadow[v % SHADOW := d.shadow[v % SHADOW].(valid := false)]), v, d.asn0))
  {
    hide Exact, CacheOk, SweepFlush, FlushRange, Hit, Sweep;
    var sh := d.shadow[v % SHADOW];
    var d1 := d.(shadow := d.shadow[v % SHADOW := sh.(valid := false)]);
    ShadowForgotten(d, v % SHADOW);
    assert ShadowOk(d, v % SHADOW);
    var kill := Hits(v, d.asn0);
    SweepFlushIs(d.tb.es, d.tb.ix, d.cache, kill, false, d.keep, 0);
    SweepFlushCovers(d.tb.es, d.tb.ix, d.cache, kill, false, d.keep, 0);
    SweptTablesOk(d1, kill, false, d.tb.next);
    var (es, ix, c) := SweepFlush(d.tb.es, d.tb.ix, d.cache, kill, false, d.keep, 0);
    FlushRangeOk(c, v, 0, d.keep);
    var r := TbisD(d1, v, d.asn0);
    assert !ShadowHit(d1, v, d.asn0);
    TablesAlike(d1.(tb := d.tb.(es := es, ix := ix)), r);
    forall rw, s | Holds(r.cache, rw, s)
      ensures Covered(r, s.vp, s.asn)
    {
      assert Covered(d, s.vp, s.asn);
      if Maps(d.tb.es, s.vp, s.asn) {
        SweptMaps(d.tb.es, d.tb.ix, kill, false, s.vp, s.asn);
      } else {
        OtherSlot(d, v, s.vp, s.asn);
      }
    }
  }

  /** A pass over the entries that hit a page leaves none that does, and adds none for any space. */
  lemma SweptAway(es: seq<Entry>, ix: Index, v: nat, asn: nat)
    requires Exact(ix, es)
    ensures !Maps(Sweep(es, ix, Hits(v, asn), false, 0).0, v, asn)
    ensures forall asn' :: !Maps(es, v, asn') ==> !Maps(Sweep(es, ix, Hits(v, asn), false, 0).0, v, asn')
  {
    hide Sound, Complete;
    SweepExact(es, ix, Hits(v, asn), false, 0);
  }

  /** tbis_d forgets the page in its address space, in the TB, the shadow and the cache, and brings
      nothing back in another. */
  lemma TbisDForgets(d: Dtb, v: nat, asn: nat)
    requires DtbShape(d) && TablesOk(d) && CacheOk(d.cache) && !d.native
    ensures var r := TbisD(d, v, asn);
            && !Maps(r.tb.es, v, asn) && !Hit(r.shadow[v % SHADOW], v, asn)
            && (forall rw, s :: Holds(r.cache, rw, s) ==> !SamePage(s.vp, v))
            && (forall asn' :: !Maps(d.tb.es, v, asn') ==> !Maps(r.tb.es, v, asn'))
            && (forall asn' :: !Hit(d.shadow[v % SHADOW], v, asn') ==> !Hit(r.shadow[v % SHADOW], v, asn'))
  {
    hide Exact, CacheOk, SweepFlush, FlushRange, Sweep, Maps;
    SweepFlushIs(d.tb.es, d.tb.ix, d.cache, Hits(v, asn), false, d.keep, 0);
    SweptAway(d.tb.es, d.tb.ix, v, asn);
    SweepFlushCovers(d.tb.es, d.tb.ix, d.cache, Hits(v, asn), false, d.keep, 0);
    FlushRangeOk(SweepFlush(d.tb.es, d.tb.ix, d.cache, Hits(v, asn), false, d.keep, 0).2, v, 0, d.keep);
    assert ShadowOk(d, v % SHADOW);
    ShadowHitIs(d, v, asn);
  }

  /** tbis forgets: in either port's address space neither the TB nor the shadow answers for the page
      any more, and no slot of the page cache holds it; a lookup misses and an access gets nothing. */
  lemma TbisForgets(d: Dtb, v: nat, asn: nat)
    requires Inv(d) && !d.native && (asn == d.asn0 || asn == d.asn1)
    ensures var r := Tbis(d, v);
            && !Maps(r.tb.es, v, asn) && !Hit(r.shadow[v % SHADOW], v, asn)
            && (forall rw, s :: Holds(r.cache, rw, s) ==> !SamePage(s.vp, v))
    ensures forall rw :: 0 <= rw < 2 ==> FindData(Tbis(d, v), v, rw).0 == -1
    ensures forall rw, host :: 0 <= rw < 2 && 0 <= host ==> Access(Tbis(d, v), rw, v, host).0 == NoAnswer
  {
    hide Exact, CacheOk, TbisD, Maps, Hit, Inv, SamePage;
    InvIs(d);
    var sh := d.shadow[v % SHADOW];
    var d1 := if sh.valid && sh.page == Align(v, sh.wide, sh.size)
              then d.(shadow := d.shadow[v % SHADOW := sh.(valid := false)]) else d;
    ShadowForgotten(d, v % SHADOW);
    TbisDForgets(d1, v, d.asn0);
    TbisDRest(d1, v, d.asn0);
    if d.asn1 != d.asn0 {
      var d2 := TbisD(d1, v, d.asn0);
      assert Inv(d2) by { if d1 == d { TbisDKeeps(d, v, d.asn0); } else { FirstTbisDKeeps(d, v); } }
      InvIs(d2);
      TbisDForgets(d2, v, d.asn1);
      TbisDRest(d2, v, d.asn1);
    }
    var r := Tbis(d, v);
    TbisKeeps(d, v);
    assert r.asn0 == d.asn0;
    NothingAnswers(r, v);
  }

  lemma InvIs(d: Dtb)
    requires Inv(d)
    ensures DtbShape(d) && TablesOk(d) && CacheOk(d.cache)
  {
  }

  /** With nothing behind it, an access gets no answer. */
  lemma NothingAnswers(d: Dtb, v: nat)
    requires Inv(d) && !Maps(d.tb.es, v, d.asn0) && !Hit(d.shadow[v % SHADOW], v, d.asn0)
    requires forall rw, s :: Holds(d.cache, rw, s) ==> !SamePage(s.vp, v)
    ensures forall rw :: 0 <= rw < 2 ==> FindData(d, v, rw).0 == -1
    ensures forall rw, host :: 0 <= rw < 2 && 0 <= host ==> Access(d, rw, v, host).0 == NoAnswer
  {
    hide FindData, Exact;
    forall rw | 0 <= rw < 2
      ensures FindData(d, v, rw).0 == -1 && !HitL1(d, rw, v) && !Promotes(d.cache, rw, v, d.mode, d.asn0)
    {
      FindDataExact(d, v, rw);
      assert L1Ok(d.cache, rw, v % L1) && L2Ok(d.cache, rw, v % L2);
      assert SamePage(v, v);
      assert !Holds(d.cache, rw, d.cache.l2[rw][v % L2]) || d.cache.l2[rw][v % L2].vp != v;
    }
  }

  lemma OtherSlot(d: Dtb, v: nat, w: nat, asn: nat)
    requires TablesOk(d) && Hit(d.shadow[w % SHADOW], w, asn) && !SamePage(w, v)
    requires var sh := d.shadow[v % SHADOW]; sh.valid && sh.page == Align(v, sh.wide, sh.size)
    ensures w % SHADOW != v % SHADOW
  {
    assert ShadowOk(d, w % SHADOW);
    HitSamePage(d.shadow[w % SHADOW], w, asn);
    assert Pages(0) == 1;
    FieldTwice(v);
  }

  /** An operation that empties the cache needs only keep the tables. */
  lemma FlushedInv(d: Dtb, t: Dtb)
    requires Inv(d) && DtbShape(t) && TablesOk(t) && t.cache == FlushAll(d.cache) && t.mode < 4 && t.asn0 < 256
    ensures Inv(t)
  {
    FlushAllOk(d.cache);
  }

  lemma TbiapKeeps(d: Dtb)
    requires Inv(d) && !d.native
    ensures Inv(Tbiap(d))
  {
    hide Exact, CacheOk, Sweep, FlushAll;
    var kill := OwnedLive();
    SweptTablesOk(d, kill, false, d.tb.next);
    var (es, ix) := Sweep(d.tb.es, d.tb.ix, kill, false, 0);
    var t := d.(tb := d.tb.(es := es, ix := ix));
    var r := Tbiap(d);
    forall k | 0 <= k < SHADOW
      ensures ShadowOk(r, k)
    {
      assert ShadowOk(d, k);
    }
    forall i | 0 <= i < ENTRIES
      ensures EntryOk(r, r.tb.es[i])
    {
      assert EntryOk(t, t.tb.es[i]);
    }
    FlushedInv(d, r);
  }

  lemma TbiaKeeps(d: Dtb)
    requires Inv(d) && !d.native
    ensures Inv(Tbia(d))
  {
    hide CacheOk, FlushAll;
    var r := Tbia(d);
    EmptyExact(r.tb.es);
    forall k | 0 <= k < SHADOW
      ensures ShadowOk(r, k)
    {
    }
    forall i | 0 <= i < ENTRIES
      ensures EntryOk(r, r.tb.es[i])
    {
      assert EntryOk(d, d.tb.es[i]);
    }
    FlushedInv(d, r);
  }

  // ---- The native EV8 --------------------------------------------------------------------------

  lemma NoShadow(d: Dtb, v: nat, asn: nat)
    requires TablesOk(d) && d.native
    ensures !Hit(d.shadow[v % SHADOW], v, asn)
  {
    assert ShadowOk(d, v % SHADOW);
  }

  lemma Ev8AddTbKeeps(d: Dtb, v: nat, size: nat, asmBit: bool, pte: Pte)
    requires Inv(d) && d.native
    ensures Inv(Ev8AddTb(d, v, size, asmBit, pte))
  {
    hide Exact, CacheOk, FlushRange, Hit, Ev8Scan, Align;
    var found := Ev8Scan(d.tb.es, v, d.asn0, asmBit, d.grp, 0);
    var slot := if found == -1 then d.tb.next else found;
    var was := d.tb.es[slot];
    var e := Entry(true, Align(v, true, size), true, size, d.asn0, asmBit, pte, true, d.grp);
    ReplaceExact(d.tb.ix, d.tb.es, slot, e);
    var c1 := if was.valid then FlushRange(d.cache, was.page, was.size, d.keep) else d.cache;
    if was.valid { FlushUncovers(d.cache, was, d.keep); }
    FlushRangeOk(c1, v, size, d.keep);
    var r := Ev8AddTb(d, v, size, asmBit, pte);
    forall k | 0 <= k < SHADOW
      ensures ShadowOk(r, k)
    {
      assert ShadowOk(d, k);
    }
    forall i | 0 <= i < ENTRIES
      ensures EntryOk(r, r.tb.es[i])
    {
      assert EntryOk(d, d.tb.es[i]);
    }
    forall rw, s | Holds(r.cache, rw, s)
      ensures Covered(r, s.vp, s.asn)
    {
      assert Covered(d, s.vp, s.asn);
      NoShadow(d, s.vp, s.asn);
      MapsReplaced(d.tb.es, slot, e, s.vp, s.asn);
      if Hit(was, s.vp, s.asn) { HitValid(was, s.vp, s.asn); }
    }
  }

  lemma Ev8TbImKeeps(d: Dtb, bits: bv5)
    requires Inv(d) && d.native
    ensures Inv(Ev8TbIm(d, bits))
  {
    hide Exact, CacheOk, Sweep, FlushAll, ImKills;
    var kill := ImSelects(bits, d.grp, d.asn0);
    var next := if bits & 16 != 0 then 0 else d.tb.next;
    SweptTablesOk(d, kill, true, next);
    var (es, ix) := Sweep(d.tb.es, d.tb.ix, kill, true, 0);
    TablesAlike(d.(tb := d.tb.(es := es, ix := ix, next := next)), Ev8TbIm(d, bits));
    FlushedInv(d, Ev8TbIm(d, bits));
  }

  lemma Ev8TbIsKeeps(d: Dtb, v: nat)
    requires Inv(d) && d.native
    ensures Inv(Ev8TbIs(d, v))
  {
    hide Exact, CacheOk, SweepFlush, FlushRange, Hit, IsKills;
    var kill := IsSelects(v, d.grp, d.asn0);
    SweepFlushIs(d.tb.es, d.tb.ix, d.cache, kill, true, d.keep, 0);
    SweepFlushCovers(d.tb.es, d.tb.ix, d.cache, kill, true, d.keep, 0);
    SweptTablesOk(d, kill, true, d.tb.next);
    var (es, ix, c) := SweepFlush(d.tb.es, d.tb.ix, d.cache, kill, true, d.keep, 0);
    FlushRangeOk(c, v, 0, d.keep);
    var r := Ev8TbIs(d, v);
    TablesAlike(d.(tb := d.tb.(es := es, ix := ix)), r);
    forall rw, s | Holds(r.cache, rw, s)
      ensures Covered(r, s.vp, s.asn)
    {
      assert Covered(d, s.vp, s.asn);
      NoShadow(d, s.vp, s.asn);
      SweptMaps(d.tb.es, d.tb.ix, kill, true, s.vp, s.asn);
    }
  }

  lemma Ev8SetGroupKeeps(d: Dtb, grp: nat)
    requires Inv(d) && d.native
    ensures Inv(Ev8SetGroup(d, grp))
  {
    if d.grp != grp {
      hide Exact, CacheOk, Rebuild, FlushAll;
      var r := Ev8SetGroup(d, grp);
      RebuiltExact(Regroup(d.tb.es, grp));
      forall k | 0 <= k < SHADOW
        ensures ShadowOk(r, k)
      {
        assert ShadowOk(d, k);
      }
      FlushedInv(d, r);
    }
  }

  lemma Ev8ClearKeeps(d: Dtb)
    requires Inv(d) && d.native
    ensures Inv(Ev8Clear(d))
  {
    hide CacheOk, FlushAll;
    var r := Ev8Clear(d);
    EmptyExact(r.tb.es);
    forall k | 0 <= k < SHADOW
      ensures ShadowOk(r, k)
    {
    }
    FlushedInv(d, r);
  }

  // ---- Accesses --------------------------------------------------------------------------------

  lemma AccessKeeps(d: Dtb, rw: nat, v: nat, host: nat)
    requires Inv(d) && rw < 2 && v * PAGE < WORD
    ensures Inv(Access(d, rw, v, host).1)
  {
    hide Exact, CacheOk, FindData, Fill, Promote;
    if HitL1(d, rw, v) {
    } else if Promotes(d.cache, rw, v, d.mode, d.asn0) {
      PromoteOk(d.cache, rw, v, d.mode, d.asn0);
      TablesAlike(d, d.(cache := Promote(d.cache, rw, v)));
    } else {
      FindDataExact(d, v, rw);
      var (i, d1) := FindData(d, v, rw);
      if i != -1 && d1.tb.es[i].pte.Permits(rw == 1, d1.mode) {
        FillKeeps(d1, rw, v, i, host);
      }
    }
  }

  lemma FillKeeps(d: Dtb, rw: nat, v: nat, i: nat, host: nat)
    requires Inv(d) && rw < 2 && v * PAGE < WORD && i < ENTRIES && Hit(d.tb.es[i], v, d.asn0)
    ensures Inv(d.(cache := Fill(d.cache, rw, v, PhysOf(d.tb.es[i], v), host, d.mode, d.asn0)))
  {
    hide Exact, CacheOk, Fill, PhysOf;
    var phys := PhysOf(d.tb.es[i], v);
    var r := d.(cache := Fill(d.cache, rw, v, phys, host, d.mode, d.asn0));
    FillOk(d.cache, rw, v, phys, host, d.mode, d.asn0);
    TablesAlike(d, r);
    forall rw', s | Holds(r.cache, rw', s)
      ensures Covered(r, s.vp, s.asn)
    {
      if Holds(d.cache, rw', s) { assert Covered(d, s.vp, s.asn); }
    }
  }

  // ---- Runs ------------------------------------------------------------------------------------

  /** What can happen to the path: PALcode's fills and invalidates, the address space and mode writes,
      ordinary accesses, and PALcode's accesses, which look the TB up and skip the page cache. */
  datatype Op =
    | DoFill(v: nat, size: nat, asmBit: bool, port1: bool, pte: Pte)
    | DoTbis(v: nat) | DoTbisD(v: nat, port1: bool) | DoTbiap | DoTbia
    | DoAsn0(asn: nat) | DoAsn1(asn: nat) | DoMode(mode: nat)
    | DoAccess(rw: nat, v: nat, host: nat) | DoFind(rw: nat, v: nat)
    | DoEv8Fill(v: nat, size: nat, asmBit: bool, pte: Pte) | DoIm(bits: bv5) | DoIs(v: nat)
    | DoGroup(grp: nat) | DoClear

  predicate Enabled(d: Dtb, op: Op) {
    match op
    case DoFill(_, _, _, _, _) | DoTbis(_) | DoTbisD(_, _) | DoTbiap | DoTbia => !d.native
    case DoEv8Fill(_, _, _, _) | DoIm(_) | DoIs(_) | DoGroup(_) | DoClear => d.native
    case DoAsn0(asn) => asn < 256
    case DoAsn1(asn) => asn < 256
    case DoMode(mode) => mode < 4
    case DoAccess(rw, v, _) => rw < 2 && v * PAGE < WORD
    case DoFind(rw, _) => rw < 2
  }

  function Step(d: Dtb, op: Op): (r: Dtb)
    requires DtbShape(d) && Enabled(d, op)
    ensures DtbShape(r)
  {
    match op
    case DoFill(v, size, asmBit, port1, pte) => AddTb(d, v, size, asmBit, if port1 then d.asn1 else d.asn0, pte)
    case DoTbis(v) => Tbis(d, v)
    case DoTbisD(v, port1) => TbisD(d, v, if port1 then d.asn1 else d.asn0)
    case DoTbiap => Tbiap(d)
    case DoTbia => Tbia(d)
    case DoAsn0(asn) => SetAsn0(d, asn)
    case DoAsn1(asn) => SetAsn1(d, asn)
    case DoMode(mode) => d.(mode := mode)
    case DoAccess(rw, v, host) => Access(d, rw, v, host).1
    case DoFind(rw, v) => FindData(d, v, rw).1
    case DoEv8Fill(v, size, asmBit, pte) => Ev8AddTb(d, v, size, asmBit, pte)
    case DoIm(bits) => Ev8TbIm(d, bits)
    case DoIs(v) => Ev8TbIs(d, v)
    case DoGroup(grp) => Ev8SetGroup(d, grp)
    case DoClear => Ev8Clear(d)
  }

  /** Every operation keeps the invariant. */
  lemma StepKeeps(d: Dtb, op: Op)
    requires Inv(d) && Enabled(d, op)
    ensures Inv(Step(d, op))
  {
    hide AddTb, Tbis, TbisD, Tbiap, Tbia, Access, FindData,
         Ev8AddTb, Ev8TbIm, Ev8TbIs, Ev8SetGroup, Ev8Clear, CacheOk, Exact, FlushAll;
    match op
    case DoFill(v, size, asmBit, port1, pte) => AddTbKeeps(d, v, size, asmBit, if port1 then d.asn1 else d.asn0, pte);
    case DoTbis(v) => TbisKeeps(d, v);
    case DoTbisD(v, port1) => TbisDKeeps(d, v, if port1 then d.asn1 else d.asn0);
    case DoTbiap => TbiapKeeps(d);
    case DoTbia => TbiaKeeps(d);
    case DoAsn0(asn) => TablesAlike(d, SetAsn0(d, asn)); FlushedInv(d, SetAsn0(d, asn));
    case DoAsn1(asn) => TablesAlike(d, SetAsn1(d, asn)); FlushedInv(d, SetAsn1(d, asn));
    case DoMode(mode) => TablesAlike(d, d.(mode := mode));
    case DoAccess(rw, v, host) => AccessKeeps(d, rw, v, host);
    case DoFind(rw, v) => FindDataExact(d, v, rw);
    case DoEv8Fill(v, size, asmBit, pte) => Ev8AddTbKeeps(d, v, size, asmBit, pte);
    case DoIm(bits) => Ev8TbImKeeps(d, bits);
    case DoIs(v) => Ev8TbIsKeeps(d, v);
    case DoGroup(grp) => Ev8SetGroupKeeps(d, grp);
    case DoClear => Ev8ClearKeeps(d);
  }

  /** A run: the states passed through, each step enabled where it is taken. */
  ghost predicate Run(states: seq<Dtb>, ops: seq<Op>) {
    && |states| == |ops| + 1
    && (forall i :: 0 <= i < |states| ==> DtbShape(states[i]))
    && (forall i :: 0 <= i < |ops| ==> Enabled(states[i], ops[i]) && states[i + 1] == Step(states[i], ops[i]))
  }

  /** The page cache answers an access without looking at the TB. */
  predicate AnswersAt(d: Dtb, rw: nat, v: nat)
    requires CacheShape(d.cache) && rw < 2
  {
    HitL1(d, rw, v) || Promotes(d.cache, rw, v, d.mode, d.asn0)
  }

  /** Over every run the invariant holds throughout: the index is exact, the levels agree, and no
      page-cache hit hides a DTB miss. */
  lemma {:induction false} RunKeeps(states: seq<Dtb>, ops: seq<Op>, n: nat)
    requires Run(states, ops) && Inv(states[0]) && n < |states|
    ensures Inv(states[n])
    ensures forall rw, v, rw' :: 0 <= rw < 2 && 0 <= rw' < 2 && 0 <= v && AnswersAt(states[n], rw, v) ==>
              FindData(states[n], v, rw').0 != -1
  {
    if n > 0 {
      RunKeeps(states, ops, n - 1);
      StepKeeps(states[n - 1], ops[n - 1]);
    }
    forall rw, v, rw' | 0 <= rw < 2 && 0 <= rw' < 2 && 0 <= v && AnswersAt(states[n], rw, v)
      ensures FindData(states[n], v, rw').0 != -1
    {
      CacheHitNeverHidesMiss(states[n], rw, v, rw');
    }
  }

  /** The state after a reset satisfies the invariant. */
  lemma ResetInv(d: Dtb)
    requires DtbShape(d) && d.mode < 4 && d.asn0 < 256
    requires d.tb.ix == EmptyIndex()
    requires forall i :: 0 <= i < ENTRIES ==>
               && !d.tb.es[i].valid && !d.tb.es[i].present
               && d.tb.es[i].page == 0 && !d.tb.es[i].wide && d.tb.es[i].size == 0
    requires forall k :: 0 <= k < SHADOW ==> !d.shadow[k].valid
    requires forall rw, i :: 0 <= rw < 2 && 0 <= i < L1 ==>
               && !d.cache.l1[rw][i].valid && d.cache.l1[rw][i].tag == EMPTY_TAG
               && d.cache.mirror[rw][i] == Synced(d.cache.l1[rw][i])
    requires forall rw, i :: 0 <= rw < 2 && 0 <= i < L2 ==> !d.cache.l2[rw][i].valid
    ensures Inv(d)
  {
    EmptyExact(d.tb.es);
    assert Align(0, false, 0) == 0 by { assert Pages(0) == 1; }
  }
}

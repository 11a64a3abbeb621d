/** The page cache is transparent: on the native EV8, and elsewhere when it does not keep evicted pages,
    everything it serves is what a matching entry of the TB gives at that moment, for pages of every
    size and whatever was filled. */
module Backing {
  import opened Bits
  import opened TbIndex
  import opened TbSearch
  import opened PageCache
  import opened DataTb
  import opened Coverage
  import opened CoverageRuns
  import opened Answering

  /** An entry matches the slot's page in its address space, gives its physical page and admits the
      row's accesses in its mode. */
  ghost predicate Backs(e: Entry, rw: nat, s: Slot) {
    Hit(e, s.vp, s.asn) && PhysOf(e, s.vp) == s.phys && e.pte.Permits(rw == 1, s.mode)
  }

  ghost predicate Backed(es: seq<Entry>, rw: nat, s: Slot) {
    exists i :: 0 <= i < |es| && Backs(es[i], rw, s)
  }

  ghost predicate AllBacked(d: Dtb)
    requires CacheShape(d.cache)
  {
    forall rw, s :: Holds(d.cache, rw, s) ==> Backed(d.tb.es, rw, s)
  }

  ghost predicate Transparent(d: Dtb) {
    Inv(d) && (d.native || !d.keep) && AllBacked(d)
  }

  /** What a transparent page cache answers comes from the TB or, once the page is looked up, the shadow. */
  lemma AnswerIsMapped(d: Dtb, rw: nat, v: nat, host: nat)
    requires Transparent(d) && rw < 2
    ensures var a := Access(d, rw, v, host).0;
            a.Page? ==> (exists i :: 0 <= i < ENTRIES && From(d, d.tb.es[i], rw, v, a))
                        || From(d, d.shadow[v % SHADOW], rw, v, a)
  {
    hide FindData, Inv, PhysOf, Hit;
    InvIs(d);
    if AnswersAt(d, rw, v) {
      assert L1Ok(d.cache, rw, v % L1) && L2Ok(d.cache, rw, v % L2);
      var s := d.cache.l2[rw][v % L2];
      assert Holds(d.cache, rw, s);
      var i :| 0 <= i < ENTRIES && Backs(d.tb.es[i], rw, s);
      assert From(d, d.tb.es[i], rw, v, Access(d, rw, v, host).0);
    } else {
      UncachedAnswer(d, rw, v, host);
    }
  }

  // ---- What keeps it ---------------------------------------------------------------------------

  /** A slot backed by an entry that stays is backed still. */
  lemma StaysBacked(es: seq<Entry>, es': seq<Entry>, rw: nat, s: Slot)
    requires Backed(es, rw, s) && |es'| == |es|
    requires forall i :: 0 <= i < |es| ==> es'[i] == es[i] || !Hit(es[i], s.vp, s.asn)
    ensures Backed(es', rw, s)
  {
    var i :| 0 <= i < |es| && Backs(es[i], rw, s);
    assert Backs(es'[i], rw, s);
  }

  lemma AddTbBacked(d: Dtb, v: nat, size: nat, asmBit: bool, asn: nat, pte: Pte)
    requires Transparent(d) && !d.native
    ensures AllBacked(AddTb(d, v, size, asmBit, asn, pte))
  {
    hide Inv, AddTables, FlushRange, Holds, Hit, Scan;
    InvIs(d);
    var r, slot := AddTb(d, v, size, asmBit, asn, pte), FillSlot(d, v, asn);
    FillTakes(d, v, size, asmBit, asn, pte);
    var was := d.tb.es[slot];
    var c1 := if was.valid then FlushRange(d.cache, was.page, was.size, d.keep) else d.cache;
    if was.valid { FlushUncovers(d.cache, was, d.keep); }
    FlushRangeOk(c1, v, size, d.keep);
    forall rw, s | Holds(r.cache, rw, s)
      ensures Backed(r.tb.es, rw, s)
    {
      if Hit(was, s.vp, s.asn) { HitLive(was, s.vp, s.asn); }
      StaysBacked(d.tb.es, r.tb.es, rw, s);
    }
  }

  lemma FindBacked(d: Dtb, v: nat, rw: nat)
    requires Transparent(d) && rw < 2
    ensures AllBacked(FindData(d, v, rw).1)
  {
    hide Inv, Holds, Hit, Maps, FindData;
    InvIs(d);
    FindMoves(d, v, rw);
    FindUncovers(d, v, rw);
    var r := FindData(d, v, rw).1;
    forall rw', s | Holds(r.cache, rw', s)
      ensures Backed(r.tb.es, rw', s)
    {
      StaysBacked(d.tb.es, r.tb.es, rw', s);
    }
  }

  /** A refill's victim leaves the page cache with the TB. */
  lemma FindUncovers(d: Dtb, v: nat, rw: nat)
    requires Inv(d) && (d.native || !d.keep) && rw < 2
    ensures var r := FindData(d, v, rw).1;
            forall rw', s :: Holds(r.cache, rw', s) ==>
              Holds(d.cache, rw', s) && (r.tb.es == d.tb.es || !Hit(d.tb.es[d.tb.next], s.vp, s.asn))
  {
    hide Holds, Hit, FlushRange, CacheOk, RefillTables, Find, AllCovered;
    FindExact(d.tb, v, d.asn0, rw);
    var d1 := d.(tb := Find(d.tb, v, d.asn0, rw).1);
    assert ShadowOk(d, v % SHADOW);
    var victim := d.tb.es[d.tb.next];
    if victim.valid {
      FlushUncovers(d.cache, victim, d.keep);
    } else {
      InvalidMisses(victim);
    }
  }

  lemma InvalidMisses(e: Entry)
    requires !e.valid
    ensures forall v, asn :: !Hit(e, v, asn)
  {
  }

  lemma AccessBacked(d: Dtb, rw: nat, v: nat, host: nat)
    requires Transparent(d) && rw < 2 && v * PAGE < WORD
    ensures AllBacked(Access(d, rw, v, host).1)
  {
    hide Inv, Hit, FindData, Fill, Promote, Backed, Maps, PhysOf;
    InvIs(d);
    if !HitL1(d, rw, v) {
      if Promotes(d.cache, rw, v, d.mode, d.asn0) {
        PromoteOk(d.cache, rw, v, d.mode, d.asn0);
      } else {
        FindBacked(d, v, rw);
        FindDataExact(d, v, rw);
        var (i, d1) := FindData(d, v, rw);
        if i != -1 && d1.tb.es[i].pte.Permits(rw == 1, d1.mode) { FillBacked(d1, rw, v, i, host); }
      }
    }
  }

  lemma FillBacked(d: Dtb, rw: nat, v: nat, i: nat, host: nat)
    requires Inv(d) && AllBacked(d) && rw < 2 && v * PAGE < WORD && i < ENTRIES
    requires Hit(d.tb.es[i], v, d.asn0) && d.tb.es[i].pte.Permits(rw == 1, d.mode)
    ensures AllBacked(d.(cache := Fill(d.cache, rw, v, PhysOf(d.tb.es[i], v), host, d.mode, d.asn0)))
  {
    hide Fill, PhysOf, Hit, Backed;
    var phys := PhysOf(d.tb.es[i], v);
    FillOk(d.cache, rw, v, phys, host, d.mode, d.asn0);
    var s := Filled(d.cache.l1[rw][v % L1], v, phys, host, d.mode, d.asn0).(gen := d.cache.gen);
    assert Backs(d.tb.es[i], rw, s);
    BackedBy(d.tb.es, i, rw, s);
  }

  lemma BackedBy(es: seq<Entry>, i: nat, rw: nat, s: Slot)
    requires i < |es| && Backs(es[i], rw, s)
    ensures Backed(es, rw, s)
  {
  }

  /** The pass that flushes each entry's page as it goes. */
  lemma SweptBacked(d: Dtb, r: Dtb, kill: Kill, ev8: bool)
    requires Transparent(d) && CacheShape(r.cache) && CacheShape(d.cache)
    requires DtbShape(d) && r.tb.es == SweepFlush(d.tb.es, d.tb.ix, d.cache, kill, ev8, d.keep, 0).0
    requires var c := SweepFlush(d.tb.es, d.tb.ix, d.cache, kill, ev8, d.keep, 0).2;
             forall rw, s :: Holds(r.cache, rw, s) ==> Holds(c, rw, s)
    ensures AllBacked(r)
  {
    hide SweepFlush, CacheOk, Holds, Hit, Sweep, Exact;
    SweepFlushIs(d.tb.es, d.tb.ix, d.cache, kill, ev8, d.keep, 0);
    SweepExact(d.tb.es, d.tb.ix, kill, ev8, 0);
    SweepFlushCovers(d.tb.es, d.tb.ix, d.cache, kill, ev8, d.keep, 0);
    forall rw, s | Holds(r.cache, rw, s)
      ensures Backed(r.tb.es, rw, s)
    {
      StaysBacked(d.tb.es, r.tb.es, rw, s);
    }
  }

  lemma TbisDBacked(d: Dtb, v: nat, asn: nat)
    requires Transparent(d)
    ensures AllBacked(TbisD(d, v, asn))
  {
    hide SweepFlush, Holds, FlushRange, CacheOk;
    var kill := Hits(v, asn);
    SweepFlushCovers(d.tb.es, d.tb.ix, d.cache, kill, false, d.keep, 0);
    FlushRangeOk(SweepFlush(d.tb.es, d.tb.ix, d.cache, kill, false, d.keep, 0).2, v, 0, d.keep);
    SweptBacked(d, TbisD(d, v, asn), kill, false);
  }

  lemma TbisBacked(d: Dtb, v: nat)
    requires Transparent(d) && !d.native
    ensures AllBacked(Tbis(d, v))
  {
    hide TbisD, Holds, Inv, Backed;
    InvIs(d);
    var sh := d.shadow[v % SHADOW];
    var d1 := if sh.valid && sh.page == Align(v, sh.wide, sh.size)
              then d.(shadow := d.shadow[v % SHADOW := sh.(valid := false)]) else d;
    TbisDBacked(d, v, d.asn0);
    ShadowApart(d, d1, v, d.asn0);
    if d.asn1 != d.asn0 {
      TbisDRest(d1, v, d.asn0);
      var d2 := TbisD(d1, v, d.asn0);
      assert Inv(d2) by { if d1 == d { TbisDKeeps(d, v, d.asn0); } else { FirstTbisDKeeps(d, v); } }
      TbisDBacked(d2, v, d.asn1);
    }
  }

  /** The TB and the page cache after tbis_d do not depend on the shadow. */
  lemma ShadowApart(d: Dtb, d1: Dtb, v: nat, asn: nat)
    requires DtbShape(d) && DtbShape(d1) && d1 == d.(shadow := d1.shadow)
    ensures TbisD(d1, v, asn).tb == TbisD(d, v, asn).tb && TbisD(d1, v, asn).cache == TbisD(d, v, asn).cache
  {
    hide SweepFlush, FlushRange;
  }

  lemma Ev8IsBacked(d: Dtb, v: nat)
    requires Transparent(d)
    ensures AllBacked(Ev8TbIs(d, v))
  {
    hide SweepFlush, Holds, FlushRange, CacheOk;
    var kill := IsSelects(v, d.grp, d.asn0);
    SweepFlushCovers(d.tb.es, d.tb.ix, d.cache, kill, true, d.keep, 0);
    FlushRangeOk(SweepFlush(d.tb.es, d.tb.ix, d.cache, kill, true, d.keep, 0).2, v, 0, d.keep);
    SweptBacked(d, Ev8TbIs(d, v), kill, true);
  }

  lemma Ev8AddBacked(d: Dtb, v: nat, size: nat, asmBit: bool, pte: Pte)
    requires Transparent(d)
    ensures AllBacked(Ev8AddTb(d, v, size, asmBit, pte))
  {
    hide Exact, CacheOk, FlushRange, Holds, Hit, Ev8Scan, Align, Drop, Add;
    var found := Ev8Scan(d.tb.es, v, d.asn0, asmBit, d.grp, 0);
    var slot := if found == -1 then d.tb.next else found;
    var was, r := d.tb.es[slot], Ev8AddTb(d, v, size, asmBit, pte);
    var c1 := if was.valid then FlushRange(d.cache, was.page, was.size, d.keep) else d.cache;
    if was.valid { FlushUncovers(d.cache, was, d.keep); }
    FlushRangeOk(c1, v, size, d.keep);
    forall rw, s | Holds(r.cache, rw, s)
      ensures Backed(r.tb.es, rw, s)
    {
      if Hit(was, s.vp, s.asn) { HitLive(was, s.vp, s.asn); }
      StaysBacked(d.tb.es, r.tb.es, rw, s);
    }
  }

  /** An emptied cache is backed by anything. */
  lemma FlushedBacked(d: Dtb, r: Dtb)
    requires Inv(d) && r.cache == FlushAll(d.cache)
    ensures AllBacked(r)
  {
    FlushAllOk(d.cache);
  }

  // ---- Runs ------------------------------------------------------------------------------------

  lemma StepTransparent(d: Dtb, op: Op)
    requires Transparent(d) && Enabled(d, op)
    ensures DtbShape(d) && Transparent(Step(d, op))
  {
    hide AddTb, Tbis, TbisD, Tbiap, Tbia, Access, FindData, Inv,
         Ev8AddTb, Ev8TbIm, Ev8TbIs, Ev8SetGroup, Ev8Clear, FlushAll, Holds, Backed;
    InvIs(d);
    StepKeeps(d, op);
    StepSetting(d, op);
    match op
    case DoFill(v, size, asmBit, port1, pte) => AddTbBacked(d, v, size, asmBit, if port1 then d.asn1 else d.asn0, pte);
    case DoTbis(v) => TbisBacked(d, v);
    case DoTbisD(v, port1) => TbisDBacked(d, v, if port1 then d.asn1 else d.asn0);
    case DoAccess(rw, v, host) => AccessBacked(d, rw, v, host);
    case DoFind(rw, v) => FindBacked(d, v, rw);
    case DoEv8Fill(v, size, asmBit, pte) => Ev8AddBacked(d, v, size, asmBit, pte);
    case DoIs(v) => Ev8IsBacked(d, v);
    case DoMode(_) =>
    case _ => EmptiesBacked(d, op);
  }

  lemma EmptiesBacked(d: Dtb, op: Op)
    requires Transparent(d) && DtbShape(d) && Enabled(d, op)
    requires op.DoTbiap? || op.DoTbia? || op.DoAsn0? || op.DoAsn1? || op.DoIm? || op.DoGroup? || op.DoClear?
    ensures AllBacked(Step(d, op))
  {
    hide FlushAll, Holds, Backed, Sweep, Rebuild, Inv;
    var r := Step(d, op);
    if r != d { FlushedBacked(d, r); }
  }

  lemma StepSetting(d: Dtb, op: Op)
    requires DtbShape(d) && Enabled(d, op)
    ensures Step(d, op).keep == d.keep && Step(d, op).native == d.native
  {
    hide SweepFlush, Sweep, FlushAll, FlushRange, AddFlush, Find, Rebuild, Scan, Ev8Scan, Fill, Promote, Add, Drop,
         DropReplaced, NewEntry, Hit, DropUnmapped, Serves, Promotes, Align, KillEntries, CacheShape, Shape;
  }

  /** Over every run without keeping, and every run of the native EV8, what an access gets is the page
      of an entry that matches it and admits it in the TB, or in the shadow, at that moment. */
  lemma {:induction false} RunTransparent(states: seq<Dtb>, ops: seq<Op>, n: nat)
    requires Run(states, ops) && Transparent(states[0]) && n < |states|
    ensures Transparent(states[n])
    ensures forall rw, v, host | 0 <= rw < 2 && 0 <= v && 0 <= host ::
              var (d, a) := (states[n], Access(states[n], rw, v, host).0);
              a.Page? ==> (exists i :: 0 <= i < ENTRIES && From(d, d.tb.es[i], rw, v, a))
                          || From(d, d.shadow[v % SHADOW], rw, v, a)
  {
    hide Transparent, Access, Step;
    if n > 0 {
      RunTransparent(states, ops, n - 1);
      StepTransparent(states[n - 1], ops[n - 1]);
    }
    forall rw, v, host | 0 <= rw < 2 && 0 <= v && 0 <= host
      ensures var (d, a) := (states[n], Access(states[n], rw, v, host).0);
              a.Page? ==> (exists i :: 0 <= i < ENTRIES && From(d, d.tb.es[i], rw, v, a))
                          || From(d, d.shadow[v % SHADOW], rw, v, a)
    {
      AnswerIsMapped(states[n], rw, v, host);
    }
  }

  lemma ResetTransparent(d: Dtb)
    requires Inv(d) && (d.native || !d.keep)
    requires forall rw, i :: 0 <= rw < 2 && 0 <= i < L2 ==> !d.cache.l2[rw][i].valid
    ensures Transparent(d)
  {
    hide Exact, CacheOk;
  }
}

/** What each invalidate of the data TB leaves: the entries it does not select stay as they were and
    answer as before; of those it selects nothing answers any more (src/cpu/AlphaCPU.cpp: tbia, tbiap,
    tbis_d; src/cpu/AlphaCPU_ev8.cpp: ev8_tb_im, ev8_tb_is, ev8_set_group). */
module Invalidates {
  import opened Bits
  import opened TbIndex
  import opened TbSearch
  import opened PageCache
  import opened DataTb
  import opened Coverage
  import opened CoverageRuns
  import opened Answering

  // ---- Tables that show the same entries answer alike ------------------------------------------

  /** The same entries are valid, and those are equal. */
  ghost predicate Alike(es: seq<Entry>, es': seq<Entry>) {
    |es| == |es'| && forall i :: 0 <= i < |es| ==> es[i].valid == es'[i].valid && (es[i].valid ==> es[i] == es'[i])
  }

  lemma {:induction false} ScanAlike(es: seq<Entry>, es': seq<Entry>, v: nat, asn: nat, j: nat)
    requires Alike(es, es') && j <= |es|
    ensures Scan(es, v, asn, j) == Scan(es', v, asn, j)
    decreases |es| - j
  {
    if j < |es| { ScanAlike(es, es', v, asn, j + 1); }
  }

  lemma {:induction false} ProbeAlike(es: seq<Entry>, es': seq<Entry>, w: seq<nat>, v: nat, asn: nat, k: nat)
    requires Alike(es, es') && |es| == ENTRIES && RowShape(w) && k <= |w|
    ensures Probe(es, w, v, asn, k) == Probe(es', w, v, asn, k)
    decreases |w| - k
  {
    if k < |w| && w[k] != 0 {
      assert es[w[k] - 1].valid == es'[w[k] - 1].valid;
      ProbeAlike(es, es', w, v, asn, k + 1);
    }
  }

  lemma {:induction false} RebuildAlike(es: seq<Entry>, es': seq<Entry>, ix: Index, i: nat)
    requires Alike(es, es') && |es| == ENTRIES && i <= |es| && Shape(ix)
    ensures Rebuild(es, ix, i) == Rebuild(es', ix, i)
    decreases |es| - i
  {
    if i < |es| { RebuildAlike(es, es', if es[i].valid then Add(ix, es[i], i) else ix, i + 1); }
  }

  lemma FindAlike(tb: Tb, tb': Tb, v: nat, asn: nat, rw: nat)
    requires TbShape(tb) && TbShape(tb') && rw < 2
    requires Alike(tb.es, tb'.es) && tb'.ix == tb.ix && tb'.last == tb.last
    ensures Find(tb, v, asn, rw).0 == Find(tb', v, asn, rw).0
  {
    hide Scan, Probe, Insert;
    var hint := tb.last[rw];
    assert tb.es[hint].valid == tb'.es[hint].valid;
    ScanAlike(tb.es, tb'.es, v, asn, 0);
    ProbeAlike(tb.es, tb'.es, tb.ix.rows[SetOf(v)], v, asn, 0);
  }

  /** On the native EV8, with nothing cached, tables that show the same answer every access alike. */
  lemma AnswersAlike(d: Dtb, d': Dtb, rw: nat, v: nat, host: nat)
    requires Inv(d) && Inv(d') && d.native && d'.native && rw < 2
    requires Alike(d.tb.es, d'.tb.es) && d'.tb.ix == d.tb.ix && d'.tb.last == d.tb.last
    requires d'.asn0 == d.asn0 && d'.mode == d.mode
    requires forall r, s :: !Holds(d.cache, r, s) && !Holds(d'.cache, r, s)
    ensures Access(d, rw, v, host).0 == Access(d', rw, v, host).0
  {
    hide Inv, Find, Refill, Exact, Hit;
    InvIs(d);
    InvIs(d');
    NotCached(d, rw, v);
    NotCached(d', rw, v);
    FindAlike(d.tb, d'.tb, v, d.asn0, rw);
    NativeFind(d, v, rw);
    NativeFind(d', v, rw);
  }

  lemma NativeFind(d: Dtb, v: nat, rw: nat)
    requires Inv(d) && d.native && rw < 2
    ensures var (i, r) := FindData(d, v, rw);
            && i == Find(d.tb, v, d.asn0, rw).0 && r.tb.es == d.tb.es && r.mode == d.mode
            && (i != -1 ==> d.tb.es[i].valid)
  {
    hide Find, Refill;
    NoShadow(d, v, d.asn0);
    ShadowHitIs(d, v, d.asn0);
    FindExact(d.tb, v, d.asn0, rw);
  }

  // ---- The native EV8 --------------------------------------------------------------------------

  /** DTB_IS takes exactly this group's entries that match the page in this address space. */
  lemma Ev8IsTakes(d: Dtb, v: nat)
    requires Inv(d) && d.native
    ensures var r := Ev8TbIs(d, v);
            forall i :: 0 <= i < ENTRIES ==>
              var e := d.tb.es[i];
              if e.grp == d.grp && Matches(e, v, d.asn0) then !r.tb.es[i].valid && !r.tb.es[i].present
              else r.tb.es[i] == e
  {
    hide Exact, CacheOk, SweepFlush, FlushRange, Matches, Sweep;
    var kill := IsSelects(v, d.grp, d.asn0);
    SweepFlushIs(d.tb.es, d.tb.ix, d.cache, kill, true, d.keep, 0);
    SweepExact(d.tb.es, d.tb.ix, kill, true, 0);
    forall i | 0 <= i < ENTRIES
      ensures var e := d.tb.es[i];
              var x := Ev8TbIs(d, v).tb.es[i];
              if e.grp == d.grp && Matches(e, v, d.asn0) then !x.valid && !x.present else x == e
    {
      assert EntryOk(d, d.tb.es[i]);
    }
  }

  /** DTB_IS forgets: the page is not mapped in this group and address space, a lookup misses and an
      access gets nothing. */
  lemma Ev8IsForgets(d: Dtb, v: nat)
    requires Inv(d) && d.native
    ensures var r := Ev8TbIs(d, v);
            && !Maps(r.tb.es, v, d.asn0)
            && (forall rw :: 0 <= rw < 2 ==> FindData(r, v, rw).0 == -1)
            && (forall rw, host :: 0 <= rw < 2 && 0 <= host ==> Access(r, rw, v, host).0 == NoAnswer)
  {
    hide Inv, Ev8TbIs, Access, FindData, SamePage;
    InvIs(d);
    var r := Ev8TbIs(d, v);
    Ev8TbIsKeeps(d, v);
    InvIs(r);
    Ev8IsTakes(d, v);
    Ev8IsFlushes(d, v);
    forall i | 0 <= i < ENTRIES
      ensures !Hit(r.tb.es[i], v, d.asn0)
    {
      InvEntry(d, i);
    }
    NoShadow(r, v, d.asn0);
    NothingAnswers(r, v);
  }

  lemma InvEntry(d: Dtb, i: nat)
    requires Inv(d) && i < ENTRIES
    ensures EntryOk(d, d.tb.es[i])
  {
  }

  lemma Ev8IsFlushes(d: Dtb, v: nat)
    requires Inv(d) && d.native
    ensures var r := Ev8TbIs(d, v);
            && r.asn0 == d.asn0 && r.mode == d.mode && r.native && r.grp == d.grp && r.tb.last == d.tb.last
            && (forall rw, s :: Holds(r.cache, rw, s) ==> !SamePage(s.vp, v))
  {
    hide Exact, CacheOk, SweepFlush, FlushRange, SamePage;
    var kill := IsSelects(v, d.grp, d.asn0);
    SweepFlushCovers(d.tb.es, d.tb.ix, d.cache, kill, true, d.keep, 0);
    FlushRangeOk(SweepFlush(d.tb.es, d.tb.ix, d.cache, kill, true, d.keep, 0).2, v, 0, d.keep);
  }

  /** DTB_IS spares the other groups: switched to any of them, every access is answered as it would have
      been. */
  lemma Ev8IsSpares(d: Dtb, v: nat, grp: nat, rw: nat, w: nat, host: nat)
    requires Inv(d) && d.native && grp != d.grp && rw < 2
    ensures Access(Ev8SetGroup(Ev8TbIs(d, v), grp), rw, w, host).0 == Access(Ev8SetGroup(d, grp), rw, w, host).0
  {
    hide Inv, Ev8TbIs, Access, SamePage, FlushAll, Rebuild, Holds, Matches;
    InvIs(d);
    var r := Ev8TbIs(d, v);
    Ev8TbIsKeeps(d, v);
    InvIs(r);
    Ev8IsTakes(d, v);
    Ev8IsFlushes(d, v);
    var es, es' := Regroup(d.tb.es, grp), Regroup(r.tb.es, grp);
    assert Alike(es, es');
    RebuildAlike(es, es', EmptyIndex(), 0);
    Ev8SetGroupKeeps(d, grp);
    Ev8SetGroupKeeps(r, grp);
    FlushAllOk(d.cache);
    FlushAllOk(r.cache);
    AnswersAlike(Ev8SetGroup(d, grp), Ev8SetGroup(r, grp), rw, w, host);
  }

  /** Switching away and back shows the same entries again. */
  lemma GroupRoundTrip(d: Dtb, grp: nat)
    requires Inv(d) && d.native
    ensures Ev8SetGroup(Ev8SetGroup(d, grp), d.grp).tb.es == d.tb.es
    ensures forall i :: 0 <= i < ENTRIES ==>
              (Ev8SetGroup(d, grp).tb.es[i].valid <==> d.tb.es[i].present && d.tb.es[i].grp == grp)
  {
    hide FlushAll, Rebuild, Exact, CacheOk;
    var r := Ev8SetGroup(Ev8SetGroup(d, grp), d.grp);
    forall i | 0 <= i < ENTRIES
      ensures r.tb.es[i] == d.tb.es[i]
    {
      assert EntryOk(d, d.tb.es[i]);
    }
  }

  /** An entry after DTB_IM: gone if it was selected, else as it was. */
  predicate Took(e: Entry, x: Entry, selected: bool) {
    if selected then x == e.(valid := false, present := false) else x == e
  }

  /** What each mode DTB_IM names takes: 00 and 10 everything, 01 this group's entries, 03 its ASM ones,
      05 its others, 0D its others of this address space, 16 nothing; 10 and 16 reset the pointer. */
  lemma Ev8ImTakes(d: Dtb, i: nat)
    requires Inv(d) && d.native && i < ENTRIES
    ensures var (e, mine) := (d.tb.es[i], d.tb.es[i].grp == d.grp);
            && Took(e, Ev8TbIm(d, 0x00).tb.es[i], e.present) && Ev8TbIm(d, 0x00).tb.next == d.tb.next
            && Took(e, Ev8TbIm(d, 0x01).tb.es[i], e.present && mine)
            && Took(e, Ev8TbIm(d, 0x03).tb.es[i], e.present && mine && e.asmBit)
            && Took(e, Ev8TbIm(d, 0x05).tb.es[i], e.present && mine && !e.asmBit)
            && Took(e, Ev8TbIm(d, 0x0D).tb.es[i], e.present && mine && !e.asmBit && e.asn == d.asn0)
            && Took(e, Ev8TbIm(d, 0x10).tb.es[i], e.present) && Ev8TbIm(d, 0x10).tb.next == 0
            && Took(e, Ev8TbIm(d, 0x16).tb.es[i], false) && Ev8TbIm(d, 0x16).tb.next == 0
  {
    hide Inv, Ev8TbIm, ImKills;
    InvIs(d);
    Ev8ImSelects(d, 0x00, i);
    Ev8ImSelects(d, 0x01, i);
    Ev8ImSelects(d, 0x03, i);
    Ev8ImSelects(d, 0x05, i);
    Ev8ImSelects(d, 0x0D, i);
    Ev8ImSelects(d, 0x10, i);
    Ev8ImSelects(d, 0x16, i);
    NamedModes(d.tb.es[i], d.grp, d.asn0);
  }

  lemma NamedModes(e: Entry, grp: nat, asn: nat)
    ensures ImKills(e, 0x00, grp, asn) <==> e.present
    ensures ImKills(e, 0x01, grp, asn) <==> e.present && e.grp == grp
    ensures ImKills(e, 0x03, grp, asn) <==> e.present && e.grp == grp && e.asmBit
    ensures ImKills(e, 0x05, grp, asn) <==> e.present && e.grp == grp && !e.asmBit
    ensures ImKills(e, 0x0D, grp, asn) <==> e.present && e.grp == grp && !e.asmBit && e.asn == asn
    ensures ImKills(e, 0x10, grp, asn) <==> e.present
    ensures !ImKills(e, 0x16, grp, asn)
  {
  }

  lemma Ev8ImSelects(d: Dtb, bits: bv5, i: nat)
    requires Inv(d) && d.native && i < ENTRIES
    ensures var (e, r) := (d.tb.es[i], Ev8TbIm(d, bits));
            && Took(e, r.tb.es[i], ImKills(e, bits, d.grp, d.asn0))
            && r.tb.next == (if bits & 16 != 0 then 0 else d.tb.next)
            && r.asn0 == d.asn0 && r.native && r.cache == FlushAll(d.cache)
  {
    hide Exact, CacheOk, Sweep, FlushAll, ImKills;
    SweepExact(d.tb.es, d.tb.ix, ImSelects(bits, d.grp, d.asn0), true, 0);
  }

  /** Of this group nothing answers after DTB_IM of mode 00, 01 or 10. */
  lemma Ev8ImForgets(d: Dtb, bits: bv5, rw: nat, v: nat, host: nat)
    requires Inv(d) && d.native && rw < 2 && (bits == 0x00 || bits == 0x01 || bits == 0x10)
    ensures Access(Ev8TbIm(d, bits), rw, v, host).0 == NoAnswer
  {
    hide Inv, Ev8TbIm, ImKills, Access, FlushAll;
    InvIs(d);
    var r := Ev8TbIm(d, bits);
    Ev8TbImKeeps(d, bits);
    InvIs(r);
    FlushAllOk(d.cache);
    forall i | 0 <= i < ENTRIES
      ensures !Hit(r.tb.es[i], v, d.asn0)
    {
      InvEntry(d, i);
      Ev8ImSelects(d, bits, i);
      NamedModes(d.tb.es[i], d.grp, d.asn0);
    }
    Ev8ImSelects(d, bits, 0);
    NoShadow(r, v, d.asn0);
    NothingAnswers(r, v);
  }

  // ---- The earlier processors ------------------------------------------------------------------

  /** tbis_d takes exactly the entries that hit the page in the address space, from the TB and from the
      shadow. */
  lemma TbisDTakes(d: Dtb, v: nat, asn: nat)
    requires Inv(d) && !d.native
    ensures var r := TbisD(d, v, asn);
            && (forall i :: 0 <= i < ENTRIES ==>
                  r.tb.es[i] == if Hit(d.tb.es[i], v, asn) then d.tb.es[i].(valid := false) else d.tb.es[i])
            && (forall k :: 0 <= k < SHADOW && !(k == v % SHADOW && Hit(d.shadow[k], v, asn)) ==>
                  r.shadow[k] == d.shadow[k])
  {
    hide Exact, CacheOk, SweepFlush, FlushRange, Sweep, Hit;
    var kill := Hits(v, asn);
    SweepFlushIs(d.tb.es, d.tb.ix, d.cache, kill, false, d.keep, 0);
    SweepExact(d.tb.es, d.tb.ix, kill, false, 0);
    assert ShadowOk(d, v % SHADOW);
    ShadowHitIs(d, v, asn);
  }

  /** tbiap takes every entry without ASM and no other, from the TB and from the shadow, and empties the
      page cache. */
  lemma TbiapTakes(d: Dtb)
    requires Inv(d) && !d.native
    ensures var r := Tbiap(d);
            && (forall i :: 0 <= i < ENTRIES ==>
                  if d.tb.es[i].asmBit then r.tb.es[i] == d.tb.es[i] else !r.tb.es[i].valid)
            && (forall k :: 0 <= k < SHADOW ==>
                  if d.shadow[k].asmBit then r.shadow[k] == d.shadow[k] else !r.shadow[k].valid)
            && (forall rw, s :: !Holds(r.cache, rw, s))
  {
    hide Exact, CacheOk, Sweep, FlushAll;
    SweepExact(d.tb.es, d.tb.ix, OwnedLive(), false, 0);
    FlushAllOk(d.cache);
  }

  /** A page with an ASM entry that admits the access is served after tbiap, in every address space. */
  lemma TbiapServesShared(d: Dtb, i: nat, rw: nat, v: nat, host: nat)
    requires Inv(d) && !d.native && rw < 2 && i < ENTRIES
    requires d.tb.es[i].asmBit && Hit(d.tb.es[i], v, d.asn0) && Admitted(d, rw, v)
    ensures Access(Tbiap(d), rw, v, host).0.Page?
  {
    hide Inv, Tbiap, Access, Holds;
    InvIs(d);
    var r := Tbiap(d);
    TbiapKeeps(d);
    InvIs(r);
    TbiapTakes(d);
    TbiapRest(d);
    SlotMaps(r.tb.es, i, v, d.asn0);
    Answers(r, rw, v, host);
  }

  lemma TbiapRest(d: Dtb)
    requires DtbShape(d)
    ensures Tbiap(d).asn0 == d.asn0 && Tbiap(d).mode == d.mode
  {
  }

  /** After tbia nothing answers. */
  lemma TbiaForgets(d: Dtb, rw: nat, v: nat, host: nat)
    requires Inv(d) && !d.native && rw < 2
    ensures Access(Tbia(d), rw, v, host).0 == NoAnswer
  {
    hide FlushAll, Exact, CacheOk, Access;
    TbiaKeeps(d);
    FlushAllOk(d.cache);
    NothingAnswers(Tbia(d), v);
  }
}

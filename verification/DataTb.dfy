/** The data translation path: the data TB, the shadow of evicted translations that refills it, and
    the page cache in front (src/cpu/AlphaCPU.cpp: FindTBEntry, tb_refill_from_shadow,
    dtb_still_maps, add_tb, tbia, tbiap, tbis, tbis_d; src/cpu/AlphaCPU_ev8.cpp: ev8_add_tb,
    ev8_tb_im, ev8_tb_is, ev8_set_group), as functions of its state. */
module DataTb {
  import opened TbIndex
  import opened TbSearch
  import opened PageCache

  const SHADOW: nat := 4096

  /** native: the native EV8, whose entries carry a TPU group and whose fills bypass the shadow. keep:
      the page cache keeps what a fill does not touch (ALPHABOX_DPC_KEEP). */
  datatype Dtb = Dtb(tb: Tb, shadow: seq<Entry>, cache: Cache, asn0: nat, asn1: nat, mode: nat, grp: nat,
                     keep: bool, native: bool)

  predicate DtbShape(d: Dtb) {
    TbShape(d.tb) && |d.shadow| == SHADOW && CacheShape(d.cache)
  }

  // ---- What still maps a page ------------------------------------------------------------------

  /** dtb_still_maps's test of one entry: the same 8 KB page for the same address spaces. */
  predicate Same(x: Entry, e: Entry) {
    && x.valid && x.size == 0 && !x.wide && x.page == e.page
    && (if x.asmBit then e.asmBit else !e.asmBit && x.asn == e.asn)
  }

  predicate ProbeSame(es: seq<Entry>, w: seq<nat>, e: Entry, k: nat)
    requires k <= |w| && RowShape(w) && |es| == ENTRIES
    decreases |w| - k
  {
    k < |w| && w[k] != 0 && (Same(es[w[k] - 1], e) || ProbeSame(es, w, e, k + 1))
  }

  predicate ScanSame(es: seq<Entry>, e: Entry, j: nat)
    requires j <= |es|
    decreases |es| - j
  {
    j < |es| && (Same(es[j], e) || ScanSame(es, e, j + 1))
  }

  /** dtb_still_maps: the shadow, then the TB through its index. */
  predicate StillMaps(d: Dtb, e: Entry)
    requires TbShape(d.tb) && |d.shadow| == SHADOW
  {
    && e.size == 0 && !e.wide
    && (|| Same(d.shadow[e.page % SHADOW], e)
        || ProbeSame(d.tb.es, d.tb.ix.rows[SetOf(e.page)], e, 0)
        || (d.tb.ix.lost[SetOf(e.page)] && ScanSame(d.tb.es, e, 0)))
  }

  /** drop_unmapped_page, by the tables of d. */
  function DropUnmapped(c: Cache, d: Dtb, e: Entry): (r: Cache)
    requires CacheShape(c) && TbShape(d.tb) && |d.shadow| == SHADOW
    ensures CacheShape(r)
  {
    if e.valid && !StillMaps(d, e) then FlushRange(c, e.page, e.size, d.keep) else c
  }

  // ---- Fills -----------------------------------------------------------------------------------

  function NextSlot(i: nat): nat { if i + 1 == ENTRIES then 0 else i + 1 }

  /** add_tb's removal of the entry it overwrites, which looks at the whole match mask. */
  function DropReplaced(ix: Index, was: Entry, slot: nat): (r: Index)
    requires Shape(ix) && slot < ENTRIES
    ensures Shape(r)
  {
    if !was.valid then ix
    else if was.size == 0 && !was.wide then Remove(ix, was.page, slot)
    else ix.(large := ix.large - 1)
  }

  function NewEntry(was: Entry, v: nat, size: nat, asmBit: bool, asn: nat, pte: Pte): Entry {
    Entry(true, Align(v, false, size), false, size, asn, asmBit, pte, was.present, was.grp)
  }

  /** add_tb for the data TB, its tables: the slot of a matching entry or the round-robin one; the
      index and the shadow follow. */
  function AddTables(d: Dtb, slot: nat, v: nat, size: nat, asmBit: bool, asn: nat, pte: Pte): (r: Dtb)
    requires DtbShape(d) && slot < ENTRIES
    ensures DtbShape(r) && r.cache == d.cache && r.tb.next == d.tb.next
  {
    var was := d.tb.es[slot];
    var e := NewEntry(was, v, size, asmBit, asn, pte);
    d.(tb := d.tb.(es := d.tb.es[slot := e], ix := Add(DropReplaced(d.tb.ix, was, slot), e, slot),
                   last := d.tb.last[0 := slot]),
       shadow := if size == 0 then d.shadow[v % SHADOW := e] else d.shadow)
  }

  /** ... and the page cache: the replaced entry and the shadow's, unless the tables t still map them,
      and the new page. */
  function AddFlush(d: Dtb, t: Dtb, was: Entry, v: nat, size: nat): (c: Cache)
    requires DtbShape(d) && DtbShape(t)
    ensures CacheShape(c)
  {
    var c1 := if !was.valid then d.cache
              else if !d.keep then FlushRange(d.cache, was.page, was.size, d.keep)
              else DropUnmapped(d.cache, t, was);
    var c2 := if d.keep && size == 0 then DropUnmapped(c1, t, d.shadow[v % SHADOW]) else c1;
    FlushRange(c2, v, size, d.keep)
  }

  function AddTb(d: Dtb, v: nat, size: nat, asmBit: bool, asn: nat, pte: Pte): (r: Dtb)
    requires DtbShape(d)
    ensures DtbShape(r)
  {
    var found := Scan(d.tb.es, v, asn, 0);
    var slot := if found == -1 then d.tb.next else found;
    var t := AddTables(d, slot, v, size, asmBit, asn, pte);
    t.(tb := t.tb.(next := if found == -1 then NextSlot(slot) else d.tb.next),
       cache := AddFlush(d, t, d.tb.es[slot], v, size))
  }

  /** The shadow's entry for a page, if it answers. */
  predicate ShadowHit(d: Dtb, v: nat, asn: nat)
    requires |d.shadow| == SHADOW
  {
    var sh := d.shadow[v % SHADOW];
    sh.valid && sh.page == Align(v, sh.wide, sh.size) && (sh.asmBit || sh.asn == asn)
  }

  /** tb_refill_from_shadow's tables, when the shadow answers: the round-robin victim leaves for it. */
  function RefillTables(d: Dtb, v: nat): (r: Dtb)
    requires DtbShape(d)
    ensures DtbShape(r) && r.cache == d.cache && r.shadow == d.shadow
  {
    var sh := d.shadow[v % SHADOW];
    var slot := d.tb.next;
    var victim := d.tb.es[slot];
    var ix := if victim.valid then Drop(d.tb.ix, victim, slot) else d.tb.ix;
    d.(tb := d.tb.(es := d.tb.es[slot := sh], ix := Add(ix, sh, slot), next := NextSlot(slot)))
  }

  function Refill(d: Dtb, v: nat): (r: Dtb)
    requires DtbShape(d)
    ensures DtbShape(r)
  {
    var victim := d.tb.es[d.tb.next];
    var t := RefillTables(d, v);
    t.(cache := if d.keep then DropUnmapped(d.cache, t, victim)
                else if victim.valid then FlushRange(d.cache, victim.page, victim.size, d.keep)
                else d.cache)
  }

  /** FindTBEntry for a data access in the current address space. */
  function FindData(d: Dtb, v: nat, rw: nat): (r: (int, Dtb))
    requires DtbShape(d) && rw < 2
    ensures DtbShape(r.1) && -1 <= r.0 < ENTRIES
  {
    var (i, tb) := Find(d.tb, v, d.asn0, rw);
    var d1 := d.(tb := tb);
    if i != -1 then (i, d1)
    else if ShadowHit(d1, v, d.asn0) then
      var d2 := Refill(d1, v);
      (d1.tb.next, d2.(tb := d2.tb.(last := d2.tb.last[rw := d1.tb.next])))
    else (-1, d1)
  }

  // ---- Invalidates -----------------------------------------------------------------------------

  type Swept = (seq<Entry>, Index, Cache)

  /** The pass of tbis_d and DTB_IS from slot i: as Sweep, each entry's page leaving the cache. */
  function SweepFlush(es: seq<Entry>, ix: Index, c: Cache, kill: Kill, ev8: bool, keep: bool, i: nat): (r: Swept)
    requires |es| == ENTRIES && i <= |es| && Shape(ix) && CacheShape(c)
    ensures |r.0| == |es| && Shape(r.1) && CacheShape(r.2)
    decreases |es| - i
  {
    if i == |es| then (es, ix, c)
    else if kill(es[i]) then
      SweepFlush(es[i := Gone(es[i], ev8)], if es[i].valid then Drop(ix, es[i], i) else ix,
                 FlushRange(c, es[i].page, es[i].size, keep), kill, ev8, keep, i + 1)
    else SweepFlush(es, ix, c, kill, ev8, keep, i + 1)
  }

  lemma {:induction false} SweepFlushIs(es: seq<Entry>, ix: Index, c: Cache, kill: Kill, ev8: bool, keep: bool, i: nat)
    requires |es| == ENTRIES && i <= |es| && Shape(ix) && CacheShape(c)
    ensures var r := SweepFlush(es, ix, c, kill, ev8, keep, i); (r.0, r.1) == Sweep(es, ix, kill, ev8, i)
    decreases |es| - i
  {
    if i < |es| {
      if kill(es[i]) {
        SweepFlushIs(es[i := Gone(es[i], ev8)], if es[i].valid then Drop(ix, es[i], i) else ix,
                     FlushRange(c, es[i].page, es[i].size, keep), kill, ev8, keep, i + 1);
      } else {
        SweepFlushIs(es, ix, c, kill, ev8, keep, i + 1);
      }
    }
  }

  // What each invalidate selects.

  function Hits(v: nat, asn: nat): Kill { e => Hit(e, v, asn) }

  function Owned(): Kill { (e: Entry) => !e.asmBit }

  function OwnedLive(): Kill { (e: Entry) => !e.asmBit && e.valid }

  function Every(): Kill { _ => true }

  function Unshadow(d: Dtb, v: nat, asn: nat): Dtb
    requires |d.shadow| == SHADOW
  {
    if ShadowHit(d, v, asn) then d.(shadow := d.shadow[v % SHADOW := d.shadow[v % SHADOW].(valid := false)]) else d
  }

  /** tbis_d: the page's entries of the address space, everywhere. */
  function TbisD(d: Dtb, v: nat, asn: nat): (r: Dtb)
    requires DtbShape(d)
    ensures DtbShape(r)
  {
    var d1 := Unshadow(d, v, asn);
    var kill := Hits(v, asn);
    var (es, ix, c) := SweepFlush(d.tb.es, d.tb.ix, d.cache, kill, false, d.keep, 0);
    d1.(tb := d.tb.(es := es, ix := ix), cache := FlushRange(c, v, 0, d.keep))
  }

  /** tbis for data: the shadow's entry whatever its address space, then both ports' spaces. */
  function Tbis(d: Dtb, v: nat): (r: Dtb)
    requires DtbShape(d)
    ensures DtbShape(r)
  {
    var sh := d.shadow[v % SHADOW];
    var d1 := if sh.valid && sh.page == Align(v, sh.wide, sh.size)
              then d.(shadow := d.shadow[v % SHADOW := sh.(valid := false)]) else d;
    var d2 := TbisD(d1, v, d.asn0);
    if d.asn1 != d.asn0 then TbisD(d2, v, d.asn1) else d2
  }

  function KillEntries(es: seq<Entry>, kill: Kill): seq<Entry> {
    seq(|es|, i requires 0 <= i < |es| => if kill(es[i]) then es[i].(valid := false) else es[i])
  }

  /** tbiap: every entry without ASM. */
  function Tbiap(d: Dtb): (r: Dtb)
    requires DtbShape(d)
    ensures DtbShape(r)
  {
    var kill := OwnedLive();
    var (es, ix) := Sweep(d.tb.es, d.tb.ix, kill, false, 0);
    d.(tb := d.tb.(es := es, ix := ix),
       shadow := KillEntries(d.shadow, Owned()),
       cache := FlushAll(d.cache))
  }

  /** tbia: everything. */
  function Tbia(d: Dtb): (r: Dtb)
    requires DtbShape(d)
    ensures DtbShape(r)
  {
    d.(tb := Tb(KillEntries(d.tb.es, Every()), EmptyIndex(), 0, [0, 0]),
       shadow := KillEntries(d.shadow, Every()),
       cache := FlushAll(d.cache))
  }

  // ---- The native EV8 --------------------------------------------------------------------------

  predicate Ev8Replaces(e: Entry, v: nat, asn: nat, asmBit: bool, grp: nat) {
    && e.present && e.grp == grp && Tag(e.page, e.wide, e.size) == Tag(v, e.wide, e.size)
    && (e.asmBit || e.asn == asn || asmBit)
  }

  function Ev8Scan(es: seq<Entry>, v: nat, asn: nat, asmBit: bool, grp: nat, j: nat): (r: int)
    requires j <= |es|
    ensures -1 <= r < |es|
    decreases |es| - j
  {
    if j == |es| then -1
    else if Ev8Replaces(es[j], v, asn, asmBit, grp) then j
    else Ev8Scan(es, v, asn, asmBit, grp, j + 1)
  }

  /** ev8_add_tb for a valid DTB PTE; size counts three page bits for each granularity step, one more
      with 64 KB pages. */
  function Ev8AddTb(d: Dtb, v: nat, size: nat, asmBit: bool, pte: Pte): (r: Dtb)
    requires DtbShape(d)
    ensures DtbShape(r)
  {
    var found := Ev8Scan(d.tb.es, v, d.asn0, asmBit, d.grp, 0);
    var slot := if found == -1 then d.tb.next else found;
    var was := d.tb.es[slot];
    var e := Entry(true, Align(v, true, size), true, size, d.asn0, asmBit, pte, true, d.grp);
    var ix1 := if was.valid then Drop(d.tb.ix, was, slot) else d.tb.ix;
    var c1 := if was.valid then FlushRange(d.cache, was.page, was.size, d.keep) else d.cache;
    d.(tb := Tb(d.tb.es[slot := e], Add(ix1, e, slot), if found == -1 then NextSlot(slot) else d.tb.next, [slot, slot]),
       cache := FlushRange(c1, v, size, d.keep))
  }

  /** DTB_IM's selection by the mode's bits: this group, ASM only, non-ASM only, this ASN. */
  predicate ImKills(e: Entry, bits: bv5, grp: nat, asn: nat) {
    && e.present
    && (bits & 1 != 0 ==> e.grp == grp)
    && (bits & 2 != 0 ==> e.asmBit)
    && (bits & 4 != 0 ==> !e.asmBit)
    && (bits & 8 != 0 ==> e.asn == asn)
  }

  function ImSelects(bits: bv5, grp: nat, asn: nat): Kill { e => ImKills(e, bits, grp, asn) }

  function Ev8TbIm(d: Dtb, bits: bv5): (r: Dtb)
    requires DtbShape(d)
    ensures DtbShape(r)
  {
    var kill := ImSelects(bits, d.grp, d.asn0);
    var (es, ix) := Sweep(d.tb.es, d.tb.ix, kill, true, 0);
    d.(tb := d.tb.(es := es, ix := ix, next := if bits & 16 != 0 then 0 else d.tb.next), cache := FlushAll(d.cache))
  }

  predicate IsKills(e: Entry, v: nat, grp: nat, asn: nat) {
    e.present && e.grp == grp && Matches(e, v, asn)
  }

  function IsSelects(v: nat, grp: nat, asn: nat): Kill { e => IsKills(e, v, grp, asn) }

  function Ev8TbIs(d: Dtb, v: nat): (r: Dtb)
    requires DtbShape(d)
    ensures DtbShape(r)
  {
    var kill := IsSelects(v, d.grp, d.asn0);
    var (es, ix, c) := SweepFlush(d.tb.es, d.tb.ix, d.cache, kill, true, d.keep, 0);
    d.(tb := d.tb.(es := es, ix := ix), cache := FlushRange(c, v, 0, d.keep))
  }

  function Regroup(es: seq<Entry>, grp: nat): seq<Entry> {
    seq(|es|, i requires 0 <= i < |es| => es[i].(valid := es[i].present && es[i].grp == grp))
  }

  /** ev8_set_group: the new group's entries show, the others do not. */
  function Ev8SetGroup(d: Dtb, grp: nat): (r: Dtb)
    requires DtbShape(d)
    ensures DtbShape(r)
  {
    if d.grp == grp then d
    else
      var es := Regroup(d.tb.es, grp);
      d.(grp := grp, tb := d.tb.(es := es, ix := Rebuild(es, EmptyIndex(), 0)), cache := FlushAll(d.cache))
  }

  function NoneIn(es: seq<Entry>): seq<Entry> {
    seq(|es|, i requires 0 <= i < |es| => es[i].(present := false, grp := 0))
  }

  /** ev8_tb_clear: tbia's, and no entry present in any group. */
  function Ev8Clear(d: Dtb): (r: Dtb)
    requires DtbShape(d)
    ensures DtbShape(r)
  {
    var t := Tbia(d);
    t.(tb := t.tb.(es := NoneIn(t.tb.es)))
  }

  // ---- Accesses --------------------------------------------------------------------------------

  /** A write of the address space number flushes the page cache. */
  function SetAsn0(d: Dtb, asn: nat): Dtb
    requires CacheShape(d.cache)
  {
    d.(asn0 := asn, cache := FlushAll(d.cache))
  }

  function SetAsn1(d: Dtb, asn: nat): Dtb
    requires CacheShape(d.cache)
  {
    d.(asn1 := asn, cache := FlushAll(d.cache))
  }

  predicate HitL1(d: Dtb, rw: nat, v: nat)
    requires CacheShape(d.cache) && rw < 2
  {
    Serves(d.cache.l1[rw][v % L1], v, d.mode, d.asn0)
  }

  /** The physical page of an entry for one of its pages. */
  function PhysOf(e: Entry, v: nat): nat { e.pte.phys + Field(v, e.wide) % Pages(e.size) }

  /** The physical page, or a miss or fault. */
  datatype Answer = Page(phys: nat) | NoAnswer

  /** An ordinary load's or store's translation: the page cache, else the TB, whose answer the access
      checks admit is filled into both levels. host is the host address the fill would record. */
  function Access(d: Dtb, rw: nat, v: nat, host: nat): (r: (Answer, Dtb))
    requires DtbShape(d) && rw < 2
    ensures DtbShape(r.1)
  {
    if HitL1(d, rw, v) then (Page(d.cache.l1[rw][v % L1].phys), d)
    else if Promotes(d.cache, rw, v, d.mode, d.asn0) then
      (Page(d.cache.l2[rw][v % L2].phys), d.(cache := Promote(d.cache, rw, v)))
    else
      var (i, d1) := FindData(d, v, rw);
      if i == -1 || !d1.tb.es[i].pte.Permits(rw == 1, d1.mode) then (NoAnswer, d1)
      else
        var phys := PhysOf(d1.tb.es[i], v);
        (Page(phys), d1.(cache := Fill(d1.cache, rw, v, phys, host, d1.mode, d1.asn0)))
  }
}

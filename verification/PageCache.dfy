/** The two-level data page cache in front of the data TB (src/cpu/AlphaCPU.hpp: SDataPageCache,
    dpc_l1, dpc_promote, dpc_l2_put, flush_data_page_cache and flush_data_page_cache_range). */
module PageCache {
  import opened Bits
  import opened TbIndex

  const L1: nat := 256
  const L2: nat := 16384
  const GENERATIONS: nat := 0x1_0000_0000
  const EMPTY_TAG: nat := 0xFFFF_FFFF_FFFF_FFFF
  const PAGE: nat := 0x2000

  /** A slot of either level: vp, phys are page numbers, host the host address behind the page, 0 for
      one compiled code must not touch inline. tag and bias are what compiled code reads. */
  datatype Slot = Slot(tag: nat, bias: nat, vp: nat, phys: nat, host: nat, mode: nat, asn: nat, valid: bool, gen: nat)

  datatype Mirror = Mirror(tag: nat, bias: nat)

  /** Both levels by row (0 read, 1 write) and slot, level 1's mirror, and level 2's generation. */
  datatype Cache = Cache(l1: seq<seq<Slot>>, mirror: seq<seq<Mirror>>, l2: seq<seq<Slot>>, gen: nat)

  predicate CacheShape(c: Cache) {
    && |c.l1| == 2 && |c.mirror| == 2 && |c.l2| == 2 && 0 < c.gen < GENERATIONS
    && forall rw :: 0 <= rw < 2 ==> |c.l1[rw]| == L1 && |c.mirror[rw]| == L1 && |c.l2[rw]| == L2
  }

  /** (asn << 2) | mode: the half of a tag that is not the page. The fields do not overlap. */
  function Key(mode: nat, asn: nat): nat { (asn % 256) * 4 + mode % 4 }

  /** make_tag: page, key, and bit 12 for a page with no host address. */
  function MakeTag(vp: nat, mode: nat, asn: nat, mmio: bool): nat {
    vp * PAGE + Key(mode, asn) + (if mmio then 0x1000 else 0)
  }

  function Invalid(s: Slot): Slot { s.(valid := false, host := 0, tag := EMPTY_TAG) }

  /** The host address less the virtual one, modulo 2^64. */
  function Bias(host: nat, vp: nat): nat { (host + WORD - vp * PAGE % WORD) % WORD }

  function Filled(was: Slot, vp: nat, phys: nat, host: nat, mode: nat, asn: nat): Slot {
    Slot(MakeTag(vp, mode, asn, host == 0), Bias(host, vp), vp, phys, host, mode, asn, true, was.gen)
  }

  function Synced(s: Slot): Mirror { Mirror(s.tag, s.bias) }

  /** A slot serves this page in this mode and address space. */
  predicate Serves(s: Slot, vp: nat, mode: nat, asn: nat) {
    s.valid && s.vp == vp && s.mode == mode && s.asn == asn
  }

  predicate Live2(c: Cache, s: Slot) { s.valid && s.gen == c.gen }

  // ---- Operations ------------------------------------------------------------------------------

  /** dpc_l2_put after a fill of level 1. */
  function Fill(c: Cache, rw: nat, vp: nat, phys: nat, host: nat, mode: nat, asn: nat): (r: Cache)
    requires CacheShape(c) && rw < 2
    ensures CacheShape(r)
  {
    var s := Filled(c.l1[rw][vp % L1], vp, phys, host, mode, asn);
    c.(l1 := c.l1[rw := c.l1[rw][vp % L1 := s]],
       mirror := c.mirror[rw := c.mirror[rw][vp % L1 := Synced(s)]],
       l2 := c.l2[rw := c.l2[rw][vp % L2 := s.(gen := c.gen)]])
  }

  predicate Promotes(c: Cache, rw: nat, vp: nat, mode: nat, asn: nat)
    requires CacheShape(c) && rw < 2
  {
    var s := c.l2[rw][vp % L2];
    Live2(c, s) && Serves(s, vp, mode, asn)
  }

  /** dpc_promote, when level 2 can answer. */
  function Promote(c: Cache, rw: nat, vp: nat): (r: Cache)
    requires CacheShape(c) && rw < 2
    ensures CacheShape(r)
  {
    var s := c.l2[rw][vp % L2];
    c.(l1 := c.l1[rw := c.l1[rw][vp % L1 := s]], mirror := c.mirror[rw := c.mirror[rw][vp % L1 := Synced(s)]])
  }

  function InvalidRow(row: seq<Slot>): seq<Slot> { seq(|row|, i requires 0 <= i < |row| => Invalid(row[i])) }

  function EmptyTags(row: seq<Mirror>): seq<Mirror> {
    seq(|row|, i requires 0 <= i < |row| => row[i].(tag := EMPTY_TAG))
  }

  /** flush_data_page_cache: level 1 emptied; level 2 by its generation, or emptied when that wraps. */
  function FlushAll(c: Cache): (r: Cache)
    requires CacheShape(c)
    ensures CacheShape(r)
  {
    var wrapped := c.gen + 1 == GENERATIONS;
    Cache([InvalidRow(c.l1[0]), InvalidRow(c.l1[1])],
          [EmptyTags(c.mirror[0]), EmptyTags(c.mirror[1])],
          if wrapped then [InvalidRow(c.l2[0]), InvalidRow(c.l2[1])] else c.l2,
          if wrapped then 1 else c.gen + 1)
  }

  /** The bits of the address a TB entry and a slot both have: VA<47:13>. */
  predicate SamePage(a: nat, b: nat) { Field(a, false) == Field(b, false) }

  function FlushSlot(s: Slot, v: nat, keep: bool): Slot {
    if !keep || SamePage(s.vp, v) then Invalid(s) else s
  }

  function FlushMirror(m: Mirror, s: Slot, v: nat, keep: bool): Mirror {
    if !keep || SamePage(s.vp, v) then Synced(Invalid(s)) else m
  }

  /** One row of flush_data_page_cache_range's 8 KB case. */
  function FlushPageRow(c: Cache, rw: nat, v: nat, keep: bool): (r: Cache)
    requires CacheShape(c) && rw < 2
    ensures CacheShape(r)
  {
    var s1, s2 := c.l1[rw][v % L1], c.l2[rw][v % L2];
    c.(l1 := c.l1[rw := c.l1[rw][v % L1 := FlushSlot(s1, v, keep)]],
       mirror := c.mirror[rw := c.mirror[rw][v % L1 := FlushMirror(c.mirror[rw][v % L1], s1, v, keep)]],
       l2 := c.l2[rw := c.l2[rw][v % L2 := FlushSlot(s2, v, keep)]])
  }

  /** flush_data_page_cache_range: a large page empties everything, an 8 KB page its slots. */
  function FlushRange(c: Cache, v: nat, size: nat, keep: bool): (r: Cache)
    requires CacheShape(c)
    ensures CacheShape(r)
  {
    if size != 0 then FlushAll(c) else FlushPageRow(FlushPageRow(c, 0, v, keep), 1, v, keep)
  }

  // ---- The levels behave as one ----------------------------------------------------------------

  predicate SlotOk(s: Slot) {
    if s.valid then
      && s.mode < 4 && s.asn < 256 && s.vp * PAGE < WORD
      && s.tag == MakeTag(s.vp, s.mode, s.asn, s.host == 0)
      && s.bias == Bias(s.host, s.vp)
    else s.tag == EMPTY_TAG
  }

  /** Level 1 slot i of a row: its mirror is in step, and a valid one is level 2's of this generation. */
  ghost predicate L1Ok(c: Cache, rw: nat, i: nat)
    requires CacheShape(c) && rw < 2 && i < L1
  {
    var s := c.l1[rw][i];
    && SlotOk(s)
    && c.mirror[rw][i] == Synced(s)
    && (s.valid ==> s.vp % L1 == i && c.l2[rw][s.vp % L2] == s.(gen := c.gen))
  }

  ghost predicate L2Ok(c: Cache, rw: nat, i: nat)
    requires CacheShape(c) && rw < 2 && i < L2
  {
    var s := c.l2[rw][i];
    s.valid ==> SlotOk(s) && s.vp % L2 == i && s.gen <= c.gen
  }

  ghost predicate CacheOk(c: Cache) {
    && CacheShape(c)
    && (forall rw, i :: 0 <= rw < 2 && 0 <= i < L1 ==> L1Ok(c, rw, i))
    && (forall rw, i :: 0 <= rw < 2 && 0 <= i < L2 ==> L2Ok(c, rw, i))
  }

  /** What either level holds live is in level 2. */
  ghost predicate Holds(c: Cache, rw: nat, s: Slot)
    requires CacheShape(c)
  {
    rw < 2 && Live2(c, s) && c.l2[rw][s.vp % L2] == s
  }

  lemma IndexOfIndex(v: nat)
    ensures v % L2 % L1 == v % L1
  {
    ModMod(v, L1, 64);
  }

  lemma FilledOk(was: Slot, vp: nat, phys: nat, host: nat, mode: nat, asn: nat)
    requires mode < 4 && asn < 256 && vp * PAGE < WORD
    ensures var s := Filled(was, vp, phys, host, mode, asn);
            SlotOk(s) && s.valid && s.vp == vp && forall g :: SlotOk(s.(gen := g))
  {
    hide MakeTag, Bias;
  }

  lemma FillOk(c: Cache, rw: nat, vp: nat, phys: nat, host: nat, mode: nat, asn: nat)
    requires CacheOk(c) && rw < 2 && mode < 4 && asn < 256 && vp * PAGE < WORD
    ensures CacheOk(Fill(c, rw, vp, phys, host, mode, asn))
    ensures var c' := Fill(c, rw, vp, phys, host, mode, asn);
            forall r, s :: Holds(c', r, s) ==>
              Holds(c, r, s) || (r == rw && s == Filled(c.l1[rw][vp % L1], vp, phys, host, mode, asn).(gen := c.gen))
  {
    hide SlotOk, Filled;
    var c' := Fill(c, rw, vp, phys, host, mode, asn);
    FilledOk(c.l1[rw][vp % L1], vp, phys, host, mode, asn);
    IndexOfIndex(vp);
    forall r, i | 0 <= r < 2 && 0 <= i < L1
      ensures L1Ok(c', r, i)
    {
      assert L1Ok(c, r, i);
      IndexOfIndex(c.l1[r][i].vp);
    }
    forall r, i | 0 <= r < 2 && 0 <= i < L2
      ensures L2Ok(c', r, i)
    {
      assert L2Ok(c, r, i);
    }
  }

  lemma PromoteOk(c: Cache, rw: nat, vp: nat, mode: nat, asn: nat)
    requires CacheOk(c) && rw < 2 && Promotes(c, rw, vp, mode, asn)
    ensures CacheOk(Promote(c, rw, vp))
    ensures Serves(Promote(c, rw, vp).l1[rw][vp % L1], vp, mode, asn)
    ensures forall r, s :: Holds(Promote(c, rw, vp), r, s) ==> Holds(c, r, s)
  {
    var c' := Promote(c, rw, vp);
    assert L2Ok(c, rw, vp % L2);
    forall r, i | 0 <= r < 2 && 0 <= i < L1
      ensures L1Ok(c', r, i)
    {
      assert L1Ok(c, r, i);
    }
    forall r, i | 0 <= r < 2 && 0 <= i < L2
      ensures L2Ok(c', r, i)
    {
      assert L2Ok(c, r, i);
    }
  }

  /** A full flush leaves nothing live, even when the generation wraps. */
  lemma FlushAllOk(c: Cache)
    requires CacheOk(c)
    ensures CacheOk(FlushAll(c))
    ensures forall r, s :: !Holds(FlushAll(c), r, s)
    ensures forall r, i :: 0 <= r < 2 && 0 <= i < L1 ==> !FlushAll(c).l1[r][i].valid
  {
    var c' := FlushAll(c);
    forall r, i | 0 <= r < 2 && 0 <= i < L1
      ensures L1Ok(c', r, i) && !c'.l1[r][i].valid
    {
      assert L1Ok(c, r, i);
    }
    forall r, i | 0 <= r < 2 && 0 <= i < L2
      ensures L2Ok(c', r, i) && !Live2(c', c'.l2[r][i])
    {
      assert L2Ok(c, r, i);
    }
  }

  lemma SamePageIndex(a: nat, b: nat)
    requires SamePage(a, b)
    ensures a % L1 == b % L1 && a % L2 == b % L2
  {
    FieldLow(a, false);
    FieldLow(b, false);
  }

  lemma FlushPageRowOk(c: Cache, rw: nat, v: nat, keep: bool)
    requires CacheOk(c) && rw < 2
    ensures CacheOk(FlushPageRow(c, rw, v, keep))
    ensures forall r, s :: Holds(FlushPageRow(c, rw, v, keep), r, s) ==>
              Holds(c, r, s) && !(r == rw && SamePage(s.vp, v))
  {
    var c' := FlushPageRow(c, rw, v, keep);
    forall r, i | 0 <= r < 2 && 0 <= i < L1
      ensures L1Ok(c', r, i)
    {
      assert L1Ok(c, r, i);
      var s := c.l1[r][i];
      IndexOfIndex(s.vp);
      IndexOfIndex(v);
      if SamePage(s.vp, v) { SamePageIndex(s.vp, v); }
    }
    forall r, i | 0 <= r < 2 && 0 <= i < L2
      ensures L2Ok(c', r, i)
    {
      assert L2Ok(c, r, i);
    }
    forall r, s | Holds(c', r, s)
      ensures Holds(c, r, s) && !(r == rw && SamePage(s.vp, v))
    {
      if SamePage(s.vp, v) { SamePageIndex(s.vp, v); }
    }
  }

  /** What a range flush keeps is another page than the one flushed. */
  lemma FlushRangeOk(c: Cache, v: nat, size: nat, keep: bool)
    requires CacheOk(c)
    ensures CacheOk(FlushRange(c, v, size, keep))
    ensures forall r, s :: Holds(FlushRange(c, v, size, keep), r, s) ==>
              Holds(c, r, s) && size == 0 && !SamePage(s.vp, v)
  {
    if size != 0 {
      FlushAllOk(c);
    } else {
      FlushPageRowOk(c, 0, v, keep);
      FlushPageRowOk(FlushPageRow(c, 0, v, keep), 1, v, keep);
    }
  }

  /** With keep, an 8 KB flush leaves every slot of another page in both levels and the mirror. */
  lemma FlushRangeSpares(c: Cache, v: nat, rw: nat)
    requires CacheOk(c) && rw < 2
    ensures var r := FlushRange(c, v, 0, true);
            && r.gen == c.gen
            && (forall i :: 0 <= i < L1 && !SamePage(c.l1[rw][i].vp, v) ==>
                  r.l1[rw][i] == c.l1[rw][i] && r.mirror[rw][i] == c.mirror[rw][i])
            && (forall i :: 0 <= i < L2 && !SamePage(c.l2[rw][i].vp, v) ==> r.l2[rw][i] == c.l2[rw][i])
            && (forall s :: Holds(c, rw, s) && !SamePage(s.vp, v) ==> Holds(r, rw, s))
  {
    hide SamePage;
  }

  /** The inline probe: the mirror's tag equals page | key exactly for a valid slot of that page, mode
      and address space with a host address, and then bias + va is the byte's host address. */
  lemma InlineProbe(c: Cache, rw: nat, vp: nat, offset: nat, mode: nat, asn: nat)
    requires CacheOk(c) && rw < 2 && vp * PAGE < WORD && offset < PAGE && mode < 4 && asn < 256
    ensures var m, s := c.mirror[rw][vp % L1], c.l1[rw][vp % L1];
            && (m.tag == vp * PAGE + Key(mode, asn) <==> Serves(s, vp, mode, asn) && s.host != 0)
            && (m.tag == vp * PAGE + Key(mode, asn) && s.host + offset < WORD ==>
                  (m.bias + vp * PAGE + offset) % WORD == s.host + offset)
  {
    hide MakeTag, Bias;
    assert L1Ok(c, rw, vp % L1);
    var s := c.l1[rw][vp % L1];
    if s.valid {
      TagFields(s.vp, s.mode, s.asn, s.host == 0, vp, mode, asn);
      if s.host + offset < WORD { BiasAdds(s.host, s.vp, offset); }
    } else {
      TagNotEmpty(vp, Key(mode, asn));
    }
  }

  lemma TagNotEmpty(vp: nat, key: nat)
    requires key < 0x1000
    ensures vp * PAGE + key != EMPTY_TAG
  {
    DivUnique(vp * PAGE + key, PAGE, vp, key);
  }

  lemma TagFields(vp: nat, mode: nat, asn: nat, mmio: bool, vp': nat, mode': nat, asn': nat)
    requires mode < 4 && asn < 256 && mode' < 4 && asn' < 256
    ensures MakeTag(vp, mode, asn, mmio) == vp' * PAGE + Key(mode', asn') <==>
            vp == vp' && mode == mode' && asn == asn' && !mmio
  {
    var low := Key(mode, asn) + (if mmio then 0x1000 else 0);
    DivUnique(MakeTag(vp, mode, asn, mmio), PAGE, vp, low);
    DivUnique(vp' * PAGE + Key(mode', asn'), PAGE, vp', Key(mode', asn'));
  }

  lemma BiasAdds(host: nat, vp: nat, offset: nat)
    requires vp * PAGE < WORD && host + offset < WORD
    ensures (Bias(host, vp) + vp * PAGE + offset) % WORD == host + offset
  {
    var base := vp * PAGE;
    assert base % WORD == base;
  }
}

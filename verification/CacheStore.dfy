/** The data page cache as the processor keeps it, its slots overwritten in place. Each method's new
    state is a function of PageCache on the old one. */
module CacheStore {
  import opened PageCache

  class Levels {
    // Read and write rows.
    const l1: array<Slot>
    const l1w: array<Slot>
    const mirror: array<Mirror>
    const mirrorw: array<Mirror>
    const l2: array<Slot>
    const l2w: array<Slot>
    var gen: nat

    ghost const Repr: set<object>

    ghost predicate Sizes()
      reads this
    {
      && Repr == {this, l1, l1w, mirror, mirrorw, l2, l2w}
      && l1 != l1w && l1 != l2 && l1 != l2w && l1w != l2 && l1w != l2w && l2 != l2w && mirror != mirrorw
      && l1.Length == l1w.Length == mirror.Length == mirrorw.Length == L1 && l2.Length == l2w.Length == L2
      && 0 < gen < GENERATIONS
    }

    ghost function View(): (c: Cache)
      requires Sizes()
      reads this, Repr
      ensures CacheShape(c)
    {
      Cache([l1[..], l1w[..]], [mirror[..], mirrorw[..]], [l2[..], l2w[..]], gen)
    }

    /** Both levels empty. */
    constructor ()
      ensures Sizes() && fresh(Repr)
      ensures forall rw, i :: 0 <= rw < 2 && 0 <= i < L1 ==>
                !View().l1[rw][i].valid && View().l1[rw][i].tag == EMPTY_TAG
                   && View().mirror[rw][i] == Synced(View().l1[rw][i])
      ensures forall rw, i :: 0 <= rw < 2 && 0 <= i < L2 ==> !View().l2[rw][i].valid
    {
      l1 := new Slot[L1](_ => Slot(EMPTY_TAG, 0, 0, 0, 0, 0, 0, false, 0));
      l1w := new Slot[L1](_ => Slot(EMPTY_TAG, 0, 0, 0, 0, 0, 0, false, 0));
      mirror := new Mirror[L1](_ => Mirror(EMPTY_TAG, 0));
      mirrorw := new Mirror[L1](_ => Mirror(EMPTY_TAG, 0));
      l2 := new Slot[L2](_ => Slot(EMPTY_TAG, 0, 0, 0, 0, 0, 0, false, 0));
      l2w := new Slot[L2](_ => Slot(EMPTY_TAG, 0, 0, 0, 0, 0, 0, false, 0));
      gen := 1;
      Repr := {this, l1, l1w, mirror, mirrorw, l2, l2w};
    }

    /** The tables of one row. */
    function RowL1(rw: nat): array<Slot> { if rw == 0 then l1 else l1w }
    function RowMirror(rw: nat): array<Mirror> { if rw == 0 then mirror else mirrorw }
    function RowL2(rw: nat): array<Slot> { if rw == 0 then l2 else l2w }

    /** A level 1 slot written, with its mirror (dpc_sync). */
    method SetL1(rw: nat, i: nat, s: Slot)
      requires Sizes() && rw < 2 && i < L1
      modifies RowL1(rw), RowMirror(rw)
      ensures Sizes()
      ensures View() == old(View()).(l1 := old(View()).l1[rw := old(View()).l1[rw][i := s]],
                                     mirror := old(View()).mirror[rw := old(View()).mirror[rw][i := Synced(s)]])
    {
      RowL1(rw)[i] := s;
      RowMirror(rw)[i] := Synced(s);
    }

    method SetL2(rw: nat, i: nat, s: Slot)
      requires Sizes() && rw < 2 && i < L2
      modifies RowL2(rw)
      ensures Sizes()
      ensures View() == old(View()).(l2 := old(View()).l2[rw := old(View()).l2[rw][i := s]])
    {
      RowL2(rw)[i] := s;
    }

    /** A fill of both levels (SDataPageCache::fill, dpc_l2_put). */
    method FillBoth(rw: nat, vp: nat, phys: nat, host: nat, mode: nat, asn: nat)
      requires Sizes() && rw < 2
      modifies Repr
      ensures Sizes() && View() == Fill(old(View()), rw, vp, phys, host, mode, asn)
    {
      hide Filled, Synced;
      var s := Filled(RowL1(rw)[vp % L1], vp, phys, host, mode, asn);
      SetL1(rw, vp % L1, s);
      SetL2(rw, vp % L2, s.(gen := gen));
    }

    /** dpc_promote. */
    method TryPromote(rw: nat, vp: nat, mode: nat, asn: nat) returns (ok: bool)
      requires Sizes() && rw < 2
      modifies Repr
      ensures Sizes() && ok == Promotes(old(View()), rw, vp, mode, asn)
      ensures View() == if ok then Promote(old(View()), rw, vp) else old(View())
    {
      var s := RowL2(rw)[vp % L2];
      if !(s.valid && s.gen == gen && s.vp == vp && s.mode == mode && s.asn == asn) {
        return false;
      }
      SetL1(rw, vp % L1, s);
      ok := true;
    }

    method InvalidateRow(a: array<Slot>)
      requires a.Length > 0
      modifies a
      ensures a[..] == InvalidRow(old(a[..]))
    {
      forall i | 0 <= i < a.Length {
        a[i] := Invalid(a[i]);
      }
    }

    method EmptyMirror(a: array<Mirror>)
      modifies a
      ensures a[..] == EmptyTags(old(a[..]))
    {
      forall i | 0 <= i < a.Length {
        a[i] := a[i].(tag := EMPTY_TAG);
      }
    }

    /** flush_data_page_cache. */
    method Flush()
      requires Sizes()
      modifies Repr
      ensures Sizes() && View() == FlushAll(old(View()))
    {
      hide InvalidRow, EmptyTags;
      InvalidateRow(l1);
      InvalidateRow(l1w);
      EmptyMirror(mirror);
      EmptyMirror(mirrorw);
      gen := gen + 1;
      if gen == GENERATIONS {
        InvalidateRow(l2);
        InvalidateRow(l2w);
        gen := 1;
      }
    }

    method FlushRow(rw: nat, v: nat, keep: bool)
      requires Sizes() && rw < 2
      modifies Repr
      ensures Sizes() && View() == FlushPageRow(old(View()), rw, v, keep)
    {
      hide SamePage, Invalid;
      var s1, s2 := RowL1(rw)[v % L1], RowL2(rw)[v % L2];
      if !keep || SamePage(s1.vp, v) {
        SetL1(rw, v % L1, Invalid(s1));
      }
      if !keep || SamePage(s2.vp, v) {
        SetL2(rw, v % L2, Invalid(s2));
      }
      ghost var c := old(View());
      Unchanged(c.l1, rw, v % L1);
      Unchanged(c.mirror, rw, v % L1);
      Unchanged(c.l2, rw, v % L2);
    }

    /** flush_data_page_cache_range. */
    method FlushPages(v: nat, size: nat, keep: bool)
      requires Sizes()
      modifies Repr
      ensures Sizes() && View() == FlushRange(old(View()), v, size, keep)
    {
      hide FlushAll, FlushPageRow;
      if size != 0 {
        Flush();
        return;
      }
      FlushRow(0, v, keep);
      FlushRow(1, v, keep);
    }
  }

  /** Writing an element's own value back changes nothing. */
  lemma Unchanged<T>(rows: seq<seq<T>>, rw: nat, i: nat)
    requires rw < |rows| && i < |rows[rw]|
    ensures rows[rw := rows[rw][i := rows[rw][i]]] == rows
  {
    assert rows[rw][i := rows[rw][i]] == rows[rw];
  }
}

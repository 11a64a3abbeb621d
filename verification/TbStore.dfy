/** A translation buffer as the processor keeps it, its tables updated in place. Each method's new
    state is a function of TbIndex or TbSearch on the old one. */
module TbStore {
  import opened TbIndex
  import opened TbSearch
  import DataTb

  /** One set's ways within the flat table. */
  ghost function RowAt(w: seq<nat>, s: nat): seq<nat>
    requires |w| == SETS * WAYS && s < SETS
  {
    w[s * WAYS..s * WAYS + WAYS]
  }

  ghost function RowsOf(w: seq<nat>): (r: seq<seq<nat>>)
    requires |w| == SETS * WAYS
    ensures |r| == SETS && forall s :: 0 <= s < SETS ==> r[s] == RowAt(w, s)
  {
    seq(SETS, s requires 0 <= s < SETS => RowAt(w, s))
  }

  /** The table with one row replaced. */
  ghost predicate RowReplaced(w: seq<nat>, w': seq<nat>, s: nat, row: seq<nat>)
    requires |w| == SETS * WAYS && s < SETS && |row| == WAYS
  {
    && |w'| == |w|
    && (forall i :: 0 <= i < |w| && !(s * WAYS <= i < s * WAYS + WAYS) ==> w'[i] == w[i])
    && w'[s * WAYS..s * WAYS + WAYS] == row
  }

  lemma RowReplacedRows(w: seq<nat>, w': seq<nat>, s: nat, row: seq<nat>)
    requires |w| == SETS * WAYS && s < SETS && |row| == WAYS && RowReplaced(w, w', s, row)
    ensures RowsOf(w') == RowsOf(w)[s := row]
  {
    forall t | 0 <= t < SETS && t != s
      ensures RowAt(w', t) == RowAt(w, t)
    {
      RowsApart(s, t);
    }
  }

  lemma RowsApart(s: nat, t: nat)
    requires s != t
    ensures s * WAYS + WAYS <= t * WAYS || t * WAYS + WAYS <= s * WAYS
  {
  }

  /** Slide the k elements at b one place down. */
  method SlideDown(w: array<nat>, b: nat, k: nat)
    requires b + k < w.Length
    modifies w
    ensures forall i :: 0 <= i < w.Length ==> w[i] == if b < i <= b + k then old(w[i - 1]) else old(w[i])
  {
    var j := b + k;
    while j > b
      invariant b <= j <= b + k
      invariant forall i :: 0 <= i < w.Length ==> w[i] == if j < i <= b + k then old(w[i - 1]) else old(w[i])
    {
      w[j] := w[j - 1];
      j := j - 1;
    }
  }

  /** Slide the elements from b + 1 to e one place up. */
  method SlideUp(w: array<nat>, b: nat, e: nat)
    requires b <= e < w.Length
    modifies w
    ensures forall i :: 0 <= i < w.Length ==> w[i] == if b <= i < e then old(w[i + 1]) else old(w[i])
  {
    var j := b;
    while j < e
      invariant b <= j <= e
      invariant forall i :: 0 <= i < w.Length ==> w[i] == if b <= i < j then old(w[i + 1]) else old(w[i])
    {
      w[j] := w[j + 1];
      j := j + 1;
    }
  }

  lemma InsertWayAt(w: seq<nat>, v: nat, i: nat)
    requires |w| == WAYS && i < WAYS
    ensures var k := Stop(w, v, 0);
            |InsertWay(w, v)| == WAYS && InsertWay(w, v)[i] == if i == 0 then v else if i <= k then w[i - 1] else w[i]
  {
  }

  lemma RemoveWayAt(w: seq<nat>, v: nat, i: nat)
    requires |w| == WAYS && i < WAYS
    ensures var k := PositionFrom(w, v, 0);
            |RemoveWay(w, v)| == WAYS
            && RemoveWay(w, v)[i] == if k == WAYS || i < k then w[i] else if i < WAYS - 1 then w[i + 1] else 0
  {
  }

  /** Where an insertion of v into the set's row stops. */
  method StopIn(w: array<nat>, s: nat, v: nat) returns (k: nat)
    requires w.Length == SETS * WAYS && s < SETS
    ensures k == Stop(RowAt(w[..], s), v, 0)
  {
    ghost var row := RowAt(w[..], s);
    k := 0;
    while k < WAYS - 1 && w[s * WAYS + k] != v && w[s * WAYS + k] != 0
      invariant 0 <= k < WAYS && Stop(row, v, 0) == Stop(row, v, k)
    {
      k := k + 1;
    }
  }

  /** The way of the set's row that holds v, or WAYS. */
  method PositionIn(w: array<nat>, s: nat, v: nat) returns (k: nat)
    requires w.Length == SETS * WAYS && s < SETS
    ensures k == PositionFrom(RowAt(w[..], s), v, 0)
  {
    ghost var row := RowAt(w[..], s);
    k := 0;
    while k < WAYS && w[s * WAYS + k] != v
      invariant 0 <= k <= WAYS && PositionFrom(row, v, 0) == PositionFrom(row, v, k)
    {
      k := k + 1;
    }
  }

  /** tb_idx_insert on the set's row. */
  method InsertInRow(w: array<nat>, s: nat, v: nat) returns (fell: bool)
    requires w.Length == SETS * WAYS && s < SETS
    modifies w
    ensures |InsertWay(RowAt(old(w[..]), s), v)| == WAYS
    ensures RowReplaced(old(w[..]), w[..], s, InsertWay(RowAt(old(w[..]), s), v))
    ensures fell == FallsOut(RowAt(old(w[..]), s), v)
  {
    var b := s * WAYS;
    ghost var before := w[..];
    var k := StopIn(w, s, v);
    fell := w[b + k] != v && w[b + k] != 0;
    assert before[b + k] == RowAt(before, s)[k];
    SlideDown(w, b, k);
    w[b] := v;
    hide InsertWay, Stop;
    RowInserted(before, w[..], s, v, k);
  }

  lemma RowInserted(before: seq<nat>, after: seq<nat>, s: nat, v: nat, k: nat)
    requires |before| == |after| == SETS * WAYS && s < SETS && k == Stop(RowAt(before, s), v, 0)
    requires after[s * WAYS] == v
    requires forall i :: s * WAYS < i <= s * WAYS + k ==> after[i] == before[i - 1]
    requires forall i :: 0 <= i < |after| && !(s * WAYS <= i <= s * WAYS + k) ==> after[i] == before[i]
    ensures |InsertWay(RowAt(before, s), v)| == WAYS
    ensures RowReplaced(before, after, s, InsertWay(RowAt(before, s), v))
  {
    hide InsertWay, Stop;
    var b, row, now := s * WAYS, RowAt(before, s), RowAt(after, s);
    forall i | 0 <= i < WAYS
      ensures |InsertWay(row, v)| == WAYS && now[i] == InsertWay(row, v)[i]
    {
      InsertWayAt(row, v, i);
      assert row[i] == before[b + i];
      if i > 0 { assert row[i - 1] == before[b + i - 1]; }
    }
    assert now == InsertWay(row, v);
  }

  /** tb_idx_remove on the set's row. */
  method RemoveFromRow(w: array<nat>, s: nat, v: nat)
    requires w.Length == SETS * WAYS && s < SETS
    modifies w
    ensures |RemoveWay(RowAt(old(w[..]), s), v)| == WAYS
    ensures RowReplaced(old(w[..]), w[..], s, RemoveWay(RowAt(old(w[..]), s), v))
  {
    var b := s * WAYS;
    ghost var before := w[..];
    var k := PositionIn(w, s, v);
    if k < WAYS {
      SlideUp(w, b + k, b + WAYS - 1);
      w[b + WAYS - 1] := 0;
    }
    hide RemoveWay, PositionFrom;
    RowRemoved(before, w[..], s, v, k);
  }

  lemma RowRemoved(before: seq<nat>, after: seq<nat>, s: nat, v: nat, k: nat)
    requires |before| == |after| == SETS * WAYS && s < SETS && k == PositionFrom(RowAt(before, s), v, 0)
    requires k == WAYS ==> after == before
    requires k < WAYS ==> after[s * WAYS + WAYS - 1] == 0
    requires k < WAYS ==> forall i :: s * WAYS + k <= i < s * WAYS + WAYS - 1 ==> after[i] == before[i + 1]
    requires forall i :: 0 <= i < |after| && !(s * WAYS + k <= i < s * WAYS + WAYS) ==> after[i] == before[i]
    ensures |RemoveWay(RowAt(before, s), v)| == WAYS
    ensures RowReplaced(before, after, s, RemoveWay(RowAt(before, s), v))
  {
    hide RemoveWay, PositionFrom;
    var b, row, now := s * WAYS, RowAt(before, s), RowAt(after, s);
    forall i | 0 <= i < WAYS
      ensures |RemoveWay(row, v)| == WAYS && now[i] == RemoveWay(row, v)[i]
    {
      RemoveWayAt(row, v, i);
      assert row[i] == before[b + i];
      if i < WAYS - 1 { assert row[i + 1] == before[b + i + 1]; }
    }
    RemoveWayAt(row, v, 0);
    assert now == RemoveWay(row, v);
  }

  class Table {
    const es: array<Entry>
    const ways: array<nat> // by set and way: slot + 1, 0 empty
    const lost: array<bool>
    const last: array<nat>
    var large: int
    var next: nat

    ghost const Repr: set<object>

    ghost predicate Sizes()
      reads this
    {
      && Repr == {this, es, ways, lost, last} && ways != last
      && es.Length == ENTRIES && ways.Length == SETS * WAYS && lost.Length == SETS && last.Length == 2
    }

    ghost predicate Valid()
      reads this, Repr
    {
      Sizes() && TbShape(View())
    }

    ghost function IndexView(): Index
      requires Sizes()
      reads this, Repr
    {
      Index(RowsOf(ways[..]), lost[..], large)
    }

    ghost function View(): Tb
      requires Sizes()
      reads this, Repr
    {
      Tb(es[..], IndexView(), next, last[..])
    }

    /** The reset state: nothing valid, nothing indexed. */
    constructor ()
      ensures Valid() && fresh(Repr)
      ensures View().ix == EmptyIndex() && next == 0
      ensures forall i :: 0 <= i < ENTRIES ==>
                View().es[i] == Entry(false, 0, false, 0, 0, false, Pte(0, {}, {}), false, 0)
    {
      es := new Entry[ENTRIES](_ => Entry(false, 0, false, 0, 0, false, Pte(0, {}, {}), false, 0));
      ways := new nat[SETS * WAYS](_ => 0);
      lost := new bool[SETS](_ => false);
      last := new nat[2](_ => 0);
      large, next := 0, 0;
      Repr := {this, es, ways, lost, last};
      new;
      EmptyRows(ways[..]);
      assert lost[..] == EmptyIndex().lost;
    }

    /** tb_idx_insert. */
    method IdxInsert(v: nat, slot: nat)
      requires Valid() && slot < ENTRIES
      modifies ways, lost
      ensures Valid() && View() == old(View()).(ix := Insert(old(IndexView()), v, slot))
    {
      hide InsertWay, FallsOut, RowsOf;
      var s := SetOf(v);
      ghost var before := ways[..];
      var fell := InsertInRow(ways, s, slot + 1);
      RowReplacedRows(before, ways[..], s, InsertWay(RowAt(before, s), slot + 1));
      if fell {
        lost[s] := true;
      }
      assert View() == old(View()).(ix := Insert(old(IndexView()), v, slot));
    }

    /** tb_idx_remove. */
    method IdxRemove(v: nat, slot: nat)
      requires Valid() && slot < ENTRIES
      modifies ways
      ensures Valid() && View() == old(View()).(ix := Remove(old(IndexView()), v, slot))
    {
      hide RemoveWay, RowsOf;
      var s := SetOf(v);
      ghost var before := ways[..];
      RemoveFromRow(ways, s, slot + 1);
      RowReplacedRows(before, ways[..], s, RemoveWay(RowAt(before, s), slot + 1));
      assert View() == old(View()).(ix := Remove(old(IndexView()), v, slot));
    }

    /** tb_idx_drop, for the entry e the slot held. */
    method IdxDrop(e: Entry, slot: nat)
      requires Valid() && slot < ENTRIES
      modifies `large, ways
      ensures Valid() && View() == old(View()).(ix := Drop(old(IndexView()), e, slot))
    {
      if e.size == 0 {
        IdxRemove(e.page, slot);
      } else {
        large := large - 1;
      }
    }

    /** tb_idx_add, for the entry e the slot now holds. */
    method IdxAdd(e: Entry, slot: nat)
      requires Valid() && slot < ENTRIES
      modifies `large, ways, lost
      ensures Valid() && View() == old(View()).(ix := Add(old(IndexView()), e, slot))
    {
      if e.size == 0 {
        IdxInsert(e.page, slot);
      } else {
        large := large + 1;
      }
    }

    // ---- FindTBEntry ---------------------------------------------------------------------------

    /** The scan over the slots. */
    method ScanSlots(v: nat, asn: nat) returns (i: int)
      requires Valid()
      ensures i == Scan(View().es, v, asn, 0)
    {
      var j := 0;
      while j < ENTRIES
        invariant 0 <= j <= ENTRIES && Scan(es[..], v, asn, 0) == Scan(es[..], v, asn, j)
      {
        if Hit(es[j], v, asn) {
          return j;
        }
        j := j + 1;
      }
      i := -1;
    }

    /** The probe of the set's ways. */
    method ProbeWays(v: nat, asn: nat) returns (i: int)
      requires Valid()
      ensures i == Probe(View().es, View().ix.rows[SetOf(v)], v, asn, 0)
    {
      var s := SetOf(v);
      ghost var row := View().ix.rows[s];
      var k := 0;
      while k < WAYS && ways[s * WAYS + k] != 0
        invariant 0 <= k <= WAYS && Probe(es[..], row, v, asn, 0) == Probe(es[..], row, v, asn, k)
      {
        assert row[k] == ways[s * WAYS + k];
        i := ways[s * WAYS + k] - 1;
        if Hit(es[i], v, asn) {
          return;
        }
        k := k + 1;
      }
      assert k < WAYS ==> row[k] == ways[s * WAYS + k];
      i := -1;
    }

    /** FindTBEntry, up to the shadow. */
    method Search(v: nat, asn: nat, rw: nat) returns (i: int)
      requires Valid() && rw < 2
      modifies ways, lost, last
      ensures Valid() && (i, View()) == Find(old(View()), v, asn, rw)
    {
      hide Scan, Probe, Insert;
      i := last[rw];
      if Hit(es[i], v, asn) {
        return;
      }
      if large == 0 {
        i := ProbeWays(v, asn);
        if i == -1 && lost[SetOf(v)] {
          i := ScanSlots(v, asn);
          if i != -1 {
            IdxInsert(es[i].page, i);
          }
        }
      } else {
        i := ScanSlots(v, asn);
      }
      if i != -1 {
        last[rw] := i;
      }
      assert (i, View()) == Find(old(View()), v, asn, rw);
    }

    // ---- Entries leaving and entering ----------------------------------------------------------

    /** A slot overwritten, the index left as it is. */
    method SetEntry(slot: nat, e: Entry)
      requires Valid() && slot < ENTRIES
      modifies es
      ensures Valid() && View() == old(View()).(es := old(es[..])[slot := e])
    {
      es[slot] := e;
    }

    /** Every slot invalidated, the index left as it is. */
    method ForgetEntries()
      requires Valid()
      modifies es
      ensures Valid() && View() == old(View()).(es := DataTb.KillEntries(old(es[..]), DataTb.Every()))
    {
      hide RowsOf;
      forall i | 0 <= i < ENTRIES {
        es[i] := es[i].(valid := false);
      }
      assert ways[..] == old(ways[..]) && lost[..] == old(lost[..]) && last[..] == old(last[..]);
      assert es[..] == DataTb.KillEntries(old(es[..]), DataTb.Every());
    }

    /** Valid set from the group, in every slot. */
    method RegroupEntries(g: nat)
      requires Valid()
      modifies es
      ensures Valid() && View() == old(View()).(es := DataTb.Regroup(old(es[..]), g))
    {
      hide RowsOf;
      forall i | 0 <= i < ENTRIES {
        es[i] := es[i].(valid := es[i].present && es[i].grp == g);
      }
      assert ways[..] == old(ways[..]) && lost[..] == old(lost[..]) && last[..] == old(last[..]);
      assert es[..] == DataTb.Regroup(old(es[..]), g);
    }

    /** No slot present in any group. */
    method RemoveAll()
      requires Valid()
      modifies es
      ensures Valid() && View() == old(View()).(es := DataTb.NoneIn(old(es[..])))
    {
      hide RowsOf;
      forall i | 0 <= i < ENTRIES {
        es[i] := es[i].(present := false, grp := 0);
      }
      assert ways[..] == old(ways[..]) && lost[..] == old(lost[..]) && last[..] == old(last[..]);
      assert es[..] == DataTb.NoneIn(old(es[..]));
    }

    /** The pass of tbiap and DTB_IM. */
    method SweepSlots(kill: Kill, ev8: bool)
      requires Valid()
      modifies this, es, ways
      ensures Valid()
      ensures var (es', ix') := Sweep(old(es[..]), old(IndexView()), kill, ev8, 0);
              View() == old(View()).(es := es', ix := ix')
    {
      hide Drop, Gone;
      ghost var final := Sweep(es[..], IndexView(), kill, ev8, 0);
      var i := 0;
      while i < ENTRIES
        invariant 0 <= i <= ENTRIES && Valid()
        invariant Sweep(es[..], IndexView(), kill, ev8, i) == final
        invariant next == old(next) && last[..] == old(last[..])
      {
        var e := es[i];
        if kill(e) {
          SetEntry(i, Gone(e, ev8));
          if e.valid {
            IdxDrop(e, i);
          }
        }
        i := i + 1;
      }
    }

    /** tb_idx_rebuild. */
    method RebuildIndex()
      requires Valid()
      modifies this, ways, lost
      ensures Valid() && View() == old(View()).(ix := Rebuild(old(es[..]), EmptyIndex(), 0))
    {
      hide Add;
      ClearIndex();
      ghost var final := Rebuild(es[..], EmptyIndex(), 0);
      var i := 0;
      while i < ENTRIES
        invariant 0 <= i <= ENTRIES && Valid()
        invariant Rebuild(es[..], IndexView(), i) == final
        invariant next == old(next) && last[..] == old(last[..])
      {
        if es[i].valid {
          IdxAdd(es[i], i);
        }
        i := i + 1;
      }
    }

    /** The index emptied. */
    method ClearIndex()
      requires Valid()
      modifies `large, ways, lost
      ensures Valid() && View() == old(View()).(ix := EmptyIndex())
    {
      forall i | 0 <= i < SETS * WAYS {
        ways[i] := 0;
      }
      forall s | 0 <= s < SETS {
        lost[s] := false;
      }
      large := 0;
      EmptyRows(ways[..]);
      assert lost[..] == EmptyIndex().lost;
    }
  }

  lemma EmptyRows(w: seq<nat>)
    requires |w| == SETS * WAYS && forall i :: 0 <= i < |w| ==> w[i] == 0
    ensures RowsOf(w) == EmptyIndex().rows
  {
    forall s | 0 <= s < SETS
      ensures RowAt(w, s) == EMPTY_ROW
    {
    }
  }
}

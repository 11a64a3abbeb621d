/** The translation buffer's entries and its exact index (src/cpu/AlphaCPU.hpp, tb_idx_insert and
    tb_idx_remove; src/cpu/AlphaCPU.cpp, tb_idx_drop, tb_idx_add, tb_idx_rebuild): which slot holds
    each 8 KB page, eight ways to a set, with a mark on a set that overflowed. */
module TbIndex {
  import Bits

  const ENTRIES: nat := 128
  const SETS: nat := 2048
  const WAYS: nat := 8

  // Addresses are virtual page numbers, VA<63:13>.

  /** The bits an entry's match mask covers: VA<47:13>, or on the native EV8 VA<51:13>. */
  function Field(v: nat, wide: bool): nat {
    if wide then v % 0x80_0000_0000 else v % 0x8_0000_0000
  }

  /** A granularity hint drops three more page bits from the match for each step: 8^size pages. */
  function Pages(size: nat): (n: nat)
    ensures n >= 1
  {
    if size == 0 then 1 else 8 * Pages(size - 1)
  }

  function Tag(v: nat, wide: bool, size: nat): nat {
    var n := Pages(size);
    Bits.NatQuotient(Field(v, wide), n);
    Field(v, wide) / n
  }

  function Align(v: nat, wide: bool, size: nat): nat {
    Tag(v, wide, size) * Pages(size)
  }

  /** The physical page and the protection of a PTE: the (write, mode) pairs allowed, and the
      accesses (write or not) that fault. */
  datatype Pte = Pte(phys: nat, access: set<(bool, nat)>, fault: set<bool>) {
    predicate Permits(write: bool, mode: nat) {
      (write, mode) in access && write !in fault
    }
  }

  /** An entry; page is its address with the bits outside the match mask clear. present and grp are
      the native EV8's: valid is then "present and of the current TPU group". */
  datatype Entry = Entry(valid: bool, page: nat, wide: bool, size: nat, asn: nat, asmBit: bool, pte: Pte,
                         present: bool, grp: nat)

  predicate Matches(e: Entry, v: nat, asn: nat) {
    Tag(e.page, e.wide, e.size) == Tag(v, e.wide, e.size) && (e.asmBit || e.asn == asn)
  }

  /** What FindTBEntry accepts. */
  predicate Hit(e: Entry, v: nat, asn: nat) {
    e.valid && Matches(e, v, asn)
  }

  function SetOf(v: nat): (s: nat)
    ensures s < SETS
  {
    v % SETS
  }

  /** An 8 KB entry matches pages of its own set only. */
  lemma HitSet(e: Entry, v: nat, asn: nat)
    requires Matches(e, v, asn) && e.size == 0
    ensures SetOf(e.page) == SetOf(v)
    ensures e.page % 4096 == v % 4096 && e.page % 256 == v % 256 && e.page % 16384 == v % 16384
  {
    assert Field(e.page, e.wide) == Field(v, e.wide);
    FieldLow(e.page, e.wide);
    FieldLow(v, e.wide);
  }

  lemma FieldLow(v: nat, wide: bool)
    ensures Field(v, wide) % 16384 == v % 16384 && Field(v, wide) % 4096 == v % 4096
    ensures Field(v, wide) % SETS == v % SETS && Field(v, wide) % 256 == v % 256
  {
    var m := if wide then 0x200_0000 else 0x20_0000;
    ModMod(v, 16384, m);
    ModMod(Field(v, wide), 4096, 4);
    ModMod(v, 4096, 4);
    ModMod(Field(v, wide), SETS, 8);
    ModMod(v, SETS, 8);
    ModMod(Field(v, wide), 256, 64);
    ModMod(v, 256, 64);
  }

  lemma ModMod(v: nat, c: nat, m: nat)
    requires c > 0 && m > 0
    ensures c * m > 0 && (v % (c * m)) % c == v % c
  {
    Bits.DivDiv(v, c, m);
    Bits.DivUnique(v % (c * m), c, (v / c) % m, v % c);
  }

  // ---- One set's ways --------------------------------------------------------------------------

  /** Ways hold slot + 1, packed from the front, none twice. */
  ghost predicate RowOk(w: seq<nat>) {
    && |w| == WAYS
    && (forall i, j :: 0 <= i < j < WAYS && w[i] == 0 ==> w[j] == 0)
    && (forall i, j :: 0 <= i < j < WAYS && w[i] != 0 ==> w[i] != w[j])
  }

  /** Where an insertion stops: at the slot itself, the first empty way, or the last one. */
  function Stop(w: seq<nat>, v: nat, k: nat): (r: nat)
    requires |w| == WAYS && k < WAYS
    ensures k <= r < WAYS
    ensures forall i :: k <= i < r ==> w[i] != v && w[i] != 0
    ensures r < WAYS - 1 ==> w[r] == v || w[r] == 0
    decreases WAYS - k
  {
    if k < WAYS - 1 && w[k] != v && w[k] != 0 then Stop(w, v, k + 1) else k
  }

  /** tb_idx_insert: the slot goes to way 0, the others slide down to where it stopped. */
  function InsertWay(w: seq<nat>, v: nat): seq<nat>
    requires |w| == WAYS
  {
    var k := Stop(w, v, 0);
    [v] + w[..k] + w[k + 1..]
  }

  /** The last way was another's: it falls out. */
  predicate FallsOut(w: seq<nat>, v: nat)
    requires |w| == WAYS
  {
    var k := Stop(w, v, 0);
    w[k] != v && w[k] != 0
  }

  lemma InsertWayOk(w: seq<nat>, v: nat)
    requires RowOk(w) && v != 0
    ensures RowOk(InsertWay(w, v))
    ensures InsertWay(w, v)[0] == v && v in InsertWay(w, v)
    ensures forall x :: x in InsertWay(w, v) ==> x == v || x in w
    ensures !FallsOut(w, v) ==> forall x :: x != 0 && x in w ==> x in InsertWay(w, v)
    ensures FallsOut(w, v) ==> w[WAYS - 1] != 0 && w[WAYS - 1] !in InsertWay(w, v)
  {
    var k := Stop(w, v, 0);
    var n := InsertWay(w, v);
    assert forall i :: k < i < WAYS ==> w[i] != v;
    assert |n| == WAYS && n[0] == v;
    assert forall i :: 1 <= i <= k ==> n[i] == w[i - 1];
    assert forall i :: k < i < WAYS ==> n[i] == w[i];
    InsertMembers(w, v, k, n);
    if FallsOut(w, v) {
      assert k == WAYS - 1;
      assert forall i :: 0 <= i < WAYS ==> n[i] != w[k];
    }
  }

  lemma InsertMembers(w: seq<nat>, v: nat, k: nat, n: seq<nat>)
    requires |w| == |n| == WAYS && k < WAYS && n[0] == v
    requires forall i :: 1 <= i <= k ==> n[i] == w[i - 1]
    requires forall i :: k < i < WAYS ==> n[i] == w[i]
    ensures forall x :: x in n ==> x == v || x in w
    ensures w[k] == v || w[k] == 0 ==> forall x :: x != 0 && x in w ==> x in n
  {
    forall x | x != 0 && x in w && (w[k] == v || w[k] == 0)
      ensures x in n
    {
      var i :| 0 <= i < WAYS && w[i] == x;
      if i < k { assert n[i + 1] == x; } else if i > k { assert n[i] == x; }
    }
  }

  function PositionFrom(w: seq<nat>, v: nat, k: nat): (r: nat)
    requires k <= |w|
    ensures k <= r <= |w|
    ensures forall i :: k <= i < r ==> w[i] != v
    ensures r < |w| ==> w[r] == v
    decreases |w| - k
  {
    if k < |w| && w[k] != v then PositionFrom(w, v, k + 1) else k
  }

  /** tb_idx_remove: the first way holding the slot leaves, the rest slide up. */
  function RemoveWay(w: seq<nat>, v: nat): seq<nat>
    requires |w| == WAYS
  {
    var k := PositionFrom(w, v, 0);
    if k < |w| then w[..k] + w[k + 1..] + [0] else w
  }

  lemma RemoveWayOk(w: seq<nat>, v: nat)
    requires RowOk(w) && v != 0
    ensures RowOk(RemoveWay(w, v))
    ensures forall x :: x != 0 ==> (x in RemoveWay(w, v) <==> x in w && x != v)
  {
    var k, n := PositionFrom(w, v, 0), RemoveWay(w, v);
    if k < WAYS {
      RemoveIndexes(w, v, k);
      hide RemoveWay, RowOk, PositionFrom;
      RemoveRow(w, k, n);
      RemoveMembers(w, k, n);
    }
  }

  lemma RemoveIndexes(w: seq<nat>, v: nat, k: nat)
    requires |w| == WAYS && k == PositionFrom(w, v, 0) < WAYS
    ensures var n := RemoveWay(w, v);
            && |n| == WAYS && n[WAYS - 1] == 0
            && (forall i :: 0 <= i < k ==> n[i] == w[i]) && (forall i :: k <= i < WAYS - 1 ==> n[i] == w[i + 1])
  {
    hide PositionFrom;
  }

  lemma RemoveRow(w: seq<nat>, k: nat, n: seq<nat>)
    requires RowOk(w) && |n| == WAYS && k < WAYS && n[WAYS - 1] == 0
    requires forall i :: 0 <= i < k ==> n[i] == w[i]
    requires forall i :: k <= i < WAYS - 1 ==> n[i] == w[i + 1]
    ensures RowOk(n)
  {
    forall i, j | 0 <= i < j < WAYS
      ensures (n[i] == 0 ==> n[j] == 0) && (n[i] != 0 ==> n[i] != n[j])
    {
      var wi, wj := if i < k then i else i + 1, if j < k then j else j + 1;
      if wj < WAYS { assert n[i] == w[wi] && n[j] == w[wj]; }
    }
  }

  lemma RemoveMembers(w: seq<nat>, k: nat, n: seq<nat>)
    requires RowOk(w) && |n| == WAYS && k < WAYS && n[WAYS - 1] == 0
    requires forall i :: 0 <= i < k ==> n[i] == w[i]
    requires forall i :: k <= i < WAYS - 1 ==> n[i] == w[i + 1]
    ensures forall x :: x != 0 ==> (x in n <==> x in w && x != w[k])
  {
    forall x | x != 0
      ensures x in n <==> x in w && x != w[k]
    {
      if x in n {
        var i :| 0 <= i < WAYS && n[i] == x;
        var from := if i < k then i else i + 1;
        assert w[from] == x && from != k;
        assert if from < k then w[from] != w[k] else w[k] == 0 || w[k] != w[from];
      }
      if x in w && x != w[k] {
        var i :| 0 <= i < WAYS && w[i] == x;
        if i < k { assert n[i] == x; } else { assert n[i - 1] == x; }
      }
    }
  }

  // ---- The index -------------------------------------------------------------------------------

  datatype Index = Index(rows: seq<seq<nat>>, lost: seq<bool>, large: int)

  /** A row's shape: eight ways, each empty or naming a slot. */
  predicate RowShape(w: seq<nat>) {
    |w| == WAYS && forall k :: 0 <= k < |w| ==> w[k] <= ENTRIES
  }

  predicate Shape(ix: Index) {
    |ix.rows| == SETS && |ix.lost| == SETS && forall s :: 0 <= s < SETS ==> RowShape(ix.rows[s])
  }

  const EMPTY_ROW: seq<nat> := [0, 0, 0, 0, 0, 0, 0, 0]

  function EmptyIndex(): Index {
    Index(seq(SETS, _ => EMPTY_ROW), seq(SETS, _ => false), 0)
  }

  lemma InsertWayShape(w: seq<nat>, v: nat)
    requires RowShape(w) && v <= ENTRIES
    ensures RowShape(InsertWay(w, v))
  {
    var k := Stop(w, v, 0);
    forall i | 0 <= i < WAYS
      ensures InsertWay(w, v)[i] <= ENTRIES
    {
      if 0 < i <= k { assert InsertWay(w, v)[i] == w[i - 1]; } else if k < i { assert InsertWay(w, v)[i] == w[i]; }
    }
  }

  function InsertInto(ix: Index, s: nat, v: nat): (r: Index)
    requires Shape(ix) && s < SETS && v <= ENTRIES
    ensures Shape(r)
  {
    var w := ix.rows[s];
    InsertWayShape(w, v);
    ix.(rows := ix.rows[s := InsertWay(w, v)], lost := if FallsOut(w, v) then ix.lost[s := true] else ix.lost)
  }

  function Insert(ix: Index, v: nat, slot: nat): (r: Index)
    requires Shape(ix) && slot < ENTRIES
    ensures Shape(r)
  {
    InsertInto(ix, SetOf(v), slot + 1)
  }

  function Remove(ix: Index, v: nat, slot: nat): (r: Index)
    requires Shape(ix)
    ensures Shape(r)
  {
    var s := SetOf(v);
    ix.(rows := ix.rows[s := RemoveWay(ix.rows[s], slot + 1)])
  }

  /** tb_idx_drop and tb_idx_add, for the entry e that leaves or enters a slot. */
  function Drop(ix: Index, e: Entry, slot: nat): (r: Index)
    requires Shape(ix) && slot < ENTRIES
    ensures Shape(r)
  {
    if e.size == 0 then Remove(ix, e.page, slot) else ix.(large := ix.large - 1)
  }

  function Add(ix: Index, e: Entry, slot: nat): (r: Index)
    requires Shape(ix) && slot < ENTRIES
    ensures Shape(r)
  {
    if e.size == 0 then Insert(ix, e.page, slot) else ix.(large := ix.large + 1)
  }

  ghost function LargeLive(es: seq<Entry>): set<nat> {
    set i | 0 <= i < |es| && es[i].valid && es[i].size != 0
  }

  predicate Live8K(e: Entry) { e.valid && e.size == 0 }

  /** Every way names a live 8 KB entry of its set. */
  ghost predicate Sound(ix: Index, es: seq<Entry>)
    requires Shape(ix)
  {
    forall s, v :: 0 <= s < SETS && v in ix.rows[s] && v != 0 ==>
      v <= |es| && Live8K(es[v - 1]) && SetOf(es[v - 1].page) == s
  }

  /** Every live 8 KB entry is in its set's ways, or the set is marked. */
  ghost predicate Complete(ix: Index, es: seq<Entry>)
    requires Shape(ix)
  {
    forall i :: 0 <= i < |es| && Live8K(es[i]) ==>
      i + 1 in ix.rows[SetOf(es[i].page)] || ix.lost[SetOf(es[i].page)]
  }

  /** The index is exact for the entries. */
  ghost predicate Exact(ix: Index, es: seq<Entry>) {
    && |es| == ENTRIES && Shape(ix)
    && (forall s :: 0 <= s < SETS ==> RowOk(ix.rows[s]))
    && Sound(ix, es)
    && Complete(ix, es)
    && ix.large == |LargeLive(es)|
  }

  lemma EmptyExact(es: seq<Entry>)
    requires |es| == ENTRIES && forall i :: 0 <= i < |es| ==> !es[i].valid
    ensures Exact(EmptyIndex(), es)
  {
    assert LargeLive(es) == {};
  }

  /** Moving an entry the index lost back to the front of its set. */
  lemma InsertExact(ix: Index, es: seq<Entry>, slot: nat)
    requires slot < |es| && Live8K(es[slot]) && Exact(ix, es)
    ensures Exact(Insert(ix, es[slot].page, slot), es)
  {
    InsertSoundComplete(ix, es, slot);
  }

  lemma InsertSoundComplete(ix: Index, es: seq<Entry>, slot: nat)
    requires |es| == ENTRIES && Shape(ix) && (forall s :: 0 <= s < SETS ==> RowOk(ix.rows[s]))
    requires slot < |es| && Live8K(es[slot]) && Sound(ix, es)
    requires forall i :: 0 <= i < |es| && i != slot && Live8K(es[i]) ==>
               i + 1 in ix.rows[SetOf(es[i].page)] || ix.lost[SetOf(es[i].page)]
    ensures var r := Insert(ix, es[slot].page, slot);
            && Sound(r, es) && Complete(r, es) && forall s :: 0 <= s < SETS ==> RowOk(r.rows[s])
  {
    hide InsertWay, FallsOut, SetOf;
    InsertWayOk(ix.rows[SetOf(es[slot].page)], slot + 1);
  }

  lemma AddExact(ix: Index, es: seq<Entry>, slot: nat, e: Entry)
    requires slot < |es| && !es[slot].valid && e.valid && Exact(ix, es)
    ensures Exact(Add(ix, e, slot), es[slot := e])
  {
    var es' := es[slot := e];
    if e.size == 0 {
      assert LargeLive(es') == LargeLive(es);
      InsertSoundComplete(ix, es', slot);
    } else {
      assert LargeLive(es') == LargeLive(es) + {slot};
    }
  }

  /** The way that names a live entry of an unmarked set, all ways before it in use. */
  lemma WayOf(ix: Index, es: seq<Entry>, i: nat) returns (k: nat)
    requires Exact(ix, es) && i < |es| && Live8K(es[i]) && !ix.lost[SetOf(es[i].page)]
    ensures k < WAYS && ix.rows[SetOf(es[i].page)][k] == i + 1
    ensures forall j :: 0 <= j <= k ==> ix.rows[SetOf(es[i].page)][j] != 0
  {
    hide LargeLive, Sound;
    var w := ix.rows[SetOf(es[i].page)];
    k :| 0 <= k < WAYS && w[k] == i + 1;
  }

  lemma RemoveSoundComplete(ix: Index, es: seq<Entry>, slot: nat, e: Entry)
    requires |es| == ENTRIES && Shape(ix) && (forall s :: 0 <= s < SETS ==> RowOk(ix.rows[s]))
    requires slot < |es| && Live8K(es[slot]) && !e.valid && Sound(ix, es) && Complete(ix, es)
    ensures var r := Remove(ix, es[slot].page, slot);
            && Sound(r, es[slot := e]) && Complete(r, es[slot := e]) && forall s :: 0 <= s < SETS ==> RowOk(r.rows[s])
  {
    hide RemoveWay, RowOk, RowShape, SetOf;
    var r, es', set0 := Remove(ix, es[slot].page, slot), es[slot := e], SetOf(es[slot].page);
    RemoveWayOk(ix.rows[set0], slot + 1);
    forall s, v | 0 <= s < SETS && v in r.rows[s] && v != 0
      ensures v <= |es'| && Live8K(es'[v - 1]) && SetOf(es'[v - 1].page) == s
    {
      assert v in ix.rows[s] && v != slot + 1;
    }
    forall i | 0 <= i < |es'| && Live8K(es'[i])
      ensures i + 1 in r.rows[SetOf(es'[i].page)] || r.lost[SetOf(es'[i].page)]
    {
      assert i != slot && es'[i] == es[i];
    }
  }

  /** A slot that held no live 8 KB entry and holds none does not matter to the index. */
  lemma Unindexed(ix: Index, es: seq<Entry>, slot: nat, e: Entry)
    requires |es| == ENTRIES && Shape(ix) && Sound(ix, es) && Complete(ix, es)
    requires slot < |es| && !Live8K(es[slot]) && !Live8K(e)
    ensures Sound(ix, es[slot := e]) && Complete(ix, es[slot := e])
  {
    hide SetOf, RowShape;
  }

  lemma LargeLeaves(es: seq<Entry>, slot: nat, e: Entry)
    requires slot < |es| && es[slot].valid && !e.valid
    ensures |LargeLive(es[slot := e])| == |LargeLive(es)| - if es[slot].size == 0 then 0 else 1
  {
    var es' := es[slot := e];
    if es[slot].size == 0 {
      assert LargeLive(es') == LargeLive(es);
    } else {
      assert LargeLive(es') == LargeLive(es) - {slot};
    }
  }

  lemma DropExact(ix: Index, es: seq<Entry>, slot: nat, e: Entry)
    requires slot < |es| && es[slot].valid && !e.valid && Exact(ix, es)
    ensures Exact(Drop(ix, es[slot], slot), es[slot := e])
  {
    hide LargeLive, RemoveWay, RowOk, Sound, Complete, SetOf;
    LargeLeaves(es, slot, e);
    if es[slot].size == 0 {
      RemoveSoundComplete(ix, es, slot, e);
    } else {
      Unindexed(ix, es, slot, e);
      UnindexedLarge(ix, ix.large - 1, es[slot := e]);
    }
  }

  lemma UnindexedLarge(ix: Index, large: int, es: seq<Entry>)
    requires |es| == ENTRIES && Shape(ix) && Sound(ix, es) && Complete(ix, es)
    ensures Sound(ix.(large := large), es) && Complete(ix.(large := large), es)
  {
    hide SetOf;
  }
}

/** One translation buffer: FindTBEntry's search, the sweeps that invalidate entries, and the
    rebuilding of the index (src/cpu/AlphaCPU.cpp; src/cpu/AlphaCPU_ev8.cpp). */
module TbSearch {
  import opened TbIndex

  /** The entries, the index, the round-robin pointer and the last slots found, by read and write. */
  datatype Tb = Tb(es: seq<Entry>, ix: Index, next: nat, last: seq<nat>)

  predicate TbShape(tb: Tb) {
    && |tb.es| == ENTRIES && Shape(tb.ix) && tb.next < ENTRIES
    && |tb.last| == 2 && tb.last[0] < ENTRIES && tb.last[1] < ENTRIES
  }

  ghost predicate TbOk(tb: Tb) {
    TbShape(tb) && Exact(tb.ix, tb.es)
  }

  // ---- The search ------------------------------------------------------------------------------

  ghost predicate Maps(es: seq<Entry>, v: nat, asn: nat) {
    exists i :: 0 <= i < |es| && Hit(es[i], v, asn)
  }

  /** The linear scan the index stands for: the first hit at or after j, or -1. */
  function Scan(es: seq<Entry>, v: nat, asn: nat, j: nat): (r: int)
    requires j <= |es|
    ensures r == -1 <==> forall i :: j <= i < |es| ==> !Hit(es[i], v, asn)
    ensures r != -1 ==> j <= r < |es| && Hit(es[r], v, asn)
    decreases |es| - j
  {
    if j == |es| then -1 else if Hit(es[j], v, asn) then j else Scan(es, v, asn, j + 1)
  }

  /** The probe of one set's ways, which stops at the first empty one. */
  function Probe(es: seq<Entry>, w: seq<nat>, v: nat, asn: nat, k: nat): (r: int)
    requires k <= |w| && RowShape(w) && |es| == ENTRIES
    ensures r != -1 ==> 0 <= r < |es| && Hit(es[r], v, asn) && r + 1 in w
    ensures r == -1 ==>
              forall i :: k <= i < |w| && (forall j :: k <= j <= i ==> w[j] != 0) ==> !Hit(es[w[i] - 1], v, asn)
    decreases |w| - k
  {
    if k == |w| || w[k] == 0 then -1
    else if Hit(es[w[k] - 1], v, asn) then w[k] - 1
    else Probe(es, w, v, asn, k + 1)
  }

  /** FindTBEntry, up to the shadow: the last slot found, then the index, a marked set's scan, or
      with large pages live the scan. */
  function Find(tb: Tb, v: nat, asn: nat, rw: nat): (r: (int, Tb))
    requires TbShape(tb) && rw < 2
    ensures TbShape(r.1) && r.1.es == tb.es && r.1.next == tb.next
    ensures -1 <= r.0 < ENTRIES
  {
    var hint := tb.last[rw];
    if Hit(tb.es[hint], v, asn) then (hint, tb)
    else if tb.ix.large == 0 then
      var i := Probe(tb.es, tb.ix.rows[SetOf(v)], v, asn, 0);
      if i != -1 then (i, tb.(last := tb.last[rw := i]))
      else if tb.ix.lost[SetOf(v)] then
        var j := Scan(tb.es, v, asn, 0);
        if j != -1 then (j, tb.(ix := Insert(tb.ix, tb.es[j].page, j), last := tb.last[rw := j]))
        else (-1, tb)
      else (-1, tb)
    else
      var j := Scan(tb.es, v, asn, 0);
      if j != -1 then (j, tb.(last := tb.last[rw := j])) else (-1, tb)
  }

  /** The search is exact: it finds a matching valid entry if and only if the linear scan has one. */
  lemma FindExact(tb: Tb, v: nat, asn: nat, rw: nat)
    requires TbOk(tb) && rw < 2
    ensures var (r, tb') := Find(tb, v, asn, rw);
            && TbOk(tb')
            && (r != -1 <==> Maps(tb.es, v, asn))
            && (r != -1 ==> Hit(tb.es[r], v, asn) && tb'.last == tb.last[rw := r])
            && (r != -1 <==> Scan(tb.es, v, asn, 0) != -1)
  {
    if !Hit(tb.es[tb.last[rw]], v, asn) && tb.ix.large == 0 {
      AllSmall(tb.es);
      var w := tb.ix.rows[SetOf(v)];
      if Probe(tb.es, w, v, asn, 0) == -1 {
        if tb.ix.lost[SetOf(v)] {
          var j := Scan(tb.es, v, asn, 0);
          if j != -1 { InsertExact(tb.ix, tb.es, j); }
        } else {
          ProbeComplete(tb, v, asn);
        }
      }
    }
  }

  /** Where only one entry matches, the search returns the one the linear scan does. */
  lemma FindUnique(tb: Tb, v: nat, asn: nat, rw: nat)
    requires TbOk(tb) && rw < 2
    requires forall i, j :: 0 <= i < j < ENTRIES ==> !(Hit(tb.es[i], v, asn) && Hit(tb.es[j], v, asn))
    ensures Find(tb, v, asn, rw).0 == Scan(tb.es, v, asn, 0)
  {
    FindExact(tb, v, asn, rw);
  }

  lemma AllSmall(es: seq<Entry>)
    requires |LargeLive(es)| == 0
    ensures forall i :: 0 <= i < |es| && es[i].valid ==> es[i].size == 0
  {
    forall i | 0 <= i < |es| && es[i].valid
      ensures es[i].size == 0
    {
      assert i !in LargeLive(es);
    }
  }

  lemma HitLive(e: Entry, v: nat, asn: nat)
    requires Hit(e, v, asn)
    ensures e.valid
  {
  }

  lemma ProbeComplete(tb: Tb, v: nat, asn: nat)
    requires TbOk(tb) && !tb.ix.lost[SetOf(v)]
    requires forall i :: 0 <= i < |tb.es| && tb.es[i].valid ==> tb.es[i].size == 0
    ensures Maps(tb.es, v, asn) ==> Probe(tb.es, tb.ix.rows[SetOf(v)], v, asn, 0) != -1
  {
    if Maps(tb.es, v, asn) {
      var i :| 0 <= i < |tb.es| && Hit(tb.es[i], v, asn);
      HitSet(tb.es[i], v, asn);
      hide Exact, Hit, Probe;
      assert Live8K(tb.es[i]) by { HitLive(tb.es[i], v, asn); }
      var k := WayOf(tb.ix, tb.es, i);
      assert tb.es[tb.ix.rows[SetOf(v)][k] - 1] == tb.es[i];
    }
  }

  // ---- Sweeps ----------------------------------------------------------------------------------

  /** An entry invalidated; on the native EV8 it is not present either. */
  function Gone(e: Entry, ev8: bool): Entry {
    if ev8 then e.(valid := false, present := false) else e.(valid := false)
  }

  /** What a pass selects. */
  type Kill = Entry -> bool

  /** One pass over the slots from i, invalidating the entries kill selects and dropping the valid
      ones from the index: tbiap, tbis_d, DTB_IM and DTB_IS. */
  function Sweep(es: seq<Entry>, ix: Index, kill: Kill, ev8: bool, i: nat): (r: (seq<Entry>, Index))
    requires |es| == ENTRIES && i <= |es| && Shape(ix)
    ensures |r.0| == |es| && Shape(r.1)
    decreases |es| - i
  {
    if i == |es| then (es, ix)
    else if kill(es[i]) then
      Sweep(es[i := Gone(es[i], ev8)], if es[i].valid then Drop(ix, es[i], i) else ix, kill, ev8, i + 1)
    else Sweep(es, ix, kill, ev8, i + 1)
  }

  lemma {:induction false} SweepExact(es: seq<Entry>, ix: Index, kill: Kill, ev8: bool, i: nat)
    requires i <= |es| && Exact(ix, es)
    ensures var (es', ix') := Sweep(es, ix, kill, ev8, i);
            && Exact(ix', es')
            && (forall j :: 0 <= j < |es| ==> es'[j] == if i <= j && kill(es[j]) then Gone(es[j], ev8) else es[j])
    decreases |es| - i
  {
    if i < |es| {
      if kill(es[i]) {
        var es1 := es[i := Gone(es[i], ev8)];
        if es[i].valid {
          DropExact(ix, es, i, es1[i]);
        } else {
          InvalidIrrelevant(ix, es, i, es1[i]);
        }
        SweepExact(es1, if es[i].valid then Drop(ix, es[i], i) else ix, kill, ev8, i + 1);
      } else {
        SweepExact(es, ix, kill, ev8, i + 1);
      }
    }
  }

  lemma InvalidIrrelevant(ix: Index, es: seq<Entry>, i: nat, e: Entry)
    requires i < |es| && !es[i].valid && !e.valid && Exact(ix, es)
    ensures Exact(ix, es[i := e])
  {
    assert LargeLive(es[i := e]) == LargeLive(es);
  }

  // ---- Rebuilding ------------------------------------------------------------------------------

  /** tb_idx_rebuild, from slot i on. */
  function Rebuild(es: seq<Entry>, ix: Index, i: nat): (r: Index)
    requires |es| == ENTRIES && i <= |es| && Shape(ix)
    ensures Shape(r)
    decreases |es| - i
  {
    if i == |es| then ix else Rebuild(es, if es[i].valid then Add(ix, es[i], i) else ix, i + 1)
  }

  ghost function Upto(es: seq<Entry>, i: nat): seq<Entry> {
    seq(|es|, j requires 0 <= j < |es| => if j < i then es[j] else es[j].(valid := false))
  }

  lemma {:induction false} RebuildExact(es: seq<Entry>, ix: Index, i: nat)
    requires i <= |es| && Exact(ix, Upto(es, i))
    ensures Exact(Rebuild(es, ix, i), es)
    decreases |es| - i
  {
    if i == |es| {
      assert Upto(es, i) == es;
    } else {
      if es[i].valid {
        AddExact(ix, Upto(es, i), i, es[i]);
        assert Upto(es, i)[i := es[i]] == Upto(es, i + 1);
      } else {
        assert Upto(es, i) == Upto(es, i + 1);
      }
      RebuildExact(es, if es[i].valid then Add(ix, es[i], i) else ix, i + 1);
    }
  }

  lemma RebuiltExact(es: seq<Entry>)
    requires |es| == ENTRIES
    ensures Exact(Rebuild(es, EmptyIndex(), 0), es)
  {
    EmptyExact(Upto(es, 0));
    RebuildExact(es, EmptyIndex(), 0);
  }
}

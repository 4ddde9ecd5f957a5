/** The registration list of gcov_info records (__gcov_init) and the
    zeroing of their counters (__gcov_reset) in libs/libbuiltin/libgcc/gcov.c. */
module GcovList {
  import opened GcovData

  /** An element of a counter array: the array and an index into it. */
  type Cell = (array<uint64>, int)

  /** The values memset by __gcov_reset for one counter slot: its first num. */
  ghost function SlotCells(c: CtrInfo): set<Cell> {
    set t | 0 <= t < c.num :: (c.values, t)
  }

  /** The cells of the first m counter slots of a function. */
  ghost function FnCells(f: FnInfo, m: nat): set<Cell>
    requires m <= |f.ctrs|
  {
    if m == 0 then {} else FnCells(f, m - 1) + SlotCells(f.ctrs[m - 1])
  }

  /** The cells of the merged slots of the first n functions of info. */
  ghost function InfoCells(info: GcovInfo, n: nat): set<Cell>
    requires WellFormed(info) && n <= |info.functions|
  {
    if n == 0 then {}
    else
      assert FunctionWellFormed(info.functions[n - 1], MergedCount(info.merge));
      InfoCells(info, n - 1) + FnCells(info.functions[n - 1], MergedCount(info.merge))
  }

  /** Every listed record is well formed. */
  ghost predicate AllWellFormed(infos: seq<GcovInfo>) {
    forall q :: 0 <= q < |infos| ==> WellFormed(infos[q])
  }

  /** The cells of the merged slots of the first k listed infos. */
  ghost function ListCells(infos: seq<GcovInfo>, k: nat): set<Cell>
    requires k <= |infos| && AllWellFormed(infos)
  {
    if k == 0 then {} else ListCells(infos, k - 1) + InfoCells(infos[k - 1], |infos[k - 1].functions|)
  }

  /** The counter arrays of one function. */
  function FnArrays(f: FnInfo): set<array<uint64>> {
    set j | 0 <= j < |f.ctrs| :: f.ctrs[j].values
  }

  /** The counter arrays of every listed info. */
  ghost function ListArrays(infos: seq<GcovInfo>): set<array<uint64>> {
    set q, a | 0 <= q < |infos| && a in Arrays(infos[q]) :: a
  }

  lemma {:induction false} ArraysListed(infos: seq<GcovInfo>, k: nat)
    requires k < |infos|
    ensures Arrays(infos[k]) <= ListArrays(infos)
  {
  }

  lemma {:induction false} FnCellsIn(f: FnInfo, m: nat, b: array<uint64>, t: int)
    requires m <= |f.ctrs| && (b, t) in FnCells(f, m)
    ensures b in FnArrays(f)
  {
    if (b, t) !in FnCells(f, m - 1) {
      assert (b, t) in SlotCells(f.ctrs[m - 1]);
    } else {
      FnCellsIn(f, m - 1, b, t);
    }
  }

  lemma {:induction false} InfoCellsIn(info: GcovInfo, n: nat, b: array<uint64>, t: int)
    requires WellFormed(info) && n <= |info.functions| && (b, t) in InfoCells(info, n)
    ensures b in Arrays(info)
  {
    assert n > 0;
    var f := info.functions[n - 1];
    assert FunctionWellFormed(f, MergedCount(info.merge));
    if (b, t) !in InfoCells(info, n - 1) {
      FnCellsIn(f, MergedCount(info.merge), b, t);
      var j :| 0 <= j < |f.ctrs| && f.ctrs[j].values == b;
      InArrays(info, n - 1, j);
    } else {
      InfoCellsIn(info, n - 1, b, t);
    }
  }

  /** The cells of a function lie in its own arrays only. */
  lemma {:induction false} FnCellsOnly(f: FnInfo, m: nat)
    requires m <= |f.ctrs|
    ensures forall b, t :: b !in FnArrays(f) ==> (b, t) !in FnCells(f, m)
  {
    forall b, t | (b, t) in FnCells(f, m) ensures b in FnArrays(f) {
      FnCellsIn(f, m, b, t);
    }
  }

  /** The cells of an info lie in its own arrays only. */
  lemma {:induction false} InfoCellsOnly(info: GcovInfo)
    requires WellFormed(info)
    ensures forall b, t :: b !in Arrays(info) ==> (b, t) !in InfoCells(info, |info.functions|)
  {
    forall b, t | (b, t) in InfoCells(info, |info.functions|) ensures b in Arrays(info) {
      InfoCellsIn(info, |info.functions|, b, t);
    }
  }

  /** memset(values, 0, num * sizeof(gcov_type)): the first num values become 0. */
  method Memset(a: array<uint64>, num: nat)
    requires num <= a.Length
    modifies a
    ensures forall t :: 0 <= t < a.Length ==> a[t] == if t < num then 0 else old(a[t])
  {
    forall t | 0 <= t < num {
      a[t] := 0;
    }
  }

  /** The loop over counter kinds of __gcov_reset for one function: the slot of
      each merged kind, taken in order, has its first num values zeroed. Every
      other value of the function's arrays is left alone. */
  method ResetFunction(gfi: FnInfo, merge: seq<bool>)
    requires FunctionWellFormed(gfi, MergedCount(merge))
    modifies FnArrays(gfi)
    ensures forall b, t :: b in FnArrays(gfi) && 0 <= t < b.Length ==>
      b[t] == if (b, t) in FnCells(gfi, MergedCount(merge)) then 0 else old(b[t])
  {
    var gci := 0;
    for counts := 0 to |merge|
      invariant gci == MergedBefore(merge, counts) && gci <= MergedCount(merge)
      invariant forall b, t :: b in FnArrays(gfi) && 0 <= t < b.Length ==>
        b[t] == if (b, t) in FnCells(gfi, gci) then 0 else old(b[t])
    {
      if !merge[counts] {
        continue;
      }
      MergedBeforeIncreases(merge, counts, |merge|);
      var gci' := gci;
      Memset(gfi.ctrs[gci].values, gfi.ctrs[gci].num as nat);
      gci := gci + 1;
      assert FnCells(gfi, gci) == FnCells(gfi, gci') + SlotCells(gfi.ctrs[gci']);
    }
  }

  /** The loop over functions of __gcov_reset for one info. */
  method ResetInfo(info: GcovInfo)
    requires WellFormed(info)
    modifies Arrays(info)
    ensures forall b, t :: b in Arrays(info) && 0 <= t < b.Length ==>
      b[t] == if (b, t) in InfoCells(info, |info.functions|) then 0 else old(b[t])
  {
    for functions := 0 to |info.functions|
      invariant forall b, t :: b in Arrays(info) && 0 <= t < b.Length ==>
        b[t] == if (b, t) in InfoCells(info, functions) then 0 else old(b[t])
    {
      var gfi := info.functions[functions];
      assert FunctionWellFormed(gfi, MergedCount(info.merge));
      assert FnArrays(gfi) <= Arrays(info) by {
        forall a | a in FnArrays(gfi) ensures a in Arrays(info) {
          var j :| 0 <= j < |gfi.ctrs| && gfi.ctrs[j].values == a;
          InArrays(info, functions, j);
        }
      }
      ResetFunction(gfi, info.merge);
      FnCellsOnly(gfi, MergedCount(info.merge));
    }
  }

  /** The body of __gcov_reset's walk for the k-th listed info: among all the
      listed counter arrays, exactly its merged cells become 0. */
  method ResetListed(info: GcovInfo, ghost infos: seq<GcovInfo>, ghost k: nat)
    requires AllWellFormed(infos) && k < |infos| && info == infos[k]
    modifies Arrays(info)
    ensures forall b, t :: b in ListArrays(infos) && 0 <= t < b.Length ==>
      b[t] == if (b, t) in InfoCells(info, |info.functions|) then 0 else old(b[t])
  {
    ResetInfo(info);
    InfoCellsOnly(info);
  }

  lemma {:induction false} ListCellsIn(infos: seq<GcovInfo>, k: nat, b: array<uint64>, t: int)
    requires k <= |infos| && AllWellFormed(infos)
    requires (b, t) in ListCells(infos, k)
    ensures b in ListArrays(infos)
  {
    assert k > 0;
    if (b, t) !in ListCells(infos, k - 1) {
      InfoCellsIn(infos[k - 1], |infos[k - 1].functions|, b, t);
    } else {
      ListCellsIn(infos, k - 1, b, t);
    }
  }

  /** Every value live in a merged slot is among the cells __gcov_reset clears:
      the first num values of slot j of function i of the q-th listed info. */
  lemma {:induction false} SlotCovered(f: FnInfo, m: nat, j: nat, x: int)
    requires j < m <= |f.ctrs| && 0 <= x < f.ctrs[j].num
    ensures (f.ctrs[j].values, x) in FnCells(f, m)
  {
    if j < m - 1 {
      SlotCovered(f, m - 1, j, x);
    }
  }

  lemma {:induction false} FunctionCovered(info: GcovInfo, n: nat, i: nat, j: nat, x: int)
    requires WellFormed(info) && i < n <= |info.functions|
    requires j < MergedCount(info.merge) && 0 <= x < info.functions[i].ctrs[j].num
    ensures (info.functions[i].ctrs[j].values, x) in InfoCells(info, n)
  {
    if i < n - 1 {
      FunctionCovered(info, n - 1, i, j, x);
    } else {
      SlotCovered(info.functions[i], MergedCount(info.merge), j, x);
    }
  }

  lemma {:induction false} InfoCovered(infos: seq<GcovInfo>, k: nat, q: nat, i: nat, j: nat, x: int)
    requires k <= |infos| && AllWellFormed(infos)
    requires q < k && i < |infos[q].functions| && j < |infos[q].functions[i].ctrs|
    requires j < MergedCount(infos[q].merge) && 0 <= x < infos[q].functions[i].ctrs[j].num
    ensures (infos[q].functions[i].ctrs[j].values, x) in ListCells(infos, k)
  {
    if q < k - 1 {
      InfoCovered(infos, k - 1, q, i, j, x);
    } else {
      FunctionCovered(infos[q], |infos[q].functions|, i, j, x);
    }
  }

  /** Every counter value of d is zero. */
  ghost predicate Zeroed(d: InfoData) {
    forall i, j, x ::
      0 <= i < |d.functions| && 0 <= j < |d.functions[i].ctrs| && 0 <= x < |d.functions[i].ctrs[j]|
      ==> d.functions[i].ctrs[j][x] == 0
  }

  /** The record following the q-th one, or null for the last. */
  function Succ(infos: seq<GcovInfo>, q: nat): GcovInfo?
    requires q < |infos|
  {
    if q + 1 < |infos| then infos[q + 1] else null
  }

  /** Each record's `next` is the record after it in `infos`. */
  ghost predicate Linked(infos: seq<GcovInfo>)
    reads set q | 0 <= q < |infos| :: infos[q]
  {
    forall q :: 0 <= q < |infos| ==> infos[q].next == Succ(infos, q)
  }

  /** No record appears twice, so following `next` ends. */
  ghost predicate Distinct(infos: seq<GcovInfo>) {
    forall p, q :: 0 <= p < q < |infos| ==> infos[p] != infos[q]
  }

  /** Pushing a record not yet listed keeps the list free of repeats, and a
      record listed twice would break it. */
  lemma {:induction false} PushDistinct(info: GcovInfo, infos: seq<GcovInfo>)
    requires Distinct(infos)
    ensures Distinct([info] + infos) <==> info !in infos
  {
    var l := [info] + infos;
    if info in infos {
      var q :| 0 <= q < |infos| && infos[q] == info;
      assert l[0] == l[q + 1];
    } else {
      forall p, q | 0 <= p < q < |l| ensures l[p] != l[q] {
        if p > 0 {
          assert l[p] == infos[p - 1] && l[q] == infos[q - 1];
        } else {
          assert l[q] in infos;
        }
      }
    }
  }

  /** The list headed by __gcov_info_start. `infos` is the list in link order,
      newest registration first. */
  class Registry {
    var infoStart: GcovInfo?
    ghost var infos: seq<GcovInfo>

    /** The list starts at infoStart and follows `infos`. */
    ghost predicate Valid()
      reads this, set q | 0 <= q < |infos| :: infos[q]
    {
      infoStart == (if |infos| == 0 then null else infos[0]) && Linked(infos) &&
      Distinct(infos) && AllWellFormed(infos)
    }

    /** The empty list the program starts with. */
    constructor ()
      ensures Valid() && infos == [] && infoStart == null
    {
      infoStart := null;
      infos := [];
    }

    /** __gcov_init: the object file's record is pushed on the front of the list. */
    method Init(info: GcovInfo)
      requires Valid() && info !in infos && WellFormed(info)
      modifies this, info
      ensures Valid() && infos == [info] + old(infos)
      ensures infoStart == info && info.next == old(infoStart)
    {
      info.next := infoStart;
      infoStart := info;
      infos := [info] + infos;
      forall q | 0 <= q < |infos| ensures infos[q].next == Succ(infos, q) {
        if q > 0 {
          assert old(infos)[q - 1] in old(infos);
          assert infos[q].next == old(infos[q - 1].next) == old(Succ(infos, q - 1));
        }
      }
      PushDistinct(info, old(infos));
    }

    /** __gcov_reset: walks the list and zeroes the live values of every merged
        counter slot. A value of a counter array becomes 0 exactly when it lies
        in such a slot and keeps its value otherwise; the list is untouched. */
    method Reset()
      requires Valid()
      modifies ListArrays(infos)
      ensures Valid()
      ensures forall b, t :: b in ListArrays(infos) && 0 <= t < b.Length ==>
        b[t] == if (b, t) in ListCells(infos, |infos|) then 0 else old(b[t])
      ensures forall q :: 0 <= q < |infos| ==> Zeroed(Contents(infos[q]))
    {
      ResetWalk();
      AllCleared(infos);
    }

    /** The walk of __gcov_reset over the list, one info at a time. */
    method ResetWalk()
      requires Valid()
      modifies ListArrays(infos)
      ensures Valid()
      ensures forall b, t :: b in ListArrays(infos) && 0 <= t < b.Length ==>
        b[t] == if (b, t) in ListCells(infos, |infos|) then 0 else old(b[t])
    {
      var info := infoStart;
      ghost var k := 0;
      while info != null
        invariant Valid()
        invariant 0 <= k <= |infos| && info == (if k < |infos| then infos[k] else null)
        invariant forall b, t :: b in ListArrays(infos) && 0 <= t < b.Length ==>
          b[t] == if (b, t) in ListCells(infos, k) then 0 else old(b[t])
        decreases |infos| - k
      {
        Apart(this, infos, Arrays(info));
        ResetListed(info, infos, k);
        assert info.next == Succ(infos, k);
        info := info.next;
        k := k + 1;
      }
      assert k == |infos|;
    }

    /** Counter arrays are neither the registry nor a gcov_info, so writing
        them keeps the list as it is. */
    static lemma Apart(r: Registry, infos: seq<GcovInfo>, arrays: set<array<uint64>>)
      ensures forall a :: a in arrays ==> (a as object) != (r as object)
      ensures forall q, a :: 0 <= q < |infos| && a in arrays ==> (a as object) != (infos[q] as object)
    {
    }

    /** The consequence for Contents of a whole list cleared. */
    static lemma AllCleared(infos: seq<GcovInfo>)
      requires AllWellFormed(infos)
      requires forall b, t :: b in ListArrays(infos) && 0 <= t < b.Length && (b, t) in ListCells(infos, |infos|) ==> b[t] == 0
      ensures forall q :: 0 <= q < |infos| ==> Zeroed(Contents(infos[q]))
    {
      forall q | 0 <= q < |infos| ensures Zeroed(Contents(infos[q])) {
        InfoCleared(infos, q);
      }
    }

    static lemma InfoCleared(infos: seq<GcovInfo>, q: nat)
      requires AllWellFormed(infos) && q < |infos|
      requires forall b, t :: b in ListArrays(infos) && 0 <= t < b.Length && (b, t) in ListCells(infos, |infos|) ==> b[t] == 0
      ensures Zeroed(Contents(infos[q]))
    {
      var d := Contents(infos[q]);
      forall i, j, x | 0 <= i < |d.functions| && 0 <= j < |d.functions[i].ctrs| &&
                       0 <= x < |d.functions[i].ctrs[j]|
        ensures d.functions[i].ctrs[j][x] == 0
      {
        assert FunctionWellFormed(infos[q].functions[i], MergedCount(infos[q].merge));
        SlotCleared(infos, q, i, j, x);
      }
    }

    static lemma SlotCleared(infos: seq<GcovInfo>, q: nat, i: nat, j: nat, x: nat)
      requires AllWellFormed(infos) && q < |infos| && i < |infos[q].functions|
      requires j < MergedCount(infos[q].merge) && j < |infos[q].functions[i].ctrs|
      requires x < infos[q].functions[i].ctrs[j].num <= infos[q].functions[i].ctrs[j].values.Length
      requires forall b, t :: b in ListArrays(infos) && 0 <= t < b.Length && (b, t) in ListCells(infos, |infos|) ==> b[t] == 0
      ensures infos[q].functions[i].ctrs[j].values[x] == 0
    {
      var c := infos[q].functions[i].ctrs[j];
      InfoCovered(infos, |infos|, q, i, j, x);
      ListCellsIn(infos, |infos|, c.values, x);
    }
  }
}

/** The coverage records that GCC's instrumentation emits for each object file
    (the gcov_info, gcov_fn_info and gcov_ctr_info structures of
    libs/libbuiltin/libgcc/gcov.c). */
module GcovData {

  type uint32 = x: int | 0 <= x < 0x1_0000_0000
  type uint64 = x: int | 0 <= x < 0x1_0000_0000_0000_0000

  /** The counters of one counter kind of one function: `num` 64-bit values
      stored at the start of `values`. */
  datatype CtrInfo = CtrInfo(num: uint32, values: array<uint64>)

  /** Per-function metadata. `ctrs` holds one entry per counter kind that the
      object file merges, in increasing kind order. */
  datatype FnInfo = FnInfo(ident: uint32, linenoChecksum: uint32, cfgChecksum: uint32,
                           ctrs: seq<CtrInfo>)

  /** Per-object-file metadata. `merge[k]` says whether counter kind k has a
      merge function (a non-NULL entry), so |merge| is GCOV_COUNTERS;
      `functions` holds the n_functions function records. Only `next`, the
      link of the registration list, changes at run time. */
  class GcovInfo {
    const version: uint32
    var next: GcovInfo?
    const stamp: uint32
    const checksum: uint32
    const filename: string
    const merge: seq<bool>
    const functions: seq<FnInfo>

    constructor (version: uint32, stamp: uint32, checksum: uint32, filename: string,
                 merge: seq<bool>, functions: seq<FnInfo>)
      ensures this.version == version && this.stamp == stamp && this.checksum == checksum
      ensures this.filename == filename && this.merge == merge && this.functions == functions
      ensures next == null
    {
      this.version := version;
      this.stamp := stamp;
      this.checksum := checksum;
      this.filename := filename;
      this.merge := merge;
      this.functions := functions;
      next := null;
    }
  }

  /** The number of merged counter kinds below kind k: the index in a
      function's `ctrs` of the record of kind k, when k is merged. */
  function MergedBefore(merge: seq<bool>, k: nat): (m: nat)
    requires k <= |merge|
    ensures m <= k
  {
    if k == 0 then 0 else MergedBefore(merge, k - 1) + (if merge[k - 1] then 1 else 0)
  }

  /** The number of merged counter kinds, i.e. of `ctrs` entries each function uses. */
  function MergedCount(merge: seq<bool>): nat {
    MergedBefore(merge, |merge|)
  }

  /** A merged kind uses a `ctrs` slot below that of every later merged kind,
      and below the number of merged kinds: the j-th merged kind owns slot j. */
  lemma {:induction false} MergedBeforeIncreases(merge: seq<bool>, a: nat, b: nat)
    requires a <= b <= |merge|
    ensures MergedBefore(merge, a) <= MergedBefore(merge, b)
    ensures a < b && merge[a] ==> MergedBefore(merge, a) < MergedBefore(merge, b)
    decreases b
  {
    if a < b {
      MergedBeforeIncreases(merge, a, b - 1);
    }
  }

  /** The slots used by a function: one per merged kind, each holding at
      least `num` values. */
  ghost predicate FunctionWellFormed(f: FnInfo, merged: nat) {
    merged <= |f.ctrs| &&
    forall j :: 0 <= j < merged ==> f.ctrs[j].num <= f.ctrs[j].values.Length
  }

  /** What the instrumented code guarantees of a gcov_info: every function
      carries a counter record for each merged kind, and `num` does not
      exceed the storage behind `values`. */
  ghost predicate WellFormed(info: GcovInfo) {
    forall i :: 0 <= i < |info.functions| ==>
      FunctionWellFormed(info.functions[i], MergedCount(info.merge))
  }

  /** The arrays holding the counter values of an object file. */
  ghost function Arrays(info: GcovInfo): set<array<uint64>> {
    set i, j | 0 <= i < |info.functions| && 0 <= j < |info.functions[i].ctrs|
      :: info.functions[i].ctrs[j].values
  }

  lemma {:induction false} InArrays(info: GcovInfo, i: nat, j: nat)
    requires i < |info.functions| && j < |info.functions[i].ctrs|
    ensures info.functions[i].ctrs[j].values in Arrays(info)
  {
  }

  /** The j-th merged counter kind; its record uses `ctrs` slot j. */
  function NthMerged(merge: seq<bool>, j: nat): (k: nat)
    requires j < MergedCount(merge)
    ensures k < |merge| && merge[k] && MergedBefore(merge, k) == j
  {
    NthMergedFrom(merge, j, |merge|)
  }

  function NthMergedFrom(merge: seq<bool>, j: nat, n: nat): (k: nat)
    requires n <= |merge| && j < MergedBefore(merge, n)
    ensures k < n && merge[k] && MergedBefore(merge, k) == j
  {
    if merge[n - 1] && MergedBefore(merge, n - 1) == j then n - 1
    else NthMergedFrom(merge, j, n - 1)
  }

  // ---------------------------------------------------------------------
  // The contents of a gcov_info as a value

  /** A function record with the live values of its merged counter kinds. */
  datatype FnData = FnData(ident: uint32, linenoChecksum: uint32, cfgChecksum: uint32,
                           ctrs: seq<seq<uint64>>)

  /** What gcov_convert reads from a gcov_info. */
  datatype InfoData = InfoData(version: uint32, stamp: uint32, checksum: uint32,
                               merge: seq<bool>, functions: seq<FnData>)

  /** Every function has one counter slot per merged kind. */
  ghost predicate Shaped(d: InfoData) {
    forall i :: 0 <= i < |d.functions| ==> |d.functions[i].ctrs| == MergedCount(d.merge)
  }

  /** The first `num` values of each merged slot of function i. */
  ghost function CtrsData(info: GcovInfo, i: nat): (cs: seq<seq<uint64>>)
    requires WellFormed(info) && i < |info.functions|
    reads Arrays(info)
    ensures |cs| == MergedCount(info.merge)
    ensures forall j :: 0 <= j < |cs| ==>
      cs[j] == info.functions[i].ctrs[j].values[..info.functions[i].ctrs[j].num]
  {
    var f, m := info.functions[i], MergedCount(info.merge);
    assert FunctionWellFormed(f, m);
    seq(m, j requires 0 <= j < m reads Arrays(info) =>
      InArrays(info, i, j);
      f.ctrs[j].values[..f.ctrs[j].num])
  }

  /** The contents of info in the current heap. */
  ghost function Contents(info: GcovInfo): (d: InfoData)
    requires WellFormed(info)
    reads Arrays(info)
    ensures Shaped(d)
    ensures d.version == info.version && d.stamp == info.stamp && d.checksum == info.checksum
    ensures d.merge == info.merge && |d.functions| == |info.functions|
    ensures forall i :: 0 <= i < |d.functions| ==>
      d.functions[i] == FnData(info.functions[i].ident, info.functions[i].linenoChecksum,
                               info.functions[i].cfgChecksum, CtrsData(info, i))
  {
    InfoData(info.version, info.stamp, info.checksum, info.merge,
      seq(|info.functions|, i requires 0 <= i < |info.functions| reads Arrays(info) =>
        FnData(info.functions[i].ident, info.functions[i].linenoChecksum,
               info.functions[i].cfgChecksum, CtrsData(info, i))))
  }
}

/** gcov_convert and its store helpers (libs/libbuiltin/libgcc/gcov.c),
    proved against the layout of GcovLayout. */
module GcovConvert {
  import opened GcovData
  import opened GcovLayout

  /** One native store of the bytes bs at buffer + off. */
  method Store(buffer: array<byte>, off: nat, bs: seq<byte>)
    requires off + |bs| <= buffer.Length
    modifies buffer
    ensures buffer[..] == old(buffer[..off]) + bs + old(buffer[off + |bs|..])
  {
    forall t | 0 <= t < |bs| {
      buffer[off + t] := bs[t];
    }
    assert buffer[..] == old(buffer[..off]) + bs + old(buffer[off + |bs|..]);
  }

  /** dump_unsigned: with a buffer, stores v at offset off; in both passes the
      offset grows by exactly 4. */
  method DumpUnsigned(buffer: array?<byte>, off: nat, v: uint32, order: ByteOrder) returns (newOff: nat)
    requires buffer != null ==> off + 4 <= buffer.Length
    modifies buffer
    ensures newOff == off + 4
    ensures buffer != null ==>
      buffer[..] == old(buffer[..off]) + Encode(order, v, 4) + old(buffer[off + 4..])
  {
    if buffer != null {
      Store(buffer, off, Encode(order, v, 4));
    }
    newOff := off + 4;
  }

  /** dump_counter: with a buffer, stores v at offset off; in both passes the
      offset grows by exactly 8. */
  method DumpCounter(buffer: array?<byte>, off: nat, v: uint64, order: ByteOrder) returns (newOff: nat)
    requires buffer != null ==> off + 8 <= buffer.Length
    modifies buffer
    ensures newOff == off + 8
    ensures buffer != null ==>
      buffer[..] == old(buffer[..off]) + Encode(order, v, 8) + old(buffer[off + 8..])
  {
    if buffer != null {
      Store(buffer, off, Encode(order, v, 8));
    }
    newOff := off + 8;
  }

  /** The output buffer is none of the counter arrays, so converting leaves
      the counters alone. */
  lemma {:induction false} BufferApart(buffer: array?<byte>, info: GcovInfo)
    ensures forall a :: a in Arrays(info) ==> (a as object) != (buffer as object?)
    ensures forall i, j :: 0 <= i < |info.functions| && 0 <= j < |info.functions[i].ctrs| ==>
      (info.functions[i].ctrs[j].values as object) != (buffer as object?)
  {
  }

  /** f records gfi: its identifier and checksums, and, for each slot, the
      first num entries of the slot's array. */
  ghost predicate Holds(gfi: FnInfo, f: FnData)
    reads set j | 0 <= j < |gfi.ctrs| :: gfi.ctrs[j].values
  {
    f.ident == gfi.ident && f.linenoChecksum == gfi.linenoChecksum && f.cfgChecksum == gfi.cfgChecksum &&
    |f.ctrs| <= |gfi.ctrs| &&
    forall j :: 0 <= j < |f.ctrs| ==>
      gfi.ctrs[j].num <= gfi.ctrs[j].values.Length && f.ctrs[j] == gfi.ctrs[j].values[..gfi.ctrs[j].num]
  }

  /** Each function's arrays hold what the contents of info record for it. */
  lemma {:induction false} ContentsHold(info: GcovInfo)
    requires WellFormed(info)
    ensures forall i :: 0 <= i < |info.functions| ==> Holds(info.functions[i], Contents(info).functions[i])
  {
    var d := Contents(info);
    forall i | 0 <= i < |info.functions|
      ensures Holds(info.functions[i], d.functions[i])
    {
      assert d.functions[i].ctrs == CtrsData(info, i);
    }
  }

  /** A run of stores at item n of items: item n + j is run[j], and rest follows. */
  lemma {:induction false} Stores(items: seq<Item>, n: nat, run: seq<Item>, rest: seq<Item>)
    requires n <= |items| && items[n..] == run + rest
    ensures n + |run| <= |items| && items[n + |run|..] == rest
    ensures forall j :: 0 <= j < |run| ==> items[n + j] == run[j]
  {
    forall j | 0 <= j < |run|
      ensures items[n + j] == run[j]
    {
      RunOffset(items, n, run, rest, j);
    }
    SuffixSkip(items, n, run, rest);
  }

  /** Where gcov_convert stands after the first n stores of `total`: pos is
      their size, and a buffer holds their bytes and, after them, what it
      held before (`orig`), and is large enough for all of `total`. */
  ghost predicate Progress(buffer: array?<byte>, order: ByteOrder, pos: nat, n: nat,
                           total: seq<Item>, orig: seq<byte>)
    reads buffer
  {
    n <= |total| && pos == Offset(total, n) &&
    (buffer != null ==>
      ItemsSize(total) <= buffer.Length == |orig| && pos <= buffer.Length &&
      buffer[..pos] == BytesUpTo(order, total, n) && buffer[pos..] == orig[pos..])
  }

  /** One dump_unsigned or dump_counter inside gcov_convert: store n of `total`. */
  method Emit(buffer: array?<byte>, pos: nat, it: Item, order: ByteOrder,
              ghost n: nat, ghost total: seq<Item>, ghost orig: seq<byte>)
    returns (newPos: nat)
    requires Progress(buffer, order, pos, n, total, orig)
    requires n < |total| && total[n] == it
    modifies buffer
    ensures Progress(buffer, order, newPos, n + 1, total, orig)
    ensures newPos == pos + Width(it)
  {
    OffsetBound(total, n + 1);
    match it {
      case Word(w) =>
        newPos := DumpUnsigned(buffer, pos, w, order);
      case Counter(c) =>
        newPos := DumpCounter(buffer, pos, c, order);
    }
    if buffer != null {
      assert buffer[..newPos] == buffer[..pos] + buffer[pos..newPos];
    }
  }

  /** The file header of gcov_convert: the magic, the version, the stamp and,
      with GCOV_12_FORMAT, the checksum. */
  method ConvertHeader(buffer: array?<byte>, info: GcovInfo, gcov12: bool, order: ByteOrder,
                       ghost d: InfoData, ghost total: seq<Item>, ghost rest: seq<Item>, ghost orig: seq<byte>)
    returns (pos: nat, ghost n: nat)
    requires d.version == info.version && d.stamp == info.stamp && d.checksum == info.checksum
    requires Progress(buffer, order, 0, 0, total, orig)
    requires total[0..] == HeaderItems(d, gcov12) + rest
    modifies buffer
    ensures Progress(buffer, order, pos, n, total, orig)
    ensures total[n..] == rest
  {
    Stores(total, 0, HeaderItems(d, gcov12), rest);
    n := 0;
    pos := Emit(buffer, 0, Word(GCOV_DATA_MAGIC), order, n, total, orig);
    n := n + 1;
    pos := Emit(buffer, pos, Word(info.version), order, n, total, orig);
    n := n + 1;
    pos := Emit(buffer, pos, Word(info.stamp), order, n, total, orig);
    n := n + 1;
    if gcov12 {
      pos := Emit(buffer, pos, Word(info.checksum), order, n, total, orig);
      n := n + 1;
    }
  }

  /** One counter record of gcov_convert: the tag and the length of kind k,
      then one dump_counter per value of ctr, in order. */
  method ConvertCounters(buffer: array?<byte>, pos: nat, ctr: CtrInfo, k: nat, gcov12: bool, order: ByteOrder,
                         ghost n: nat, ghost total: seq<Item>, ghost rest: seq<Item>, ghost orig: seq<byte>)
    returns (newPos: nat, ghost newN: nat)
    requires ctr.num <= ctr.values.Length && (ctr.values as object) != (buffer as object?)
    requires Progress(buffer, order, pos, n, total, orig)
    requires total[n..] == CounterRecordItems(k, ctr.values[..ctr.num], gcov12) + rest
    modifies buffer
    ensures Progress(buffer, order, newPos, newN, total, orig)
    ensures total[newN..] == rest
  {
    ghost var vs := ctr.values[..ctr.num];
    ghost var hs := [Word(TagForCounter(k)), Word(CounterLength(|vs|, gcov12))];
    Stores(total, n, hs, CounterItems(vs) + rest);
    newN := n;
    newPos := Emit(buffer, pos, Word(TagForCounter(k)), order, newN, total, orig);
    newN := newN + 1;
    newPos := Emit(buffer, newPos, Word(CounterLength(ctr.num as int, gcov12)), order, newN, total, orig);
    newN := newN + 1;
    newPos, newN := ConvertValues(buffer, newPos, ctr, order, newN, total, rest, orig);
  }

  /** The dump_counter loop of a counter record: the first num values of
      ctr, in index order. */
  method ConvertValues(buffer: array?<byte>, pos: nat, ctr: CtrInfo, order: ByteOrder,
                       ghost n: nat, ghost total: seq<Item>, ghost rest: seq<Item>, ghost orig: seq<byte>)
    returns (newPos: nat, ghost newN: nat)
    requires ctr.num <= ctr.values.Length && (ctr.values as object) != (buffer as object?)
    requires Progress(buffer, order, pos, n, total, orig)
    requires total[n..] == CounterItems(ctr.values[..ctr.num]) + rest
    modifies buffer
    ensures Progress(buffer, order, newPos, newN, total, orig)
    ensures total[newN..] == rest
  {
    ghost var vs := ctr.values[..ctr.num];
    Stores(total, n, CounterItems(vs), rest);
    newPos, newN := pos, n;
    for value := 0 to ctr.num
      invariant Progress(buffer, order, newPos, newN, total, orig)
      invariant newN == n + value
      invariant ctr.values[..ctr.num] == vs
    {
      assert total[n + value] == Counter(vs[value]);
      newPos := Emit(buffer, newPos, Counter(ctr.values[value]), order, newN, total, orig);
      newN := newN + 1;
    }
  }

  /** gcov_convert: writes the header, then for each function its record and
      the counter records of its merged kinds. With a NULL buffer it only
      computes the size; with a buffer large enough for that size it stores
      exactly the image, inside [0, size), and leaves everything else alone. */
  method Convert(buffer: array?<byte>, info: GcovInfo, gcov12: bool, order: ByteOrder) returns (pos: nat)
    requires WellFormed(info)
    requires buffer != null ==> ConvertedSize(Contents(info), gcov12) <= buffer.Length
    modifies buffer
    ensures pos == ConvertedSize(old(Contents(info)), gcov12)
    ensures buffer != null ==>
      buffer[..pos] == Image(old(Contents(info)), gcov12, order) && buffer[pos..] == old(buffer[pos..])
  {
    BufferApart(buffer, info);
    ghost var d := Contents(info);
    ContentsHold(info);
    ghost var total := Records(d, gcov12);
    ghost var orig := if buffer != null then buffer[..] else [];
    ConvertedSizeFormula(d, gcov12, order);
    assert Progress(buffer, order, 0, 0, total, orig);
    ghost var n: nat;

    /* File header. */
    assert total[0..] == HeaderItems(d, gcov12) + FunctionItems(d, 0, gcov12);
    pos, n := ConvertHeader(buffer, info, gcov12, order, d, total, FunctionItems(d, 0, gcov12), orig);

    /* Function headers. */
    pos, n := ConvertFunctions(buffer, pos, info, gcov12, order, d, n, total, orig);
    assert n == |total|;
  }

  /** gcov_convert's loop over the functions of info, in index order. */
  method ConvertFunctions(buffer: array?<byte>, pos: nat, info: GcovInfo, gcov12: bool, order: ByteOrder,
                          ghost d: InfoData, ghost n: nat, ghost total: seq<Item>, ghost orig: seq<byte>)
    returns (newPos: nat, ghost newN: nat)
    requires Shaped(d) && d.merge == info.merge && |d.functions| == |info.functions|
    requires forall i :: 0 <= i < |info.functions| ==> Holds(info.functions[i], d.functions[i])
    requires forall i, j :: 0 <= i < |info.functions| && 0 <= j < |info.functions[i].ctrs| ==>
      (info.functions[i].ctrs[j].values as object) != (buffer as object?)
    requires Progress(buffer, order, pos, n, total, orig)
    requires total[n..] == FunctionItems(d, 0, gcov12)
    modifies buffer
    ensures Progress(buffer, order, newPos, newN, total, orig)
    ensures total[newN..] == []
  {
    newPos, newN := pos, n;
    for i := 0 to |info.functions|
      invariant Progress(buffer, order, newPos, newN, total, orig)
      invariant total[newN..] == FunctionItems(d, i, gcov12)
      invariant forall i :: 0 <= i < |info.functions| ==> Holds(info.functions[i], d.functions[i])
    {
      ghost var later := FunctionItems(d, i + 1, gcov12);
      FunctionItemsSplit(d, i, gcov12);
      newPos, newN := ConvertFunction(buffer, newPos, info.functions[i], info.merge, gcov12, order,
                                      d.functions[i], newN, total, later, orig);
    }
  }

  /** The body of gcov_convert's loop over functions: the function record of
      gfi, then the counter records of its merged kinds. f is what gfi
      holds. */
  method ConvertFunction(buffer: array?<byte>, pos: nat, gfi: FnInfo, merge: seq<bool>, gcov12: bool,
                         order: ByteOrder, ghost f: FnData, ghost n: nat, ghost total: seq<Item>,
                         ghost later: seq<Item>, ghost orig: seq<byte>)
    returns (newPos: nat, ghost newN: nat)
    requires |f.ctrs| == MergedCount(merge) && Holds(gfi, f)
    requires forall j :: 0 <= j < |gfi.ctrs| ==> (gfi.ctrs[j].values as object) != (buffer as object?)
    requires Progress(buffer, order, pos, n, total, orig)
    requires total[n..] == FunctionHeaderItems(f, gcov12) + (KindRecordItems(f, merge, 0, gcov12) + later)
    modifies buffer
    ensures Progress(buffer, order, newPos, newN, total, orig)
    ensures total[newN..] == later
  {
    Stores(total, n, FunctionHeaderItems(f, gcov12), KindRecordItems(f, merge, 0, gcov12) + later);

    /* Function record. */
    newN := n;
    newPos := Emit(buffer, pos, Word(GCOV_TAG_FUNCTION), order, newN, total, orig);
    newN := newN + 1;
    newPos := Emit(buffer, newPos, Word(FunctionLength(gcov12)), order, newN, total, orig);
    newN := newN + 1;
    newPos := Emit(buffer, newPos, Word(gfi.ident), order, newN, total, orig);
    newN := newN + 1;
    newPos := Emit(buffer, newPos, Word(gfi.linenoChecksum), order, newN, total, orig);
    newN := newN + 1;
    newPos := Emit(buffer, newPos, Word(gfi.cfgChecksum), order, newN, total, orig);
    newN := newN + 1;

    newPos, newN := ConvertKinds(buffer, newPos, gfi, merge, gcov12, order, f, newN, total, later, orig);
  }

  /** The loop over counter kinds in gcov_convert: for each merged kind, in
      increasing order, the counter record of the next `ctrs` slot; the
      slot index `gci` advances only on merged kinds. */
  method ConvertKinds(buffer: array?<byte>, pos: nat, gfi: FnInfo, merge: seq<bool>, gcov12: bool,
                      order: ByteOrder, ghost f: FnData, ghost n: nat, ghost total: seq<Item>,
                      ghost later: seq<Item>, ghost orig: seq<byte>)
    returns (newPos: nat, ghost newN: nat)
    requires |f.ctrs| == MergedCount(merge) && Holds(gfi, f)
    requires forall j :: 0 <= j < |gfi.ctrs| ==> (gfi.ctrs[j].values as object) != (buffer as object?)
    requires Progress(buffer, order, pos, n, total, orig)
    requires total[n..] == KindRecordItems(f, merge, 0, gcov12) + later
    modifies buffer
    ensures Progress(buffer, order, newPos, newN, total, orig)
    ensures total[newN..] == later
  {
    newPos, newN := pos, n;
    var gci := 0;
    for counts := 0 to |merge|
      invariant Progress(buffer, order, newPos, newN, total, orig)
      invariant gci == MergedBefore(merge, counts)
      invariant total[newN..] == KindRecordItems(f, merge, counts, gcov12) + later
      invariant Holds(gfi, f)
    {
      if !merge[counts] {
        continue;
      }
      MergedBeforeIncreases(merge, counts, |merge|);
      ghost var cr := CounterRecordItems(counts, f.ctrs[gci], gcov12);
      ghost var rest := KindRecordItems(f, merge, counts + 1, gcov12);
      assert KindRecordItems(f, merge, counts, gcov12) == cr + rest;
      SkipHead(total, newN, cr, rest, later);
      newPos, newN := ConvertCounters(buffer, newPos, gfi.ctrs[gci], counts, gcov12, order, newN, total,
                                      rest + later, orig);
      gci := gci + 1;
    }
  }

  /** What __gcov_info_to_gcda (and gcov_write_file) do around gcov_convert:
      a NULL pass to size the buffer, an allocation of that size, a second pass
      into it. `allocFails` stands for lib_malloc returning NULL, after which
      nothing is converted. The second pass writes exactly the bytes the
      first pass counted: the whole buffer is the image. */
  method InfoToGcda(info: GcovInfo, gcov12: bool, order: ByteOrder, allocFails: bool)
    returns (buffer: array?<byte>, size: nat)
    requires WellFormed(info)
    ensures size == ConvertedSize(Contents(info), gcov12)
    ensures allocFails <==> buffer == null
    ensures buffer != null ==>
      fresh(buffer) && buffer.Length == size && buffer[..] == Image(Contents(info), gcov12, order)
  {
    ghost var d := Contents(info);
    BufferApart(null, info);
    size := Convert(null, info, gcov12, order);
    assert Contents(info) == d;
    if allocFails {
      return null, size;
    }
    buffer := new byte[size];
    BufferApart(buffer, info);
    assert Contents(info) == d;
    var written := Convert(buffer, info, gcov12, order);
    assert Contents(info) == d;
    assert written == size;
    assert buffer[..] == buffer[..written];
  }
}

/** The .gcda counter-data layout written by gcov_convert
    (libs/libbuiltin/libgcc/gcov.c), stated as values: the sequence of 32-bit
    words and 64-bit counters it stores, the bytes they become, the size in
    closed form, and where each record lands. */
module GcovLayout {
  import opened GcovData

  newtype byte = x: int | 0 <= x < 256

  /** The stores of dump_unsigned and dump_counter are native-endian, so the
      byte order is a parameter of the model. */
  datatype ByteOrder = LittleEndian | BigEndian

  const GCOV_DATA_MAGIC: uint32 := 0x67636461
  const GCOV_TAG_FUNCTION: uint32 := 0x01000000
  const GCOV_TAG_COUNTER_BASE: uint32 := 0x01a10000

  /** GCOV_TAG_FUNCTION_LENGTH, with and without GCOV_12_FORMAT. */
  function FunctionLength(gcov12: bool): uint32 {
    if gcov12 then 12 else 3
  }

  /** GCOV_UNIT_SIZE, with and without GCOV_12_FORMAT. */
  function UnitSize(gcov12: bool): uint32 {
    if gcov12 then 4 else 1
  }

  /** GCOV_TAG_FOR_COUNTER(k): the base plus k shifted left by 17, in 32-bit
      unsigned arithmetic. */
  function TagForCounter(k: nat): uint32 {
    (GCOV_TAG_COUNTER_BASE as int + (k * 0x20000) % 0x1_0000_0000) % 0x1_0000_0000
  }

  /** The length word of a counter record, `num * 2 * GCOV_UNIT_SIZE` in
      32-bit unsigned arithmetic. */
  function CounterLength(num: nat, gcov12: bool): uint32 {
    (num * 2 * UnitSize(gcov12) as int) % 0x1_0000_0000
  }

  /** For the kinds a 32-bit tag can tell apart, no two kinds share a tag;
      while the sum stays below 2^32 (k <= 0x7f2f), the tag is exactly the
      base plus k * 2^17. */
  lemma {:induction false} TagForCounterDistinct(k1: nat, k2: nat)
    requires k1 < 0x8000 && k2 < 0x8000 && k1 != k2
    ensures TagForCounter(k1) != TagForCounter(k2)
    ensures k1 < 0x7f30 <==> GCOV_TAG_COUNTER_BASE as int + k1 * 0x20000 < 0x1_0000_0000
    ensures k1 < 0x7f30 ==> TagForCounter(k1) == GCOV_TAG_COUNTER_BASE as int + k1 * 0x20000
  {
    assert (k1 * 0x20000) % 0x1_0000_0000 == k1 * 0x20000;
    assert (k2 * 0x20000) % 0x1_0000_0000 == k2 * 0x20000;
  }

  // ---------------------------------------------------------------------
  // Bytes of one stored word

  function Pow256(n: nat): nat {
    if n == 0 then 1 else 256 * Pow256(n - 1)
  }

  lemma {:induction false} Pow256Widths()
    ensures Pow256(4) == 0x1_0000_0000
    ensures Pow256(8) == 0x1_0000_0000_0000_0000
  {
    assert Pow256(2) == 0x1_0000;
    assert Pow256(4) == 0x1_0000_0000;
    assert Pow256(6) == 0x1_0000_0000_0000;
  }

  /** The n low-order bytes of v, least significant first. */
  function LittleEndianBytes(v: nat, n: nat): (bs: seq<byte>)
    ensures |bs| == n
  {
    if n == 0 then [] else [(v % 256) as byte] + LittleEndianBytes(v / 256, n - 1)
  }

  function LittleEndianValue(bs: seq<byte>): nat {
    if bs == [] then 0 else bs[0] as int + 256 * LittleEndianValue(bs[1..])
  }

  function Reverse(bs: seq<byte>): (r: seq<byte>)
    ensures |r| == |bs|
  {
    if bs == [] then [] else Reverse(bs[1..]) + [bs[0]]
  }

  /** The n bytes that a native store of v writes, in the given byte order. */
  function Encode(order: ByteOrder, v: nat, n: nat): (bs: seq<byte>)
    ensures |bs| == n
  {
    match order
    case LittleEndian => LittleEndianBytes(v, n)
    case BigEndian => Reverse(LittleEndianBytes(v, n))
  }

  /** The value that a native load of bs reads back, in the given byte order. */
  function Decode(order: ByteOrder, bs: seq<byte>): nat {
    match order
    case LittleEndian => LittleEndianValue(bs)
    case BigEndian => LittleEndianValue(Reverse(bs))
  }

  lemma {:induction false} LittleEndianRoundTrip(v: nat, n: nat)
    requires v < Pow256(n)
    ensures LittleEndianValue(LittleEndianBytes(v, n)) == v
  {
    if n > 0 {
      LittleEndianRoundTrip(v / 256, n - 1);
    }
  }

  lemma {:induction false} ReverseAppend(a: seq<byte>, x: byte)
    ensures Reverse(a + [x]) == [x] + Reverse(a)
  {
    if a != [] {
      assert (a + [x])[1..] == a[1..] + [x];
      ReverseAppend(a[1..], x);
    }
  }

  lemma {:induction false} ReverseReverse(bs: seq<byte>)
    ensures Reverse(Reverse(bs)) == bs
  {
    if bs != [] {
      ReverseAppend(Reverse(bs[1..]), bs[0]);
      ReverseReverse(bs[1..]);
    }
  }

  /** Loading what a store wrote gives back the stored value, in either byte order. */
  lemma {:induction false} DecodeEncode(order: ByteOrder, v: nat, n: nat)
    requires v < Pow256(n)
    ensures Decode(order, Encode(order, v, n)) == v
  {
    LittleEndianRoundTrip(v, n);
    if order == BigEndian {
      ReverseReverse(LittleEndianBytes(v, n));
    }
  }

  // ---------------------------------------------------------------------
  // Stored items and the bytes they occupy

  /** One store of gcov_convert: a dump_unsigned or a dump_counter. */
  datatype Item = Word(w: uint32) | Counter(c: uint64)

  /** How far one store advances the offset. */
  function Width(it: Item): nat {
    match it
    case Word(_) => 4
    case Counter(_) => 8
  }

  function ItemBytes(order: ByteOrder, it: Item): (bs: seq<byte>)
    ensures |bs| == Width(it)
  {
    match it
    case Word(w) => Encode(order, w, 4)
    case Counter(c) => Encode(order, c, 8)
  }

  /** The offset after the first n stores. */
  function Offset(items: seq<Item>, n: nat): nat
    requires n <= |items|
  {
    if n == 0 then 0 else Offset(items, n - 1) + Width(items[n - 1])
  }

  /** The offset after all the stores. */
  function ItemsSize(items: seq<Item>): nat {
    Offset(items, |items|)
  }

  /** The bytes of the first n stores, made one after the other. */
  function BytesUpTo(order: ByteOrder, items: seq<Item>, n: nat): (bs: seq<byte>)
    requires n <= |items|
    ensures |bs| == Offset(items, n)
  {
    if n == 0 then [] else BytesUpTo(order, items, n - 1) + ItemBytes(order, items[n - 1])
  }

  /** The bytes of a sequence of stores made one after the other. */
  function Bytes(order: ByteOrder, items: seq<Item>): (bs: seq<byte>)
    ensures |bs| == ItemsSize(items)
  {
    BytesUpTo(order, items, |items|)
  }

  /** The word a reader loads at byte offset off. */
  function ReadWord(order: ByteOrder, bs: seq<byte>, off: nat): nat
    requires off + 4 <= |bs|
  {
    Decode(order, bs[off..off + 4])
  }

  /** The 64-bit counter a reader loads at byte offset off. */
  function ReadCounter(order: ByteOrder, bs: seq<byte>, off: nat): nat
    requires off + 8 <= |bs|
  {
    Decode(order, bs[off..off + 8])
  }

  /** Offsets and bytes of the first n stores depend on those stores only. */
  lemma {:induction false} PrefixAgree(order: ByteOrder, a: seq<Item>, b: seq<Item>, n: nat)
    requires n <= |a| && n <= |b| && a[..n] == b[..n]
    ensures Offset(a, n) == Offset(b, n)
    ensures BytesUpTo(order, a, n) == BytesUpTo(order, b, n)
  {
    if n > 0 {
      assert a[n - 1] == a[..n][n - 1] == b[..n][n - 1] == b[n - 1];
      assert a[..n - 1] == a[..n][..n - 1];
      assert b[..n - 1] == b[..n][..n - 1];
      PrefixAgree(order, a, b, n - 1);
    }
  }

  /** The bytes of the first n stores are a prefix of those of the first m. */
  lemma {:induction false} BytesPrefix(order: ByteOrder, items: seq<Item>, n: nat, m: nat)
    requires n <= m <= |items|
    ensures Offset(items, n) <= Offset(items, m)
    ensures BytesUpTo(order, items, m)[..Offset(items, n)] == BytesUpTo(order, items, n)
    decreases m
  {
    if n < m {
      BytesPrefix(order, items, n, m - 1);
    }
  }

  lemma {:induction false} OffsetBound(items: seq<Item>, n: nat)
    requires n <= |items|
    ensures Offset(items, n) <= ItemsSize(items)
  {
    BytesPrefix(LittleEndian, items, n, |items|);
  }

  /** The store at item n writes its bytes at offset Offset(items, n). */
  lemma {:induction false} StoreAt(order: ByteOrder, items: seq<Item>, n: nat)
    requires n < |items|
    ensures Offset(items, n) + Width(items[n]) <= |Bytes(order, items)|
    ensures Bytes(order, items)[Offset(items, n)..Offset(items, n) + Width(items[n])]
         == ItemBytes(order, items[n])
  {
    BytesPrefix(order, items, n + 1, |items|);
    var bs := Bytes(order, items);
    assert bs[..Offset(items, n + 1)] == BytesUpTo(order, items, n) + ItemBytes(order, items[n]);
    assert bs[Offset(items, n)..Offset(items, n) + Width(items[n])]
        == bs[..Offset(items, n + 1)][Offset(items, n)..];
  }

  /** Loading at the offset of the store at item n gives back the stored value. */
  lemma {:induction false} ReadItemAt(order: ByteOrder, items: seq<Item>, n: nat)
    requires n < |items|
    ensures Offset(items, n) + Width(items[n]) <= |Bytes(order, items)|
    ensures items[n].Word? ==> ReadWord(order, Bytes(order, items), Offset(items, n)) == items[n].w
    ensures items[n].Counter? ==> ReadCounter(order, Bytes(order, items), Offset(items, n)) == items[n].c
  {
    StoreAt(order, items, n);
    Pow256Widths();
    match items[n]
    case Word(w) => DecodeEncode(order, w, 4);
    case Counter(c) => DecodeEncode(order, c, 8);
  }

  lemma {:induction false} ReadWordAt(order: ByteOrder, items: seq<Item>, n: nat, off: nat, w: uint32)
    requires n < |items| && items[n] == Word(w) && off == Offset(items, n)
    ensures off + 4 <= |Bytes(order, items)|
    ensures ReadWord(order, Bytes(order, items), off) == w
  {
    ReadItemAt(order, items, n);
  }

  lemma {:induction false} ReadCounterAt(order: ByteOrder, items: seq<Item>, n: nat, off: nat, c: uint64)
    requires n < |items| && items[n] == Counter(c) && off == Offset(items, n)
    ensures off + 8 <= |Bytes(order, items)|
    ensures ReadCounter(order, Bytes(order, items), off) == c
  {
    ReadItemAt(order, items, n);
  }

  /** Within a run of stores that starts at item n, the j-th store is item
      n + j and the offset has moved by the run's first j stores. */
  lemma {:induction false} RunOffset(items: seq<Item>, n: nat, run: seq<Item>, rest: seq<Item>, j: nat)
    requires n <= |items| && items[n..] == run + rest && j <= |run|
    ensures n + j <= |items|
    ensures Offset(items, n + j) == Offset(items, n) + Offset(run, j)
    ensures j < |run| ==> items[n + j] == run[j]
  {
    assert |items| == n + |run| + |rest|;
    if j < |run| {
      assert items[n + j] == items[n..][j] == run[j];
    }
    if j > 0 {
      RunOffset(items, n, run, rest, j - 1);
      assert items[n + j - 1] == items[n..][j - 1] == run[j - 1];
    }
  }

  /** Passing over `head` in a suffix of the stores. */
  lemma {:induction false} SuffixSkip(items: seq<Item>, n: nat, head: seq<Item>, rest: seq<Item>)
    requires n <= |items| && items[n..] == head + rest
    ensures n + |head| <= |items| && items[n + |head|..] == rest
  {
    assert items[n + |head|..] == items[n..][|head|..];
  }

  /** The stores before item n and those from item n on make up the whole size. */
  lemma {:induction false} SuffixOffset(items: seq<Item>, n: nat)
    requires n <= |items|
    ensures Offset(items, n) + ItemsSize(items[n..]) == ItemsSize(items)
  {
    assert items[n..] == items[n..] + [];
    RunOffset(items, n, items[n..], [], |items| - n);
  }

  /** Passing over `a` where the suffix is grouped as (a + b) + c. */
  lemma {:induction false} SkipHead(items: seq<Item>, n: nat, a: seq<Item>, b: seq<Item>, c: seq<Item>)
    requires n <= |items| && items[n..] == (a + b) + c
    ensures n + |a| <= |items| && items[n + |a|..] == b + c
  {
    assert (a + b) + c == a + (b + c);
    SuffixSkip(items, n, a, b + c);
  }

  /** The sizes of two runs of stores add up. */
  lemma {:induction false} SizeConcat(a: seq<Item>, b: seq<Item>)
    ensures ItemsSize(a + b) == ItemsSize(a) + ItemsSize(b)
  {
    assert (a + b)[|a|..] == b + [];
    RunOffset(a + b, |a|, b, [], |b|);
    assert (a + b)[..|a|] == a[..|a|];
    PrefixAgree(LittleEndian, a + b, a, |a|);
  }

  /** A run of dump_unsigned calls advances the offset by 4 each. */
  lemma {:induction false} WordsOffset(ws: seq<Item>, j: nat)
    requires forall t :: 0 <= t < |ws| ==> ws[t].Word?
    requires j <= |ws|
    ensures Offset(ws, j) == 4 * j
  {
    if j > 0 {
      WordsOffset(ws, j - 1);
    }
  }

  lemma WordsSize(ws: seq<Item>)
    requires forall t :: 0 <= t < |ws| ==> ws[t].Word?
    ensures ItemsSize(ws) == 4 * |ws|
  {
    WordsOffset(ws, |ws|);
  }

  lemma {:induction false} WordAt(order: ByteOrder, items: seq<Item>, n: nat, ws: seq<Item>,
                                  rest: seq<Item>, j: nat)
    requires forall t :: 0 <= t < |ws| ==> ws[t].Word?
    requires n <= |items| && items[n..] == ws + rest && j < |ws|
    ensures Offset(items, n) + 4 * j + 4 <= |Bytes(order, items)|
    ensures ReadWord(order, Bytes(order, items), Offset(items, n) + 4 * j) == ws[j].w
  {
    RunOffset(items, n, ws, rest, j);
    WordsOffset(ws, j);
    ReadWordAt(order, items, n + j, Offset(items, n) + 4 * j, ws[j].w);
  }

  // ---------------------------------------------------------------------
  // The records gcov_convert stores, in order

  function HeaderItems(d: InfoData, gcov12: bool): seq<Item> {
    [Word(GCOV_DATA_MAGIC), Word(d.version), Word(d.stamp)]
      + (if gcov12 then [Word(d.checksum)] else [])
  }

  function FunctionHeaderItems(f: FnData, gcov12: bool): seq<Item> {
    [Word(GCOV_TAG_FUNCTION), Word(FunctionLength(gcov12)), Word(f.ident),
     Word(f.linenoChecksum), Word(f.cfgChecksum)]
  }

  /** One dump_counter per value, in order. */
  function CounterItems(vs: seq<uint64>): seq<Item> {
    seq(|vs|, x requires 0 <= x < |vs| => Counter(vs[x]))
  }

  /** The record of merged counter kind k: tag, length, then the values. */
  function CounterRecordItems(k: nat, vs: seq<uint64>, gcov12: bool): seq<Item> {
    [Word(TagForCounter(k)), Word(CounterLength(|vs|, gcov12))] + CounterItems(vs)
  }

  /** The counter records of function f for the kinds k.. in increasing kind
      order; the record of a merged kind takes the next unused `ctrs` slot. */
  function KindRecordItems(f: FnData, merge: seq<bool>, k: nat, gcov12: bool): seq<Item>
    requires |f.ctrs| == MergedCount(merge) && k <= |merge|
    decreases |merge| - k
  {
    if k == |merge| then []
    else if merge[k] then
      MergedBeforeIncreases(merge, k, |merge|);
      CounterRecordItems(k, f.ctrs[MergedBefore(merge, k)], gcov12)
        + KindRecordItems(f, merge, k + 1, gcov12)
    else KindRecordItems(f, merge, k + 1, gcov12)
  }

  function FunctionRecordItems(d: InfoData, i: nat, gcov12: bool): seq<Item>
    requires Shaped(d) && i < |d.functions|
  {
    FunctionHeaderItems(d.functions[i], gcov12) + KindRecordItems(d.functions[i], d.merge, 0, gcov12)
  }

  /** The records of functions i.., in index order. */
  function FunctionItems(d: InfoData, i: nat, gcov12: bool): seq<Item>
    requires Shaped(d) && i <= |d.functions|
    decreases |d.functions| - i
  {
    if i == |d.functions| then []
    else FunctionRecordItems(d, i, gcov12) + FunctionItems(d, i + 1, gcov12)
  }

  /** The records of functions i.. open with the record of function i, its
      counter records, then those of the later functions. */
  lemma {:induction false} FunctionItemsSplit(d: InfoData, i: nat, gcov12: bool)
    requires Shaped(d) && i < |d.functions|
    ensures FunctionItems(d, i, gcov12) == FunctionHeaderItems(d.functions[i], gcov12)
      + (KindRecordItems(d.functions[i], d.merge, 0, gcov12) + FunctionItems(d, i + 1, gcov12))
  {
    Regroup(FunctionItems(d, i, gcov12), FunctionHeaderItems(d.functions[i], gcov12),
            KindRecordItems(d.functions[i], d.merge, 0, gcov12), FunctionItems(d, i + 1, gcov12));
  }

  /** Every store gcov_convert makes, in order. */
  function Records(d: InfoData, gcov12: bool): seq<Item>
    requires Shaped(d)
  {
    HeaderItems(d, gcov12) + FunctionItems(d, 0, gcov12)
  }

  /** The .gcda image. */
  function Image(d: InfoData, gcov12: bool, order: ByteOrder): seq<byte>
    requires Shaped(d)
  {
    Bytes(order, Records(d, gcov12))
  }

  // ---------------------------------------------------------------------
  // The size in closed form

  function HeaderSize(gcov12: bool): nat {
    if gcov12 then 16 else 12
  }

  /** The number of values in the first m counter slots. */
  function NumSum(ctrs: seq<seq<uint64>>, m: nat): nat
    requires m <= |ctrs|
  {
    if m == 0 then 0 else NumSum(ctrs, m - 1) + |ctrs[m - 1]|
  }

  /** The bytes taken by the counter records of kinds below k: 8 bytes of tag
      and length plus 8 per value for each merged kind. */
  function KindOffset(f: FnData, merge: seq<bool>, k: nat): nat
    requires k <= |merge| && |f.ctrs| == MergedCount(merge)
  {
    MergedBeforeIncreases(merge, k, |merge|);
    8 * MergedBefore(merge, k) + 8 * NumSum(f.ctrs, MergedBefore(merge, k))
  }

  /** 20 bytes of function record plus, for each merged kind, 8 + 8 * num. */
  function FunctionSize(d: InfoData, i: nat): nat
    requires Shaped(d) && i < |d.functions|
  {
    var m := MergedCount(d.merge);
    20 + 8 * m + 8 * NumSum(d.functions[i].ctrs, m)
  }

  /** The bytes taken by the records of functions 0..n. */
  function FunctionsSize(d: InfoData, n: nat): nat
    requires Shaped(d) && n <= |d.functions|
  {
    if n == 0 then 0 else FunctionsSize(d, n - 1) + FunctionSize(d, n - 1)
  }

  /** The size gcov_convert returns. */
  function ConvertedSize(d: InfoData, gcov12: bool): nat
    requires Shaped(d)
  {
    HeaderSize(gcov12) + FunctionsSize(d, |d.functions|)
  }

  /** Where the record of function i starts. */
  function FunctionOffset(d: InfoData, gcov12: bool, i: nat): nat
    requires Shaped(d) && i <= |d.functions|
  {
    HeaderSize(gcov12) + FunctionsSize(d, i)
  }

  /** Where the record of counter kind k of function i starts. */
  function CounterOffset(d: InfoData, gcov12: bool, i: nat, k: nat): nat
    requires Shaped(d) && i < |d.functions| && k <= |d.merge|
  {
    FunctionOffset(d, gcov12, i) + 20 + KindOffset(d.functions[i], d.merge, k)
  }

  /** A run of dump_counter calls advances the offset by 8 each. */
  lemma {:induction false} CountersOffset(vs: seq<uint64>, x: nat)
    requires x <= |vs|
    ensures Offset(CounterItems(vs), x) == 8 * x
  {
    if x > 0 {
      CountersOffset(vs, x - 1);
    }
  }

  lemma {:induction false} CounterRecordSize(k: nat, vs: seq<uint64>, gcov12: bool)
    ensures ItemsSize(CounterRecordItems(k, vs, gcov12)) == 8 + 8 * |vs|
  {
    var hs := [Word(TagForCounter(k)), Word(CounterLength(|vs|, gcov12))];
    SizeConcat(hs, CounterItems(vs));
    WordsSize(hs);
    CountersOffset(vs, |vs|);
  }

  /** Stepping over the record of kind k (if merged) advances KindOffset. */
  lemma {:induction false} KindOffsetStep(d: InfoData, i: nat, k: nat)
    requires Shaped(d) && i < |d.functions| && k < |d.merge|
    ensures d.merge[k] ==>
      MergedBefore(d.merge, k) < |d.functions[i].ctrs| &&
      KindOffset(d.functions[i], d.merge, k + 1) ==
        KindOffset(d.functions[i], d.merge, k) + 8 + 8 * |d.functions[i].ctrs[MergedBefore(d.merge, k)]|
    ensures !d.merge[k] ==>
      KindOffset(d.functions[i], d.merge, k + 1) == KindOffset(d.functions[i], d.merge, k)
  {
    MergedBeforeIncreases(d.merge, k, |d.merge|);
    MergedBeforeIncreases(d.merge, k + 1, |d.merge|);
  }

  lemma {:induction false} KindRecordsSize(d: InfoData, i: nat, k: nat, gcov12: bool)
    requires Shaped(d) && i < |d.functions| && k <= |d.merge|
    ensures KindOffset(d.functions[i], d.merge, k) + ItemsSize(KindRecordItems(d.functions[i], d.merge, k, gcov12))
         == KindOffset(d.functions[i], d.merge, |d.merge|)
    decreases |d.merge| - k
  {
    if k < |d.merge| {
      KindRecordsSize(d, i, k + 1, gcov12);
      KindOffsetStep(d, i, k);
      if d.merge[k] {
        var vs := d.functions[i].ctrs[MergedBefore(d.merge, k)];
        CounterRecordSize(k, vs, gcov12);
        SizeConcat(CounterRecordItems(k, vs, gcov12), KindRecordItems(d.functions[i], d.merge, k + 1, gcov12));
      }
    }
  }

  lemma {:induction false} FunctionRecordSize(d: InfoData, i: nat, gcov12: bool)
    requires Shaped(d) && i < |d.functions|
    ensures ItemsSize(FunctionRecordItems(d, i, gcov12)) == FunctionSize(d, i)
  {
    KindRecordsSize(d, i, 0, gcov12);
    WordsSize(FunctionHeaderItems(d.functions[i], gcov12));
    SizeConcat(FunctionHeaderItems(d.functions[i], gcov12), KindRecordItems(d.functions[i], d.merge, 0, gcov12));
    assert KindOffset(d.functions[i], d.merge, 0) == 0;
  }

  lemma {:induction false} FunctionItemsSize(d: InfoData, i: nat, gcov12: bool)
    requires Shaped(d) && i <= |d.functions|
    ensures FunctionsSize(d, i) + ItemsSize(FunctionItems(d, i, gcov12))
         == FunctionsSize(d, |d.functions|)
    decreases |d.functions| - i
  {
    if i < |d.functions| {
      FunctionItemsSize(d, i + 1, gcov12);
      FunctionRecordSize(d, i, gcov12);
      SizeConcat(FunctionRecordItems(d, i, gcov12), FunctionItems(d, i + 1, gcov12));
    }
  }

  lemma {:induction false} HeaderItemsSize(d: InfoData, gcov12: bool)
    ensures ItemsSize(HeaderItems(d, gcov12)) == HeaderSize(gcov12)
  {
    WordsSize(HeaderItems(d, gcov12));
  }

  /** The size of the image is 12 bytes (16 with GCOV_12_FORMAT) plus, per
      function, 20 bytes plus 8 + 8 * num for each merged counter kind. */
  lemma {:induction false} ConvertedSizeFormula(d: InfoData, gcov12: bool, order: ByteOrder)
    requires Shaped(d)
    ensures |Image(d, gcov12, order)| == ConvertedSize(d, gcov12)
    ensures ItemsSize(Records(d, gcov12)) == ConvertedSize(d, gcov12)
  {
    HeaderItemsSize(d, gcov12);
    FunctionItemsSize(d, 0, gcov12);
    SizeConcat(HeaderItems(d, gcov12), FunctionItems(d, 0, gcov12));
  }

  // ---------------------------------------------------------------------
  // Where each record lands

  lemma {:induction false} CounterAt(order: ByteOrder, items: seq<Item>, n: nat, vs: seq<uint64>,
                                     rest: seq<Item>, x: nat)
    requires n <= |items| && items[n..] == CounterItems(vs) + rest && x < |vs|
    ensures Offset(items, n) + 8 * x + 8 <= |Bytes(order, items)|
    ensures ReadCounter(order, Bytes(order, items), Offset(items, n) + 8 * x) == vs[x]
  {
    RunOffset(items, n, CounterItems(vs), rest, x);
    CountersOffset(vs, x);
    ReadCounterAt(order, items, n + x, Offset(items, n) + 8 * x, vs[x]);
  }

  /** A run of dump_counter stores starting at item n reads back as the
      counter values, 8 bytes apart. */
  lemma {:induction false} CountersAt(order: ByteOrder, items: seq<Item>, n: nat, vs: seq<uint64>,
                                      rest: seq<Item>, bs: seq<byte>, o: nat)
    requires n <= |items| && items[n..] == CounterItems(vs) + rest
    requires bs == Bytes(order, items) && o == Offset(items, n)
    ensures CountersIn(order, bs, o, vs)
  {
    forall x | 0 <= x < |vs|
      ensures o + 8 * x + 8 <= |bs|
      ensures ReadCounter(order, bs, o + 8 * x) == vs[x]
    {
      CounterAt(order, items, n, vs, rest, x);
    }
    if vs != [] {
      CounterAt(order, items, n, vs, rest, |vs| - 1);
    } else {
      OffsetBound(items, n);
    }
  }

  /** bs starts with the file header: the magic, the version, the stamp and,
      with GCOV_12_FORMAT, the checksum. */
  ghost predicate HeaderIn(order: ByteOrder, bs: seq<byte>, d: InfoData, gcov12: bool) {
    HeaderSize(gcov12) <= |bs| &&
    ReadWord(order, bs, 0) == GCOV_DATA_MAGIC &&
    ReadWord(order, bs, 4) == d.version &&
    ReadWord(order, bs, 8) == d.stamp &&
    (gcov12 ==> ReadWord(order, bs, 12) == d.checksum)
  }

  lemma {:induction false} HeaderRead(order: ByteOrder, items: seq<Item>, d: InfoData, gcov12: bool,
                                      rest: seq<Item>, bs: seq<byte>)
    requires items == HeaderItems(d, gcov12) + rest && bs == Bytes(order, items)
    ensures HeaderIn(order, bs, d, gcov12)
  {
    var hs := HeaderItems(d, gcov12);
    assert items[0..] == hs + rest;
    assert Offset(items, 0) == 0;
    WordAt(order, items, 0, hs, rest, 0);
    WordAt(order, items, 0, hs, rest, 1);
    WordAt(order, items, 0, hs, rest, 2);
    if gcov12 {
      WordAt(order, items, 0, hs, rest, 3);
    }
  }

  /** The image starts with the file header. */
  lemma {:induction false} HeaderAt(d: InfoData, gcov12: bool, order: ByteOrder)
    requires Shaped(d)
    ensures HeaderIn(order, Image(d, gcov12, order), d, gcov12)
  {
    HeaderRead(order, Records(d, gcov12), d, gcov12, FunctionItems(d, 0, gcov12), Image(d, gcov12, order));
  }

  /** In a run of stores that holds the records of functions 0.. from item p
      on, the records of functions i.. follow. */
  lemma {:induction false} FunctionsFrom(d: InfoData, gcov12: bool, i: nat, items: seq<Item>, p: nat)
    returns (n: nat)
    requires Shaped(d) && i <= |d.functions|
    requires p <= |items| && items[p..] == FunctionItems(d, 0, gcov12)
    ensures n <= |items| && items[n..] == FunctionItems(d, i, gcov12)
  {
    if i == 0 {
      n := p;
    } else {
      var m := FunctionsFrom(d, gcov12, i - 1, items, p);
      SuffixSkip(items, m, FunctionRecordItems(d, i - 1, gcov12), FunctionItems(d, i, gcov12));
      n := m + |FunctionRecordItems(d, i - 1, gcov12)|;
    }
  }

  /** The records of functions i.. are a suffix of the stores, starting at
      byte offset FunctionOffset(i). */
  lemma {:induction false} FunctionItemsSuffix(d: InfoData, gcov12: bool, i: nat) returns (n: nat)
    requires Shaped(d) && i <= |d.functions|
    ensures n <= |Records(d, gcov12)|
    ensures Records(d, gcov12)[n..] == FunctionItems(d, i, gcov12)
    ensures Offset(Records(d, gcov12), n) == FunctionOffset(d, gcov12, i)
  {
    var items := Records(d, gcov12);
    assert items[0..] == HeaderItems(d, gcov12) + FunctionItems(d, 0, gcov12);
    SuffixSkip(items, 0, HeaderItems(d, gcov12), FunctionItems(d, 0, gcov12));
    n := FunctionsFrom(d, gcov12, i, items, |HeaderItems(d, gcov12)|);
    SuffixOffset(items, n);
    ConvertedSizeFormula(d, gcov12, LittleEndian);
    FunctionItemsSize(d, i, gcov12);
  }

  /** At byte offset o of bs there is a function record header: GCOV_TAG_FUNCTION,
      the function length, then ident, lineno_checksum and cfg_checksum of f. */
  ghost predicate FunctionHeaderIn(order: ByteOrder, bs: seq<byte>, o: nat, f: FnData, gcov12: bool) {
    o + 20 <= |bs| &&
    ReadWord(order, bs, o) == GCOV_TAG_FUNCTION &&
    ReadWord(order, bs, o + 4) == FunctionLength(gcov12) &&
    ReadWord(order, bs, o + 8) == f.ident &&
    ReadWord(order, bs, o + 12) == f.linenoChecksum &&
    ReadWord(order, bs, o + 16) == f.cfgChecksum
  }

  /** A function record's five header words read back at its offset. */
  lemma {:induction false} FunctionHeaderRead(order: ByteOrder, items: seq<Item>, n: nat, f: FnData,
                                              gcov12: bool, rest: seq<Item>, bs: seq<byte>, o: nat)
    requires n <= |items| && items[n..] == FunctionHeaderItems(f, gcov12) + rest
    requires bs == Bytes(order, items) && o == Offset(items, n)
    ensures FunctionHeaderIn(order, bs, o, f, gcov12)
  {
    var hs := FunctionHeaderItems(f, gcov12);
    WordAt(order, items, n, hs, rest, 0);
    WordAt(order, items, n, hs, rest, 1);
    WordAt(order, items, n, hs, rest, 2);
    WordAt(order, items, n, hs, rest, 3);
    WordAt(order, items, n, hs, rest, 4);
  }

  /** Function i's record starts, at the offset the size formula gives, with
      GCOV_TAG_FUNCTION, the function length, ident, lineno_checksum and
      cfg_checksum. */
  lemma {:induction false} FunctionRecordAt(d: InfoData, gcov12: bool, order: ByteOrder, i: nat)
    requires Shaped(d) && i < |d.functions|
    ensures FunctionHeaderIn(order, Image(d, gcov12, order), FunctionOffset(d, gcov12, i),
                             d.functions[i], gcov12)
  {
    var n := FunctionItemsSuffix(d, gcov12, i);
    var rest := KindRecordItems(d.functions[i], d.merge, 0, gcov12) + FunctionItems(d, i + 1, gcov12);
    assert FunctionItems(d, i, gcov12) == FunctionHeaderItems(d.functions[i], gcov12) + rest;
    FunctionHeaderRead(order, Records(d, gcov12), n, d.functions[i], gcov12, rest,
                       Image(d, gcov12, order), FunctionOffset(d, gcov12, i));
  }

  /** Passing over the record of kind k (nothing, when k is not merged). */
  lemma {:induction false} KindStep(d: InfoData, gcov12: bool, i: nat, k: nat, items: seq<Item>,
                                    m: nat, later: seq<Item>) returns (n: nat)
    requires Shaped(d) && i < |d.functions| && k < |d.merge|
    requires m <= |items| && items[m..] == KindRecordItems(d.functions[i], d.merge, k, gcov12) + later
    ensures n <= |items| && items[n..] == KindRecordItems(d.functions[i], d.merge, k + 1, gcov12) + later
  {
    if d.merge[k] {
      MergedBeforeIncreases(d.merge, k, |d.merge|);
      var cr := CounterRecordItems(k, d.functions[i].ctrs[MergedBefore(d.merge, k)], gcov12);
      assert KindRecordItems(d.functions[i], d.merge, k, gcov12) == cr + KindRecordItems(d.functions[i], d.merge, k + 1, gcov12);
      SkipHead(items, m, cr, KindRecordItems(d.functions[i], d.merge, k + 1, gcov12), later);
      n := m + |cr|;
    } else {
      n := m;
    }
  }

  /** In a run of stores that holds the counter records of function i from
      item p on, the records of kinds k.. follow. */
  lemma {:induction false} KindsFrom(d: InfoData, gcov12: bool, i: nat, k: nat, items: seq<Item>,
                                     p: nat, later: seq<Item>) returns (n: nat)
    requires Shaped(d) && i < |d.functions| && k <= |d.merge|
    requires p <= |items| && items[p..] == KindRecordItems(d.functions[i], d.merge, 0, gcov12) + later
    ensures n <= |items| && items[n..] == KindRecordItems(d.functions[i], d.merge, k, gcov12) + later
  {
    if k == 0 {
      n := p;
    } else {
      var m := KindsFrom(d, gcov12, i, k - 1, items, p, later);
      n := KindStep(d, gcov12, i, k - 1, items, m, later);
    }
  }

  /** The counter records of function i for kinds k.., followed by the later
      functions, are a suffix of the stores starting at CounterOffset(i, k). */
  lemma {:induction false} KindItemsSuffix(d: InfoData, gcov12: bool, i: nat, k: nat) returns (n: nat)
    requires Shaped(d) && i < |d.functions| && k <= |d.merge|
    ensures n <= |Records(d, gcov12)|
    ensures Records(d, gcov12)[n..] == KindRecordItems(d.functions[i], d.merge, k, gcov12) + FunctionItems(d, i + 1, gcov12)
    ensures Offset(Records(d, gcov12), n) == CounterOffset(d, gcov12, i, k)
  {
    var items, later := Records(d, gcov12), FunctionItems(d, i + 1, gcov12);
    var m := FunctionItemsSuffix(d, gcov12, i);
    var hs := FunctionHeaderItems(d.functions[i], gcov12);
    FunctionItemsSplit(d, i, gcov12);
    SuffixSkip(items, m, hs, KindRecordItems(d.functions[i], d.merge, 0, gcov12) + later);
    n := KindsFrom(d, gcov12, i, k, items, m + |hs|, later);
    KindOffsetArith(d, gcov12, i, k, items, n);
  }

  /** The offset of a suffix of the stores follows from the sizes of what it holds. */
  lemma {:induction false} KindOffsetArith(d: InfoData, gcov12: bool, i: nat, k: nat, items: seq<Item>, n: nat)
    requires Shaped(d) && i < |d.functions| && k <= |d.merge|
    requires items == Records(d, gcov12)
    requires n <= |items| && items[n..] == KindRecordItems(d.functions[i], d.merge, k, gcov12) + FunctionItems(d, i + 1, gcov12)
    ensures Offset(items, n) == CounterOffset(d, gcov12, i, k)
  {
    SuffixOffset(items, n);
    SizeConcat(KindRecordItems(d.functions[i], d.merge, k, gcov12), FunctionItems(d, i + 1, gcov12));
    ConvertedSizeFormula(d, gcov12, LittleEndian);
    KindRecordsSize(d, i, k, gcov12);
    FunctionItemsSize(d, i + 1, gcov12);
    MergedBeforeIncreases(d.merge, 0, |d.merge|);
  }

  /** At byte offset o of bs there is the record of counter kind k with values
      vs: the tag GCOV_TAG_FOR_COUNTER(k), the length num * 2 * GCOV_UNIT_SIZE,
      then the values in order, 8 bytes each. */
  ghost predicate CounterRecordIn(order: ByteOrder, bs: seq<byte>, o: nat, k: nat, vs: seq<uint64>,
                                  gcov12: bool) {
    WordsIn(order, bs, o, TagForCounter(k), CounterLength(|vs|, gcov12)) && CountersIn(order, bs, o + 8, vs)
  }

  /** bs holds the words w0 and w1 at offsets o and o + 4. */
  ghost predicate WordsIn(order: ByteOrder, bs: seq<byte>, o: nat, w0: nat, w1: nat) {
    o + 8 <= |bs| && ReadWord(order, bs, o) == w0 && ReadWord(order, bs, o + 4) == w1
  }

  /** bs holds the counters vs, 8 bytes apart from offset o. */
  ghost predicate CountersIn(order: ByteOrder, bs: seq<byte>, o: nat, vs: seq<uint64>) {
    o + 8 * |vs| <= |bs| && forall x :: 0 <= x < |vs| ==> ReadCounter(order, bs, o + 8 * x) == vs[x]
  }

  /** A counter record reads back as its tag, its length and its values. */
  lemma {:induction false} CounterRecordRead(order: ByteOrder, items: seq<Item>, n: nat, k: nat,
                                             vs: seq<uint64>, gcov12: bool, later: seq<Item>,
                                             bs: seq<byte>, o: nat)
    requires n <= |items| && items[n..] == CounterRecordItems(k, vs, gcov12) + later
    requires bs == Bytes(order, items) && o == Offset(items, n)
    ensures CounterRecordIn(order, bs, o, k, vs, gcov12)
  {
    var hs := [Word(TagForCounter(k)), Word(CounterLength(|vs|, gcov12))];
    Regroup(items[n..], hs, CounterItems(vs), later);
    TwoWordsRead(order, items, n, hs, CounterItems(vs) + later, bs, o);
    CountersAt(order, items, n + 2, vs, later, bs, o + 8);
  }

  lemma {:induction false} Regroup(s: seq<Item>, a: seq<Item>, b: seq<Item>, c: seq<Item>)
    requires s == (a + b) + c
    ensures s == a + (b + c)
  {
  }

  /** Two dump_unsigned stores at item n read back 4 bytes apart, and the
      stores after them start 8 bytes on. */
  lemma {:induction false} TwoWordsRead(order: ByteOrder, items: seq<Item>, n: nat, hs: seq<Item>,
                                        rest: seq<Item>, bs: seq<byte>, o: nat)
    requires |hs| == 2 && hs[0].Word? && hs[1].Word?
    requires n <= |items| && items[n..] == hs + rest
    requires bs == Bytes(order, items) && o == Offset(items, n)
    ensures WordsIn(order, bs, o, hs[0].w, hs[1].w)
    ensures n + 2 <= |items| && Offset(items, n + 2) == o + 8 && items[n + 2..] == rest
  {
    WordAt(order, items, n, hs, rest, 0);
    WordAt(order, items, n, hs, rest, 1);
    RunOffset(items, n, hs, rest, 2);
    WordsOffset(hs, 2);
    SuffixSkip(items, n, hs, rest);
  }

  /** The record of a merged kind k of function i sits at the offset the size
      formula gives and holds the values of the ctrs slot that belongs to k. */
  lemma {:induction false} CounterRecordAt(d: InfoData, gcov12: bool, order: ByteOrder, i: nat, k: nat)
    requires Shaped(d) && i < |d.functions| && k < |d.merge| && d.merge[k]
    ensures MergedBefore(d.merge, k) < |d.functions[i].ctrs|
    ensures CounterRecordIn(order, Image(d, gcov12, order), CounterOffset(d, gcov12, i, k), k,
                            d.functions[i].ctrs[MergedBefore(d.merge, k)], gcov12)
  {
    MergedBeforeIncreases(d.merge, k, |d.merge|);
    var vs := d.functions[i].ctrs[MergedBefore(d.merge, k)];
    var cr := CounterRecordItems(k, vs, gcov12);
    var later := KindRecordItems(d.functions[i], d.merge, k + 1, gcov12) + FunctionItems(d, i + 1, gcov12);
    var n := KindItemsSuffix(d, gcov12, i, k);
    assert KindRecordItems(d.functions[i], d.merge, k, gcov12) == cr + KindRecordItems(d.functions[i], d.merge, k + 1, gcov12);
    SkipHead(Records(d, gcov12), n, cr, KindRecordItems(d.functions[i], d.merge, k + 1, gcov12), FunctionItems(d, i + 1, gcov12));
    assert Records(d, gcov12)[n..] == cr + later;
    CounterRecordRead(order, Records(d, gcov12), n, k, vs, gcov12, later,
                      Image(d, gcov12, order), CounterOffset(d, gcov12, i, k));
  }
}

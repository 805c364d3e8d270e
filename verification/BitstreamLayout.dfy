/**
 Where each byte of the client's slice data lies in a submission, and what the offset table says of it, in the
 extents' own numbers.
 */
module BitstreamLayout {
  import opened Words
  import opened BitstreamModel

  /** Bytes of the start code in front of each slice. */
  function HeaderSize(codec: Codec): nat {
    if codec.H264? then 3 else 0
  }

  /** Bytes of the first `q` slices of one slice-data buffer. */
  function SizeOfParts(codec: Codec, params: seq<Extent>, q: nat): nat
    requires q <= |params|
  {
    if q == 0 then 0 else SizeOfParts(codec, params, q - 1) + HeaderSize(codec) + params[q - 1].size
  }

  /** Bytes and slices of the first `p` pairs. */
  function SizeOfPairs(codec: Codec, pairs: seq<Pair>, p: nat): nat
    requires p <= |pairs|
  {
    if p == 0 then 0
    else
      var params := pairs[p - 1].params;
      SizeOfPairs(codec, pairs, p - 1) + SizeOfParts(codec, params, |params|)
  }

  function SlicesOfPairs(pairs: seq<Pair>, p: nat): nat
    requires p <= |pairs|
  {
    if p == 0 then 0 else SlicesOfPairs(pairs, p - 1) + |pairs[p - 1].params|
  }

  ghost predicate AllInRange(pairs: seq<Pair>) {
    forall p :: 0 <= p < |pairs| ==> InRange(pairs[p].params, pairs[p].data)
  }

  // ---------------------------------------------------------------- slices

  /** The part of `data` that an extent names, byte for byte. */
  ghost predicate IsPart(slice: seq<Byte>, e: Extent, data: seq<Byte>) {
    && |slice| == e.size && e.offset + |slice| <= |data|
    && forall j :: 0 <= j < |slice| ==> slice[j] == data[e.offset + j]
  }

  lemma CutIsPart(data: seq<Byte>, e: Extent)
    requires e.offset + e.size <= |data|
    ensures IsPart(Cut(data, e), e, data)
  {
  }

  lemma {:induction false} PartAt(params: seq<Extent>, data: seq<Byte>, q: nat)
    requires q < |params|
    ensures |SlicesOf(params, data)| == |params|
    ensures SlicesOf(params, data)[..q] == SlicesOf(params[..q], data)
    ensures SlicesOf(params, data)[q] == Cut(data, params[q])
  {
    SlicesOfLength(params, data);
    SlicesOfPrefix(params, data, q);
    SlicesOfPrefix(params, data, q + 1);
    SlicesOfStep(params, data, q);
    SlicesOfLength(params[..q], data);
    var all := SlicesOf(params, data);
    hide SlicesOf;
    hide Cut;
    assert all[q] == all[..q + 1][q];
  }

  /** Slice `q` of pair `p` among all slices. */
  lemma {:induction false} SliceAt(pairs: seq<Pair>, p: nat, q: nat)
    requires p < |pairs| && q < |pairs[p].params|
    ensures var k := SlicesOfPairs(pairs, p) + q;
            && k < |AllSlices(pairs)|
            && AllSlices(pairs)[..k] == AllSlices(pairs[..p]) + SlicesOf(pairs[p].params[..q], pairs[p].data)
            && AllSlices(pairs)[k] == Cut(pairs[p].data, pairs[p].params[q])
  {
    var n := |pairs| - 1;
    var last := pairs[n];
    AllSlicesLength(pairs[..n]);
    SlicesOfPairsPrefix(pairs, n, n);
    var front, back := AllSlices(pairs[..n]), SlicesOf(last.params, last.data);
    assert AllSlices(pairs) == front + back;
    if p < n {
      SliceAt(pairs[..n], p, q);
      SlicesOfPairsPrefix(pairs, n, p);
      assert pairs[..n][..p] == pairs[..p];
      hide AllSlices;
      hide SlicesOf;
      hide Cut;
      FrontOf(front, back, SlicesOfPairs(pairs, p) + q);
    } else {
      PartAt(last.params, last.data, q);
      hide AllSlices;
      hide SlicesOf;
      hide Cut;
      BackOf(front, back, q);
    }
  }

  lemma FrontOf<T>(a: seq<T>, b: seq<T>, k: nat)
    requires k < |a|
    ensures (a + b)[..k] == a[..k] && (a + b)[k] == a[k]
  {
  }

  lemma BackOf<T>(a: seq<T>, b: seq<T>, q: nat)
    requires q < |b|
    ensures (a + b)[..|a| + q] == a + b[..q] && (a + b)[|a| + q] == b[q]
  {
  }

  lemma {:induction false} AllSlicesLength(pairs: seq<Pair>)
    ensures |AllSlices(pairs)| == SlicesOfPairs(pairs, |pairs|)
  {
    if pairs != [] {
      var n := |pairs| - 1;
      AllSlicesLength(pairs[..n]);
      SlicesOfPairsPrefix(pairs, n, n);
      SlicesOfLength(pairs[n].params, pairs[n].data);
    }
  }

  lemma {:induction false} SlicesOfPairsPrefix(pairs: seq<Pair>, n: nat, p: nat)
    requires p <= n <= |pairs|
    ensures SlicesOfPairs(pairs[..n], p) == SlicesOfPairs(pairs, p)
  {
    if p > 0 {
      SlicesOfPairsPrefix(pairs, n, p - 1);
    }
  }

  // ---------------------------------------------------------------- the stream

  lemma {:induction false} StreamJoin(codec: Codec, a: seq<seq<Byte>>, b: seq<seq<Byte>>)
    ensures Stream(codec, a + b) == Stream(codec, a) + Stream(codec, b)
  {
    if b == [] {
      assert a + b == a;
    } else {
      var n := |b| - 1;
      assert a + b == a + b[..n] + [b[n]];
      assert b == b[..n] + [b[n]];
      StreamJoin(codec, a, b[..n]);
      StreamSnoc(codec, a + b[..n], b[n]);
      StreamSnoc(codec, b[..n], b[n]);
      Join(Stream(codec, a), Stream(codec, b[..n]), Chunk(codec, b[n]));
      hide Stream;
      hide Chunk;
    }
  }

  /** Chunk `k` lies behind the chunks before it. */
  lemma ChunkAt(codec: Codec, slices: seq<seq<Byte>>, k: nat)
    requires k < |slices|
    ensures Stream(codec, slices[..k]) + Chunk(codec, slices[k]) == Stream(codec, slices[..k + 1])
    ensures Stream(codec, slices[..k + 1]) <= Stream(codec, slices)
  {
    assert slices[..k + 1] == slices[..k] + [slices[k]];
    StreamSnoc(codec, slices[..k], slices[k]);
    assert slices == slices[..k + 1] + slices[k + 1..];
    StreamJoin(codec, slices[..k + 1], slices[k + 1..]);
    hide Stream;
    hide Chunk;
  }

  lemma {:induction false} PartsLength(codec: Codec, params: seq<Extent>, data: seq<Byte>, q: nat)
    requires q <= |params| && InRange(params, data)
    ensures |Stream(codec, SlicesOf(params[..q], data))| == SizeOfParts(codec, params, q)
    decreases q
  {
    if q > 0 {
      PartsLength(codec, params, data, q - 1);
      SlicesOfStep(params, data, q - 1);
      var done, next := SlicesOf(params[..q - 1], data), Cut(data, params[q - 1]);
      assert |next| == params[q - 1].size;
      StreamSnoc(codec, done, next);
      hide Stream;
      hide SlicesOf;
      hide Cut;
    }
  }

  lemma {:induction false} PairsLength(codec: Codec, pairs: seq<Pair>, p: nat)
    requires p <= |pairs| && AllInRange(pairs)
    ensures |Stream(codec, AllSlices(pairs[..p]))| == SizeOfPairs(codec, pairs, p)
    decreases p
  {
    if p > 0 {
      var pair := pairs[p - 1];
      PairsLength(codec, pairs, p - 1);
      assert pairs[..p][..p - 1] == pairs[..p - 1];
      assert AllSlices(pairs[..p]) == AllSlices(pairs[..p - 1]) + SlicesOf(pair.params, pair.data);
      PartsLength(codec, pair.params, pair.data, |pair.params|);
      assert pair.params[..|pair.params|] == pair.params;
      StreamJoin(codec, AllSlices(pairs[..p - 1]), SlicesOf(pair.params, pair.data));
      hide Stream;
      hide AllSlices;
      hide SlicesOf;
    }
  }

  /** Where slice `q` of pair `p` starts in the stream, start code included. */
  function StartOf(codec: Codec, pairs: seq<Pair>, p: nat, q: nat): nat
    requires p < |pairs| && q < |pairs[p].params|
  {
    SizeOfPairs(codec, pairs, p) + SizeOfParts(codec, pairs[p].params, q)
  }

  lemma StartIsLength(codec: Codec, pairs: seq<Pair>, p: nat, q: nat)
    requires p < |pairs| && q < |pairs[p].params| && AllInRange(pairs)
    ensures var k := SlicesOfPairs(pairs, p) + q;
            k < |AllSlices(pairs)| && |Stream(codec, AllSlices(pairs)[..k])| == StartOf(codec, pairs, p, q)
  {
    SliceAt(pairs, p, q);
    PairsLength(codec, pairs, p);
    PartsLength(codec, pairs[p].params, pairs[p].data, q);
    StreamJoin(codec, AllSlices(pairs[..p]), SlicesOf(pairs[p].params[..q], pairs[p].data));
    hide Stream;
    hide AllSlices;
    hide SlicesOf;
  }

  // ---------------------------------------------------------------- the table

  /** The 32-bit number that four bytes are, lowest first. */
  function Word(b: seq<Byte>, at: nat): int
    requires at + 4 <= |b|
  {
    b[at] as int + 0x100 * (b[at + 1] as int) + 0x1_0000 * (b[at + 2] as int) + 0x100_0000 * (b[at + 3] as int)
  }

  lemma LastWord(front: seq<Byte>, w: U32)
    ensures |U32le(w)| == 4 && Word(front + U32le(w), |front|) == w
  {
    U32leRoundTrip(w);
    var last := U32le(w);
    assert |last| == 4;
    assert FromU32le(last) == Word(last, 0);
    hide U32le;
    assert forall i :: 0 <= i < 4 ==> (front + last)[|front| + i] == last[i];
  }

  lemma EarlierWord(front: seq<Byte>, last: seq<Byte>, at: nat)
    requires at + 4 <= |front|
    ensures Word(front + last, at) == Word(front, at)
  {
  }

  lemma {:induction false} WordAt(ws: seq<U32>, k: nat)
    requires k < |ws|
    ensures |EncodeWords(ws)| == 4 * |ws| && Word(EncodeWords(ws), 4 * k) == ws[k]
  {
    hide Word;
    hide U32le;
    var n := |ws| - 1;
    WordsRoundTrip(ws);
    WordsRoundTrip(ws[..n]);
    var front, last := EncodeWords(ws[..n]), U32le(ws[n]);
    assert EncodeWords(ws) == front + last;
    if k < n {
      WordAt(ws[..n], k);
      hide EncodeWords;
      EarlierWord(front, last, 4 * k);
    } else {
      hide EncodeWords;
      LastWord(front, ws[n]);
    }
  }

  lemma {:induction false} BoundsAt(codec: Codec, slices: seq<seq<Byte>>, k: nat)
    requires k < |slices|
    ensures |Bounds(codec, slices)| == |slices|
    ensures Bounds(codec, slices)[k] ==
            (Wrap32(|Stream(codec, slices[..k])|), Wrap32(|Stream(codec, slices[..k + 1])|))
  {
    hide Stream;
    hide Wrap32;
    var n := |slices| - 1;
    BoundsLength(codec, slices);
    BoundsLength(codec, slices[..n]);
    if k < n {
      BoundsAt(codec, slices[..n], k);
      assert slices[..n][..k] == slices[..k] && slices[..n][..k + 1] == slices[..k + 1];
    } else {
      assert slices[..k + 1] == slices;
    }
  }

  lemma {:induction false} RowsAt(bounds: seq<(U32, U32)>, k: nat)
    requires k < |bounds|
    ensures |Starts(bounds)| == |bounds| && Starts(bounds)[k] == bounds[k].0
    ensures |Flatten(bounds)| == 2 * |bounds|
    ensures Flatten(bounds)[2 * k] == bounds[k].0 && Flatten(bounds)[2 * k + 1] == bounds[k].1
  {
    var n := |bounds| - 1;
    if n > 0 {
      RowsAt(bounds[..n], if k < n then k else 0);
    }
  }

  // ---------------------------------------------------------------- a submission

  function At(base: nat, j: nat): nat {
    base + j
  }

  /** The slice of one extent lies at `at`: the start code, if the codec has one, and the bytes the extent names. */
  ghost predicate LiesAt(codec: Codec, memory: seq<Byte>, at: nat, e: Extent, data: seq<Byte>) {
    && (codec.H264? ==> at + 3 <= |memory| && memory[at] == 0 && memory[at + 1] == 0 && memory[at + 2] == 1)
    && at + HeaderSize(codec) + e.size <= |memory| && e.offset + e.size <= |data|
    && forall j :: 0 <= j < e.size ==> memory[At(at + HeaderSize(codec), j)] == data[At(e.offset, j)]
  }

  lemma PartLies(codec: Codec, memory: seq<Byte>, before: seq<Byte>, slice: seq<Byte>, e: Extent, data: seq<Byte>)
    requires before + Chunk(codec, slice) <= memory && IsPart(slice, e, data)
    ensures LiesAt(codec, memory, |before|, e, data)
  {
    hide IsPart;
    if codec.H264? {
      var front := before + START_CODE;
      assert before + Chunk(codec, slice) == front + slice;
      StartCodeLies(memory, before, front);
      BehindFront(memory, front, slice, e, data);
    } else {
      BehindFront(memory, before, slice, e, data);
    }
    hide Chunk;
    hide At;
  }

  lemma BehindFront(memory: seq<Byte>, front: seq<Byte>, slice: seq<Byte>, e: Extent, data: seq<Byte>)
    requires front + slice <= memory && IsPart(slice, e, data)
    ensures front <= memory && |front| + e.size <= |memory| && e.offset + e.size <= |data|
    ensures forall j :: 0 <= j < e.size ==> memory[At(|front|, j)] == data[At(e.offset, j)]
  {
    forall j | 0 <= j < e.size ensures memory[At(|front|, j)] == data[At(e.offset, j)] {
      assert (front + slice)[|front| + j] == slice[j];
    }
  }

  lemma StartCodeLies(memory: seq<Byte>, before: seq<Byte>, front: seq<Byte>)
    requires front == before + START_CODE && front <= memory
    ensures |before| + 3 <= |memory|
    ensures memory[|before|] == 0 && memory[|before| + 1] == 0 && memory[|before| + 2] == 1
  {
    assert forall i :: 0 <= i < 3 ==> front[|before| + i] == START_CODE[i];
  }

  /** Slice `k` of a stream that a memory starts with. */
  lemma SliceLies(codec: Codec, memory: seq<Byte>, slices: seq<seq<Byte>>, k: nat, e: Extent, data: seq<Byte>)
    requires Stream(codec, slices) <= memory && k < |slices| && IsPart(slices[k], e, data)
    ensures LiesAt(codec, memory, |Stream(codec, slices[..k])|, e, data)
  {
    hide LiesAt;
    hide IsPart;
    ChunkAt(codec, slices, k);
    hide Stream;
    hide Chunk;
    PartLies(codec, memory, Stream(codec, slices[..k]), slices[k], e, data);
  }

  lemma PartOf(pairs: seq<Pair>, p: nat, q: nat)
    requires p < |pairs| && q < |pairs[p].params| && AllInRange(pairs)
    ensures var k := SlicesOfPairs(pairs, p) + q;
            k < |AllSlices(pairs)| && IsPart(AllSlices(pairs)[k], pairs[p].params[q], pairs[p].data)
  {
    SliceAt(pairs, p, q);
    hide AllSlices;
    hide SlicesOf;
    var e := pairs[p].params[q];
    assert e.offset + e.size <= |pairs[p].data|;
    CutIsPart(pairs[p].data, e);
  }

  /** Every slice lies in the memory where the extents before it end, with the bytes its own extent names. */
  lemma SubmittedBytes(codec: Codec, a: Assembly, tiles: U32, pairs: seq<Pair>, sub: Submission, p: nat, q: nat)
    requires a.slices == [] && AllInRange(pairs) && p < |pairs| && q < |pairs[p].params|
    ensures HandsOver(codec, Picture(codec, a, tiles, pairs), sub) ==>
      LiesAt(codec, sub.memory, StartOf(codec, pairs, p, q), pairs[p].params[q], pairs[p].data)
  {
    hide Picture;
    hide LiesAt;
    hide HandsOver;
    hide AllSlices;
    hide Stream;
    hide Table;
    hide IsPart;
    hide StartOf;
    if HandsOver(codec, Picture(codec, a, tiles, pairs), sub) {
      PictureCollects(codec, a, tiles, pairs, sub);
      var slices, k := AllSlices(pairs), SlicesOfPairs(pairs, p) + q;
      PartOf(pairs, p, q);
      StartIsLength(codec, pairs, p, q);
      SliceLies(codec, sub.memory, slices, k, pairs[p].params[q], pairs[p].data);
    }
  }

  /** Row `k` of the table: the start of the slice, and for AV1 its end, both cut to 32 bits. */
  ghost predicate RowSays(codec: Codec, table: seq<Byte>, k: nat, start: nat, end: nat) {
    if codec.H264? then 4 * k + 4 <= |table| && Word(table, 4 * k) == start % 0x1_0000_0000
    else
      && 8 * k + 8 <= |table|
      && Word(table, 8 * k) == start % 0x1_0000_0000 && Word(table, 8 * k + 4) == end % 0x1_0000_0000
  }

  lemma TableRow(codec: Codec, slices: seq<seq<Byte>>, k: nat)
    requires k < |slices|
    ensures RowSays(codec, Table(codec, slices), k,
                    |Stream(codec, slices[..k])|, |Stream(codec, slices[..k + 1])|)
  {
    BoundsAt(codec, slices, k);
    var bounds := Bounds(codec, slices);
    RowsAt(bounds, k);
    hide Bounds;
    hide Stream;
    if codec.H264? {
      WordAt(Starts(bounds), k);
    } else {
      WordAt(Flatten(bounds), 2 * k);
      WordAt(Flatten(bounds), 2 * k + 1);
    }
    hide Starts;
    hide Flatten;
    hide EncodeWords;
    hide Word;
  }

  lemma RowOfPrefix(codec: Codec, table: seq<Byte>, more: seq<Byte>, k: nat, start: nat, end: nat)
    requires table <= more && RowSays(codec, table, k, start, end)
    ensures RowSays(codec, more, k, start, end)
  {
  }

  /** Slice `k` ends a start code and its extent's size behind its start. */
  lemma EndIsLength(codec: Codec, slices: seq<seq<Byte>>, k: nat, e: Extent, data: seq<Byte>)
    requires k < |slices| && IsPart(slices[k], e, data)
    ensures |Stream(codec, slices[..k + 1])| == |Stream(codec, slices[..k])| + HeaderSize(codec) + e.size
  {
    ChunkAt(codec, slices, k);
    hide Stream;
    assert |Chunk(codec, slices[k])| == HeaderSize(codec) + e.size;
  }

  /** The table row of every slice says where its chunk starts and, for AV1, where it ends. */
  lemma SubmittedTable(codec: Codec, a: Assembly, tiles: U32, pairs: seq<Pair>, sub: Submission, p: nat, q: nat)
    requires a.slices == [] && AllInRange(pairs) && p < |pairs| && q < |pairs[p].params|
    ensures HandsOver(codec, Picture(codec, a, tiles, pairs), sub) ==>
      var start := StartOf(codec, pairs, p, q);
      RowSays(codec, sub.table, SlicesOfPairs(pairs, p) + q, start,
              start + HeaderSize(codec) + pairs[p].params[q].size)
  {
    hide Picture;
    hide RowSays;
    hide HandsOver;
    hide AllSlices;
    hide Stream;
    hide Table;
    hide IsPart;
    hide StartOf;
    if HandsOver(codec, Picture(codec, a, tiles, pairs), sub) {
      PictureCollects(codec, a, tiles, pairs, sub);
      var slices, k := AllSlices(pairs), SlicesOfPairs(pairs, p) + q;
      PartOf(pairs, p, q);
      StartIsLength(codec, pairs, p, q);
      EndIsLength(codec, slices, k, pairs[p].params[q], pairs[p].data);
      TableRow(codec, slices, k);
      RowOfPrefix(codec, Table(codec, slices), sub.table, k,
                  |Stream(codec, slices[..k])|, |Stream(codec, slices[..k + 1])|);
    }
  }

  /**
   Below 4 GiB every slice read back through counts and table is, byte for byte, the part of its own pair's data that
   its extent names; nothing else is read back.
   */
  lemma ReadBackParts(codec: Codec, a: Assembly, tiles: U32, pairs: seq<Pair>, sub: Submission, p: nat, q: nat)
    requires a.slices == [] && AllInRange(pairs) && p < |pairs| && q < |pairs[p].params|
    requires SizeOfPairs(codec, pairs, |pairs|) <= U32_MAX
    ensures HandsOver(codec, Picture(codec, a, tiles, pairs), sub) ==>
      var got := ReadBack(codec, sub, SlicesOfPairs(pairs, |pairs|));
      && got.Some? && |got.value| == SlicesOfPairs(pairs, |pairs|) && SlicesOfPairs(pairs, p) + q < |got.value|
      && IsPart(got.value[SlicesOfPairs(pairs, p) + q], pairs[p].params[q], pairs[p].data)
  {
    hide Picture;
    hide HandsOver;
    hide ReadBack;
    hide AllSlices;
    hide Stream;
    hide Table;
    hide IsPart;
    if HandsOver(codec, Picture(codec, a, tiles, pairs), sub) {
      PictureCollects(codec, a, tiles, pairs, sub);
      ReadBackExact(codec, sub, AllSlices(pairs));
      AllSlicesLength(pairs);
      PairsLength(codec, pairs, |pairs|);
      assert pairs[..|pairs|] == pairs;
      PartOf(pairs, p, q);
    }
  }

  lemma OneLies(memory: seq<Byte>, data: seq<Byte>)
    requires data == [9, 9, 1, 2, 3] && LiesAt(H264, memory, 0, Extent(2, 3), data)
    ensures |memory| >= 6 && memory[..6] == [0, 0, 1, 1, 2, 3]
  {
    assert memory[At(3, 0)] == data[At(2, 0)] == 1;
    assert memory[At(3, 1)] == data[At(2, 1)] == 2;
    assert memory[At(3, 2)] == data[At(2, 2)] == 3;
  }

  /** The extent [2, 3] of five bytes, as the only slice: three bytes behind the start code. */
  lemma OneExtent(a: Assembly, sub: Submission)
    requires a.slices == []
    requires HandsOver(H264, Picture(H264, a, 0, [Pair([Extent(2, 3)], [9, 9, 1, 2, 3])]), sub)
    ensures |sub.memory| >= 6 && sub.memory[..6] == [0, 0, 1, 1, 2, 3]
  {
    var data: seq<Byte> := [9, 9, 1, 2, 3];
    var pairs := [Pair([Extent(2, 3)], data)];
    assert AllInRange(pairs);
    SubmittedBytes(H264, a, 0, pairs, sub, 0, 0);
    hide HandsOver;
    hide Picture;
    assert StartOf(H264, pairs, 0, 0) == 0;
    OneLies(sub.memory, data);
  }
}

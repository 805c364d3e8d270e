/**
 * Assembly of the coded picture handed to the hardware decoder: the growable buffer
 * (src/vabackend.c:406-422), the slice handlers of H.264 (src/h264.c:74-104) and AV1
 * (src/av1.c:301-323), and the hand-over in `nvEndPicture` (src/vabackend.c:3088-3091).
 */
module BitstreamModel {

  import opened Words

  /** Bytes of one object never reach this count on a 64-bit machine. */
  const ADDRESSABLE: int := 0x8000_0000_0000_0000

  // ----- growth of an allocation ---------------------------------------------------------

  function Grow(reserved: nat): nat {
    reserved + reserved / 2
  }

  function GrowTimes(reserved: nat, n: nat): nat {
    if n == 0 then reserved else Grow(GrowTimes(reserved, n - 1))
  }

  lemma {:induction false} GrowTimesLow(reserved: nat, n: nat)
    ensures reserved < 2 ==> GrowTimes(reserved, n) == reserved
    ensures reserved >= 2 ==> GrowTimes(reserved, n) >= reserved + n
  {
    if n > 0 {
      GrowTimesLow(reserved, n - 1);
    }
  }

  /** Some number of turns of the growth loop meets the need. */
  ghost predicate GrowthEnds(reserved: nat, need: nat) {
    exists n: nat :: GrowTimes(reserved, n) >= need
  }

  /** The growth loop ends exactly when there is room already or at least two bytes to grow from. */
  lemma GrowthReaches(reserved: nat, need: nat)
    ensures GrowthEnds(reserved, need) <==> need <= reserved || reserved >= 2
  {
    if need <= reserved {
      assert GrowTimes(reserved, 0) >= need;
    } else if reserved >= 2 {
      GrowTimesLow(reserved, need - reserved);
      assert GrowTimes(reserved, need - reserved) >= need;
    } else {
      forall n: nat ensures GrowTimes(reserved, n) < need {
        GrowTimesLow(reserved, n);
      }
    }
  }

  /** A growable buffer: nothing allocated yet, or so many bytes reserved and used. */
  datatype Room = Unused | Room(reserved: nat, used: nat)

  /** One call on it: `appendBuffer` of so many bytes, or the reset at the end of a picture. */
  datatype Use = Put(bytes: nat) | Emptied

  /** The append comes to an end. */
  ghost predicate Ends(r: Room, bytes: nat) {
    r.Unused? || GrowthEnds(r.reserved, r.used + bytes)
  }

  /** The first size reached by the growth loop that meets the need. */
  function GrowTo(reserved: nat, need: nat): (grown: nat)
    ensures reserved >= 2 || need <= reserved ==> need <= grown
    ensures reserved <= grown
    decreases need - reserved
  {
    if need <= reserved || reserved < 2 then reserved else GrowTo(Grow(reserved), need)
  }

  function AfterUse(r: Room, use: Use): Room {
    match use
    case Put(n) => if r.Unused? then Room(2 * n, n) else Room(GrowTo(r.reserved, r.used + n), r.used + n)
    case Emptied => if r.Unused? then r else r.(used := 0)
  }

  /** Every append of the run comes to an end. */
  ghost predicate AllEnd(r: Room, uses: seq<Use>)
    decreases |uses|
  {
    uses != [] ==> (uses[0].Put? ==> Ends(r, uses[0].bytes)) && AllEnd(AfterUse(r, uses[0]), uses[1..])
  }

  predicate AllEmpty(uses: seq<Use>) {
    uses != [] ==> (uses[0].Put? ==> uses[0].bytes == 0) && AllEmpty(uses[1..])
  }

  /** Bytes of the first append of the run, 0 if there is none. */
  function FirstPut(uses: seq<Use>): nat {
    if uses == [] then 0 else if uses[0].Put? then uses[0].bytes else FirstPut(uses[1..])
  }

  lemma EndsWhen(r: Room, bytes: nat)
    ensures Ends(r, bytes) <==> r.Unused? || r.used + bytes <= r.reserved || r.reserved >= 2
  {
    if r.Room? {
      GrowthReaches(r.reserved, r.used + bytes);
    }
  }

  lemma {:induction false} RoomyEnds(r: Room, uses: seq<Use>)
    requires r.Room? && r.reserved >= 2
    ensures AllEnd(r, uses)
    decreases |uses|
  {
    if uses != [] {
      if uses[0].Put? {
        EndsWhen(r, uses[0].bytes);
      }
      RoomyEnds(AfterUse(r, uses[0]), uses[1..]);
    }
  }

  lemma BarrenStays(use: Use)
    ensures (use.Put? ==> Ends(Room(0, 0), use.bytes)) <==> (use.Put? ==> use.bytes == 0)
    ensures (use.Put? ==> use.bytes == 0) ==> AfterUse(Room(0, 0), use) == Room(0, 0)
  {
    assert GrowTo(0, 0) == 0;
    if use.Put? {
      EndsWhen(Room(0, 0), use.bytes);
    }
  }

  lemma {:induction false} BarrenEnds(uses: seq<Use>)
    ensures AllEnd(Room(0, 0), uses) <==> AllEmpty(uses)
    decreases |uses|
  {
    hide Ends;
    hide AfterUse;
    if uses != [] {
      BarrenStays(uses[0]);
      BarrenEnds(uses[1..]);
    }
  }

  /**
   * Over every run of appends and resets from the start, across any number of pictures: all appends come to an end
   * if and only if the first one is not empty, or all are empty.
   */
  lemma {:induction false} AppendsEndExactly(uses: seq<Use>)
    ensures AllEnd(Unused, uses) <==> FirstPut(uses) > 0 || AllEmpty(uses)
    decreases |uses|
  {
    if uses != [] {
      if uses[0].Put? {
        var r := AfterUse(Unused, uses[0]);
        if uses[0].bytes > 0 {
          RoomyEnds(r, uses[1..]);
        } else {
          assert r == Room(0, 0);
          BarrenEnds(uses[1..]);
        }
      } else {
        AppendsEndExactly(uses[1..]);
      }
    }
  }

  // ----- 32-bit words in memory ----------------------------------------------------------

  function U32le(w: U32): seq<Byte> {
    [w % 256, w / 256 % 256, w / 0x1_0000 % 256, w / 0x100_0000]
  }

  function FromU32le(b: seq<Byte>): U32
    requires |b| == 4
  {
    var w: int := b[0] as int + 256 * (b[1] as int) + 0x1_0000 * (b[2] as int) + 0x100_0000 * (b[3] as int);
    w
  }

  /** A `uint32_t` array as it lies in memory. */
  function EncodeWords(ws: seq<U32>): seq<Byte> {
    if ws == [] then [] else EncodeWords(ws[..|ws| - 1]) + U32le(ws[|ws| - 1])
  }

  function DecodeWords(b: seq<Byte>): seq<U32> {
    if |b| < 4 then [] else DecodeWords(b[..|b| - 4]) + [FromU32le(b[|b| - 4..])]
  }

  lemma U32leRoundTrip(w: U32)
    ensures FromU32le(U32le(w)) == w
  {
    var a, b, c := w / 256, w / 0x1_0000, w / 0x100_0000;
    assert b == a / 256 && c == b / 256;
    assert w == 256 * a + w % 256;
    assert a == 256 * b + a % 256;
    assert b == 256 * c + b % 256;
  }

  lemma {:induction false} WordsRoundTrip(ws: seq<U32>)
    ensures |EncodeWords(ws)| == 4 * |ws|
    ensures DecodeWords(EncodeWords(ws)) == ws
  {
    if ws != [] {
      var front, w := ws[..|ws| - 1], ws[|ws| - 1];
      WordsRoundTrip(front);
      U32leRoundTrip(w);
      var b := EncodeWords(ws);
      assert b[..|b| - 4] == EncodeWords(front) && b[|b| - 4..] == U32le(w);
      assert ws == front + [w];
    }
  }

  lemma EncodeWordsSnoc(ws: seq<U32>, w: U32)
    ensures EncodeWords(ws + [w]) == EncodeWords(ws) + U32le(w)
  {
    assert (ws + [w])[..|ws|] == ws;
  }

  // ----- slices, chunks and the offset table ---------------------------------------------

  datatype Codec = H264 | AV1

  /** `slice_data_offset` and `slice_data_size` of one slice-parameter element. */
  datatype Extent = Extent(offset: U32, size: U32)

  const START_CODE: seq<Byte> := [0, 0, 1]

  /** What one slice contributes to the stream. */
  function Chunk(codec: Codec, slice: seq<Byte>): seq<Byte> {
    if codec.H264? then START_CODE + slice else slice
  }

  /** The stream the slices make up. */
  function Stream(codec: Codec, slices: seq<seq<Byte>>): seq<Byte> {
    if slices == [] then []
    else Stream(codec, slices[..|slices| - 1]) + Chunk(codec, slices[|slices| - 1])
  }

  /** Start and end of every chunk, cut to the 32 bits the offset table has. */
  function Bounds(codec: Codec, slices: seq<seq<Byte>>): seq<(U32, U32)> {
    if slices == [] then []
    else
      var front := slices[..|slices| - 1];
      Bounds(codec, front) + [(Wrap32(|Stream(codec, front)|), Wrap32(|Stream(codec, slices)|))]
  }

  function Starts(bounds: seq<(U32, U32)>): seq<U32> {
    if bounds == [] then [] else Starts(bounds[..|bounds| - 1]) + [bounds[|bounds| - 1].0]
  }

  function Flatten(bounds: seq<(U32, U32)>): seq<U32> {
    if bounds == [] then []
    else Flatten(bounds[..|bounds| - 1]) + [bounds[|bounds| - 1].0] + [bounds[|bounds| - 1].1]
  }

  /** The offset table: starts for H.264, start/end pairs for AV1. */
  function Table(codec: Codec, slices: seq<seq<Byte>>): seq<Byte> {
    EncodeWords(if codec.H264? then Starts(Bounds(codec, slices)) else Flatten(Bounds(codec, slices)))
  }

  /** Every extent lies inside the slice-data buffer; the copies read outside it otherwise. */
  predicate InRange(params: seq<Extent>, data: seq<Byte>) {
    forall i :: 0 <= i < |params| ==> params[i].offset + params[i].size <= |data|
  }

  /** The bytes of one slice; nothing is claimed of an extent outside the buffer. */
  function Cut(data: seq<Byte>, p: Extent): seq<Byte> {
    if p.offset + p.size <= |data| then data[p.offset..p.offset + p.size] else []
  }

  /** What a buffer can still take: anything whose first part is not empty, only empty parts, or anything. */
  datatype Standing = Fresh | Barren | Roomy

  function StandingOf(r: Room): Standing {
    if r.Unused? then Fresh else if r.reserved >= 2 then Roomy else Barren
  }

  /** All appends of these extents come to an end. */
  predicate NeverStuck(st: Standing, todo: seq<Extent>) {
    || st.Roomy?
    || (st.Fresh? && (todo == [] || todo[0].size > 0))
    || forall j :: 0 <= j < |todo| ==> todo[j].size == 0
  }

  /** Where the buffer stands after them. */
  function NextStanding(st: Standing, todo: seq<Extent>): Standing {
    if !st.Fresh? || todo == [] then st else if todo[0].size > 0 then Roomy else Barren
  }

  function Puts(todo: seq<Extent>): seq<Use> {
    if todo == [] then [] else [Put(todo[0].size)] + Puts(todo[1..])
  }

  lemma {:induction false} PutsEmpty(todo: seq<Extent>)
    ensures AllEmpty(Puts(todo)) <==> forall j :: 0 <= j < |todo| ==> todo[j].size == 0
  {
    if todo != [] {
      PutsEmpty(todo[1..]);
      assert Puts(todo)[1..] == Puts(todo[1..]);
      assert forall j :: 0 < j < |todo| ==> todo[j] == todo[1..][j - 1];
    }
  }

  /** The condition a caller can check says exactly that the growth loops end. */
  lemma NeverStuckExactly(r: Room, todo: seq<Extent>)
    requires r.Unused? || r.reserved >= 2 || r == Room(0, 0)
    ensures NeverStuck(StandingOf(r), todo) <==> AllEnd(r, Puts(todo))
  {
    PutsEmpty(todo);
    if r.Unused? {
      AppendsEndExactly(Puts(todo));
      assert todo != [] ==> FirstPut(Puts(todo)) == todo[0].size;
    } else if r.reserved >= 2 {
      RoomyEnds(r, Puts(todo));
    } else {
      BarrenEnds(Puts(todo));
    }
  }

  /** The slices a slice-data buffer holds according to the parameters given before it. */
  function SlicesOf(params: seq<Extent>, data: seq<Byte>): seq<seq<Byte>>
  {
    if params == [] then []
    else SlicesOf(params[..|params| - 1], data) + [Cut(data, params[|params| - 1])]
  }

  lemma StreamSnoc(codec: Codec, slices: seq<seq<Byte>>, slice: seq<Byte>)
    ensures Stream(codec, slices + [slice]) == Stream(codec, slices) + Chunk(codec, slice)
    ensures Bounds(codec, slices + [slice]) == Bounds(codec, slices) +
      [(Wrap32(|Stream(codec, slices)|), Wrap32(|Stream(codec, slices + [slice])|))]
  {
    assert (slices + [slice])[..|slices|] == slices;
  }

  lemma StartsSnoc(bounds: seq<(U32, U32)>, b: (U32, U32))
    ensures Starts(bounds + [b]) == Starts(bounds) + [b.0]
    ensures Flatten(bounds + [b]) == Flatten(bounds) + [b.0] + [b.1]
  {
    assert (bounds + [b])[..|bounds|] == bounds;
  }

  lemma TableSnoc(codec: Codec, slices: seq<seq<Byte>>, slice: seq<Byte>)
    ensures codec.H264? ==>
      Table(codec, slices + [slice]) == Table(codec, slices) + U32le(Wrap32(|Stream(codec, slices)|))
    ensures codec.AV1? ==>
      Table(codec, slices + [slice]) == Table(codec, slices) + U32le(Wrap32(|Stream(codec, slices)|))
        + U32le(Wrap32(|Stream(codec, slices + [slice])|))
  {
    hide Wrap32;
    hide U32le;
    StreamSnoc(codec, slices, slice);
    hide Stream;
    var bounds := Bounds(codec, slices);
    hide Bounds;
    var b := (Wrap32(|Stream(codec, slices)|), Wrap32(|Stream(codec, slices + [slice])|));
    StartsSnoc(bounds, b);
    var starts, flat := Starts(bounds), Flatten(bounds);
    hide Starts;
    hide Flatten;
    EncodeWordsSnoc(starts, b.0);
    EncodeWordsSnoc(flat, b.0);
    EncodeWordsSnoc(flat + [b.0], b.1);
  }

  lemma {:induction false} StreamMonotone(codec: Codec, slices: seq<seq<Byte>>, more: seq<seq<Byte>>)
    ensures |Stream(codec, slices)| <= |Stream(codec, slices + more)|
  {
    if more == [] {
      assert slices + more == slices;
    } else {
      var front, s := more[..|more| - 1], more[|more| - 1];
      assert slices + more == slices + front + [s];
      StreamSnoc(codec, slices + front, s);
      StreamMonotone(codec, slices, front);
    }
  }

  lemma SlicesOfStep(params: seq<Extent>, data: seq<Byte>, i: nat)
    requires i < |params|
    ensures SlicesOf(params[..i + 1], data) == SlicesOf(params[..i], data) + [Cut(data, params[i])]
  {
    assert params[..i + 1][..i] == params[..i];
  }

  lemma {:induction false} SlicesOfLength(params: seq<Extent>, data: seq<Byte>)
    ensures |SlicesOf(params, data)| == |params|
  {
    if params != [] {
      SlicesOfLength(params[..|params| - 1], data);
    }
  }

  lemma {:induction false} SlicesOfPrefix(params: seq<Extent>, data: seq<Byte>, i: nat)
    requires i <= |params|
    ensures i <= |SlicesOf(params, data)|
    ensures SlicesOf(params, data)[..i] == SlicesOf(params[..i], data)
  {
    SlicesOfLength(params, data);
    if i == |params| {
      assert params[..i] == params;
      assert SlicesOf(params, data)[..i] == SlicesOf(params, data);
    } else {
      var front := params[..|params| - 1];
      SlicesOfPrefix(front, data, i);
      SlicesOfLength(front, data);
      assert front[..i] == params[..i];
      assert SlicesOf(params, data)[..i] == SlicesOf(front, data)[..i];
    }
  }

  lemma UpTo<T>(before: seq<T>, done: seq<T>, next: T, all: seq<T>)
    requires |done| < |all| && all[..|done| + 1] == done + [next]
    ensures before + all == before + done + [next] + all[|done| + 1..]
  {
    assert all == all[..|done| + 1] + all[|done| + 1..];
  }

  /** The slices done so far and the next one fit where all of them fit. */
  lemma NextFits(codec: Codec, slices: seq<seq<Byte>>, params: seq<Extent>, data: seq<Byte>, i: nat)
    requires i < |params|
    ensures |SlicesOf(params[..i], data)| == i
    ensures
      |Stream(codec, slices + SlicesOf(params[..i], data))| + |Chunk(codec, Cut(data, params[i]))|
      <= |Stream(codec, slices + SlicesOf(params, data))|
  {
    hide Stream;
    hide Cut;
    hide Chunk;
    var done, all := SlicesOf(params[..i], data), SlicesOf(params, data);
    var next := Cut(data, params[i]);
    SlicesOfLength(params[..i], data);
    SlicesOfStep(params, data, i);
    SlicesOfPrefix(params, data, i + 1);
    hide SlicesOf;
    UpTo(slices, done, next, all);
    StreamSnoc(codec, slices + done, next);
    StreamMonotone(codec, slices + done + [next], all[i + 1..]);
  }

  /** Nothing appended: empty stream, empty table. */
  lemma EmptyAssembly(codec: Codec)
    ensures Stream(codec, []) == [] && Table(codec, []) == []
  {
  }

  // ----- the reader's side ---------------------------------------------------------------

  /** Cuts memory at the given bounds; `None` when a bound is out of order or out of range. */
  function Split(memory: seq<Byte>, bounds: seq<(U32, U32)>): Option<seq<seq<Byte>>> {
    if bounds == [] then Some([])
    else
      var b := bounds[|bounds| - 1];
      var front := Split(memory, bounds[..|bounds| - 1]);
      if front.None? || b.0 > b.1 || b.1 > |memory| then None
      else Some(front.value + [memory[b.0..b.1]])
  }

  /** Removes the start code of every chunk; `None` when one is missing. */
  function Unwrap(codec: Codec, chunks: seq<seq<Byte>>): Option<seq<seq<Byte>>> {
    if chunks == [] then Some([])
    else
      var c := chunks[|chunks| - 1];
      var front := Unwrap(codec, chunks[..|chunks| - 1]);
      if front.None? then None
      else if codec.AV1? then Some(front.value + [c])
      else if START_CODE <= c then Some(front.value + [c[3..]])
      else None
  }

  /** Chunk bounds when only the starts and the total length are known. */
  function BoundsFromStarts(starts: seq<U32>, end: U32): seq<(U32, U32)> {
    if starts == [] then []
    else
      var last := starts[|starts| - 1];
      BoundsFromStarts(starts[..|starts| - 1], last) + [(last, end)]
  }

  function BoundsFromPairs(words: seq<U32>): seq<(U32, U32)> {
    if |words| < 2 then []
    else BoundsFromPairs(words[..|words| - 2]) + [(words[|words| - 2], words[|words| - 1])]
  }

  function ReadBounds(codec: Codec, words: seq<U32>, dataLen: U32): seq<(U32, U32)> {
    if codec.H264? then BoundsFromStarts(words, dataLen) else BoundsFromPairs(words)
  }

  /** What the decoder is given: two allocations and two counts (the `CUVIDPICPARAMS` fields). */
  datatype Submission = Submission(memory: seq<Byte>, table: seq<Byte>, dataLen: U32, numSlices: U32)

  /** The slices a reader of `count` table rows finds. */
  function ReadBack(codec: Codec, sub: Submission, count: nat): Option<seq<seq<Byte>>> {
    var row := if codec.H264? then 4 else 8;
    if row * count > |sub.table| then None
    else
      var words := DecodeWords(sub.table[..row * count]);
      var chunks := Split(sub.memory, ReadBounds(codec, words, sub.dataLen));
      if chunks.None? then None else Unwrap(codec, chunks.value)
  }

  /** The allocations start with the stream and its table, and the length is the stream's. */
  ghost predicate Carries(codec: Codec, sub: Submission, slices: seq<seq<Byte>>) {
    && Stream(codec, slices) <= sub.memory
    && Table(codec, slices) <= sub.table
    && sub.dataLen == Wrap32(|Stream(codec, slices)|)
  }

  function Chunks(codec: Codec, slices: seq<seq<Byte>>): seq<seq<Byte>> {
    if slices == [] then [] else Chunks(codec, slices[..|slices| - 1]) + [Chunk(codec, slices[|slices| - 1])]
  }

  lemma UnwrapSnoc(codec: Codec, chunks: seq<seq<Byte>>, slice: seq<Byte>)
    ensures Unwrap(codec, chunks + [Chunk(codec, slice)]) ==
      if Unwrap(codec, chunks).None? then None else Some(Unwrap(codec, chunks).value + [slice])
  {
    var all := chunks + [Chunk(codec, slice)];
    assert all[..|chunks|] == chunks && all[|chunks|] == Chunk(codec, slice);
    if codec.H264? {
      assert Chunk(codec, slice)[3..] == slice;
    }
  }

  lemma {:induction false} UnwrapChunks(codec: Codec, slices: seq<seq<Byte>>)
    ensures |Chunks(codec, slices)| == |slices|
    ensures Unwrap(codec, Chunks(codec, slices)) == Some(slices)
  {
    if slices != [] {
      var front, s := slices[..|slices| - 1], slices[|slices| - 1];
      UnwrapChunks(codec, front);
      UnwrapSnoc(codec, Chunks(codec, front), s);
      assert slices == front + [s];
    }
  }

  lemma {:induction false} UnwrapLengths(codec: Codec, chunks: seq<seq<Byte>>)
    requires Unwrap(codec, chunks).Some?
    ensures |Unwrap(codec, chunks).value| == |chunks|
    ensures Chunks(codec, Unwrap(codec, chunks).value) == chunks
  {
    if chunks != [] {
      var front, c := chunks[..|chunks| - 1], chunks[|chunks| - 1];
      UnwrapLengths(codec, front);
      var got := Unwrap(codec, chunks).value;
      var fronts := Unwrap(codec, front).value;
      assert got[..|got| - 1] == fronts;
      assert Chunk(codec, got[|got| - 1]) == c by {
        if codec.H264? {
          assert START_CODE + c[3..] == c;
        }
      }
      assert chunks == front + [c];
    }
  }

  /** The last chunk lies between its cut-down bounds exactly when its end needs no cutting. */
  lemma LastChunkExact(before: seq<Byte>, c: seq<Byte>, memory: seq<Byte>)
    requires before + c <= memory
    requires |before| <= U32_MAX
    ensures
      var b, e := Wrap32(|before|), Wrap32(|before + c|);
      b <= e <= |memory| && memory[b..e] == c <==> |before + c| <= U32_MAX
  {
    var n := |before + c|;
    assert Wrap32(|before|) == |before|;
    if n <= U32_MAX {
      assert Wrap32(n) == n;
      assert memory[..n] == before + c;
      assert memory[|before|..n] == c;
    }
  }

  /** Cutting the memory at the table's bounds gives the chunks exactly when the stream is below 4 GiB. */
  lemma {:induction false} SplitExact(codec: Codec, slices: seq<seq<Byte>>, memory: seq<Byte>)
    requires Stream(codec, slices) <= memory
    ensures Split(memory, Bounds(codec, slices)) == Some(Chunks(codec, slices)) <==> |Stream(codec, slices)| <= U32_MAX
  {
    if slices != [] {
      var front, s := slices[..|slices| - 1], slices[|slices| - 1];
      var before, all := Stream(codec, front), Stream(codec, slices);
      assert all == before + Chunk(codec, s);
      assert before <= memory;
      hide Stream;
      hide Chunk;
      SplitLast(codec, slices, memory);
      SplitExact(codec, front, memory);
      hide Split;
      hide Bounds;
      hide Chunks;
      if |before| <= U32_MAX {
        LastChunkExact(before, Chunk(codec, s), memory);
      }
    }
  }

  lemma SplitLast(codec: Codec, slices: seq<seq<Byte>>, memory: seq<Byte>)
    requires slices != []
    ensures
      var front, s := slices[..|slices| - 1], slices[|slices| - 1];
      var b, e := Wrap32(|Stream(codec, front)|), Wrap32(|Stream(codec, slices)|);
      Split(memory, Bounds(codec, slices)) == Some(Chunks(codec, slices)) <==>
      Split(memory, Bounds(codec, front)) == Some(Chunks(codec, front)) &&
        b <= e <= |memory| && memory[b..e] == Chunk(codec, s)
  {
    var front, s := slices[..|slices| - 1], slices[|slices| - 1];
    var b, e := Wrap32(|Stream(codec, front)|), Wrap32(|Stream(codec, slices)|);
    hide Wrap32;
    hide Stream;
    hide Chunk;
    var bounds := Bounds(codec, slices);
    var fb := Bounds(codec, front);
    assert bounds == fb + [(b, e)];
    assert bounds[..|bounds| - 1] == fb;
    var got := Split(memory, fb);
    var cs, c := Chunks(codec, front), Chunk(codec, s);
    assert Chunks(codec, slices) == cs + [c];
    if got.Some? && b <= e <= |memory| {
      assert Split(memory, bounds) == Some(got.value + [memory[b..e]]);
      SnocInjective(got.value, memory[b..e], cs, c);
    }
  }

  lemma SnocInjective<T>(a: seq<T>, x: T, b: seq<T>, y: T)
    ensures a + [x] == b + [y] <==> a == b && x == y
  {
    if a + [x] == b + [y] {
      assert (a + [x])[..|a|] == a && (b + [y])[..|b|] == b;
      assert (a + [x])[|a|] == x && (b + [y])[|b|] == y;
    }
  }

  lemma {:induction false} StartsRecover(codec: Codec, slices: seq<seq<Byte>>)
    ensures |Starts(Bounds(codec, slices))| == |slices|
    ensures BoundsFromStarts(Starts(Bounds(codec, slices)), Wrap32(|Stream(codec, slices)|)) == Bounds(codec, slices)
  {
    if slices != [] {
      var front := slices[..|slices| - 1];
      StartsRecover(codec, front);
      var fb := Bounds(codec, front);
      var b, e := Wrap32(|Stream(codec, front)|), Wrap32(|Stream(codec, slices)|);
      StartsSnoc(fb, (b, e));
      var starts := Starts(fb) + [b];
      assert starts[..|starts| - 1] == Starts(fb);
    }
  }

  lemma {:induction false} PairsRecover(bounds: seq<(U32, U32)>)
    ensures |Flatten(bounds)| == 2 * |bounds|
    ensures BoundsFromPairs(Flatten(bounds)) == bounds
  {
    if bounds != [] {
      var front, b := bounds[..|bounds| - 1], bounds[|bounds| - 1];
      PairsRecover(front);
      var flat := Flatten(bounds);
      assert flat[..|flat| - 2] == Flatten(front);
      assert bounds == front + [b];
    }
  }

  lemma {:induction false} BoundsLength(codec: Codec, slices: seq<seq<Byte>>)
    ensures |Bounds(codec, slices)| == |slices|
  {
    if slices != [] {
      BoundsLength(codec, slices[..|slices| - 1]);
    }
  }

  /** The bounds a reader derives from the table are the true chunk bounds. */
  lemma TableRecovers(codec: Codec, slices: seq<seq<Byte>>)
    ensures |Table(codec, slices)| == (if codec.H264? then 4 else 8) * |slices|
    ensures
      ReadBounds(codec, DecodeWords(Table(codec, slices)), Wrap32(|Stream(codec, slices)|)) == Bounds(codec, slices)
  {
    var bounds := Bounds(codec, slices);
    BoundsLength(codec, slices);
    if codec.H264? {
      StartsRecover(codec, slices);
      WordsRoundTrip(Starts(bounds));
    } else {
      PairsRecover(bounds);
      WordsRoundTrip(Flatten(bounds));
    }
  }

  /** Reading a submission back gives the slices, all of them and in order, exactly below 4 GiB. */
  lemma ReadBackExact(codec: Codec, sub: Submission, slices: seq<seq<Byte>>)
    requires Carries(codec, sub, slices)
    ensures ReadBack(codec, sub, |slices|) == Some(slices) <==> |Stream(codec, slices)| <= U32_MAX
  {
    TableRecovers(codec, slices);
    SplitExact(codec, slices, sub.memory);
    UnwrapChunks(codec, slices);
    var table, bounds := Table(codec, slices), Bounds(codec, slices);
    hide Table;
    hide DecodeWords;
    hide ReadBounds;
    hide Split;
    hide Bounds;
    hide Stream;
    hide Chunks;
    hide Unwrap;
    assert sub.table[..|table|] == table;
    var chunks := Split(sub.memory, bounds);
    assert ReadBack(codec, sub, |slices|) == if chunks.None? then None else Unwrap(codec, chunks.value);
    if chunks.Some? && Unwrap(codec, chunks.value) == Some(slices) {
      UnwrapLengths(codec, chunks.value);
    }
  }

  // ----- a picture from Begin to End -----------------------------------------------------

  /**
   * One decode context between calls. `slices` are the slices in the buffers, that is since
   * the last `nvEndPicture`; the counts are cleared by `nvBeginPicture`.
   */
  datatype Assembly = Assembly(
    params: seq<Extent>, slices: seq<seq<Byte>>, dataLen: U32, numSlices: U32)

  /** `nvBeginPicture` clears the picture parameters, not the buffers. */
  function Begin(a: Assembly): Assembly {
    a.(dataLen := 0, numSlices := 0)
  }

  /** `copyAV1PicParam` presets the slice count to the number of tiles. */
  function SetTiles(a: Assembly, tiles: U32): Assembly {
    a.(numSlices := tiles)
  }

  function TakeParams(a: Assembly, params: seq<Extent>): Assembly {
    a.(params := params, numSlices := Wrap32(a.numSlices + |params|))
  }

  function TakeData(codec: Codec, a: Assembly, data: seq<Byte>): Assembly
  {
    var slices := a.slices + SlicesOf(a.params, data);
    var before, after := |Stream(codec, a.slices)|, |Stream(codec, slices)|;
    a.(slices := slices,
       dataLen := if codec.H264? then Wrap32(a.dataLen + after - before) else Wrap32(after))
  }

  /** `nvEndPicture` empties both buffers. */
  function End(a: Assembly): Assembly {
    a.(slices := [])
  }

  /** One slice-parameter buffer followed by its slice-data buffer. */
  datatype Pair = Pair(params: seq<Extent>, data: seq<Byte>)

  function Render(codec: Codec, a: Assembly, pairs: seq<Pair>): Assembly
  {
    if pairs == [] then a
    else
      var last := pairs[|pairs| - 1];
      TakeData(codec, TakeParams(Render(codec, a, pairs[..|pairs| - 1]), last.params), last.data)
  }

  function AllSlices(pairs: seq<Pair>): seq<seq<Byte>>
  {
    if pairs == [] then []
    else AllSlices(pairs[..|pairs| - 1]) + SlicesOf(pairs[|pairs| - 1].params, pairs[|pairs| - 1].data)
  }

  lemma WrapAdd(a: int, b: int)
    ensures Wrap32(Wrap32(a) + b) == Wrap32(a + b)
  {
    var m := 0x1_0000_0000;
    assert a == a / m * m + Wrap32(a);
    assert a + b == a / m * m + (Wrap32(a) + b);
    WrapShift(Wrap32(a) + b, a / m);
  }

  lemma WrapShift(x: int, k: int)
    ensures Wrap32(k * 0x1_0000_0000 + x) == Wrap32(x)
  {
    var m := 0x1_0000_0000;
    var q, r := x / m, x % m;
    assert k * m + x == (k + q) * m + r;
  }

  lemma PairAdds(codec: Codec, tiles: U32, a: Assembly, pair: Pair, slices: seq<seq<Byte>>)
    requires a.slices == slices
    requires a.dataLen == Wrap32(|Stream(codec, slices)|)
    requires a.numSlices == Wrap32(tiles + |slices|)
    ensures
      var all := slices + SlicesOf(pair.params, pair.data);
      TakeData(codec, TakeParams(a, pair.params), pair.data)
      == Assembly(pair.params, all, Wrap32(|Stream(codec, all)|), Wrap32(tiles + |all|))
  {
    var got := SlicesOf(pair.params, pair.data);
    SlicesOfLength(pair.params, pair.data);
    var before, after := |Stream(codec, slices)|, |Stream(codec, slices + got)|;
    WrapAdd(before, after - before);
    WrapAdd(tiles + |slices|, |got|);
    hide Stream;
    hide SlicesOf;
    hide Wrap32;
    assert before + (after - before) == after;
    assert tiles + |slices| + |got| == tiles + |slices + got|;
  }

  lemma RenderSteps(codec: Codec, a: Assembly, pairs: seq<Pair>)
    ensures pairs == [] ==> Render(codec, a, pairs) == a && AllSlices(pairs) == [] && |Stream(codec, [])| == 0
    ensures pairs != [] ==>
      var front, last := pairs[..|pairs| - 1], pairs[|pairs| - 1];
      && Render(codec, a, pairs) == TakeData(codec, TakeParams(Render(codec, a, front), last.params), last.data)
      && AllSlices(pairs) == AllSlices(front) + SlicesOf(last.params, last.data)
  {
    hide TakeData;
    hide TakeParams;
    hide SlicesOf;
  }

  /** Whatever the pairs, the buffers hold exactly their slices and the length field is the stream's. */
  lemma {:induction false} RenderCollects(codec: Codec, a: Assembly, pairs: seq<Pair>)
    requires a.slices == [] && a.dataLen == 0
    ensures
      var r := Render(codec, a, pairs);
      && r.slices == AllSlices(pairs)
      && r.dataLen == Wrap32(|Stream(codec, r.slices)|)
      && r.numSlices == Wrap32(a.numSlices + |AllSlices(pairs)|)
  {
    hide TakeData;
    hide TakeParams;
    hide SlicesOf;
    hide Stream;
    RenderSteps(codec, a, pairs);
    hide Render;
    hide AllSlices;
    if pairs != [] {
      var front, last := pairs[..|pairs| - 1], pairs[|pairs| - 1];
      RenderCollects(codec, a, front);
      PairAdds(codec, a.numSlices, Render(codec, a, front), last, AllSlices(front));
    }
  }

  /** The picture between Begin and End. */
  function Picture(codec: Codec, a: Assembly, tiles: U32, pairs: seq<Pair>): Assembly
  {
    Render(codec, if codec.H264? then Begin(a) else SetTiles(Begin(a), tiles), pairs)
  }

  /** The chunks of an H.264 stream are at least three bytes each. */
  lemma {:induction false} StreamCoversCount(slices: seq<seq<Byte>>)
    ensures 3 * |slices| <= |Stream(H264, slices)|
  {
    if slices != [] {
      StreamCoversCount(slices[..|slices| - 1]);
    }
  }

  lemma PictureCollects(codec: Codec, a: Assembly, tiles: U32, pairs: seq<Pair>, sub: Submission)
    requires a.slices == []
    requires HandsOver(codec, Picture(codec, a, tiles, pairs), sub)
    ensures Carries(codec, sub, AllSlices(pairs))
    ensures sub.numSlices == Wrap32((if codec.H264? then 0 else tiles) + |AllSlices(pairs)|)
  {
    hide AllSlices;
    hide Render;
    hide Stream;
    hide Table;
    RenderCollects(codec, if codec.H264? then Begin(a) else SetTiles(Begin(a), tiles), pairs);
  }

  /** Handing over: the two allocations start with stream and table. */
  ghost predicate HandsOver(codec: Codec, a: Assembly, sub: Submission) {
    && Stream(codec, a.slices) <= sub.memory
    && Table(codec, a.slices) <= sub.table
    && sub.dataLen == a.dataLen && sub.numSlices == a.numSlices
  }

  /** An H.264 reader that trusts the submission's own fields finds these slices. */
  ghost predicate H264Reads(sub: Submission, slices: seq<seq<Byte>>) {
    && sub.dataLen == |Stream(H264, slices)|
    && sub.numSlices == |slices|
    && ReadBack(H264, sub, sub.numSlices) == Some(slices)
  }

  /**
   * For any number of slice-parameter/slice-data pairs between Begin and End, an H.264 submission
   * read through its own counts gives back every slice in order, exactly when it stays below 4 GiB.
   */
  lemma H264PictureReadsBack(a: Assembly, tiles: U32, pairs: seq<Pair>, sub: Submission)
    requires a.slices == []
    ensures HandsOver(H264, Picture(H264, a, tiles, pairs), sub) ==>
      (H264Reads(sub, AllSlices(pairs)) <==> |Stream(H264, AllSlices(pairs))| <= U32_MAX)
  {
    hide Picture;
    hide AllSlices;
    hide ReadBack;
    hide Table;
    hide Stream;
    if HandsOver(H264, Picture(H264, a, tiles, pairs), sub) {
      PictureCollects(H264, a, tiles, pairs, sub);
      ReadBackExact(H264, sub, AllSlices(pairs));
      StreamCoversCount(AllSlices(pairs));
    }
  }

  /** What an AV1 submission says of its slices; `tiles` is the count preset by the picture parameters. */
  ghost predicate Av1Reads(sub: Submission, slices: seq<seq<Byte>>, tiles: U32) {
    && (ReadBack(AV1, sub, |slices|) == Some(slices) <==> |Stream(AV1, slices)| <= U32_MAX)
    && (sub.dataLen == |Stream(AV1, slices)| <==> |Stream(AV1, slices)| <= U32_MAX)
    && (|slices| <= U32_MAX ==> (sub.numSlices == |slices| <==> tiles == 0))
  }

  /**
   * The same for AV1, read through the number of table rows. The count field is the tile count on
   * top of the slices: it is the number of slices exactly when no tiles were announced.
   */
  lemma Av1PictureReadsBack(a: Assembly, tiles: U32, pairs: seq<Pair>, sub: Submission)
    requires a.slices == []
    ensures HandsOver(AV1, Picture(AV1, a, tiles, pairs), sub) ==> Av1Reads(sub, AllSlices(pairs), tiles)
  {
    hide Picture;
    hide AllSlices;
    hide ReadBack;
    hide Table;
    hide Stream;
    if HandsOver(AV1, Picture(AV1, a, tiles, pairs), sub) {
      PictureCollects(AV1, a, tiles, pairs, sub);
      ReadBackExact(AV1, sub, AllSlices(pairs));
    }
  }

  /** Of several announcements of tiles the last one counts, whatever was rendered before it. */
  lemma LastTilesCount(a: Assembly, early: seq<Pair>, tiles: U32, pairs: seq<Pair>)
    ensures Render(AV1, SetTiles(Render(AV1, Begin(a), early), tiles), pairs).numSlices
         == Wrap32(tiles + |AllSlices(pairs)|)
  {
    hide Render;
    hide AllSlices;
    hide Wrap32;
    RenderCounts(AV1, SetTiles(Render(AV1, Begin(a), early), tiles), pairs);
  }

  lemma {:induction false} RenderCounts(codec: Codec, a: Assembly, pairs: seq<Pair>)
    ensures Render(codec, a, pairs).numSlices == Wrap32(a.numSlices + |AllSlices(pairs)|)
  {
    hide TakeData;
    hide SlicesOf;
    hide Stream;
    if pairs != [] {
      var front, last := pairs[..|pairs| - 1], pairs[|pairs| - 1];
      RenderCounts(codec, a, front);
      SlicesOfLength(last.params, last.data);
      WrapAdd(a.numSlices + |AllSlices(front)|, |last.params|);
      hide Wrap32;
      DataKeepsCount(codec, TakeParams(Render(codec, a, front), last.params), last.data);
    } else {
      assert Wrap32(a.numSlices) == a.numSlices;
    }
  }

  lemma DataKeepsCount(codec: Codec, a: Assembly, data: seq<Byte>)
    ensures TakeData(codec, a, data).numSlices == a.numSlices
  {
  }

  /** One tile announced and one slice of one byte rendered: the count field says two. */
  lemma TilesCountedTwice()
    ensures var pairs := [Pair([Extent(0, 1)], [7])];
            && |AllSlices(pairs)| == 1
            && Picture(AV1, Assembly([], [], 0, 0), 1, pairs).numSlices == 2
  {
    var one := Pair([Extent(0, 1)], [7]);
    var pairs := [one];
    assert pairs[..0] == [];
    assert AllSlices(pairs) == AllSlices([]) + SlicesOf(one.params, one.data);
    SlicesOfLength(one.params, one.data);
    hide AllSlices;
    hide SlicesOf;
    hide Render;
    hide Stream;
    RenderCollects(AV1, SetTiles(Begin(Assembly([], [], 0, 0)), 1), pairs);
  }

  /** The same run from any state: what was left in the buffers stays in front and is not counted. */
  lemma {:induction false} RenderAccounts(a: Assembly, pairs: seq<Pair>)
    requires a.dataLen == 0
    ensures
      var r := Render(H264, a, pairs);
      && r.slices == a.slices + AllSlices(pairs)
      && r.dataLen == Wrap32(|Stream(H264, r.slices)| - |Stream(H264, a.slices)|)
  {
    hide TakeData;
    hide TakeParams;
    hide SlicesOf;
    hide Stream;
    RenderSteps(H264, a, pairs);
    hide Render;
    hide AllSlices;
    if pairs != [] {
      var front, last := pairs[..|pairs| - 1], pairs[|pairs| - 1];
      RenderAccounts(a, front);
      PairAccounts(Render(H264, a, front), last, |Stream(H264, a.slices)|);
      assert a.slices + AllSlices(front) + SlicesOf(last.params, last.data) == a.slices + AllSlices(pairs);
    }
  }

  lemma PairAccounts(a: Assembly, pair: Pair, base: nat)
    requires a.dataLen == Wrap32(|Stream(H264, a.slices)| - base)
    ensures
      var r := TakeData(H264, TakeParams(a, pair.params), pair.data);
      && r.slices == a.slices + SlicesOf(pair.params, pair.data)
      && r.dataLen == Wrap32(|Stream(H264, r.slices)| - base)
  {
    var got := SlicesOf(pair.params, pair.data);
    var before, after := |Stream(H264, a.slices)|, |Stream(H264, a.slices + got)|;
    WrapAdd(before - base, after - before);
    hide Stream;
    hide SlicesOf;
    hide Wrap32;
    assert before - base + (after - before) == after - base;
  }

  lemma WrapDifference(n: int, base: int)
    ensures Wrap32(n - base) == Wrap32(n) <==> Wrap32(base) == 0
  {
    var m := 0x1_0000_0000;
    var q, r := base / m, base % m;
    assert n - base == -q * m + (n - r);
    WrapShift(n - r, -q);
    var p, t := n / m, n % m;
    assert n - r == p * m + (t - r);
    WrapShift(t - r, p);
    assert Wrap32(t - r) == if t >= r then t - r else t - r + m;
  }

  /**
   * An H.264 picture's length field is the length of its buffer (to 32 bits) exactly when the buffer
   * was empty, or a multiple of 4 GiB, at Begin; that is, when the picture before was ended.
   */
  lemma LengthFieldExact(a: Assembly, tiles: U32, pairs: seq<Pair>)
    ensures
      var r := Picture(H264, a, tiles, pairs);
      r.dataLen == Wrap32(|Stream(H264, r.slices)|) <==> Wrap32(|Stream(H264, a.slices)|) == 0
  {
    hide Render;
    hide Stream;
    hide Wrap32;
    RenderAccounts(Begin(a), pairs);
    var r := Picture(H264, a, tiles, pairs);
    WrapDifference(|Stream(H264, r.slices)|, |Stream(H264, a.slices)|);
  }

  /** One abandoned slice of one byte: the next Begin clears the count, the four bytes stay. */
  lemma UnpairedBeginLosesLength(params: seq<Extent>, dataLen: U32, numSlices: U32)
    ensures
      var r := Picture(H264, Assembly(params, [[7]], dataLen, numSlices), 0, []);
      r.dataLen == 0 && |Stream(H264, r.slices)| == 4
  {
    var slice: seq<Byte> := [7];
    assert [slice][..0] == [];
    assert Stream(H264, [slice]) == Stream(H264, []) + Chunk(H264, slice);
  }
}

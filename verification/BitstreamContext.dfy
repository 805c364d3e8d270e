/** The growable buffer and the per-context slice handlers that fill it, in place. */
module BitstreamContext {

  import opened Words
  import opened BitstreamModel

  /** `AppendableBuffer` (src/vabackend.h:23-27) with `appendBuffer` (src/vabackend.c:406-422). */
  class AppendableBuffer {
    var buf: array?<Byte>
    var size: nat
    var reserved: nat

    ghost predicate Valid()
      reads this, buf
    {
      if buf == null then size == 0 && reserved == 0
      else size <= reserved == buf.Length && reserved <= U64_MAX && reserved != 1
    }

    /** The bytes appended since the buffer was last emptied. */
    ghost function Contents(): seq<Byte>
      requires Valid()
      reads this, buf
    {
      if buf == null then [] else buf[..size]
    }

    /** Growth, if it is needed, has something to grow from. */
    predicate Growable(extra: nat)
      reads this
    {
      buf == null || reserved >= 2 || size + extra <= reserved
    }

    /** The allocation as a value. */
    function Used(): Room
      reads this
    {
      if buf == null then Unused else Room(reserved, size)
    }

    function Standing(): Standing
      reads this
    {
      StandingOf(Used())
    }

    constructor ()
      ensures Valid() && Contents() == [] && buf == null
    {
      buf, size, reserved := null, 0, 0;
    }

    method Append(data: seq<Byte>)
      requires Valid() && Growable(|data|)
      requires size + |data| < ADDRESSABLE
      modifies this, buf
      ensures Valid() && buf != null && (buf == old(buf) || fresh(buf))
      ensures Contents() == old(Contents()) + data
      ensures size == old(size) + |data|
      ensures old(buf) == null ==> reserved == 2 * |data|
      ensures old(buf) != null && size <= old(reserved) ==> reserved == old(reserved) && buf == old(buf)
      ensures old(buf) != null && size > old(reserved) ==> size <= reserved <= size + size / 2
      ensures reserved >= old(reserved)
    {
      if buf == null {
        var first := new Byte[2 * |data|];
        buf, reserved, size := first, 2 * |data|, 0;
      } else if size + |data| > reserved {
        var grown := GrowFor(reserved, size + |data|);
        var nb := new Byte[grown];
        forall i | 0 <= i < size {
          nb[i] := buf[i];
        }
        assert nb[..size] == buf[..size];
        buf, reserved := nb, grown;
      }
      Store(data);
    }

    /** The final `memcpy` and the new size. */
    method Store(data: seq<Byte>)
      requires Valid() && buf != null
      requires size + |data| <= reserved
      modifies `size, buf
      ensures Valid()
      ensures Contents() == old(Contents()) + data
      ensures size == old(size) + |data|
    {
      ghost var before := buf[..size];
      forall i | 0 <= i < |data| {
        buf[size + i] := data[i];
      }
      assert buf[..size] == before;
      assert buf[size..size + |data|] == data;
      assert buf[..size + |data|] == buf[..size] + buf[size..size + |data|];
      size := size + |data|;
    }

    /** Two appends in a row, the first of them at least one byte. */
    method AppendBoth(header: seq<Byte>, data: seq<Byte>)
      requires Valid() && |header| >= 1 && (buf != null ==> reserved >= 2)
      requires size + |header| + |data| < ADDRESSABLE
      modifies this, buf
      ensures Valid() && buf != null && (buf == old(buf) || fresh(buf))
      ensures reserved >= 2
      ensures Contents() == old(Contents()) + (header + data)
      ensures size == old(size) + |header| + |data|
    {
      ghost var before := Contents();
      Append(header);
      Append(data);
      assert before + header + data == before + (header + data);
    }

    /** Emptying keeps the allocation for the next picture. */
    method Reset()
      requires Valid()
      modifies `size
      ensures Valid() && Contents() == [] && size == 0
    {
      size := 0;
    }
  }

  /** The growth loop: half as much again until the need is met, never more than half too much. */
  method GrowFor(start: nat, need: nat) returns (grown: nat)
    requires start >= 2 && start < need < ADDRESSABLE
    ensures need <= grown <= need + need / 2
    ensures grown <= U64_MAX
    ensures exists n: nat :: grown == GrowTimes(start, n)
  {
    grown := start;
    ghost var n: nat := 0;
    while need > grown
      invariant start <= grown <= need + need / 2
      invariant grown == GrowTimes(start, n)
      decreases need + need - grown
    {
      grown := grown + grown / 2;
      n := n + 1;
    }
  }

  lemma NoSlices(params: seq<Extent>, data: seq<Byte>, slices: seq<seq<Byte>>)
    ensures slices + SlicesOf(params[..0], data) == slices
  {
  }

  /** What one turn of the H.264 loop may rely on and what it adds. */
  lemma H264Advance(slices: seq<seq<Byte>>, params: seq<Extent>, data: seq<Byte>, i: nat,
                    before: seq<seq<Byte>>, len: int, was: U32)
    requires i < |params| && slices == before + SlicesOf(params[..i], data)
    ensures |slices| == |before| + i && |Table(H264, slices)| == 4 * |slices|
    ensures
      var slice := Cut(data, params[i]);
      && |Stream(H264, slices)| + 3 + |slice| <= |Stream(H264, before + SlicesOf(params, data))|
      && slices + [slice] == before + SlicesOf(params[..i + 1], data)
      && Wrap32(Wrap32(was + |Stream(H264, slices)| - len) + |slice| + 3)
         == Wrap32(was + |Stream(H264, slices + [slice])| - len)
  {
    hide Stream;
    hide Table;
    hide SlicesOf;
    hide Cut;
    var slice := Cut(data, params[i]);
    NextFits(H264, before, params, data, i);
    SlicesOfStep(params, data, i);
    TableRecovers(H264, slices);
    StreamSnoc(H264, slices, slice);
    WrapAdd(was + |Stream(H264, slices)| - len, |slice| + 3);
    hide Wrap32;
  }

  /** The decode-side part of `NVContext`. */
  class DecodeContext {
    const codec: Codec
    const bitstream: AppendableBuffer
    const offsets: AppendableBuffer
    var params: seq<Extent>
    var dataLen: U32
    var numSlices: U32
    ghost var slices: seq<seq<Byte>>

    ghost predicate Valid()
      reads this, bitstream, offsets, bitstream.buf, offsets.buf
    {
      && bitstream != offsets
      && bitstream.Valid() && offsets.Valid()
      && (bitstream.buf != null ==> bitstream.buf != offsets.buf)
      && bitstream.Contents() == Stream(codec, slices)
      && offsets.Contents() == Table(codec, slices)
      && (offsets.buf != null ==> offsets.reserved >= 2)
      && (codec.H264? && bitstream.buf != null ==> bitstream.reserved >= 2)
    }

    ghost function View(): Assembly
      reads this
    {
      Assembly(params, slices, dataLen, numSlices)
    }

    constructor (codec: Codec)
      ensures Valid() && this.codec == codec
      ensures View() == Assembly([], [], 0, 0)
      ensures bitstream.buf == null && offsets.buf == null
    {
      this.codec := codec;
      bitstream := new AppendableBuffer();
      offsets := new AppendableBuffer();
      params, dataLen, numSlices, slices := [], 0, 0, [];
    }

    /** `nvBeginPicture`: the picture parameters are zeroed. */
    method BeginPicture()
      requires Valid()
      modifies `dataLen, `numSlices
      ensures Valid() && View() == Begin(old(View()))
    {
      dataLen, numSlices := 0, 0;
    }

    /** The tile count of `copyAV1PicParam`. */
    method CopyPicParam(tiles: U32)
      requires Valid() && codec.AV1?
      modifies `numSlices
      ensures Valid() && View() == SetTiles(old(View()), tiles)
    {
      numSlices := tiles;
    }

    /** `copyH264SliceParam` and `copyAV1SliceParam`. */
    method CopySliceParam(elements: seq<Extent>)
      requires Valid()
      modifies `params, `numSlices
      ensures Valid() && View() == TakeParams(old(View()), elements)
    {
      params, numSlices := elements, Wrap32(numSlices + |elements|);
    }

    /** One turn of the H.264 loop: offset, start code, slice bytes. */
    method AppendH264(slice: seq<Byte>)
      requires Valid() && codec.H264?
      requires bitstream.size + 3 + |slice| < ADDRESSABLE && offsets.size + 4 < ADDRESSABLE
      modifies `dataLen, `slices, bitstream, offsets, bitstream.buf, offsets.buf
      ensures Valid() && slices == old(slices) + [slice]
      ensures dataLen == Wrap32(old(dataLen) + |slice| + 3)
      ensures offsets.size == old(offsets.size) + 4
      ensures bitstream.buf == old(bitstream.buf) || fresh(bitstream.buf)
      ensures offsets.buf == old(offsets.buf) || fresh(offsets.buf)
    {
      StreamSnoc(codec, slices, slice);
      TableSnoc(codec, slices, slice);
      hide Stream;
      hide Table;
      hide Bounds;
      var row := U32le(Wrap32(bitstream.size));
      assert |row| == 4;
      hide U32le;
      offsets.Append(row);
      bitstream.AppendBoth(START_CODE, slice);
      dataLen := Wrap32(dataLen + |slice| + 3);
      slices := slices + [slice];
    }

    /** The body of the H.264 loop for element `i`; `len` and `was` are the counts before the loop. */
    method CopyH264Slice(data: seq<Byte>, i: nat, ghost before: seq<seq<Byte>>, ghost len: int, ghost was: U32)
      requires Valid() && codec.H264? && i < |params| && InRange(params, data)
      requires |Stream(codec, before + SlicesOf(params, data))| < ADDRESSABLE
      requires 4 * (|before| + |params|) < ADDRESSABLE
      requires slices == before + SlicesOf(params[..i], data)
      requires dataLen == Wrap32(was + |Stream(codec, slices)| - len)
      modifies `dataLen, `slices, bitstream, offsets, bitstream.buf, offsets.buf
      ensures Valid() && slices == before + SlicesOf(params[..i + 1], data)
      ensures dataLen == Wrap32(was + |Stream(codec, slices)| - len)
      ensures bitstream.buf == old(bitstream.buf) || fresh(bitstream.buf)
      ensures offsets.buf == old(offsets.buf) || fresh(offsets.buf)
    {
      hide Stream;
      hide Table;
      hide SlicesOf;
      hide Wrap32;
      var p := params[i];
      var slice := data[p.offset..p.offset + p.size];
      assert slice == Cut(data, p);
      hide Cut;
      H264Advance(slices, params, data, i, before, len, was);
      AppendH264(slice);
    }

    /** `copyH264SliceData`. */
    method CopyH264SliceData(data: seq<Byte>)
      requires Valid() && codec.H264? && InRange(params, data)
      requires |Stream(codec, slices + SlicesOf(params, data))| < ADDRESSABLE
      requires 4 * (|slices| + |params|) < ADDRESSABLE
      modifies `dataLen, `slices, bitstream, offsets, bitstream.buf, offsets.buf
      ensures Valid() && View() == TakeData(codec, old(View()), data)
      ensures bitstream.buf == old(bitstream.buf) || fresh(bitstream.buf)
      ensures offsets.buf == old(offsets.buf) || fresh(offsets.buf)
    {
      ghost var before, len, was := slices, |Stream(codec, slices)|, dataLen;
      NoSlices(params, data, before);
      hide Stream;
      hide Table;
      hide SlicesOf;
      var i := 0;
      while i < |params|
        invariant 0 <= i <= |params|
        invariant Valid()
        invariant slices == before + SlicesOf(params[..i], data)
        invariant dataLen == Wrap32(was + |Stream(codec, slices)| - len)
        invariant bitstream.buf == old(bitstream.buf) || fresh(bitstream.buf)
        invariant offsets.buf == old(offsets.buf) || fresh(offsets.buf)
      {
        CopyH264Slice(data, i, before, len, was);
        i := i + 1;
      }
      assert params[..i] == params;
    }

    /** One turn of the AV1 loop: slice bytes, start offset, end offset. */
    method AppendAv1(slice: seq<Byte>, offset: U32) returns (end: U32)
      requires Valid() && codec.AV1?
      requires offset == Wrap32(bitstream.size) && bitstream.Growable(|slice|)
      requires bitstream.size + |slice| < ADDRESSABLE && offsets.size + 8 < ADDRESSABLE
      modifies `slices, bitstream, offsets, bitstream.buf, offsets.buf
      ensures Valid() && slices == old(slices) + [slice]
      ensures end == Wrap32(bitstream.size)
      ensures bitstream.buf != null && offsets.size == old(offsets.size) + 8
      ensures bitstream.reserved >= old(bitstream.reserved)
      ensures old(bitstream.buf) == null ==> bitstream.reserved == 2 * |slice|
      ensures old(bitstream.buf) != null && bitstream.size <= old(bitstream.reserved) ==>
        bitstream.reserved == old(bitstream.reserved)
      ensures bitstream.size == old(bitstream.size) + |slice|
      ensures bitstream.buf == old(bitstream.buf) || fresh(bitstream.buf)
      ensures offsets.buf == old(offsets.buf) || fresh(offsets.buf)
    {
      StreamSnoc(codec, slices, slice);
      TableSnoc(codec, slices, slice);
      hide Stream;
      hide Table;
      hide Bounds;
      WrapAdd(bitstream.size, |slice|);
      end := Wrap32(offset + |slice|);
      hide Wrap32;
      var start, stop := U32le(offset), U32le(end);
      assert |start| == 4 && |stop| == 4;
      hide U32le;
      Join(offsets.Contents(), start, stop);
      bitstream.Append(slice);
      offsets.AppendBoth(start, stop);
      slices := slices + [slice];
    }

    /** The body of the AV1 loop for element `i`. */
    method CopyAv1Slice(data: seq<Byte>, i: nat, offset: U32, ghost before: seq<seq<Byte>>, ghost st: Standing)
      returns (end: U32)
      requires Valid() && codec.AV1? && i < |params| && InRange(params, data)
      requires |Stream(codec, before + SlicesOf(params, data))| < ADDRESSABLE
      requires 8 * (|before| + |params|) < ADDRESSABLE
      requires slices == before + SlicesOf(params[..i], data)
      requires offset == Wrap32(bitstream.size)
      requires NeverStuck(st, params) && bitstream.Standing() == StandingAt(st, params, i)
      modifies `slices, bitstream, offsets, bitstream.buf, offsets.buf
      ensures Valid() && slices == before + SlicesOf(params[..i + 1], data)
      ensures end == Wrap32(bitstream.size)
      ensures bitstream.Standing() == StandingAt(st, params, i + 1)
      ensures bitstream.buf == old(bitstream.buf) || fresh(bitstream.buf)
      ensures offsets.buf == old(offsets.buf) || fresh(offsets.buf)
    {
      hide Stream;
      hide Table;
      hide SlicesOf;
      hide Wrap32;
      hide NeverStuck;
      hide StandingAt;
      var p := params[i];
      var slice := data[p.offset..p.offset + p.size];
      assert slice == Cut(data, p);
      hide Cut;
      Av1Advance(slices, params, data, i, before, st);
      end := AppendAv1(slice, offset);
    }

    /** The AV1 loop. */
    method AppendAllAv1(data: seq<Byte>)
      requires Valid() && codec.AV1? && InRange(params, data)
      requires NeverStuck(bitstream.Standing(), params)
      requires |Stream(codec, slices + SlicesOf(params, data))| < ADDRESSABLE
      requires 8 * (|slices| + |params|) < ADDRESSABLE
      modifies `slices, bitstream, offsets, bitstream.buf, offsets.buf
      ensures Valid() && slices == old(slices) + SlicesOf(params, data)
      ensures bitstream.Standing() == NextStanding(old(bitstream.Standing()), params)
      ensures bitstream.buf == old(bitstream.buf) || fresh(bitstream.buf)
      ensures offsets.buf == old(offsets.buf) || fresh(offsets.buf)
    {
      hide Stream;
      hide Table;
      hide SlicesOf;
      hide Wrap32;
      hide NeverStuck;
      hide NextStanding;
      hide StandingAt;
      ghost var before, st := slices, bitstream.Standing();
      NoSlices(params, data, before);
      StandingEnds(st, params);
      var offset := Wrap32(bitstream.size);
      for i := 0 to |params|
        invariant Valid()
        invariant slices == before + SlicesOf(params[..i], data)
        invariant offset == Wrap32(bitstream.size)
        invariant bitstream.Standing() == StandingAt(st, params, i)
        invariant bitstream.buf == old(bitstream.buf) || fresh(bitstream.buf)
        invariant offsets.buf == old(offsets.buf) || fresh(offsets.buf)
      {
        offset := CopyAv1Slice(data, i, offset, before, st);
      }
      assert params[..|params|] == params;
    }

    /** `copyAV1SliceData`, for slices whose appends end; what the buffer can take afterwards is known. */
    method CopyAV1SliceData(data: seq<Byte>)
      requires Valid() && codec.AV1? && InRange(params, data)
      requires NeverStuck(bitstream.Standing(), params)
      requires |Stream(codec, slices + SlicesOf(params, data))| < ADDRESSABLE
      requires 8 * (|slices| + |params|) < ADDRESSABLE
      modifies `dataLen, `slices, bitstream, offsets, bitstream.buf, offsets.buf
      ensures Valid() && View() == TakeData(codec, old(View()), data)
      ensures bitstream.Standing() == NextStanding(old(bitstream.Standing()), params)
      ensures bitstream.buf == old(bitstream.buf) || fresh(bitstream.buf)
      ensures offsets.buf == old(offsets.buf) || fresh(offsets.buf)
    {
      hide NeverStuck;
      hide NextStanding;
      hide StandingOf;
      hide Stream;
      hide Table;
      hide SlicesOf;
      AppendAllAv1(data);
      dataLen := Wrap32(bitstream.size);
    }

    /** `nvEndPicture`: both allocations are handed over, then emptied for the next picture. */
    method EndPicture() returns (sub: Submission)
      requires Valid()
      modifies bitstream`size, offsets`size, `slices
      ensures Valid() && View() == End(old(View()))
      ensures HandsOver(codec, old(View()), sub)
      ensures bitstream.buf == old(bitstream.buf) && offsets.buf == old(offsets.buf)
      ensures bitstream.Used() == AfterUse(old(bitstream.Used()), Emptied)
    {
      EmptyAssembly(codec);
      hide Stream;
      hide Table;
      var memory := if bitstream.buf == null then [] else bitstream.buf[..];
      var table := if offsets.buf == null then [] else offsets.buf[..];
      sub := Submission(memory, table, dataLen, numSlices);
      assert HandsOver(codec, View(), sub);
      bitstream.Reset();
      offsets.Reset();
      slices := [];
    }
  }

  /** What one turn of the AV1 loop may rely on and what it adds. */
  lemma Av1Advance(slices: seq<seq<Byte>>, params: seq<Extent>, data: seq<Byte>, i: nat,
                   before: seq<seq<Byte>>, st: Standing)
    requires i < |params| && slices == before + SlicesOf(params[..i], data) && NeverStuck(st, params)
    ensures |slices| == |before| + i && |Table(AV1, slices)| == 8 * |slices|
    ensures
      var slice := Cut(data, params[i]);
      && |Stream(AV1, slices)| + |slice| <= |Stream(AV1, before + SlicesOf(params, data))|
      && slices + [slice] == before + SlicesOf(params[..i + 1], data)
    ensures StandingAt(st, params, i).Barren? ==> params[i].size == 0
    ensures AfterSlice(StandingAt(st, params, i), params[i].size) == StandingAt(st, params, i + 1)
  {
    hide Stream;
    hide Table;
    hide SlicesOf;
    hide Cut;
    TakesNext(st, params, i);
    NextFits(AV1, before, params, data, i);
    SlicesOfStep(params, data, i);
    TableRecovers(AV1, slices);
  }

  /** Where the buffer stands after one more slice. */
  function AfterSlice(st: Standing, n: nat): Standing {
    if !st.Fresh? then st else if n > 0 then Roomy else Barren
  }

  /** Where it stands before slice `i`. */
  function StandingAt(st: Standing, params: seq<Extent>, i: nat): Standing {
    if i == 0 then st else NextStanding(st, params)
  }

  lemma TakesNext(st: Standing, params: seq<Extent>, i: nat)
    requires i < |params| && NeverStuck(st, params)
    ensures StandingAt(st, params, i).Barren? ==> params[i].size == 0
    ensures AfterSlice(StandingAt(st, params, i), params[i].size) == StandingAt(st, params, i + 1)
  {
  }

  lemma StandingEnds(st: Standing, params: seq<Extent>)
    ensures StandingAt(st, params, 0) == st
    ensures StandingAt(st, params, |params|) == NextStanding(st, params)
  {
  }
}

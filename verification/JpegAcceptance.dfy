/**
 What acceptance means for the image: the inputs `reconstructJPEG` accepts are those whose image a baseline decoder
 with four quantisers and two Huffman tables per class can follow.
 */
module JpegAcceptance {
  import opened Words
  import opened JpegSyntax
  import opened JpegImage
  import opened JpegLayout

  /** A segment such a decoder can follow, given the components of the frame. */
  predicate Legal(x: Segment, frame: seq<FrameComponent>) {
    match x
    case Sof0(_, height, width, cs) => height != 0 && width != 0 && 1 <= |cs| <= 4 && forall c <- cs :: c.quant <= 3
    case Scan(cs, _, _, _, _) =>
      && 1 <= |cs| <= 4
      && forall c <- cs :: c.dc <= 1 && c.ac <= 1 && exists f <- frame :: f.id == c.selector
    case _ => true
  }

  lemma {:induction false} InScans(segs: seq<Segment>, x: Segment)
    ensures x in Scans(segs) <==> x in segs && x.Scan?
  {
    if segs != [] {
      var n := |segs| - 1;
      InScans(segs[..n], x);
      assert segs == segs[..n] + [segs[n]];
    }
  }

  /** The components of every slice are those of a scan. */
  lemma ScanFor(st: JpegState, slices: seq<Slice>, data: seq<Byte>, i: nat) returns (x: Segment)
    requires slices != [] && SlicesFit(slices, |data|) && i < |slices|
    ensures x in Image(st, slices, data) && x.Scan? && x.scan == slices[i].components
  {
    hide Image;
    hide Concatenates;
    hide WithoutEoi;
    hide IsSlice;
    var image := Image(st, slices, data);
    if s :| s in slices && s.components != slices[0].components {
      var full := OneScanPerSlice(st, slices, data, i);
      x := Scans(image)[i];
    } else {
      assert slices[i] in slices;
      var full := OneScanOfAllSlices(st, slices, data);
      x := Scans(image)[0];
    }
    InScans(image, x);
    hide Scans;
  }

  /** The components of every scan are those of a slice. */
  lemma ScanFrom(st: JpegState, slices: seq<Slice>, data: seq<Byte>, x: Segment) returns (i: nat)
    requires slices != [] && SlicesFit(slices, |data|)
    requires x in Image(st, slices, data) && x.Scan?
    ensures i < |slices| && x.scan == slices[i].components
  {
    hide Image;
    hide Concatenates;
    hide WithoutEoi;
    hide IsSlice;
    var image := Image(st, slices, data);
    InScans(image, x);
    hide Scans;
    i :| 0 <= i < |Scans(image)| && Scans(image)[i] == x;
    if s :| s in slices && s.components != slices[0].components {
      var first := OneScanPerSlice(st, slices, data, 0);
      var full := OneScanPerSlice(st, slices, data, i);
    } else {
      var full := OneScanOfAllSlices(st, slices, data);
    }
  }

  /** Everything about a slice that the scan header does not say. */
  predicate WholeSlices(slices: seq<Slice>) {
    forall s <- slices :: s.flag == 0
  }

  predicate QuantsLoaded(st: JpegState) {
    forall c <- st.pic.components :: c.quant as int in st.validQuant
  }

  lemma AcceptedSaysLegal(st: JpegState, slices: seq<Slice>, data: seq<Byte>, x: Segment)
    requires InputsAccepted(st, slices, |data|) && SlicesFit(slices, |data|) && x in Image(st, slices, data)
    ensures Legal(x, st.pic.components)
  {
    var image := Image(st, slices, data);
    hide Image;
    if x.Scan? {
      var i := ScanFrom(st, slices, data, x);
      assert slices[i] in slices && SliceAccepted(st.pic, slices[i], |data|);
    } else if x.Sof0? {
      var i :| 0 <= i < |image| && image[i] == x;
      FrameOnlyThere(st, slices, data, i);
      FrameAt(st, slices, data);
      hide QuantSegments;
    }
  }

  lemma LegalSaysSlice(st: JpegState, slices: seq<Slice>, data: seq<Byte>, s: Slice)
    requires slices != [] && SlicesFit(slices, |data|) && s in slices && s.flag == 0
    requires forall x <- Image(st, slices, data) :: Legal(x, st.pic.components)
    ensures SliceAccepted(st.pic, s, |data|)
  {
    hide Image;
    var i :| 0 <= i < |slices| && slices[i] == s;
    var x := ScanFor(st, slices, data, i);
    assert Legal(x, st.pic.components);
  }

  lemma LegalSaysFrame(st: JpegState, slices: seq<Slice>, data: seq<Byte>)
    requires slices != [] && SlicesFit(slices, |data|)
    requires forall x <- Image(st, slices, data) :: Legal(x, st.pic.components)
    ensures Legal(Sof0(8, st.pic.height, st.pic.width, st.pic.components), st.pic.components)
  {
    FrameAt(st, slices, data);
    hide Image;
    hide QuantSegments;
    hide Legal;
  }

  /**
   Given slices inside the data, the inputs are accepted if and only if picture and quantisers were given, every
   quantiser named was loaded, every slice is whole, and every segment of the image is legal for its frame header.
   */
  lemma AcceptedExactly(st: JpegState, slices: seq<Slice>, data: seq<Byte>)
    requires slices != [] && SlicesFit(slices, |data|)
    ensures InputsAccepted(st, slices, |data|) <==>
            && st.hasPic && st.hasIq && QuantsLoaded(st) && WholeSlices(slices)
            && forall x <- Image(st, slices, data) :: Legal(x, st.pic.components)
  {
    if InputsAccepted(st, slices, |data|) {
      forall x | x in Image(st, slices, data) ensures Legal(x, st.pic.components) {
        AcceptedSaysLegal(st, slices, data, x);
      }
      assert forall c <- st.pic.components :: c.quant as int in UsedQuants(st.pic);
    } else if && st.hasPic && st.hasIq && QuantsLoaded(st) && WholeSlices(slices)
              && forall x <- Image(st, slices, data) :: Legal(x, st.pic.components) {
      LegalSaysFrame(st, slices, data);
      forall s | s in slices ensures SliceAccepted(st.pic, s, |data|) {
        LegalSaysSlice(st, slices, data, s);
      }
      assert false;
    }
  }

  lemma {:induction false} SumIsZero(s: seq<Byte>)
    ensures Sum(s) == 0 <==> forall k :: 0 <= k < |s| ==> s[k] == 0
  {
    if s != [] {
      SumIsZero(s[1..]);
      assert forall k :: 0 < k < |s| ==> s[k] == s[1..][k - 1];
    }
  }

  /** The tables pass the emptiness test exactly if every quantiser the frame names has an entry other than zero. */
  lemma NonEmptyExactly(st: JpegState)
    requires forall c <- st.pic.components :: c.quant < 4
    ensures QuantsNonEmpty(st) <==>
            forall c <- st.pic.components :: exists k :: 0 <= k < 64 && st.iq[c.quant][k] != 0
  {
    forall t: nat | t < 4 ensures Sum(st.iq[t]) != 0 <==> exists k :: 0 <= k < 64 && st.iq[t][k] != 0 {
      SumIsZero(st.iq[t]);
    }
    hide Sum;
    forall c | c in st.pic.components ensures c.quant as int in UsedQuants(st.pic) {
    }
  }
}

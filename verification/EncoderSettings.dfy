/**
 What each control buffer sets, field by field: rates, frame rate, GOP, QP limits and the visible rectangle, said in
 the buffer's own numbers.
 */
module EncoderSettings {
  import opened Words
  import opened EncoderModel
  import opened EncoderTheorems

  // ---------------------------------------------------------------- rates

  /** A rate sets average and maximum alike in CBR, lowering the maximum too; in VBR it only ever raises the maximum. */
  lemma BitrateSets(k: Held, bps: U32)
    ensures var c := SetBitrate(k, bps).cfg;
            && (bps == 0 || k.cfg.mode.ConstQp? ==> c.avg == k.cfg.avg && c.max == k.cfg.max)
            && (bps > 0 && k.cfg.mode.Cbr? ==> c.avg == bps && c.max == bps)
            && (bps > 0 && k.cfg.mode.Vbr? ==> c.avg == bps && c.max >= bps && c.max >= k.cfg.max
                                               && c.max in {bps, k.cfg.max})
            && c.gop == k.cfg.gop && c.idrPeriod == k.cfg.idrPeriod && c.maxQp == k.cfg.maxQp && c.minQp == k.cfg.minQp
            && c.fpsNum == k.cfg.fpsNum && c.fpsDen == k.cfg.fpsDen && SameSizes(k.cfg, c)
  {
  }

  /** A frame rate with a numerator sets both parts, with 1 for a missing denominator. */
  lemma FrameRateSets(k: Held, num: U32, den: U32)
    ensures var c := SetFrameRate(k, num, den).cfg;
            && (num == 0 ==> c.fpsNum == k.cfg.fpsNum && c.fpsDen == k.cfg.fpsDen)
            && (num > 0 ==> c.fpsNum == num && (den > 0 ==> c.fpsDen == den) && (den == 0 ==> c.fpsDen == 1))
            && SameRates(k.cfg, c) && SameSizes(k.cfg, c)
  {
  }

  /** GOP length and IDR period are set one by one, each only if it is not zero. */
  lemma GopSets(k: Held, gop: U32, idrPeriod: U32)
    ensures var c := SetGop(k, gop, idrPeriod).cfg;
            && (gop > 0 ==> c.gop == gop) && (gop == 0 ==> c.gop == k.cfg.gop)
            && (idrPeriod > 0 ==> c.idrPeriod == idrPeriod) && (idrPeriod == 0 ==> c.idrPeriod == k.cfg.idrPeriod)
            && c.avg == k.cfg.avg && c.max == k.cfg.max && c.fpsNum == k.cfg.fpsNum && c.fpsDen == k.cfg.fpsDen
            && SameSizes(k.cfg, c)
  {
  }

  /** The average of a target percentage is that share of the rate, rounded down, unless 32 bits do not hold it. */
  lemma TargetIsShare(rc: RateControl)
    ensures var product := (rc.bps as int) * (rc.percent as int);
            var avg := TargetAverage(rc) as int;
            && (product < 100 * 0x1_0000_0000 ==> 100 * avg <= product < 100 * (avg + 1))
            && (product >= 100 * 0x1_0000_0000 ==> avg == 0xFFFF_FFFF)
  {
    var product := (rc.bps as int) * (rc.percent as int);
    Share(product);
  }

  lemma Share(product: int)
    requires product >= 0
    ensures 100 * (product / 100) <= product < 100 * (product / 100 + 1)
    ensures product < 100 * 0x1_0000_0000 <==> product / 100 < 0x1_0000_0000
  {
  }

  /** In VBR a target percentage sets the average to its share and the maximum to the rate itself. */
  lemma TargetSets(k: Held, rc: RateControl)
    requires rc.bps > 0 && rc.percent > 0 && k.cfg.mode.Vbr? && TargetAverage(rc) > 0
    ensures var c := RenderRateControl(k, rc).cfg; c.avg == TargetAverage(rc) && c.max == rc.bps
  {
    hide TargetAverage;
    var k1 := RateControlRates(k, rc);
    assert k1.cfg.avg == TargetAverage(rc) && k1.cfg.max == rc.bps;
    hide RateControlRates;
  }

  /** Outside VBR, or without a percentage, a rate-control buffer sets the rate as a sequence header does. */
  lemma PlainRateSets(k: Held, rc: RateControl)
    requires rc.percent == 0 || !k.cfg.mode.Vbr?
    ensures var c, d := RenderRateControl(k, rc).cfg, SetBitrate(k, rc.bps).cfg; c.avg == d.avg && c.max == d.max
  {
    var k1 := RateControlRates(k, rc);
    assert k1.cfg == SetBitrate(k, rc.bps).cfg;
    hide RateControlRates;
  }

  /** The QP limits go to all three picture types; 0 leaves them alone. */
  lemma QpLimitsSet(k: Held, rc: RateControl)
    ensures var c := RenderRateControl(k, rc).cfg;
            && (rc.maxQp > 0 ==> c.maxQp.interB == c.maxQp.interP == c.maxQp.intra == rc.maxQp)
            && (rc.maxQp == 0 ==> c.maxQp == k.cfg.maxQp)
            && (rc.minQp > 0 ==> c.minQp.interB == c.minQp.interP == c.minQp.intra == rc.minQp)
            && (rc.minQp == 0 ==> c.minQp == k.cfg.minQp)
  {
    hide TargetAverage;
    var k1 := RateControlRates(k, rc);
    assert k1.cfg.maxQp == k.cfg.maxQp && k1.cfg.minQp == k.cfg.minQp;
    hide RateControlRates;
  }

  /** A frame-rate buffer: 30000 over 1001, and 60 with nothing in the high half. */
  lemma FrameRateBuffers(k: Held)
    ensures var c := RenderFrameRate(k, 0x03E9_7530).cfg; c.fpsNum == 30000 && c.fpsDen == 1001
    ensures var c := RenderFrameRate(k, 60).cfg; c.fpsNum == 60 && c.fpsDen == 1
  {
    assert 0x03E9_7530 % 0x1_0000 == 30000 && 0x03E9_7530 / 0x1_0000 == 1001;
    FrameRateSets(k, 30000, 1001);
    FrameRateSets(k, 60, 1);
    hide SetFrameRate;
  }

  /** A sequence buffer of the encoder's codec passes on its rate, its periods and its timing. */
  lemma SequenceSets(env: Settings, s: Encoder, q: Sequence)
    requires q.HevcSeq? == s.hevc
    ensures var c, d := RenderSequence(env, s, q).held.cfg, SetBitrate(s.held, q.bps).cfg;
            && c.avg == d.avg && c.max == d.max
            && (q.intraPeriod > 0 ==> c.gop == q.intraPeriod) && (q.idrPeriod > 0 ==> c.idrPeriod == q.idrPeriod)
            && (q.timing && q.timeScale > 0 ==> c.fpsNum == q.timeScale)
            && (q.timing && q.timeScale > 0 && q.HevcSeq? && q.unitsInTick > 0 ==> c.fpsDen == q.unitsInTick)
            && (q.timing && q.timeScale > 0 && q.H264Seq? && 0 < q.unitsInTick < 0x8000_0000 ==>
                  c.fpsDen == 2 * q.unitsInTick)
            && (!q.timing || q.timeScale == 0 ==> c.fpsNum == s.held.cfg.fpsNum && c.fpsDen == s.held.cfg.fpsDen)
  {
    var v := SequenceVisible(s, q);
    SequenceEffect(env, s, q);
    hide RenderSequence;
    hide SequenceVisible;
    var k1 := SetBitrate(s.held, q.bps);
    BitrateSets(s.held, q.bps);
    hide SetBitrate;
    var k2 := SetGop(k1, q.intraPeriod, q.idrPeriod);
    GopSets(k1, q.intraPeriod, q.idrPeriod);
    hide SetGop;
    var sets := q.H264Seq? || (q.picW != 0 && q.picH != 0);
    var k3 := if sets then Sized(env, v, s.width, s.height, k2) else k2;
    assert SameRates(k3.cfg, k2.cfg) && k3.cfg.fpsNum == k2.cfg.fpsNum && k3.cfg.fpsDen == k2.cfg.fpsDen;
    hide Sized;
    TimingSets(k3, q);
    hide SequenceFrameRate;
  }

  lemma TimingSets(k: Held, q: Sequence)
    ensures var c := SequenceFrameRate(k, q).cfg;
            && SameRates(k.cfg, c)
            && (q.timing && q.timeScale > 0 ==> c.fpsNum == q.timeScale)
            && (q.timing && q.timeScale > 0 && q.HevcSeq? && q.unitsInTick > 0 ==> c.fpsDen == q.unitsInTick)
            && (q.timing && q.timeScale > 0 && q.H264Seq? && 0 < q.unitsInTick < 0x8000_0000 ==>
                  c.fpsDen == 2 * q.unitsInTick)
            && (!q.timing || q.timeScale == 0 ==> c == k.cfg)
  {
    if q.unitsInTick < 0x8000_0000 {
      assert Wrap32(q.unitsInTick * 2) == q.unitsInTick * 2;
    }
    hide Wrap32;
  }

  // ---------------------------------------------------------------- the visible rectangle

  /** Luma columns and rows of one crop unit, by chroma format and interlacing. */
  lemma CropUnits(chroma: U32)
    ensures CropUnitX(chroma) == if chroma in {1, 2} then 2 else 1
    ensures CropUnitY(1, true) == 2 && CropUnitY(1, false) == 4
    ensures chroma != 1 ==> CropUnitY(chroma, true) == 1 && CropUnitY(chroma, false) == 2
  {
  }

  /** A 4:2:0 frame header whose crops fit: they are taken off the coded size, and the rectangle starts behind them. */
  lemma CropsTakenOff(q: Sequence)
    requires q.H264Seq? && q.cropping && q.chroma == 1 && q.frameMbsOnly
    requires 2 * (q.cropL + q.cropR) < 16 * q.mbsW && 2 * (q.cropT + q.cropB) < 16 * q.mbsH
    ensures H264Rect(q) == (2 * q.cropL, 2 * q.cropT,
                            16 * q.mbsW - 2 * (q.cropL + q.cropR), 16 * q.mbsH - 2 * (q.cropT + q.cropB))
  {
    SmallProduct(q.cropL, q.cropR, q.mbsW);
    SmallProduct(q.cropT, q.cropB, q.mbsH);
    hide Wrap32;
    hide Cropped;
  }

  lemma SmallProduct(lo: U32, hi: U32, mbs: U16)
    requires 2 * (lo + hi) < 16 * mbs
    ensures Wrap32(lo * 2) == 2 * lo && Wrap32(hi * 2) == 2 * hi
    ensures Cropped(mbs * 16, 2 * lo, 2 * hi) == 16 * mbs - 2 * (lo + hi)
  {
    assert Wrap32(2 * lo + 2 * hi) == 2 * lo + 2 * hi;
  }

  /** Without cropping the rectangle is the whole coded frame. */
  lemma NoCrops(q: Sequence)
    requires q.H264Seq? && !q.cropping && q.mbsW > 0 && q.mbsH > 0
    ensures H264Rect(q) == (0, 0, 16 * q.mbsW, 16 * q.mbsH)
  {
    assert Wrap32(0 + 0) == 0;
    hide Wrap32;
  }

  /** 1920x1088 with four units cropped at the bottom shows 1920x1080. */
  lemma FullHd()
    ensures H264Rect(H264Seq(0, 0, 0, 120, 68, 1, true, true, 0, 0, 0, 4, false, 0, 0)) == (0, 0, 1920, 1080)
  {
    CropsTakenOff(H264Seq(0, 0, 0, 120, 68, 1, true, true, 0, 0, 0, 4, false, 0, 0));
    hide H264Rect;
  }

  /** One axis of the rectangle: the largest even extent inside both the request and the frame, if there is any. */
  lemma ClipIsLargest(pos: U32, len: U32, size: U32, l: nat)
    requires pos + len <= U32_MAX && l % 2 == 0 && l <= len && Even(pos) + l <= size
    ensures l <= ClipExtent(pos, len, size)
  {
    EvenIsEven(pos);
    EvenIsEven(len);
    assert l <= Even(len);
    var p := Even(pos);
    if p < size {
      assert l <= Even(size - p);
    }
    assert Wrap32(p + Even(len)) == p + Even(len);
    hide Wrap32;
    hide Even;
  }

  /** The rectangle starts at the masked corner, has those extents, and is invalid exactly when one of them is 0. */
  lemma RectIsClipped(s: Encoder, x: U32, y: U32, w: U32, h: U32)
    ensures var v := VisibleRect(s, x, y, w, h);
            && (v.valid <==> ClipExtent(x, w, s.width) > 0 && ClipExtent(y, h, s.height) > 0)
            && (v.valid ==> v.w == ClipExtent(x, w, s.width) && v.h == ClipExtent(y, h, s.height)
                            && v.x <= x < v.x + 2 && v.y <= y < v.y + 2 && v.x % 2 == v.y % 2 == 0)
  {
    hide ClipExtent;
  }
}

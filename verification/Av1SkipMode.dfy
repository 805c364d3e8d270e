/**
 * Choice of the skip-mode reference frames of AV1 (src/av1.c:5-12, 95-148; sections 5.9.3 and 5.9.22
 * of the AV1 Bitstream & Decoding Process Specification): a scan under an order that is cyclic.
 */
module Av1SkipMode {

  import opened Words

  // ----- the relative distance -----------------------------------------------------------

  function Pow2(k: nat): (p: nat)
    ensures p > 0
  {
    if k == 0 then 1 else 2 * Pow2(k - 1)
  }

  /** `a & mask` of a two's complement integer and a non-negative mask, bit by bit. */
  function BitAnd(a: int, mask: nat): int
    decreases mask
  {
    if mask == 0 then 0 else 2 * BitAnd(a / 2, mask / 2) + (a % 2) * (mask % 2)
  }

  /** The low `k` bits are the remainder. */
  lemma {:induction false} LowBits(a: int, k: nat)
    ensures BitAnd(a, Pow2(k) - 1) == a % Pow2(k)
    decreases k
  {
    if k > 0 {
      var p := Pow2(k - 1);
      assert (2 * p - 1) / 2 == p - 1 && (2 * p - 1) % 2 == 1;
      LowBits(a / 2, k - 1);
      HalfRemainder(a, p);
    }
  }

  lemma HalfRemainder(a: int, p: int)
    requires p > 0
    ensures a % (2 * p) == 2 * (a / 2 % p) + a % 2
    ensures a / (2 * p) == a / 2 / p
  {
    var h, b := a / 2, a % 2;
    var q, r := h / p, h % p;
    assert h == q * p + r;
    assert a == q * (2 * p) + (2 * r + b);
    DivModUnique(a, 2 * p, q, 2 * r + b);
  }

  /** The only multiple of `m` strictly between -m and m is 0. */
  lemma MultipleBelow(t: int, m: int, d: int)
    requires m > 0 && t * m == d && -m < d < m
    ensures t == 0
  {
  }

  lemma DivModUnique(a: int, m: int, q: int, r: int)
    requires 0 <= r < m && a == q * m + r
    ensures a / m == q && a % m == r
  {
    var q', r' := a / m, a % m;
    assert a == m * q' + r';
    MultipleBelow(q' - q, m, r - r');
  }

  /** Bit `k` is the parity of the quotient. */
  lemma {:induction false} OneBit(a: int, k: nat)
    ensures BitAnd(a, Pow2(k)) == (a / Pow2(k) % 2) * Pow2(k)
    decreases k
  {
    if k > 0 {
      var p := Pow2(k - 1);
      OneBit(a / 2, k - 1);
      HalfRemainder(a, p);
      assert 2 * p / 2 == p && 2 * p % 2 == 0;
      assert BitAnd(a, 2 * p) == 2 * BitAnd(a / 2, p);
      var b := a / 2 / p % 2;
      hide BitAnd;
      hide Pow2;
      assert 2 * (b * p) == b * (2 * p);
    } else {
      assert BitAnd(a, 1) == a % 2;
    }
  }

  /** The sequence header's order-hint fields. */
  datatype Order = Order(enabled: bool, bitsMinus1: nat)

  function Half(o: Order): (m: int)
    ensures m > 0
  {
    Pow2(o.bitsMinus1)
  }

  /** `get_relative_dist`. */
  function Dist(o: Order, a: int, b: int): int {
    if !o.enabled then 0
    else BitAnd(a - b, Half(o) - 1) - BitAnd(a - b, Half(o))
  }

  ghost predicate Congruent(x: int, y: int, m: int)
    requires m > 0
  {
    x % m == y % m
  }

  lemma SignedRemainder(d: int, m: int)
    requires m > 0
    ensures
      var r := d % m - (d / m % 2) * m;
      -m <= r < m && Congruent(r, d, 2 * m)
  {
    var q, s := d / m, d % m;
    var h, b := q / 2, q % 2;
    assert d == (2 * h + b) * m + s;
    var r := s - b * m;
    assert d == (h + b) * (2 * m) + r;
    if b == 1 {
      assert d == h * (2 * m) + (r + 2 * m);
      DivModUnique(d, 2 * m, h, r + 2 * m);
      DivModUnique(r, 2 * m, -1, r + 2 * m);
    } else {
      DivModUnique(d, 2 * m, h, r);
      DivModUnique(r, 2 * m, 0, r);
    }
  }

  /** Two values of [-m, m) that are congruent modulo 2m are equal. */
  lemma RepresentativeUnique(x: int, y: int, m: int)
    requires m > 0 && -m <= x < m && -m <= y < m && Congruent(x, y, 2 * m)
    ensures x == y
  {
    DivModUnique(x, 2 * m, if x < 0 then -1 else 0, if x < 0 then x + 2 * m else x);
    DivModUnique(y, 2 * m, if y < 0 then -1 else 0, if y < 0 then y + 2 * m else y);
  }

  /** The distance is the one value of [-m, m) congruent to the difference modulo 2m. */
  lemma DistIsRepresentative(o: Order, a: int, b: int, x: int)
    requires o.enabled
    ensures x == Dist(o, a, b) <==> -Half(o) <= x < Half(o) && Congruent(x, a - b, 2 * Half(o))
  {
    var m := Half(o);
    LowBits(a - b, o.bitsMinus1);
    OneBit(a - b, o.bitsMinus1);
    SignedRemainder(a - b, m);
    hide BitAnd;
    var d := Dist(o, a, b);
    assert -m <= d < m && Congruent(d, a - b, 2 * m);
    if -m <= x < m && Congruent(x, a - b, 2 * m) {
      RepresentativeUnique(x, d, m);
    }
  }

  /** The order is cyclic, not transitive. */
  lemma DistNotTransitive()
    ensures
      var o := Order(true, 2);
      Dist(o, 3, 0) > 0 && Dist(o, 6, 3) > 0 && Dist(o, 6, 0) < 0
  {
    var o := Order(true, 2);
    assert Pow2(2) == 4 by {
      assert Pow2(1) == 2;
    }
    DistIsRepresentative(o, 3, 0, 3);
    DistIsRepresentative(o, 6, 3, 3);
    DistIsRepresentative(o, 6, 0, -2);
  }

  lemma CongruentMeans(x: int, y: int, m: int)
    requires m > 0 && Congruent(x, y, m)
    ensures y == x + (y / m - x / m) * m
  {
    assert x == x / m * m + x % m && y == y / m * m + y % m;
  }

  lemma ShiftCongruent(x: int, k: int, m: int)
    requires m > 0
    ensures Congruent(x, x + k * m, m)
  {
    var q, r := x / m, x % m;
    assert x + k * m == (q + k) * m + r;
    DivModUnique(x + k * m, m, q + k, r);
  }

  lemma CongruentDifference(x: int, y: int, a: int, b: int, c: int, m: int)
    requires m > 0 && Congruent(x, a - c, m) && Congruent(y, b - c, m)
    ensures Congruent(x - y, a - b, m)
  {
    var p := Turns(x, a - c, m);
    var q := Turns(y, b - c, m);
    hide Congruent;
    assert p * m - q * m == (p - q) * m;
    ShiftCongruent(x - y, p - q, m);
  }

  lemma Turns(x: int, y: int, m: int) returns (k: int)
    requires m > 0 && Congruent(x, y, m)
    ensures y == x + k * m
  {
    CongruentMeans(x, y, m);
    k := y / m - x / m;
  }

  /** On one side of a common base, comparing two hints directly is comparing their distances to the base. */
  lemma SameSideCompares(o: Order, a: int, b: int, base: int)
    requires
      || (Dist(o, a, base) < 0 && Dist(o, b, base) < 0)
      || (Dist(o, a, base) > 0 && Dist(o, b, base) > 0)
    ensures Dist(o, a, b) == Dist(o, a, base) - Dist(o, b, base)
  {
    var x, y := Dist(o, a, base), Dist(o, b, base);
    var m := Half(o);
    DistIsRepresentative(o, a, base, x);
    DistIsRepresentative(o, b, base, y);
    CongruentDifference(x, y, a, b, base, 2 * m);
    DistIsRepresentative(o, a, b, x - y);
  }

  // ----- the nearest reference -----------------------------------------------------------

  datatype Side = Forward | Backward

  predicate OnSide(o: Order, side: Side, hint: int, base: int) {
    if side.Forward? then Dist(o, hint, base) < 0 else Dist(o, hint, base) > 0
  }

  /** How far a hint lies from the base, on its own side. */
  function Gap(o: Order, hint: int, base: int): nat {
    var d := Dist(o, hint, base);
    if d < 0 then -d else d
  }

  /** `i` is the first index of the nearest hint on the side, or -1 when the side is empty. */
  ghost predicate FirstNearest(o: Order, side: Side, hints: seq<int>, base: int, i: int) {
    if i == -1 then forall k :: 0 <= k < |hints| ==> !OnSide(o, side, hints[k], base)
    else
      && 0 <= i < |hints| && OnSide(o, side, hints[i], base)
      && (forall k :: 0 <= k < |hints| && OnSide(o, side, hints[k], base) ==>
        Gap(o, hints[i], base) <= Gap(o, hints[k], base))
      && (forall k :: 0 <= k < i && OnSide(o, side, hints[k], base) ==>
        Gap(o, hints[i], base) < Gap(o, hints[k], base))
  }

  /** There is only one such index. */
  lemma FirstNearestUnique(o: Order, side: Side, hints: seq<int>, base: int, i: int, j: int)
    requires FirstNearest(o, side, hints, base, i) && FirstNearest(o, side, hints, base, j)
    ensures i == j
  {
  }

  /** The update the loops make when they meet one more hint. */
  predicate Replaces(o: Order, side: Side, hint: int, best: int, bestHint: int) {
    best < 0 || (if side.Forward? then Dist(o, hint, bestHint) > 0 else Dist(o, hint, bestHint) < 0)
  }

  /** One more hint on the side: the update keeps the first nearest. */
  lemma NearestStep(o: Order, side: Side, hints: seq<int>, base: int, i: int, hint: int)
    requires FirstNearest(o, side, hints, base, i)
    ensures
      var best := if i < 0 then 0 else hints[i];
      var next := if OnSide(o, side, hint, base) && Replaces(o, side, hint, i, best) then |hints| else i;
      FirstNearest(o, side, hints + [hint], base, next)
  {
    hide Dist;
    var more := hints + [hint];
    assert more[|hints|] == hint;
    assert forall k :: 0 <= k < |hints| ==> more[k] == hints[k];
    if i >= 0 && OnSide(o, side, hint, base) {
      SameSideCompares(o, hint, hints[i], base);
    }
  }

  // ----- the choice ----------------------------------------------------------------------

  /** What the driver knows of a surface in the reference map. */
  datatype Reference = Reference(pictureIdx: int, orderHint: int)

  /** The hint of a reference: its surface's, or 0 if the surface is unknown or was never decoded into. */
  predicate IsHint(r: Option<Reference>, hint: int) {
    match r
    case None => hint == 0
    case Some(x) => if x.pictureIdx == -1 then hint == 0 else hint == x.orderHint
  }

  /** `SkipModeFrame0` and `SkipModeFrame1`. */
  datatype Frames = Frames(first: nat, second: nat)

  /** The frames are those of two reference indices, counted from 1, the smaller one first. */
  predicate Names(frames: Frames, i: int, j: int) {
    frames.first < frames.second
    && ((frames.first == i + 1 && frames.second == j + 1) || (frames.first == j + 1 && frames.second == i + 1))
  }

  /**
   * The choice, declaratively: `f` and `b` are the first nearest on either side of the current hint,
   * `g` is the first nearest forward of the nearest forward hint.
   */
  ghost predicate Chosen(o: Order, hints: seq<int>, current: int, frames: Frames) {
    exists f, b ::
      && FirstNearest(o, Forward, hints, current, f) && FirstNearest(o, Backward, hints, current, b)
      && ChosenFrom(o, hints, f, b, frames)
  }

  ghost predicate ChosenFrom(o: Order, hints: seq<int>, f: int, b: int, frames: Frames)
    requires -1 <= f < |hints| && b >= -1
  {
    if f < 0 then frames == Frames(0, 0)
    else if b >= 0 then Names(frames, f, b)
    else
      exists g ::
        && FirstNearest(o, Forward, hints, hints[f], g)
        && if g < 0 then frames == Frames(0, 0) else Names(frames, f, g)
  }

  /** The hints of the seven references, through `ref_frame_map` and `ref_frame_idx`. */
  method RefHints(refMap: seq<Option<Reference>>, refIdx: seq<nat>) returns (hints: seq<int>)
    requires |refMap| == 8
    requires forall i :: 0 <= i < |refIdx| ==> refIdx[i] < 8
    ensures |hints| == |refIdx|
    ensures forall i :: 0 <= i < |hints| ==> IsHint(refMap[refIdx[i]], hints[i])
  {
    var refOrderHint: seq<int> := [];
    for i := 0 to 8
      invariant |refOrderHint| == i
      invariant forall k :: 0 <= k < i ==> IsHint(refMap[k], refOrderHint[k])
    {
      var hint := 0;
      if refMap[i].Some? && refMap[i].value.pictureIdx != -1 {
        hint := refMap[i].value.orderHint;
      }
      refOrderHint := refOrderHint + [hint];
    }
    hints := [];
    for i := 0 to |refIdx|
      invariant |hints| == i
      invariant forall k :: 0 <= k < i ==> IsHint(refMap[refIdx[k]], hints[k])
    {
      hints := hints + [refOrderHint[refIdx[i]]];
    }
  }

  /** The first loop: both sides in one pass. */
  method NearestBothSides(o: Order, hints: seq<int>, current: int) returns (f: int, b: int)
    ensures FirstNearest(o, Forward, hints, current, f)
    ensures FirstNearest(o, Backward, hints, current, b)
  {
    f, b := -1, -1;
    var forwardHint, backwardHint := 0, 0;
    for i := 0 to |hints|
      invariant -1 <= f < i && -1 <= b < i
      invariant FirstNearest(o, Forward, hints[..i], current, f)
      invariant FirstNearest(o, Backward, hints[..i], current, b)
      invariant forwardHint == (if f < 0 then 0 else hints[f])
      invariant backwardHint == if b < 0 then 0 else hints[b]
    {
      var hint := hints[i];
      NearestStep(o, Forward, hints[..i], current, f, hint);
      NearestStep(o, Backward, hints[..i], current, b, hint);
      assert hints[..i + 1] == hints[..i] + [hint];
      hide Dist;
      hide FirstNearest;
      if Dist(o, hint, current) < 0 {
        if f < 0 || Dist(o, hint, forwardHint) > 0 {
          f, forwardHint := i, hint;
        }
      } else if Dist(o, hint, current) > 0 {
        if b < 0 || Dist(o, hint, backwardHint) < 0 {
          b, backwardHint := i, hint;
        }
      }
    }
    assert hints[..|hints|] == hints;
  }

  /** The second loop: forward of the nearest forward hint. */
  method SecondForward(o: Order, hints: seq<int>, forwardHint: int) returns (g: int)
    ensures FirstNearest(o, Forward, hints, forwardHint, g)
  {
    g := -1;
    var secondHint := 0;
    for i := 0 to |hints|
      invariant -1 <= g < i
      invariant FirstNearest(o, Forward, hints[..i], forwardHint, g)
      invariant secondHint == if g < 0 then 0 else hints[g]
    {
      var hint := hints[i];
      NearestStep(o, Forward, hints[..i], forwardHint, g, hint);
      assert hints[..i + 1] == hints[..i] + [hint];
      hide Dist;
      hide FirstNearest;
      if Dist(o, hint, forwardHint) < 0 {
        if g < 0 || Dist(o, hint, secondHint) > 0 {
          g, secondHint := i, hint;
        }
      }
    }
    assert hints[..|hints|] == hints;
  }

  /** The skip-mode part of `copyAV1PicParam`. */
  method SelectSkipMode(o: Order, present: bool, hints: seq<int>, current: int) returns (frames: Frames)
    requires |hints| == 7
    ensures !present ==> frames == Frames(0, 0)
    ensures present ==> Chosen(o, hints, current, frames)
    ensures frames == Frames(0, 0) || 1 <= frames.first < frames.second <= 7
  {
    frames := Frames(0, 0);
    if present {
      var f, b := NearestBothSides(o, hints, current);
      if f >= 0 && b >= 0 {
        frames := Frames(Min(f, b) + 1, Max(f, b) + 1);
      } else if f >= 0 {
        var g := SecondForward(o, hints, hints[f]);
        DistToSelf(o, hints[f]);
        if g >= 0 {
          frames := Frames(Min(f, g) + 1, Max(f, g) + 1);
        }
        assert ChosenFrom(o, hints, f, b, frames);
      }
      ChosenIncreases(o, hints, current, f, b, frames);
    }
  }

  /** A hint is at no distance from itself, so it is on neither side of itself. */
  lemma DistToSelf(o: Order, a: int)
    ensures Dist(o, a, a) == 0
  {
    if o.enabled {
      DistIsRepresentative(o, a, a, 0);
    }
  }

  lemma ChosenIncreases(o: Order, hints: seq<int>, current: int, f: int, b: int, frames: Frames)
    requires FirstNearest(o, Forward, hints, current, f) && FirstNearest(o, Backward, hints, current, b)
    requires ChosenFrom(o, hints, f, b, frames)
    ensures frames == Frames(0, 0) || 1 <= frames.first < frames.second <= |hints|
  {
    hide Dist;
    if f >= 0 && b < 0 {
      DistToSelf(o, hints[f]);
    }
  }

  lemma FromUnique(o: Order, hints: seq<int>, f: int, b: int, x: Frames, y: Frames)
    requires -1 <= f < |hints| && b >= -1 && ChosenFrom(o, hints, f, b, x) && ChosenFrom(o, hints, f, b, y)
    ensures x == y
  {
    hide Dist;
    if f >= 0 && b < 0 {
      var g :| FirstNearest(o, Forward, hints, hints[f], g)
        && if g < 0 then x == Frames(0, 0) else Names(x, f, g);
      var g' :| FirstNearest(o, Forward, hints, hints[f], g')
        && if g' < 0 then y == Frames(0, 0) else Names(y, f, g');
      FirstNearestUnique(o, Forward, hints, hints[f], g, g');
    }
    hide FirstNearest;
  }

  /** The choice is determined by the hints. */
  lemma ChosenUnique(o: Order, hints: seq<int>, current: int, x: Frames, y: Frames)
    requires Chosen(o, hints, current, x) && Chosen(o, hints, current, y)
    ensures x == y
  {
    hide Dist;
    var f, b :| FirstNearest(o, Forward, hints, current, f) && FirstNearest(o, Backward, hints, current, b)
      && ChosenFrom(o, hints, f, b, x);
    var f', b' :| FirstNearest(o, Forward, hints, current, f') && FirstNearest(o, Backward, hints, current, b')
      && ChosenFrom(o, hints, f', b', y);
    FirstNearestUnique(o, Forward, hints, current, f, f');
    FirstNearestUnique(o, Backward, hints, current, b, b');
    FromUnique(o, hints, f, b, x, y);
  }

  /**
   * With no backward reference, a hint counts as second forward exactly when it lies strictly farther
   * back than the nearest, or when it equals the current hint and the nearest is the full half-range away.
   */
  lemma SecondForwardExact(o: Order, hint: int, nearest: int, current: int)
    requires Dist(o, nearest, current) < 0 && Dist(o, hint, current) <= 0
    ensures Dist(o, hint, nearest) < 0 <==>
      || Dist(o, hint, current) < Dist(o, nearest, current)
      || (Dist(o, hint, current) == 0 && Dist(o, nearest, current) == -Half(o))
  {
    var m := Half(o);
    var x, y := Dist(o, hint, current), Dist(o, nearest, current);
    DistIsRepresentative(o, hint, current, x);
    DistIsRepresentative(o, nearest, current, y);
    CongruentDifference(x, y, hint, nearest, current, 2 * m);
    if x - y < m {
      DistIsRepresentative(o, hint, nearest, x - y);
    } else {
      ShiftCongruent(x - y - 2 * m, 1, 2 * m);
      DistIsRepresentative(o, hint, nearest, x - y - 2 * m);
    }
  }

  /** Three-bit hints, current hint 4, nearest 0: a reference with the current hint itself counts as older. */
  lemma CurrentCountsAsSecond()
    ensures var o := Order(true, 2);
            Dist(o, 0, 4) == -4 && Dist(o, 4, 4) == 0 && Dist(o, 4, 0) < 0
  {
    var o := Order(true, 2);
    assert Pow2(2) == 4 by {
      assert Pow2(1) == 2;
    }
    DistIsRepresentative(o, 0, 4, -4);
    DistIsRepresentative(o, 4, 4, 0);
    DistIsRepresentative(o, 4, 0, -4);
  }

  /** Skip mode is allowed only with order hints. */
  lemma NoOrderNoSkip(hints: seq<int>, current: int, bitsMinus1: nat, frames: Frames)
    requires Chosen(Order(false, bitsMinus1), hints, current, frames)
    ensures frames == Frames(0, 0)
  {
  }

  lemma SidesOfSeven()
    ensures var o := Order(true, 6);
            && Gap(o, 7, 8) == 1 && Gap(o, 4, 8) == 4 && Gap(o, 9, 8) == 1
            && OnSide(o, Forward, 7, 8) && OnSide(o, Forward, 4, 8) && !OnSide(o, Forward, 9, 8)
            && OnSide(o, Backward, 9, 8) && !OnSide(o, Backward, 7, 8) && !OnSide(o, Backward, 4, 8)
  {
    var o := Order(true, 6);
    HalfOfSeven();
    DistIsRepresentative(o, 7, 8, -1);
    DistIsRepresentative(o, 4, 8, -4);
    DistIsRepresentative(o, 9, 8, 1);
    hide Dist;
    hide Half;
  }

  lemma NearestOfSeven(hints: seq<int>)
    requires hints == [7, 4, 4, 4, 9, 9, 9]
    ensures FirstNearest(Order(true, 6), Forward, hints, 8, 0) && FirstNearest(Order(true, 6), Backward, hints, 8, 4)
  {
    hide Gap;
    hide OnSide;
    SidesOfSeven();
    assert forall k :: 0 <= k < |hints| ==> hints[k] in {4, 7, 9};
    assert forall k :: 0 <= k < 4 ==> hints[k] != 9;
  }

  /** Seven-bit hints [7, 4, 4, 4, 9, 9, 9] around 8: references 0 and 4 are nearest, so the frames are 1 and 5. */
  lemma NearestOnBothSides(frames: Frames)
    requires Chosen(Order(true, 6), [7, 4, 4, 4, 9, 9, 9], 8, frames)
    ensures frames == Frames(1, 5)
  {
    var o, hints := Order(true, 6), [7, 4, 4, 4, 9, 9, 9];
    NearestOfSeven(hints);
    hide Dist;
    var f, b :| FirstNearest(o, Forward, hints, 8, f) && FirstNearest(o, Backward, hints, 8, b)
      && ChosenFrom(o, hints, f, b, frames);
    FirstNearestUnique(o, Forward, hints, 8, f, 0);
    FirstNearestUnique(o, Backward, hints, 8, b, 4);
    hide FirstNearest;
  }

  lemma HalfOfSeven()
    ensures Half(Order(true, 6)) == 64
  {
    assert Pow2(3) == 8 by {
      assert Pow2(1) == 2 && Pow2(2) == 4;
    }
    assert Pow2(5) == 32 by {
      assert Pow2(4) == 16;
    }
  }
}

/** Binary view of address parts. An address is a sequence of fixed-width unsigned parts
    (four 8-bit octets or eight 16-bit groups); `AllBits` spells it out most significant bit
    first, the reference meaning of "the top p bits". */
module Bits {

  function Pow2(k: nat): (r: nat)
    ensures r >= 1
  {
    if k == 0 then 1 else 2 * Pow2(k - 1)
  }

  /** `x >> s`: repeated halving. */
  function Shr(x: nat, s: nat): nat
  {
    if s == 0 then x else Shr(x / 2, s - 1)
  }

  /** The low `k` bits of `x`, most significant first. */
  function PartBits(x: nat, k: nat): (r: seq<bool>)
    ensures |r| == k
  {
    if k == 0 then [] else PartBits(x / 2, k - 1) + [x % 2 == 1]
  }

  /** All parts' bits, first part first. */
  function AllBits(parts: seq<nat>, k: nat): (r: seq<bool>)
    ensures |r| == |parts| * k
  {
    if parts == [] then [] else PartBits(parts[0], k) + AllBits(parts[1..], k)
  }

  predicate FitIn(parts: seq<nat>, k: nat)
  {
    forall i :: 0 <= i < |parts| ==> parts[i] < Pow2(k)
  }

  lemma {:induction false} ShrBound(x: nat, k: nat, s: nat)
    requires x < Pow2(k) && s <= k
    ensures Shr(x, s) < Pow2(k - s)
  {
    if s > 0 {
      ShrBound(x / 2, k - 1, s - 1);
    }
  }

  /** Two values that fit in `k` bits and agree on those bits are equal. */
  lemma {:induction false} PartBitsInjective(x: nat, y: nat, k: nat)
    requires x < Pow2(k) && y < Pow2(k)
    requires PartBits(x, k) == PartBits(y, k)
    ensures x == y
  {
    if k > 0 {
      var px, py := PartBits(x, k), PartBits(y, k);
      assert px[..k - 1] == PartBits(x / 2, k - 1);
      assert py[..k - 1] == PartBits(y / 2, k - 1);
      assert px[k - 1] == (x % 2 == 1) && py[k - 1] == (y % 2 == 1);
      PartBitsInjective(x / 2, y / 2, k - 1);
    }
  }

  /** The top `k - s` of a value's `k` bits are the bits of the value shifted right by `s`. */
  lemma {:induction false} PartBitsPrefix(x: nat, k: nat, s: nat)
    requires s <= k
    ensures PartBits(x, k)[..k - s] == PartBits(Shr(x, s), k - s)
  {
    if s > 0 {
      PartBitsPrefix(x / 2, k - 1, s - 1);
      assert PartBits(x, k)[..k - 1] == PartBits(x / 2, k - 1);
    }
  }

  /** ipaddr.js `matchCIDR`: compare part by part, shifting away the bits past the prefix. */
  function MatchParts(x: seq<nat>, y: seq<nat>, size: nat, bits: int): bool
    requires |x| == |y|
  {
    if bits <= 0 || x == [] then true
    else
      var shift := if size - bits < 0 then 0 else size - bits;
      Shr(x[0], shift) == Shr(y[0], shift) && MatchParts(x[1..], y[1..], size, bits - size)
  }

  /** The part-by-part comparison is exactly "the first `bits` bits are equal". */
  lemma {:induction false} MatchPartsIsPrefix(x: seq<nat>, y: seq<nat>, size: nat, bits: nat)
    requires |x| == |y| && size >= 1
    requires FitIn(x, size) && FitIn(y, size)
    requires bits <= |x| * size
    ensures MatchParts(x, y, size, bits) <==> AllBits(x, size)[..bits] == AllBits(y, size)[..bits]
  {
    if bits == 0 {
    } else if bits < size {
      assert x != [];
      PrefixInFirstPart(x, y, size, bits);
    } else {
      assert x != [];
      assert (|x| - 1) * size == |x| * size - size;
      assert FitIn(x[1..], size) && FitIn(y[1..], size);
      MatchPartsIsPrefix(x[1..], y[1..], size, bits - size);
      PrefixPastFirstPart(x, y, size, bits);
    }
  }

  /** A prefix that ends inside the first part. */
  lemma PrefixInFirstPart(x: seq<nat>, y: seq<nat>, size: nat, bits: nat)
    requires |x| == |y| && x != [] && FitIn(x, size) && FitIn(y, size)
    requires 0 < bits < size
    ensures MatchParts(x, y, size, bits) <==> AllBits(x, size)[..bits] == AllBits(y, size)[..bits]
  {
    var rx, ry := AllBits(x[1..], size), AllBits(y[1..], size);
    assert AllBits(x, size) == PartBits(x[0], size) + rx;
    assert AllBits(y, size) == PartBits(y[0], size) + ry;
    assert MatchParts(x, y, size, bits) == (Shr(x[0], size - bits) == Shr(y[0], size - bits));
    FirstPartPrefix(x[0], y[0], rx, ry, size, bits);
  }

  /** A prefix that covers the first part: the first parts are equal and the rest agree. */
  lemma PrefixPastFirstPart(x: seq<nat>, y: seq<nat>, size: nat, bits: nat)
    requires |x| == |y| && x != [] && FitIn(x, size) && FitIn(y, size)
    requires size <= bits && bits - size <= |AllBits(x[1..], size)|
    requires MatchParts(x[1..], y[1..], size, bits - size)
        <==> AllBits(x[1..], size)[..bits - size] == AllBits(y[1..], size)[..bits - size]
    ensures MatchParts(x, y, size, bits) <==> AllBits(x, size)[..bits] == AllBits(y, size)[..bits]
  {
    var px, py := PartBits(x[0], size), PartBits(y[0], size);
    var rx, ry := AllBits(x[1..], size), AllBits(y[1..], size);
    assert AllBits(x, size) == px + rx && AllBits(y, size) == py + ry;
    assert MatchParts(x, y, size, bits) == (x[0] == y[0] && MatchParts(x[1..], y[1..], size, bits - size));
    PastFirstPart(px, py, rx, ry, bits - size);
    if px == py {
      PartBitsInjective(x[0], y[0], size);
    }
  }

  /** Within the first part, comparing the first `bits` bits is comparing the shifted parts. */
  lemma FirstPartPrefix(x0: nat, y0: nat, rx: seq<bool>, ry: seq<bool>, size: nat, bits: nat)
    requires 0 < bits < size && x0 < Pow2(size) && y0 < Pow2(size)
    ensures Shr(x0, size - bits) == Shr(y0, size - bits)
        <==> (PartBits(x0, size) + rx)[..bits] == (PartBits(y0, size) + ry)[..bits]
  {
    var px, py := PartBits(x0, size), PartBits(y0, size);
    var shift := size - bits;
    PartBitsPrefix(x0, size, shift);
    PartBitsPrefix(y0, size, shift);
    assert (px + rx)[..bits] == px[..bits];
    assert (py + ry)[..bits] == py[..bits];
    ShrBound(x0, size, shift);
    ShrBound(y0, size, shift);
    if px[..bits] == py[..bits] {
      PartBitsInjective(Shr(x0, shift), Shr(y0, shift), bits);
    }
  }

  /** Past the first part, two bit strings agree exactly when their first parts do and the
      rest agree. */
  lemma PastFirstPart(px: seq<bool>, py: seq<bool>, rx: seq<bool>, ry: seq<bool>, k: nat)
    requires |px| == |py| && k <= |rx| && k <= |ry|
    ensures (px + rx)[..|px| + k] == (py + ry)[..|py| + k] <==> px == py && rx[..k] == ry[..k]
  {
    assert (px + rx)[..|px| + k] == px + rx[..k];
    assert (py + ry)[..|py| + k] == py + ry[..k];
    if px + rx[..k] == py + ry[..k] {
      assert px == (px + rx[..k])[..|px|];
      assert py == (py + ry[..k])[..|py|];
      assert rx[..k] == (px + rx[..k])[|px|..];
      assert ry[..k] == (py + ry[..k])[|py|..];
    }
  }

  lemma {:induction false} MatchPartsReflexive(x: seq<nat>, size: nat, bits: int)
    ensures MatchParts(x, x, size, bits)
  {
    if bits > 0 && x != [] {
      MatchPartsReflexive(x[1..], size, bits - size);
    }
  }
}

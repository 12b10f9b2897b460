/** The run-length query of ChessboardLineBinaryGrid<N> (grid.hpp).

    A ChessboardLineBinaryGrid<N> is a bitset of N <= 64 bits; here it is the
    sequence `bits` with N == |bits|. The query copies the bitset into a 64-bit
    word (bits N..63 are zero), rotates that word right by `position` and counts
    the zero bits on each side with tzcnt and lzcnt. The word is modelled as its
    64 bits, bit i at index i; the unsigned 64-bit results are naturals below
    2^64, and the value -1 written through the out-parameters is Uint64Max. */
module LineBits {

  const WordBits: nat := 64
  const Uint64Max: nat := 0xFFFF_FFFF_FFFF_FFFF

  /** Unsigned 64-bit wrap-around of an integer result. */
  function Wrap64(x: int): nat
  {
    x % 0x1_0000_0000_0000_0000
  }

  /** The result of the query: the count it returns and the two positions it
      writes through leftOnePosition and rightOnePosition. */
  datatype ZeroRun = ZeroRun(count: nat, leftOne: nat, rightOne: nat)

  /** The constructor: a bitset of n bits with every bit set. */
  function NewGrid(n: nat): (bits: seq<bool>)
    requires 1 <= n <= WordBits
    ensures |bits| == n
    ensures forall i :: 0 <= i < n ==> bits[i]
  {
    seq(n, _ => true)
  }

  /** std::bitset::flip(i), as the tests use it to build their vectors. */
  function Flip(bits: seq<bool>, i: nat): seq<bool>
    requires i < |bits|
  {
    bits[i := !bits[i]]
  }

  /** to_ullong: the bitset as a 64-bit word whose bits N..63 are zero. */
  function ToWord(bits: seq<bool>): (w: seq<bool>)
    requires |bits| <= WordBits
    ensures |w| == WordBits
  {
    bits + seq(WordBits - |bits|, _ => false)
  }

  /** rorq: bit j of the result is bit (p + j) mod 64 of the word. */
  function RotateRight(w: seq<bool>, p: nat): (r: seq<bool>)
    requires p <= |w|
    ensures |r| == |w|
  {
    w[p..] + w[..p]
  }

  /** The number of zero bits at indices k, k+1, ... before the first one bit. */
  function ZerosUpFrom(w: seq<bool>, k: nat): (n: nat)
    requires k <= |w|
    ensures k + n <= |w|
    ensures forall i :: k <= i < k + n ==> !w[i]
    ensures k + n < |w| ==> w[k + n]
    decreases |w| - k
  {
    if k == |w| || w[k] then 0 else 1 + ZerosUpFrom(w, k + 1)
  }

  /** The number of zero bits at indices k-1, k-2, ... before the first one bit. */
  function ZerosDownFrom(w: seq<bool>, k: nat): (n: nat)
    requires k <= |w|
    ensures n <= k
    ensures forall i :: k - n <= i < k ==> !w[i]
    ensures n < k ==> w[k - n - 1]
    decreases k
  {
    if k == 0 || w[k - 1] then 0 else 1 + ZerosDownFrom(w, k - 1)
  }

  /** tzcnt: zero bits counted from bit 0 upward; 64 for the zero word. */
  function TrailingZeros(w: seq<bool>): (t: nat)
    requires |w| == WordBits
    ensures t <= WordBits && forall i :: 0 <= i < t ==> !w[i]
    ensures t < WordBits ==> w[t]
  {
    ZerosUpFrom(w, 0)
  }

  /** lzcnt: zero bits counted from bit 63 downward; 64 for the zero word. */
  function LeadingZeros(w: seq<bool>): (l: nat)
    requires |w| == WordBits
    ensures l <= WordBits && forall i :: WordBits - l <= i < WordBits ==> !w[i]
    ensures l < WordBits ==> w[WordBits - l - 1]
  {
    ZerosDownFrom(w, WordBits)
  }

  /** An index in [-n, 2n) taken around a ring of n positions. */
  function Ring(i: int, n: nat): int
  {
    if i >= n then i - n else if i < 0 then i + n else i
  }

  /** The ring position j steps up from p. */
  function RingUp(p: nat, j: nat, n: nat): int
  {
    Ring(p + j, n)
  }

  /** The ring position j + 1 steps down from p. */
  function RingDown(p: nat, j: nat, n: nat): int
  {
    Ring(p - 1 - j, n)
  }

  /** How many steps up the ring lead from p to q. */
  function StepsUp(p: nat, q: nat, n: nat): nat
    requires p < n
  {
    if q >= p then q - p else q + n - p
  }

  /** The bitset has at least one set bit. */
  predicate SomeSet(bits: seq<bool>)
  {
    exists i :: 0 <= i < |bits| && bits[i]
  }

  /** The zero run on the ring of `bits` that holds the bits up from p and
      down from p - 1, as described by its two bounding one bits. */
  predicate IsRingRun(bits: seq<bool>, p: nat, r: ZeroRun)
    requires p < |bits|
  {
    var n := |bits|;
    r.leftOne < n && r.rightOne < n && bits[r.leftOne] && bits[r.rightOne]
    && var up := StepsUp(p, r.leftOne, n);
    up <= r.count < up + n
    && (forall j :: 0 <= j < up ==> !bits[RingUp(p, j, n)])
    && (forall j :: 0 <= j < r.count - up ==> !bits[RingDown(p, j, n)])
    && r.rightOne == RingDown(p, r.count - up, n)
  }

  lemma Wrap64Small(x: int)
    requires 0 <= x < 0x1_0000_0000_0000_0000
    ensures Wrap64(x) == x
  {
  }

  /** grid.hpp:31: when the lower run crosses bit 0 it has also counted the
      64 - N unused high bits, which are taken off (unsigned subtraction). */
  function LowerCorrected(p: nat, d: nat, n: nat): (r: nat)
    ensures d <= p ==> r == d
    ensures p < d && WordBits - n <= d <= Uint64Max && n <= WordBits ==> r == d - (WordBits - n)
  {
    if p - d < 0 then Wrap64(d - (WordBits - n)) else d
  }

  /** The same correction for the upper run crossing bit N - 1, which grid.hpp
      does not make. */
  function UpperCorrected(p: nat, t: nat, n: nat): nat
  {
    if p + t >= n then Wrap64(t - (WordBits - n)) else t
  }

  /** getContiguousZeroCount as written (grid.hpp:18-40): only the lower side is
      corrected for the 64 - N unused high bits. */
  function GetContiguousZeroCount(bits: seq<bool>, position: nat): (r: ZeroRun)
    requires 1 <= |bits| <= WordBits && position < |bits|
    ensures r.count <= Uint64Max
    ensures r.leftOne < |bits| || r.leftOne == Uint64Max
    ensures r.rightOne < |bits| || r.rightOne == Uint64Max
  {
    var n := |bits|;
    var rotated := RotateRight(ToWord(bits), position);
    var leftZeroCount := TrailingZeros(rotated);
    var rightZeroCount := LowerCorrected(position, LeadingZeros(rotated), n);
    if leftZeroCount == 64 && rightZeroCount == 64 then
      ZeroRun(n, Uint64Max, Uint64Max)
    else
      AssembleRun(position, leftZeroCount, rightZeroCount, n)
  }

  /** grid.hpp:37-39: the count and the two bounding positions from the side
      counts, in unsigned 64-bit arithmetic. */
  function AssembleRun(position: nat, left: nat, right: nat, n: nat): (r: ZeroRun)
    requires n > 0
    ensures r.count <= Uint64Max && r.leftOne < n && r.rightOne < n
    ensures left + right <= Uint64Max ==> r.count == left + right
  {
    ZeroRun(Wrap64(left + right), (position + left) % n, Wrap64(position - right - 1 + n) % n)
  }

  /** getContiguousZeroCount with the evident intent completed: the upper side is
      corrected like the lower one, and the all-zero test compares against N. */
  function ContiguousZeroRun(bits: seq<bool>, position: nat): (r: ZeroRun)
    requires 1 <= |bits| <= WordBits && position < |bits|
    ensures !SomeSet(bits) ==> r == ZeroRun(|bits|, Uint64Max, Uint64Max)
    ensures SomeSet(bits) ==> IsRingRun(bits, position, r)
  {
    var n := |bits|;
    var rotated := RotateRight(ToWord(bits), position);
    var leftZeroCount := UpperCorrected(position, TrailingZeros(rotated), n);
    var rightZeroCount := LowerCorrected(position, LeadingZeros(rotated), n);
    if !SomeSet(bits) then
      SideCountsZero(bits, position);
      ZeroRun(n, Uint64Max, Uint64Max)
    else
      SideCountsSet(bits, position);
      SidesMakeRun(bits, position, leftZeroCount, rightZeroCount);
      AssembleRun(position, leftZeroCount, rightZeroCount, n)
  }

  /** Two side counts that end at set bits give the ring run the query reports. */
  lemma SidesMakeRun(bits: seq<bool>, p: nat, left: nat, right: nat)
    requires 1 <= |bits| <= WordBits && p < |bits| && left < |bits| && right < |bits|
    requires forall j :: 0 <= j < left ==> !bits[RingUp(p, j, |bits|)]
    requires bits[RingUp(p, left, |bits|)]
    requires forall j :: 0 <= j < right ==> !bits[RingDown(p, j, |bits|)]
    requires bits[RingDown(p, right, |bits|)]
    ensures IsRingRun(bits, p, AssembleRun(p, left, right, |bits|))
  {
    var n := |bits|;
    ModBelowTwice(p + left, n);
    ModBelowTwice(p - right - 1 + n, n);
    Wrap64Small(left + right);
    Wrap64Small(p - right - 1 + n);
    var r := ZeroRun(left + right, Ring(p + left, n), Ring(p - 1 - right, n));
    assert StepsUp(p, r.leftOne, n) == left;
  }

  lemma ModBelowTwice(x: int, n: nat)
    requires n > 0 && 0 <= x < 2 * n
    ensures x % n == Ring(x, n)
  {
    if x >= n {
      assert x == n + (x - n);
    }
  }

  /** With no bit set both corrected counts are N. */
  lemma SideCountsZero(bits: seq<bool>, p: nat)
    requires 1 <= |bits| <= WordBits && p < |bits| && !SomeSet(bits)
    ensures var rotated := RotateRight(ToWord(bits), p);
      UpperCorrected(p, TrailingZeros(rotated), |bits|) == |bits|
      && LowerCorrected(p, LeadingZeros(rotated), |bits|) == |bits|
  {
    ZeroWordCounts(bits, p);
    Wrap64Small(WordBits - (WordBits - |bits|));
  }

  /** With some bit set the corrected counts are the two sides of the ring run. */
  lemma SideCountsSet(bits: seq<bool>, p: nat)
    requires 1 <= |bits| <= WordBits && p < |bits| && SomeSet(bits)
    ensures var n := |bits|;
      var rotated := RotateRight(ToWord(bits), p);
      var left := UpperCorrected(p, TrailingZeros(rotated), n);
      var right := LowerCorrected(p, LeadingZeros(rotated), n);
      left < n && right < n
      && (forall j :: 0 <= j < left ==> !bits[RingUp(p, j, n)])
      && bits[RingUp(p, left, n)]
      && (forall j :: 0 <= j < right ==> !bits[RingDown(p, j, n)])
      && bits[RingDown(p, right, n)]
  {
    UpperCorrectedSide(bits, p);
    LowerCorrectedSide(bits, p);
  }

  lemma UpperCorrectedSide(bits: seq<bool>, p: nat)
    requires 1 <= |bits| <= WordBits && p < |bits| && SomeSet(bits)
    ensures var n := |bits|;
      var left := UpperCorrected(p, TrailingZeros(RotateRight(ToWord(bits), p)), n);
      left < n
      && (forall j :: 0 <= j < left ==> !bits[RingUp(p, j, n)])
      && bits[RingUp(p, left, n)]
  {
    var n := |bits|;
    var t := TrailingZeros(RotateRight(ToWord(bits), p));
    UpperSide(bits, p);
    if p + t >= n { Wrap64Small(t - (WordBits - n)); }
  }

  lemma LowerCorrectedSide(bits: seq<bool>, p: nat)
    requires 1 <= |bits| <= WordBits && p < |bits| && SomeSet(bits)
    ensures var n := |bits|;
      var right := LowerCorrected(p, LeadingZeros(RotateRight(ToWord(bits), p)), n);
      right < n
      && (forall j :: 0 <= j < right ==> !bits[RingDown(p, j, n)])
      && bits[RingDown(p, right, n)]
  {
    var n := |bits|;
    var d := LeadingZeros(RotateRight(ToWord(bits), p));
    LowerSide(bits, p);
    if p - d < 0 { Wrap64Small(d - (WordBits - n)); }
  }

  /** With no bit set, the rotated word is zero and both counts are 64. */
  lemma ZeroWordCounts(bits: seq<bool>, p: nat)
    requires 1 <= |bits| <= WordBits && p < |bits| && !SomeSet(bits)
    ensures TrailingZeros(RotateRight(ToWord(bits), p)) == WordBits
    ensures LeadingZeros(RotateRight(ToWord(bits), p)) == WordBits
  {
    var w := ToWord(bits);
    var rotated := RotateRight(w, p);
    assert forall j :: 0 <= j < WordBits ==> !w[j];
    assert forall j :: 0 <= j < WordBits ==> !rotated[j];
  }

  /** Bit j of the rotated word, read back in the bitset. */
  lemma RotatedBit(bits: seq<bool>, p: nat, j: nat)
    requires 1 <= |bits| <= WordBits && p < |bits| && j < WordBits
    ensures var k := if p + j < WordBits then p + j else p + j - WordBits;
      RotateRight(ToWord(bits), p)[j] == (k < |bits| && bits[k])
  {
  }

  /** The upper side: tzcnt of the rotated word, less the unused high bits when
      the run crosses bit N - 1, is the zero run up the ring from p. */
  lemma UpperSide(bits: seq<bool>, p: nat)
    requires 1 <= |bits| <= WordBits && p < |bits| && SomeSet(bits)
    ensures var n := |bits|;
      var t := TrailingZeros(RotateRight(ToWord(bits), p));
      var left := if p + t >= n then t - (WordBits - n) else t;
      t < WordBits && 0 <= left < n
      && (forall j :: 0 <= j < left ==> !bits[RingUp(p, j, n)])
      && bits[RingUp(p, left, n)]
  {
    var n := |bits|;
    var rotated := RotateRight(ToWord(bits), p);
    var t := TrailingZeros(rotated);
    var i :| 0 <= i < n && bits[i];
    RotatedBit(bits, p, if i >= p then i - p else i + WordBits - p);
    assert t < WordBits;
    RotatedBit(bits, p, t);
    if p + t >= n {
      assert p + t >= WordBits;
      var left := t - (WordBits - n);
      forall j | 0 <= j < left
        ensures !bits[RingUp(p, j, n)]
      {
        if p + j < n {
          RotatedBit(bits, p, j);
        } else {
          RotatedBit(bits, p, j + WordBits - n);
        }
      }
    } else {
      forall j | 0 <= j < t
        ensures !bits[RingUp(p, j, n)]
      {
        RotatedBit(bits, p, j);
      }
    }
  }

  /** The lower side: lzcnt of the rotated word, less the unused high bits when
      the run crosses bit 0 (grid.hpp:31), is the zero run down the ring from p - 1. */
  lemma LowerSide(bits: seq<bool>, p: nat)
    requires 1 <= |bits| <= WordBits && p < |bits| && SomeSet(bits)
    ensures var n := |bits|;
      var d := LeadingZeros(RotateRight(ToWord(bits), p));
      var right := if p - d < 0 then d - (WordBits - n) else d;
      d < WordBits && 0 <= right < n
      && (forall j :: 0 <= j < right ==> !bits[RingDown(p, j, n)])
      && bits[RingDown(p, right, n)]
  {
    var n := |bits|;
    var rotated := RotateRight(ToWord(bits), p);
    var d := LeadingZeros(rotated);
    SetCountsBelow64(bits, p);
    if p - d < 0 {
      LowerWraps(bits, p);
    } else {
      LowerStays(bits, p);
    }
  }

  /** With some bit set, neither count reaches 64. */
  lemma SetCountsBelow64(bits: seq<bool>, p: nat)
    requires 1 <= |bits| <= WordBits && p < |bits| && SomeSet(bits)
    ensures TrailingZeros(RotateRight(ToWord(bits), p)) < WordBits
    ensures LeadingZeros(RotateRight(ToWord(bits), p)) < WordBits
  {
    var rotated := RotateRight(ToWord(bits), p);
    var i :| 0 <= i < |bits| && bits[i];
    var ji := if i >= p then i - p else i + WordBits - p;
    RotatedBit(bits, p, ji);
    var d := ZerosDownFrom(rotated, WordBits);
    if d == WordBits {
      assert !rotated[ji];
    }
    var t := ZerosUpFrom(rotated, 0);
    if t == WordBits {
      assert !rotated[ji];
    }
  }

  lemma LowerStays(bits: seq<bool>, p: nat)
    requires 1 <= |bits| <= WordBits && p < |bits|
    requires LeadingZeros(RotateRight(ToWord(bits), p)) <= p
    ensures var n := |bits|;
      var d := LeadingZeros(RotateRight(ToWord(bits), p));
      (forall j :: 0 <= j < d ==> !bits[RingDown(p, j, n)])
      && bits[RingDown(p, d, n)]
  {
    var n := |bits|;
    var rotated := RotateRight(ToWord(bits), p);
    var d := LeadingZeros(rotated);
    assert rotated[WordBits - 1 - d];
    RotatedBit(bits, p, WordBits - 1 - d);
    forall j | 0 <= j < d
      ensures !bits[RingDown(p, j, n)]
    {
      LowerStaysZero(bits, p, j);
    }
  }

  lemma LowerStaysZero(bits: seq<bool>, p: nat, j: nat)
    requires 1 <= |bits| <= WordBits && p < |bits|
    requires j < LeadingZeros(RotateRight(ToWord(bits), p)) <= p
    ensures !bits[RingDown(p, j, |bits|)]
  {
    var rotated := RotateRight(ToWord(bits), p);
    assert !rotated[WordBits - 1 - j];
    RotatedBit(bits, p, WordBits - 1 - j);
  }

  lemma LowerWraps(bits: seq<bool>, p: nat)
    requires 1 <= |bits| <= WordBits && p < |bits|
    requires p < LeadingZeros(RotateRight(ToWord(bits), p)) < WordBits
    ensures var n := |bits|;
      var d := LeadingZeros(RotateRight(ToWord(bits), p));
      var right := d - (WordBits - n);
      0 <= right < n
      && (forall j :: 0 <= j < right ==> !bits[RingDown(p, j, n)])
      && bits[RingDown(p, right, n)]
  {
    var n := |bits|;
    var rotated := RotateRight(ToWord(bits), p);
    var d := LeadingZeros(rotated);
    assert rotated[WordBits - 1 - d];
    RotatedBit(bits, p, WordBits - 1 - d);
    assert p + WordBits - 1 - d < n;
    var right := d - (WordBits - n);
    assert RingDown(p, right, n) == p + WordBits - 1 - d;
    forall j | 0 <= j < right
      ensures !bits[RingDown(p, j, n)]
    {
      if j < p {
        LowerWrapsLow(bits, p, j);
      } else {
        LowerWrapsHigh(bits, p, j);
      }
    }
  }

  lemma LowerWrapsLow(bits: seq<bool>, p: nat, j: nat)
    requires 1 <= |bits| <= WordBits && p < |bits|
    requires j < p < LeadingZeros(RotateRight(ToWord(bits), p))
    ensures !bits[RingDown(p, j, |bits|)]
  {
    var rotated := RotateRight(ToWord(bits), p);
    assert !rotated[WordBits - 1 - j];
    RotatedBit(bits, p, WordBits - 1 - j);
  }

  lemma LowerWrapsHigh(bits: seq<bool>, p: nat, j: nat)
    requires 1 <= |bits| <= WordBits && p <= j < |bits|
    requires j + WordBits - |bits| < LeadingZeros(RotateRight(ToWord(bits), p))
    ensures !bits[RingDown(p, j, |bits|)]
  {
    var n := |bits|;
    var rotated := RotateRight(ToWord(bits), p);
    assert !rotated[n - 1 - j];
    RotatedBit(bits, p, n - 1 - j);
  }

  /** IsRingRun pins the query result down: there is one such run. */
  lemma {:induction false} RingRunUnique(bits: seq<bool>, p: nat, r1: ZeroRun, r2: ZeroRun)
    requires p < |bits| && IsRingRun(bits, p, r1) && IsRingRun(bits, p, r2)
    ensures r1 == r2
  {
    var n := |bits|;
    var up1, up2 := StepsUp(p, r1.leftOne, n), StepsUp(p, r2.leftOne, n);
    assert RingUp(p, up1, n) == r1.leftOne && RingUp(p, up2, n) == r2.leftOne;
    assert up1 == up2;
    var d1, d2 := r1.count - up1, r2.count - up2;
    assert RingDown(p, d1, n) == r1.rightOne && RingDown(p, d2, n) == r2.rightOne;
    assert d1 == d2;
  }

  /** When a set bit lies at or above `position` inside the line, the upward
      run never reaches bit N - 1 and the query as written gives the ring run. */
  lemma AsWrittenAgreesWithinLine(bits: seq<bool>, position: nat, k: nat)
    requires 1 <= |bits| <= WordBits && position <= k < |bits| && bits[k]
    ensures GetContiguousZeroCount(bits, position) == ContiguousZeroRun(bits, position)
    ensures IsRingRun(bits, position, GetContiguousZeroCount(bits, position))
  {
    var n := |bits|;
    var rotated := RotateRight(ToWord(bits), position);
    RotatedBit(bits, position, k - position);
    assert TrailingZeros(rotated) <= k - position;
    assert SomeSet(bits);
    AgreeWhenUpperStays(bits, position);
  }

  /** With some bit set and the upper run inside the line, the two versions
      coincide. */
  lemma AgreeWhenUpperStays(bits: seq<bool>, position: nat)
    requires 1 <= |bits| <= WordBits && position < |bits| && SomeSet(bits)
    requires position + TrailingZeros(RotateRight(ToWord(bits), position)) < |bits|
    ensures GetContiguousZeroCount(bits, position) == ContiguousZeroRun(bits, position)
  {
    LowerBelow(bits, position);
    AsWrittenShape(bits, position);
  }

  lemma LowerBelow(bits: seq<bool>, position: nat)
    requires 1 <= |bits| <= WordBits && position < |bits| && SomeSet(bits)
    ensures LowerCorrected(position, LeadingZeros(RotateRight(ToWord(bits), position)), |bits|) < |bits|
  {
    SideCountsSet(bits, position);
  }

  /** Once the lower count is below 64 the query as written takes its general
      branch. */
  lemma AsWrittenShape(bits: seq<bool>, position: nat)
    requires 1 <= |bits| <= WordBits && position < |bits|
    requires LowerCorrected(position, LeadingZeros(RotateRight(ToWord(bits), position)), |bits|) < WordBits
    ensures var n := |bits|;
      var rotated := RotateRight(ToWord(bits), position);
      var t := TrailingZeros(rotated);
      var right := LowerCorrected(position, LeadingZeros(rotated), n);
      GetContiguousZeroCount(bits, position) == AssembleRun(position, t, right, n)
  {
  }

  /** grid.hpp has no counterpart of line 31 for the upper side: when no bit at
      or above `position` is set, the upward run runs through the 64 - N unused
      high bits and the count as written exceeds the ring run by 64 - N. */
  lemma AsWrittenOvercountsUpperWrap(bits: seq<bool>, position: nat)
    requires 1 <= |bits| < WordBits && position < |bits| && SomeSet(bits)
    requires forall j :: position <= j < |bits| ==> !bits[j]
    ensures GetContiguousZeroCount(bits, position).count
         == ContiguousZeroRun(bits, position).count + (WordBits - |bits|)
  {
    var n := |bits|;
    var rotated := RotateRight(ToWord(bits), position);
    var t := TrailingZeros(rotated);
    var right := LowerCorrected(position, LeadingZeros(rotated), n);
    UpperWraps(bits, position);
    LowerBelow(bits, position);
    AsWrittenShape(bits, position);
    CorrectedShape(bits, position);
    Wrap64Small(t - (WordBits - n));
    Wrap64Small(t + right);
    Wrap64Small(t - (WordBits - n) + right);
  }

  /** With no set bit at or above `position`, tzcnt runs past bit N - 1. */
  lemma UpperWraps(bits: seq<bool>, position: nat)
    requires 1 <= |bits| <= WordBits && position < |bits| && SomeSet(bits)
    requires forall j :: position <= j < |bits| ==> !bits[j]
    ensures var t := TrailingZeros(RotateRight(ToWord(bits), position));
      WordBits - |bits| <= t < WordBits && position + t >= |bits|
  {
    var t := TrailingZeros(RotateRight(ToWord(bits), position));
    SetCountsBelow64(bits, position);
    RotatedBit(bits, position, t);
  }

  /** With some bit set the corrected query takes its general branch. */
  lemma CorrectedShape(bits: seq<bool>, position: nat)
    requires 1 <= |bits| <= WordBits && position < |bits| && SomeSet(bits)
    ensures var n := |bits|;
      var rotated := RotateRight(ToWord(bits), position);
      var left := UpperCorrected(position, TrailingZeros(rotated), n);
      var right := LowerCorrected(position, LeadingZeros(rotated), n);
      ContiguousZeroRun(bits, position) == AssembleRun(position, left, right, n)
  {
  }

  /** With every bit clear the special case of grid.hpp:32-36 is taken only when
      N == 64; for a shorter line the query as written reports 64 + N. */
  lemma AsWrittenAllZero(bits: seq<bool>, position: nat)
    requires 1 <= |bits| <= WordBits && position < |bits| && !SomeSet(bits)
    ensures var r := GetContiguousZeroCount(bits, position);
      (r == ZeroRun(|bits|, Uint64Max, Uint64Max) <==> |bits| == WordBits)
      && (|bits| < WordBits ==> r.count == WordBits + |bits|)
  {
    var n := |bits|;
    ZeroWordCounts(bits, position);
    Wrap64Small(WordBits - (WordBits - n));
    Wrap64Small(WordBits + n);
    var rotated := RotateRight(ToWord(bits), position);
    assert LowerCorrected(position, LeadingZeros(rotated), n) == n;
    if n < WordBits {
      assert GetContiguousZeroCount(bits, position).count == Wrap64(WordBits + n);
    }
  }

  /** A zero run strictly inside the line: with the nearest set bits at q below
      and r above `position`, the query returns r - q - 1, r and q. */
  lemma InteriorRun(bits: seq<bool>, position: nat, q: nat, r: nat)
    requires 1 <= |bits| <= WordBits && q < position < r < |bits|
    requires bits[q] && bits[r] && forall k :: q < k < r ==> !bits[k]
    ensures GetContiguousZeroCount(bits, position) == ZeroRun(r - q - 1, r, q)
  {
    AsWrittenAgreesWithinLine(bits, position, r);
    InteriorRingRun(bits, position, q, r);
    RingRunUnique(bits, position, GetContiguousZeroCount(bits, position), ZeroRun(r - q - 1, r, q));
  }

  /** The zero run strictly between q and r is the ring run through any
      position inside it. */
  lemma InteriorRingRun(bits: seq<bool>, position: nat, q: nat, r: nat)
    requires 1 <= |bits| <= WordBits && q < position < r < |bits|
    requires bits[q] && bits[r] && forall k :: q < k < r ==> !bits[k]
    ensures IsRingRun(bits, position, ZeroRun(r - q - 1, r, q))
  {
    var n := |bits|;
    assert StepsUp(position, r, n) == r - position;
    assert forall j :: 0 <= j < r - position ==> RingUp(position, j, n) == position + j;
    assert forall j :: 0 <= j < position - 1 - q ==> RingDown(position, j, n) == position - 1 - j;
  }

  /** The bit vectors of gridTest.cpp:8-48: a 15-bit line, every bit set, then
      the listed bits flipped to zero. */
  function LowZeros(): seq<bool>
  {
    Flip(Flip(Flip(NewGrid(15), 0), 1), 2)
  }

  function SplitZeros(): seq<bool>
  {
    Flip(Flip(Flip(Flip(Flip(Flip(Flip(NewGrid(15), 0), 3), 4), 5), 6), 7), 14)
  }

  function WrappedZeros(): seq<bool>
  {
    Flip(Flip(Flip(Flip(Flip(NewGrid(15), 0), 1), 2), 13), 14)
  }

  /** gridTest.cpp:12-19: the run 0..2 seen from bit 1 is bounded by bit 3 above
      and, around the ring, bit 14 below. */
  lemma ExampleLowZeros()
    ensures GetContiguousZeroCount(LowZeros(), 1) == ZeroRun(3, 3, 14)
  {
    var bits := LowZeros();
    AsWrittenAgreesWithinLine(bits, 1, 3);
    LowRun();
    RingRunUnique(bits, 1, GetContiguousZeroCount(bits, 1), ZeroRun(3, 3, 14));
  }

  lemma LowRun()
    ensures IsRingRun(LowZeros(), 1, ZeroRun(3, 3, 14))
  {
    var bits := LowZeros();
    assert !bits[RingUp(1, 0, 15)] && !bits[RingUp(1, 1, 15)];
    assert !bits[RingDown(1, 0, 15)];
  }

  /** gridTest.cpp:21-32: from bit 0 the run is bit 0 and, around the ring, bit 14. */
  lemma ExampleSplitZerosAtStart()
    ensures GetContiguousZeroCount(SplitZeros(), 0) == ZeroRun(2, 1, 13)
  {
    var bits := SplitZeros();
    assert bits[1];
    AsWrittenAgreesWithinLine(bits, 0, 1);
    SplitStartRun();
    RingRunUnique(bits, 0, GetContiguousZeroCount(bits, 0), ZeroRun(2, 1, 13));
  }

  lemma SplitStartRun()
    ensures IsRingRun(SplitZeros(), 0, ZeroRun(2, 1, 13))
  {
    var bits := SplitZeros();
    assert !bits[RingUp(0, 0, 15)];
    assert !bits[RingDown(0, 0, 15)];
  }

  /** gridTest.cpp:34-36: the run 3..7 lies inside the line. */
  lemma ExampleSplitZerosInside()
    ensures GetContiguousZeroCount(SplitZeros(), 4) == ZeroRun(5, 8, 2)
  {
    InteriorRun(SplitZeros(), 4, 2, 8);
  }

  /** gridTest.cpp:38-47: the run 13, 14, 0, 1, 2 seen from bit 1. */
  lemma ExampleWrappedZeros()
    ensures GetContiguousZeroCount(WrappedZeros(), 1) == ZeroRun(5, 3, 12)
  {
    var bits := WrappedZeros();
    AsWrittenAgreesWithinLine(bits, 1, 3);
    WrappedRun(1);
    RingRunUnique(bits, 1, GetContiguousZeroCount(bits, 1), ZeroRun(5, 3, 12));
  }

  /** The run 13, 14, 0, 1, 2 is the same ring run from each of its bits. */
  lemma WrappedRun(p: nat)
    requires p == 1 || p == 14
    ensures IsRingRun(WrappedZeros(), p, ZeroRun(5, 3, 12))
  {
    var bits := WrappedZeros();
    if p == 1 {
      assert !bits[RingUp(1, 0, 15)] && !bits[RingUp(1, 1, 15)];
      assert !bits[RingDown(1, 0, 15)] && !bits[RingDown(1, 1, 15)] && !bits[RingDown(1, 2, 15)];
    } else {
      assert !bits[RingUp(14, 0, 15)] && !bits[RingUp(14, 1, 15)] && !bits[RingUp(14, 2, 15)]
        && !bits[RingUp(14, 3, 15)];
      assert !bits[RingDown(14, 0, 15)];
    }
  }

  /** The same vector queried from bit 14: the ring run is still 5 long, but
      the query as written counts the 49 unused high bits as well. */
  lemma WrappedZerosFromTop()
    ensures ContiguousZeroRun(WrappedZeros(), 14) == ZeroRun(5, 3, 12)
    ensures GetContiguousZeroCount(WrappedZeros(), 14).count == 54
  {
    var bits := WrappedZeros();
    WrappedRun(14);
    assert SomeSet(bits) by { assert bits[3]; }
    RingRunUnique(bits, 14, ContiguousZeroRun(bits, 14), ZeroRun(5, 3, 12));
    AsWrittenOvercountsUpperWrap(bits, 14);
  }
}

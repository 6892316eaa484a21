/** Natural numbers as sets of bits: the operations Python's integers offer, bit by bit. */
module Bits {
  import opened Counting
  import opened Grid

  function Pow2(n: nat): (p: nat)
    ensures p > 0
  {
    if n == 0 then 1 else 2 * Pow2(n - 1)
  }

  /** Bit l of v. */
  predicate Bit(v: nat, l: nat) {
    if l == 0 then v % 2 == 1 else Bit(v / 2, l - 1)
  }

  /** a | b */
  function Or(a: nat, b: nat): nat
    decreases a + b
  {
    if a == 0 then b
    else if b == 0 then a
    else 2 * Or(a / 2, b / 2) + if a % 2 == 1 || b % 2 == 1 then 1 else 0
  }

  /** a & b */
  function And(a: nat, b: nat): nat
    decreases a + b
  {
    if a == 0 || b == 0 then 0
    else 2 * And(a / 2, b / 2) + if a % 2 == 1 && b % 2 == 1 then 1 else 0
  }

  /** v >> n */
  function ShiftRight(v: nat, n: nat): nat { Quot(v, Pow2(n)) }

  function Quot(v: nat, p: nat): nat
    requires p > 0
  {
    v / p
  }

  lemma {:induction false} ZeroBit(l: nat)
    ensures !Bit(0, l)
  {
    if l > 0 {
      ZeroBit(l - 1);
    }
  }

  lemma {:induction false} OrBit(a: nat, b: nat, l: nat)
    ensures Bit(Or(a, b), l) <==> Bit(a, l) || Bit(b, l)
  {
    ZeroBit(l);
    if a != 0 && b != 0 && l > 0 {
      OrBit(a / 2, b / 2, l - 1);
    }
  }

  /** 1 << n has bit n and no other. */
  lemma {:induction false} Pow2Bit(n: nat, l: nat)
    ensures Bit(Pow2(n), l) <==> l == n
  {
    if n == 0 {
      if l > 0 {
        ZeroBit(l - 1);
      }
    } else if l > 0 {
      Pow2Bit(n - 1, l - 1);
    }
  }

  lemma HalfDiv(v: nat, p: nat)
    requires p > 0
    ensures v / (2 * p) == v / 2 / p
    ensures v % (2 * p) == 2 * (v / 2 % p) + v % 2
  {
    var q, r := v / 2 / p, v / 2 % p;
    assert v / 2 == q * p + r;
    assert v == q * (2 * p) + (2 * r + v % 2) by {
      assert v == 2 * (v / 2) + v % 2;
    }
    DivModUnique(v, 2 * p, q, 2 * r + v % 2);
  }

  lemma {:induction false} ShiftBit(v: nat, n: nat, l: nat)
    ensures Bit(ShiftRight(v, n), l) <==> Bit(v, n + l)
  {
    if n > 0 {
      HalfDiv(v, Pow2(n - 1));
      ShiftBit(v / 2, n - 1, l);
    }
  }

  lemma {:induction false} LowBit(v: nat, n: nat, l: nat)
    ensures Bit(v % Pow2(n), l) <==> l < n && Bit(v, l)
  {
    if n == 0 {
      ZeroBit(l);
    } else {
      HalfDiv(v, Pow2(n - 1));
      DivModUnique(v % Pow2(n), 2, v / 2 % Pow2(n - 1), v % 2);
      if l > 0 {
        LowBit(v / 2, n - 1, l - 1);
      }
    }
  }

  lemma AndStep(v: nat, p: nat)
    requires v > 0 && p > 0
    ensures And(v, 2 * p - 1) == 2 * And(v / 2, p - 1) + v % 2
  {
    assert (2 * p - 1) / 2 == p - 1 && (2 * p - 1) % 2 == 1;
  }

  lemma MaskStep(v: nat, p: nat)
    requires v > 0 && p > 0 && And(v / 2, p - 1) == v / 2 % p
    ensures And(v, 2 * p - 1) == v % (2 * p)
  {
    AndStep(v, p);
    HalfDiv(v, p);
  }

  /** Masking with (1 << n) - 1 keeps the low n bits. */
  lemma {:induction false} MaskIsMod(v: nat, n: nat)
    ensures And(v, Pow2(n) - 1) == v % Pow2(n)
    decreases n
  {
    if v == 0 {
      DivModUnique(0, Pow2(n), 0, 0);
    } else if n > 0 {
      MaskIsMod(v / 2, n - 1);
      MaskStep(v, Pow2(n - 1));
    }
  }

  // ----- Counting bits

  function PopCount(v: nat): nat { if v == 0 then 0 else PopCount(v / 2) + v % 2 }

  /** The set bits of v among the first n. */
  function BitSet(v: nat, n: nat): set<int> { set l | l in UpTo(n) && Bit(v, l) }

  ghost function Moved(s: set<int>): set<int> { Image(s, (l: int) => l + 1) }

  lemma {:induction false} PopCountIsBits(v: nat, n: nat)
    requires v < Pow2(n)
    ensures |BitSet(v, n)| == PopCount(v)
    decreases n
  {
    if n == 0 {
      assert BitSet(v, n) == {};
    } else {
      PopCountIsBits(v / 2, n - 1);
      var rest := BitSet(v / 2, n - 1);
      ImageSize(rest, (l: int) => l + 1);
      BitSetHalves(v, n);
      assert 0 !in Moved(rest);
    }
  }

  lemma BitSetHalves(v: nat, n: nat)
    requires n > 0
    ensures BitSet(v, n) == Moved(BitSet(v / 2, n - 1)) + if v % 2 == 1 then {0} else {}
  {
    var rest := BitSet(v / 2, n - 1);
    forall l | l in BitSet(v, n) ensures l in Moved(rest) + if v % 2 == 1 then {0} else {} {
      if l > 0 {
        assert l - 1 in rest;
        assert (l - 1) + 1 in Moved(rest);
      }
    }
    forall l | l in Moved(rest) ensures l in BitSet(v, n) {
      var k :| k in rest && k + 1 == l;
    }
  }

  lemma {:induction false} BitSetEmptyAbove(v: nat, n: nat, l: nat)
    requires v < Pow2(n) && l >= n
    ensures !Bit(v, l)
  {
    if n == 0 {
      ZeroBit(l);
    } else {
      BitSetEmptyAbove(v / 2, n - 1, l - 1);
    }
  }

  /** A number all of whose bits are below n is below 2^n. */
  lemma {:induction false} BoundFromBits(v: nat, n: nat)
    requires forall l: nat :: Bit(v, l) ==> l < n
    ensures v < Pow2(n)
    decreases n, v
  {
    if v > 0 {
      if n == 0 {
        forall l: nat ensures !Bit(v / 2, l) {
          assert !Bit(v, l + 1);
        }
        assert !Bit(v, 0);
        BoundFromBits(v / 2, 0);
      } else {
        forall l: nat | Bit(v / 2, l) ensures l < n - 1 {
          assert Bit(v, l + 1);
        }
        BoundFromBits(v / 2, n - 1);
      }
    }
  }

  // ----- Words of a given width

  /** (v >> (width * w)) & ((1 << width) - 1) */
  function Word(v: nat, width: nat, w: nat): nat { And(ShiftRight(v, width * w), Pow2(width) - 1) }

  function Words(v: nat, width: nat, count: nat): (r: seq<nat>)
    ensures |r| == count
  {
    seq(count, w requires 0 <= w < count => Word(v, width, w))
  }

  function Reassemble(width: nat, words: seq<nat>): nat {
    if words == [] then 0 else words[0] + Pow2(width) * Reassemble(width, words[1..])
  }

  lemma WordIsSlice(v: nat, width: nat, w: nat)
    ensures Word(v, width, w) == ShiftRight(v, width * w) % Pow2(width)
  {
    MaskIsMod(ShiftRight(v, width * w), width);
  }

  /** Bit l % width of word l / width is bit l. */
  lemma WordBit(v: nat, width: nat, l: nat)
    requires width > 0
    ensures Bit(Word(v, width, l / width), l % width) <==> Bit(v, l)
  {
    var w := l / width;
    WordIsSlice(v, width, w);
    LowBit(ShiftRight(v, width * w), width, l % width);
    ShiftBit(v, width * w, l % width);
    assert width * w + l % width == l;
  }

  lemma {:induction false} Pow2Sum(a: nat, b: nat)
    ensures Pow2(a + b) == Pow2(a) * Pow2(b)
  {
    if a > 0 {
      Pow2Sum(a - 1, b);
    }
  }

  lemma DivDiv(v: nat, a: nat, b: nat)
    requires a > 0 && b > 0
    ensures a * b > 0 && v / (a * b) == v / a / b && v % (a * b) == v % a + a * (v / a % b)
  {
    var q, r := v / a / b, v / a % b;
    assert v / a == q * b + r;
    assert v == (q * b + r) * a + v % a;
    assert (q * b + r) * a == q * (a * b) + a * r;
    assert a * r + v % a < a * b by { ScaleUp(r + 1, b, a); }
    ScaleUp(1, a, b);
    DivModUnique(v, a * b, q, a * r + v % a);
  }

  lemma Shifts(v: nat, a: nat, b: nat)
    ensures ShiftRight(v, a + b) == ShiftRight(ShiftRight(v, a), b)
    ensures v % Pow2(a + b) == v % Pow2(a) + Pow2(a) * (ShiftRight(v, a) % Pow2(b))
  {
    Pow2Sum(a, b);
    DivDiv(v, Pow2(a), Pow2(b));
  }

  lemma NextWord(v: nat, width: nat, w: nat)
    ensures Word(v, width, w + 1) == Word(ShiftRight(v, width), width, w)
  {
    assert width * (w + 1) == width + width * w;
    Shifts(v, width, width * w);
  }

  lemma TailWords(v: nat, width: nat, count: nat)
    requires count > 0
    ensures Words(v, width, count)[0] == v % Pow2(width)
    ensures Words(v, width, count)[1..] == Words(ShiftRight(v, width), width, count - 1)
  {
    WordIsSlice(v, width, 0);
    assert width * 0 == 0 && ShiftRight(v, 0) == v;
    forall w | 0 <= w < count - 1 ensures Word(v, width, w + 1) == Word(ShiftRight(v, width), width, w) {
      NextWord(v, width, w);
    }
  }

  /** Joining the words of v gives v back, less the bits beyond the last word. */
  lemma {:induction false} ReassembleWords(v: nat, width: nat, count: nat)
    ensures Reassemble(width, Words(v, width, count)) == v % Pow2(width * count)
    decreases count
  {
    if count == 0 {
      assert width * count == 0;
    } else {
      TailWords(v, width, count);
      ReassembleWords(ShiftRight(v, width), width, count - 1);
      assert width * count == width + width * (count - 1);
      Shifts(v, width, width * (count - 1));
    }
  }

  /** Nothing is lost exactly when v fits. */
  lemma ReassembleIff(v: nat, width: nat, count: nat)
    ensures Reassemble(width, Words(v, width, count)) == v <==> v < Pow2(width * count)
  {
    ReassembleWords(v, width, count);
    ModSmall(v, Pow2(width * count));
  }

  lemma ModSmall(v: nat, n: nat)
    requires n > 0
    ensures v % n == v <==> v < n
  {
    if v < n {
      DivModUnique(v, n, 0, v);
    }
  }

  function SumPopCounts(words: seq<nat>): nat {
    if words == [] then 0 else PopCount(words[0]) + SumPopCounts(words[1..])
  }

  lemma {:induction false} PopCountSplit(v: nat, n: nat)
    ensures PopCount(v) == PopCount(v % Pow2(n)) + PopCount(ShiftRight(v, n))
  {
    if n == 0 {
      assert v % 1 == 0;
    } else {
      HalfDiv(v, Pow2(n - 1));
      PopCountSplit(v / 2, n - 1);
      PopCountHalf(v / 2 % Pow2(n - 1), v % 2);
    }
  }

  lemma PopCountHalf(h: nat, b: nat)
    requires b <= 1
    ensures PopCount(2 * h + b) == PopCount(h) + b
  {
    assert (2 * h + b) / 2 == h && (2 * h + b) % 2 == b;
  }

  /** The words of a number that fits have its set bits between them. */
  lemma {:induction false} WordsPopCount(v: nat, width: nat, count: nat)
    requires v < Pow2(width * count)
    ensures SumPopCounts(Words(v, width, count)) == PopCount(v)
    decreases count
  {
    if count == 0 {
      assert width * count == 0;
    } else {
      assert width * count == width + width * (count - 1);
      Pow2Sum(width, width * (count - 1));
      QuotientBound(v, Pow2(width * (count - 1)), Pow2(width));
      TailWords(v, width, count);
      WordsPopCount(ShiftRight(v, width), width, count - 1);
      PopCountSplit(v, width);
    }
  }
}

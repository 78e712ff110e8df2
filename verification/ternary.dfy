/** Ten-trit machine words: the "crazy" operation, the trit rotation and the
    wrapped register arithmetic of the interpreter. A word is read as ten
    base-3 digits, least significant first. */
module Ternary {

  import opened CSharp
  import Arith

  /** Digits of a machine word. */
  const TritCount := 10
  /** 3^10: the number of tape cells and the modulus of all address arithmetic. */
  const WordSize := 59049
  /** 3^9: the weight of the most significant trit. */
  const LeadingOneTrit := 19683

  /** The "crazy" truth table, indexed `[right trit][left trit]`. */
  const CrazyTable: seq<seq<nat>> := [[1, 0, 0], [1, 0, 2], [2, 2, 1]]

  function Pow3(n: nat): (p: nat)
    ensures p >= 1
  {
    if n == 0 then 1 else 3 * Pow3(n - 1)
  }

  lemma Pow3Constants()
    ensures Pow3(9) == LeadingOneTrit && Pow3(TritCount) == WordSize
  {
  }

  lemma {:induction false} Pow3Monotone(i: nat, j: nat)
    requires i <= j
    ensures Pow3(i) <= Pow3(j)
    decreases j
  {
    if i < j {
      Pow3Monotone(i, j - 1);
    }
  }

  /** Trit `i` of `v`. */
  function Trit(v: nat, i: nat): (t: nat)
    ensures t < 3
  {
    if i == 0 then v % 3 else Trit(v / 3, i - 1)
  }

  lemma {:induction false} TritOfZero(i: nat)
    ensures Trit(0, i) == 0
  {
    if i > 0 {
      TritOfZero(i - 1);
    }
  }

  /** Trit `i` is what the source computes as `v / 3^i % 3`. */
  lemma {:induction false} TritIsDivision(v: nat, i: nat)
    ensures Trit(v, i) == v / Pow3(i) % 3
    decreases i
  {
    if i > 0 {
      TritIsDivision(v / 3, i - 1);
      DivThenDiv(v, Pow3(i - 1));
    }
  }

  lemma DivThenDiv(v: nat, p: nat)
    requires p > 0
    ensures v / 3 / p == v / (3 * p)
  {
    var q, s := v / 3 / p, v / 3 % p;
    assert v == (3 * p) * q + (3 * s + v % 3);
    Arith.DivModUnique(v, 3 * p, q, 3 * s + v % 3);
  }

  /** A number below 3^n is determined by its first n trits. */
  lemma {:induction false} TritsDetermine(x: nat, y: nat, n: nat)
    requires x < Pow3(n) && y < Pow3(n)
    requires forall i :: 0 <= i < n ==> Trit(x, i) == Trit(y, i)
    ensures x == y
    decreases n
  {
    if n > 0 {
      assert Trit(x, 0) == Trit(y, 0);
      forall i | 0 <= i < n - 1
        ensures Trit(x / 3, i) == Trit(y / 3, i)
      {
        assert Trit(x, i + 1) == Trit(y, i + 1);
      }
      TritsDetermine(x / 3, y / 3, n - 1);
    }
  }

  /** The trits of `t * 3^k + h` are those of `h` below position k, then `t`. */
  lemma {:induction false} TritOfHigh(t: nat, h: nat, k: nat, i: nat)
    requires t < 3 && h < Pow3(k)
    ensures Trit(t * Pow3(k) + h, i) == if i < k then Trit(h, i) else if i == k then t else 0
    decreases k
  {
    var x := t * Pow3(k) + h;
    if k == 0 {
      if i > 0 {
        TritOfZero(i - 1);
      }
    } else {
      var p := Pow3(k - 1);
      var y := t * p + h / 3;
      assert h / 3 < p;
      Arith.MulByThree(p, t);
      assert t * Pow3(k) == 3 * (t * p);
      assert x == y * 3 + h % 3;
      Arith.DivModUnique(x, 3, y, h % 3);
      if i > 0 {
        TritOfHigh(t, h / 3, k - 1, i - 1);
      }
    }
  }

  // ---------------------------------------------------------------- Crazy

  function CrazyTrit(right: nat, left: nat): (t: nat)
    requires right < 3 && left < 3
    ensures t < 3
  {
    CrazyTable[right][left]
  }

  /** The table applied to the first `n` trit pairs of `left` and `right`. */
  function CrazyDigits(left: nat, right: nat, n: nat): (out: nat)
    ensures out < Pow3(n)
  {
    if n == 0 then 0
    else CrazyTrit(right % 3, left % 3) + 3 * CrazyDigits(left / 3, right / 3, n - 1)
  }

  /** The "crazy" operation of two words; its result is always a word. */
  function Crazy(left: uint16, right: uint16): (out: uint16)
    ensures out < WordSize
  {
    Pow3Constants();
    CrazyDigits(left, right, TritCount)
  }

  lemma {:induction false} CrazyDigitsTrit(left: nat, right: nat, n: nat, i: nat)
    requires i < n
    ensures Trit(CrazyDigits(left, right, n), i) == CrazyTrit(Trit(right, i), Trit(left, i))
    decreases n
  {
    var rest := CrazyDigits(left / 3, right / 3, n - 1);
    assert CrazyDigits(left, right, n) == 3 * rest + CrazyTrit(right % 3, left % 3);
    if i > 0 {
      CrazyDigitsTrit(left / 3, right / 3, n - 1, i - 1);
    }
  }

  /** Trit i of `Crazy(l, r)` is the table entry for trit i of `r` and of `l`. */
  lemma CrazyTrits(left: uint16, right: uint16, i: nat)
    requires i < TritCount
    ensures Trit(Crazy(left, right), i) == CrazyTable[Trit(right, i)][Trit(left, i)]
  {
    CrazyDigitsTrit(left, right, TritCount, i);
  }

  lemma {:induction false} CrazyDigitsLowTrits(l: nat, r: nat, l': nat, r': nat, n: nat)
    requires forall i :: 0 <= i < n ==> Trit(l, i) == Trit(l', i) && Trit(r, i) == Trit(r', i)
    ensures CrazyDigits(l, r, n) == CrazyDigits(l', r', n)
    decreases n
  {
    if n > 0 {
      assert Trit(l, 0) == Trit(l', 0) && Trit(r, 0) == Trit(r', 0);
      forall i | 0 <= i < n - 1
        ensures Trit(l / 3, i) == Trit(l' / 3, i) && Trit(r / 3, i) == Trit(r' / 3, i)
      {
        assert Trit(l, i + 1) == Trit(l', i + 1) && Trit(r, i + 1) == Trit(r', i + 1);
      }
      CrazyDigitsLowTrits(l / 3, r / 3, l' / 3, r' / 3, n - 1);
    }
  }

  /** `Crazy` only looks at the low ten trits of its operands: a `ushort`
      operand at or above 3^10 acts like the word with the same ten trits. */
  lemma CrazyLowTrits(l: uint16, r: uint16, l': uint16, r': uint16)
    requires forall i :: 0 <= i < TritCount ==> Trit(l, i) == Trit(l', i) && Trit(r, i) == Trit(r', i)
    ensures Crazy(l, r) == Crazy(l', r')
  {
    CrazyDigitsLowTrits(l, r, l', r', TritCount);
  }

  /** Every trit of `Crazy(0, 0)` is 1, so it is (3^10 - 1) / 2. */
  lemma CrazyOfZeros()
    ensures forall i :: 0 <= i < TritCount ==> Trit(Crazy(0, 0), i) == 1
    ensures Crazy(0, 0) == 29524
  {
    forall i | 0 <= i < TritCount
      ensures Trit(Crazy(0, 0), i) == 1
    {
      CrazyTrits(0, 0, i);
      TritOfZero(i);
    }
  }

  lemma {:induction false} CrazyDigitsNext(left: nat, right: nat, i: nat)
    ensures CrazyDigits(left, right, i + 1)
         == CrazyDigits(left, right, i) + Pow3(i) * CrazyTrit(Trit(right, i), Trit(left, i))
    decreases i
  {
    var t := CrazyTrit(Trit(right, i), Trit(left, i));
    var low := CrazyTrit(right % 3, left % 3);
    if i > 0 {
      assert Trit(right, i) == Trit(right / 3, i - 1) && Trit(left, i) == Trit(left / 3, i - 1);
      CrazyDigitsNext(left / 3, right / 3, i - 1);
      var rest := CrazyDigits(left / 3, right / 3, i - 1);
      var b := Pow3(i - 1) * t;
      assert CrazyDigits(left / 3, right / 3, i) == rest + b;
      assert CrazyDigits(left, right, i + 1) == low + 3 * (rest + b);
      assert CrazyDigits(left, right, i) == low + 3 * rest;
      Arith.MulByThree(Pow3(i - 1), t);
    } else {
      assert t == low;
      assert CrazyDigits(left, right, 1) == low + 3 * CrazyDigits(left / 3, right / 3, 0);
    }
  }

  /** The source's loop: for each of the ten trit positions, look up the table
      entry of `right / 3^i % 3` and `left / 3^i % 3` and add it at weight 3^i,
      with `ushort` accumulators. */
  method CrazyLoop(left: uint16, right: uint16) returns (output: uint16)
    ensures output == Crazy(left, right)
  {
    Pow3Constants();
    output := 0;
    var ternaryDigit: uint16 := 1;
    var i := 0;
    while i < TritCount
      invariant 0 <= i <= TritCount
      invariant ternaryDigit == Pow3(i)
      invariant output == CrazyDigits(left, right, i)
    {
      var leftIndex := left / ternaryDigit % 3;
      var rightIndex := right / ternaryDigit % 3;
      TritIsDivision(left, i);
      TritIsDivision(right, i);
      var outputValue := CrazyTable[rightIndex][leftIndex];
      CrazyDigitsNext(left, right, i);
      Pow3Monotone(i + 1, TritCount);
      output := output + ternaryDigit * outputValue;
      i := i + 1;
      ternaryDigit := ternaryDigit * 3;
    }
  }

  // --------------------------------------------------------------- Rotate

  /** Rotate right by one trit: the lowest trit becomes the highest. The
      `ushort` cast of the source never truncates, even for cells above 3^10. */
  function Rotate(v: uint16): (r: uint16)
    ensures v < WordSize ==> r < WordSize
  {
    v % 3 * LeadingOneTrit + v / 3
  }

  /** Trit i of `Rotate(v)` is trit i + 1 of `v`, and the top trit is the old
      bottom one. */
  lemma RotateTrits(v: uint16, i: nat)
    requires v < WordSize && i < TritCount
    ensures Trit(Rotate(v), i) == Trit(v, (i + 1) % TritCount)
  {
    Pow3Constants();
    TritOfHigh(v % 3, v / 3, 9, i);
  }

  /** `n` successive rotations. */
  function RotateN(v: uint16, n: nat): (r: uint16)
    ensures v < WordSize ==> r < WordSize
  {
    if n == 0 then v else Rotate(RotateN(v, n - 1))
  }

  lemma {:induction false} RotateNTrits(v: uint16, n: nat, i: nat)
    requires v < WordSize && i < TritCount
    ensures Trit(RotateN(v, n), i) == Trit(v, (i + n) % TritCount)
    decreases n
  {
    if n > 0 {
      var j := (i + 1) % TritCount;
      RotateTrits(RotateN(v, n - 1), i);
      RotateNTrits(v, n - 1, j);
      NextTritIndex(i, n);
    }
  }

  /** Rotating once more moves the trit index on by one, modulo ten. */
  lemma NextTritIndex(i: nat, n: nat)
    requires i < TritCount && n > 0
    ensures ((i + 1) % TritCount + n - 1) % TritCount == (i + n) % TritCount
  {
    if i == TritCount - 1 {
      assert (i + 1) % TritCount + n - 1 + TritCount == i + n;
    }
  }

  /** Ten rotations give back the word. */
  lemma RotateCycle(v: uint16)
    requires v < WordSize
    ensures RotateN(v, TritCount) == v
  {
    forall i | 0 <= i < TritCount
      ensures Trit(RotateN(v, TritCount), i) == Trit(v, i)
    {
      RotateNTrits(v, TritCount, i);
    }
    Pow3Constants();
    TritsDetermine(RotateN(v, TritCount), v, TritCount);
  }

  // ---------------------------------------------------- register arithmetic

  /** `((original + increment) % MaxValue + MaxValue) % MaxValue` with C#'s
      truncating `%`, then cast to `ushort`: the Euclidean residue. */
  function WrappedIncrement(original: uint16, increment: int): (r: uint16)
    ensures r < WordSize
    ensures r == (original + increment) % WordSize
  {
    ToUInt16(TruncMod(TruncMod(original + increment, WordSize) + WordSize, WordSize))
  }

  lemma WrappedIncrementNeighbours(v: uint16)
    requires v < WordSize
    ensures WrappedIncrement(v, 1) == if v == WordSize - 1 then 0 else v + 1
    ensures WrappedIncrement(v, -1) == if v == 0 then WordSize - 1 else v - 1
    ensures WrappedIncrement(v, -2) == if v < 2 then WordSize - 2 + v else v - 2
  {
  }

}

/** `Pos`: a 2D vector of C++ `int`s (32 bits wide) with componentwise
    arithmetic and the total order that lets it key a binary tree. Signed
    overflow is undefined in C++, so every operation requires its exact result
    to be representable. */
module Vector2i {

  const MinInt: int := -0x8000_0000
  const MaxInt: int := 0x7FFF_FFFF

  /** A 32-bit C++ `int`. */
  newtype int32 = v: int | -0x8000_0000 <= v < 0x8000_0000

  /** Whether an exact result is representable as an `int`. */
  predicate Fits(v: int)
  {
    MinInt <= v <= MaxInt
  }

  /** C++ integer division: the quotient truncated toward zero. */
  function TruncDiv(a: int, d: int): (q: int)
    requires d != 0
    ensures var r := a - q * d;
      && Abs(r) < Abs(d)
      && (r == 0 || (r < 0 <==> a < 0))
  {
    var n := Abs(a) / Abs(d);
    QuotientRemainder(a, d, n);
    if (a < 0) == (d < 0) then n else -n
  }

  /** With `n` the quotient of the magnitudes, the signed quotient leaves the
      remainder of the magnitudes, with the sign of the dividend. */
  lemma QuotientRemainder(a: int, d: int, n: int)
    requires d != 0 && n == Abs(a) / Abs(d)
    ensures var q := if (a < 0) == (d < 0) then n else -n;
      a - q * d == if a < 0 then -(Abs(a) % Abs(d)) else Abs(a) % Abs(d)
  {
    var A: int, D: int, m: int := Abs(a), Abs(d), Abs(a) % Abs(d);
    assert A == D * n + m;
    if a < 0 && d < 0 {
      assert n * d == -(D * n);
    } else if a < 0 {
      assert -n * d == -(D * n);
    } else if d < 0 {
      assert -n * d == D * n;
    } else {
      assert n * d == D * n;
    }
  }

  datatype Pos = Pos(x: int32, y: int32)
  {
    function Plus(p: Pos): Pos
      requires Fits(x as int + p.x as int) && Fits(y as int + p.y as int)
    {
      Pos(x + p.x, y + p.y)
    }

    function Minus(p: Pos): Pos
      requires Fits(x as int - p.x as int) && Fits(y as int - p.y as int)
    {
      Pos(x - p.x, y - p.y)
    }

    function Times(p: Pos): Pos
      requires Fits(x as int * p.x as int) && Fits(y as int * p.y as int)
    {
      Pos(x * p.x, y * p.y)
    }

    /** `operator/(int)`: both components divided with truncation. */
    function DivBy(div: int32): Pos
      requires div != 0 && Fits(TruncDiv(x as int, div as int)) && Fits(TruncDiv(y as int, div as int))
    {
      Pos(TruncDiv(x as int, div as int) as int32, TruncDiv(y as int, div as int) as int32)
    }
  }

  /** The default-constructed `Pos`. */
  const Origin := Pos(0, 0)

  /** Unary `operator-`. */
  function Negate(p: Pos): Pos
    requires p.x as int != MinInt && p.y as int != MinInt
  {
    Pos(-p.x, -p.y)
  }

  /** `operator*(int, Pos)`. */
  function Scale(k: int32, p: Pos): Pos
    requires Fits(k as int * p.x as int) && Fits(k as int * p.y as int)
  {
    Pos(k * p.x, k * p.y)
  }

  lemma PlusMinusRoundTrip(a: Pos, b: Pos)
    requires Fits(a.x as int + b.x as int) && Fits(a.y as int + b.y as int)
    ensures a.Plus(b).Minus(b) == a
  {
  }

  lemma PlusCommutes(a: Pos, b: Pos)
    requires Fits(a.x as int + b.x as int) && Fits(a.y as int + b.y as int)
    ensures a.Plus(b) == b.Plus(a)
  {
  }

  lemma NegateProperties(a: Pos, b: Pos)
    requires b.x as int != MinInt && b.y as int != MinInt
    ensures Negate(Negate(b)) == b
    ensures Fits(a.x as int - b.x as int) && Fits(a.y as int - b.y as int) ==> a.Plus(Negate(b)) == a.Minus(b)
    ensures b.Plus(Negate(b)) == Origin
  {
  }

  /** Scaling by `k` is componentwise multiplication by `(k, k)`. */
  lemma ScaleIsTimes(k: int32, p: Pos)
    requires Fits(k as int * p.x as int) && Fits(k as int * p.y as int)
    ensures Scale(k, p) == Pos(k, k).Times(p)
  {
  }

  /** Division by a non-zero `k` undoes scaling by `k`. */
  lemma DivUndoesScale(k: int32, p: Pos)
    requires k != 0 && Fits(k as int * p.x as int) && Fits(k as int * p.y as int)
    ensures TruncDiv(k as int * p.x as int, k as int) == p.x as int
    ensures TruncDiv(k as int * p.y as int, k as int) == p.y as int
    ensures Scale(k, p).DivBy(k) == p
  {
    TruncDivExact(p.x as int, k as int);
    TruncDivExact(p.y as int, k as int);
  }

  function Abs(v: int): nat
  {
    if v < 0 then -v else v
  }

  /** A non-zero multiple of `d` is at least as large as `d`. */
  lemma MultipleBound(d: int, k: int)
    requires k != 0
    ensures Abs(d * k) >= Abs(d)
  {
    var m: int, n: int := Abs(d), Abs(k);
    assert m * (n - 1) >= 0;
    assert m * n >= m;
    if d < 0 && k < 0 {
      assert d * k == m * n;
    } else if d < 0 {
      assert d * k == -(m * n);
    } else if k < 0 {
      assert d * k == -(m * n);
    } else {
      assert d * k == m * n;
    }
  }

  /** The remainder of `d * a` after subtracting `q` times `d`. */
  lemma SubtractMultiple(d: int, a: int, q: int)
    ensures d * a - q * d == d * (a - q)
  {
  }

  /** Truncating division undoes multiplication. */
  lemma TruncDivExact(a: int, d: int)
    requires d != 0
    ensures TruncDiv(d * a, d) == a
  {
    var q := TruncDiv(d * a, d);
    var e := a - q;
    SubtractMultiple(d, a, q);
    assert Abs(d * e) < Abs(d);
    if e != 0 {
      MultipleBound(d, e);
    }
  }

  /** `static_cast<std::uint32_t>(v)`: the two's-complement bits of `v` read as
      an unsigned number. */
  function U32(v: int32): (u: int)
    ensures 0 <= u < 0x1_0000_0000
    ensures v >= 0 ==> u == v as int
    ensures v < 0 ==> u == v as int + 0x1_0000_0000
  {
    (v as int) % 0x1_0000_0000
  }

  /** The 64-bit key `operator<` compares: `uint32(x)` in the high half and
      `uint32(y)` in the low half. */
  function Key(p: Pos): int
  {
    U32(p.x) * 0x1_0000_0000 + U32(p.y)
  }

  /** `operator<`. */
  predicate Less(a: Pos, b: Pos)
  {
    Key(a) < Key(b)
  }

  /** For halves below `2^32`, the `uint64` shift-and-or that builds the key is
      the arithmetic value `Key` uses. */
  lemma ShiftOrIsKey(hi: bv64, lo: bv64)
    requires hi < 0x1_0000_0000 && lo < 0x1_0000_0000
    ensures (hi << 32) | lo == hi * 0x1_0000_0000 + lo
  {
  }

  /** The order is lexicographic on the unsigned reinterpretations. */
  lemma LessIsLexicographic(a: Pos, b: Pos)
    ensures Less(a, b) <==> U32(a.x) < U32(b.x) || (U32(a.x) == U32(b.x) && U32(a.y) < U32(b.y))
  {
  }

  /** Distinct positions have distinct keys. */
  lemma KeyInjective(a: Pos, b: Pos)
    ensures Key(a) == Key(b) ==> a == b
  {
    LessIsLexicographic(a, b);
    LessIsLexicographic(b, a);
  }

  /** `Less` is a strict total order. */
  lemma LessIsStrictTotalOrder(a: Pos, b: Pos, c: Pos)
    ensures !Less(a, a)
    ensures Less(a, b) && Less(b, c) ==> Less(a, c)
    ensures a != b ==> (Less(a, b) <==> !Less(b, a))
    ensures a == b || Less(a, b) || Less(b, a)
  {
    KeyInjective(a, b);
  }

  /** Because the comparison is unsigned, a negative `x` sorts after every
      non-negative one; within the non-negative quadrant the order is the
      usual lexicographic one. */
  lemma NegativeSortsLast(a: Pos, b: Pos)
    ensures a.x >= 0 && b.x < 0 ==> Less(a, b)
    ensures a.x >= 0 && a.y >= 0 && b.x >= 0 && b.y >= 0 ==>
      (Less(a, b) <==> a.x < b.x || (a.x == b.x && a.y < b.y))
  {
    LessIsLexicographic(a, b);
  }

  lemma LessExamples()
    ensures Less(Pos(1, 5), Pos(1, 6))
    ensures !Less(Pos(2, 0), Pos(1, 100))
    ensures Less(Pos(0, 0), Pos(-1, 0))
  {
  }

  /** A `Pos` variable, for the compound assignments that update it in place. */
  class PosCell {
    var x: int32
    var y: int32

    function Value(): Pos
      reads this
    {
      Pos(x, y)
    }

    constructor (p: Pos)
      ensures Value() == p
    {
      x, y := p.x, p.y;
    }

    /** `operator+=` */
    method PlusAssign(p: Pos)
      requires Fits(x as int + p.x as int) && Fits(y as int + p.y as int)
      modifies this
      ensures Value() == old(Value()).Plus(p)
    {
      x := x + p.x;
      y := y + p.y;
    }

    /** `operator-=` */
    method MinusAssign(p: Pos)
      requires Fits(x as int - p.x as int) && Fits(y as int - p.y as int)
      modifies this
      ensures Value() == old(Value()).Minus(p)
    {
      x := x - p.x;
      y := y - p.y;
    }

    /** `operator*=` */
    method TimesAssign(p: Pos)
      requires Fits(x as int * p.x as int) && Fits(y as int * p.y as int)
      modifies this
      ensures Value() == old(Value()).Times(p)
    {
      x := x * p.x;
      y := y * p.y;
    }

    /** `operator/=` */
    method DivAssign(div: int32)
      requires div != 0 && Fits(TruncDiv(x as int, div as int)) && Fits(TruncDiv(y as int, div as int))
      modifies this
      ensures Value() == old(Value()).DivBy(div)
    {
      x := TruncDiv(x as int, div as int) as int32;
      y := TruncDiv(y as int, div as int) as int32;
    }
  }
}

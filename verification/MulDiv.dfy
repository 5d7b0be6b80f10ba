/** MUL, IMUL, DIV and IDIV on the accumulator pair: AH:AL, DX:AX or EDX:EAX. */
module MulDiv {
  import opened Words
  import opened Alu
  import opened SubRegisters

  datatype Acc = Acc(eax: U32, edx: U32)

  datatype Quotient = Done(acc: Acc) | DivideByZero | Overflow

  /** The two halves of the accumulator pair. */
  function Low(w: Width, acc: Acc): U32 { GetLow(acc.eax, w) }
  function High(w: Width, acc: Acc): U32 {
    match w case W8 => GetHigh8(acc.eax) case W16 => GetLow(acc.edx, W16) case W32 => acc.edx
  }

  /** Everything in EAX and EDX that is not part of the pair. */
  predicate SameOutside(w: Width, a: Acc, b: Acc) {
    match w
    case W8 => a.eax / 0x1_0000 == b.eax / 0x1_0000 && a.edx == b.edx
    case W16 => a.eax / 0x1_0000 == b.eax / 0x1_0000 && a.edx / 0x1_0000 == b.edx / 0x1_0000
    case W32 => true
  }

  /** Stores a double-width number (of either sign) in the pair. */
  function StorePair(w: Width, acc: Acc, r: int): Acc {
    match w
    case W8 => acc.(eax := SetLow(acc.eax, W16, r))
    case W16 => Acc(SetLow(acc.eax, W16, r), SetLow(acc.edx, W16, r / 0x1_0000))
    case W32 => Acc(Wrap(r), Wrap(r / TWO32))
  }

  /** Stores quotient and remainder. */
  function StoreQuotient(w: Width, acc: Acc, q: int, r: int): Acc {
    match w
    case W8 => acc.(eax := SetHigh8(SetLow(acc.eax, W8, q), r))
    case W16 => Acc(SetLow(acc.eax, W16, q), SetLow(acc.edx, W16, r))
    case W32 => Acc(Wrap(q), Wrap(r))
  }

  /** The pair as one unsigned number. */
  function Pair(w: Width, acc: Acc): nat {
    match w
    case W8 => GetLow(acc.eax, W16)
    case W16 => 0x1_0000 * GetLow(acc.edx, W16) + GetLow(acc.eax, W16)
    case W32 => TWO32 * acc.edx + acc.eax
  }

  /** The pair as one signed number. */
  function SignedPair(w: Width, acc: Acc): int {
    var p := Pair(w, acc);
    match w
    case W8 => if p >= 0x8000 then p - 0x1_0000 else p
    case W16 => if p >= 0x8000_0000 then p - 0x1_0000_0000 else p
    case W32 => if p >= 0x8000_0000_0000_0000 then p - 0x1_0000_0000_0000_0000 else p
  }

  // ---- the instructions ---------------------------------------------------------

  datatype Product = Product(acc: Acc, overflow: bool)

  /** F6/F7 /4: CF and OF are `overflow`. */
  function Mul(w: Width, acc: Acc, val: U32): Product {
    var r := Low(w, acc) * Truncate(val, w);
    Product(StorePair(w, acc, r), r >= Modulus(w))
  }

  /** F6/F7 /5. */
  function IMul(w: Width, acc: Acc, val: U32): Product {
    var r := Signed(Low(w, acc), w) * Signed(val, w);
    Product(StorePair(w, acc, r), Signed(r, w) != r)
  }

  /** F6/F7 /6. */
  function Div(w: Width, acc: Acc, val: U32): Quotient {
    var d := Truncate(val, w);
    if d == 0 then DivideByZero
    else
      var q, r := Pair(w, acc) / d, Pair(w, acc) % d;
      if q >= Modulus(w) then Overflow else Done(StoreQuotient(w, acc, q, r))
  }

  /** JavaScript's division of integers: towards zero. */
  function TruncDiv(a: int, b: int): int
    requires b != 0
  {
    if a >= 0 then (if b > 0 then a / b else -(a / -b))
    else (if b > 0 then -(-a / b) else -a / -b)
  }

  /** F6/F7 /7. */
  function IDiv(w: Width, acc: Acc, val: U32): Quotient {
    var d := Signed(val, w);
    if d == 0 then DivideByZero
    else
      var q := TruncDiv(SignedPair(w, acc), d);
      var r := SignedPair(w, acc) - q * d;
      if q < -SignWeight(w) || q >= SignWeight(w) then Overflow else Done(StoreQuotient(w, acc, q, r))
  }

  // ---- facts about the stores -----------------------------------------------------

  lemma StorePairReads(w: Width, acc: Acc, r: int)
    requires 0 <= r
    requires match w case W8 => r < 0x1_0000 case W16 => r < TWO32 case W32 => r < TWO32 * TWO32
    ensures Pair(w, StorePair(w, acc, r)) == r
    ensures SameOutside(w, acc, StorePair(w, acc, r))
  {
    match w
    case W8 => SetLowHalf(acc.eax, r);
    case W16 => SetLowHalf(acc.eax, r); SetLowHalf(acc.edx, r / 0x1_0000);
    case W32 => WrapIsMod(r); WrapIsMod(r / TWO32);
  }

  lemma SetLowHalf(r: U32, v: int)
    ensures SetLow(r, W16, v) % 0x1_0000 == v % 0x1_0000 && SetLow(r, W16, v) / 0x1_0000 == r / 0x1_0000
  {
  }

  lemma SetLowByte(r: U32, v: int)
    ensures SetLow(r, W8, v) % 0x100 == v % 0x100 && SetLow(r, W8, v) / 0x1_0000 == r / 0x1_0000
  {
    DivTwice(r);
    DivTwice(SetLow(r, W8, v));
    assert SetLow(r, W8, v) / 0x100 == r / 0x100;
  }

  lemma DivTwice(r: U32)
    ensures r / 0x1_0000 == r / 0x100 / 0x100
  {
  }

  lemma SetHighByte(r: U32, v: int)
    ensures GetHigh8(SetHigh8(r, v)) == v % 0x100
    ensures SetHigh8(r, v) % 0x100 == r % 0x100 && SetHigh8(r, v) / 0x1_0000 == r / 0x1_0000
  {
    var top, b, low := r / 0x1_0000, v % 0x100, r % 0x100;
    assert SetHigh8(r, v) / 0x100 == 0x100 * top + b;
  }

  lemma StoreQuotientReads(w: Width, acc: Acc, q: int, r: int)
    ensures var a := StoreQuotient(w, acc, q, r);
            && Low(w, a) == Truncate(q, w) && High(w, a) == Truncate(r, w)
            && SameOutside(w, acc, a)
  {
    match w
    case W8 =>
      SetLowByte(acc.eax, q);
      SetHighByte(SetLow(acc.eax, W8, q), r);
    case W16 =>
    case W32 =>
      WrapIsMod(q);
      WrapIsMod(r);
  }

  lemma PairSplits(w: Width, acc: Acc)
    ensures Pair(w, acc) == Shift(w, High(w, acc)) + Low(w, acc)
  {
    if w == W8 {
      assert acc.eax % 0x1_0000 == 0x100 * (acc.eax / 0x100 % 0x100) + acc.eax % 0x100;
    }
  }

  // ---- unsigned division and multiplication ------------------------------------------

  lemma DivAtLeast(x: nat, d: nat, m: nat)
    requires d > 0
    ensures x / d >= m <==> x >= d * m
  {
    var q := x / d;
    assert x == q * d + x % d;
    if q >= m { assert q * d >= m * d; } else { assert q * d <= (m - 1) * d; }
  }

  lemma TimesModulus(d: nat, w: Width)
    ensures d * Modulus(w) == Shift(w, d)
  {
  }

  lemma MulMonotone(a: nat, b: nat, c: nat)
    requires b <= c
    ensures a * b <= a * c
  {
  }

  lemma ProductBound(a: nat, b: nat, w: Width)
    requires a < Modulus(w) && b < Modulus(w)
    ensures match w case W8 => a * b < 0x1_0000 case W16 => a * b < TWO32 case W32 => a * b < TWO32 * TWO32
  {
    MulMonotone(a, b, Modulus(w) - 1);
    match w { case W8 => assert a * 0xff < 0x1_0000; case W16 => assert a * 0xffff < TWO32; case W32 => assert a * 0xffff_ffff < TWO32 * TWO32; }
  }

  lemma DivOverflow(w: Width, acc: Acc, d: nat)
    requires d > 0
    ensures Pair(w, acc) / d >= Modulus(w) <==> High(w, acc) >= d
  {
    PairSplits(w, acc);
    DivAtLeast(Pair(w, acc), d, Modulus(w));
    TimesModulus(d, w);
  }

  /** DIV by a nonzero operand overflows exactly when the high half is not below
      the divisor; otherwise quotient and remainder satisfy the division identity
      with the remainder below the divisor, and nothing else changes. */
  lemma DivExact(w: Width, acc: Acc, val: U32)
    requires 0 < val < Modulus(w)
    ensures Div(w, acc, val).Overflow? <==> High(w, acc) >= val
    ensures High(w, acc) < val ==>
              && Div(w, acc, val).Done?
              && var a := Div(w, acc, val).acc;
              && Low(w, a) * val + High(w, a) == Pair(w, acc)
              && High(w, a) < val && SameOutside(w, acc, a)
  {
    TruncateLimb(val, w);
    DivOverflow(w, acc, val);
    if High(w, acc) < val {
      var q, r := DivDone(w, acc, val);
    }
  }

  /** DIV and IDIV raise a divide error by zero exactly when the operand is zero. */
  lemma DivideByZeroIff(w: Width, acc: Acc, val: U32)
    requires val < Modulus(w)
    ensures Div(w, acc, val).DivideByZero? <==> val == 0
    ensures IDiv(w, acc, val).DivideByZero? <==> val == 0
  {
    hide Pair, SignedPair, StoreQuotient, TruncDiv;
    TruncateLimb(val, w);
  }

  lemma DivDone(w: Width, acc: Acc, val: U32) returns (q: nat, r: nat)
    requires 0 < val < Modulus(w) && Pair(w, acc) / val < Modulus(w)
    ensures Div(w, acc, val) == Done(StoreQuotient(w, acc, q, r))
    ensures var a := StoreQuotient(w, acc, q, r);
            && Low(w, a) * val + High(w, a) == Pair(w, acc)
            && High(w, a) == r < val && SameOutside(w, acc, a)
  {
    TruncateLimb(val, w);
    q, r := Divide(Pair(w, acc), val);
    var a := StoreQuotient(w, acc, q, r);
    assert Low(w, a) == q && High(w, a) == r && SameOutside(w, acc, a) by {
      StoreQuotientReads(w, acc, q, r);
      QuotientFits(w, q, r);
    }
  }

  lemma Divide(p: nat, d: nat) returns (q: nat, r: nat)
    requires d > 0
    ensures q == p / d && r == p % d && q * d + r == p && r < d
  {
    q, r := p / d, p % d;
  }

  lemma QuotientFits(w: Width, q: nat, r: nat)
    requires q < Modulus(w) && r < Modulus(w)
    ensures Truncate(q, w) == q && Truncate(r, w) == r
  {
  }

  /** MUL leaves the exact product in the pair; CF/OF say whether the high half
      is in use. */
  lemma MulExact(w: Width, acc: Acc, val: U32)
    requires val < Modulus(w)
    ensures var p := Mul(w, acc, val);
            && Pair(w, p.acc) == Low(w, acc) * val
            && (p.overflow <==> High(w, p.acc) != 0)
            && SameOutside(w, acc, p.acc)
  {
    var r := Low(w, acc) * val;
    TruncateLimb(val, w);
    ProductBound(Low(w, acc), val, w);
    StorePairReads(w, acc, r);
    PairSplits(w, Mul(w, acc, val).acc);
  }

  /** DIV undoes MUL by the same nonzero operand: it never overflows, the
      accumulator comes back, the remainder is zero and nothing else changed. */
  lemma DivUndoesMul(w: Width, acc: Acc, val: U32)
    requires 0 < val < Modulus(w)
    ensures var d := Div(w, Mul(w, acc, val).acc, val);
            && d.Done?
            && Low(w, d.acc) == Low(w, acc) && High(w, d.acc) == 0 && SameOutside(w, acc, d.acc)
  {
    var a, x := Mul(w, acc, val).acc, Low(w, acc);
    MulExact(w, acc, val);
    assert x * val / val == x && x * val % val == 0 by { MulThenDiv(x, val); }
    TruncateLimb(val, w);
    StoreQuotientReads(w, a, x, 0);
    QuotientFits(w, x, 0);
  }

  lemma MulThenDiv(x: nat, d: nat)
    requires d > 0
    ensures x * d / d == x && x * d % d == 0
  {
    DivAtLeast(x * d, d, x);
    DivAtLeast(x * d, d, x + 1);
    assert d * (x + 1) == x * d + d;
  }

  // ---- signed forms ---------------------------------------------------------------------

  lemma TruncDivExact(a: int, b: int)
    requires b != 0
    ensures var q := TruncDiv(a, b); var r := a - q * b;
            && (if b > 0 then -b < r < b else b < r < -b)
            && (a >= 0 ==> r >= 0) && (a <= 0 ==> r <= 0)
  {
    var x, y := if a >= 0 then a else -a, if b > 0 then b else -b;
    var q := x / y;
    assert x == q * y + x % y;
    assert (-q) * b == -(q * b) && q * (-b) == -(q * b);
  }

  lemma SignedFits(v: int, w: Width)
    requires -SignWeight(w) <= v < SignWeight(w)
    ensures Signed(Truncate(v, w), w) == v
  {
    hide Signed, Truncate;
    SignedCentered(Truncate(v, w), w);
    TruncateSigned(v, w);
  }

  lemma TruncateSigned(v: int, w: Width)
    requires -SignWeight(w) <= v < SignWeight(w)
    ensures Truncate(v, w) == Truncate(Truncate(v, w), w) == if v < 0 then v + Modulus(w) else v
    ensures Modulus(w) == 2 * SignWeight(w)
  {
    if v < 0 { TruncateWrap(v, w); }
    TruncateOnce(Truncate(v, w), w);
    if v >= 0 { TruncateOnce(v, w); }
  }

  lemma TruncateWrap(v: int, w: Width)
    requires -Modulus(w) <= v < 0
    ensures Truncate(v, w) == v + Modulus(w)
  {
  }

  lemma SignedRange(v: int, w: Width)
    ensures -SignWeight(w) <= Signed(v, w) < SignWeight(w)
  {
  }

  /** IDIV by a nonzero operand, when it does not overflow, divides towards zero:
      quotient times divisor plus remainder is the dividend, the remainder is
      smaller than the divisor and has the dividend's sign; and it overflows only
      when that quotient needs more than w bits. */
  lemma IDivExact(w: Width, acc: Acc, val: U32)
    requires Signed(val, w) != 0
    ensures var d, n := Signed(val, w), SignedPair(w, acc);
            match IDiv(w, acc, val)
            case Done(a) =>
              var q, r := Signed(Low(w, a), w), Signed(High(w, a), w);
              && q * d + r == n && (if d > 0 then -d < r < d else d < r < -d)
              && (n >= 0 ==> r >= 0) && (n <= 0 ==> r <= 0) && SameOutside(w, acc, a)
            case Overflow => TruncDiv(n, d) < -SignWeight(w) || TruncDiv(n, d) >= SignWeight(w)
            case DivideByZero => false
  {
    var d, n := Signed(val, w), SignedPair(w, acc);
    var q := TruncDiv(n, d);
    TruncDivExact(n, d);
    SignedRange(val, w);
    if -SignWeight(w) <= q < SignWeight(w) {
      StoreQuotientReads(w, acc, q, n - q * d);
      SignedFits(q, w);
      SignedFits(n - q * d, w);
    }
  }

  /** The pair holds a double-width number of either sign. */
  lemma StorePairSigned(w: Width, acc: Acc, r: int)
    requires match w
             case W8 => -0x8000 <= r < 0x8000
             case W16 => -0x8000_0000 <= r < 0x8000_0000
             case W32 => -0x8000_0000_0000_0000 <= r < 0x8000_0000_0000_0000
    ensures SignedPair(w, StorePair(w, acc, r)) == r && SameOutside(w, acc, StorePair(w, acc, r))
  {
    match w
    case W8 => SetLowHalf(acc.eax, r);
    case W16 =>
      SetLowHalf(acc.eax, r);
      SetLowHalf(acc.edx, r / 0x1_0000);
      Halves16(r);
    case W32 => Halves32(r);
  }

  lemma Halves16(r: int)
    requires -0x8000_0000 <= r < 0x8000_0000
    ensures 0x1_0000 * (r / 0x1_0000 % 0x1_0000) + r % 0x1_0000 == if r < 0 then r + TWO32 else r
  {
  }

  lemma Halves32(r: int)
    requires -0x8000_0000_0000_0000 <= r < 0x8000_0000_0000_0000
    ensures TWO32 * Wrap(r / TWO32) + Wrap(r) == if r < 0 then r + TWO32 * TWO32 else r
  {
    WrapIsMod(r / TWO32);
    WrapIsMod(r);
  }

  lemma SignedProductBound(a: int, b: int, w: Width)
    requires -SignWeight(w) <= a < SignWeight(w) && -SignWeight(w) <= b < SignWeight(w)
    ensures match w
            case W8 => -0x8000 <= a * b < 0x8000
            case W16 => -0x8000_0000 <= a * b < 0x8000_0000
            case W32 => -0x8000_0000_0000_0000 <= a * b < 0x8000_0000_0000_0000
  {
    var (x, y) := (if a >= 0 then a else 0 - a, if b >= 0 then b else 0 - b);
    assert a * b == x * y || a * b == -(x * y) by { SignsOut(a, b); }
    MulMonotone(x, y, SignWeight(w));
    MulMonotone(SignWeight(w), x, SignWeight(w));
    assert x * SignWeight(w) == SignWeight(w) * x;
    match w {
      case W8 => assert x * y <= 0x80 * 0x80;
      case W16 => assert x * y <= 0x8000 * 0x8000;
      case W32 => assert x * y <= 0x8000_0000 * 0x8000_0000;
    }
  }

  lemma SignsOut(a: int, b: int)
    ensures var (x, y) := (if a >= 0 then a else 0 - a, if b >= 0 then b else 0 - b); a * b == x * y || a * b == -(x * y)
  {
    assert (-a) * b == -(a * b) && a * (-b) == -(a * b) && (-a) * (-b) == a * b;
  }

  lemma SignedOnlyIfFits(r: int, w: Width)
    ensures Signed(r, w) == r <==> -SignWeight(w) <= r < SignWeight(w)
  {
    SignedRange(r, w);
    if -SignWeight(w) <= r < SignWeight(w) { SignedFits(r, w); TruncateAgain(r, w); }
  }

  lemma TruncateAgain(r: int, w: Width)
    ensures Signed(Truncate(r, w), w) == Signed(r, w)
  {
  }

  /** IMUL leaves the exact signed product in the pair; CF/OF are set exactly when
      it needs more than w bits. */
  lemma IMulExact(w: Width, acc: Acc, val: U32)
    ensures var (p, r) := (IMul(w, acc, val), Signed(Low(w, acc), w) * Signed(val, w));
            && SignedPair(w, p.acc) == r && SameOutside(w, acc, p.acc)
            && (p.overflow <==> r < -SignWeight(w) || r >= SignWeight(w))
  {
    hide StorePair, SignedPair, SameOutside, Signed;
    SignedRange(Low(w, acc), w);
    SignedRange(val, w);
    var r := Signed(Low(w, acc), w) * Signed(val, w);
    SignedProductBound(Signed(Low(w, acc), w), Signed(val, w), w);
    StorePairSigned(w, acc, r);
    SignedOnlyIfFits(r, w);
  }
}

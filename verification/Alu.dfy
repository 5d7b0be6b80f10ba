/** The integer unit of `CPU`: addition, subtraction and logic with the flags
    they set, and the sixteen branch conditions. */
module Alu {
  import opened Words

  /** The modelled bits of EFLAGS. */
  datatype Flags = Flags(cf: bool, pf: bool, af: bool, zf: bool, sf: bool, df: bool, of: bool)

  datatype Width = W8 | W16 | W32

  function Modulus(w: Width): int { match w case W8 => 0x100 case W16 => 0x1_0000 case W32 => 0x1_0000_0000 }
  function SignWeight(w: Width): int { match w case W8 => 0x80 case W16 => 0x8000 case W32 => 0x8000_0000 }

  function Truncate(v: int, w: Width): U32
    ensures 0 <= Truncate(v, w) < Modulus(w)
  {
    match w case W8 => v % 0x100 case W16 => v % 0x1_0000 case W32 => v % 0x1_0000_0000
  }

  lemma TruncateOnce(v: int, w: Width)
    requires 0 <= v < 2 * Modulus(w)
    ensures Truncate(v, w) == if v >= Modulus(w) then v - Modulus(w) else v
  {
  }

  /** `signExtend`: the low bits of v read as a two's complement number. */
  function Signed(v: int, w: Width): int {
    var t := Truncate(v, w);
    if t >= SignWeight(w) then t - Modulus(w) else t
  }

  /** `(x & signBit) !== 0`, for x of w bits or just past them. */
  predicate SignBit(x: nat, w: Width)
    requires x <= Modulus(w)
  {
    SignWeight(w) <= x < Modulus(w)
  }

  /** `(x & 0x10) !== 0`. */
  predicate AuxBit(x: nat) { x % 0x20 >= 0x10 }

  predicate Xor3(a: bool, b: bool, c: bool) { (a != b) != c }

  /** How many of the k low bits of v are set. */
  function Ones(v: nat, k: nat): nat { if k == 0 then 0 else v % 2 + Ones(v / 2, k - 1) }

  /** `parity8`: an even number of ones in the low byte (0x6996 is the table of
      odd nibbles). */
  predicate Parity8(v: U32) { Ones(v, 8) % 2 == 0 }

  datatype BitOp = And | Or | Xor

  predicate OnBits(op: BitOp, p: bool, q: bool) {
    match op case And => p && q case Or => p || q case Xor => p != q
  }

  /** `a & b`, `a | b`, `a ^ b` on the k low bits. */
  function Bitwise(op: BitOp, a: nat, b: nat, k: nat): nat {
    if k == 0 then 0
    else Bit(OnBits(op, a % 2 == 1, b % 2 == 1)) + 2 * Bitwise(op, a / 2, b / 2, k - 1)
  }

  function Bit(b: bool): nat { if b then 1 else 0 }

  /** The weight of a carry or borrow out of w bits. */
  function Carry(b: bool, w: Width): int { if b then Modulus(w) else 0 }

  datatype Result = Result(value: U32, flags: Flags)

  /** `_setZS`. */
  function SetZS(f: Flags, w: Width, r: U32): Flags
    requires r < Modulus(w)
  {
    f.(zf := r == 0, sf := SignBit(r, w), pf := Parity8(r))
  }

  /** `_add`. */
  function Add(f: Flags, a: int, b: int, w: Width, carry: bool): (r: Result)
    ensures 0 <= r.value < Modulus(w)
  {
    var A, B, c := Truncate(a, w), Truncate(b, w), if carry then 1 else 0;
    var sum := A + B + c;
    var r := Truncate(sum, w);
    Result(r, SetZS(f, w, r).(
      cf := sum >= Modulus(w),
      of := SignBit(A, w) == SignBit(B, w) && SignBit(A, w) != SignBit(r, w),
      af := Xor3(AuxBit(A), AuxBit(B + c), AuxBit(r))))
  }

  /** `_sub`; the borrow is added to the second operand before the flags are
      computed, as in the source. */
  function Sub(f: Flags, a: int, b: int, w: Width, borrow: bool): (r: Result)
    ensures 0 <= r.value < Modulus(w)
  {
    var A, B := Truncate(a, w), Truncate(b, w) + if borrow then 1 else 0;
    var r := Truncate(A - B + Modulus(w), w);
    Result(r, SetZS(f, w, r).(
      cf := A < B,
      of := SignBit(A, w) != SignBit(B, w) && SignBit(A, w) != SignBit(r, w),
      af := Xor3(AuxBit(A), AuxBit(B), AuxBit(r))))
  }

  /** `_logic`. */
  function Logic(f: Flags, v: int, w: Width): (r: Result)
    ensures 0 <= r.value < Modulus(w)
  {
    var r := Truncate(v, w);
    Result(r, SetZS(f, w, r).(cf := false, of := false, af := false))
  }

  /** `alu`: the eight group-1 operations. */
  function Operate(kind: nat, f: Flags, a: int, b: int, w: Width): Result
    requires kind < 8
  {
    match kind
    case 0 => Add(f, a, b, w, false)
    case 1 => Logic(f, Bitwise(Or, Wrap(a), Wrap(b), 32), w)
    case 2 => Add(f, a, b, w, f.cf)
    case 3 => Sub(f, a, b, w, f.cf)
    case 4 => Logic(f, Bitwise(And, Wrap(a), Wrap(b), 32), w)
    case 5 => Sub(f, a, b, w, false)
    case 6 => Logic(f, Bitwise(Xor, Wrap(a), Wrap(b), 32), w)
    case _ => Sub(f, a, b, w, false)
  }

  /** `cond`: what each condition code tests. */
  predicate Cond(f: Flags, code: nat)
    requires code < 16
  {
    match code
    case 0x0 => f.of
    case 0x1 => !f.of
    case 0x2 => f.cf
    case 0x3 => !f.cf
    case 0x4 => f.zf
    case 0x5 => !f.zf
    case 0x6 => f.cf || f.zf
    case 0x7 => !f.cf && !f.zf
    case 0x8 => f.sf
    case 0x9 => !f.sf
    case 0xa => f.pf
    case 0xb => !f.pf
    case 0xc => f.sf != f.of
    case 0xd => f.sf == f.of
    case 0xe => f.zf || f.sf != f.of
    case _ => !f.zf && f.sf == f.of
  }

  /** Sum and carry together are the exact sum. */
  lemma AddExact(f: Flags, a: int, b: int, w: Width, carry: bool)
    ensures var r := Add(f, a, b, w, carry);
            r.value + Carry(r.flags.cf, w) == Truncate(a, w) + Truncate(b, w) + Bit(carry)
  {
    var sum := Truncate(a, w) + Truncate(b, w) + Bit(carry);
    TruncateOnce(sum, w);
  }

  /** Difference and borrow together are the exact difference. */
  lemma SubExact(f: Flags, a: int, b: int, w: Width, borrow: bool)
    ensures var r := Sub(f, a, b, w, borrow);
            && r.value - Carry(r.flags.cf, w) == Truncate(a, w) - Truncate(b, w) - Bit(borrow)
            && (r.flags.zf <==> r.value == 0)
  {
    var A, B := Truncate(a, w), Truncate(b, w) + Bit(borrow);
    TruncateOnce(A - B + Modulus(w), w);
  }

  /** SF and OF disagree exactly when the signed difference is negative. */
  lemma SubSigned(f: Flags, a: int, b: int, w: Width)
    ensures var c := Sub(f, a, b, w, false).flags;
            c.sf != c.of <==> Signed(a, w) < Signed(b, w)
  {
    SubExact(f, a, b, w, false);
  }

  /** After CMP the conditions decide the order of the operands: 2/3/6/7 as
      unsigned numbers, C/D/E/F as signed numbers, 4/5 equality; at every
      width and for operands given with any number of excess bits. */
  lemma CompareConditions(f: Flags, a: int, b: int, w: Width)
    ensures var c := Operate(7, f, a, b, w).flags;
            var (ua, ub, sa, sb) := (Truncate(a, w), Truncate(b, w), Signed(a, w), Signed(b, w));
            && (Cond(c, 0x2) <==> ua < ub) && (Cond(c, 0x3) <==> ua >= ub)
            && (Cond(c, 0x4) <==> ua == ub) && (Cond(c, 0x5) <==> ua != ub)
            && (Cond(c, 0x6) <==> ua <= ub) && (Cond(c, 0x7) <==> ua > ub)
            && (Cond(c, 0xc) <==> sa < sb) && (Cond(c, 0xd) <==> sa >= sb)
            && (Cond(c, 0xe) <==> sa <= sb) && (Cond(c, 0xf) <==> sa > sb)
  {
    SubExact(f, a, b, w, false);
    SubSigned(f, a, b, w);
  }

  /** A number below twice the sign weight, read as a signed one. */
  function Centered(t: int, weight: int): int { if t >= weight then t - 2 * weight else t }

  lemma SignedCentered(v: int, w: Width)
    ensures Signed(v, w) == Centered(Truncate(v, w), SignWeight(w))
    ensures 0 <= Truncate(v, w) < Modulus(w) == 2 * SignWeight(w)
    ensures Truncate(Truncate(v, w), w) == Truncate(v, w)
    ensures SignBit(Truncate(v, w), w) <==> Truncate(v, w) >= SignWeight(w)
  {
  }

  lemma OverflowAdd(a: int, b: int, c: int, r: int, weight: int)
    requires 0 <= a < 2 * weight && 0 <= b < 2 * weight && 0 <= r < 2 * weight && 0 <= c <= 1
    requires r == a + b + c || r == a + b + c - 2 * weight
    ensures var s := Centered(a, weight) + Centered(b, weight) + c;
            ((a >= weight) == (b >= weight) && (a >= weight) != (r >= weight)) <==> s < -weight || s >= weight
  {
  }

  lemma OverflowSub(a: int, b: int, r: int, weight: int)
    requires 0 <= a < 2 * weight && 0 <= b < 2 * weight && 0 <= r < 2 * weight
    requires r == a - b || r == a - b + 2 * weight
    ensures var s := Centered(a, weight) - Centered(b, weight);
            ((a >= weight) != (b >= weight) && (a >= weight) != (r >= weight)) <==> s < -weight || s >= weight
  {
  }

  /** The flags of a result in terms of the numbers it came from. */
  ghost predicate FlagsOf(f: Flags, r: Result, s: int, w: Width) {
    && (r.flags.of <==> s < -SignWeight(w) || s >= SignWeight(w))
    && (r.flags.zf <==> r.value == 0) && (r.flags.sf <==> Signed(r.value, w) < 0) && r.flags.df == f.df
  }

  lemma ResultFlags(f: Flags, r: U32, w: Width)
    requires r < Modulus(w) && Truncate(r, w) == r
    ensures var g := SetZS(f, w, r); (g.zf <==> r == 0) && (g.sf <==> Signed(r, w) < 0) && g.df == f.df
  {
  }

  /** The flags of an addition: OF says whether the sum of the signed operands needs
      more than w bits, ZF whether the result is zero, SF is its sign. */
  lemma AddFlags(f: Flags, a: int, b: int, w: Width, carry: bool)
    ensures FlagsOf(f, Add(f, a, b, w, carry), Signed(a, w) + Signed(b, w) + Bit(carry), w)
  {
    hide Signed, Truncate, SignBit, Modulus, SignWeight, AuxBit, Parity8, Xor3, SetZS, Centered;
    var sum := Truncate(a, w) + Truncate(b, w) + Bit(carry);
    SignedCentered(a, w);
    SignedCentered(b, w);
    SignedCentered(sum, w);
    ResultFlags(f, Truncate(sum, w), w);
    TruncateOnce(sum, w);
    OverflowAdd(Truncate(a, w), Truncate(b, w), Bit(carry), Truncate(sum, w), SignWeight(w));
  }

  /** The same for a subtraction without borrow. */
  lemma SubFlags(f: Flags, a: int, b: int, w: Width)
    ensures FlagsOf(f, Sub(f, a, b, w, false), Signed(a, w) - Signed(b, w), w)
  {
    hide Signed, Truncate, SignBit, Modulus, SignWeight, AuxBit, Parity8, Xor3, SetZS, Centered;
    var d := Truncate(a, w) - Truncate(b, w) + Modulus(w);
    SignedCentered(a, w);
    SignedCentered(b, w);
    SignedCentered(d, w);
    ResultFlags(f, Truncate(d, w), w);
    TruncateOnce(d, w);
    OverflowSub(Truncate(a, w), Truncate(b, w), Truncate(d, w), SignWeight(w));
  }

  lemma OverflowSbb(a: int, b: int, r: int, weight: int)
    requires 0 <= a < 2 * weight && 0 <= b < 2 * weight && 0 <= r < 2 * weight
    requires r == a - b - 1 || r == a - b - 1 + 2 * weight
    ensures var (s, sign) := (Centered(a, weight) - Centered(b, weight) - 1, weight <= b + 1 < 2 * weight);
            (((a >= weight) != sign && (a >= weight) != (r >= weight) <==> s < -weight || s >= weight)
             <==> b != weight - 1)
  {
  }

  /** OF of a subtraction with a borrow tells a signed overflow unless the second operand
      is the largest positive number, and for that it always tells the opposite: the
      borrow has been added to it before its sign is looked at. */
  lemma SbbOverflowIff(f: Flags, a: int, b: int, w: Width)
    ensures var s := Signed(a, w) - Signed(b, w) - 1;
            ((Sub(f, a, b, w, true).flags.of <==> s < 0 - SignWeight(w) || s >= SignWeight(w))
             <==> Truncate(b, w) != SignWeight(w) - 1)
  {
    hide Signed, Truncate, AuxBit, Parity8, Xor3, SetZS, Centered;
    var (A, B) := (Truncate(a, w), Truncate(b, w));
    var d := A - (B + 1) + Modulus(w);
    SignedCentered(a, w);
    SignedCentered(b, w);
    SignedCentered(d, w);
    TruncateOnce(d, w);
    OverflowSbb(A, B, Truncate(d, w), SignWeight(w));
  }

  lemma AddAux(f: Flags, a: int, b: int, w: Width, c: bool)
    ensures Add(f, a, b, w, c).flags.af <==> Truncate(a, w) % 0x10 + (Truncate(b, w) + Bit(c)) % 0x10 >= 0x10
  {
    hide Truncate, SignBit, Modulus, AuxBit, Parity8, Xor3, SetZS;
    var (A, B) := (Truncate(a, w), Truncate(b, w) + Bit(c));
    SignedCentered(a, w);
    SignedCentered(b, w);
    TruncateOnce(A + B, w);
    var q := ThirtySeconds(w);
    AuxAdd(A, B, Truncate(A + B, w), if A + B >= Modulus(w) then q else 0);
  }

  lemma SubAux(f: Flags, a: int, b: int, w: Width, c: bool)
    ensures Sub(f, a, b, w, c).flags.af <==> Truncate(a, w) % 0x10 < (Truncate(b, w) + Bit(c)) % 0x10
  {
    hide Truncate, SignBit, Modulus, AuxBit, Parity8, Xor3, SetZS;
    var (A, B) := (Truncate(a, w), Truncate(b, w) + Bit(c));
    SignedCentered(a, w);
    SignedCentered(b, w);
    TruncateOnce(A - B + Modulus(w), w);
    var q := ThirtySeconds(w);
    AuxSub(A, B, Truncate(A - B + Modulus(w), w), if A < B then q else 0);
  }

  /** AF of an addition is the carry out of the low four bits, and of a subtraction the
      borrow into them, except when there is a carry or borrow in and the low four
      bits of the second operand are all set; then it is the opposite. */
  lemma AuxiliaryCarry(f: Flags, a: int, b: int, w: Width, c: bool)
    ensures var (A, B) := (Truncate(a, w), Truncate(b, w));
            && ((Add(f, a, b, w, c).flags.af <==> A % 0x10 + B % 0x10 + Bit(c) >= 0x10) <==> !(c && B % 0x10 == 0xf))
            && ((Sub(f, a, b, w, c).flags.af <==> A % 0x10 < B % 0x10 + Bit(c)) <==> !(c && B % 0x10 == 0xf))
  {
    hide Truncate, Add, Sub;
    AddAux(f, a, b, w, c);
    SubAux(f, a, b, w, c);
    LowFour(Truncate(b, w));
  }

  lemma LowFour(b: nat)
    ensures (b + 1) % 0x10 == if b % 0x10 == 0xf then 0 else b % 0x10 + 1
  {
  }

  lemma ThirtySeconds(w: Width) returns (q: int)
    ensures Modulus(w) == 0x20 * q
  {
    match w case W8 => q := 8; case W16 => q := 0x800; case W32 => q := 0x800_0000;
  }

  /** x by its bits from 5 up, bit 4, and its low four bits. */
  lemma Split5(x: nat) returns (h: nat, b: nat, l: nat)
    ensures x == 0x20 * h + 0x10 * b + l && b < 2 && l < 0x10
    ensures (AuxBit(x) <==> b == 1) && x % 0x10 == l
  {
    h, b, l := x / 0x20, x % 0x20 / 0x10, x % 0x10;
  }

  lemma AuxAdd(a: nat, b: nat, r: nat, q: int)
    requires r + 0x20 * q == a + b
    ensures Xor3(AuxBit(a), AuxBit(b), AuxBit(r)) <==> a % 0x10 + b % 0x10 >= 0x10
  {
    hide AuxBit;
    var ha, ba, la := Split5(a);
    var hb, bb, lb := Split5(b);
    var hr, br, lr := Split5(r);
  }

  lemma AuxSub(a: nat, b: nat, r: nat, q: int)
    requires r - 0x20 * q == a - b
    ensures Xor3(AuxBit(a), AuxBit(b), AuxBit(r)) <==> a % 0x10 < b % 0x10
  {
    hide AuxBit;
    var ha, ba, la := Split5(a);
    var hb, bb, lb := Split5(b);
    var hr, br, lr := Split5(r);
  }

  // ---- multi-word arithmetic -------------------------------------------------

  /** The number a little-endian list of w-bit limbs stands for. */
  function Value(limbs: seq<U32>, w: Width): int {
    if limbs == [] then 0 else limbs[0] + Shift(w, Value(limbs[1..], w))
  }

  /** `v * 2^w`. */
  function Shift(w: Width, v: int): int {
    match w case W8 => 0x100 * v case W16 => 0x1_0000 * v case W32 => 0x1_0000_0000 * v
  }

  /** `2^(w * n)`: one more than the largest number of n limbs. */
  function Power(w: Width, n: nat): int { if n == 0 then 1 else Shift(w, Power(w, n - 1)) }

  predicate Limbs(s: seq<U32>, w: Width) { forall i :: 0 <= i < |s| ==> s[i] < Modulus(w) }

  datatype Chain = Chain(limbs: seq<U32>, flags: Flags)

  const ADD := 0
  const ADC := 2
  const SBB := 3
  const SUB := 5

  /** Runs ADC, ADC, ... (or SBB, SBB, ...) over the limbs; EFLAGS carries CF
      from one instruction to the next. */
  function RunChain(kind: nat, f: Flags, a: seq<U32>, b: seq<U32>, w: Width): (c: Chain)
    requires kind < 8 && |a| == |b|
    ensures |c.limbs| == |a|
    decreases |a|
  {
    if a == [] then Chain([], f)
    else
      var r := Operate(kind, f, a[0], b[0], w);
      var rest := RunChain(kind, r.flags, a[1..], b[1..], w);
      Chain([r.value] + rest.limbs, rest.flags)
  }

  /** The idiom for long numbers: ADD (SUB) on the lowest limbs, then ADC (SBB)
      on each of the others. */
  function LongAdd(f: Flags, a: seq<U32>, b: seq<U32>, w: Width): (c: Chain)
    requires |a| == |b| > 0
    ensures |c.limbs| == |a|
  {
    var r := Operate(ADD, f, a[0], b[0], w);
    var rest := RunChain(ADC, r.flags, a[1..], b[1..], w);
    Chain([r.value] + rest.limbs, rest.flags)
  }

  function LongSub(f: Flags, a: seq<U32>, b: seq<U32>, w: Width): (c: Chain)
    requires |a| == |b| > 0
    ensures |c.limbs| == |a|
  {
    var r := Operate(SUB, f, a[0], b[0], w);
    var rest := RunChain(SBB, r.flags, a[1..], b[1..], w);
    Chain([r.value] + rest.limbs, rest.flags)
  }

  /** What a carry or borrow out of an n-limb number is worth. */
  function CarryOut(c: bool, w: Width, n: nat): int { if c then Power(w, n) else 0 }

  /** One more limb below an exact sum or difference keeps it exact. */
  lemma MoreLimbs(w: Width, r: int, k: int, x: int, y: int, vr: int, c: int, va: int, vb: int)
    requires r + Shift(w, k) == x + y && vr + c == va + vb + k
    ensures r + Shift(w, vr) + Shift(w, c) == x + Shift(w, va) + y + Shift(w, vb)
  {
  }

  lemma MoreLimbsBorrow(w: Width, r: int, k: int, x: int, y: int, vr: int, c: int, va: int, vb: int)
    requires r - Shift(w, k) == x - y && vr - c == va - vb - k
    ensures r + Shift(w, vr) - Shift(w, c) == x + Shift(w, va) - (y + Shift(w, vb))
  {
  }

  lemma TruncateLimb(x: U32, w: Width)
    requires x < Modulus(w)
    ensures Truncate(x, w) == x
  {
  }

  lemma AddLimb(f: Flags, x: U32, y: U32, w: Width, carry: bool)
    requires x < Modulus(w) && y < Modulus(w)
    ensures var r := Add(f, x, y, w, carry); r.value + Shift(w, Bit(r.flags.cf)) == x + (y + Bit(carry))
    ensures Add(f, x, y, w, carry).value < Modulus(w)
  {
    AddExact(f, x, y, w, carry);
    TruncateLimb(x, w);
    TruncateLimb(y, w);
  }

  lemma SubLimb(f: Flags, x: U32, y: U32, w: Width, borrow: bool)
    requires x < Modulus(w) && y < Modulus(w)
    ensures var r := Sub(f, x, y, w, borrow); r.value - Shift(w, Bit(r.flags.cf)) == x - (y + Bit(borrow))
    ensures Sub(f, x, y, w, borrow).value < Modulus(w)
  {
    SubExact(f, x, y, w, borrow);
    TruncateLimb(x, w);
    TruncateLimb(y, w);
  }

  lemma {:induction false} AdcChainValue(f: Flags, a: seq<U32>, b: seq<U32>, w: Width)
    requires |a| == |b| && Limbs(a, w) && Limbs(b, w)
    ensures var c := RunChain(ADC, f, a, b, w);
            Value(c.limbs, w) + CarryOut(c.flags.cf, w, |a|) == Value(a, w) + Value(b, w) + Bit(f.cf)
    decreases |a|
  {
    if a != [] {
      var r := Operate(ADC, f, a[0], b[0], w);
      AdcChainValue(r.flags, a[1..], b[1..], w);
      AddLimb(f, a[0], b[0], w, f.cf);
      PrependSum(RunChain(ADC, f, a, b, w), r, RunChain(ADC, r.flags, a[1..], b[1..], w), a, b, w, Bit(f.cf));
    }
  }

  lemma ValueCons(s: seq<U32>, rest: seq<U32>, w: Width)
    requires s != [] && s[1..] == rest
    ensures Value(s, w) == s[0] + Shift(w, Value(rest, w))
  {
  }

  lemma CarryUp(c: bool, w: Width, n: nat)
    requires n > 0
    ensures CarryOut(c, w, n) == Shift(w, CarryOut(c, w, n - 1))
  {
  }

  lemma PrependSum(c: Chain, r: Result, rest: Chain, a: seq<U32>, b: seq<U32>, w: Width, k: int)
    requires |a| == |b| > 0 && c == Chain([r.value] + rest.limbs, rest.flags)
    requires r.value + Shift(w, Bit(r.flags.cf)) == a[0] + (b[0] + k)
    requires Value(rest.limbs, w) + CarryOut(c.flags.cf, w, |a| - 1)
          == Value(a[1..], w) + Value(b[1..], w) + Bit(r.flags.cf)
    ensures Value(c.limbs, w) + CarryOut(c.flags.cf, w, |a|) == Value(a, w) + Value(b, w) + k
  {
    hide Value, Shift, CarryOut, Power;
    ValueCons(c.limbs, rest.limbs, w);
    ValueCons(a, a[1..], w);
    ValueCons(b, b[1..], w);
    CarryUp(c.flags.cf, w, |a|);
    MoreLimbs(w, r.value, Bit(r.flags.cf), a[0], b[0] + k, Value(rest.limbs, w),
              CarryOut(c.flags.cf, w, |a| - 1), Value(a[1..], w), Value(b[1..], w));
  }

  lemma {:induction false} SbbChainValue(f: Flags, a: seq<U32>, b: seq<U32>, w: Width)
    requires |a| == |b| && Limbs(a, w) && Limbs(b, w)
    ensures var c := RunChain(SBB, f, a, b, w);
            Value(c.limbs, w) - CarryOut(c.flags.cf, w, |a|) == Value(a, w) - Value(b, w) - Bit(f.cf)
    decreases |a|
  {
    if a != [] {
      var r := Operate(SBB, f, a[0], b[0], w);
      SbbChainValue(r.flags, a[1..], b[1..], w);
      SubLimb(f, a[0], b[0], w, f.cf);
      PrependDifference(RunChain(SBB, f, a, b, w), r, RunChain(SBB, r.flags, a[1..], b[1..], w), a, b, w, Bit(f.cf));
    }
  }

  lemma PrependDifference(c: Chain, r: Result, rest: Chain, a: seq<U32>, b: seq<U32>, w: Width, k: int)
    requires |a| == |b| > 0 && c == Chain([r.value] + rest.limbs, rest.flags)
    requires r.value - Shift(w, Bit(r.flags.cf)) == a[0] - (b[0] + k)
    requires Value(rest.limbs, w) - CarryOut(c.flags.cf, w, |a| - 1)
          == Value(a[1..], w) - Value(b[1..], w) - Bit(r.flags.cf)
    ensures Value(c.limbs, w) - CarryOut(c.flags.cf, w, |a|) == Value(a, w) - Value(b, w) - k
  {
    hide Value, Shift, CarryOut, Power;
    ValueCons(c.limbs, rest.limbs, w);
    ValueCons(a, a[1..], w);
    ValueCons(b, b[1..], w);
    CarryUp(c.flags.cf, w, |a|);
    MoreLimbsBorrow(w, r.value, Bit(r.flags.cf), a[0], b[0] + k, Value(rest.limbs, w),
                    CarryOut(c.flags.cf, w, |a| - 1), Value(a[1..], w), Value(b[1..], w));
  }

  lemma {:induction false} ValueBound(s: seq<U32>, w: Width)
    requires Limbs(s, w)
    ensures 0 <= Value(s, w) < Power(w, |s|)
  {
    if s != [] {
      ValueBound(s[1..], w);
    }
  }

  lemma {:induction false} ChainLimbs(kind: nat, f: Flags, a: seq<U32>, b: seq<U32>, w: Width)
    requires kind == ADC || kind == SBB
    requires |a| == |b|
    ensures Limbs(RunChain(kind, f, a, b, w).limbs, w)
    decreases |a|
  {
    if a != [] {
      ChainLimbs(kind, Operate(kind, f, a[0], b[0], w).flags, a[1..], b[1..], w);
    }
  }

  lemma LimbCons(x: U32, s: seq<U32>, w: Width)
    requires x < Modulus(w) && Limbs(s, w)
    ensures Limbs([x] + s, w)
  {
  }

  lemma LongAddValue(f: Flags, a: seq<U32>, b: seq<U32>, w: Width)
    requires |a| == |b| > 0 && Limbs(a, w) && Limbs(b, w)
    ensures var c := LongAdd(f, a, b, w);
            && Value(c.limbs, w) + CarryOut(c.flags.cf, w, |a|) == Value(a, w) + Value(b, w) && Limbs(c.limbs, w)
  {
    hide Value, CarryOut, Power, Shift, Add, Modulus, RunChain;
    var r := Operate(ADD, f, a[0], b[0], w);
    var rest := RunChain(ADC, r.flags, a[1..], b[1..], w);
    AddLimb(f, a[0], b[0], w, false);
    AdcChainValue(r.flags, a[1..], b[1..], w);
    PrependSum(LongAdd(f, a, b, w), r, rest, a, b, w, 0);
    ChainLimbs(ADC, r.flags, a[1..], b[1..], w);
    LimbCons(r.value, rest.limbs, w);
  }

  lemma LongSubValue(f: Flags, a: seq<U32>, b: seq<U32>, w: Width)
    requires |a| == |b| > 0 && Limbs(a, w) && Limbs(b, w)
    ensures var c := LongSub(f, a, b, w);
            && Value(c.limbs, w) - CarryOut(c.flags.cf, w, |a|) == Value(a, w) - Value(b, w) && Limbs(c.limbs, w)
  {
    hide Value, CarryOut, Power, Shift, Sub, Modulus, RunChain;
    var r := Operate(SUB, f, a[0], b[0], w);
    var rest := RunChain(SBB, r.flags, a[1..], b[1..], w);
    SubLimb(f, a[0], b[0], w, false);
    SbbChainValue(r.flags, a[1..], b[1..], w);
    PrependDifference(LongSub(f, a, b, w), r, rest, a, b, w, 0);
    ChainLimbs(SBB, r.flags, a[1..], b[1..], w);
    LimbCons(r.value, rest.limbs, w);
  }

  /** ADD followed by a chain of ADC is exact integer addition: the limbs are
      the sum modulo the size of the number, and the final CF is set exactly
      when the sum does not fit. No flag of the starting state matters. */
  lemma LongAddExact(f: Flags, a: seq<U32>, b: seq<U32>, w: Width)
    requires |a| == |b| > 0 && Limbs(a, w) && Limbs(b, w)
    ensures var c := LongAdd(f, a, b, w);
            && Value(c.limbs, w) == Value(a, w) + Value(b, w) - CarryOut(c.flags.cf, w, |a|)
            && (c.flags.cf <==> Value(a, w) + Value(b, w) >= Power(w, |a|))
  {
    hide LongAdd, Limbs, Value, Power;
    LongAddValue(f, a, b, w);
    ValueBound(LongAdd(f, a, b, w).limbs, w);
  }

  /** SUB followed by a chain of SBB is exact integer subtraction, with the
      final CF as the borrow: set exactly when a < b. */
  lemma LongSubExact(f: Flags, a: seq<U32>, b: seq<U32>, w: Width)
    requires |a| == |b| > 0 && Limbs(a, w) && Limbs(b, w)
    ensures var c := LongSub(f, a, b, w);
            && Value(c.limbs, w) == Value(a, w) - Value(b, w) + CarryOut(c.flags.cf, w, |a|)
            && (c.flags.cf <==> Value(a, w) < Value(b, w))
  {
    hide LongSub, Limbs, Value, Power;
    LongSubValue(f, a, b, w);
    ValueBound(LongSub(f, a, b, w).limbs, w);
  }

  // ---- logic, bit by bit ----------------------------------------------------------------

  /** Bit k of a number: whether it is odd after k halvings. */
  predicate BitAt(v: nat, k: nat)
    decreases k
  {
    if k == 0 then v % 2 == 1 else BitAt(v / 2, k - 1)
  }

  function Bits(w: Width): nat { match w case W8 => 8 case W16 => 16 case W32 => 32 }

  function Pow2(k: nat): nat { if k == 0 then 1 else 2 * Pow2(k - 1) }

  /** The number that the k low bits of v make, and what is left above them. */
  function LowBits(v: nat, k: nat): nat
    decreases k
  {
    if k == 0 then 0 else v % 2 + 2 * LowBits(v / 2, k - 1)
  }

  function HighBits(v: nat, k: nat): nat { if k == 0 then v else HighBits(v / 2, k - 1) }

  lemma {:induction false} BitwiseAt(op: BitOp, a: nat, b: nat, n: nat, k: nat)
    requires k < n
    ensures op == And ==> (BitAt(Bitwise(op, a, b, n), k) <==> BitAt(a, k) && BitAt(b, k))
    ensures op == Or ==> (BitAt(Bitwise(op, a, b, n), k) <==> BitAt(a, k) || BitAt(b, k))
    ensures op == Xor ==> (BitAt(Bitwise(op, a, b, n), k) <==> BitAt(a, k) != BitAt(b, k))
    decreases k
  {
    assert Bitwise(op, a, b, n) / 2 == Bitwise(op, a / 2, b / 2, n - 1);
    if k > 0 { BitwiseAt(op, a / 2, b / 2, n - 1, k - 1); }
  }

  lemma {:induction false} LowBitsAt(v: nat, n: nat, k: nat)
    requires k < n
    ensures BitAt(LowBits(v, n), k) <==> BitAt(v, k)
    decreases k
  {
    assert LowBits(v, n) / 2 == LowBits(v / 2, n - 1);
    if k > 0 { LowBitsAt(v / 2, n - 1, k - 1); }
  }

  lemma {:induction false} LowHigh(v: nat, k: nat)
    ensures v == LowBits(v, k) + Pow2(k) * HighBits(v, k) && LowBits(v, k) < Pow2(k)
    decreases k
  {
    if k > 0 {
      LowHigh(v / 2, k - 1);
      OneMoreBit(v, LowBits(v / 2, k - 1), Pow2(k - 1), HighBits(v / 2, k - 1));
    }
  }

  lemma OneMoreBit(v: nat, l: nat, p: nat, h: nat)
    requires v / 2 == l + p * h && l < p
    ensures v == (v % 2 + 2 * l) + (2 * p) * h && v % 2 + 2 * l < 2 * p
  {
    assert (2 * p) * h == 2 * (p * h);
    assert v == 2 * (v / 2) + v % 2;
  }

  lemma PowersOfTwo()
    ensures Pow2(8) == 0x100 && Pow2(16) == 0x1_0000 && Pow2(32) == 0x1_0000_0000
  {
    assert Pow2(8) == 2 * Pow2(7) == 4 * Pow2(6) == 8 * Pow2(5) == 16 * Pow2(4) == 32 * Pow2(3);
    NextByte(8);
    NextByte(16);
    NextByte(24);
  }

  lemma NextByte(k: nat)
    ensures Pow2(k + 8) == 0x100 * Pow2(k)
  {
    assert Pow2(k + 8) == 2 * Pow2(k + 7) == 4 * Pow2(k + 6) == 8 * Pow2(k + 5) == 16 * Pow2(k + 4);
    assert Pow2(k + 4) == 2 * Pow2(k + 3) == 4 * Pow2(k + 2) == 8 * Pow2(k + 1) == 16 * Pow2(k);
  }

  /** What `Truncate` keeps are the low bits. */
  lemma TruncateLow(v: nat, w: Width)
    ensures Truncate(v, w) == LowBits(v, Bits(w)) && Modulus(w) == Pow2(Bits(w))
  {
    hide Pow2, LowBits, HighBits;
    PowersOfTwo();
    var l, h := LowBits(v, Bits(w)), HighBits(v, Bits(w));
    LowHigh(v, Bits(w));
    match w {
      case W8 => assert v == l + 0x100 * h;
      case W16 => assert v == l + 0x1_0000 * h;
      case W32 => assert v == l + 0x1_0000_0000 * h;
    }
  }

  /** AND, OR and XOR at every width: each bit of the result is told from the bits of
      the operands at its place, CF, OF and AF are clear, ZF marks a result
      without bits and SF is its highest bit. */
  lemma LogicBits(kind: nat, f: Flags, a: U32, b: U32, w: Width, k: nat)
    requires (kind == 1 || kind == 4 || kind == 6) && k < Bits(w)
    ensures var r := Operate(kind, f, a, b, w);
            && (kind == 1 ==> (BitAt(r.value, k) <==> BitAt(a, k) || BitAt(b, k)))
            && (kind == 4 ==> (BitAt(r.value, k) <==> BitAt(a, k) && BitAt(b, k)))
            && (kind == 6 ==> (BitAt(r.value, k) <==> BitAt(a, k) != BitAt(b, k)))
            && !r.flags.cf && !r.flags.of && !r.flags.af && (r.flags.zf <==> r.value == 0)
            && (r.flags.sf <==> r.value >= SignWeight(w))
  {
    hide Bitwise, BitAt, LowBits, Truncate, Modulus, Parity8;
    var op := if kind == 1 then Or else if kind == 4 then And else Xor;
    BitwiseAt(op, a, b, 32, k);
    var v := Bitwise(op, a, b, 32);
    TruncateLow(v, w);
    LowBitsAt(v, Bits(w), k);
  }

  /** A number below 2^n without bits is 0. */
  lemma {:induction false} OnlyZero(v: nat, n: nat)
    requires v < Pow2(n) && forall k :: 0 <= k < n ==> !BitAt(v, k)
    ensures v == 0
    decreases n
  {
    if n > 0 {
      assert !BitAt(v, 0);
      forall k | 0 <= k < n - 1 ensures !BitAt(v / 2, k) { assert !BitAt(v, k + 1); }
      OnlyZero(v / 2, n - 1);
    }
  }

  /** `xor r, r` clears the register and sets ZF. */
  lemma XorSelf(f: Flags, a: U32)
    ensures Operate(6, f, a, a, W32).value == 0 && Operate(6, f, a, a, W32).flags.zf
  {
    hide Operate, BitAt, Pow2;
    var v := Operate(6, f, a, a, W32).value;
    LogicBits(6, f, a, a, W32, 0);
    PowersOfTwo();
    forall k | 0 <= k < 32 ensures !BitAt(v, k) { LogicBits(6, f, a, a, W32, k); }
    OnlyZero(v, 32);
  }

  /** Whether an odd number of the n bits of v from bit i on is set. */
  ghost predicate OddFrom(v: nat, i: nat, n: nat)
    decreases n
  {
    n > 0 && BitAt(v, i) != OddFrom(v, i + 1, n - 1)
  }

  lemma {:induction false} NextHigh(v: nat, i: nat)
    ensures HighBits(v, i + 1) == HighBits(v, i) / 2 && (HighBits(v, i) % 2 == 1 <==> BitAt(v, i))
    decreases i
  {
    if i > 0 { NextHigh(v / 2, i - 1); }
  }

  lemma {:induction false} OnesOdd(v: nat, i: nat, n: nat)
    ensures Ones(HighBits(v, i), n) % 2 == Bit(OddFrom(v, i, n))
    decreases n
  {
    hide HighBits, BitAt;
    if n > 0 {
      NextHigh(v, i);
      OnesOdd(v, i + 1, n - 1);
    }
  }

  /** PF is set when an even number of bits of the low byte is. */
  lemma ParityBits(v: U32)
    ensures Parity8(v) <==>
              (((BitAt(v, 0) != BitAt(v, 1)) != (BitAt(v, 2) != BitAt(v, 3)))
               == ((BitAt(v, 4) != BitAt(v, 5)) != (BitAt(v, 6) != BitAt(v, 7))))
  {
    hide Ones, BitAt;
    OnesOdd(v, 0, 8);
    assert OddFrom(v, 6, 2) == (BitAt(v, 6) != BitAt(v, 7));
    assert OddFrom(v, 4, 4) == (BitAt(v, 4) != (BitAt(v, 5) != OddFrom(v, 6, 2)));
    assert OddFrom(v, 2, 6) == (BitAt(v, 2) != (BitAt(v, 3) != OddFrom(v, 4, 4)));
    assert OddFrom(v, 0, 8) == (BitAt(v, 0) != (BitAt(v, 1) != OddFrom(v, 2, 6)));
  }
}

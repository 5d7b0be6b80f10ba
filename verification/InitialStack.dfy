/** The initial process stack: `setupInitialStack` of src/elf.js lays it out and
    `_readCStringArray` of src/syscalls.js reads its arrays back. */
module InitialStack {
  import opened Words
  import opened Buffers
  import opened FlatMemory
  import opened Regions

  /** The longest string `readCString` looks through, and the most entries an array
      has for `_readCStringArray`. */
  const MAX_STRING: nat := 0x10_0000
  const MAX_ARRAY: nat := 4096

  // ---- reading back ---------------------------------------------------------------------

  /** `readCString` from byte i on; None where it faults or finds no end. */
  function ReadCStringFrom(m: Memory, a: U32, i: nat, max: nat): Option<Bytes>
    decreases max - i
  {
    if i >= max then None
    else match Read8(m, At(a, i))
      case None => None
      case Some(b) =>
        if b == 0 then Some([])
        else match ReadCStringFrom(m, a, i + 1, max)
          case None => None
          case Some(s) => Some([b] + s)
  }

  function ReadCString(m: Memory, a: U32): Option<Bytes> { ReadCStringFrom(m, a, 0, MAX_STRING) }

  /** The loop of `_readCStringArray` from entry i on. */
  function ReadArrayFrom(m: Memory, p: U32, i: nat, max: nat): Option<seq<Bytes>>
    decreases max - i
  {
    if i >= max then Some([])
    else match Read32(m, At(p, 4 * i))
      case None => None
      case Some(q) =>
        if q == 0 then Some([])
        else match (ReadCString(m, q), ReadArrayFrom(m, p, i + 1, max))
          case (Some(s), Some(rest)) => Some([s] + rest)
          case _ => None
  }

  function ReadCStringArray(m: Memory, p: U32): Option<seq<Bytes>> {
    if p == 0 then Some([]) else ReadArrayFrom(m, p, 0, MAX_ARRAY)
  }

  lemma {:induction false} ReadCStringFromHeld(m: Memory, a: U32, s: Bytes, i: nat, max: nat)
    requires Holds(m, a, s + [0]) && NoNul(s) && i <= |s|
    ensures ReadCStringFrom(m, a, i, max) == if |s| < max then Some(s[i..]) else None
    decreases |s| - i
  {
    hide Read8;
    NoWrap(a, i);
    assert (s + [0])[i] == if i < |s| then s[i] else 0;
    assert Read8(m, a + i) == Some((s + [0])[i]);
    if i < |s| {
      ReadCStringFromHeld(m, a, s, i + 1, max);
      assert s[i..] == [s[i]] + s[i + 1..];
    }
  }

  /** A NUL-terminated string reads back, unless it has 2^20 bytes or more. */
  lemma ReadCStringHeld(m: Memory, a: U32, s: Bytes)
    requires Holds(m, a, s + [0]) && NoNul(s)
    ensures ReadCString(m, a) == if |s| < 0x10_0000 then Some(s) else None
  {
    ReadCStringFromHeld(m, a, s, 0, MAX_STRING);
    assert s[0..] == s;
  }

  predicate AllNoNul(strs: seq<Bytes>) { forall i :: 0 <= i < |strs| ==> NoNul(strs[i]) }

  /** None of the strings from number `from` to just below `to` is too long to read. */
  predicate AllShort(strs: seq<Bytes>, from: nat, to: nat) {
    forall i :: from <= i < to && i < |strs| ==> |strs[i]| < MAX_STRING
  }

  /** Pointers to the strings, one word after another from p on, and a zero word. */
  ghost predicate ArrayAt(m: Memory, p: U32, strs: seq<Bytes>, ptrs: seq<U32>) {
    && |ptrs| == |strs| && p + 4 * |strs| + 4 <= TWO32
    && (forall i :: 0 <= i < |strs| ==> WordAt(m, p, i, ptrs[i]) && ptrs[i] != 0 && Holds(m, ptrs[i], strs[i] + [0]))
    && WordAt(m, p, |strs|, 0)
  }

  ghost predicate WordAt(m: Memory, p: U32, i: nat, v: U32) { Read32(m, At(p, 4 * i)) == Some(v) }

  function First(strs: seq<Bytes>, from: nat, to: nat): seq<Bytes>
    requires from <= |strs|
  {
    if to < from then [] else if to <= |strs| then strs[from..to] else strs[from..]
  }

  lemma {:induction false} ReadArrayFromHeld(m: Memory, p: U32, strs: seq<Bytes>, ptrs: seq<U32>, i: nat, max: nat)
    requires ArrayAt(m, p, strs, ptrs) && AllNoNul(strs) && i <= |strs|
    ensures ReadArrayFrom(m, p, i, max) == if AllShort(strs, i, max) then Some(First(strs, i, max)) else None
    decreases |strs| - i
  {
    hide Read32, ReadCString, Holds, NoNul, ArrayAt, AllNoNul, AllShort, First, At;
    FirstSteps(strs, i, max);
    ShortSteps(strs, i, max);
    if i < max {
      if i < |strs| {
        EntryOf(m, p, strs, ptrs, i);
        ReadArrayFromHeld(m, p, strs, ptrs, i + 1, max);
      } else {
        assert WordAt(m, p, i, 0) by { EndOf(m, p, strs, ptrs); }
      }
    }
  }

  lemma ShortSteps(strs: seq<Bytes>, i: nat, max: nat)
    requires i <= |strs|
    ensures AllShort(strs, i, max) <==>
              (i < max && i < |strs| ==> |strs[i]| < MAX_STRING && AllShort(strs, i + 1, max))
  {
  }

  lemma FirstSteps(strs: seq<Bytes>, i: nat, max: nat)
    requires i <= |strs|
    ensures First(strs, i, max) == if i < max && i < |strs| then [strs[i]] + First(strs, i + 1, max) else []
  {
  }

  lemma EntryOf(m: Memory, p: U32, strs: seq<Bytes>, ptrs: seq<U32>, i: nat)
    requires ArrayAt(m, p, strs, ptrs) && AllNoNul(strs) && i < |strs|
    ensures |ptrs| == |strs| && Read32(m, At(p, 4 * i)) == Some(ptrs[i]) && ptrs[i] != 0
    ensures ReadCString(m, ptrs[i]) == if |strs[i]| < MAX_STRING then Some(strs[i]) else None
  {
    hide Read32, ReadCString, Holds, NoNul;
    assert WordAt(m, p, i, ptrs[i]);
    ReadCStringHeld(m, ptrs[i], strs[i]);
  }

  lemma EndOf(m: Memory, p: U32, strs: seq<Bytes>, ptrs: seq<U32>)
    requires ArrayAt(m, p, strs, ptrs)
    ensures WordAt(m, p, |strs|, 0)
  {
  }

  /** What comes back of an array: at most 4096 strings, and nothing at all if one of
      those is too long. */
  function ArrayRead(strs: seq<Bytes>): Option<seq<Bytes>> {
    if AllShort(strs, 0, MAX_ARRAY) then Some(First(strs, 0, MAX_ARRAY)) else None
  }

  lemma ReadCStringArrayHeld(m: Memory, p: U32, strs: seq<Bytes>, ptrs: seq<U32>)
    requires p != 0 && ArrayAt(m, p, strs, ptrs) && AllNoNul(strs)
    ensures ReadCStringArray(m, p) == ArrayRead(strs)
  {
    ReadArrayFromHeld(m, p, strs, ptrs, 0, MAX_ARRAY);
  }

  /** An array of NUL-free strings reads back as it is if and only if it has at most
      4096 of them, each shorter than 2^20 bytes. */
  lemma ReadCStringArrayIff(m: Memory, p: U32, strs: seq<Bytes>, ptrs: seq<U32>)
    requires p != 0 && ArrayAt(m, p, strs, ptrs) && AllNoNul(strs)
    ensures ReadCStringArray(m, p) == Some(strs) <==>
              |strs| <= 4096 && forall i :: 0 <= i < |strs| ==> |strs[i]| < 0x10_0000
  {
    ReadCStringArrayHeld(m, p, strs, ptrs);
    if |strs| <= MAX_ARRAY { assert First(strs, 0, MAX_ARRAY) == strs; }
    else { assert |First(strs, 0, MAX_ARRAY)| == MAX_ARRAY; }
  }

  // ---- laying out -----------------------------------------------------------------------

  /** The stack being built: `ok` until a store faults. */
  datatype Stack = Stack(ok: bool, mem: Memory, sp: U32)

  /** `putBytes`. */
  function PutBytes(s: Stack, bytes: Bytes): Stack {
    if !s.ok then s
    else
      var sp := At(s.sp, 0 - |bytes|);
      var st := WriteBytes(s.mem, sp, bytes);
      Stack(st.ok, st.mem, sp)
  }

  function PutString(s: Stack, str: Bytes): Stack { PutBytes(s, str + [0]) }

  /** `cpu.push32`. */
  function Push(s: Stack, v: U32): Stack {
    if !s.ok then s
    else
      var sp := At(s.sp, -4);
      var st := Write32(s.mem, sp, v);
      Stack(st.ok, st.mem, sp)
  }

  datatype Put = Put(s: Stack, ptrs: seq<U32>)

  /** The strings from the last to the first, each below the one before. */
  function PutStrings(s: Stack, strs: seq<Bytes>): (r: Put)
    ensures |r.ptrs| == |strs|
    decreases |strs|
  {
    if strs == [] then Put(s, [])
    else
      var n := |strs| - 1;
      var s1 := PutString(s, strs[n]);
      var rest := PutStrings(s1, strs[..n]);
      Put(rest.s, rest.ptrs + [s1.sp])
  }

  /** Words from the last to the first. */
  function PushAll(s: Stack, words: seq<U32>): Stack
    decreases |words|
  {
    if words == [] then s else PushAll(Push(s, words[|words| - 1]), words[..|words| - 1])
  }

  /** What the caller passes in. */
  datatype Options = Options(stackTop: U32, argv: seq<Bytes>, env: seq<Bytes>, auxv: seq<(U32, U32)>, random: Bytes,
                             phdrAddr: U32, phent: U32, phnum: U32, base: U32, entry: U32, uid: U32, gid: U32)

  const I686: Bytes := [0x69, 0x36, 0x38, 0x36]
  const EMULATED: Bytes := [0x65, 0x6d, 0x75, 0x6c, 0x61, 0x74, 0x65, 0x64]

  /** `argv[0] ?? "emulated"`. */
  function ExecName(o: Options): Bytes { if o.argv == [] then EMULATED else o.argv[0] }

  /** Where the strings went. */
  datatype Strings = Strings(s: Stack, random: U32, platform: U32, execfn: U32, args: seq<U32>, envs: seq<U32>)

  function PutAllStrings(m: Memory, o: Options): (r: Strings)
    ensures |r.args| == |o.argv| && |r.envs| == |o.env|
  {
    var s1 := PutBytes(Stack(true, m, o.stackTop), o.random);
    var s2 := PutString(s1, I686);
    var s3 := PutString(s2, ExecName(o));
    var args := PutStrings(s3, o.argv);
    var envs := PutStrings(args.s, o.env);
    Strings(envs.s, s1.sp, s2.sp, s3.sp, args.ptrs, envs.ptrs)
  }

  function DefaultAux(o: Options, t: Strings): seq<(U32, U32)> {
    [(3, o.phdrAddr), (4, o.phent), (5, o.phnum), (6, 4096), (7, o.base), (8, 0), (9, o.entry), (11, o.uid), (12, o.uid),
     (13, o.gid), (14, o.gid), (17, 100), (25, t.random), (15, t.platform), (31, t.execfn)]
  }

  function Aux(o: Options, t: Strings): seq<(U32, U32)> { o.auxv + DefaultAux(o, t) + [(0, 0)] }

  function Flatten2(pairs: seq<(U32, U32)>): (words: seq<U32>)
    ensures |words| == 2 * |pairs|
    ensures forall i :: 0 <= i < |pairs| ==> words[2 * i] == pairs[i].0 && words[2 * i + 1] == pairs[i].1
  {
    if pairs == [] then []
    else
      var n := |pairs| - 1;
      Flatten2(pairs[..n]) + [pairs[n].0, pairs[n].1]
  }

  /** The words of the stack, from the one ESP ends up at. */
  function StackWords(o: Options, t: Strings): (w: seq<U32>)
    ensures |w| == 1 + |t.args| + 1 + |t.envs| + 1 + 2 * |Aux(o, t)|
  {
    [Wrap(|t.args|)] + t.args + [0] + t.envs + [0] + Flatten2(Aux(o, t))
  }

  /** `sp &= ~0xf`. */
  function Align(s: Stack): Stack { s.(sp := s.sp - s.sp % 16) }

  /** `setupInitialStack`. */
  function Setup(m: Memory, o: Options): Stack {
    var t := PutAllStrings(m, o);
    PushAll(Align(t.s), StackWords(o, t))
  }

  // ---- what the layout holds ------------------------------------------------------------

  /** The bytes that strings with their terminators take. */
  function Size(strs: seq<Bytes>): nat {
    if strs == [] then 0 else Size(strs[..|strs| - 1]) + |strs[|strs| - 1]| + 1
  }

  /** How far down the strings reach, and then ESP, if nothing wraps. */
  function StringsSp(o: Options): int {
    o.stackTop - |o.random| - (|I686| + 1) - (|ExecName(o)| + 1) - Size(o.argv) - Size(o.env)
  }

  function WordCount(o: Options): nat { 3 + |o.argv| + |o.env| + 2 * (|o.auxv| + 16) }

  function FinalSp(o: Options): int { StringsSp(o) - StringsSp(o) % 16 - 4 * WordCount(o) }

  /** The whole layout lies in memory mapped readable and writable. */
  ghost predicate Fits(m: Memory, o: Options) { Owned(m, FinalSp(o), o.stackTop) }

  ghost predicate Room(s: Stack, lo: int) { s.ok && lo <= s.sp && Owned(s.mem, lo, s.sp) }

  /** s' came from s by storing below the stack pointer of s. */
  ghost predicate Grown(s: Stack, s': Stack) { s'.ok && s'.sp <= s.sp && Rewrites(s.mem, s'.mem, s'.sp, s.sp) }

  lemma GrownTrans(s0: Stack, s1: Stack, s2: Stack)
    requires Grown(s0, s1) && Grown(s1, s2)
    ensures Grown(s0, s2)
  {
    hide Rewrites;
    RewritesWider(s0.mem, s1.mem, s1.sp, s0.sp, s2.sp, s0.sp);
    RewritesWider(s1.mem, s2.mem, s2.sp, s1.sp, s2.sp, s0.sp);
    RewritesTrans(s0.mem, s1.mem, s2.mem, s2.sp, s0.sp);
  }

  lemma RoomLeft(s: Stack, s': Stack, lo: int)
    requires Room(s, lo) && Grown(s, s') && lo <= s'.sp
    ensures Room(s', lo)
  {
    OwnedKept(s.mem, s'.mem, lo, s.sp);
    OwnedPart(s'.mem, lo, s.sp, lo, s'.sp);
  }

  lemma StillHeld(s: Stack, s': Stack, a: int, bytes: Bytes)
    requires Grown(s, s') && s.sp <= a && Holds(s.mem, a, bytes)
    ensures Holds(s'.mem, a, bytes)
  {
    HoldsKept(s.mem, s'.mem, s'.sp, s.sp, a, bytes);
  }

  lemma PutBytesDone(s: Stack, bytes: Bytes, lo: int)
    requires Room(s, lo) && lo <= s.sp - |bytes|
    ensures var r := PutBytes(s, bytes);
            Room(r, lo) && Grown(s, r) && r.sp == s.sp - |bytes| && Holds(r.mem, r.sp, bytes)
  {
    hide Rewrites, Owned, Holds, WriteBytes;
    var r := PutBytes(s, bytes);
    RoomAbove(s, lo);
    NoWrap(s.sp, 0 - |bytes|);
    OwnedPart(s.mem, lo, s.sp, r.sp, s.sp);
    WriteBytesDone(s.mem, r.sp, bytes);
    RoomLeft(s, r, lo);
  }

  lemma RoomAbove(s: Stack, lo: int)
    requires Room(s, lo)
    ensures 0 <= lo
  {
  }

  lemma PushDone(s: Stack, v: U32, lo: int)
    requires Room(s, lo) && lo <= s.sp - 4
    ensures var r := Push(s, v);
            Room(r, lo) && Grown(s, r) && r.sp == s.sp - 4 && Holds(r.mem, r.sp, WordBytes(v))
  {
    hide WriteBytes, Holds, Room, Grown;
    Write32IsBytes(s.mem, At(s.sp, -4), v);
    PutBytesDone(s, WordBytes(v), lo);
    assert Push(s, v) == PutBytes(s, WordBytes(v));
  }

  ghost predicate StringsAt(m: Memory, lo: int, strs: seq<Bytes>, ptrs: seq<U32>) {
    |ptrs| == |strs| && forall i :: 0 <= i < |strs| ==> lo <= ptrs[i] && Holds(m, ptrs[i], strs[i] + [0])
  }

  lemma StringsKept(s: Stack, s': Stack, strs: seq<Bytes>, ptrs: seq<U32>)
    requires StringsAt(s.mem, s.sp, strs, ptrs) && Grown(s, s')
    ensures StringsAt(s'.mem, s.sp, strs, ptrs)
  {
    hide Grown, Holds;
    forall i | 0 <= i < |strs| ensures Holds(s'.mem, ptrs[i], strs[i] + [0]) {
      StillHeld(s, s', ptrs[i], strs[i] + [0]);
    }
  }

  lemma {:induction false} PutStringsDone(s: Stack, strs: seq<Bytes>, lo: int)
    requires Room(s, lo) && lo <= s.sp - Size(strs)
    ensures var r := PutStrings(s, strs);
            Room(r.s, lo) && Grown(s, r.s) && r.s.sp == s.sp - Size(strs) && StringsAt(r.s.mem, r.s.sp, strs, r.ptrs)
    decreases |strs|
  {
    hide Room, Grown, Holds, PutString;
    if strs == [] {
      GrownSelf(s, lo);
    } else {
      var n := |strs| - 1;
      var s1 := PutString(s, strs[n]);
      PutStringDone(s, strs[n], lo);
      PutStringsDone(s1, strs[..n], lo);
      var rest := PutStrings(s1, strs[..n]);
      GrownTrans(s, s1, rest.s);
      StillHeld(s1, rest.s, s1.sp, strs[n] + [0]);
      assert rest.s.sp <= s1.sp;
    }
  }

  lemma PutStringDone(s: Stack, str: Bytes, lo: int)
    requires Room(s, lo) && lo <= s.sp - (|str| + 1)
    ensures var r := PutString(s, str);
            Room(r, lo) && Grown(s, r) && r.sp == s.sp - (|str| + 1) && Holds(r.mem, r.sp, str + [0])
  {
    hide Room, Grown, Holds, PutBytes;
    PutBytesDone(s, str + [0], lo);
  }

  lemma GrownSelf(s: Stack, lo: int)
    requires Room(s, lo)
    ensures Grown(s, s)
  {
  }

  ghost predicate WordsAt(m: Memory, a: int, words: seq<U32>) {
    forall i :: 0 <= i < |words| ==> Holds(m, a + 4 * i, WordBytes(words[i]))
  }

  lemma {:induction false} PushAllDone(s: Stack, words: seq<U32>, lo: int)
    requires Room(s, lo) && lo <= s.sp - 4 * |words|
    ensures var r := PushAll(s, words);
            Grown(s, r) && r.sp == s.sp - 4 * |words| && WordsAt(r.mem, r.sp, words)
    decreases |words|
  {
    hide Room, Grown, Holds, Push, WordBytes;
    if words == [] {
      GrownSelf(s, lo);
    } else {
      var n := |words| - 1;
      var s1 := Push(s, words[n]);
      PushDone(s, words[n], lo);
      PushAllDone(s1, words[..n], lo);
      var r := PushAll(s1, words[..n]);
      GrownTrans(s, s1, r);
      StillHeld(s1, r, s1.sp, WordBytes(words[n]));
    }
  }

  /** Everything `PutAllStrings` has put somewhere, from lo up. */
  ghost predicate AllStringsAt(m: Memory, lo: int, o: Options, t: Strings) {
    && lo <= t.random && Holds(m, t.random, o.random)
    && lo <= t.platform && Holds(m, t.platform, I686 + [0])
    && lo <= t.execfn && Holds(m, t.execfn, ExecName(o) + [0])
    && StringsAt(m, lo, o.argv, t.args) && StringsAt(m, lo, o.env, t.envs)
  }

  lemma StringsLower(m: Memory, lo: int, lo': int, strs: seq<Bytes>, ptrs: seq<U32>)
    requires StringsAt(m, lo, strs, ptrs) && lo' <= lo
    ensures StringsAt(m, lo', strs, ptrs)
  {
  }

  lemma AllStringsDone(m: Memory, o: Options)
    requires Fits(m, o)
    ensures var t := PutAllStrings(m, o);
            && Room(t.s, FinalSp(o)) && Grown(Stack(true, m, o.stackTop), t.s) && t.s.sp == StringsSp(o)
            && AllStringsAt(t.s.mem, t.s.sp, o, t)
  {
    hide Room, Grown, Holds, PutBytes, PutString, Owned, StringsAt;
    var lo, s0 := FinalSp(o), Stack(true, m, o.stackTop);
    Start(m, o);
    var (s1, s2, s3) := (PutBytes(s0, o.random), PutString(PutBytes(s0, o.random), I686),
                         PutString(PutString(PutBytes(s0, o.random), I686), ExecName(o)));
    PutBytesDone(s0, o.random, lo);
    PutStringDone(s1, I686, lo);
    PutStringDone(s2, ExecName(o), lo);
    var args := PutStrings(s3, o.argv);
    PutStringsDone(s3, o.argv, lo);
    var envs := PutStrings(args.s, o.env);
    PutStringsDone(args.s, o.env, lo);
    GrownTrans(s3, args.s, envs.s);
    GrownTrans(s2, s3, envs.s);
    GrownTrans(s1, s2, envs.s);
    GrownTrans(s0, s1, envs.s);
    StillHeld(s1, envs.s, s1.sp, o.random);
    StillHeld(s2, envs.s, s2.sp, I686 + [0]);
    StillHeld(s3, envs.s, s3.sp, ExecName(o) + [0]);
    StringsKept(args.s, envs.s, o.argv, args.ptrs);
    StringsLower(envs.s.mem, args.s.sp, envs.s.sp, o.argv, args.ptrs);
  }

  lemma Start(m: Memory, o: Options)
    requires Fits(m, o)
    ensures Room(Stack(true, m, o.stackTop), FinalSp(o)) && 0 <= FinalSp(o) <= StringsSp(o)
  {
    assert StringsSp(o) - StringsSp(o) % 16 <= StringsSp(o);
  }

  lemma AlignDone(s: Stack, lo: int)
    requires Room(s, lo) && lo <= s.sp - s.sp % 16
    ensures Room(Align(s), lo) && Grown(s, Align(s))
  {
  }

  /** The words of the stack by their place. */
  lemma WordPlaces(o: Options, t: Strings)
    ensures var w, n, k := StackWords(o, t), |t.args|, |t.envs|;
            && w[0] == Wrap(n)
            && (forall i :: 0 <= i < n ==> w[1 + i] == t.args[i]) && w[1 + n] == 0
            && (forall i :: 0 <= i < k ==> w[n + 2 + i] == t.envs[i]) && w[n + 2 + k] == 0
            && (forall j :: 0 <= j < 2 * |Aux(o, t)| ==> w[n + k + 3 + j] == Flatten2(Aux(o, t))[j])
  {
    hide Flatten2, Aux, Wrap;
    var n, k := |t.args|, |t.envs|;
    var front := [Wrap(n)] + t.args + [0];
    var flat := Flatten2(Aux(o, t));
    assert StackWords(o, t) == front + (t.envs + [0] + flat);
    assert StackWords(o, t) == (front + t.envs + [0]) + flat;
  }

  /** One word of the layout, read. */
  lemma WordRead(m: Memory, sp: U32, words: seq<U32>, i: nat)
    requires WordsAt(m, sp, words) && i < |words|
    ensures sp + 4 * i + 4 <= TWO32 && Read32(m, sp + 4 * i) == Some(words[i]) && At(sp, 4 * i) == sp + 4 * i
  {
    hide Read32, WordBytes;
    assert Holds(m, sp + 4 * i, WordBytes(words[i]));
    HoldsWord(m, sp + 4 * i, words[i]);
    NoWrap(sp, 4 * i);
  }

  lemma WordReadAt(m: Memory, sp: U32, words: seq<U32>, first: nat, i: nat)
    requires WordsAt(m, sp, words) && first + i < |words|
    ensures At(sp, 4 * first) == sp + 4 * first && WordAt(m, At(sp, 4 * first), i, words[first + i])
    ensures sp + 4 * first + 4 * i + 4 <= TWO32
  {
    hide Read32, WordsAt;
    WordRead(m, sp, words, first + i);
    WordRead(m, sp, words, first);
    NoWrap(sp + 4 * first, 4 * i);
  }

  /** A run of pointers among the words is an array of the strings they point to. */
  lemma ArrayPlaced(m: Memory, sp: U32, words: seq<U32>, first: nat, lo: int, strs: seq<Bytes>, ptrs: seq<U32>)
    requires WordsAt(m, sp, words) && first + |strs| < |words| && 0 < lo && StringsAt(m, lo, strs, ptrs)
    requires (forall i :: 0 <= i < |strs| ==> words[first + i] == ptrs[i]) && words[first + |strs|] == 0
    ensures ArrayAt(m, At(sp, 4 * first), strs, ptrs)
  {
    hide WordAt, Holds, WordsAt, At;
    WordReadAt(m, sp, words, first, |strs|);
    forall i | 0 <= i < |strs| ensures WordAt(m, At(sp, 4 * first), i, ptrs[i]) {
      WordReadAt(m, sp, words, first, i);
    }
  }

  /** The whole layout, as it lies in memory. */
  ghost predicate LaidOut(m: Memory, esp: U32, o: Options, t: Strings) {
    && |t.args| == |o.argv| && |t.envs| == |o.env|
    && WordsAt(m, esp, StackWords(o, t)) && esp + 4 * WordCount(o) <= t.s.sp
    && AllStringsAt(m, t.s.sp, o, t)
  }

  lemma SetupLaidOut(m: Memory, o: Options)
    requires Fits(m, o)
    ensures var (r, t) := (Setup(m, o), PutAllStrings(m, o));
            && r.ok && r.sp == FinalSp(o) && Rewrites(m, r.mem, r.sp, o.stackTop)
            && LaidOut(r.mem, r.sp, o, t)
  {
    hide Room, Holds, Owned, StringsAt, Rewrites, StackWords, WordsAt, PushAll, PutAllStrings, Size, Align;
    AllStringsDone(m, o);
    Start(m, o);
    var t := PutAllStrings(m, o);
    var (s0, a) := (Stack(true, m, o.stackTop), Align(t.s));
    Aligned(t.s);
    AlignDone(t.s, FinalSp(o));
    PushAllDone(a, StackWords(o, t), FinalSp(o));
    var r := Setup(m, o);
    GrownTrans(t.s, a, r);
    GrownTrans(s0, t.s, r);
    AllStringsKept(t.s, r, o, t);
  }

  lemma Aligned(s: Stack)
    ensures Align(s).sp == s.sp - s.sp % 16 <= s.sp
  {
  }

  lemma AllStringsKept(s: Stack, s': Stack, o: Options, t: Strings)
    requires AllStringsAt(s.mem, s.sp, o, t) && Grown(s, s')
    ensures AllStringsAt(s'.mem, s.sp, o, t)
  {
    hide Grown, Holds, StringsAt;
    StillHeld(s, s', t.random, o.random);
    StillHeld(s, s', t.platform, I686 + [0]);
    StillHeld(s, s', t.execfn, ExecName(o) + [0]);
    StringsKept(s, s', o.argv, t.args);
    StringsKept(s, s', o.env, t.envs);
  }

  predicate NulFree(o: Options) { AllNoNul(o.argv) && AllNoNul(o.env) }

  lemma ArgvReadBack(m: Memory, esp: U32, o: Options, t: Strings)
    requires LaidOut(m, esp, o, t) && NulFree(o)
    ensures Read32(m, esp) == Some(Wrap(|o.argv|)) && |o.argv| < TWO32
    ensures ReadCStringArray(m, At(esp, 4)) == ArrayRead(o.argv)
  {
    hide Read32, StackWords, WordsAt, ReadCStringArray, AllNoNul, ArrayRead, StringsAt, Holds, ArrayAt, WordCount, At;
    var w := StackWords(o, t);
    Counts(o, t);
    WordPlaces(o, t);
    WordRead(m, esp, w, 0);
    WordRead(m, esp, w, 1);
    WordRead(m, esp, w, |o.argv| + 1);
    ArrayPlaced(m, esp, w, 1, t.s.sp, o.argv, t.args);
    ReadCStringArrayHeld(m, At(esp, 4), o.argv, t.args);
  }

  lemma Counts(o: Options, t: Strings)
    requires |t.args| == |o.argv| && |t.envs| == |o.env|
    ensures |StackWords(o, t)| == WordCount(o) == 3 + |o.argv| + |o.env| + 2 * |Aux(o, t)|
  {
  }

  lemma EnvReadBack(m: Memory, esp: U32, o: Options, t: Strings)
    requires LaidOut(m, esp, o, t) && NulFree(o)
    ensures ReadCStringArray(m, At(esp, 4 * (|o.argv| + 2))) == ArrayRead(o.env)
  {
    hide Read32, StackWords, WordsAt, ReadCStringArray, AllNoNul, ArrayRead, StringsAt, Holds, ArrayAt, WordCount, At;
    var w, first := StackWords(o, t), |o.argv| + 2;
    Counts(o, t);
    WordPlaces(o, t);
    WordRead(m, esp, w, first);
    ArrayPlaced(m, esp, w, first, t.s.sp, o.env, t.envs);
    ReadCStringArrayHeld(m, At(esp, 4 * first), o.env, t.envs);
  }

  lemma AuxReadBack(m: Memory, esp: U32, o: Options, t: Strings, i: nat)
    requires LaidOut(m, esp, o, t) && i < |Aux(o, t)|
    ensures var at := At(esp, 4 * (|o.argv| + |o.env| + 3));
            WordAt(m, at, 2 * i, Aux(o, t)[i].0) && WordAt(m, at, 2 * i + 1, Aux(o, t)[i].1)
  {
    hide Read32, StackWords, WordsAt, StringsAt, Holds, WordCount, At, WordAt, Aux;
    var w, first := StackWords(o, t), |o.argv| + |o.env| + 3;
    Counts(o, t);
    WordPlaces(o, t);
    assert Flatten2(Aux(o, t))[2 * i] == Aux(o, t)[i].0 && Flatten2(Aux(o, t))[2 * i + 1] == Aux(o, t)[i].1;
    WordReadAt(m, esp, w, first, 2 * i);
    WordReadAt(m, esp, w, first, 2 * i + 1);
  }

  /** How a program looks a key up in the auxiliary vector: pair by pair, up to the
      one of key 0 and at most n of them. */
  function AuxLookup(m: Memory, at: U32, key: U32, i: nat, n: nat): Option<U32>
    decreases n - i
  {
    if i >= n then None
    else
      match (Read32(m, At(at, 8 * i)), Read32(m, At(at, 8 * i + 4)))
      case (Some(k), Some(v)) =>
        if k == key then Some(v) else if k == 0 then None else AuxLookup(m, at, key, i + 1, n)
      case _ => None
  }

  /** The keys of the auxiliary vector with the values the kernel would give. */
  ghost predicate AuxValue(o: Options, t: Strings, key: U32, v: U32) {
    match key
    case 3 => v == o.phdrAddr
    case 4 => v == o.phent
    case 5 => v == o.phnum
    case 6 => v == PAGE
    case 7 => v == o.base
    case 8 => v == 0
    case 9 => v == o.entry
    case 11 => v == o.uid
    case 12 => v == o.uid
    case 13 => v == o.gid
    case 14 => v == o.gid
    case 15 => v == t.platform
    case 17 => v == 100
    case 25 => v == t.random
    case 31 => v == t.execfn
    case _ => false
  }

  /** A caller's own pairs come first and end with none of key 0. */
  predicate OwnPairs(o: Options) { forall i :: 0 <= i < |o.auxv| ==> o.auxv[i].0 != 0 }

  predicate InOwn(o: Options, key: U32) { exists i :: 0 <= i < |o.auxv| && o.auxv[i].0 == key }

  lemma {:induction false} AuxFound(m: Memory, at: U32, aux: seq<(U32, U32)>, key: U32, i: nat)
    requires forall j :: 0 <= j < |aux| ==> WordAt(m, at, 2 * j, aux[j].0) && WordAt(m, at, 2 * j + 1, aux[j].1)
    requires i <= |aux|
    ensures AuxLookup(m, at, key, i, |aux|) == FindPair(aux, key, i)
    decreases |aux| - i
  {
    hide Read32, At;
    if i < |aux| {
      assert WordAt(m, at, 2 * i, aux[i].0) && WordAt(m, at, 2 * i + 1, aux[i].1);
      AuxFound(m, at, aux, key, i + 1);
    }
  }

  function FindPair(aux: seq<(U32, U32)>, key: U32, i: nat): Option<U32>
    decreases |aux| - i
  {
    if i >= |aux| then None
    else if aux[i].0 == key then Some(aux[i].1)
    else if aux[i].0 == 0 then None
    else FindPair(aux, key, i + 1)
  }

  lemma {:induction false} FindSkips(own: seq<(U32, U32)>, more: seq<(U32, U32)>, key: U32, i: nat)
    requires i <= |own| && forall j :: i <= j < |own| ==> own[j].0 != 0 && own[j].0 != key
    ensures FindPair(own + more, key, i) == FindPair(more, key, 0)
    decreases |own| - i
  {
    if i == |own| { FindShift(own, more, key, 0); } else { FindSkips(own, more, key, i + 1); }
  }

  lemma {:induction false} FindShift(own: seq<(U32, U32)>, more: seq<(U32, U32)>, key: U32, i: nat)
    requires i <= |more|
    ensures FindPair(own + more, key, |own| + i) == FindPair(more, key, i)
    decreases |more| - i
  {
    if i < |more| {
      assert (own + more)[|own| + i] == more[i];
      FindShift(own, more, key, i + 1);
    }
  }

  lemma ConstantStrings()
    ensures NoNul(I686) && |I686| < MAX_STRING && NoNul(EMULATED) && |EMULATED| < MAX_STRING
  {
  }

  lemma NamesReadBack(m: Memory, esp: U32, o: Options, t: Strings)
    requires LaidOut(m, esp, o, t) && NulFree(o)
    ensures ReadCString(m, t.platform) == Some(I686)
    ensures ReadCString(m, t.execfn) == if |ExecName(o)| < MAX_STRING then Some(ExecName(o)) else None
    ensures Holds(m, t.random, o.random)
  {
    hide ReadCString, StackWords, WordsAt, StringsAt, Holds, NoNul, WordCount;
    ConstantStrings();
    ReadCStringHeld(m, t.platform, I686);
    ReadCStringHeld(m, t.execfn, ExecName(o));
  }

  /** The layout read back by the program: argc, the arguments, the environment and
      the auxiliary vector up to its (0, 0), with the pointers of the vector
      leading to the random bytes, the platform and the file name. Arrays come
      back as ArrayRead says: cut at 4096, and not at all with a string of 2^20
      bytes among those. No byte outside the stack changed. */
  lemma InitialStackReadBack(m: Memory, o: Options)
    requires Fits(m, o) && NulFree(o)
    ensures var (r, t) := (Setup(m, o), PutAllStrings(m, o));
            var (n, k, aux) := (|o.argv|, |o.env|, Aux(o, t));
            && r.ok && r.sp == FinalSp(o) && Rewrites(m, r.mem, r.sp, o.stackTop)
            && Read32(r.mem, r.sp) == Some(Wrap(n)) && n < TWO32
            && ReadCStringArray(r.mem, At(r.sp, 4)) == ArrayRead(o.argv)
            && ReadCStringArray(r.mem, At(r.sp, 4 * (n + 2))) == ArrayRead(o.env)
            && (forall i :: 0 <= i < |aux| ==>
                  && WordAt(r.mem, At(r.sp, 4 * (n + k + 3)), 2 * i, aux[i].0)
                  && WordAt(r.mem, At(r.sp, 4 * (n + k + 3)), 2 * i + 1, aux[i].1))
            && ReadCString(r.mem, t.platform) == Some([0x69, 0x36, 0x38, 0x36])
            && (var name := if o.argv == [] then [0x65, 0x6d, 0x75, 0x6c, 0x61, 0x74, 0x65, 0x64] else o.argv[0];
                ReadCString(r.mem, t.execfn) == if |name| < 0x10_0000 then Some(name) else None)
            && Holds(r.mem, t.random, o.random)
  {
    hide Fits, NulFree, Setup, PutAllStrings, FinalSp, Rewrites, Read32, ReadCStringArray, ReadCString, ArrayRead, Aux, At,
         WordAt, Holds, LaidOut, Wrap;
    SetupLaidOut(m, o);
    var (r, t) := (Setup(m, o), PutAllStrings(m, o));
    ArgvReadBack(r.mem, r.sp, o, t);
    EnvReadBack(r.mem, r.sp, o, t);
    NamesReadBack(r.mem, r.sp, o, t);
    forall i | 0 <= i < |Aux(o, t)|
      ensures WordAt(r.mem, At(r.sp, 4 * (|o.argv| + |o.env| + 3)), 2 * i, Aux(o, t)[i].0)
      ensures WordAt(r.mem, At(r.sp, 4 * (|o.argv| + |o.env| + 3)), 2 * i + 1, Aux(o, t)[i].1)
    {
      AuxReadBack(r.mem, r.sp, o, t, i);
    }
  }

  /** A program that looks a key up in the vector it was given finds the value that
      belongs to the key, or none; a pair of the caller's own goes first. */
  lemma AuxLooksUp(m: Memory, o: Options, key: U32)
    requires Fits(m, o) && NulFree(o) && OwnPairs(o) && !InOwn(o, key) && key != 0
    ensures var (r, t) := (Setup(m, o), PutAllStrings(m, o));
            var found := AuxLookup(r.mem, At(r.sp, 4 * (|o.argv| + |o.env| + 3)), key, 0, |Aux(o, t)|);
            if found.Some? then AuxValue(o, t, key, found.value) else forall v :: !AuxValue(o, t, key, v)
  {
    hide Fits, NulFree, Setup, PutAllStrings, FinalSp, Rewrites, Read32, ReadCStringArray, ReadCString, ArrayRead, At,
         WordAt, Holds, LaidOut, Wrap, FindPair, AuxLookup, DefaultAux, AuxValue;
    var (r, t) := (Setup(m, o), PutAllStrings(m, o));
    InitialStackReadBack(m, o);
    AuxFound(r.mem, At(r.sp, 4 * (|o.argv| + |o.env| + 3)), Aux(o, t), key, 0);
    var defaults := DefaultAux(o, t) + [(0, 0)];
    assert Aux(o, t) == o.auxv + defaults;
    FindSkips(o.auxv, defaults, key, 0);
    DefaultFound(o, t, key);
  }

  lemma {:induction false} FindFirst(aux: seq<(U32, U32)>, key: U32, k: nat, i: nat)
    requires i <= k < |aux| && aux[k].0 == key && forall j :: i <= j < k ==> aux[j].0 != key && aux[j].0 != 0
    ensures FindPair(aux, key, i) == Some(aux[k].1)
    decreases k - i
  {
    if i < k { FindFirst(aux, key, k, i + 1); }
  }

  lemma {:induction false} FindNone(aux: seq<(U32, U32)>, key: U32, i: nat)
    requires i <= |aux| && forall j :: i <= j < |aux| ==> aux[j].0 != key
    ensures FindPair(aux, key, i) == None
    decreases |aux| - i
  {
    if i < |aux| { FindNone(aux, key, i + 1); }
  }

  lemma DefaultPairs(o: Options, t: Strings)
    ensures var aux := DefaultAux(o, t) + [(0, 0)];
            && |aux| == 16 && aux[0].0 == 3 && aux[1].0 == 4 && aux[2].0 == 5 && aux[3].0 == 6 && aux[4].0 == 7
            && aux[5].0 == 8 && aux[6].0 == 9 && aux[7].0 == 11 && aux[8].0 == 12 && aux[9].0 == 13 && aux[10].0 == 14
            && aux[11].0 == 17 && aux[12].0 == 25 && aux[13].0 == 15 && aux[14].0 == 31 && aux[15].0 == 0
            && forall i :: 0 <= i < 15 ==> AuxValue(o, t, aux[i].0, aux[i].1)
  {
  }

  /** The values belong to the keys, and every key that has a value is there. */
  lemma DefaultFound(o: Options, t: Strings, key: U32)
    requires key != 0
    ensures var found := FindPair(DefaultAux(o, t) + [(0, 0)], key, 0);
            if found.Some? then AuxValue(o, t, key, found.value) else forall v :: !AuxValue(o, t, key, v)
  {
    hide FindPair, DefaultAux;
    var aux := DefaultAux(o, t) + [(0, 0)];
    DefaultPairs(o, t);
    if k :| 0 <= k < 15 && aux[k].0 == key { FindFirst(aux, key, k, 0); } else { FindNone(aux, key, 0); }
  }

  // ---- the code -------------------------------------------------------------------------

  /** A result with what was read before it in front. */
  function Onto<T>(front: seq<T>, r: Option<seq<T>>): Option<seq<T>> {
    match r case None => None case Some(s) => Some(front + s)
  }

  lemma CStringTurn(m: Memory, a: U32, front: Bytes, i: nat, max: nat)
    requires i < max
    ensures Onto(front, ReadCStringFrom(m, a, i, max))
         == match Read8(m, At(a, i))
            case None => None
            case Some(b) => if b == 0 then Some(front) else Onto(front + [b], ReadCStringFrom(m, a, i + 1, max))
  {
    hide Read8, At;
    assert front + [] == front;
    var (b, rest) := (Read8(m, At(a, i)), ReadCStringFrom(m, a, i + 1, max));
    assert b.Some? && rest.Some? ==> front + ([b.value] + rest.value) == (front + [b.value]) + rest.value;
  }

  lemma ArrayTurn(m: Memory, p: U32, front: seq<Bytes>, i: nat, max: nat)
    requires i < max
    ensures Onto(front, ReadArrayFrom(m, p, i, max))
         == match Read32(m, At(p, 4 * i))
            case None => None
            case Some(q) =>
              if q == 0 then Some(front)
              else match ReadCString(m, q)
                case None => None
                case Some(s) => Onto(front + [s], ReadArrayFrom(m, p, i + 1, max))
  {
    hide Read32, ReadCString, At;
    assert front + [] == front;
    var (q, rest) := (Read32(m, At(p, 4 * i)), ReadArrayFrom(m, p, i + 1, max));
    if q.Some? && rest.Some? {
      var s := ReadCString(m, q.value);
      assert s.Some? ==> front + ([s.value] + rest.value) == (front + [s.value]) + rest.value;
    }
  }

  lemma OntoNothing<T>(r: Option<seq<T>>)
    ensures Onto([], r) == r
  {
    assert r.Some? ==> [] + r.value == r.value;
  }

  lemma NoTurnLeft(m: Memory, a: U32, front: Bytes, strs: seq<Bytes>)
    ensures Onto(front, ReadCStringFrom(m, a, MAX_STRING, MAX_STRING)) == None
    ensures Onto(strs, ReadArrayFrom(m, a, MAX_ARRAY, MAX_ARRAY)) == Some(strs)
  {
    assert strs + [] == strs;
  }

  method ReadCStringLoop(m: Memory, a: U32) returns (r: Option<Bytes>)
    ensures r == ReadCString(m, a)
  {
    hide Read8, ReadCStringFrom, Onto, At;
    var bytes: Bytes := [];
    OntoNothing(ReadCString(m, a));
    for i := 0 to MAX_STRING
      invariant ReadCString(m, a) == Onto(bytes, ReadCStringFrom(m, a, i, MAX_STRING))
    {
      CStringTurn(m, a, bytes, i, MAX_STRING);
      var b := Read8(m, At(a, i));
      if b.None? { return None; }
      if b.value == 0 { return Some(bytes); }
      bytes := bytes + [b.value];
    }
    NoTurnLeft(m, a, bytes, []);
    r := None;
  }

  /** `_readCStringArray`. */
  method ReadCStringArrayLoop(m: Memory, p: U32) returns (r: Option<seq<Bytes>>)
    ensures r == ReadCStringArray(m, p)
  {
    hide Read32, ReadCString, ReadArrayFrom, Onto, At;
    var out: seq<Bytes> := [];
    if p == 0 { return Some(out); }
    OntoNothing(ReadArrayFrom(m, p, 0, MAX_ARRAY));
    for i := 0 to MAX_ARRAY
      invariant ReadCStringArray(m, p) == Onto(out, ReadArrayFrom(m, p, i, MAX_ARRAY))
    {
      ArrayTurn(m, p, out, i, MAX_ARRAY);
      var q := Read32(m, At(p, 4 * i));
      if q.None? { return None; }
      if q.value == 0 { return Some(out); }
      var s := ReadCStringLoop(m, q.value);
      if s.None? { return None; }
      out := out + [s.value];
    }
    NoTurnLeft(m, p, [], out);
    r := Some(out);
  }

  lemma {:induction false} PushAllAppend(s: Stack, a: seq<U32>, b: seq<U32>)
    ensures PushAll(s, a + b) == PushAll(PushAll(s, b), a)
    decreases |b|
  {
    hide Push;
    if b == [] {
      assert a + b == a;
    } else {
      var n := |b| - 1;
      assert (a + b)[|a + b| - 1] == b[n] && (a + b)[..|a + b| - 1] == a + b[..n];
      PushAllAppend(Push(s, b[n]), a, b[..n]);
    }
  }

  /** The processor's memory and ESP while the stack is laid out; `ok` becomes
      false when a store faults, and nothing happens after that. */
  class Builder {
    var ok: bool
    var mem: Memory
    var sp: U32

    constructor (mem: Memory, sp: U32)
      ensures State() == Stack(true, mem, sp)
    {
      ok, this.mem, this.sp := true, mem, sp;
    }

    ghost function State(): Stack
      reads this
    {
      Stack(ok, mem, sp)
    }

    method Bytes(bytes: Bytes) returns (at: U32)
      modifies this
      ensures State() == PutBytes(old(State()), bytes) && at == sp
    {
      if ok {
        sp := At(sp, 0 - |bytes|);
        var st := StoreBytes(mem, sp, bytes);
        ok, mem := st.ok, st.mem;
      }
      at := sp;
    }

    method Strings(strs: seq<Bytes>) returns (ptrs: seq<U32>)
      modifies this
      ensures var p := PutStrings(old(State()), strs); State() == p.s && ptrs == p.ptrs
    {
      hide PutBytes;
      ptrs := [];
      var i := |strs|;
      ghost var whole := PutStrings(State(), strs);
      assert strs[..i] == strs && whole.ptrs + ptrs == whole.ptrs;
      while i > 0
        invariant 0 <= i <= |strs|
        invariant var p := PutStrings(State(), strs[..i]); whole == Put(p.s, p.ptrs + ptrs)
      {
        i := i - 1;
        assert strs[..i + 1][..i] == strs[..i];
        ghost var before := State();
        var at := Bytes(strs[i] + [0]);
        ghost var p := PutStrings(State(), strs[..i]);
        assert (p.ptrs + [at]) + ptrs == p.ptrs + ([at] + ptrs);
        ptrs := [at] + ptrs;
      }
      assert strs[..0] == [] && [] + ptrs == ptrs;
    }

    method Push32(v: U32)
      modifies this
      ensures State() == Push(old(State()), v)
    {
      if ok {
        sp := At(sp, -4);
        var st := Write32(mem, sp, v);
        ok, mem := st.ok, st.mem;
      }
    }

    method PushWords(words: seq<U32>)
      modifies this
      ensures State() == PushAll(old(State()), words)
    {
      hide Push;
      var i := |words|;
      assert words[..i] == words;
      while i > 0
        invariant 0 <= i <= |words|
        invariant PushAll(old(State()), words) == PushAll(State(), words[..i])
      {
        i := i - 1;
        assert words[..i + 1][..i] == words[..i];
        Push32(words[i]);
      }
    }

    method PushPairs(pairs: seq<(U32, U32)>)
      modifies this
      ensures State() == PushAll(old(State()), Flatten2(pairs))
    {
      hide Push;
      var i := |pairs|;
      assert pairs[..i] == pairs;
      while i > 0
        invariant 0 <= i <= |pairs|
        invariant PushAll(old(State()), Flatten2(pairs)) == PushAll(State(), Flatten2(pairs[..i]))
      {
        i := i - 1;
        assert pairs[..i + 1][..i] == pairs[..i];
        PushPair(State(), Flatten2(pairs[..i]), pairs[i].0, pairs[i].1);
        Push32(pairs[i].1);
        Push32(pairs[i].0);
      }
    }
  }

  lemma PushPair(s: Stack, front: seq<U32>, a: U32, b: U32)
    ensures PushAll(s, front + [a, b]) == PushAll(Push(Push(s, b), a), front)
  {
    hide Push;
    PushAllAppend(s, front, [a, b]);
    assert [a, b][..1] == [a] && [a][..0] == [];
    assert PushAll(s, [a, b]) == PushAll(Push(s, b), [a]) == PushAll(Push(Push(s, b), a), []);
  }

  /** `setupInitialStack`. */
  method SetupInitialStack(m: Memory, o: Options) returns (ok: bool, mem: Memory, esp: U32)
    ensures Stack(ok, mem, esp) == Setup(m, o)
  {
    hide PutBytes, PutStrings, PushAll, Flatten2, Push;
    var b := new Builder(m, o.stackTop);
    var random := b.Bytes(o.random);
    var platform := b.Bytes(I686 + [0]);
    var execfn := b.Bytes(ExecName(o) + [0]);
    var args := b.Strings(o.argv);
    var envs := b.Strings(o.env);
    ghost var t := Strings(b.State(), random, platform, execfn, args, envs);
    assert t == PutAllStrings(m, o);
    b.sp := b.sp - b.sp % 16;
    ghost var s := b.State();
    var aux := o.auxv + [(3, o.phdrAddr), (4, o.phent), (5, o.phnum), (6, 4096), (7, o.base), (8, 0), (9, o.entry),
                         (11, o.uid), (12, o.uid), (13, o.gid), (14, o.gid), (17, 100), (25, random), (15, platform),
                         (31, execfn)] + [(0, 0)];
    b.PushPairs(aux);
    b.PushWords([0]);
    b.PushWords(envs);
    b.PushWords([0]);
    b.PushWords(args);
    b.PushWords([Wrap(|args|)]);
    PushAllParts(s, [Wrap(|args|)], args, envs, Flatten2(aux));
    return b.ok, b.mem, b.sp;
  }

  lemma PushAllParts(s: Stack, argc: seq<U32>, args: seq<U32>, envs: seq<U32>, aux: seq<U32>)
    ensures PushAll(s, argc + args + [0] + envs + [0] + aux)
         == PushAll(PushAll(PushAll(PushAll(PushAll(PushAll(s, aux), [0]), envs), [0]), args), argc)
  {
    hide PushAll;
    PushAllAppend(s, argc + args + [0] + envs + [0], aux);
    PushAllAppend(PushAll(s, aux), argc + args + [0] + envs, [0]);
    PushAllAppend(PushAll(PushAll(s, aux), [0]), argc + args + [0], envs);
    PushAllAppend(PushAll(PushAll(PushAll(s, aux), [0]), envs), argc + args, [0]);
    PushAllAppend(PushAll(PushAll(PushAll(PushAll(s, aux), [0]), envs), [0]), argc, args);
  }
}

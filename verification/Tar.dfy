/** The archive writer and reader of src/tar.js, over the fields of the POSIX
    ustar header. Strings are byte strings. */
module Tar {
  import opened Words
  import opened Buffers
  import opened Paths

  const BLOCK := 512
  const SPACE: U8 := 0x20
  const ZERO: U8 := 0x30
  /** Type flags with a meaning of their own. */
  const DIRECTORY: U8 := 0x35
  const LONG_NAME: U8 := 0x4c
  const LONG_LINK: U8 := 0x4b

  // ---- names ----------------------------------------------------------------------------

  /** `path.replace(/^\/+/, "")`. */
  function Strip(path: Bytes): Bytes {
    if path != [] && path[0] == SLASH then Strip(path[1..]) else path
  }

  lemma {:induction false} NormStrip(path: Bytes)
    ensures Norm(Strip(path)) == Norm(path)
    decreases |path|
  {
    if path != [] && path[0] == SLASH {
      NormStrip(path[1..]);
      assert Split(path)[1..] == Split(path[1..]);
    }
  }

  // ---- numbers --------------------------------------------------------------------------

  /** `n.toString(8)`. */
  function Digits(n: nat): Bytes { if n < 8 then [ZERO + n] else Digits(n / 8) + [ZERO + n % 8] }

  /** `padStart(k, "0")`. */
  function PadStart(s: Bytes, k: nat): (r: Bytes)
    ensures |r| == if |s| >= k then |s| else k
    decreases k - |s|
  {
    if |s| >= k then s else PadStart([ZERO] + s, k)
  }

  /** The string `writeOctal` writes into a field of len bytes. */
  function Octal(n: nat, len: nat): (r: Bytes)
    requires len > 1
    ensures |r| == len
  {
    var padded := PadStart(Digits(n), len - 1);
    padded[|padded| - (len - 1)..] + [0]
  }

  /** The k low octal digits, and the number they stand for. */
  function LowDigits(n: nat, k: nat): (r: Bytes)
    ensures |r| == k
    decreases k
  {
    if k == 0 then [] else LowDigits(n / 8, k - 1) + [ZERO + n % 8]
  }

  function Low(n: nat, k: nat): nat
    decreases k
  {
    if k == 0 then 0 else 8 * Low(n / 8, k - 1) + n % 8
  }

  function Pow8(k: nat): nat { if k == 0 then 1 else 8 * Pow8(k - 1) }

  /** Nothing is lost exactly when the number fits. */
  lemma {:induction false} LowExact(n: nat, k: nat)
    ensures Low(n, k) == n <==> n < Pow8(k)
    ensures Low(n, k) < Pow8(k)
    decreases k
  {
    if k > 0 {
      LowExact(n / 8, k - 1);
    }
  }

  lemma {:induction false} PadSnoc(s: Bytes, d: U8, k: nat)
    requires k > 0
    ensures PadStart(s + [d], k) == PadStart(s, k - 1) + [d]
    decreases k - |s|
  {
    if |s| < k - 1 {
      assert [ZERO] + (s + [d]) == ([ZERO] + s) + [d];
      PadSnoc([ZERO] + s, d, k);
    }
  }

  lemma {:induction false} PadLast(n: nat, k: nat)
    ensures var p := PadStart(Digits(n), k); p[|p| - k..] == LowDigits(n, k)
    decreases k
  {
    if k > 0 {
      var d: U8 := ZERO + n % 8;
      if n < 8 {
        PadSnoc([], d, k);
        assert [] + [d] == Digits(n);
        PadNothing(k - 1);
      } else {
        PadSnoc(Digits(n / 8), d, k);
        PadLast(n / 8, k - 1);
      }
    }
  }

  lemma {:induction false} PadNothing(k: nat)
    ensures PadStart([], k) == LowDigits(0, k)
    decreases k
  {
    if k > 0 {
      assert [ZERO] + [] == [] + [ZERO];
      PadSnoc([], ZERO, k);
      assert PadStart([], k) == PadStart([] + [ZERO], k);
      PadNothing(k - 1);
    }
  }

  lemma OctalIsLow(n: nat, len: nat)
    requires len > 1
    ensures Octal(n, len) == LowDigits(n, len - 1) + [0]
  {
    PadLast(n, len - 1);
  }

  // ---- reading fields -------------------------------------------------------------------

  /** `bytesToString`: up to the first NUL. */
  function CutNul(b: Bytes): Bytes
    decreases |b|
  {
    if b == [] || b[0] == 0 then [] else [b[0]] + CutNul(b[1..])
  }

  predicate IsSpace(c: U8) { c == SPACE || 9 <= c <= 13 }
  predicate IsDigit(c: U8) { ZERO <= c < ZERO + 8 }

  function SkipSpace(b: Bytes): Bytes { if b != [] && IsSpace(b[0]) then SkipSpace(b[1..]) else b }

  function ReadDigits(b: Bytes, acc: nat): nat
    decreases |b|
  {
    if b != [] && IsDigit(b[0]) then ReadDigits(b[1..], 8 * acc + (b[0] - ZERO)) else acc
  }

  /** `parseOctal`: JavaScript's `parseInt(raw, 8)`, with 0 where that has no
      digits to read. */
  function ParseOctal(b: Bytes): int {
    var raw := SkipSpace(CutNul(b));
    if raw != [] && raw[0] == 0x2d then 0 - ReadDigits(raw[1..], 0)
    else if raw != [] && raw[0] == 0x2b then ReadDigits(raw[1..], 0)
    else ReadDigits(raw, 0)
  }

  lemma {:induction false} CutAtNul(s: Bytes, t: Bytes)
    ensures CutNul(s + [0] + t) == CutNul(s)
    ensures NoNul(s) <==> CutNul(s) == s
    decreases |s|
  {
    var b := s + [0] + t;
    if s == [] {
      assert b[0] == 0;
    } else {
      assert b[0] == s[0] && b[1..] == s[1..] + [0] + t;
      CutAtNul(s[1..], t);
      assert s == [s[0]] + s[1..];
      assert NoNul(s) <==> s[0] != 0 && NoNul(s[1..]) by {
        if s[0] != 0 && NoNul(s[1..]) {
          forall i | 0 <= i < |s| ensures s[i] != 0 { assert i > 0 ==> s[i] == s[1..][i - 1]; }
        }
      }
    }
  }

  lemma {:induction false} ReadSnoc(s: Bytes, d: U8, acc: nat)
    requires (forall i :: 0 <= i < |s| ==> IsDigit(s[i])) && IsDigit(d)
    ensures ReadDigits(s + [d], acc) == 8 * ReadDigits(s, acc) + (d - ZERO)
    decreases |s|
  {
    if s != [] {
      assert (s + [d])[1..] == s[1..] + [d];
      ReadSnoc(s[1..], d, 8 * acc + (s[0] - ZERO));
    }
  }

  lemma {:induction false} DigitsRead(n: nat, k: nat)
    ensures forall i :: 0 <= i < k ==> IsDigit(LowDigits(n, k)[i])
    ensures ReadDigits(LowDigits(n, k), 0) == Low(n, k)
    decreases k
  {
    if k > 0 {
      DigitsRead(n / 8, k - 1);
      ReadSnoc(LowDigits(n / 8, k - 1), ZERO + n % 8, 0);
    }
  }

  lemma LowDigitsRead(n: nat, k: nat, t: Bytes)
    requires k > 0
    ensures ParseOctal(LowDigits(n, k) + [0] + t) == Low(n, k)
  {
    hide LowDigits, ReadDigits, CutNul;
    var s := LowDigits(n, k);
    DigitsRead(n, k);
    CutAtNul(s, t);
    assert IsDigit(s[0]);
  }

  /** A number field reads back as the octal digits it had room for. */
  lemma OctalRead(n: nat, len: nat)
    requires len > 1
    ensures ParseOctal(Octal(n, len)) == Low(n, len - 1)
  {
    hide ParseOctal, Octal, LowDigits, Low;
    OctalIsLow(n, len);
    LowDigitsRead(n, len - 1, []);
    assert LowDigits(n, len - 1) + [0] + [] == LowDigits(n, len - 1) + [0];
  }

  /** What `writeString` leaves in a field of len zero bytes. */
  function Field(s: Bytes, len: nat): (r: Bytes)
    ensures |r| == len
  {
    s[..Min(|s|, len)] + Zeros(len - Min(|s|, len))
  }

  lemma FieldRead(s: Bytes, len: nat)
    ensures CutNul(Field(s, len)) == CutNul(s[..Min(|s|, len)])
  {
    var t := s[..Min(|s|, len)];
    if |s| >= len {
      assert Field(s, len) == t;
    } else {
      assert Field(s, len) == t + [0] + Zeros(len - |s| - 1);
      CutAtNul(t, Zeros(len - |s| - 1));
    }
  }

  // ---- the writer -----------------------------------------------------------------------

  /** A member whose fields are all given. */
  datatype File = File(path: Bytes, mode: nat, uid: nat, gid: nat, mtime: nat, kind: U8, linkname: Bytes,
                       content: Bytes)

  /** A member as `createTar` takes it: bare content, or a record with fields left out. */
  datatype Spec =
    | Bare(content: Bytes)
    | Spec(data: Option<Bytes>, mode: Option<nat>, uid: Option<nat>, gid: Option<nat>, mtime: Option<nat>,
           kind: Option<U8>, linkname: Option<Bytes>)

  datatype Member = Member(path: Bytes, spec: Spec)

  function Or<T>(o: Option<T>, default: T): T { if o.Some? then o.value else default }

  /** The member with the defaults filled in, now being the time in seconds. */
  function FileOf(m: Member, now: nat): File {
    match m.spec
    case Bare(content) => File(m.path, 0x1a4, 0, 0, now, ZERO, [], content)
    case Spec(data, mode, uid, gid, mtime, kind, linkname) =>
      File(m.path, Or(mode, 0x1a4), Or(uid, 0), Or(gid, 0), Or(mtime, now), Or(kind, ZERO), Or(linkname, []),
           Or(data, []))
  }

  function FilesOf(members: seq<Member>, now: nat): seq<File> {
    seq(|members|, i requires 0 <= i < |members| => FileOf(members[i], now))
  }

  function DataOf(f: File): Bytes { if f.kind == DIRECTORY then [] else f.content }

  function Sum(b: Bytes): nat { if b == [] then 0 else b[0] + Sum(b[1..]) }

  const USTAR: Bytes := [0x75, 0x73, 0x74, 0x61, 0x72]

  /** The header up to the checksum, and from the type flag on. */
  function Front(f: File): (h: Bytes)
    ensures |h| == 148
  {
    Field(Strip(f.path), 100) + Octal(f.mode, 8) + Octal(f.uid, 8) + Octal(f.gid, 8) + Octal(|DataOf(f)|, 12)
    + Octal(f.mtime, 12)
  }

  function Back(f: File): (h: Bytes)
    ensures |h| == 356
  {
    [f.kind] + Field(f.linkname, 100) + Field(USTAR, 6) + [ZERO, ZERO] + Zeros(247)
  }

  const BLANKS: Bytes := [SPACE, SPACE, SPACE, SPACE, SPACE, SPACE, SPACE, SPACE]

  function HeaderSum(f: File): nat { Sum(Front(f) + BLANKS + Back(f)) }

  function Header(f: File): (h: Bytes)
    ensures |h| == BLOCK
  {
    Front(f) + Field(PadStart(Digits(HeaderSum(f)), 6) + [0, SPACE], 8) + Back(f)
  }

  function PadTo512(n: nat): nat { (BLOCK - n % BLOCK) % BLOCK }

  function Block(f: File): (b: Bytes)
    ensures |b| == BLOCK + |DataOf(f)| + PadTo512(|DataOf(f)|)
  {
    Header(f) + DataOf(f) + Zeros(PadTo512(|DataOf(f)|))
  }

  function Blocks(files: seq<File>): Bytes {
    if files == [] then [] else Block(files[0]) + Blocks(files[1..])
  }

  /** `createTar`. */
  function Archive(files: seq<File>): Bytes { Blocks(files) + Zeros(1024) }

  // ---- the reader -----------------------------------------------------------------------

  datatype Entry = Entry(path: Text, mode: int, uid: int, gid: int, size: int, mtime: int, checksum: int,
                         checksumValid: bool, kind: U8, linkname: Bytes, magic: Bytes, uname: Bytes, gname: Bytes,
                         devmajor: int, devminor: int, data: Bytes)

  /** A long name or link name announced by an earlier block; empty for none. */
  datatype Pending = Pending(name: Bytes, link: Bytes)

  const NOTHING := Pending([], [])

  datatype Turn =
    | Stop
    | Note(pending: Pending, next: int)
    | Take(entry: Entry, pending: Pending, next: int)

  function Clamp(i: int, n: nat): (k: nat)
    ensures k <= n
  {
    if i < 0 then (if n + i < 0 then 0 else n + i) else Min(i, n)
  }

  /** `b.subarray(from, to)`: negative positions count from the end. */
  function Subarray(b: Bytes, from: int, to: int): Bytes {
    var (lo, hi) := (Clamp(from, |b|), Clamp(to, |b|));
    if lo <= hi then b[lo..hi] else []
  }

  function Str(h: Bytes, from: nat, to: nat): Bytes { CutNul(Subarray(h, from, to)) }

  function Number(h: Bytes, from: nat, to: nat): int { ParseOctal(Subarray(h, from, to)) }

  function KindOf(h: Bytes): U8 { if |h| > 156 then h[156] else 0 }

  /** The checksum of a header, its own field counted as blanks; NaN, here None,
      for a header that is not whole. */
  function Computed(h: Bytes): Option<nat> {
    if |h| == BLOCK then Some(Sum(h[..148]) + 8 * SPACE + Sum(h[156..])) else None
  }

  /** `Math.ceil(size / 512) * 512`. */
  function Ceil512(size: int): int {
    if size >= 0 then (size + 511) / BLOCK * BLOCK else 0 - (0 - size) / BLOCK * BLOCK
  }

  function NameOf(h: Bytes, pending: Pending): Bytes {
    if pending.name != [] then pending.name
    else if Str(h, 345, 500) != [] then Str(h, 345, 500) + [SLASH] + Str(h, 0, 100)
    else Str(h, 0, 100)
  }

  function EntryOf(h: Bytes, data: Bytes, pending: Pending): Entry {
    var mode, checksum := Number(h, 100, 108), Number(h, 148, 156);
    Entry(
      Norm(NameOf(h, pending)), if mode == 0 then 0x1a4 else mode, Number(h, 108, 116), Number(h, 116, 124),
      Number(h, 124, 136), Number(h, 136, 148), checksum, checksum == 0 || Computed(h) == Some(checksum), KindOf(h),
      if pending.link != [] then pending.link else Str(h, 157, 257), Str(h, 257, 263), Str(h, 265, 297),
      Str(h, 297, 329), Number(h, 329, 337), Number(h, 337, 345), data)
  }

  /** The header at an offset. A size field can send the reader below 0, where
      `subarray` finds bytes of the end of the buffer, a part of a header or nothing. */
  function HeaderAt(bytes: Bytes, off: int): Bytes { Subarray(bytes, off, off + BLOCK) }

  predicate AtEnd(bytes: Bytes, off: int) { off + BLOCK > |bytes| || HeaderAt(bytes, off) == Zeros(BLOCK) }

  function SizeAt(bytes: Bytes, off: int): int { Number(HeaderAt(bytes, off), 124, 136) }

  function NextAt(bytes: Bytes, off: int): int { off + BLOCK + Ceil512(SizeAt(bytes, off)) }

  function DataAt(bytes: Bytes, off: int): Bytes {
    Subarray(bytes, off + BLOCK, Min(off + BLOCK + SizeAt(bytes, off), |bytes|))
  }

  /** What a header and its data do to the reader. */
  function TurnOn(h: Bytes, data: Bytes, pending: Pending, next: int): Turn {
    if KindOf(h) == LONG_NAME then Note(pending.(name := CutNul(data)), next)
    else if KindOf(h) == LONG_LINK then Note(pending.(link := CutNul(data)), next)
    else Take(EntryOf(h, data, pending), NOTHING, next)
  }

  /** One turn of the reader's loop. */
  function TurnAt(bytes: Bytes, off: int, pending: Pending): Turn {
    if AtEnd(bytes, off) then Stop
    else TurnOn(HeaderAt(bytes, off), DataAt(bytes, off), pending, NextAt(bytes, off))
  }

  function Onto(entries: seq<Entry>, more: Option<seq<Entry>>): Option<seq<Entry>> {
    if more.Some? then Some(entries + more.value) else None
  }

  /** The entries read from an offset on, when the loop ends within n turns. */
  function Turns(bytes: Bytes, off: int, pending: Pending, n: nat): Option<seq<Entry>>
    decreases n
  {
    match TurnAt(bytes, off, pending)
    case Stop => Some([])
    case Note(p, next) => if n == 0 then None else Turns(bytes, next, p, n - 1)
    case Take(e, p, next) => if n == 0 then None else Onto([e], Turns(bytes, next, p, n - 1))
  }

  /** `parseTarEntries` returns these entries. */
  ghost predicate Reads(bytes: Bytes, entries: seq<Entry>) {
    exists n: nat :: Turns(bytes, 0, NOTHING, n) == Some(entries)
  }

  /** `parseTarEntries` returns. */
  ghost predicate Ends(bytes: Bytes) { exists n: nat :: Turns(bytes, 0, NOTHING, n).Some? }

  /** More turns change nothing once the loop has ended. */
  lemma {:induction false} TurnsMore(bytes: Bytes, off: int, pending: Pending, n: nat, m: nat)
    requires n <= m && Turns(bytes, off, pending, n).Some?
    ensures Turns(bytes, off, pending, m) == Turns(bytes, off, pending, n)
    decreases n
  {
    hide TurnAt;
    var t := TurnAt(bytes, off, pending);
    if !t.Stop? { TurnsMore(bytes, t.next, t.pending, n - 1, m - 1); }
  }

  lemma ReadsOnce(bytes: Bytes, a: seq<Entry>, b: seq<Entry>)
    requires Reads(bytes, a) && Reads(bytes, b)
    ensures a == b && Ends(bytes)
  {
    hide Turns;
    var n: nat :| Turns(bytes, 0, NOTHING, n) == Some(a);
    var m: nat :| Turns(bytes, 0, NOTHING, m) == Some(b);
    if n <= m { TurnsMore(bytes, 0, NOTHING, n, m); } else { TurnsMore(bytes, 0, NOTHING, m, n); }
  }

  // ---- when the reader returns ----------------------------------------------------------

  /** A turn goes forward exactly when the size is above -512, and stands still
      for ever when it is above -1024 only. */
  lemma NextIff(bytes: Bytes, off: int)
    ensures NextAt(bytes, off) > off <==> SizeAt(bytes, off) > -BLOCK
    ensures NextAt(bytes, off) == off <==> -2 * BLOCK < SizeAt(bytes, off) <= -BLOCK
  {
    hide SizeAt;
  }

  /** The offset after n turns from an offset, None once the loop has ended. */
  function Walk(bytes: Bytes, off: int, n: nat): Option<int>
    decreases n
  {
    if n == 0 then Some(off) else if AtEnd(bytes, off) then None else Walk(bytes, NextAt(bytes, off), n - 1)
  }

  lemma {:induction false} TurnsWalk(bytes: Bytes, off: int, pending: Pending, n: nat)
    ensures Turns(bytes, off, pending, n).Some? <==> Walk(bytes, off, n + 1).None?
    decreases n
  {
    hide AtEnd, NextAt, TurnOn, Norm;
    var t := TurnAt(bytes, off, pending);
    if !AtEnd(bytes, off) {
      TurnOnNext(bytes, off, pending);
      if n > 0 { TurnsWalk(bytes, t.next, t.pending, n - 1); }
    }
  }

  lemma TurnOnNext(bytes: Bytes, off: int, pending: Pending)
    ensures var t := TurnAt(bytes, off, pending); t.Stop? <==> AtEnd(bytes, off)
    ensures var t := TurnAt(bytes, off, pending); !t.Stop? ==> t.next == NextAt(bytes, off)
  {
    hide AtEnd, NextAt, DataAt, EntryOf;
  }

  lemma {:induction false} WalkMore(bytes: Bytes, off: int, n: nat, k: nat)
    ensures Walk(bytes, off, n).None? ==> Walk(bytes, off, n + k).None?
    ensures var o := Walk(bytes, off, n); o.Some? ==> Walk(bytes, off, n + k) == Walk(bytes, o.value, k)
    decreases n
  {
    hide AtEnd, NextAt;
    if n > 0 && !AtEnd(bytes, off) { WalkMore(bytes, NextAt(bytes, off), n - 1, k); }
  }

  /** Some offset comes up twice. */
  ghost predicate Revisits(bytes: Bytes) {
    exists i: nat, j: nat :: i < j && Walk(bytes, 0, i).Some? && Walk(bytes, 0, i) == Walk(bytes, 0, j)
  }

  /** From an offset that comes up twice the reader goes round for ever. */
  lemma {:induction false} RoundAndRound(bytes: Bytes, i: nat, j: nat, n: nat)
    requires i < j && Walk(bytes, 0, i).Some? && Walk(bytes, 0, i) == Walk(bytes, 0, j)
    ensures Walk(bytes, 0, n).Some?
    decreases n
  {
    hide Walk;
    if n <= j {
      WalkMore(bytes, 0, n, j - n);
    } else {
      WalkMore(bytes, 0, i, n - j);
      WalkMore(bytes, 0, j, n - j);
      RoundAndRound(bytes, i, j, i + (n - j));
    }
  }

  lemma {:induction false} DigitsBound(b: Bytes, acc: nat, k: nat)
    requires acc < Pow8(k)
    ensures 0 <= ReadDigits(b, acc) < Pow8(k + |b|)
    decreases |b|
  {
    PowGrows(k, k + |b|);
    if b != [] && IsDigit(b[0]) { DigitsBound(b[1..], 8 * acc + (b[0] - ZERO), k + 1); }
  }

  lemma {:induction false} PowGrows(k: nat, m: nat)
    requires k <= m
    ensures Pow8(k) <= Pow8(m)
  {
    if k < m { PowGrows(k, m - 1); }
  }

  lemma {:induction false} CutShorter(b: Bytes)
    ensures |CutNul(b)| <= |b|
  {
    if b != [] { CutShorter(b[1..]); }
  }

  lemma {:induction false} SkipShorter(b: Bytes)
    ensures |SkipSpace(b)| <= |b|
  {
    if b != [] { SkipShorter(b[1..]); }
  }

  lemma OctalBound(b: Bytes)
    ensures 0 - Pow8(|b|) < ParseOctal(b) < Pow8(|b|)
  {
    hide CutNul, SkipSpace, ReadDigits;
    var raw := SkipSpace(CutNul(b));
    CutShorter(b);
    SkipShorter(CutNul(b));
    var signed := raw != [] && (raw[0] == 0x2d || raw[0] == 0x2b);
    var digits := if signed then raw[1..] else raw;
    DigitsBound(digits, 0, 0);
    PowGrows(|digits|, |b|);
  }

  /** No offset lies below this. */
  function Floor(bytes: Bytes): int { 0 - |bytes| - BLOCK - Pow8(12) }

  lemma NextAboveFloor(bytes: Bytes, off: int)
    requires off >= Floor(bytes)
    ensures NextAt(bytes, off) >= Floor(bytes)
  {
    hide ParseOctal, Pow8;
    var h := HeaderAt(bytes, off);
    var field := Subarray(h, 124, 136);
    if off <= 0 - |bytes| - BLOCK {
      assert h == [] && field == [];
      EmptyIsZero();
    } else {
      OctalBound(field);
      assert |field| <= 12;
      PowGrows(|field|, 12);
    }
  }

  lemma EmptyIsZero()
    ensures ParseOctal([]) == 0
  {
  }

  lemma {:induction false} WalkBounded(bytes: Bytes, off: int, n: nat)
    requires off >= Floor(bytes)
    ensures var o := Walk(bytes, off, n); o.Some? ==> o.value >= Floor(bytes)
    decreases n
  {
    hide AtEnd, NextAt, Floor;
    if n > 0 && !AtEnd(bytes, off) {
      NextAboveFloor(bytes, off);
      WalkBounded(bytes, NextAt(bytes, off), n - 1);
    }
  }

  /** An offset that another turn follows lies in the buffer or below it. */
  lemma WalkInside(bytes: Bytes, n: nat)
    requires Walk(bytes, 0, n + 1).Some?
    ensures Walk(bytes, 0, n).Some? && Floor(bytes) <= Walk(bytes, 0, n).value < |bytes|
  {
    WalkMore(bytes, 0, n, 1);
    WalkBounded(bytes, 0, n);
    var o := Walk(bytes, 0, n).value;
    assert Walk(bytes, o, 1).Some?;
  }

  lemma {:induction false} SetBounded(s: set<int>, lo: int, hi: int)
    requires lo <= hi && forall x :: x in s ==> lo <= x < hi
    ensures |s| <= hi - lo
    decreases hi - lo
  {
    if lo == hi {
      assert s == {};
    } else {
      SetBounded(s - {hi - 1}, lo, hi - 1);
    }
  }

  function OffsetAt(bytes: Bytes, n: nat): int {
    var o := Walk(bytes, 0, n);
    if o.Some? then o.value else 0
  }

  /** The offsets of the first n turns. */
  ghost function Visited(bytes: Bytes, n: nat): set<int> {
    if n == 0 then {} else Visited(bytes, n - 1) + {OffsetAt(bytes, n - 1)}
  }

  lemma {:induction false} VisitedAt(bytes: Bytes, n: nat, x: int) returns (i: nat)
    requires x in Visited(bytes, n)
    ensures i < n && OffsetAt(bytes, i) == x
  {
    hide OffsetAt;
    if x == OffsetAt(bytes, n - 1) { i := n - 1; } else { i := VisitedAt(bytes, n - 1, x); }
  }

  lemma {:induction false} VisitedSize(bytes: Bytes, n: nat)
    requires Walk(bytes, 0, n).Some? && !Revisits(bytes)
    ensures |Visited(bytes, n)| == n
    ensures forall x :: x in Visited(bytes, n) ==> Floor(bytes) <= x < |bytes|
  {
    hide Walk, Floor;
    if n > 0 {
      WalkInside(bytes, n - 1);
      VisitedSize(bytes, n - 1);
      var x := OffsetAt(bytes, n - 1);
      if x in Visited(bytes, n - 1) {
        var i := VisitedAt(bytes, n - 1, x);
        WalkMore(bytes, 0, i, n - 1 - i);
      }
    }
  }

  /** More turns than there are places for offsets. */
  function Span(bytes: Bytes): nat { |bytes| - Floor(bytes) }

  /** `parseTarEntries` returns if and only if no offset comes up twice; the offsets
      depend on the size fields alone. */
  lemma EndsIff(bytes: Bytes)
    ensures Ends(bytes) <==> !Revisits(bytes)
    ensures Ends(bytes) <==> Turns(bytes, 0, NOTHING, Span(bytes)).Some?
  {
    hide Turns, Walk;
    var n := Span(bytes);
    TurnsWalk(bytes, 0, NOTHING, n);
    if Ends(bytes) && Revisits(bytes) {
      var k: nat :| Turns(bytes, 0, NOTHING, k).Some?;
      TurnsWalk(bytes, 0, NOTHING, k);
      var i: nat, j: nat :| i < j && Walk(bytes, 0, i).Some? && Walk(bytes, 0, i) == Walk(bytes, 0, j);
      RoundAndRound(bytes, i, j, k + 1);
    }
    if !Revisits(bytes) && Walk(bytes, 0, n + 1).Some? {
      VisitedSize(bytes, n + 1);
      SetBounded(Visited(bytes, n + 1), Floor(bytes), |bytes|);
    }
  }

  /** Every size the reader meets sends it forward. */
  ghost predicate Forward(bytes: Bytes) {
    forall n: nat :: var o := Walk(bytes, 0, n); o.Some? && !AtEnd(bytes, o.value) ==> SizeAt(bytes, o.value) > -BLOCK
  }

  lemma {:induction false} Ascends(bytes: Bytes, i: nat, j: nat)
    requires Forward(bytes) && i < j && Walk(bytes, 0, j).Some?
    ensures Walk(bytes, 0, i).Some? && Walk(bytes, 0, i).value < Walk(bytes, 0, j).value
    decreases j
  {
    hide AtEnd, NextAt, SizeAt;
    WalkMore(bytes, 0, j - 1, 1);
    var o := Walk(bytes, 0, j - 1).value;
    assert Walk(bytes, o, 1) == Some(NextAt(bytes, o));
    NextIff(bytes, o);
    if i < j - 1 { Ascends(bytes, i, j - 1); }
  }

  lemma ForwardEnds(bytes: Bytes)
    requires Forward(bytes)
    ensures Ends(bytes)
  {
    hide Walk, Forward, Ends;
    EndsIff(bytes);
    if Revisits(bytes) {
      var i: nat, j: nat :| i < j && Walk(bytes, 0, i).Some? && Walk(bytes, 0, i) == Walk(bytes, 0, j);
      Ascends(bytes, i, j);
    }
  }

  /** A size above -1024 and not above -512, once met, is met for ever. */
  lemma StandsStill(bytes: Bytes, n: nat)
    requires var o := Walk(bytes, 0, n);
             o.Some? && !AtEnd(bytes, o.value) && -2 * BLOCK < SizeAt(bytes, o.value) <= -BLOCK
    ensures !Ends(bytes)
  {
    hide AtEnd, NextAt, SizeAt, Ends;
    var o := Walk(bytes, 0, n).value;
    NextIff(bytes, o);
    WalkMore(bytes, 0, n, 1);
    assert Walk(bytes, o, 1) == Some(o);
    EndsIff(bytes);
  }

  function HeaderSized(size: Bytes): (h: Bytes)
    requires |size| <= 12
    ensures |h| == BLOCK
  {
    Zeros(124) + size + Zeros(388 - |size|)
  }

  lemma SizeOfSized(pre: Bytes, size: Bytes, more: Bytes)
    requires 0 < |size| < 12 && NoNul(size)
    ensures var b := pre + HeaderSized(size) + more;
            && !AtEnd(b, |pre|) && HeaderAt(b, |pre|) == HeaderSized(size)
            && SizeAt(b, |pre|) == ParseOctal(size + [0])
  {
    hide ParseOctal;
    var h := HeaderSized(size);
    var b := pre + h + more;
    assert HeaderAt(b, |pre|) == h;
    assert h[124] != Zeros(BLOCK)[124];
    assert Subarray(h, 124, 136) == size + Zeros(12 - |size|);
    OctalCut(size, Zeros(12 - |size| - 1));
    assert size + Zeros(12 - |size|) == size + [0] + Zeros(12 - |size| - 1);
  }

  lemma OctalCut(s: Bytes, t: Bytes)
    ensures ParseOctal(s + [0] + t) == ParseOctal(s + [0])
  {
    CutAtNul(s, t);
    CutAtNul(s, []);
    assert s + [0] + [] == s + [0];
  }

  /** "1000" and "-1000" in octal, for any first digit. */
  lemma Octals(s: Bytes)
    requires |s| == 4 && IsDigit(s[0]) && s[1] == s[2] == s[3] == ZERO
    ensures ParseOctal(s + [0]) == 512 * (s[0] - ZERO) && ParseOctal([0x2d] + s + [0]) == -512 * (s[0] - ZERO)
  {
    hide CutNul, ReadDigits;
    Thousands(s);
    CutAtNul(s, []);
    CutAtNul([0x2d] + s, []);
    assert s + [0] + [] == s + [0] && ([0x2d] + s) + [0] + [] == [0x2d] + s + [0];
    assert ([0x2d] + s)[1..] == s;
  }

  lemma Thousands(s: Bytes)
    requires |s| == 4 && IsDigit(s[0]) && s[1] == s[2] == s[3] == ZERO
    ensures ReadDigits(s, 0) == 512 * (s[0] - ZERO)
  {
    assert s[1..][1..] == s[2..] && s[2..][1..] == s[3..] && s[3..][1..] == [];
    assert ReadDigits(s[3..], 64 * (s[0] - ZERO)) == 512 * (s[0] - ZERO);
    assert ReadDigits(s[2..], 8 * (s[0] - ZERO)) == 512 * (s[0] - ZERO);
  }

  const PLUS512: Bytes := [0x31, 0x30, 0x30, 0x30]
  const MINUS512: Bytes := [0x2d, 0x31, 0x30, 0x30, 0x30]
  const MINUS1024: Bytes := [0x2d, 0x32, 0x30, 0x30, 0x30]

  /** One header with the size "-1000" and the reader never returns. */
  lemma Stuck()
    ensures var h := HeaderSized(MINUS512); SizeAt(h, 0) == -512 && NextAt(h, 0) == 0 && !Ends(h)
  {
    hide AtEnd, SizeAt, HeaderSized, ParseOctal, Ends;
    var h := HeaderSized(MINUS512);
    Octals(PLUS512);
    SizeOfSized([], MINUS512, []);
    assert [] + h + [] == h && MINUS512 == [0x2d] + PLUS512;
    NextIff(h, 0);
    assert Walk(h, 0, 0) == Some(0);
    StandsStill(h, 0);
  }

  /** Going back is not always the end of it: here the second header sends the
      reader into the zeros before it, where it returns. */
  lemma BackAndDone()
    ensures var b := HeaderSized(PLUS512) + Zeros(512) + HeaderSized(MINUS1024);
            SizeAt(b, 1024) == -1024 && NextAt(b, 1024) == 512 && Ends(b)
  {
    hide AtEnd, SizeAt, HeaderSized, ParseOctal, Ends;
    var (g, h) := (HeaderSized(PLUS512), HeaderSized(MINUS1024));
    var b := g + Zeros(512) + h;
    Octals(PLUS512);
    Octals([0x32, 0x30, 0x30, 0x30]);
    SizeOfSized([], PLUS512, Zeros(512) + h);
    assert [] + g + (Zeros(512) + h) == b;
    SizeOfSized(g + Zeros(512), MINUS1024, []);
    assert b + [] == b && MINUS1024 == [0x2d] + [0x32, 0x30, 0x30, 0x30];
    BackWalk(g, h);
  }

  lemma ZerosEnd(pre: Bytes, more: Bytes)
    ensures AtEnd(pre + Zeros(BLOCK) + more, |pre|)
  {
    assert HeaderAt(pre + Zeros(BLOCK) + more, |pre|) == Zeros(BLOCK);
  }

  lemma BackWalk(g: Bytes, h: Bytes)
    requires |g| == |h| == BLOCK
    requires var b := g + Zeros(512) + h;
             !AtEnd(b, 0) && SizeAt(b, 0) == 512 && !AtEnd(b, 1024) && SizeAt(b, 1024) == -1024
    ensures var b := g + Zeros(512) + h; NextAt(b, 1024) == 512 && Ends(b)
  {
    hide AtEnd, SizeAt, Turns;
    var b := g + Zeros(512) + h;
    ZerosEnd(g, h);
    assert Walk(b, 1024, 2) == Walk(b, 512, 1) == None;
    TurnsWalk(b, 0, NOTHING, 2);
  }

  // ---- the round trip -------------------------------------------------------------------

  function First100(s: Bytes): Bytes { s[..Min(|s|, 100)] }

  /** The data a written member reads back with: all of it below 8^11 bytes. */
  function ReadData(f: File): Bytes {
    LowSmaller(|DataOf(f)|, 11);
    DataOf(f)[..Low(|DataOf(f)|, 11)]
  }

  lemma {:induction false} LowSmaller(n: nat, k: nat)
    ensures Low(n, k) <= n
    decreases k
  {
    if k > 0 { LowSmaller(n / 8, k - 1); }
  }

  /** What reading a written member gives back: names cut at 100 bytes and at a NUL
      unless an earlier member announced them, numbers cut to the octal digits of
      their fields. */
  function ReadBack(f: File, pending: Pending): Entry {
    var mode := Low(f.mode, 7);
    var name := if pending.name != [] then pending.name else CutNul(First100(Strip(f.path)));
    var link := if pending.link != [] then pending.link else CutNul(First100(f.linkname));
    Entry(
      Norm(name), if mode == 0 then 0x1a4 else mode, Low(f.uid, 7), Low(f.gid, 7), Low(|DataOf(f)|, 11),
      Low(f.mtime, 11), HeaderSum(f), true, f.kind, link, USTAR, [], [], 0, 0, ReadData(f))
  }

  /** What reading a list of written members gives back: those of type L and K
      announce a name or link name for the next of another type. */
  function ReadAll(files: seq<File>, pending: Pending): seq<Entry> {
    if files == [] then []
    else if files[0].kind == LONG_NAME then ReadAll(files[1..], pending.(name := CutNul(ReadData(files[0]))))
    else if files[0].kind == LONG_LINK then ReadAll(files[1..], pending.(link := CutNul(ReadData(files[0]))))
    else [ReadBack(files[0], pending)] + ReadAll(files[1..], NOTHING)
  }

  /** The fields of a concatenation. */
  lemma FrontCuts(a: Bytes, b: Bytes, c: Bytes, d: Bytes, e: Bytes, g: Bytes, rest: Bytes)
    requires |a| == 100 && |b| == |c| == |d| == 8 && |e| == |g| == 12
    ensures var h := (a + b + c + d + e + g) + rest;
            && h[0..100] == a && h[100..108] == b && h[108..116] == c && h[116..124] == d && h[124..136] == e
            && h[136..148] == g
  {
  }

  lemma BackCuts(front: Bytes, kind: U8, link: Bytes, magic: Bytes, version: Bytes, zeros: Bytes)
    requires |front| == 156 && |link| == 100 && |magic| == 6 && |version| == 2 && zeros == Zeros(247)
    ensures var h := front + ([kind] + link + magic + version + zeros);
            && h[156] == kind && h[157..257] == link && h[257..263] == magic && h[265..297] == Zeros(32)
            && h[297..329] == Zeros(32) && h[329..337] == Zeros(8) && h[337..345] == Zeros(8)
            && h[345..500] == Zeros(155)
  {
  }

  lemma {:induction false} SumAppend(a: Bytes, b: Bytes)
    ensures Sum(a + b) == Sum(a) + Sum(b)
    decreases |a|
  {
    if a == [] {
      assert a + b == b;
    } else {
      assert (a + b)[1..] == a[1..] + b;
      SumAppend(a[1..], b);
    }
  }

  lemma {:induction false} SumBound(a: Bytes)
    ensures Sum(a) <= 255 * |a|
  {
    if a != [] { SumBound(a[1..]); }
  }

  lemma {:induction false} DigitsShort(n: nat, k: nat)
    requires k > 0 && n < Pow8(k)
    ensures |Digits(n)| <= k
    decreases k
  {
    if n >= 8 {
      assert k > 1;
      DigitsShort(n / 8, k - 1);
    }
  }

  lemma SumBlanks()
    ensures Sum(BLANKS) == 8 * SPACE
  {
    var one: Bytes := [SPACE];
    var two: Bytes := [SPACE, SPACE];
    var four: Bytes := [SPACE, SPACE, SPACE, SPACE];
    assert two == one + one && four == two + two && BLANKS == four + four;
    SumAppend(one, one);
    SumAppend(two, two);
    SumAppend(four, four);
  }

  lemma EightDigits()
    ensures Pow8(6) == 0x4_0000 && Pow8(7) == 0x20_0000 && Pow8(11) == 0x2_0000_0000
  {
    assert Pow8(3) == 8 * Pow8(2) == 8 * (8 * Pow8(1));
    assert Pow8(6) == 8 * Pow8(5) == 8 * (8 * Pow8(4)) == 64 * (8 * Pow8(3));
    assert Pow8(9) == 8 * Pow8(8) == 8 * (8 * Pow8(7));
    assert Pow8(11) == 8 * Pow8(10) == 8 * (8 * Pow8(9));
  }

  /** The checksum field of a sum of 512 bytes. */
  lemma ChecksumRead(n: nat)
    requires n <= 255 * BLOCK
    ensures |PadStart(Digits(n), 6)| == 6
    ensures ParseOctal(Field(PadStart(Digits(n), 6) + [0, SPACE], 8)) == n
  {
    hide ParseOctal, PadStart, Digits, LowDigits, Low;
    EightDigits();
    DigitsShort(n, 6);
    PadLast(n, 6);
    var p := PadStart(Digits(n), 6);
    assert p[0..] == p;
    LowDigitsRead(n, 6, [SPACE]);
    LowExact(n, 6);
    assert Field(p + [0, SPACE], 8) == p + [0] + [SPACE];
  }

  lemma SumAround(front: Bytes, back: Bytes)
    requires |front| == 148 && |back| == 356
    ensures Sum(front + BLANKS + back) == Sum(front) + 8 * SPACE + Sum(back) <= 255 * BLOCK
  {
    hide Sum;
    SumAppend(front + BLANKS, back);
    SumAppend(front, BLANKS);
    SumBlanks();
    SumBound(front + BLANKS + back);
  }

  /** The checksum field, as the writer fills it in, reads back and is right. */
  lemma CheckRead(front: Bytes, back: Bytes)
    requires |front| == 148 && |back| == 356
    ensures var n := Sum(front + BLANKS + back);
            var h := front + Field(PadStart(Digits(n), 6) + [0, SPACE], 8) + back;
            Number(h, 148, 156) == n && Computed(h) == Some(n)
  {
    hide Sum, ParseOctal, Field, PadStart, Digits;
    var n := Sum(front + BLANKS + back);
    SumAround(front, back);
    ChecksumRead(n);
    var c := Field(PadStart(Digits(n), 6) + [0, SPACE], 8);
    var h := front + c + back;
    assert h[148..156] == c && h[..148] == front && h[156..] == back;
  }

  lemma FrontRead(name: Bytes, mode: nat, uid: nat, gid: nat, size: nat, mtime: nat, rest: Bytes)
    ensures var h := (Field(name, 100) + Octal(mode, 8) + Octal(uid, 8) + Octal(gid, 8) + Octal(size, 12)
                      + Octal(mtime, 12)) + rest;
            && Str(h, 0, 100) == CutNul(First100(name))
            && Number(h, 100, 108) == Low(mode, 7) && Number(h, 108, 116) == Low(uid, 7)
            && Number(h, 116, 124) == Low(gid, 7) && Number(h, 124, 136) == Low(size, 11)
            && Number(h, 136, 148) == Low(mtime, 11)
  {
    hide Octal, Field, CutNul, Low, ParseOctal, Subarray;
    var (a, b, c, d) := (Field(name, 100), Octal(mode, 8), Octal(uid, 8), Octal(gid, 8));
    var (x, y) := (Octal(size, 12), Octal(mtime, 12));
    FrontCuts(a, b, c, d, x, y, rest);
    FrontFields((a + b + c + d + x + y) + rest);
    FieldRead(name, 100);
    OctalRead(mode, 8);
    OctalRead(uid, 8);
    OctalRead(gid, 8);
    OctalRead(size, 12);
    OctalRead(mtime, 12);
  }

  lemma FrontFields(h: Bytes)
    requires |h| >= 148
    ensures Subarray(h, 0, 100) == h[0..100] && Subarray(h, 100, 108) == h[100..108]
    ensures Subarray(h, 108, 116) == h[108..116] && Subarray(h, 116, 124) == h[116..124]
    ensures Subarray(h, 124, 136) == h[124..136] && Subarray(h, 136, 148) == h[136..148]
  {
  }

  lemma BackFields(h: Bytes)
    requires |h| == BLOCK
    ensures Subarray(h, 157, 257) == h[157..257] && Subarray(h, 257, 263) == h[257..263]
    ensures Subarray(h, 265, 297) == h[265..297] && Subarray(h, 297, 329) == h[297..329]
    ensures Subarray(h, 329, 337) == h[329..337] && Subarray(h, 337, 345) == h[337..345]
    ensures Subarray(h, 345, 500) == h[345..500]
  {
  }

  lemma {:induction false} ZerosRead(n: nat)
    ensures CutNul(Zeros(n)) == [] && ParseOctal(Zeros(n)) == 0
  {
  }

  lemma BackRead(front: Bytes, kind: U8, link: Bytes)
    requires |front| == 156
    ensures var h := front + ([kind] + Field(link, 100) + Field(USTAR, 6) + [ZERO, ZERO] + Zeros(247));
            && KindOf(h) == kind && Str(h, 157, 257) == CutNul(First100(link)) && Str(h, 257, 263) == USTAR
            && Str(h, 265, 297) == Str(h, 297, 329) == [] && Number(h, 329, 337) == Number(h, 337, 345) == 0
            && Str(h, 345, 500) == []
  {
    hide Field, CutNul, ParseOctal, Zeros, Subarray;
    BackCuts(front, kind, Field(link, 100), Field(USTAR, 6), [ZERO, ZERO], Zeros(247));
    BackFields(front + ([kind] + Field(link, 100) + Field(USTAR, 6) + [ZERO, ZERO] + Zeros(247)));
    FieldRead(link, 100);
    ZerosRead(32);
    ZerosRead(8);
    ZerosRead(155);
    MagicRead();
  }

  lemma MagicRead()
    ensures CutNul(Field(USTAR, 6)) == USTAR
  {
    FieldRead(USTAR, 6);
    CutAtNul(USTAR, []);
    assert USTAR[..5] == USTAR;
  }

  /** A header reads back as `ReadBack` says, with a valid checksum. */
  lemma HeaderRead(f: File, pending: Pending)
    ensures EntryOf(Header(f), ReadData(f), pending) == ReadBack(f, pending)
    ensures Number(Header(f), 124, 136) == Low(|DataOf(f)|, 11) && KindOf(Header(f)) == f.kind
    ensures Str(Header(f), 257, 263) == [0x75, 0x73, 0x74, 0x61, 0x72] && Header(f) != Zeros(BLOCK)
  {
    hide Sum, Computed, Low, Norm, CutNul, Strip, ParseOctal, DataOf, Str, Number, ReadData, First100, KindOf, Octal,
         Field, Zeros, PadStart, Digits;
    var c := Field(PadStart(Digits(HeaderSum(f)), 6) + [0, SPACE], 8);
    assert Header(f) == Front(f) + (c + Back(f));
    FrontRead(Strip(f.path), f.mode, f.uid, f.gid, |DataOf(f)|, f.mtime, c + Back(f));
    BackRead(Front(f) + c, f.kind, f.linkname);
    CheckRead(Front(f), Back(f));
    NotZeros(Header(f));
  }

  lemma NotZeros(h: Bytes)
    requires |h| == BLOCK && Str(h, 257, 263) == USTAR
    ensures h != Zeros(BLOCK)
  {
    ZerosRead(6);
    assert Zeros(BLOCK)[257..263] == Zeros(6);
  }

  lemma PadExact(n: nat)
    ensures BLOCK + n + PadTo512(n) == BLOCK + Ceil512(n) && PadTo512(n) >= 0
  {
  }

  /** The header and the data found in the midst of an archive. */
  lemma BlockCuts(pre: Bytes, h: Bytes, data: Bytes, more: Bytes, n: nat)
    requires |h| == BLOCK && n <= |data|
    ensures var b := pre + (h + data + more);
            && HeaderAt(b, |pre|) == h && |pre| + BLOCK <= |b|
            && Subarray(b, |pre| + BLOCK, Min(|pre| + BLOCK + n, |b|)) == data[..n]
  {
  }

  /** Where the reader goes on after a member at off. */
  function AfterMember(off: nat, f: File): int { off + BLOCK + Ceil512(Low(|DataOf(f)|, 11)) }

  lemma TurnOfBlock(pre: Bytes, f: File, more: Bytes, pending: Pending)
    ensures TurnAt(pre + (Block(f) + more), |pre|, pending)
         == if f.kind == LONG_NAME then Note(pending.(name := CutNul(ReadData(f))), AfterMember(|pre|, f))
            else if f.kind == LONG_LINK then Note(pending.(link := CutNul(ReadData(f))), AfterMember(|pre|, f))
            else Take(ReadBack(f, pending), NOTHING, AfterMember(|pre|, f))
  {
    hide Header, EntryOf, ReadBack, Number, DataOf, Ceil512, PadTo512, Low, HeaderAt, Subarray, CutNul, KindOf;
    HeaderRead(f, pending);
    LowSmaller(|DataOf(f)|, 11);
    var rest := Zeros(PadTo512(|DataOf(f)|)) + more;
    BlockCuts(pre, Header(f), DataOf(f), rest, Low(|DataOf(f)|, 11));
    assert Block(f) + more == Header(f) + DataOf(f) + rest;
  }

  /** The size field holds the sizes of its members. */
  predicate SizesFit(files: seq<File>) { forall i :: 0 <= i < |files| ==> |DataOf(files[i])| < Pow8(11) }

  lemma {:induction false} BlocksRead(pre: Bytes, files: seq<File>, pending: Pending)
    requires SizesFit(files)
    ensures Turns(pre + Archive(files), |pre|, pending, |files|) == Some(ReadAll(files, pending))
    decreases |files|
  {
    hide TurnAt, Block, ReadBack, DataOf, CutNul, Low, Ceil512, ReadData;
    if files == [] {
      TheEnd(pre, pending);
      assert Archive(files) == Zeros(1024);
    } else {
      var (f, more) := (files[0], Archive(files[1..]));
      assert Archive(files) == Block(f) + more;
      TurnOfBlock(pre, f, more, pending);
      SizeKept(|DataOf(f)|);
      assert (pre + Block(f)) + more == pre + Archive(files);
      var after := if f.kind == LONG_NAME then pending.(name := CutNul(ReadData(f)))
                   else if f.kind == LONG_LINK then pending.(link := CutNul(ReadData(f))) else NOTHING;
      BlocksRead(pre + Block(f), files[1..], after);
    }
  }

  lemma SizeKept(n: nat)
    requires n < Pow8(11)
    ensures n + PadTo512(n) == Ceil512(Low(n, 11))
  {
    hide Low, Ceil512, PadTo512;
    LowExact(n, 11);
    PadExact(n);
  }

  lemma TheEnd(pre: Bytes, pending: Pending)
    ensures TurnAt(pre + Zeros(1024), |pre|, pending) == Stop
  {
    assert HeaderAt(pre + Zeros(1024), |pre|) == Zeros(BLOCK);
  }

  /** Reading a written archive gives one entry a member, in order, whatever the
      names, numbers, types and bytes. */
  lemma ArchiveRead(files: seq<File>)
    requires SizesFit(files)
    ensures Reads(Archive(files), ReadAll(files, NOTHING))
  {
    hide Archive, Turns, ReadAll;
    BlocksRead([], files, NOTHING);
    assert [] + Archive(files) == Archive(files);
  }

  /** A name of any length reaches the reader in a member of type L before it, and a link
      name in one of type K. */
  lemma LongNameRead(long: File, f: File)
    requires long.kind in {0x4c, 0x4b} && f.kind != 0x4c && f.kind != 0x4b && SizesFit([long, f])
    requires long.content != [] && NoNul(long.content)
    ensures var pending := if long.kind == 0x4c then Pending(long.content, []) else Pending([], long.content);
            && Reads(Archive([long, f]), [ReadBack(f, pending)])
            && (long.kind == 0x4c ==> ReadBack(f, pending).path == Norm(long.content))
            && (long.kind == 0x4b ==> ReadBack(f, pending).linkname == long.content)
  {
    hide Archive, Reads, HeaderSum, Norm, ReadBack, CutNul;
    var files := [long, f];
    ArchiveRead(files);
    assert files[0] == long && files[1..] == [f] && [f][1..] == [];
    LowExact(|long.content|, 11);
    assert ReadData(long) == long.content;
    CutAtNul(long.content, []);
    var p := if long.kind == 0x4c then Pending(long.content, []) else Pending([], long.content);
    assert CutNul(ReadData(long)) == long.content;
    assert ReadAll(files, NOTHING) == ReadAll([f], p);
    assert ReadAll([f], p) == [ReadBack(f, p)] + ReadAll([], NOTHING);
    assert [ReadBack(f, p)] + [] == [ReadBack(f, p)];
    NamedBack(f, p);
  }

  lemma NamedBack(f: File, pending: Pending)
    ensures pending.name != [] ==> ReadBack(f, pending).path == Norm(pending.name)
    ensures pending.link != [] ==> ReadBack(f, pending).linkname == pending.link
  {
  }

  /** Everything of the member survives the archive. */
  predicate Restored(f: File, e: Entry) {
    && e.path == Norm(f.path) && e.mode == f.mode && e.uid == f.uid && e.gid == f.gid && e.mtime == f.mtime
    && e.size == |DataOf(f)| && e.kind == f.kind && e.linkname == f.linkname && e.data == DataOf(f)
    && e.checksumValid
  }

  predicate NameFits(f: File) { |Strip(f.path)| <= 100 && NoNul(f.path) }

  predicate FieldsFit(f: File) {
    && 0 < f.mode < Pow8(7) && f.uid < Pow8(7) && f.gid < Pow8(7) && f.mtime < Pow8(11)
    && |f.linkname| <= 100 && NoNul(f.linkname) && |DataOf(f)| < Pow8(11)
  }

  /** A member whose name fits comes back whole if and only if its numbers fit
      their fields, its mode is not 0 and its link name fits too. */
  lemma RestoredIff(f: File)
    requires NameFits(f)
    ensures Restored(f, ReadBack(f, NOTHING)) <==> FieldsFit(f)
  {
    hide Norm, Low, Strip, DataOf, NoNul, CutNul, HeaderSum;
    NameRead(f);
    LowExact(f.mode, 7);
    LowExact(f.uid, 7);
    LowExact(f.gid, 7);
    LowExact(f.mtime, 11);
    LowExact(|DataOf(f)|, 11);
    LinkRead(f.linkname);
  }

  lemma {:induction false} StripNoNul(path: Bytes)
    requires NoNul(path)
    ensures NoNul(Strip(path))
    decreases |path|
  {
    if path != [] && path[0] == SLASH { StripNoNul(path[1..]); }
  }

  lemma NameRead(f: File)
    requires NameFits(f)
    ensures Norm(CutNul(First100(Strip(f.path)))) == Norm(f.path)
  {
    hide Norm, CutNul, Strip, NoNul;
    var s := Strip(f.path);
    assert First100(s) == s;
    StripNoNul(f.path);
    CutAtNul(s, []);
    NormStrip(f.path);
  }

  lemma LinkRead(s: Bytes)
    ensures CutNul(First100(s)) == s <==> |s| <= 100 && NoNul(s)
  {
    hide CutNul, NoNul;
    CutShorter(First100(s));
    if |s| <= 100 {
      assert First100(s) == s;
      CutAtNul(s, []);
    }
  }

  predicate Ordinary(f: File) { f.kind != LONG_NAME && f.kind != LONG_LINK && NameFits(f) && FieldsFit(f) }

  lemma {:induction false} ReadAllOrdinary(files: seq<File>)
    requires forall i :: 0 <= i < |files| ==> Ordinary(files[i])
    ensures var es := ReadAll(files, NOTHING);
            |es| == |files| && forall i :: 0 <= i < |files| ==> Restored(files[i], es[i])
    decreases |files|
  {
    hide Restored, ReadBack, NameFits, FieldsFit;
    if files != [] {
      RestoredIff(files[0]);
      ReadAllOrdinary(files[1..]);
      var es := ReadAll(files, NOTHING);
      assert es == [ReadBack(files[0], NOTHING)] + ReadAll(files[1..], NOTHING);
      forall i | 0 < i < |files| ensures Restored(files[i], es[i]) {
        assert files[i] == files[1..][i - 1];
      }
    }
  }

  /** The round trip: an archive of members that fit reads back as those members,
      in order, with valid checksums. */
  lemma RoundTrip(files: seq<File>)
    requires forall i :: 0 <= i < |files| ==> Ordinary(files[i])
    ensures Reads(Archive(files), ReadAll(files, NOTHING))
    ensures var es := ReadAll(files, NOTHING);
            |es| == |files| && forall i :: 0 <= i < |files| ==> Restored(files[i], es[i])
  {
    hide Restored, ReadAll, Reads, Archive, NameFits;
    assert SizesFit(files);
    ArchiveRead(files);
    ReadAllOrdinary(files);
  }

  /** Bare content under a fitting name survives whole, as a regular file of user and
      group 0 with mode 0644 and the time of writing. */
  lemma BareRestored(m: Member, now: nat)
    requires m.spec.Bare? && |m.spec.content| < Pow8(11) && now < Pow8(11) && NameFits(FileOf(m, now))
    ensures Ordinary(FileOf(m, now))
    ensures var e := ReadBack(FileOf(m, now), NOTHING);
            && e.path == Norm(m.path) && e.data == m.spec.content && e.mode == 0x1a4 && e.mtime == now
            && e.uid == 0 && e.gid == 0 && e.kind == 0x30 && e.linkname == []
  {
    hide Norm, ReadBack, NameFits;
    EightDigits();
    RestoredIff(FileOf(m, now));
  }

  /** A record comes back with what it gives; a field left out is as for bare content. */
  lemma RecordRestored(m: Member, now: nat)
    requires m.spec.Spec? && NameFits(FileOf(m, now)) && FieldsFit(FileOf(m, now))
    ensures var (e, s) := (ReadBack(FileOf(m, now), NOTHING), m.spec);
            && e.path == Norm(m.path) && e.checksumValid
            && (if s.mode.Some? then e.mode == s.mode.value else e.mode == 0x1a4)
            && (if s.uid.Some? then e.uid == s.uid.value else e.uid == 0)
            && (if s.gid.Some? then e.gid == s.gid.value else e.gid == 0)
            && (if s.mtime.Some? then e.mtime == s.mtime.value else e.mtime == now)
            && (if s.kind.Some? then e.kind == s.kind.value else e.kind == 0x30)
            && (if s.linkname.Some? then e.linkname == s.linkname.value else e.linkname == [])
            && (if s.data.Some? && s.kind != Some(0x35) then e.data == s.data.value else e.data == [])
  {
    hide Norm, ReadBack, NameFits, FieldsFit;
    RestoredIff(FileOf(m, now));
  }

  // ---- headers from elsewhere -------------------------------------------------------------

  /** The checksum of a whole header is right exactly when its field is 0 or the sum of
      the header with eight blanks in the field's place. */
  lemma ChecksumIff(h: Bytes, data: Bytes, pending: Pending)
    requires |h| == BLOCK
    ensures EntryOf(h, data, pending).checksumValid <==>
              Number(h, 148, 156) == 0
              || Number(h, 148, 156) == Sum(h[..148] + [0x20, 0x20, 0x20, 0x20, 0x20, 0x20, 0x20, 0x20] + h[156..])
  {
    hide Sum, ParseOctal, Norm, NameOf, Str;
    SumAround(h[..148], h[156..]);
  }

  lemma {:induction false} SumUpdate(b: Bytes, i: nat, v: U8)
    requires i < |b|
    ensures Sum(b[i := v]) == Sum(b) - b[i] + v
    decreases |b|
  {
    if i > 0 {
      assert b[i := v][1..] == b[1..][i - 1 := v];
      SumUpdate(b[1..], i - 1, v);
    } else {
      assert b[i := v][1..] == b[1..];
    }
  }

  /** One byte of a written header changed anywhere outside the checksum field, and
      the reader tells. */
  lemma CorruptionTold(f: File, i: nat, v: U8, data: Bytes, pending: Pending)
    requires i < BLOCK && !(148 <= i < 156) && v != Header(f)[i]
    ensures !EntryOf(Header(f)[i := v], data, pending).checksumValid
  {
    hide Sum, ParseOctal, Norm, NameOf, Str, Header, Front, Back, HeaderSum, EntryOf;
    var (h, g) := (Header(f), Header(f)[i := v]);
    WrittenCheck(f);
    assert Subarray(g, 148, 156) == Subarray(h, 148, 156);
    SumAround(h[..148], h[156..]);
    SumAround(g[..148], g[156..]);
    if i < 148 {
      assert g[..148] == h[..148][i := v] && g[156..] == h[156..];
      SumUpdate(h[..148], i, v);
    } else {
      assert g[..148] == h[..148] && g[156..] == h[156..][i - 156 := v];
      SumUpdate(h[156..], i - 156, v);
    }
    ChecksumIff(g, data, pending);
  }

  /** The checksum field of a written header is not 0 and is the right sum. */
  lemma WrittenCheck(f: File)
    ensures var h := Header(f); Number(h, 148, 156) == Sum(h[..148] + BLANKS + h[156..]) > 0
  {
    hide Sum, ParseOctal, Front, Back, Field, PadStart, Digits;
    CheckRead(Front(f), Back(f));
    SumAround(Front(f), Back(f));
    var h := Header(f);
    assert h[..148] == Front(f) && h[156..] == Back(f);
  }

  /** The ustar prefix: a header with a prefix has it and a slash in front of its name,
      unless a long name was announced, which takes the place of both; a header
      without one has its name alone. */
  lemma PrefixedName(h: Bytes, prefix: Bytes, name: Bytes, data: Bytes, pending: Pending)
    requires |h| == BLOCK && |prefix| <= 155 && |name| <= 100 && NoNul(prefix) && NoNul(name)
    requires h[345..500] == prefix + Zeros(155 - |prefix|) && h[0..100] == name + Zeros(100 - |name|)
    ensures EntryOf(h, data, pending).path
         == Norm(if pending.name != [] then pending.name
                 else if prefix != [] then prefix + [SLASH] + name else name)
  {
    hide Norm, CutNul, ParseOctal;
    PaddedRead(prefix, 155);
    PaddedRead(name, 100);
    assert Subarray(h, 345, 500) == h[345..500] && Subarray(h, 0, 100) == h[0..100];
  }

  lemma PaddedRead(s: Bytes, len: nat)
    requires |s| <= len && NoNul(s)
    ensures CutNul(s + Zeros(len - |s|)) == s
  {
    FieldRead(s, len);
    assert s[..Min(|s|, len)] == s && Field(s, len) == s + Zeros(len - |s|);
    CutAtNul(s, []);
  }

  // ---- the writer's code ----------------------------------------------------------------

  /** `writeString`. */
  method WriteString(buf: array<U8>, off: nat, len: nat, s: Bytes)
    requires off + len <= buf.Length
    modifies buf
    ensures var n := Min(|s|, len); buf[..] == old(buf[..off]) + s[..n] + old(buf[off + n..])
  {
    CopyInto(buf, off, s[..Min(|s|, len)]);
  }

  /** Writing the next field of a header whose rest is still zero. */
  method AppendField(h: array<U8>, ghost front: Bytes, off: nat, len: nat, s: Bytes)
    requires off == |front| && off + len <= h.Length && h[..] == front + Zeros(h.Length - off)
    modifies h
    ensures h[..] == (front + Field(s, len)) + Zeros(h.Length - off - len)
  {
    ghost var (was, n) := (h[..], Min(|s|, len));
    assert was[..off] == front && was[off + n..] == Zeros(h.Length - off - n);
    WriteString(h, off, len, s);
    assert Zeros(h.Length - off - n) == Zeros(len - n) + Zeros(h.Length - off - len);
  }

  method AppendOctal(h: array<U8>, ghost front: Bytes, off: nat, len: nat, n: nat)
    requires len > 1
    requires off == |front| && off + len <= h.Length && h[..] == front + Zeros(h.Length - off)
    modifies h
    ensures h[..] == (front + Octal(n, len)) + Zeros(h.Length - off - len)
  {
    AppendField(h, front, off, len, Octal(n, len));
    assert Field(Octal(n, len), len) == Octal(n, len);
  }

  method FillFront(h: array<U8>, f: File, size: nat)
    requires h.Length == BLOCK && h[..] == Zeros(BLOCK) && size == |DataOf(f)|
    modifies h
    ensures h[..] == Front(f) + Zeros(364)
  {
    hide Field, Octal, Zeros, Strip;
    assert [] + Zeros(BLOCK) == Zeros(BLOCK);
    AppendField(h, [], 0, 100, Strip(f.path));
    ghost var a := Field(Strip(f.path), 100);
    assert [] + a == a;
    AppendOctal(h, a, 100, 8, f.mode);
    AppendOctal(h, a + Octal(f.mode, 8), 108, 8, f.uid);
    AppendOctal(h, a + Octal(f.mode, 8) + Octal(f.uid, 8), 116, 8, f.gid);
    ghost var b := a + Octal(f.mode, 8) + Octal(f.uid, 8) + Octal(f.gid, 8);
    AppendOctal(h, b, 124, 12, size);
    AppendOctal(h, b + Octal(size, 12), 136, 12, f.mtime);
  }

  /** Blanks in the checksum field, and the type flag. */
  method FillMiddle(h: array<U8>, ghost front: Bytes, kind: U8)
    requires h.Length == BLOCK && |front| == 148 && h[..] == front + Zeros(364)
    modifies h
    ensures h[..] == (front + BLANKS + [kind]) + Zeros(355)
  {
    WriteString(h, 148, 8, BLANKS);
    h[156] := kind;
  }

  method FillBack(h: array<U8>, f: File)
    requires h.Length == BLOCK && h[..] == Front(f) + Zeros(364)
    modifies h
    ensures h[..] == Front(f) + BLANKS + Back(f)
  {
    hide Field, Front, Zeros;
    FillMiddle(h, Front(f), f.kind);
    ghost var a := Front(f) + BLANKS;
    FillTail(h, a + [f.kind], f);
    assert (a + [f.kind]) + Field(f.linkname, 100) + Field(USTAR, 6) + [ZERO, ZERO] + Zeros(247) == a + Back(f);
  }

  method FillTail(h: array<U8>, ghost a: Bytes, f: File)
    requires h.Length == BLOCK && |a| == 157 && h[..] == a + Zeros(355)
    modifies h
    ensures h[..] == a + Field(f.linkname, 100) + Field(USTAR, 6) + [ZERO, ZERO] + Zeros(247)
  {
    hide Zeros;
    AppendField(h, a, 157, 100, f.linkname);
    AppendField(h, a + Field(f.linkname, 100), 257, 6, USTAR);
    AppendField(h, a + Field(f.linkname, 100) + Field(USTAR, 6), 263, 2, [ZERO, ZERO]);
    assert Field([ZERO, ZERO], 2) == [ZERO, ZERO];
  }

  method SumOf(h: array<U8>) returns (sum: nat)
    ensures sum == Sum(h[..])
  {
    sum := 0;
    var i := 0;
    while i < h.Length
      invariant 0 <= i <= h.Length && sum + Sum(h[i..]) == Sum(h[..])
    {
      assert h[i..][1..] == h[i + 1..];
      sum := sum + h[i];
      i := i + 1;
    }
  }

  method BuildHeader(f: File) returns (h: array<U8>)
    ensures fresh(h) && h[..] == Header(f)
  {
    hide Front, Back, Zeros, Field, Sum;
    h := new U8[BLOCK](_ => 0);
    ZeroArray(h);
    FillFront(h, f, |DataOf(f)|);
    FillBack(h, f);
    var sum := SumOf(h);
    SumAround(Front(f), Back(f));
    ChecksumRead(sum);
    ghost var was := h[..];
    var c := PadStart(Digits(sum), 6) + [0, SPACE];
    WriteString(h, 148, 8, c);
    assert was[..148] == Front(f) && was[156..] == Back(f);
    FullField(c, 8);
  }

  lemma FullField(s: Bytes, len: nat)
    requires |s| == len
    ensures Field(s, len) == s && s[..len] == s
  {
  }

  lemma ZeroArray(h: array<U8>)
    requires forall i :: 0 <= i < h.Length ==> h[i] == 0
    ensures h[..] == Zeros(h.Length)
  {
  }

  /** `createTar`: the chunks, and then one buffer that they are copied into. */
  method CreateTar(members: seq<Member>, now: nat) returns (out: array<U8>)
    ensures out[..] == Archive(FilesOf(members, now))
  {
    hide Block, Concat, Zeros, Blocks;
    ghost var files := FilesOf(members, now);
    var chunks: seq<Bytes> := [];
    NoChunks(Blocks(files));
    assert files[0..] == files;
    for i := 0 to |members|
      invariant Concat(chunks) + Blocks(files[i..]) == Blocks(files)
    {
      NextBlock(files, i);
      chunks := AddMember(chunks, FileOf(members[i], now));
    }
    assert files[|members|..] == [] && Concat(chunks) + [] == Concat(chunks);
    ConcatSnoc(chunks, Zeros(1024));
    chunks := chunks + [Zeros(1024)];
    out := Flatten(chunks);
  }

  lemma NextBlock(files: seq<File>, i: nat)
    requires i < |files|
    ensures Blocks(files[i..]) == Block(files[i]) + Blocks(files[i + 1..])
  {
    hide Block;
    assert files[i..][0] == files[i] && files[i..][1..] == files[i + 1..];
  }

  lemma NoChunks(b: Bytes)
    ensures Concat([]) + b == b && Blocks([]) == []
  {
  }

  method AddMember(chunks: seq<Bytes>, f: File) returns (r: seq<Bytes>)
    ensures Concat(r) == Concat(chunks) + Block(f)
  {
    hide Concat, Header, Zeros, DataOf, PadTo512;
    var h := BuildHeader(f);
    var data := DataOf(f);
    var pad := PadTo512(|data|);
    r := chunks + [h[..]];
    ConcatSnoc(chunks, h[..]);
    ConcatSnoc(r, data);
    r := r + [data];
    if pad != 0 {
      ConcatSnoc(r, Zeros(pad));
      r := r + [Zeros(pad)];
    }
  }

  // ---- the reader's code ----------------------------------------------------------------

  lemma {:induction false} CutPrefix(b: Bytes, n: nat)
    requires n <= |b| && NoNul(b[..n]) && (n < |b| ==> b[n] == 0)
    ensures CutNul(b) == b[..n]
  {
    CutAtNul(b[..n], []);
    if n < |b| {
      CutAtNul(b[..n], b[n + 1..]);
      assert b == b[..n] + [0] + b[n + 1..];
    } else {
      assert b[..n] == b;
    }
  }

  method BytesToString(b: Bytes) returns (s: Bytes)
    ensures s == CutNul(b)
  {
    var end := 0;
    while end < |b| && b[end] != 0
      invariant 0 <= end <= |b| && NoNul(b[..end])
    {
      end := end + 1;
    }
    CutPrefix(b, end);
    s := b[..end];
  }

  /** The header is empty when all its 512 bytes are there and zero. */
  method IsEmpty(h: Bytes) returns (empty: bool)
    requires |h| <= BLOCK
    ensures empty <==> h == Zeros(BLOCK)
  {
    empty := true;
    for i := 0 to BLOCK
      invariant empty && i <= |h| && h[..i] == Zeros(i)
    {
      if i >= |h| || h[i] != 0 {
        assert h != Zeros(BLOCK);
        return false;
      }
    }
    assert h[..BLOCK] == h;
  }

  /** The sum of the first i bytes, those of the checksum field counted as blanks. */
  function SumTo(h: Bytes, i: nat): nat
    requires i <= |h|
  {
    if i == 0 then 0 else SumTo(h, i - 1) + if 148 <= i - 1 < 156 then SPACE else h[i - 1]
  }

  lemma {:induction false} SumTail(h: Bytes, i: nat)
    requires |h| == BLOCK && 156 <= i <= BLOCK && SumTo(h, 156) == Sum(h[..148]) + 8 * SPACE
    ensures SumTo(h, i) == Sum(h[..148]) + 8 * SPACE + Sum(h[156..i])
  {
    if i > 156 {
      SumTail(h, i - 1);
      assert h[156..i] == h[156..i - 1] + [h[i - 1]];
      SumAppend(h[156..i - 1], [h[i - 1]]);
    }
  }

  lemma {:induction false} SumHead(h: Bytes, i: nat)
    requires |h| == BLOCK && i <= 148
    ensures SumTo(h, i) == Sum(h[..i])
  {
    if i > 0 {
      SumHead(h, i - 1);
      assert h[..i] == h[..i - 1] + [h[i - 1]];
      SumAppend(h[..i - 1], [h[i - 1]]);
    }
  }

  lemma {:induction false} SumBlank(h: Bytes, i: nat)
    requires |h| == BLOCK && 148 <= i <= 156
    ensures SumTo(h, i) == Sum(h[..148]) + (i - 148) * SPACE
  {
    if i == 148 { SumHead(h, 148); } else { SumBlank(h, i - 1); }
  }

  /** A byte that is not there makes the sum NaN. */
  method ComputeChecksum(h: Bytes) returns (computed: Option<nat>)
    requires |h| <= BLOCK
    ensures computed == Computed(h)
  {
    var sum, whole := 0, true;
    for i := 0 to BLOCK
      invariant whole && i <= |h| ==> sum == SumTo(h, i)
      invariant (i <= |h| ==> whole) && (whole && i > 156 ==> i <= |h|)
    {
      if i >= 148 && i < 156 { sum := sum + SPACE; } else if i < |h| { sum := sum + h[i]; } else { whole := false; }
    }
    if whole {
      SumBlank(h, 156);
      SumTail(h, BLOCK);
      assert h[156..BLOCK] == h[156..];
    }
    computed := if whole then Some(sum) else None;
  }

  method ReadName(h: Bytes, pending: Pending) returns (name: Bytes)
    ensures name == NameOf(h, pending)
  {
    hide CutNul, Subarray;
    name := BytesToString(Subarray(h, 0, 100));
    var prefix := BytesToString(Subarray(h, 345, 500));
    if pending.name != [] { name := pending.name; }
    else if prefix != [] { name := prefix + [SLASH] + name; }
  }

  method ReadEntry(h: Bytes, data: Bytes, pending: Pending) returns (e: Entry)
    requires |h| <= BLOCK
    ensures e == EntryOf(h, data, pending)
  {
    hide CutNul, ParseOctal, Norm, NameOf, Computed, Subarray, KindOf;
    var mode := ParseOctal(Subarray(h, 100, 108));
    if mode == 0 { mode := 0x1a4; }
    var uid, gid := ParseOctal(Subarray(h, 108, 116)), ParseOctal(Subarray(h, 116, 124));
    var size, mtime := ParseOctal(Subarray(h, 124, 136)), ParseOctal(Subarray(h, 136, 148));
    var checksum := ParseOctal(Subarray(h, 148, 156));
    var linkname := BytesToString(Subarray(h, 157, 257));
    var magic := BytesToString(Subarray(h, 257, 263));
    var uname := BytesToString(Subarray(h, 265, 297));
    var gname := BytesToString(Subarray(h, 297, 329));
    var devmajor, devminor := ParseOctal(Subarray(h, 329, 337)), ParseOctal(Subarray(h, 337, 345));
    var name := ReadName(h, pending);
    if pending.link != [] { linkname := pending.link; }
    var computed := ComputeChecksum(h);
    var path := NormPath(name);
    e := Entry(path, mode, uid, gid, size, mtime, checksum, checksum == 0 || computed == Some(checksum), KindOf(h),
               linkname, magic, uname, gname, devmajor, devminor, data);
  }

  method ReadTurn(bytes: Bytes, off: int, pending: Pending) returns (t: Turn)
    requires off + BLOCK <= |bytes|
    ensures t == TurnAt(bytes, off, pending)
  {
    hide CutNul, ParseOctal, EntryOf, KindOf, Ceil512, Subarray;
    var h := HeaderAt(bytes, off);
    HeaderShort(bytes, off);
    var empty := IsEmpty(h);
    if empty { return Stop; }
    var size := ParseOctal(Subarray(h, 124, 136));
    var start := off + BLOCK;
    var data := Subarray(bytes, start, Min(start + size, |bytes|));
    var next := start + Ceil512(size);
    if KindOf(h) == LONG_NAME {
      var name := BytesToString(data);
      return Note(pending.(name := name), next);
    }
    if KindOf(h) == LONG_LINK {
      var link := BytesToString(data);
      return Note(pending.(link := link), next);
    }
    var e := ReadEntry(h, data, pending);
    t := Take(e, NOTHING, next);
  }

  lemma HeaderShort(bytes: Bytes, off: int)
    ensures |HeaderAt(bytes, off)| <= BLOCK
  {
  }

  lemma EndStops(bytes: Bytes, off: int, pending: Pending, n: nat)
    requires off + BLOCK > |bytes|
    ensures Turns(bytes, off, pending, n) == Some([])
  {
    hide TurnOn;
  }

  /** The entries after one more turn, with n turns left. */
  lemma OneMore(entries: seq<Entry>, bytes: Bytes, off: int, pending: Pending, n: nat)
    ensures var t := TurnAt(bytes, off, pending);
            Onto(entries, Turns(bytes, off, pending, n)) ==
            if t.Stop? then Some(entries)
            else if n == 0 then None
            else Onto(if t.Take? then entries + [t.entry] else entries, Turns(bytes, t.next, t.pending, n - 1))
  {
    hide TurnAt;
    var t := TurnAt(bytes, off, pending);
    assert entries + [] == entries;
    if t.Take? && n > 0 {
      var more := Turns(bytes, t.next, t.pending, n - 1);
      if more.Some? { assert entries + ([t.entry] + more.value) == (entries + [t.entry]) + more.value; }
    }
  }

  /** `parseTarEntries`, watched for so many turns: its entries, or None while it
      still runs. */
  method ParseTarEntries(bytes: Bytes, turns: nat) returns (r: Option<seq<Entry>>)
    ensures r == Turns(bytes, 0, NOTHING, turns)
  {
    hide TurnAt, Turns;
    var entries: seq<Entry> := [];
    var (pending, off, left) := (NOTHING, 0, turns);
    ghost var whole := Turns(bytes, 0, NOTHING, turns);
    assert whole.Some? ==> [] + whole.value == whole.value;
    while off + BLOCK <= |bytes|
      invariant left >= 0 && whole == Onto(entries, Turns(bytes, off, pending, left))
      decreases left
    {
      OneMore(entries, bytes, off, pending, left);
      var t := ReadTurn(bytes, off, pending);
      if t.Stop? { return Some(entries); }
      if left == 0 { return None; }
      if t.Take? { entries := entries + [t.entry]; }
      off, pending, left := t.next, t.pending, left - 1;
    }
    EndStops(bytes, off, pending, left);
    assert entries + [] == entries;
    r := Some(entries);
  }
}

/** Eight bytes at a time in one machine word. Subtraction borrows from byte to byte, so a
    flag above a zero byte may be wrong; but up to the first byte that stops the skip
    nothing borrows, and the first flag is right. */
module Swar {
  import opened Utf8
  import opened Bits
  import opened AsciiSkip

  type Octets = seq<bv8>

  /** A 64-bit word by its bytes, least significant first. */
  type Word = w: Octets | |w| == 8 witness [0, 0, 0, 0, 0, 0, 0, 0]

  /** The byte values of stored octets. */
  function Values(s: Octets): (h: Bytes)
    ensures |h| == |s| && forall k :: 0 <= k < |s| ==> h[k] == s[k] as int
  {
    seq(|s|, k requires 0 <= k < |s| => s[k] as int)
  }

  /** A little-endian load. */
  function Load(s: Octets, at: nat): (w: Word)
    requires at + 8 <= |s|
    ensures forall k :: 0 <= k < 8 ==> w[k] == s[at + k]
  {
    s[at..at + 8]
  }

  // ----- subtraction with borrow

  /** Whether subtracting 1 from each of the first `k` bytes borrows from byte `k`. */
  predicate Borrow(d: Octets, k: nat)
    requires k <= |d|
  {
    k > 0 && (d[k - 1] == 0 || (d[k - 1] == 1 && Borrow(d, k - 1)))
  }

  /** Byte `k` of the word less 0x01 in every byte. */
  function LessOnes(d: Octets, k: nat): bv8
    requires k < |d|
  {
    d[k] - 1 - (if Borrow(d, k) then 1 else 0)
  }

  /** The number the bytes spell. */
  function Number(d: Octets): nat {
    if d == [] then 0 else (d[0] as int) + 0x100 * Number(d[1..])
  }

  function Ones(n: nat): nat {
    if n == 0 then 0 else Ones(n - 1) * 0x100 + 1
  }

  function Power(n: nat): nat {
    if n == 0 then 1 else 0x100 * Power(n - 1)
  }

  function Difference(d: Octets, n: nat): Octets
    requires n <= |d|
  {
    if n == 0 then [] else Difference(d, n - 1) + [LessOnes(d, n - 1)]
  }

  lemma {:induction false} ByteBorrow(x: bv8, b: bool)
    ensures (x - 1 - (if b then 1 else 0)) as int ==
              (x as int) - 1 - (if b then 1 else 0) + (if x == 0 || (x == 1 && b) then 0x100 else 0)
  {
  }

  lemma {:induction false} NumberAppend(d: Octets, x: bv8)
    ensures Number(d + [x]) == Number(d) + (x as int) * Power(|d|)
  {
    if d == [] {
      assert d + [x] == [x];
    } else {
      assert (d + [x])[1..] == d[1..] + [x];
      NumberAppend(d[1..], x);
      Scale(x as int, Power(|d| - 1));
    }
  }

  lemma {:induction false} Scale(x: nat, p: nat)
    ensures 0x100 * (x * p) == x * (0x100 * p)
  {
  }

  lemma {:induction false} OnesGrow(n: nat)
    ensures Ones(n + 1) == Ones(n) + Power(n)
  {
    if n > 0 {
      OnesGrow(n - 1);
    }
  }

  lemma {:induction false} ByteStep(d: Octets, n: nat)
    requires 0 < n <= |d|
    ensures LessOnes(d, n - 1) as int ==
              d[n - 1] as int - 1 - (if Borrow(d, n - 1) then 1 else 0) + (if Borrow(d, n) then 0x100 else 0)
  {
    ByteBorrow(d[n - 1], Borrow(d, n - 1));
  }

  /** Byte by byte with borrows is subtraction of numbers. */
  lemma {:induction false} BorrowIsSubtraction(d: Octets, n: nat)
    requires n <= |d|
    ensures |Difference(d, n)| == n
    ensures Number(Difference(d, n)) == Number(d[..n]) - Ones(n) + (if Borrow(d, n) then Power(n) else 0)
  {
    hide Number, Ones, LessOnes, Borrow;
    if n > 0 {
      BorrowIsSubtraction(d, n - 1);
      NumberAppend(Difference(d, n - 1), LessOnes(d, n - 1));
      NumberAppend(d[..n - 1], d[n - 1]);
      assert d[..n] == d[..n - 1] + [d[n - 1]];
      OnesGrow(n - 1);
      ByteStep(d, n);
      Distribute(LessOnes(d, n - 1) as int, d[n - 1] as int, Borrow(d, n - 1), Borrow(d, n), Power(n - 1));
    } else {
      NothingSubtracted(d);
    }
  }

  lemma {:induction false} NothingSubtracted(d: Octets)
    ensures Number([]) == 0 && Number(d[..0]) == 0 && Ones(0) == 0 && !Borrow(d, 0)
  {
    assert d[..0] == [];
  }

  lemma {:induction false} Distribute(y: int, x: int, b: bool, c: bool, p: nat)
    requires y == x - 1 - (if b then 1 else 0) + (if c then 0x100 else 0)
    ensures y * p == x * p - p - (if b then p else 0) + (if c then 0x100 * p else 0)
  {
    if c {
      assert y * p == (x - 1 - (if b then 1 else 0)) * p + 0x100 * p;
    }
  }

  // ----- the flags

  /** Byte `k` is flagged as zero; above a zero byte the flag may be wrong. */
  predicate ZeroFlag(d: Octets, k: nat)
    requires k < |d|
  {
    LessOnes(d, k) & !d[k] & 0x80 != 0
  }

  lemma {:induction false} NoBorrow(d: Octets, k: nat)
    requires k <= |d| && forall j :: 0 <= j < k ==> d[j] != 0
    ensures !Borrow(d, k)
  {
    if k > 0 {
      NoBorrow(d, k - 1);
    }
  }

  lemma {:induction false} ByteFlag(x: bv8)
    ensures (x - 1 - 0) & !x & 0x80 != 0 <==> x == 0
  {
  }

  /** Up to the first zero byte nothing borrows and the flags are exact. */
  lemma {:induction false} FlagIsZero(d: Octets, k: nat)
    requires k < |d| && forall j :: 0 <= j < k ==> d[j] != 0
    ensures ZeroFlag(d, k) <==> d[k] == 0
  {
    NoBorrow(d, k);
    ByteFlag(d[k]);
  }

  function CaseBit(kind: Kind): bv8 {
    if kind == AsciiFold then 0x20 else 0
  }

  /** The word with its case bits set where they are ignored, against the needle. */
  function Mismatch(w: Word, kind: Kind, needle: bv8): (d: Word)
    ensures forall k :: 0 <= k < 8 ==> d[k] == (w[k] | CaseBit(kind)) ^ needle
  {
    seq(8, k requires 0 <= k < 8 => (w[k] | CaseBit(kind)) ^ needle)
  }

  predicate StopFlag(w: Word, kind: Kind, needle: bv8, k: nat)
    requires k < 8
  {
    w[k] & 0x80 != 0 || ZeroFlag(Mismatch(w, kind, needle), k)
  }

  /** Trailing zeros over eight: the first flagged byte, or 8. */
  function FirstFlag(w: Word, kind: Kind, needle: bv8, k: nat): (n: nat)
    requires k <= 8
    ensures k <= n <= 8 && (n < 8 ==> StopFlag(w, kind, needle, n)) && forall j :: k <= j < n ==> !StopFlag(w, kind, needle, j)
    decreases 8 - k
  {
    if k == 8 || StopFlag(w, kind, needle, k) then k else FirstFlag(w, kind, needle, k + 1)
  }

  /** The byte is high or meets the needle. */
  predicate Stop(b: bv8, kind: Kind, needle: bv8) {
    b & 0x80 != 0 || (b | CaseBit(kind)) == needle
  }

  lemma {:induction false} XorZero(a: bv8, b: bv8)
    ensures a ^ b == 0 <==> a == b
  {
  }

  /** Up to the first stop each flag says whether its byte stops. */
  lemma {:induction false} FlagIsStop(w: Word, kind: Kind, needle: bv8, k: nat)
    requires k < 8 && forall j :: 0 <= j < k ==> !Stop(w[j], kind, needle)
    ensures StopFlag(w, kind, needle, k) <==> Stop(w[k], kind, needle)
  {
    var d := Mismatch(w, kind, needle);
    forall j | 0 <= j <= k ensures d[j] == 0 <==> (w[j] | CaseBit(kind)) == needle {
      XorZero(w[j] | CaseBit(kind), needle);
    }
    forall j | 0 <= j < k ensures d[j] != 0 {
      assert !Stop(w[j], kind, needle);
    }
    FlagIsZero(d, k);
  }

  /** The first flag is the first stop, whatever the flags above it say. */
  lemma {:induction false} FirstFlagIsFirstStop(w: Word, kind: Kind, needle: bv8, k: nat)
    requires k <= FirstFlag(w, kind, needle, 0)
    ensures forall j :: 0 <= j < k ==> !Stop(w[j], kind, needle)
    ensures k < 8 && k == FirstFlag(w, kind, needle, 0) ==> Stop(w[k], kind, needle)
  {
    hide StopFlag, Stop;
    if k > 0 {
      FirstFlagIsFirstStop(w, kind, needle, k - 1);
      FlagIsStop(w, kind, needle, k - 1);
    }
    if k < 8 {
      FlagIsStop(w, kind, needle, k);
    }
  }

  // ----- stops as byte values

  lemma {:induction false} HighBit(b: bv8)
    ensures b & 0x80 == 0 <==> IsAscii(b as int)
  {
  }

  lemma {:induction false} LowerBit(b: bv8)
    ensures (b | 0x20) as int == Lower(b as int)
  {
    assert b & 0x20 == 0 <==> (b as int) / 0x20 % 2 == 0;
  }

  lemma {:induction false} SameValue(a: bv8, b: bv8)
    ensures a as int == b as int <==> a == b
  {
  }

  /** Stopping is what the byte scan stops at. */
  lemma {:induction false} StopMeans(b: bv8, kind: Kind, needle: bv8)
    ensures Stop(b, kind, needle) <==> !IsAscii(b as int) || Meets(kind, needle as int, b as int)
  {
    HighBit(b);
    LowerBit(b);
    SameValue(b | 0x20, needle);
    SameValue(b, needle);
    assert b | 0 == b;
  }

  /** The text as octets. */
  function Stored(h: Bytes): (s: Octets)
    ensures Values(s) == h
  {
    seq(|h|, k requires 0 <= k < |h| => Octet(h[k]))
  }

  /** Skip by bytes or by words: the same count. */
  method RootSkip(h: Bytes, at: nat, kind: Kind, needle: byte) returns (skipped: nat)
    requires at <= |h|
    ensures at + skipped <= |h|
    ensures forall q :: at <= q < at + skipped ==> IsAscii(h[q]) && !Meets(kind, needle, h[q])
    ensures at + skipped < |h| ==> !IsAscii(h[at + skipped]) || Meets(kind, needle, h[at + skipped])
  {
    hide Meets;
    if * {
      skipped := RootSkipASCII(h, at, kind, needle);
    } else {
      skipped := RootSkipScalar(Stored(h), at, kind, Octet(needle));
    }
  }

  /** The skip of the byte scan, by words and then by bytes. */
  method RootSkipScalar(s: Octets, at0: nat, kind: Kind, needle: bv8) returns (skipped: nat)
    requires at0 <= |s|
    ensures at0 + skipped <= |s|
    ensures forall q :: at0 <= q < at0 + skipped ==> IsAscii(Values(s)[q]) && !Meets(kind, needle as int, Values(s)[q])
    ensures at0 + skipped < |s| ==> !IsAscii(Values(s)[at0 + skipped]) || Meets(kind, needle as int, Values(s)[at0 + skipped])
  {
    hide Stop, FirstFlag, Meets, StopFlag;
    forall q | 0 <= q < |s| ensures Stop(s[q], kind, needle) <==> !IsAscii(Values(s)[q]) || Meets(kind, needle as int, Values(s)[q]) {
      StopMeans(s[q], kind, needle);
    }
    var at := at0;
    while |s| - at >= 8
      invariant at0 <= at <= |s| && forall q :: at0 <= q < at ==> !Stop(s[q], kind, needle)
      decreases |s| - at
    {
      var w := Load(s, at);
      var n := FirstFlag(w, kind, needle, 0);
      FirstFlagIsFirstStop(w, kind, needle, n);
      forall q | at <= q < at + n ensures !Stop(s[q], kind, needle) {
        assert w[q - at] == s[at + (q - at)];
      }
      at := at + n;
      if n < 8 {
        return at - at0;
      }
    }
    while at < |s| && !Stop(s[at], kind, needle)
      invariant at0 <= at <= |s| && forall q :: at0 <= q < at ==> !Stop(s[q], kind, needle)
    {
      at := at + 1;
    }
    return at - at0;
  }
}

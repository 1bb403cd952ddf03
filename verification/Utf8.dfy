/** UTF-8 as section 4 of RFC 3629 defines it: the lengths, the scalar values and
    the encodings of well-formed sequences. A byte that starts no well-formed
    sequence is malformed and is handled one byte at a time by the callers. */
module Utf8 {

  type byte = b: int | 0 <= b < 256

  type Bytes = seq<byte>

  predicate IsContinuation(b: byte) {
    0x80 <= b < 0xC0
  }

  predicate IsAscii(b: byte) {
    b < 0x80
  }

  predicate AsciiRange(h: Bytes, start: nat, end: nat) {
    start <= end <= |h| && forall q :: start <= q < end ==> IsAscii(h[q])
  }

  predicate IsScalar(r: int) {
    0 <= r < 0xD800 || 0xE000 <= r <= 0x10FFFF
  }

  /** The second byte of a three- or four-byte form, narrowed for the lead bytes
      that would otherwise admit overlong forms, surrogates or out-of-range values. */
  predicate SecondByte(lead: byte, b: byte) {
    match lead
    case 0xE0 => 0xA0 <= b < 0xC0
    case 0xED => 0x80 <= b < 0xA0
    case 0xF0 => 0x90 <= b < 0xC0
    case 0xF4 => 0x80 <= b < 0x90
    case _ => IsContinuation(b)
  }

  /** The length of the well-formed sequence that starts at `at`, or 0 when the
      byte there is malformed. */
  function FormLen(s: Bytes, at: nat): (n: nat)
    requires at < |s|
    ensures n <= 4 && at + n <= |s|
  {
    var lead, left := s[at], |s| - at;
    if lead < 0x80 then 1
    else if 0xC2 <= lead <= 0xDF then
      if left >= 2 && IsContinuation(s[at + 1]) then 2 else 0
    else if 0xE0 <= lead <= 0xEF then
      if left >= 3 && SecondByte(lead, s[at + 1]) && IsContinuation(s[at + 2]) then 3 else 0
    else if 0xF0 <= lead <= 0xF4 then
      if left >= 4 && SecondByte(lead, s[at + 1]) && IsContinuation(s[at + 2]) && IsContinuation(s[at + 3]) then 4 else 0
    else 0
  }

  /** The scalar value of the well-formed sequence that starts at `at`. */
  function FormRune(s: Bytes, at: nat): (r: int)
    requires at < |s| && FormLen(s, at) > 0
    ensures IsScalar(r)
    ensures IsAscii(s[at]) <==> r < 0x80
  {
    var lead: int := s[at];
    match FormLen(s, at)
    case 1 => lead
    case 2 => (lead - 0xC0) * 0x40 + Trail(s[at + 1])
    case 3 => (lead - 0xE0) * 0x1000 + Trail(s[at + 1]) * 0x40 + Trail(s[at + 2])
    case _ => (lead - 0xF0) * 0x40000 + Trail(s[at + 1]) * 0x1000 + Trail(s[at + 2]) * 0x40 + Trail(s[at + 3])
  }

  function Trail(b: byte): int {
    b as int - 0x80
  }

  function RuneLen(r: int): (n: nat)
    requires IsScalar(r)
    ensures 1 <= n <= 4
  {
    if r < 0x80 then 1 else if r < 0x800 then 2 else if r < 0x10000 then 3 else 4
  }

  function Encode(r: int): (s: Bytes)
    requires IsScalar(r)
    ensures |s| == RuneLen(r)
    ensures !IsContinuation(s[0])
    ensures forall k :: 0 < k < |s| ==> IsContinuation(s[k])
  {
    if r < 0x80 then [r]
    else if r < 0x800 then [0xC0 + r / 0x40, 0x80 + r % 0x40]
    else if r < 0x10000 then [0xE0 + r / 0x1000, 0x80 + r / 0x40 % 0x40, 0x80 + r % 0x40]
    else [0xF0 + r / 0x40000, 0x80 + r / 0x1000 % 0x40, 0x80 + r / 0x40 % 0x40, 0x80 + r % 0x40]
  }

  /** Dropping six bits at a time is one division. */
  lemma {:induction false} Digits(r: int)
    requires 0 <= r
    ensures r / 0x40 / 0x40 == r / 0x1000 && r / 0x40 / 0x1000 == r / 0x40000
    ensures r == r / 0x40 * 0x40 + r % 0x40
  {
  }

  /** The bytes of an encoding, wherever it stands. */
  lemma {:induction false} EncodingAt(s: Bytes, at: nat, r: int)
    requires IsScalar(r) && at + RuneLen(r) <= |s|
    requires s[at..at + RuneLen(r)] == Encode(r)
    ensures forall k :: 0 <= k < RuneLen(r) ==> s[at + k] == Encode(r)[k]
  {
    hide Encode;
    var e := Encode(r);
    forall k | 0 <= k < |e| ensures s[at + k] == e[k] {
      assert s[at + k] == s[at..at + |e|][k];
    }
  }

  lemma {:induction false} EncodedLen(s: Bytes, at: nat, r: int)
    requires IsScalar(r) && at + RuneLen(r) <= |s| && forall k :: 0 <= k < RuneLen(r) ==> s[at + k] == Encode(r)[k]
    ensures FormLen(s, at) == RuneLen(r)
  {
    assert s[at + 0] == Encode(r)[0];
    assert RuneLen(r) > 1 ==> s[at + 1] == Encode(r)[1];
    assert RuneLen(r) > 2 ==> s[at + 2] == Encode(r)[2];
    assert RuneLen(r) > 3 ==> s[at + 3] == Encode(r)[3];
    Digits(r);
  }

  /** Decoding undoes encoding, wherever the encoding stands. */
  lemma {:induction false} DecodeEncode(s: Bytes, at: nat, r: int)
    requires IsScalar(r) && at + RuneLen(r) <= |s|
    requires s[at..at + RuneLen(r)] == Encode(r)
    ensures FormLen(s, at) == RuneLen(r) && FormRune(s, at) == r
  {
    hide FormLen;
    EncodingAt(s, at, r);
    EncodedLen(s, at, r);
    assert s[at + 0] == Encode(r)[0];
    Digits(r);
    Digits(r / 0x40);
    Digits(r / 0x1000);
  }

  /** Encoding undoes decoding: a well-formed sequence is the encoding of its value. */
  lemma {:induction false} EncodeDecode(s: Bytes, at: nat)
    requires at < |s| && FormLen(s, at) > 0
    ensures RuneLen(FormRune(s, at)) == FormLen(s, at)
    ensures s[at..at + FormLen(s, at)] == Encode(FormRune(s, at))
  {
    var n, r, lead: int := FormLen(s, at), FormRune(s, at), s[at];
    if n == 2 {
      Sextets2(lead - 0xC0, Trail(s[at + 1]));
      assert Encode(r) == [s[at], s[at + 1]];
    } else if n == 3 {
      Sextets3(lead - 0xE0, Trail(s[at + 1]), Trail(s[at + 2]));
      assert Encode(r) == [s[at], s[at + 1], s[at + 2]];
    } else if n == 4 {
      Sextets4(lead - 0xF0, Trail(s[at + 1]), Trail(s[at + 2]), Trail(s[at + 3]));
      assert Encode(r) == [s[at], s[at + 1], s[at + 2], s[at + 3]];
    }
  }

  lemma {:induction false} Sextets2(a: int, b: int)
    requires 0 <= a && 0 <= b < 0x40
    ensures (a * 0x40 + b) / 0x40 == a && (a * 0x40 + b) % 0x40 == b
  {
  }

  lemma {:induction false} Sextets3(a: int, b: int, c: int)
    requires 0 <= a && 0 <= b < 0x40 && 0 <= c < 0x40
    ensures var r := a * 0x1000 + b * 0x40 + c;
            r / 0x1000 == a && r / 0x40 % 0x40 == b && r % 0x40 == c
  {
    Sextets2(a, b);
    Sextets2(a * 0x40 + b, c);
  }

  lemma {:induction false} Sextets4(a: int, b: int, c: int, d: int)
    requires 0 <= a && 0 <= b < 0x40 && 0 <= c < 0x40 && 0 <= d < 0x40
    ensures var r := a * 0x40000 + b * 0x1000 + c * 0x40 + d;
            r / 0x40000 == a && r / 0x1000 % 0x40 == b && r / 0x40 % 0x40 == c && r % 0x40 == d
  {
    Sextets3(a, b, c);
    Sextets2(a * 0x1000 + b * 0x40 + c, d);
    Digits(a * 0x40000 + b * 0x1000 + c * 0x40 + d);
  }

  // ----- which sequences, and which scalar each stands for

  predicate Tail(b: byte) {
    0x80 <= b <= 0xBF
  }

  /** The grammar of RFC 3629, section 4: UTF8-1 to UTF8-4, with the bounds on second bytes. */
  predicate Utf8Char(s: Bytes) {
    || (|s| == 1 && s[0] <= 0x7F)
    || (|s| == 2 && 0xC2 <= s[0] <= 0xDF && Tail(s[1]))
    || (|s| == 3 && Tail(s[2]) &&
          (|| (s[0] == 0xE0 && 0xA0 <= s[1] <= 0xBF) || (0xE1 <= s[0] <= 0xEC && Tail(s[1]))
           || (s[0] == 0xED && 0x80 <= s[1] <= 0x9F) || (0xEE <= s[0] <= 0xEF && Tail(s[1]))))
    || (|s| == 4 && Tail(s[2]) && Tail(s[3]) &&
          (|| (s[0] == 0xF0 && 0x90 <= s[1] <= 0xBF) || (0xF1 <= s[0] <= 0xF3 && Tail(s[1]))
           || (s[0] == 0xF4 && 0x80 <= s[1] <= 0x8F)))
  }

  /** Decoding takes exactly the sequences of the grammar. */
  lemma {:induction false} FormIsChar(s: Bytes, at: nat, n: nat)
    requires at < |s| && n > 0
    ensures FormLen(s, at) == n <==> at + n <= |s| && Utf8Char(s[at..at + n])
  {
    if at + n <= |s| {
      var t := s[at..at + n];
      forall k: nat | k < n ensures t[k] == s[at + k] {
      }
    }
  }

  /** The encodings of scalars are exactly the sequences of the grammar. */
  lemma {:induction false} EncodingIsChar(s: Bytes)
    ensures Utf8Char(s) <==> exists r :: IsScalar(r) && s == Encode(r)
  {
    if Utf8Char(s) {
      assert s[0..0 + |s|] == s;
      FormIsChar(s, 0, |s|);
      EncodeDecode(s, 0);
    }
    if r :| IsScalar(r) && s == Encode(r) {
      assert s[0..0 + |s|] == s;
      DecodeEncode(s, 0, r);
      FormIsChar(s, 0, |s|);
    }
  }

  /** The sequences differ, and where they first do the byte of `s` is lower. */
  ghost predicate Precedes(s: Bytes, t: Bytes) {
    exists k: nat :: k < |s| && k < |t| && s[..k] == t[..k] && s[k] < t[k]
  }

  /** Dropping six bits keeps the order, and what is dropped decides when nothing else does. */
  lemma {:induction false} SixBits(a: int, b: int)
    requires 0 <= a < b
    ensures a / 0x40 <= b / 0x40 && (a / 0x40 == b / 0x40 ==> a % 0x40 < b % 0x40)
  {
  }

  /** Sequences that begin alike differ as their remainders do. */
  lemma {:induction false} AlikeThen(p: Bytes, s: Bytes, t: Bytes)
    requires Precedes(s, t)
    ensures Precedes(p + s, p + t)
  {
    var k: nat :| k < |s| && k < |t| && s[..k] == t[..k] && s[k] < t[k];
    var j: nat := |p| + k;
    assert (p + s)[..j] == p + s[..k] && (p + t)[..j] == p + t[..k];
    assert (p + s)[j] == s[k] && (p + t)[j] == t[k];
  }

  lemma {:induction false} LowerThen(a: byte, b: byte, s: Bytes, t: Bytes)
    requires a < b || (a == b && Precedes(s, t))
    ensures Precedes([a] + s, [b] + t)
  {
    if a < b {
      assert ([a] + s)[..0] == ([b] + t)[..0];
    } else {
      AlikeThen([a], s, t);
    }
  }

  /** The trailing bytes of an encoding, `n` of them. */
  function Trails(r: int, n: nat): (s: Bytes)
    requires 0 <= r && n <= 3
    ensures |s| == n
  {
    if n == 0 then [] else Trails(r / 0x40, n - 1) + [0x80 + r % 0x40]
  }

  function Above(r: int, n: nat): (q: int)
    requires 0 <= r
    ensures 0 <= q
  {
    if n == 0 then r else Above(r / 0x40, n - 1)
  }

  /** What stands above the trailing bytes decides, and then they do. */
  lemma {:induction false} TrailsOrder(a: int, b: int, n: nat)
    requires 0 <= a < b && n <= 3
    ensures Above(a, n) < Above(b, n) || (Above(a, n) == Above(b, n) && Precedes(Trails(a, n), Trails(b, n)))
  {
    if n > 0 {
      SixBits(a, b);
      var s, t := Trails(a / 0x40, n - 1), Trails(b / 0x40, n - 1);
      if a / 0x40 < b / 0x40 {
        TrailsOrder(a / 0x40, b / 0x40, n - 1);
        if Above(a, n) == Above(b, n) {
          PrecedesOn(s, t, [0x80 + a % 0x40], [0x80 + b % 0x40]);
        }
      } else {
        assert Precedes([0x80 + a % 0x40], [0x80 + b % 0x40]) by {
          LowerThen(0x80 + a % 0x40, 0x80 + b % 0x40, [], []);
        }
        AlikeThen(s, [0x80 + a % 0x40], [0x80 + b % 0x40]);
      }
    }
  }

  lemma {:induction false} PrecedesOn(s: Bytes, t: Bytes, u: Bytes, v: Bytes)
    requires Precedes(s, t)
    ensures Precedes(s + u, t + v)
  {
    var k: nat :| k < |s| && k < |t| && s[..k] == t[..k] && s[k] < t[k];
    assert (s + u)[..k] == s[..k] && (t + v)[..k] == t[..k];
  }

  /** An encoding is its lead byte and its trailing bytes. */
  lemma {:induction false} EncodeTrails(r: int) returns (lead: byte)
    requires IsScalar(r)
    ensures var n: nat := RuneLen(r) - 1; Encode(r) == [lead] + Trails(r, n) && lead == [0, 0xC0, 0xE0, 0xF0][n] + Above(r, n)
  {
    Digits(r);
    lead := Encode(r)[0];
    Unrolled(r);
  }

  lemma {:induction false} Unrolled(r: int)
    requires 0 <= r
    ensures Above(r, 0) == r && Above(r, 1) == r / 0x40 && Above(r, 2) == r / 0x40 / 0x40 && Above(r, 3) == r / 0x40 / 0x40 / 0x40
    ensures Trails(r, 0) == [] && Trails(r, 1) == [0x80 + r % 0x40] && Trails(r, 2) == [0x80 + r / 0x40 % 0x40, 0x80 + r % 0x40]
    ensures Trails(r, 3) == [0x80 + r / 0x40 / 0x40 % 0x40, 0x80 + r / 0x40 % 0x40, 0x80 + r % 0x40]
  {
    assert Above(r / 0x40, 1) == r / 0x40 / 0x40 && Above(r / 0x40 / 0x40, 1) == r / 0x40 / 0x40 / 0x40;
    assert Trails(r / 0x40 / 0x40, 1) == [0x80 + r / 0x40 / 0x40 % 0x40];
    assert Trails(r / 0x40, 1) == [0x80 + r / 0x40 % 0x40];
    assert Trails(r / 0x40, 2) == Trails(r / 0x40 / 0x40, 1) + [0x80 + r / 0x40 % 0x40];
  }

  /** RFC 3629, section 1: the bytewise order of the encodings is the order of the scalars.
      With the grammar this leaves only one encoding. */
  lemma {:induction false} EncodeOrder(a: int, b: int)
    requires IsScalar(a) && IsScalar(b) && a < b
    ensures Precedes(Encode(a), Encode(b))
  {
    hide Encode, Trails, Above;
    var n: nat := RuneLen(a) - 1;
    var x := EncodeTrails(a);
    var y := EncodeTrails(b);
    if RuneLen(a) == RuneLen(b) {
      TrailsOrder(a, b, n);
    } else {
      LeadsApart(a, b);
    }
    LowerThen(x, y, Trails(a, n), Trails(b, RuneLen(b) - 1));
  }

  /** Longer encodings have higher lead bytes. */
  lemma {:induction false} LeadsApart(a: int, b: int)
    requires IsScalar(a) && IsScalar(b) && RuneLen(a) < RuneLen(b)
    ensures Encode(a)[0] < Encode(b)[0]
  {
    Digits(a);
    Digits(b);
  }
}

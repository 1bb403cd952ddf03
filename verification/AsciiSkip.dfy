/** Skipping ASCII that leaves the automaton at its root: a single root byte (or the
    two cases of one letter), possibly narrowed by a required second byte. */
module AsciiSkip {
  import opened Utf8

  /** How a byte is compared with a needle. */
  datatype Kind = Generic | Exact | AsciiFold

  /** `b | 0x20`. */
  function Lower(b: byte): byte {
    if b / 0x20 % 2 == 0 then b + 0x20 else b
  }

  predicate IsAsciiLetter(b: byte) {
    'A' as int <= b <= 'Z' as int || 'a' as int <= b <= 'z' as int
  }

  predicate Meets(kind: Kind, needle: byte, b: byte) {
    match kind
    case AsciiFold => Lower(b) == needle
    case _ => b == needle
  }

  /** `kind` and `needle` accept exactly the flagged ASCII bytes. */
  ghost predicate Describes(kind: Kind, needle: byte, flags: seq<bool>)
    requires |flags| == 0x80
  {
    kind != Generic ==> forall b: byte :: IsAscii(b) ==> (flags[b] <==> Meets(kind, needle, b))
  }

  /** One byte is flagged, or the two cases of one letter are. */
  ghost predicate Special(flags: seq<bool>)
    requires |flags| == 0x80
  {
    || (exists b: byte :: OnlyFlagged(flags, b, b))
    || (exists b: byte :: IsAsciiLetter(b) && Lower(b) != b && OnlyFlagged(flags, b, Lower(b)))
  }

  ghost predicate OnlyFlagged(flags: seq<bool>, a: byte, b: byte)
    requires |flags| == 0x80
  {
    IsAscii(a) && IsAscii(b) && forall c: byte :: IsAscii(c) ==> (flags[c] <==> c == a || c == b)
  }

  /** The one byte, or the two cases of one letter, that are flagged. */
  method KindOf(flags: seq<bool>) returns (kind: Kind, needle: byte, first: byte)
    requires |flags| == 0x80
    ensures Describes(kind, needle, flags) && (kind != Generic <==> Special(flags))
    ensures kind != Generic ==> IsAscii(first) && flags[first]
    ensures kind == AsciiFold ==> IsAsciiLetter(first) && needle == Lower(first) && flags[needle] && flags[needle - 0x20]
  {
    var values: seq<byte> := [];
    for b: int := 0 to 0x80
      invariant forall i :: 0 <= i < |values| ==> values[i] < b && flags[values[i]]
      invariant forall i, j :: 0 <= i < j < |values| ==> values[i] < values[j]
      invariant forall c :: 0 <= c < b && flags[c] ==> c in values
    {
      if flags[b] {
        values := values + [b];
      }
    }
    Counted(flags, values);
    if |values| == 1 {
      return Exact, values[0], values[0];
    }
    if |values| == 2 && Lower(values[0]) == Lower(values[1]) && IsAsciiLetter(values[0]) && IsAsciiLetter(values[1]) {
      return AsciiFold, Lower(values[0]), values[0];
    }
    return Generic, 0, 0;
  }

  /** Listing the flagged bytes tells whether they are one byte or one letter. */
  lemma {:induction false} Counted(flags: seq<bool>, values: seq<byte>)
    requires |flags| == 0x80 && (forall i :: 0 <= i < |values| ==> IsAscii(values[i]) && flags[values[i]])
    requires forall i, j :: 0 <= i < j < |values| ==> values[i] < values[j]
    requires forall c :: 0 <= c < 0x80 && flags[c] ==> c in values
    ensures Special(flags) <==>
              || |values| == 1
              || (|values| == 2 && Lower(values[0]) == Lower(values[1]) && IsAsciiLetter(values[0]) && IsAsciiLetter(values[1]))
  {
    if |values| == 1 {
      assert OnlyFlagged(flags, values[0], values[0]);
    }
    if |values| == 2 && Lower(values[0]) == Lower(values[1]) && IsAsciiLetter(values[0]) && IsAsciiLetter(values[1]) {
      assert OnlyFlagged(flags, values[0], Lower(values[0]));
    }
    if b: byte :| OnlyFlagged(flags, b, b) {
      FewFlagged(flags, values, b, b);
    }
    if b: byte :| IsAsciiLetter(b) && Lower(b) != b && OnlyFlagged(flags, b, Lower(b)) {
      FewFlagged(flags, values, b, Lower(b));
    }
  }

  lemma {:induction false} NoThird(values: seq<byte>, a: byte, b: byte)
    requires forall i :: 0 <= i < |values| ==> values[i] == a || values[i] == b
    requires forall i, j :: 0 <= i < j < |values| ==> values[i] < values[j]
    ensures |values| <= 2 && (a == b ==> |values| <= 1)
  {
    forall i, j | 0 <= i < j < |values| ensures a != b && values[i] != values[j] {
    }
    var longer := values + [a, a, a];
    assert longer[0] == (if |values| > 0 then values[0] else a);
    assert longer[1] == (if |values| > 1 then values[1] else a);
    assert longer[2] in longer;
  }

  lemma {:induction false} FewFlagged(flags: seq<bool>, values: seq<byte>, a: byte, b: byte)
    requires |flags| == 0x80 && a <= b && OnlyFlagged(flags, a, b)
    requires forall i :: 0 <= i < |values| ==> IsAscii(values[i]) && flags[values[i]]
    requires forall i, j :: 0 <= i < j < |values| ==> values[i] < values[j]
    requires forall c :: 0 <= c < 0x80 && flags[c] ==> c in values
    ensures values == if a == b then [a] else [a, b]
  {
    forall i | 0 <= i < |values| ensures values[i] == a || values[i] == b {
      assert IsAscii(values[i]) && flags[values[i]];
    }
    assert flags[a] && flags[b];
    assert a in values && b in values;
    NoThird(values, a, b);
    if |values| == 2 {
      assert values[0] < values[1];
    }
  }

  /** The pair of needles stands at `q`. */
  predicate PairAt(s: Bytes, q: nat, firstKind: Kind, first: byte, secondKind: Kind, second: byte) {
    q + 1 < |s| && Meets(firstKind, first, s[q]) && Meets(secondKind, second, s[q + 1])
  }

  predicate AsciiPair(s: Bytes, q: nat) {
    q + 1 < |s| && IsAscii(s[q]) && IsAscii(s[q + 1])
  }

  /** The number of ASCII bytes from `at` on that do not meet the needle. */
  method RootSkipASCII(s: Bytes, at: nat, kind: Kind, needle: byte) returns (skipped: nat)
    requires at <= |s|
    ensures at + skipped <= |s|
    ensures forall q :: at <= q < at + skipped ==> IsAscii(s[q]) && !Meets(kind, needle, s[q])
    ensures at + skipped < |s| ==> !IsAscii(s[at + skipped]) || Meets(kind, needle, s[at + skipped])
  {
    var q := at;
    while q < |s| && IsAscii(s[q]) && !Meets(kind, needle, s[q])
      invariant at <= q <= |s|
      invariant forall r :: at <= r < q ==> IsAscii(s[r]) && !Meets(kind, needle, s[r])
    {
      q := q + 1;
    }
    skipped := q - at;
  }

  /** The number of positions from `at` on at which the pair of needles does not stand,
      as long as both bytes are ASCII. */
  method PairSkipASCII(s: Bytes, at: nat, firstKind: Kind, first: byte, secondKind: Kind, second: byte) returns (skipped: nat)
    requires at <= |s|
    ensures at + skipped <= |s|
    ensures forall q :: at <= q < at + skipped ==> AsciiPair(s, q) && !PairAt(s, q, firstKind, first, secondKind, second)
    ensures AsciiPair(s, at + skipped) ==> PairAt(s, at + skipped, firstKind, first, secondKind, second)
  {
    var q := at;
    while q + 1 < |s| && IsAscii(s[q]) && IsAscii(s[q + 1]) && !(Meets(firstKind, first, s[q]) && Meets(secondKind, second, s[q + 1]))
      invariant at <= q <= |s|
      invariant forall r :: at <= r < q ==> AsciiPair(s, r) && !PairAt(s, r, firstKind, first, secondKind, second)
    {
      q := q + 1;
    }
    skipped := q - at;
  }
}

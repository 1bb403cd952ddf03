/** A set of patterns on which the partition fails: five words, of which the first holds the
    second, and seventeen single wide scalars. */
module MissPatterns {
  import opened Utf8
  import opened Spec
  import opened Truncation
  import opened Lexer
  import opened AsciiSkip
  import opened Plan
  import opened Search
  import Fold
  import Automaton
  import Links

  function WordOf(i: nat): (s: string)
    requires i < 5
    ensures |s| >= 3 && forall j :: 0 <= j < |s| ==> Small(s[j] as int)
  {
    if i == 0 then "abc0wxyz" else if i == 1 then "abc0" else if i == 2 then "def" else if i == 3 then "ghi" else "jlm"
  }

  /** Seventeen scalars of three bytes, no two of which share their first two. */
  function Wide(i: nat): (r: int)
    requires 5 <= i < 22
    ensures 0x4E00 <= r <= 0x5200
  {
    0x4E00 + 0x40 * (i - 5)
  }

  function Patterns(): (patterns: seq<Bytes>)
    ensures |patterns| == 22
  {
    seq(22, i requires 0 <= i < 22 => if i < 5 then Ascii(WordOf(i)) else Encode(Wide(i)))
  }

  /** A lower letter other than k and s, or the digit 0. */
  predicate Small(r: int) {
    (0x61 <= r <= 0x7A && r != 0x6B && r != 0x73) || r == 0x30
  }

  /** What the patterns ask of the fold table, and Unicode's table grants: letters other
      than k and s fold with nothing wider, and the other scalars used have no fold. */
  ghost predicate Ordinary(t: Fold.Table) {
    && Fold.FoldsAscii(t)
    && (forall b: byte :: IsAsciiLetter(b) && Lower(b) != 0x6B && Lower(b) != 0x73 ==> Fold.Widest(t, b) == 1)
    && 0x30 !in t && 0x2E !in t && 0x3042 !in t
    && forall i: nat :: 5 <= i < 22 ==> Wide(i) !in t
  }

  // ----- a table like that

  /** The other case of an ASCII letter; anything else is itself. */
  function OtherCase(c: int): int {
    if 0x41 <= c <= 0x5A then c + 0x20 else if 0x61 <= c <= 0x7A then c - 0x20 else c
  }

  /** The folds of ASCII letters and no others. */
  function Latin(): Fold.Table {
    map c | 0x41 <= c <= 0x7A && OtherCase(c) != c :: OtherCase(c)
  }

  lemma {:induction false} LatinNext(c: int)
    ensures Fold.Next(Latin(), c) == OtherCase(c) && OtherCase(OtherCase(c)) == c
    ensures c in Latin() <==> OtherCase(c) != c
  {
  }

  lemma {:induction false} LatinValid()
    ensures Fold.Valid(Latin())
  {
    forall a: int, b: int | Fold.Next(Latin(), a) == Fold.Next(Latin(), b) ensures a == b {
      LatinNext(a);
      LatinNext(b);
    }
    forall r: int ensures r in Latin() ==> IsScalar(r) && Fold.Next(Latin(), r) in Latin() {
      LatinNext(r);
      LatinNext(OtherCase(r));
    }
  }

  /** Walking on alternates between the two cases. */
  lemma {:induction false} LatinWalk(c: int, n: nat)
    requires Fold.Valid(Latin())
    ensures Fold.Iter(Latin(), c, n) == if n % 2 == 0 then c else OtherCase(c)
  {
    if n > 0 {
      LatinWalk(c, n - 1);
      LatinNext(Fold.Iter(Latin(), c, n - 1));
    }
  }

  lemma {:induction false} LatinOrbit(a: int, b: int)
    requires Fold.Valid(Latin())
    ensures Fold.SameOrbit(Latin(), a, b) <==> b == a || b == OtherCase(a)
  {
    if Fold.SameOrbit(Latin(), a, b) {
      var n: nat :| Fold.Iter(Latin(), a, n) == b;
      LatinWalk(a, n);
    }
    LatinWalk(a, 0);
    LatinWalk(a, 1);
  }

  lemma {:induction false} LatinNarrow(c: int, n: nat)
    requires Fold.Valid(Latin()) && 0 <= c < 0x80
    ensures Fold.WidestOf(Latin(), c, n) == 1
  {
    if n > 0 {
      LatinNarrow(c, n - 1);
      LatinWalk(c, n - 1);
      Fold.IterScalar(Latin(), c, n - 1);
    }
  }

  /** Such tables exist. */
  lemma {:induction false} LatinIsOrdinary()
    ensures Ordinary(Latin())
  {
    hide Latin, Fold.SameOrbit, Fold.Period;
    var t := Latin();
    LatinValid();
    forall a: int, b: int {:trigger Fold.SameOrbit(t, a, b)} | 0 <= a < 0x80 && 0 <= b < 0x80
      ensures Fold.SameOrbit(t, a, b) <==> a == b || Fold.CasePair(a, b) || Fold.CasePair(b, a)
    {
      LatinOrbit(a, b);
    }
    forall b: byte | IsAsciiLetter(b) ensures Fold.Widest(t, b) == 1 {
      LatinNarrow(b, Fold.Period(t, b));
    }
    LatinNext(0x30);
    LatinNext(0x2E);
    LatinNext(0x3042);
    forall i: nat | 5 <= i < 22 ensures Wide(i) !in t {
      LatinNext(Wide(i));
    }
  }

  // ----- the patterns unit by unit

  lemma {:induction false} WordUnits(m: Mode, s: string)
    requires !m.exact && forall i :: 0 <= i < |s| ==> s[i] < 128 as char
    ensures IsWord(Units(m, Ascii(s)), s)
  {
    AsciiUnits(m, Ascii(s), 0);
  }

  lemma {:induction false} WideUnits(m: Mode, r: int)
    requires !m.exact && IsScalar(r)
    ensures Units(m, Encode(r)) == [Rune(r)]
  {
    var e := Encode(r);
    assert e[0..0 + RuneLen(r)] == e;
    DecodeEncode(e, 0, r);
    assert Units(m, e) == [UnitAt(m, e, 0)] + Units(m, e, |e|);
  }

  predicate IsWord(p: Pattern, s: string) {
    |p| == |s| && forall j :: 0 <= j < |s| ==> p[j] == Rune(s[j] as int)
  }

  /** Five words and seventeen wide scalars. */
  ghost predicate Spelt(ps: seq<Pattern>) {
    && |ps| == 22
    && (forall i: nat :: i < 5 ==> IsWord(ps[i], WordOf(i)))
    && forall i: nat :: 5 <= i < 22 ==> ps[i] == [Rune(Wide(i))]
  }

  lemma {:induction false} PatternUnits(m: Mode)
    requires !m.exact
    ensures Spelt(AllUnits(m, Patterns()))
  {
    hide Units, Ascii, IsWord, WordOf;
    forall i: nat | i < 5 ensures IsWord(AllUnits(m, Patterns())[i], WordOf(i)) {
      WordUnits(m, WordOf(i));
    }
    forall i: nat | 5 <= i < 22 ensures AllUnits(m, Patterns())[i] == [Rune(Wide(i))] {
      WideUnits(m, Wide(i));
    }
  }

  /** Some pattern has the scalar. */
  ghost predicate Used(r: int) {
    Small(r) || exists i: nat :: 5 <= i < 22 && r == Wide(i)
  }

  lemma {:induction false} UnitUsed(ps: seq<Pattern>, i: nat, j: nat)
    requires Spelt(ps) && i < 22 && j < |ps[i]|
    ensures ps[i][j].Rune? && Used(ps[i][j].rune) && (i < 5 <==> ps[i][j].rune < 0x80)
  {
    hide WordOf;
    if i < 5 {
      assert IsWord(ps[i], WordOf(i)) && Small(WordOf(i)[j] as int);
    } else {
      assert ps[i] == [Rune(Wide(i))];
    }
  }

  lemma {:induction false} Unmoved(t: Fold.Table, x: int, y: int)
    requires Fold.Valid(t) && x !in t && Fold.SameOrbit(t, x, y)
    ensures x == y
  {
    var n: nat :| Fold.Iter(t, x, n) == y;
  }

  /** Scalars the patterns use fold together only when they are equal. */
  lemma {:induction false} Apart(m: Mode, x: int, y: int)
    requires m.Valid() && Ordinary(m.fold) && Used(x) && Used(y)
    ensures Same(m, Rune(x), Rune(y)) <==> x == y
  {
    hide Wide;
    SameReflexive(m, Rune(x));
    if Same(m, Rune(x), Rune(y)) {
      if !Small(x) {
        Unmoved(m.fold, x, y);
      } else if !Small(y) {
        Fold.OrbitSymmetric(m.fold, x, y);
        Unmoved(m.fold, y, x);
      }
    }
  }

  // ----- their plan

  /** A compiled plan of the patterns, over an ordinary table. */
  ghost predicate MissPlan(p: SearchPlan)
    reads p
  {
    && p.Valid() && p.NoSpareToken() && p.NoSpareWord([]) && p.Attained(|p.patterns|)
    && !p.mode.exact && p.patterns == Patterns() && Ordinary(p.mode.fold)
  }

  lemma {:induction false} PlanSpelt(p: SearchPlan)
    requires MissPlan(p)
    ensures p.mode.Valid() && Spelt(p.Ps()) && |p.toks| == |p.patterns| == 22
    ensures forall i: nat :: i < 22 ==> |p.toks[i]| == |p.Ps()[i]| && Spells(p.mode, p.tokens, p.Ps()[i], p.toks[i])
  {
    hide AllRows, TokensAreClasses, Links.AllLinked, Automaton.Spelled, Spelt, Ordinary, Spells;
    PatternUnits(p.mode);
    forall i: nat | i < 22 ensures |p.toks[i]| == |p.Ps()[i]| {
      SpellsLength(p.mode, p.tokens, p.Ps()[i], p.toks[i]);
    }
  }

  lemma {:induction false} SpellsLength(m: Mode, tk: Tokens, a: Pattern, w: seq<nat>)
    requires m.Valid() && Spells(m, tk, a, w)
    ensures |w| == |a|
  {
  }

  /** Tokens tell the units of the patterns apart. */
  lemma {:induction false} TokensTell(p: SearchPlan, i: nat, j: nat, k: nat, l: nat)
    requires MissPlan(p) && i < 22 && k < 22 && |p.Ps()| == |p.toks| == 22 && j < |p.Ps()[i]| && l < |p.Ps()[k]|
    ensures j < |p.toks[i]| && l < |p.toks[k]| && (p.toks[i][j] == p.toks[k][l] <==> p.Ps()[i][j] == p.Ps()[k][l])
  {
    hide SearchPlan.Valid, SearchPlan.NoSpareToken, SearchPlan.NoSpareWord, SearchPlan.Attained, Spelt, Ordinary, Same, Used;
    PlanSpelt(p);
    UnitUsed(p.Ps(), i, j);
    UnitUsed(p.Ps(), k, l);
    Apart(p.mode, p.Ps()[i][j].rune, p.Ps()[k][l].rune);
    SameReflexive(p.mode, p.Ps()[i][j]);
    assert p.tokens.Of(p.Ps()[i][j]) == p.toks[i][j];
  }
}

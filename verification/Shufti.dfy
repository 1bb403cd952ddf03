/** The nibble-table forms of the root filters: up to eight triples in three positions, or
    up to sixteen pairs in two groups. The triples and the plain pairs are decided exactly
    as by comparing entry by entry; with two one-byte roots beside the pairs, case bits are
    set throughout and the tables only screen. */
module Shufti {
  import opened Utf8
  import opened Spec
  import opened AsciiSkip
  import opened RootFilters
  import opened TripleFilters
  import opened NibbleTables

  const SLOTS := 8
  const PAIR_GROUPS := 2

  // ----- triples

  datatype TripleTables = TripleTables(first: Table, second: Table, third: Table)

  /** Some slot allows all three bytes. */
  predicate TripleShuftiAt(s: TripleTables, a: byte, b: byte, c: byte) {
    s.first.At(a) * s.second.At(b) * s.third.At(c) != {}
  }

  /** The cells of all triples at one position. */
  function Column(ts: seq<Triple>, j: nat): (cells: seq<Cell>)
    requires j < 3
    ensures |cells| == |ts| && forall k :: 0 <= k < |ts| ==> cells[k] == ts[k][j]
  {
    seq(|ts|, k requires 0 <= k < |ts| => ts[k][j])
  }

  lemma {:induction false} ColumnNext(ts: seq<Triple>, k: nat, j: nat)
    requires k < |ts| && j < 3
    ensures Column(ts[..k + 1], j) == Column(ts[..k], j) + [ts[k][j]]
  {
  }

  ghost predicate TriplesProject(s: TripleTables, ts: seq<Triple>) {
    Projects(s.first, Column(ts, 0)) && Projects(s.second, Column(ts, 1)) && Projects(s.third, Column(ts, 2))
  }

  /** Tables for four to eight triples; fewer or more are compared one by one. */
  method MakeTripleShuftiFilter(ts: seq<Triple>) returns (s: Option<TripleTables>)
    ensures s.Some? <==> 4 <= |ts| <= 8
    ensures s.Some? ==> TriplesProject(s.value, ts)
  {
    hide Projects;
    if |ts| < 4 || |ts| > SLOTS {
      return None;
    }
    BlankProjects();
    var out := TripleTables(Blank(), Blank(), Blank());
    assert Column(ts[..0], 0) == Column(ts[..0], 1) == Column(ts[..0], 2) == [];
    for k := 0 to |ts|
      invariant TriplesProject(out, ts[..k])
    {
      ColumnNext(ts, k, 0);
      ColumnNext(ts, k, 1);
      ColumnNext(ts, k, 2);
      AddProjects(out.first, Column(ts[..k], 0), ts[k][0]);
      AddProjects(out.second, Column(ts[..k], 1), ts[k][1]);
      AddProjects(out.third, Column(ts[..k], 2), ts[k][2]);
      out := TripleTables(AddCell(out.first, ts[k][0], k), AddCell(out.second, ts[k][1], k), AddCell(out.third, ts[k][2], k));
    }
    assert ts[..|ts|] == ts;
    return Some(out);
  }

  /** The tables decide exactly what comparing triple by triple decides. */
  lemma {:induction false} TripleShuftiExact(s: TripleTables, ts: seq<Triple>, h: Bytes, q: nat)
    requires TriplesProject(s, ts) && AllMarked(ts)
    ensures AdmitsTriple(ts, h, q) <==> q + 2 < |h| && TripleShuftiAt(s, h[q], h[q + 1], h[q + 2])
  {
    hide Projects;
    if q + 2 < |h| {
      var both := s.first.At(h[q]) * s.second.At(h[q + 1]) * s.third.At(h[q + 2]);
      forall k: nat ensures k in both <==> k < |ts| && CellsAt(ts[k], h, q) {
        SlotIsTriple(s, ts, h, q, k);
      }
      if AdmitsTriple(ts, h, q) {
        var k: nat :| k < |ts| && CellsAt(ts[k], h, q);
        assert k in both;
      }
      if both != {} {
        var k :| k in both;
        assert CellsAt(ts[k], h, q);
      }
    }
  }

  lemma {:induction false} SlotIsTriple(s: TripleTables, ts: seq<Triple>, h: Bytes, q: nat, k: nat)
    requires TriplesProject(s, ts) && AllMarked(ts) && q + 2 < |h|
    ensures k in s.first.At(h[q]) * s.second.At(h[q + 1]) * s.third.At(h[q + 2]) <==> k < |ts| && CellsAt(ts[k], h, q)
  {
    hide Projects, Has;
    TableExact(s.first, Column(ts, 0), h[q], k);
    TableExact(s.second, Column(ts, 1), h[q + 1], k);
    TableExact(s.third, Column(ts, 2), h[q + 2], k);
    if k < |ts| {
      FoldedIsHas(ts[k][0], h[q]);
      FoldedIsHas(ts[k][1], h[q + 1]);
      FoldedIsHas(ts[k][2], h[q + 2]);
      if Has(ts[k][0], h[q]) && Has(ts[k][1], h[q + 1]) && Has(ts[k][2], h[q + 2]) {
        forall j | 0 <= j < 3 ensures Folded(ts[k][j].fold, ts[k][j].value, h[q + j]) {
          assert j == 0 || j == 1 || j == 2;
        }
      }
      if CellsAt(ts[k], h, q) {
        assert Folded(ts[k][0].fold, ts[k][0].value, h[q + 0]) && Folded(ts[k][1].fold, ts[k][1].value, h[q + 1])
            && Folded(ts[k][2].fold, ts[k][2].value, h[q + 2]);
      }
    }
  }

  /** The next position the tables admit, or the last two bytes. */
  method TripleShuftiSkipScalar(h: Bytes, at0: nat, s: TripleTables, ghost ts: seq<Triple>) returns (skipped: nat)
    requires at0 <= |h| && TriplesProject(s, ts) && AllMarked(ts)
    ensures at0 + skipped <= |h| && forall q :: at0 <= q < at0 + skipped ==> !AdmitsTriple(ts, h, q)
    ensures at0 + skipped + 2 < |h| ==> AdmitsTriple(ts, h, at0 + skipped)
  {
    hide TriplesProject, AllMarked, TripleShuftiAt, AdmitsTriple;
    var at := at0;
    while at + 2 < |h|
      invariant at0 <= at <= |h| && forall q :: at0 <= q < at ==> !AdmitsTriple(ts, h, q)
    {
      TripleShuftiExact(s, ts, h, at);
      if TripleShuftiAt(s, h[at], h[at + 1], h[at + 2]) {
        return at - at0;
      }
      at := at + 1;
    }
    skipped := at - at0;
  }

  // ----- pairs

  /** Two groups of slots, and the one-byte roots admitted beside them. */
  datatype PairTables = PairTables(first: seq<Table>, second: seq<Table>, ones: seq<byte>)

  predicate InGroup(s: PairTables, g: nat, a: byte, b: byte)
    requires g < |s.first| && g < |s.second|
  {
    s.first[g].At(a) * s.second[g].At(b) != {}
  }

  predicate PairShuftiAt(s: PairTables, a: byte, b: byte)
    requires |s.first| == |s.second| == PAIR_GROUPS
  {
    a in s.ones ||
    if s.ones != [] then InGroup(s, 0, Lower(a), Lower(b)) || InGroup(s, 1, Lower(a), Lower(b))
    else InGroup(s, 0, a, b) || InGroup(s, 1, a, b)
  }

  /** The bytes of a pair component: both cases of a folding letter. */
  function CasesOf(value: byte, fold: bool): seq<byte> {
    if fold && IsAsciiLetter(value) then [value, Flip(value)] else [value]
  }

  lemma {:induction false} CasesAreFolded(value: byte, fold: bool, b: byte)
    requires fold ==> IsAsciiLetter(value) && Lower(value) == value
    ensures b in CasesOf(value, fold) <==> Folded(fold, value, b)
  {
    FoldedIsHas(Cell(value, fold), b);
  }

  /** The filter has an entry for the two bytes. */
  ghost predicate PairListed(f: RootFilter, a: byte, b: byte, normalize: bool) {
    exists k :: 0 <= k < |f.pairs| && EntryHas(f.pairs[k], a, b, normalize)
  }

  /** As compared by the filter, or with the case bit of everything set. */
  predicate EntryHas(pair: RootPair, a: byte, b: byte, normalize: bool) {
    if normalize then a == Lower(pair.first) && b == Lower(pair.second) else PairMatches(pair, a, b)
  }

  function AddRaw(raw: seq<(byte, byte)>, a: byte, b: byte): (r: Option<seq<(byte, byte)>>)
    requires |raw| <= PAIR_GROUPS * SLOTS
    ensures r.Some? ==> |r.value| <= PAIR_GROUPS * SLOTS
    ensures r.Some? ==> forall x :: x in r.value <==> x in raw || x == (a, b)
  {
    if (a, b) in raw then Some(raw) else if |raw| == PAIR_GROUPS * SLOTS then None else Some(raw + [(a, b)])
  }

  /** All renderings of one entry. */
  method AddEntry(raw0: seq<(byte, byte)>, pair: RootPair, normalize: bool) returns (raw: Option<seq<(byte, byte)>>)
    requires |raw0| <= PAIR_GROUPS * SLOTS && FoldsLetters(pair)
    ensures raw.Some? ==> |raw.value| <= PAIR_GROUPS * SLOTS
    ensures raw.Some? ==> forall a: byte, b: byte :: (a, b) in raw.value <==> (a, b) in raw0 || EntryHas(pair, a, b, normalize)
  {
    hide Folded;
    if normalize {
      return AddRaw(raw0, Lower(pair.first), Lower(pair.second));
    }
    var lefts, rights := CasesOf(pair.first, pair.foldFirst), CasesOf(pair.second, pair.foldSecond);
    var cur := raw0;
    for i := 0 to |lefts|
      invariant |cur| <= PAIR_GROUPS * SLOTS
      invariant forall a: byte, b: byte :: (a, b) in cur <==> (a, b) in raw0 || (a in lefts[..i] && b in rights)
    {
      var before := cur;
      for j := 0 to |rights|
        invariant |cur| <= PAIR_GROUPS * SLOTS
        invariant forall a: byte, b: byte :: (a, b) in cur <==> (a, b) in before || (a == lefts[i] && b in rights[..j])
      {
        var more := AddRaw(cur, lefts[i], rights[j]);
        if more.None? {
          return None;
        }
        assert rights[..j + 1] == rights[..j] + [rights[j]];
        cur := more.value;
      }
      assert rights[..|rights|] == rights && lefts[..i + 1] == lefts[..i] + [lefts[i]];
    }
    assert lefts[..|lefts|] == lefts;
    forall a: byte, b: byte ensures a in lefts && b in rights <==> PairMatches(pair, a, b) {
      CasesAreFolded(pair.first, pair.foldFirst, a);
      CasesAreFolded(pair.second, pair.foldSecond, b);
    }
    return Some(cur);
  }

  /** The filter as a list of raw byte pairs, unless there are too many. */
  method RawPairs(f: RootFilter, normalize: bool) returns (raw: Option<seq<(byte, byte)>>)
    requires LettersFold(f)
    ensures raw.Some? ==> |raw.value| <= PAIR_GROUPS * SLOTS
    ensures raw.Some? ==> forall a: byte, b: byte :: (a, b) in raw.value <==> PairListed(f, a, b, normalize)
  {
    hide EntryHas;
    var cur := [];
    for k := 0 to |f.pairs|
      invariant |cur| <= PAIR_GROUPS * SLOTS
      invariant forall a: byte, b: byte :: (a, b) in cur <==> exists j :: 0 <= j < k && EntryHas(f.pairs[j], a, b, normalize)
    {
      var more := AddEntry(cur, f.pairs[k], normalize);
      if more.None? {
        return None;
      }
      cur := more.value;
    }
    return Some(cur);
  }

  function Firsts(raw: seq<(byte, byte)>): (cells: seq<Cell>)
    ensures |cells| == |raw| && forall k :: 0 <= k < |raw| ==> cells[k] == Cell(raw[k].0, false)
  {
    seq(|raw|, k requires 0 <= k < |raw| => Cell(raw[k].0, false))
  }

  function Seconds(raw: seq<(byte, byte)>): (cells: seq<Cell>)
    ensures |cells| == |raw| && forall k :: 0 <= k < |raw| ==> cells[k] == Cell(raw[k].1, false)
  {
    seq(|raw|, k requires 0 <= k < |raw| => Cell(raw[k].1, false))
  }

  /** The raw pairs that a group of slots holds. */
  function GroupOf(raw: seq<(byte, byte)>, g: nat): (part: seq<(byte, byte)>)
    requires g < PAIR_GROUPS
  {
    if g == 0 then if |raw| <= SLOTS then raw else raw[..SLOTS] else if |raw| <= SLOTS then [] else raw[SLOTS..]
  }

  ghost predicate PairsProject(s: PairTables, raw: seq<(byte, byte)>) {
    && |s.first| == |s.second| == PAIR_GROUPS
    && forall g: nat :: g < PAIR_GROUPS ==> Projects(s.first[g], Firsts(GroupOf(raw, g))) && Projects(s.second[g], Seconds(GroupOf(raw, g)))
  }

  /** Tables for nine to sixteen renderings of five or more pairs, alone or beside exactly
      two one-byte roots. */
  method MakePairShuftiFilter(f: RootFilter) returns (s: Option<PairTables>, ghost raw: seq<(byte, byte)>)
    requires LettersFold(f)
    ensures s.Some? ==> MadeFrom(s.value, raw, f) && (|f.ones| == 0 || |f.ones| == 2) && |raw| > SLOTS
    ensures s.Some? ==> |s.value.first| == |s.value.second| == PAIR_GROUPS && s.value.ones == f.ones
    ensures s.Some? ==> forall a: byte, b: byte ::
              PairShuftiAt(s.value, a, b) <==>
              a in f.ones || if f.ones == [] then PairListed(f, a, b, false) else PairListed(f, Lower(a), Lower(b), true)
  {
    hide Projects, PairShuftiAt, PairListed;
    raw := [];
    if |f.pairs| < 5 || |f.ones| > 2 || |f.ones| == 1 {
      return None, raw;
    }
    var normalize := |f.ones| == 2;
    var listed := RawPairs(f, normalize);
    if listed.None? || |listed.value| <= SLOTS {
      return None, raw;
    }
    var pairs := listed.value;
    raw := pairs;
    var out := PairTables([Blank(), Blank()], [Blank(), Blank()], f.ones);
    NothingProjected(out);
    for i := 0 to |pairs|
      invariant PairsProject(out, pairs[..i]) && out.ones == f.ones
    {
      var g: nat, slot: nat := i / SLOTS, i % SLOTS;
      PairNext(out, pairs, i);
      out := PairTables(out.first[g := out.first[g].Add(pairs[i].0, slot)], out.second[g := out.second[g].Add(pairs[i].1, slot)], out.ones);
    }
    assert pairs[..|pairs|] == pairs;
    forall a: byte, b: byte
      ensures PairShuftiAt(out, a, b) <==>
              a in f.ones || if f.ones == [] then PairListed(f, a, b, false) else PairListed(f, Lower(a), Lower(b), true)
    {
      PairShuftiExact(out, raw, f, a, b);
    }
    return Some(out), raw;
  }

  lemma {:induction false} NothingProjected(s: PairTables)
    requires s.first == s.second == [Blank(), Blank()]
    ensures PairsProject(s, [])
  {
    BlankProjects();
    assert Firsts([]) == Seconds([]) == [];
  }

  lemma {:induction false} PairNext(s: PairTables, pairs: seq<(byte, byte)>, i: nat)
    requires i < |pairs| <= PAIR_GROUPS * SLOTS && PairsProject(s, pairs[..i])
    ensures var g: nat, slot: nat := i / SLOTS, i % SLOTS;
            PairsProject(s.(first := s.first[g := s.first[g].Add(pairs[i].0, slot)], second := s.second[g := s.second[g].Add(pairs[i].1, slot)]), pairs[..i + 1])
  {
    hide Projects;
    var g: nat, slot: nat := i / SLOTS, i % SLOTS;
    GroupNext(pairs, i, 0);
    GroupNext(pairs, i, 1);
    var part := GroupOf(pairs[..i], g);
    assert Firsts(part + [pairs[i]]) == Firsts(part) + [Cell(pairs[i].0, false)];
    assert Seconds(part + [pairs[i]]) == Seconds(part) + [Cell(pairs[i].1, false)];
    AddProjects(s.first[g], Firsts(part), Cell(pairs[i].0, false));
    AddProjects(s.second[g], Seconds(part), Cell(pairs[i].1, false));
  }

  /** The next pair goes to the end of its group, and the other group stays. */
  lemma {:induction false} GroupNext(pairs: seq<(byte, byte)>, i: nat, g: nat)
    requires i < |pairs| <= PAIR_GROUPS * SLOTS && g < PAIR_GROUPS
    ensures g == i / SLOTS ==>
              |GroupOf(pairs[..i], g)| == i % SLOTS && GroupOf(pairs[..i + 1], g) == GroupOf(pairs[..i], g) + [pairs[i]]
    ensures g != i / SLOTS ==> GroupOf(pairs[..i + 1], g) == GroupOf(pairs[..i], g)
  {
  }

  lemma {:induction false} GroupExact(s: PairTables, raw: seq<(byte, byte)>, g: nat, a: byte, b: byte)
    requires PairsProject(s, raw) && g < PAIR_GROUPS
    ensures InGroup(s, g, a, b) <==> (a, b) in GroupOf(raw, g)
  {
    hide Projects;
    var part, both := GroupOf(raw, g), s.first[g].At(a) * s.second[g].At(b);
    forall k: nat ensures k in both <==> k < |part| && part[k] == (a, b) {
      TableExact(s.first[g], Firsts(part), a, k);
      TableExact(s.second[g], Seconds(part), b, k);
    }
    if both != {} {
      var k :| k in both;
      assert part[k] == (a, b);
    }
    if (a, b) in part {
      var k: nat :| k < |part| && part[k] == (a, b);
      assert k in both;
    }
  }

  /** Without one-byte roots the tables decide exactly what the pairs decide; with them,
      exactly what the pairs decide once every case bit is set. */
  lemma {:induction false} PairShuftiExact(s: PairTables, raw: seq<(byte, byte)>, f: RootFilter, a: byte, b: byte)
    requires MadeFrom(s, raw, f)
    ensures PairShuftiAt(s, a, b) <==>
              a in f.ones || if f.ones == [] then PairListed(f, a, b, false) else PairListed(f, Lower(a), Lower(b), true)
  {
    hide Projects, InGroup, PairListed;
    var normalize := f.ones != [];
    var x, y := if normalize then Lower(a) else a, if normalize then Lower(b) else b;
    GroupExact(s, raw, 0, x, y);
    GroupExact(s, raw, 1, x, y);
    assert raw == GroupOf(raw, 0) + GroupOf(raw, 1);
  }

  /** Setting every case bit loses no pair. */
  lemma {:induction false} NormalizedListed(f: RootFilter, a: byte, b: byte)
    requires PairListed(f, a, b, false)
    ensures PairListed(f, Lower(a), Lower(b), true)
  {
    var k :| 0 <= k < |f.pairs| && EntryHas(f.pairs[k], a, b, false);
    LowerOnce(a);
    LowerOnce(b);
    assert EntryHas(f.pairs[k], Lower(a), Lower(b), true);
  }

  lemma {:induction false} LowerOnce(b: byte)
    ensures Lower(Lower(b)) == Lower(b)
  {
  }

  /** The tables were made from the filter. */
  ghost predicate MadeFrom(s: PairTables, raw: seq<(byte, byte)>, f: RootFilter) {
    && PairsProject(s, raw) && s.ones == f.ones && |raw| <= PAIR_GROUPS * SLOTS
    && forall a: byte, b: byte :: (a, b) in raw <==> PairListed(f, a, b, f.ones != [])
  }

  lemma {:induction false} AdmittedShows(s: PairTables, raw: seq<(byte, byte)>, f: RootFilter, h: Bytes, q: nat)
    requires MadeFrom(s, raw, f) && q + 1 < |h|
    ensures Admits(f, h, q) ==> PairShuftiAt(s, h[q], h[q + 1])
    ensures f.ones == [] && PairShuftiAt(s, h[q], h[q + 1]) ==> Admits(f, h, q)
  {
    hide PairsProject, PairShuftiAt, PairMatches;
    PairShuftiExact(s, raw, f, h[q], h[q + 1]);
    if k :| 0 <= k < |f.pairs| && PairMatches(f.pairs[k], h[q], h[q + 1]) {
      assert EntryHas(f.pairs[k], h[q], h[q + 1], false);
      NormalizedListed(f, h[q], h[q + 1]);
    }
  }

  /** The next position the tables admit: every position of the filter, and with pairs
      alone no other. The last byte can only be a one-byte root. */
  method PairShuftiSkipScalar(h: Bytes, at0: nat, s: PairTables, f: RootFilter, ghost raw: seq<(byte, byte)>) returns (skipped: nat)
    requires at0 <= |h| && MadeFrom(s, raw, f)
    ensures at0 + skipped <= |h| && forall q :: at0 <= q < at0 + skipped ==> !Admits(f, h, q)
    ensures f.ones == [] && at0 + skipped < |h| ==> Admits(f, h, at0 + skipped)
  {
    hide PairListed, Admits, PairShuftiAt;
    var at := at0;
    while at + 1 < |h|
      invariant at0 <= at <= |h| && forall q :: at0 <= q < at ==> !Admits(f, h, q)
    {
      AdmittedShows(s, raw, f, h, at);
      if PairShuftiAt(s, h[at], h[at + 1]) {
        return at - at0;
      }
      at := at + 1;
    }
    if at < |h| {
      LastByte(f, h, at);
      if h[at] in s.ones {
        return at - at0;
      }
    }
    skipped := |h| - at0;
  }

  lemma {:induction false} LastByte(f: RootFilter, h: Bytes, q: nat)
    requires q + 1 == |h|
    ensures Admits(f, h, q) <==> h[q] in f.ones
  {
  }
}

/** Nibble tables. A table gives, for each nibble of a byte, the slots that allow it. For
    entries that are single bytes, or two bytes that differ in bit five, the two lookups of
    a byte decide exactly which entries it belongs to. */
module NibbleTables {
  import opened Utf8
  import opened AsciiSkip
  import opened RootFilters
  import opened TripleFilters

  type Nibbles = t: seq<set<nat>> | |t| == 0x10 witness seq(0x10, _ => {})

  function Lo(b: byte): (n: nat)
    ensures n < 0x10
  {
    b % 0x10
  }

  function Hi(b: byte): (n: nat)
    ensures n < 0x10
  {
    b / 0x10
  }

  /** The tables of one byte position. */
  datatype Table = Table(lo: Nibbles, hi: Nibbles) {
    /** The slots that allow the byte. */
    function At(b: byte): set<nat> {
      lo[Lo(b)] * hi[Hi(b)]
    }

    function Add(b: byte, slot: nat): Table {
      Table(lo[Lo(b) := lo[Lo(b)] + {slot}], hi[Hi(b) := hi[Hi(b)] + {slot}])
    }
  }

  function Blank(): Table {
    Table(seq(0x10, _ => {}), seq(0x10, _ => {}))
  }

  /** The other case: bit five flipped. */
  function Flip(b: byte): byte {
    if b / 0x20 % 2 == 1 then b - 0x20 else b + 0x20
  }

  /** A byte, or a byte in both cases. */
  predicate Has(c: Cell, b: byte) {
    b == c.value || (c.fold && b == Flip(c.value))
  }

  /** Setting the case bit before comparing accepts exactly the two cases. */
  lemma {:induction false} FoldedIsHas(c: Cell, b: byte)
    requires c.Marked()
    ensures Has(c, b) <==> Folded(c.fold, c.value, b)
  {
  }

  /** Slot `k` of the table stands for cell `k`. */
  ghost predicate Projects(t: Table, cells: seq<Cell>) {
    forall k: nat, n: nat :: n < 0x10 ==> LoHas(t, cells, k, n) && HiHas(t, cells, k, n)
  }

  ghost predicate LoHas(t: Table, cells: seq<Cell>, k: nat, n: nat)
    requires n < 0x10
  {
    k in t.lo[n] <==> k < |cells| && n == Lo(cells[k].value)
  }

  ghost predicate HiHas(t: Table, cells: seq<Cell>, k: nat, n: nat)
    requires n < 0x10
  {
    k in t.hi[n] <==> k < |cells| && (n == Hi(cells[k].value) || (cells[k].fold && n == Hi(Flip(cells[k].value))))
  }

  lemma {:induction false} FlipNibbles(v: byte)
    ensures Lo(Flip(v)) == Lo(v)
  {
  }

  lemma {:induction false} Nibbled(a: byte, b: byte)
    ensures a == b <==> Lo(a) == Lo(b) && Hi(a) == Hi(b)
  {
  }

  /** A byte is its two nibbles, and two cases share the low one: the lookups are exact. */
  lemma {:induction false} TableExact(t: Table, cells: seq<Cell>, b: byte, k: nat)
    requires Projects(t, cells)
    ensures k in t.At(b) <==> k < |cells| && Has(cells[k], b)
  {
    assert LoHas(t, cells, k, Lo(b)) && HiHas(t, cells, k, Hi(b));
    if k < |cells| {
      Nibbled(b, cells[k].value);
      Nibbled(b, Flip(cells[k].value));
      FlipNibbles(cells[k].value);
    }
  }

  lemma {:induction false} BlankProjects()
    ensures Projects(Blank(), [])
  {
  }

  function AddCell(t: Table, c: Cell, slot: nat): Table {
    var one := t.Add(c.value, slot);
    if c.fold then one.Add(Flip(c.value), slot) else one
  }

  /** Entering the next cell under the next slot. */
  lemma {:induction false} AddProjects(t: Table, cells: seq<Cell>, c: Cell)
    requires Projects(t, cells)
    ensures Projects(AddCell(t, c, |cells|), cells + [c])
  {
    FlipNibbles(c.value);
    var t', cells' := AddCell(t, c, |cells|), cells + [c];
    forall k: nat, n: nat | n < 0x10 ensures LoHas(t', cells', k, n) && HiHas(t', cells', k, n) {
      assert LoHas(t, cells, k, n) && HiHas(t, cells, k, n);
    }
  }
}

/** The compact map of two-byte encodings: a row per lead byte and a class per trail
    byte, kept in the table that otherwise holds opaque-byte tokens. */
module RawMap {
  import opened Utf8
  import opened Spec
  import opened Automaton
  import opened Lexer
  import opened Plan
  import opened Search

  const MAX_LEAD_ROWS := 2
  const TRAIL_CLASSES := 0x40
  const TOKEN_CLASSES := MAX_LEAD_ROWS * TRAIL_CLASSES
  const TRANSITION_STRIDE := 0x80 + TOKEN_CLASSES
  const MAX_TRANSITION_SIZE := 1024 * 48

  predicate IsLead(b: byte) {
    0xC2 <= b <= 0xDF
  }

  /** The scalar that a lead and a trail byte encode. */
  function TwoByte(lead: byte, trail: byte): (r: int)
    requires IsLead(lead) && IsContinuation(trail)
    ensures 0x80 <= r < 0x800 && Encode(r) == [lead, trail]
  {
    var a, b: int := lead as int - 0xC0, trail as int - 0x80;
    Sextets2(a, b);
    a * 0x40 + b
  }

  lemma {:induction false} TwoByteOf(r: int)
    requires IsScalar(r) && RuneLen(r) == 2
    ensures var f := Encode(r); IsLead(f[0]) && IsContinuation(f[1]) && TwoByte(f[0], f[1]) == r
  {
  }

  /** The slot of a trail byte in a lead row. */
  function Class(row: nat, trail: byte): (c: nat)
    requires row < MAX_LEAD_ROWS && IsContinuation(trail)
    ensures c < TOKEN_CLASSES
  {
    row * TRAIL_CLASSES + (trail as int - 0x80)
  }

  lemma {:induction false} ClassesApart(row: nat, trail: byte, row': nat, trail': byte)
    requires row < MAX_LEAD_ROWS && IsContinuation(trail) && row' < MAX_LEAD_ROWS && IsContinuation(trail')
    ensures Class(row, trail) == Class(row', trail') ==> row == row' && trail == trail'
  {
  }

  /** What the table says about an encoding; row 0 is the absent row. */
  function Lookup(table: seq<nat>, lead: byte, trail: byte): (token: nat)
    requires |table| == 256 && IsContinuation(trail)
  {
    if 0 < table[lead] <= MAX_LEAD_ROWS then table[Class(table[lead] - 1, trail)] else 0
  }

  ghost predicate NoOpaque(p: SearchPlan)
    reads p
  {
    forall b: byte :: p.tokens.Of(Raw(b)) == 0
  }

  /** The table gives every two-byte encoding the token decoding would give it. */
  ghost predicate Mapped(p: SearchPlan, table: seq<nat>)
    reads p
  {
    && |table| == 256 && p.dense != [] && !p.mode.exact && NoOpaque(p)
    && (forall lead: byte :: IsLead(lead) ==> table[lead] <= MAX_LEAD_ROWS)
    && forall lead: byte, trail: byte :: IsLead(lead) && IsContinuation(trail) ==>
         Lookup(table, lead, trail) == p.tokens.Of(Rune(TwoByte(lead, trail)))
  }

  // ----- compiling the table

  /** The lead bytes of the two-byte runes of the plan, unless there are too many. */
  method Leads(tk: Tokens) returns (leads: Option<seq<byte>>)
    ensures leads.Some? ==>
              && 0 < |leads.value| <= MAX_LEAD_ROWS
              && (forall r :: r in tk.runes && IsScalar(r) && RuneLen(r) == 2 ==> Encode(r)[0] in leads.value)
              && (forall b :: b in leads.value ==> IsLead(b))
              && (forall i, j :: 0 <= i < j < |leads.value| ==> leads.value[i] != leads.value[j])
  {
    var have := new bool[256](_ => false);
    var items := tk.runes.Items;
    while items != {}
      invariant forall r :: r in tk.runes && (r, tk.runes[r]) !in items && IsScalar(r) && RuneLen(r) == 2 ==> have[Encode(r)[0]]
      invariant forall b :: 0 <= b < 256 && have[b] ==> IsLead(b)
    {
      var item :| item in items;
      items := items - {item};
      if IsScalar(item.0) && RuneLen(item.0) == 2 {
        TwoByteOf(item.0);
        have[Encode(item.0)[0]] := true;
      }
    }
    var found: seq<byte> := [];
    for lead: int := 0 to 256
      invariant |found| <= MAX_LEAD_ROWS
      invariant forall b :: 0 <= b < lead && have[b] ==> b in found
      invariant forall b :: b in found ==> b < lead && IsLead(b)
      invariant forall i, j :: 0 <= i < j < |found| ==> found[i] != found[j]
    {
      if have[lead] {
        if |found| == MAX_LEAD_ROWS {
          return None;
        }
        assert forall i :: 0 <= i < |found| ==> found[i] in found;
        found := found + [lead];
      }
    }
    if found == [] {
      return None;
    }
    return Some(found);
  }

  /** The row of a lead byte. */
  method RowOf(leads: seq<byte>, lead: byte) returns (row: nat)
    requires lead in leads
    ensures row < |leads| && leads[row] == lead
  {
    row := 0;
    while row < |leads| && leads[row] != lead
      invariant row <= |leads| && forall k :: 0 <= k < row ==> leads[k] != lead
    {
      row := row + 1;
    }
  }

  /** What the classes hold once the runes in `done` have been entered. */
  ghost predicate Entered(tk: Tokens, leads: seq<byte>, config: seq<nat>, done: set<int>) {
    && |config| == TOKEN_CLASSES && |leads| <= MAX_LEAD_ROWS && (forall b :: b in leads ==> IsLead(b))
    && forall row: nat, trail: byte :: row < |leads| && IsContinuation(trail) ==>
         var r := TwoByte(leads[row], trail);
         config[Class(row, trail)] == if r in done && r in tk.runes then tk.runes[r] else 0
  }

  lemma {:induction false} EnterOne(tk: Tokens, leads: seq<byte>, config: seq<nat>, done: set<int>, r: int, row: nat)
    requires Entered(tk, leads, config, done) && r in tk.runes && IsScalar(r) && RuneLen(r) == 2
    requires row < |leads| && leads[row] == Encode(r)[0] && forall i, j :: 0 <= i < j < |leads| ==> leads[i] != leads[j]
    ensures IsContinuation(Encode(r)[1])
    ensures Entered(tk, leads, config[Class(row, Encode(r)[1]) := tk.runes[r]], done + {r})
  {
    TwoByteOf(r);
    var f := Encode(r);
    var config' := config[Class(row, f[1]) := tk.runes[r]];
    forall row': nat, trail: byte | row' < |leads| && IsContinuation(trail)
      ensures var x := TwoByte(leads[row'], trail);
              config'[Class(row', trail)] == if x in done + {r} && x in tk.runes then tk.runes[x] else 0
    {
      ClassesApart(row, f[1], row', trail);
      var x := TwoByte(leads[row'], trail);
      if x == r {
        assert Encode(x) == [leads[row'], trail];
      }
    }
  }

  lemma {:induction false} EnterNone(tk: Tokens, leads: seq<byte>, config: seq<nat>, done: set<int>, r: int)
    requires Entered(tk, leads, config, done) && !(IsScalar(r) && RuneLen(r) == 2)
    ensures Entered(tk, leads, config, done + {r})
  {
  }

  method Classes(tk: Tokens, leads: seq<byte>) returns (config: seq<nat>)
    requires |leads| <= MAX_LEAD_ROWS && (forall b :: b in leads ==> IsLead(b))
    requires forall i, j :: 0 <= i < j < |leads| ==> leads[i] != leads[j]
    requires forall r :: r in tk.runes && IsScalar(r) && RuneLen(r) == 2 ==> Encode(r)[0] in leads
    ensures Entered(tk, leads, config, tk.runes.Keys)
  {
    hide Entered, Encode;
    config := seq(TOKEN_CLASSES, _ => 0);
    var items := tk.runes.Items;
    ghost var done := {};
    NothingEntered(tk, leads, config);
    while items != {}
      invariant items <= tk.runes.Items && |config| == TOKEN_CLASSES && Entered(tk, leads, config, done)
      invariant forall r :: r in tk.runes && (r, tk.runes[r]) !in items ==> r in done
      invariant done <= tk.runes.Keys
    {
      var item :| item in items;
      items := items - {item};
      if IsScalar(item.0) && RuneLen(item.0) == 2 {
        var form := Encode(item.0);
        var row := RowOf(leads, form[0]);
        EnterOne(tk, leads, config, done, item.0, row);
        config := config[Class(row, form[1]) := item.1];
      } else {
        EnterNone(tk, leads, config, done, item.0);
      }
      done := done + {item.0};
    }
    forall r | r in tk.runes ensures r in done {
      assert (r, tk.runes[r]) !in items;
    }
    assert done == tk.runes.Keys;
  }

  lemma {:induction false} NothingEntered(tk: Tokens, leads: seq<byte>, config: seq<nat>)
    requires |leads| <= MAX_LEAD_ROWS && (forall b :: b in leads ==> IsLead(b)) && config == seq(TOKEN_CLASSES, _ => 0)
    ensures Entered(tk, leads, config, {})
  {
  }

  /** Rows and classes share one table: classes lie below every lead byte. */
  method MakeRawByteTokenPlan(p: SearchPlan) returns (ok: bool, table: seq<nat>)
    requires p.Valid() && !p.mode.exact
    ensures ok ==> |p.patterns| > 1 && Mapped(p, table)
  {
    table := seq(256, _ => 0);
    if |p.patterns| < 2 || p.dense == [] || |p.nodes| > MAX_TRANSITION_SIZE / (2 * TRANSITION_STRIDE) ||
       |p.dense| > MAX_TRANSITION_SIZE / 4 || exists b: byte :: p.tokens.Of(Raw(b)) != 0 {
      return false, table;
    }
    var found := Leads(p.tokens);
    if found.None? {
      return false, table;
    }
    var leads := found.value;
    var config := Classes(p.tokens, leads);
    table := config + table[TOKEN_CLASSES..];
    for row := 0 to |leads|
      invariant |table| == 256 && table[..TOKEN_CLASSES] == config
      invariant forall b: byte :: IsLead(b) ==> table[b] == 0 || (0 < table[b] <= row && leads[table[b] - 1] == b)
      invariant forall k :: 0 <= k < row ==> table[leads[k]] == k + 1
    {
      assert leads[row] in leads;
      table := table[leads[row] := row + 1];
    }
    Maps(p, leads, config, table);
    ok := true;
  }

  lemma {:induction false} Maps(p: SearchPlan, leads: seq<byte>, config: seq<nat>, table: seq<nat>)
    requires |table| == 256 && p.dense != [] && !p.mode.exact && NoOpaque(p)
    requires 0 < |leads| <= MAX_LEAD_ROWS && Entered(p.tokens, leads, config, p.tokens.runes.Keys)
    requires table[..TOKEN_CLASSES] == config
    requires forall b: byte :: IsLead(b) ==> table[b] == 0 || (0 < table[b] <= |leads| && leads[table[b] - 1] == b)
    requires forall k :: 0 <= k < |leads| ==> table[leads[k]] == k + 1
    requires forall r :: r in p.tokens.runes && IsScalar(r) && RuneLen(r) == 2 ==> Encode(r)[0] in leads
    ensures Mapped(p, table)
  {
    forall lead: byte, trail: byte | IsLead(lead) && IsContinuation(trail)
      ensures Lookup(table, lead, trail) == p.tokens.Of(Rune(TwoByte(lead, trail)))
    {
      var r := TwoByte(lead, trail);
      assert IsScalar(r) && RuneLen(r) == 2 && Encode(r)[0] == lead;
      if table[lead] == 0 {
        assert lead !in leads;
      } else {
        var row := table[lead] - 1;
        var c := Class(row, trail);
        assert table[c] == table[..TOKEN_CLASSES][c] == config[c];
        assert TwoByte(leads[row], trail) == r;
      }
    }
  }

  // ----- using the table

  lemma {:induction false} TwoByteUnit(m: Mode, h: Bytes, at: nat)
    requires !m.exact && at + 1 < |h| && IsLead(h[at]) && IsContinuation(h[at + 1])
    ensures SizeAt(m, h, at) == 2 && UnitAt(m, h, at) == Rune(TwoByte(h[at], h[at + 1]))
  {
  }

  /** Read one ASCII byte or one complete two-byte encoding without decoding it; anything
      else is left to the decoder. */
  method RawByteAdvance(p: SearchPlan, table: seq<nat>, h: Bytes, at: nat, state: nat) returns (next: nat, size: nat, ok: bool)
    requires p.Valid() && Mapped(p, table) && at < |h| && state < |p.words|
    ensures ok ==> next == Target(p.words, p.ix, state, TokenAt(p, h, at)) && size == SizeAt(p.mode, h, at)
    ensures ok <==> FormLen(h, at) == 1 || FormLen(h, at) == 2
  {
    hide AllRows;
    var value := h[at];
    if IsAscii(value) {
      next := p.Step(state, p.tokens.Of(Rune(value)));
      return next, 1, true;
    }
    if !IsLead(value) || at + 1 == |h| || !IsContinuation(h[at + 1]) {
      return 0, 0, false;
    }
    var row := table[value];
    TwoByteUnit(p.mode, h, at);
    if row == 0 {
      next := p.Step(state, 0);
      return next, 2, true;
    }
    next := p.Step(state, table[Class(row - 1, h[at + 1])]);
    return next, 2, true;
  }

  /** The next transition, by the compact map where it applies and by decoding elsewhere. */
  method RawOrDecodedAdvance(p: SearchPlan, table: seq<nat>, h: Bytes, at: nat, state: nat) returns (next: nat, size: nat)
    requires p.Valid() && Mapped(p, table) && at < |h| && state < |p.words|
    ensures next == Target(p.words, p.ix, state, TokenAt(p, h, at)) && size == SizeAt(p.mode, h, at)
  {
    hide AllRows, Mapped;
    var raw;
    next, size, raw := RawByteAdvance(p, table, h, at, state);
    if !raw {
      var token;
      token, size := HaystackToken(p, h, at);
      next := p.Step(state, token);
    }
  }
}

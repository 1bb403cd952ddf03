/** The routes beside the main scan, each with what compiling it promises: the probes of one
    pattern with a fixed ASCII stretch, the pair anchor of one pattern, and the root buckets of several. */
module Routes {
  import opened Utf8
  import opened Spec
  import opened Greedy
  import opened AsciiSkip
  import opened Plan
  import opened Search
  import opened AsciiOnly
  import opened Singles
  import opened FixedAnchor
  import opened AsciiRun
  import opened RootFilters
  import opened Filtered
  import opened TripleFilters
  import opened RawMatch
  import Confirm
  import ConfirmMakers
  import UnicodePairs
  import UnicodeTriples
  import RootBucket

  // ----- one pattern with a fixed ASCII stretch

  /** The probes for Find and for Each, the length of the fixed prefix, and a run when the
      whole pattern repeats one byte. */
  datatype ProbeRoute = ProbeRoute(tokens: seq<nat>, probe: Probe, each: Probe, verify: bool, fixed: nat, run: Option<(Kind, byte)>)

  /** How a probed search picks its candidates: by three bytes, by one, or by two. */
  datatype Way = ThreeBytes | OneByte(at: nat) | TwoBytes(at: nat)

  ghost predicate ProbeReady(p: SearchPlan, needle: Bytes, route: ProbeRoute)
    reads p
  {
    && Probing(p, needle, route.tokens, route.probe, route.verify)
    && Probing(p, needle, route.tokens, route.each, route.verify) && p.Attained(1)
    && (route.fixed > 0 ==> route.fixed <= |needle| && route.probe.first == 0 && Window(p.mode, needle, Probe(0, 0, route.fixed - 1)))
    && (route.run.Some? ==> FixedNeedle(p.mode, needle) && Repeats(needle, route.run.value.0, route.run.value.1))
  }

  method MakeProbeRoute(p: SearchPlan, needle: Bytes, rarer: (byte, byte) -> bool) returns (route: Option<ProbeRoute>)
    requires Alone(p, needle) && p.Attained(1)
    ensures route.Some? ==> ProbeReady(p, needle, route.value)
    ensures |needle| >= 3 && Window(p.mode, needle, Probe(0, 0, 2)) ==> route.Some?
  {
    hide SearchPlan.Valid, SearchPlan.Attained, Repeats, AsciiNeedle;
    var tokens := SingleTokens(p);
    var probe, verify := MakeASCIIAnchor(p.mode, needle);
    if probe.None? {
      return None;
    }
    var each := MakeASCIIEachProbe(p.mode, needle, probe.value, verify, rarer);
    var fixed: nat := if probe.value.first == 0 then probe.value.third + 1 else 0;
    var run: Option<(Kind, byte)> := None;
    if !verify {
      var kind, value, same := RunOf(needle);
      run := if same then Some((kind, value)) else None;
    }
    return Some(ProbeRoute(tokens, probe.value, each, verify, fixed, run));
  }

  method FindProbed(p: SearchPlan, needle: Bytes, route: ProbeRoute, h: Bytes, way: Way, width: nat) returns (hit: Option<Hit>)
    requires p.Valid() && ProbeReady(p, needle, route) && width > 0
    ensures hit == FindFrom(p.mode, h, p.Ps())
  {
    hide SearchPlan.Valid, SearchPlan.Attained, Window, Repeats, FindFrom, FixedNeedle;
    if route.run.Some? {
      hit := FindASCIIRun(p, needle, h, route.run.value.0, route.run.value.1, width);
      return;
    }
    match way {
      case OneByte(at) =>
        if at < route.fixed {
          NarrowerWindow(p.mode, needle, at, route.fixed - 1);
          hit := FindASCIIByteAnchor(p, needle, route.tokens, route.probe, route.verify, h, at);
          return;
        }
      case TwoBytes(at) =>
        if !route.verify && at < |needle| {
          hit := FindASCIIPairAnchor(p, needle, h, at);
          return;
        }
      case ThreeBytes =>
    }
    hit := FindASCIIAnchor(p, needle, route.tokens, route.probe, route.verify, h);
  }

  lemma {:induction false} NarrowerWindow(m: Mode, needle: Bytes, o: nat, last: nat)
    requires m.Valid() && o <= last < |needle| && Window(m, needle, Probe(0, 0, last))
    ensures Window(m, needle, Probe(0, 0, o))
  {
  }

  // ----- one pattern with anchored pairs

  datatype UnicodeRoute = UnicodeRoute(tokens: seq<nat>, anchor: UnicodePairs.UnicodePair, confirm: Bytes)

  ghost predicate UnicodeReady(p: SearchPlan, route: UnicodeRoute)
    reads p
  {
    && UnicodePairs.OnePattern(p) && p.toks == [route.tokens] && UnicodePairs.PairAnchored(p, route.anchor)
    && (Confirm.Valid(route.confirm) ==>
          exists runes, all, layout :: UnicodePairs.Confirming(p, route.confirm, runes, all, layout))
  }

  /** The anchor, and the first layout that can pack the pattern. */
  method MakeUnicodeRoute(p: SearchPlan) returns (route: Option<UnicodeRoute>)
    requires UnicodePairs.OnePattern(p)
    ensures route.Some? ==> UnicodeReady(p, route.value)
  {
    hide SearchPlan.Valid, OpaqueContinuation, UnicodePairs.PairAnchored, Confirm.Valid, Confirm.FixedOf, Confirm.VariableOf, ConfirmMakers.Fixable,
         ConfirmMakers.Variably, ConfirmMakers.AllForms, Units;
    LoneSpelling(p);
    var anchor := UnicodePairs.MakeUnicodePairAnchor(p);
    if anchor.None? {
      return None;
    }
    var tokens := SingleTokens(p);
    var confirm: Bytes := [];
    NothingPacked();
    if anchor.value.confirmAt - anchor.value.at <= 0xFF {
      ghost var all, offsets, main, trailing;
      confirm, all, offsets, main, trailing :=
        ConfirmMakers.MakeUnicodePairConfirm(p.mode, p.patterns[0], anchor.value.at, Some(anchor.value.confirmAt));
      ghost var runes := ConfirmMakers.RunesIn(p.Ps()[0]);
      if Confirm.Valid(confirm) {
        assert UnicodePairs.Confirming(p, confirm, runes, all, Confirm.FixedLayout(offsets, main, trailing));
      } else {
        confirm, all := ConfirmMakers.MakeUnicodePairVariableConfirm(p.mode, p.patterns[0], anchor.value.at);
        assert Confirm.Valid(confirm) ==> UnicodePairs.Confirming(p, confirm, runes, all, Confirm.VariableLayout);
      }
    }
    return Some(UnicodeRoute(tokens, anchor.value, confirm));
  }

  lemma {:induction false} NothingPacked()
    ensures !Confirm.Valid([])
  {
  }

  /** Confirm by the packed spellings where the kernel for them is enabled. */
  method FindUnicodePairAnchor(p: SearchPlan, route: UnicodeRoute, h: Bytes, vector: bool) returns (hit: Option<Hit>)
    requires p.Valid() && UnicodeReady(p, route)
    ensures hit == FindFrom(p.mode, h, p.Ps())
  {
    hide SearchPlan.Valid, OpaqueContinuation, UnicodePairs.PairAnchored, UnicodePairs.Confirming, Confirm.Valid, FindFrom;
    if vector && Confirm.Valid(route.confirm) {
      ghost var runes, all, layout :| UnicodePairs.Confirming(p, route.confirm, runes, all, layout);
      var width;
      hit, width := UnicodePairs.FindUnicodePairConfirm(p, route.anchor, route.confirm, h, runes, all, layout);
    } else {
      hit := UnicodePairs.FindUnicodePairReplayed(p, route.tokens, route.anchor, h);
    }
  }

  datatype TripleRoute = TripleRoute(tokens: seq<nat>, triples: seq<Triple>, at: nat)

  ghost predicate TripleReady(p: SearchPlan, route: TripleRoute)
    reads p
  {
    UnicodePairs.OnePattern(p) && p.toks == [route.tokens] && UnicodeTriples.ShowsTriple(p, route.triples, route.at)
  }

  /** The window of the pattern that has the fewest spellings. */
  method MakeTripleRoute(p: SearchPlan) returns (route: Option<TripleRoute>)
    requires UnicodePairs.OnePattern(p)
    ensures route.Some? ==> TripleReady(p, route.value)
  {
    hide SearchPlan.Valid, OpaqueContinuation, UnicodeTriples.ShowsTriple;
    LoneSpelling(p);
    var anchor := UnicodeTriples.MakeUnicodeAnchor(p);
    if anchor.None? {
      return None;
    }
    var tokens := SingleTokens(p);
    return Some(TripleRoute(tokens, anchor.value.0, anchor.value.1));
  }

  // ----- several patterns

  datatype BucketRoute = BucketRoute(triples: seq<Triple>, bucket: RootBucket.Bucket, data: Option<Bytes>)

  ghost predicate BucketReady(p: SearchPlan, route: BucketRoute)
    reads p
  {
    && !OpaqueContinuation(p) && NoEmptyPattern(p)
    && (exists prefixes :: RootBucket.Bucketed(p, route.triples, prefixes, route.bucket))
    && (exists certs :: RootBucket.Loaded(p, route.data, certs))
  }

  method MakeBucketRoute(p: SearchPlan) returns (route: Option<BucketRoute>)
    requires p.Valid() && !p.mode.exact
    ensures route.Some? ==> BucketReady(p, route.value)
  {
    hide SearchPlan.Valid, OpaqueContinuation, RootBucket.ScreensAll, RootBucket.PrefixesComplete, RootBucket.SlotHolds, RootBucket.Certified,
         RootBucket.Stored;
    if p.empty.Some? || OpaqueContinuation(p) {
      return None;
    }
    var ts, complete := RootBucket.CompleteTriples(p);
    if !complete {
      return None;
    }
    var prefixes := RootBucket.MakePrefixes(p);
    if prefixes.None? {
      return None;
    }
    var bucket := RootBucket.FillBucket(p, prefixes.value);
    assert RootBucket.Bucketed(p, ts, prefixes.value, bucket);
    NoneEmpty(p);
    var certs := RootBucket.MakeRootASCIIWordCerts(p);
    var data: Option<Bytes> := None;
    if certs.Some? {
      RootBucket.CertifiedShape(p, certs.value);
      var written := RootBucket.Write(p.maxUnits, certs.value);
      data := Some(written);
      assert RootBucket.Loaded(p, data, certs.value);
    } else {
      assert RootBucket.Loaded(p, None, []);
    }
    return Some(BucketRoute(ts, bucket, data));
  }

  lemma {:induction false} NoneEmpty(p: SearchPlan)
    requires p.Valid() && p.empty.None?
    ensures NoEmptyPattern(p)
  {
    hide AllRows;
  }

  method EachBucket(p: SearchPlan, route: BucketRoute, h: Bytes, blocks: nat -> bool, goOn: seq<Emit> -> bool) returns (emitted: seq<Emit>, done: bool)
    requires p.Valid() && BucketReady(p, route)
    ensures Enumerates(EachFrom(p.mode, h, p.Ps(), 0), goOn, emitted, done)
  {
    hide SearchPlan.Valid, OpaqueContinuation, NoEmptyPattern, RootBucket.ScreensAll, RootBucket.PrefixesComplete, RootBucket.SlotHolds,
         RootBucket.Loaded, EachFrom, Enumerates;
    ghost var prefixes :| RootBucket.Bucketed(p, route.triples, prefixes, route.bucket);
    ghost var certs :| RootBucket.Loaded(p, route.data, certs);
    emitted, done := RootBucket.EachRootBucket(p, route.triples, prefixes, route.bucket, route.data, certs, h, blocks, goOn);
  }
}

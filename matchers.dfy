/**
 * The matcher combinators of the completer: a matcher consumes a prefix of a
 * node path (leaf first) and returns the rest, or fails. Type matchers check
 * the kind of the head node; store matchers also write the head node into a
 * caller-owned slot; the simple-primary matcher recognises Primary, Indexing,
 * Compound and records the compound's partially evaluated value.
 */
module Matchers {
  import opened Wrappers
  import opened SyntaxTree
  import opened PureEval

  /**
   * A caller-owned variable of a node type, as handed to `store`. The type of
   * the variable fixes the one kind of node it accepts.
   */
  class Slot {
    const kind: Kind
    var node: Option<NodeId>

    constructor (kind: Kind)
      ensures this.kind == kind && node == None
    {
      this.kind := kind;
      node := None;
    }

    /**
     * storeMatcher.match: on a head node of the slot's kind, write it into the
     * slot and consume it; otherwise fail with a nil remainder and leave the
     * slot as it was.
     */
    method Match(t: Tree, ns: seq<NodeId>) returns (rest: seq<NodeId>, ok: bool)
      requires t.Contains(ns)
      modifies this
      ensures ok == TypeMatch(t, kind, ns).Some?
      ensures rest == if ok then ns[1..] else []
      ensures node == if ok then Some(ns[0]) else old(node)
    {
      if |ns| > 0 && t.nodes[ns[0]].kind == kind {
        node := Some(ns[0]);
        return ns[1..], true;
      }
      return [], false;
    }
  }

  /** The three fields a simple-primary matcher sets on success. */
  datatype Captures = Captures(s: string, compound: Option<NodeId>, primary: Option<NodeId>)

  /** simplePrimaryMatcher: its evaluator and what the last successful match recorded. */
  class SimplePrimaryMatcher {
    const ev: PureEvaler
    var s: string
    var compound: Option<NodeId>
    var primary: Option<NodeId>

    /** simplePrimaryExpr: a matcher with nothing recorded yet. */
    constructor (ev: PureEvaler)
      ensures this.ev == ev && Captured() == Captures("", None, None)
    {
      this.ev := ev;
      s, compound, primary := "", None, None;
    }

    function Captured(): Captures
      reads this
    {
      Captures(s, compound, primary)
    }

    /**
     * simplePrimaryMatcher.match: the path must start with Primary, Indexing,
     * Compound, and the compound must evaluate purely up to the end of the
     * Indexing node. On success three nodes are consumed and the fields are
     * set; on any failure they are left as they were.
     */
    method Match(t: Tree, ns: seq<NodeId>) returns (rest: seq<NodeId>, ok: bool)
      requires t.Contains(ns)
      modifies this
      ensures ok == SimplePrimaryConsume(t, ev, ns).Some?
      ensures ok ==> |ns| >= 3 && rest == ns[3..] && Captured() == CaptureOf(t, ev, ns)
      ensures !ok ==> rest == [] && Captured() == old(Captured())
    {
      if |ns| < 3 {
        return [], false;
      }
      var primaryNode := ns[0];
      if t.nodes[primaryNode].kind != Primary {
        return [], false;
      }
      var indexingNode := ns[1];
      if t.nodes[indexingNode].kind != Indexing {
        return [], false;
      }
      var compoundNode := ns[2];
      if t.nodes[compoundNode].kind != Compound {
        return [], false;
      }
      var e := ev.partialCompound(compoundNode, t.nodes[indexingNode].to);
      if !e.ok {
        return [], false;
      }
      primary, compound, s := Some(primaryNode), Some(compoundNode), e.value;
      return ns[3..], true;
    }
  }

  /** What a successful simple-primary match records for path `ns`. */
  function CaptureOf(t: Tree, ev: PureEvaler, ns: seq<NodeId>): (c: Captures)
    requires t.Contains(ns) && SimplePrimaryConsume(t, ev, ns).Some?
    ensures c.primary.Some? && c.compound.Some? && c.primary.value in ns && c.compound.value in ns
    ensures t.Has(c.primary.value) && t.Has(c.compound.value)
    ensures t.KindOf(c.primary.value) == Primary && t.KindOf(c.compound.value) == Compound
  {
    Captures(ev.partialCompound(ns[2], t.nodes[ns[1]].to).value, Some(ns[2]), Some(ns[0]))
  }

  /** The three kinds of matcher: typed(kind), store(slot) and a simple-primary matcher. */
  datatype Matcher = Typed(kind: Kind) | Store(slot: Slot) | SimplePrimary(spm: SimplePrimaryMatcher)

  /** The package-level type matchers. */
  const AChunk := Typed(Chunk)
  const APipeline := Typed(Pipeline)
  const AForm := Typed(Form)
  const AArray := Typed(Array)
  const ACompound := Typed(Compound)
  const AIndexing := Typed(Indexing)
  const APrimary := Typed(Primary)
  const ARedir := Typed(Redir)
  const ASep := Typed(Sep)

  /** typeMatcher.match: succeed on a head node of the given kind and consume it. */
  function TypeMatch(t: Tree, kind: Kind, ns: seq<NodeId>): (r: Option<seq<NodeId>>)
    requires t.Contains(ns)
    ensures r.Some? ==> |ns| > 0 && r.value == ns[1..]
  {
    if |ns| > 0 && t.nodes[ns[0]].kind == kind then Some(ns[1..]) else None
  }

  /**
   * `is` of the Go code: two nodes have the same dynamic type, here the same
   * kind. It is the test `typed(b)` applies to a path whose head is `a`.
   */
  function Is(t: Tree, a: NodeId, b: NodeId): (r: bool)
    requires t.Has(a) && t.Has(b)
    ensures r <==> TypeMatch(t, t.KindOf(b), [a]).Some?
  {
    t.nodes[a].kind == t.nodes[b].kind
  }

  /** The remainder semantics of simplePrimaryMatcher.match, without its side effects. */
  function SimplePrimaryConsume(t: Tree, ev: PureEvaler, ns: seq<NodeId>): (r: Option<seq<NodeId>>)
    requires t.Contains(ns)
    ensures |ns| < 3 ==> r.None?
    ensures r.Some? ==> r.value == ns[3..] && t.KindOf(ns[0]) == Primary
  {
    if |ns| >= 3 && t.nodes[ns[0]].kind == Primary && t.nodes[ns[1]].kind == Indexing &&
       t.nodes[ns[2]].kind == Compound && ev.partialCompound(ns[2], t.nodes[ns[1]].to).ok
    then Some(ns[3..])
    else None
  }

  /** How many path elements a matcher consumes when it succeeds. */
  function Width(m: Matcher): nat {
    if m.SimplePrimary? then 3 else 1
  }

  function TotalWidth(ms: seq<Matcher>): nat {
    if ms == [] then 0 else Width(ms[0]) + TotalWidth(ms[1..])
  }

  /** The remainder a single matcher returns, or None when it fails. */
  function Consume(t: Tree, m: Matcher, ns: seq<NodeId>): (r: Option<seq<NodeId>>)
    requires t.Contains(ns)
    ensures r.Some? ==> Width(m) <= |ns| && r.value == ns[Width(m)..] && t.Contains(r.value)
  {
    var r := match m
      case Typed(k) => TypeMatch(t, k, ns)
      case Store(slot) => TypeMatch(t, slot.kind, ns)
      case SimplePrimary(spm) => SimplePrimaryConsume(t, spm.ev, ns);
    assert r.Some? ==> forall i :: 0 <= i < |r.value| ==> r.value[i] == ns[Width(m) + i];
    r
  }

  /**
   * The remainder nodePath.match reaches: matchers applied left to right, each
   * to what the previous one left, stopping at the first failure.
   */
  function Run(t: Tree, ms: seq<Matcher>, ns: seq<NodeId>): (r: Option<seq<NodeId>>)
    requires t.Contains(ns)
    ensures r.Some? ==> t.Contains(r.value)
    decreases |ms|
  {
    if ms == [] then Some(ns)
    else match Consume(t, ms[0], ns)
      case None => None
      case Some(rest) => Run(t, ms[1..], rest)
  }

  /** The slots the store matchers of `ms` write into, and the simple-primary matchers of `ms`. */
  ghost function Slots(ms: seq<Matcher>): set<Slot> {
    set i | 0 <= i < |ms| && ms[i].Store? :: ms[i].slot
  }

  ghost function Primaries(ms: seq<Matcher>): set<SimplePrimaryMatcher> {
    set i | 0 <= i < |ms| && ms[i].SimplePrimary? :: ms[i].spm
  }

  ghost function Targets(ms: seq<Matcher>): set<object> {
    Slots(ms) + Primaries(ms)
  }

  /**
   * The value slot `s` holds after running `ms` on `ns` from value `v`: each
   * store matcher for `s` that succeeds overwrites it with the node it
   * consumed; nothing after the first failure runs.
   */
  ghost function SlotAfter(t: Tree, ms: seq<Matcher>, ns: seq<NodeId>, s: Slot, v: Option<NodeId>): (r: Option<NodeId>)
    requires t.Contains(ns)
    ensures r == v || (r.Some? && r.value in ns)
    decreases |ms|
  {
    if ms == [] then v
    else match Consume(t, ms[0], ns)
      case None => v
      case Some(rest) =>
        SlotAfter(t, ms[1..], rest, s, if ms[0].Store? && ms[0].slot == s then Some(ns[0]) else v)
  }

  /** The same for the fields of simple-primary matcher `m`. */
  ghost function CapturedAfter(t: Tree, ms: seq<Matcher>, ns: seq<NodeId>, m: SimplePrimaryMatcher, c: Captures): (r: Captures)
    requires t.Contains(ns)
    ensures r == c || (r.primary.Some? && r.primary.value in ns && t.KindOf(r.primary.value) == Primary &&
                       r.compound.Some? && r.compound.value in ns && t.KindOf(r.compound.value) == Compound)
    decreases |ms|
  {
    if ms == [] then c
    else match Consume(t, ms[0], ns)
      case None => c
      case Some(rest) =>
        CapturedAfter(t, ms[1..], rest, m, if ms[0].SimplePrimary? && ms[0].spm == m then CaptureOf(t, m.ev, ns) else c)
  }

  /**
   * nodePath.match: apply the matchers in order, each to the remainder of the
   * previous one; report false at the first failure without running the rest.
   */
  method MatchPath(t: Tree, ns: seq<NodeId>, ms: seq<Matcher>) returns (ok: bool)
    requires t.Contains(ns)
    modifies Targets(ms)
    ensures ok == Run(t, ms, ns).Some?
    ensures ms == [] ==> ok
    ensures forall s :: s in Slots(ms) ==> s.node == SlotAfter(t, ms, ns, s, old(s.node))
    ensures forall m :: m in Primaries(ms) ==> m.Captured() == CapturedAfter(t, ms, ns, m, old(m.Captured()))
  {
    var cur := ns;
    var i := 0;
    while i < |ms|
      invariant 0 <= i <= |ms| && t.Contains(cur)
      invariant Run(t, ms, ns) == Run(t, ms[i..], cur)
      invariant forall s :: s in Slots(ms) ==>
                  SlotAfter(t, ms, ns, s, old(s.node)) == SlotAfter(t, ms[i..], cur, s, s.node)
      invariant forall m :: m in Primaries(ms) ==>
                  CapturedAfter(t, ms, ns, m, old(m.Captured())) == CapturedAfter(t, ms[i..], cur, m, m.Captured())
    {
      var m := ms[i];
      assert ms[i..][0] == m && ms[i..][1..] == ms[i + 1..];
      var rest, stepOk;
      match m {
        case Typed(k) =>
          var r := TypeMatch(t, k, cur);
          stepOk := r.Some?;
          rest := if stepOk then r.value else [];
        case Store(slot) =>
          assert slot in Slots(ms);
          rest, stepOk := slot.Match(t, cur);
        case SimplePrimary(spm) =>
          assert spm in Primaries(ms);
          rest, stepOk := spm.Match(t, cur);
      }
      if !stepOk {
        return false;
      }
      cur := rest;
      i := i + 1;
    }
    assert ms[i..] == [];
    ok := true;
  }

  /**
   * primaryInSimpleCompound: for a Primary whose parent is an Indexing whose
   * parent is a Compound, that Compound and its value evaluated purely up to
   * the end of the Indexing; nil and "" when either parent is missing or of
   * another kind, or when the evaluation fails.
   */
  function PrimaryInSimpleCompound(t: Tree, pn: NodeId, ev: PureEvaler): (r: (Option<NodeId>, string))
    requires t.Valid() && t.Has(pn)
    ensures r.0.None? ==> r.1 == ""
    ensures r.0.Some? ==>
              && pn in t.parent && t.parent[pn] in t.parent
              && r.0.value == t.parent[t.parent[pn]]
              && t.KindOf(t.parent[pn]) == Indexing && t.KindOf(r.0.value) == Compound
  {
    if pn !in t.parent then (None, "")
    else
      var indexing := t.parent[pn];
      if t.nodes[indexing].kind != Indexing || indexing !in t.parent then (None, "")
      else
        var compound := t.parent[indexing];
        if t.nodes[compound].kind != Compound then (None, "")
        else
          var e := ev.partialCompound(compound, t.nodes[indexing].to);
          if e.ok then (Some(compound), e.value) else (None, "")
  }

  /**
   * Looking a Primary's Indexing and Compound up through its parents gives
   * what the simple-primary matcher records on a path that starts at that
   * Primary and follows its parent links.
   */
  lemma PrimaryLookupAgreesWithMatcher(t: Tree, ev: PureEvaler, ns: seq<NodeId>)
    requires t.Valid() && t.Contains(ns) && |ns| >= 3
    requires t.KindOf(ns[0]) == Primary && t.ParentLink(ns, 0) && t.ParentLink(ns, 1)
    ensures PrimaryInSimpleCompound(t, ns[0], ev).0.Some? <==> SimplePrimaryConsume(t, ev, ns).Some?
    ensures PrimaryInSimpleCompound(t, ns[0], ev).0.Some? ==>
              PrimaryInSimpleCompound(t, ns[0], ev) == (CaptureOf(t, ev, ns).compound, CaptureOf(t, ev, ns).s)
  {
  }

  /** typed(n) accepts exactly the paths whose head node `is` of n's type. */
  lemma TypedMatchesIs(t: Tree, n: NodeId, ns: seq<NodeId>)
    requires t.Has(n) && t.Contains(ns)
    ensures TypeMatch(t, t.KindOf(n), ns).Some? <==> |ns| > 0 && Is(t, ns[0], n)
  {
  }

  /**
   * The simple-primary matcher accepts exactly what aPrimary, aIndexing,
   * aCompound accept in sequence, provided the compound evaluates.
   */
  lemma SimplePrimaryAsTypedSequence(t: Tree, ev: PureEvaler, ns: seq<NodeId>)
    requires t.Contains(ns)
    ensures SimplePrimaryConsume(t, ev, ns) ==
              if |ns| >= 3 && ev.partialCompound(ns[2], t.nodes[ns[1]].to).ok
              then Run(t, [APrimary, AIndexing, ACompound], ns)
              else None
  {
    var ms := [APrimary, AIndexing, ACompound];
    if |ns| >= 3 {
      var ms1, ms2: seq<Matcher> := [AIndexing, ACompound], [ACompound];
      assert ms[1..] == ms1 && ms1[1..] == ms2 && ms2[1..] == [];
      assert Run(t, ms, ns) == if t.KindOf(ns[0]) == Primary then Run(t, ms1, ns[1..]) else None;
      assert Run(t, ms1, ns[1..]) == if t.KindOf(ns[1]) == Indexing then Run(t, ms2, ns[2..]) else None by {
        assert ns[1..][1..] == ns[2..];
      }
      assert Run(t, ms2, ns[2..]) == if t.KindOf(ns[2]) == Compound then Some(ns[3..]) else None by {
        assert ns[2..][1..] == ns[3..];
      }
    }
  }

  /** Running `a` then `b` is running `a + b`: sequencing is associative. */
  lemma {:induction false} RunAppend(t: Tree, a: seq<Matcher>, b: seq<Matcher>, ns: seq<NodeId>)
    requires t.Contains(ns)
    ensures Run(t, a + b, ns) == if Run(t, a, ns).Some? then Run(t, b, Run(t, a, ns).value) else None
    decreases |a|
  {
    if a == [] {
      assert a + b == b;
    } else {
      assert (a + b)[0] == a[0] && (a + b)[1..] == a[1..] + b;
      match Consume(t, a[0], ns) {
        case None =>
        case Some(rest) => RunAppend(t, a[1..], b, rest);
      }
    }
  }

  /** The slot value after `a + b` is the value after `a`, then after `b` if `a` succeeded. */
  lemma {:induction false} SlotAfterAppend(t: Tree, a: seq<Matcher>, b: seq<Matcher>, ns: seq<NodeId>, s: Slot, v: Option<NodeId>)
    requires t.Contains(ns)
    ensures SlotAfter(t, a + b, ns, s, v) ==
              if Run(t, a, ns).Some? then SlotAfter(t, b, Run(t, a, ns).value, s, SlotAfter(t, a, ns, s, v))
              else SlotAfter(t, a, ns, s, v)
    decreases |a|
  {
    if a == [] {
      assert a + b == b;
    } else {
      assert (a + b)[0] == a[0] && (a + b)[1..] == a[1..] + b;
      match Consume(t, a[0], ns) {
        case None =>
        case Some(rest) =>
          SlotAfterAppend(t, a[1..], b, rest, s, if a[0].Store? && a[0].slot == s then Some(ns[0]) else v);
      }
    }
  }

  /** The same for the fields of a simple-primary matcher. */
  lemma {:induction false} CapturedAfterAppend(t: Tree, a: seq<Matcher>, b: seq<Matcher>, ns: seq<NodeId>, m: SimplePrimaryMatcher, c: Captures)
    requires t.Contains(ns)
    ensures CapturedAfter(t, a + b, ns, m, c) ==
              if Run(t, a, ns).Some? then CapturedAfter(t, b, Run(t, a, ns).value, m, CapturedAfter(t, a, ns, m, c))
              else CapturedAfter(t, a, ns, m, c)
    decreases |a|
  {
    if a == [] {
      assert a + b == b;
    } else {
      assert (a + b)[0] == a[0] && (a + b)[1..] == a[1..] + b;
      match Consume(t, a[0], ns) {
        case None =>
        case Some(rest) =>
          CapturedAfterAppend(t, a[1..], b, rest, m, if a[0].SimplePrimary? && a[0].spm == m then CaptureOf(t, m.ev, ns) else c);
      }
    }
  }

  /** Matcher k succeeds on the remainder left by the matchers before it, all of which succeeded. */
  ghost predicate StepSucceeds(t: Tree, ms: seq<Matcher>, ns: seq<NodeId>, k: int)
    requires t.Contains(ns) && 0 <= k < |ms|
  {
    Run(t, ms[..k], ns).Some? && Consume(t, ms[k], Run(t, ms[..k], ns).value).Some?
  }

  /**
   * nodePath.match succeeds exactly when every matcher succeeds on the
   * remainder its predecessors left.
   */
  lemma RunSucceedsIffEveryStep(t: Tree, ms: seq<Matcher>, ns: seq<NodeId>)
    requires t.Contains(ns)
    ensures Run(t, ms, ns).Some? <==> forall k :: 0 <= k < |ms| ==> StepSucceeds(t, ms, ns, k)
  {
    if ms == [] {
    } else if Run(t, ms, ns).Some? {
      forall k | 0 <= k < |ms| ensures StepSucceeds(t, ms, ns, k) {
        RunSomeStep(t, ms, ns, k);
      }
    } else {
      LastStep(t, ms, ns);
      assert !StepSucceeds(t, ms, ns, |ms| - 1);
    }
  }

  lemma RunSomeStep(t: Tree, ms: seq<Matcher>, ns: seq<NodeId>, k: nat)
    requires t.Contains(ns) && k < |ms| && Run(t, ms, ns).Some?
    ensures StepSucceeds(t, ms, ns, k)
  {
    RunAppend(t, ms[..k], ms[k..], ns);
    assert ms[..k] + ms[k..] == ms;
    assert ms[k..][0] == ms[k];
  }

  lemma LastStep(t: Tree, ms: seq<Matcher>, ns: seq<NodeId>)
    requires t.Contains(ns) && |ms| > 0
    ensures StepSucceeds(t, ms, ns, |ms| - 1) ==> Run(t, ms, ns).Some?
  {
    var k := |ms| - 1;
    RunAppend(t, ms[..k], [ms[k]], ns);
    assert ms[..k] + [ms[k]] == ms;
    assert [ms[k]][1..] == [];
  }

  /**
   * When matcher k is the first to fail, the whole match fails and neither
   * it nor any later matcher changes a slot or a simple-primary matcher.
   */
  lemma RunStopsAtFailure(t: Tree, ms: seq<Matcher>, ns: seq<NodeId>, k: nat)
    requires t.Contains(ns) && k < |ms|
    requires Run(t, ms[..k], ns).Some? && Consume(t, ms[k], Run(t, ms[..k], ns).value).None?
    ensures Run(t, ms, ns).None?
    ensures forall s, v :: SlotAfter(t, ms, ns, s, v) == SlotAfter(t, ms[..k], ns, s, v)
    ensures forall m, c :: CapturedAfter(t, ms, ns, m, c) == CapturedAfter(t, ms[..k], ns, m, c)
  {
    assert ms[..k] + ms[k..] == ms;
    assert ms[k..][0] == ms[k];
    RunAppend(t, ms[..k], ms[k..], ns);
    forall s, v ensures SlotAfter(t, ms, ns, s, v) == SlotAfter(t, ms[..k], ns, s, v) {
      SlotAfterAppend(t, ms[..k], ms[k..], ns, s, v);
    }
    forall m, c ensures CapturedAfter(t, ms, ns, m, c) == CapturedAfter(t, ms[..k], ns, m, c) {
      CapturedAfterAppend(t, ms[..k], ms[k..], ns, m, c);
    }
  }

  /**
   * A successful match consumes exactly the widths of its matchers: one
   * node per type or store matcher, three per simple-primary matcher.
   */
  lemma {:induction false} RunConsumes(t: Tree, ms: seq<Matcher>, ns: seq<NodeId>)
    requires t.Contains(ns)
    ensures Run(t, ms, ns).Some? ==> TotalWidth(ms) <= |ns| && Run(t, ms, ns).value == ns[TotalWidth(ms)..]
    decreases |ms|
  {
    if ms != [] {
      match Consume(t, ms[0], ns) {
        case None =>
        case Some(rest) =>
          RunConsumes(t, ms[1..], rest);
          if Run(t, ms, ns).Some? {
            assert rest[TotalWidth(ms[1..])..] == ns[TotalWidth(ms)..];
          }
      }
    }
  }

  lemma SlotsOfTail(ms: seq<Matcher>)
    requires ms != []
    ensures Slots(ms[1..]) <= Slots(ms) && Primaries(ms[1..]) <= Primaries(ms)
  {
    forall x | x in Slots(ms[1..]) ensures x in Slots(ms) {
      var i :| 0 <= i < |ms[1..]| && ms[1..][i].Store? && ms[1..][i].slot == x;
      assert ms[i + 1] == ms[1..][i];
    }
    forall x | x in Primaries(ms[1..]) ensures x in Primaries(ms) {
      var i :| 0 <= i < |ms[1..]| && ms[1..][i].SimplePrimary? && ms[1..][i].spm == x;
      assert ms[i + 1] == ms[1..][i];
    }
  }

  /** A slot no store matcher of `ms` names keeps its value. */
  lemma {:induction false} SlotUntouched(t: Tree, ms: seq<Matcher>, ns: seq<NodeId>, s: Slot, v: Option<NodeId>)
    requires t.Contains(ns) && s !in Slots(ms)
    ensures SlotAfter(t, ms, ns, s, v) == v
    decreases |ms|
  {
    if ms != [] {
      SlotsOfTail(ms);
      match Consume(t, ms[0], ns) {
        case None =>
        case Some(rest) => SlotUntouched(t, ms[1..], rest, s, v);
      }
    }
  }

  /** A simple-primary matcher that does not occur in `ms` keeps its fields. */
  lemma {:induction false} CapturedUntouched(t: Tree, ms: seq<Matcher>, ns: seq<NodeId>, m: SimplePrimaryMatcher, c: Captures)
    requires t.Contains(ns) && m !in Primaries(ms)
    ensures CapturedAfter(t, ms, ns, m, c) == c
    decreases |ms|
  {
    if ms != [] {
      SlotsOfTail(ms);
      match Consume(t, ms[0], ns) {
        case None =>
        case Some(rest) => CapturedUntouched(t, ms[1..], rest, m, c);
      }
    }
  }

  /**
   * After a successful match, a slot holds the node consumed by the last
   * store matcher naming it: the node at the offset where that matcher ran.
   */
  lemma StoreRecordsNode(t: Tree, ms: seq<Matcher>, ns: seq<NodeId>, k: nat, s: Slot, v: Option<NodeId>)
    requires t.Contains(ns) && Run(t, ms, ns).Some?
    requires k < |ms| && ms[k] == Store(s)
    requires forall j :: k < j < |ms| ==> !(ms[j].Store? && ms[j].slot == s)
    ensures TotalWidth(ms[..k]) < |ns|
    ensures SlotAfter(t, ms, ns, s, v) == Some(ns[TotalWidth(ms[..k])])
  {
    var a, b := ms[..k + 1], ms[k + 1..];
    assert a + b == ms;
    assert a == ms[..k] + [ms[k]];
    RunAppend(t, a, b, ns);
    RunAppend(t, ms[..k], [ms[k]], ns);
    RunConsumes(t, ms[..k], ns);
    var r := Run(t, ms[..k], ns).value;
    assert s !in Slots(b);
    SlotAfterAppend(t, a, b, ns, s, v);
    SlotUntouched(t, b, Run(t, a, ns).value, s, SlotAfter(t, a, ns, s, v));
    SlotAfterAppend(t, ms[..k], [ms[k]], ns, s, v);
    assert [ms[k]][1..] == [];
  }
}

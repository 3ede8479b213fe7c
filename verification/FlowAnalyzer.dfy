/** Finding packet flows: greedy windowed matching of an ordered template. */
module FlowAnalyzer {
  import opened Bytes
  import opened Wrappers

  datatype DecodedPacket = DecodedPacket(seqNo: int, direction: string, opcode: int, plaintext: seq<byte>)

  datatype Step = Step(direction: string, opcode: int)

  /** Packets that may lie between the start of a scan and its end. */
  const MAX_GAP: nat := 200

  predicate Matches(p: DecodedPacket, t: Step) { p.direction == t.direction && p.opcode == t.opcode }

  /** `at` lists increasing positions in `[lo, hi)` whose packets match the template step by step. */
  ghost predicate IsEmbedding(packets: seq<DecodedPacket>, template: seq<Step>, at: seq<nat>, lo: nat, hi: nat)
  {
    && |at| == |template|
    && hi <= |packets|
    && (forall k :: 0 <= k < |at| ==>
          && lo <= at[k] < hi
          && packets[at[k]].direction == template[k].direction && packets[at[k]].opcode == template[k].opcode)
    && (forall k, m :: 0 <= k < m < |at| ==> at[k] < at[m])
  }

  ghost predicate Embeds(packets: seq<DecodedPacket>, template: seq<Step>, lo: nat, hi: nat)
  {
    exists at :: IsEmbedding(packets, template, at, lo, hi)
  }

  datatype Interval = Interval(lo: nat, hi: nat)

  /** Disjoint intervals in order, each holding the template within 201 packets. */
  ghost predicate IsFlowFamily(packets: seq<DecodedPacket>, template: seq<Step>, family: seq<Interval>)
  {
    && (forall k :: 0 <= k < |family| ==>
          && family[k].hi <= family[k].lo + 201
          && Embeds(packets, template, family[k].lo, family[k].hi))
    && (forall k :: 0 <= k < |family| - 1 ==> family[k].hi <= family[k + 1].lo)
  }

  /** `matched` are the packets at the positions `at`. */
  predicate ArePacketsAt(packets: seq<DecodedPacket>, at: seq<nat>, matched: seq<DecodedPacket>)
  {
    && |matched| == |at|
    && forall k :: 0 <= k < |at| ==> at[k] < |packets| && matched[k] == packets[at[k]]
  }

  /** Every embedding that starts at `i` or later puts step `t` at `j` or later. */
  ghost predicate NoneEarlier(packets: seq<DecodedPacket>, template: seq<Step>, i: nat, t: nat, j: int)
    requires t < |template|
  {
    forall at :: IsEmbedding(packets, template, at, i, |packets|) ==> at[t] >= j
  }

  /** The scan from `i`: the packets matched, the step reached and the position after
    * the last packet looked at.  A complete scan ends as early as any can. */
  method ScanFrom(packets: seq<DecodedPacket>, template: seq<Step>, i: nat)
    returns (matched: seq<DecodedPacket>, tIdx: nat, j: nat, ghost at: seq<nat>)
    requires i < |packets| && template != []
    ensures tIdx <= |template| && i < j <= |packets| && j <= i + MAX_GAP + 1
    ensures tIdx == |template| ==>
      && IsEmbedding(packets, template, at, i, j)
      && ArePacketsAt(packets, at, matched)
      && NoneEarlier(packets, template, i, |template| - 1, j - 1)
    ensures tIdx < |template| ==> forall hi: nat :: hi <= i + MAX_GAP + 1 ==> !Embeds(packets, template, i, hi)
  {
    assert IsEmbedding(packets, template[..0], [], i, i) && NoneEarlier(packets, template, i, 0, i);
    hide IsEmbedding, NoneEarlier, Matches;
    tIdx := 0;
    matched := [];
    j := i;
    at := [];
    while j < |packets| && tIdx < |template|
      invariant i <= j <= |packets| && j <= i + MAX_GAP
      invariant tIdx <= |template| && (tIdx == |template| ==> j > i)
      invariant IsEmbedding(packets, template[..tIdx], at, i, j)
      invariant ArePacketsAt(packets, at, matched)
      invariant tIdx < |template| ==> NoneEarlier(packets, template, i, tIdx, j)
      invariant tIdx == |template| ==> NoneEarlier(packets, template, i, tIdx - 1, j - 1)
    {
      var p := packets[j];
      if Matches(p, template[tIdx]) {
        AfterMatch(packets, template, at, i, tIdx, j);
        matched := matched + [p];
        tIdx := tIdx + 1;
        at := at + [j];
      } else {
        AfterMismatch(packets, template, at, i, tIdx, j);
      }
      j := j + 1;
      if j - i > MAX_GAP {
        break;
      }
    }
    assert template[..|template|] == template;
    if tIdx < |template| {
      WindowExhausted(packets, template, i, tIdx, j);
    }
  }

  lemma AfterMatch(packets: seq<DecodedPacket>, template: seq<Step>, at: seq<nat>, i: nat, t: nat, j: nat)
    requires t < |template| && i <= j < |packets| && Matches(packets[j], template[t])
    requires IsEmbedding(packets, template[..t], at, i, j) && NoneEarlier(packets, template, i, t, j)
    ensures IsEmbedding(packets, template[..t + 1], at + [j], i, j + 1)
    ensures if t + 1 < |template| then NoneEarlier(packets, template, i, t + 1, j + 1)
      else NoneEarlier(packets, template, i, t, j)
  {
    assert template[..t + 1] == template[..t] + [template[t]];
    if t + 1 < |template| {
      forall e | IsEmbedding(packets, template, e, i, |packets|)
        ensures e[t + 1] >= j + 1
      {
        assert e[t] >= j && e[t] < e[t + 1];
      }
    }
  }

  lemma AfterMismatch(packets: seq<DecodedPacket>, template: seq<Step>, at: seq<nat>, i: nat, t: nat, j: nat)
    requires t < |template| && i <= j < |packets| && !Matches(packets[j], template[t])
    requires IsEmbedding(packets, template[..t], at, i, j) && NoneEarlier(packets, template, i, t, j)
    ensures IsEmbedding(packets, template[..t], at, i, j + 1)
    ensures NoneEarlier(packets, template, i, t, j + 1)
  {
    forall e | IsEmbedding(packets, template, e, i, |packets|)
      ensures e[t] >= j + 1
    {
      assert e[t] >= j && Matches(packets[e[t]], template[t]);
    }
  }

  lemma WindowExhausted(packets: seq<DecodedPacket>, template: seq<Step>, i: nat, t: nat, j: nat)
    requires t < |template| && NoneEarlier(packets, template, i, t, j)
    requires j >= |packets| || j >= i + MAX_GAP + 1
    ensures forall hi: nat :: hi <= i + MAX_GAP + 1 ==> !Embeds(packets, template, i, hi)
  {
    forall hi: nat | hi <= i + MAX_GAP + 1
      ensures !Embeds(packets, template, i, hi)
    {
      if Embeds(packets, template, i, hi) {
        var e :| IsEmbedding(packets, template, e, i, hi);
        assert IsEmbedding(packets, template, e, i, |packets|);
      }
    }
  }

  /** In every family, interval number `k` starts at `i` or later. */
  ghost predicate StaysAhead(packets: seq<DecodedPacket>, template: seq<Step>, k: nat, i: nat)
  {
    forall family: seq<Interval> :: IsFlowFamily(packets, template, family) && |family| > k ==> family[k].lo >= i
  }

  lemma AheadAfterMiss(packets: seq<DecodedPacket>, template: seq<Step>, k: nat, i: nat)
    requires StaysAhead(packets, template, k, i)
    requires forall hi: nat :: hi <= i + MAX_GAP + 1 ==> !Embeds(packets, template, i, hi)
    ensures StaysAhead(packets, template, k, i + 1)
  {
  }

  lemma AheadAfterHit(packets: seq<DecodedPacket>, template: seq<Step>, k: nat, i: nat, j: nat)
    requires template != [] && StaysAhead(packets, template, k, i)
    requires NoneEarlier(packets, template, i, |template| - 1, j - 1)
    ensures StaysAhead(packets, template, k + 1, j)
  {
    forall family: seq<Interval> | IsFlowFamily(packets, template, family) && |family| > k + 1
      ensures family[k + 1].lo >= j
    {
      var v := family[k];
      var e :| IsEmbedding(packets, template, e, v.lo, v.hi);
      assert IsEmbedding(packets, template, e, i, |packets|);
      assert e[|template| - 1] >= j - 1;
    }
  }

  /** The interval from the first to the last position. */
  ghost function Span(at: seq<nat>): Interval
  {
    if at == [] then Interval(0, 0) else Interval(at[0], at[|at| - 1] + 1)
  }

  ghost function Spans(places: seq<seq<nat>>): (r: seq<Interval>)
    ensures |r| == |places|
  {
    seq(|places|, k requires 0 <= k < |places| => Span(places[k]))
  }

  /** A recorded instance: the packets at the positions of an embedding. */
  ghost predicate IsInstance(packets: seq<DecodedPacket>, template: seq<Step>, at: seq<nat>,
      matched: seq<DecodedPacket>)
  {
    at != [] && IsEmbedding(packets, template, at, 0, |packets|) && ArePacketsAt(packets, at, matched)
  }

  /** `find_flows`.  An empty template fails on the first packet (`None`).  Otherwise the
    * instances are disjoint, ordered, windowed occurrences, and no disjoint family of
    * windowed occurrences is larger. */
  method FindFlows(packets: seq<DecodedPacket>, template: seq<Step>)
    returns (instances: Option<seq<seq<DecodedPacket>>>, ghost places: seq<seq<nat>>)
    ensures instances.None? <==> template == [] && packets != []
    ensures instances.Some? && packets != [] ==>
      && |instances.value| == |places|
      && (forall k :: 0 <= k < |places| ==> IsInstance(packets, template, places[k], instances.value[k]))
      && IsFlowFamily(packets, template, Spans(places))
      && (forall family: seq<Interval> :: IsFlowFamily(packets, template, family) ==> |family| <= |instances.value|)
    ensures packets == [] ==> instances == Some([])
  {
    hide IsEmbedding, NoneEarlier, IsFlowFamily, StaysAhead, IsInstance, Spans, Span;
    EmptyFamily(packets, template);
    var found: seq<seq<DecodedPacket>> := [];
    places := [];
    var i := 0;
    while i < |packets|
      invariant 0 <= i <= |packets|
      invariant i > 0 ==> template != []
      invariant packets == [] ==> found == []
      invariant |found| == |places|
      invariant forall k :: 0 <= k < |places| ==> IsInstance(packets, template, places[k], found[k])
      invariant places != [] ==> Span(places[|places| - 1]).hi <= i
      invariant IsFlowFamily(packets, template, Spans(places))
      invariant template != [] ==> StaysAhead(packets, template, |places|, i)
    {
      if template == [] {
        // Every scan is complete at once, and its last packet does not exist.
        return None, [];
      }
      var matched, tIdx, j, at := ScanFrom(packets, template, i);
      if tIdx == |template| {
        AheadAfterHit(packets, template, |places|, i, j);
        ExtendFamily(packets, template, places, at, i, j);
        WholeRange(packets, template, at, i, j, matched);
        found := found + [matched];
        places := places + [at];
        i := j;
      } else {
        AheadAfterMiss(packets, template, |places|, i);
        i := i + 1;
      }
    }
    if template != [] {
      NoneLarger(packets, template, |places|, i);
    }
    return Some(found), places;
  }

  lemma NoneLarger(packets: seq<DecodedPacket>, template: seq<Step>, k: nat, i: nat)
    requires template != [] && i >= |packets| && StaysAhead(packets, template, k, i)
    ensures forall family: seq<Interval> :: IsFlowFamily(packets, template, family) ==> |family| <= k
  {
    forall family: seq<Interval> | IsFlowFamily(packets, template, family)
      ensures |family| <= k
    {
      if |family| > k {
        NotEmpty(packets, template, family[k]);
        assert false;
      }
    }
  }

  lemma NotEmpty(packets: seq<DecodedPacket>, template: seq<Step>, v: Interval)
    requires template != [] && Embeds(packets, template, v.lo, v.hi)
    ensures v.lo < v.hi <= |packets|
  {
    var e :| IsEmbedding(packets, template, e, v.lo, v.hi);
    assert v.lo <= e[0] < v.hi;
  }

  /** A new occurrence after all others extends the family by the span of its positions. */
  lemma ExtendFamily(packets: seq<DecodedPacket>, template: seq<Step>, places: seq<seq<nat>>, at: seq<nat>, i: nat,
      j: nat)
    requires IsFlowFamily(packets, template, Spans(places))
    requires places != [] ==> Span(places[|places| - 1]).hi <= i
    requires template != [] && IsEmbedding(packets, template, at, i, j) && j <= i + MAX_GAP + 1
    ensures IsFlowFamily(packets, template, Spans(places + [at])) && Span(at).hi <= j
  {
    SpanEmbeds(packets, template, at, i, j);
    var before, after := Spans(places), Spans(places + [at]);
    assert after == before + [Span(at)];
    hide IsEmbedding, Embeds, Span;
    forall k | 0 <= k < |after|
      ensures after[k].hi <= after[k].lo + MAX_GAP + 1 && Embeds(packets, template, after[k].lo, after[k].hi)
    {
      if k < |before| {
        assert after[k] == before[k];
      }
    }
  }

  lemma SpanEmbeds(packets: seq<DecodedPacket>, template: seq<Step>, at: seq<nat>, i: nat, j: nat)
    requires template != [] && IsEmbedding(packets, template, at, i, j)
    ensures i <= Span(at).lo && Span(at).hi <= j && Embeds(packets, template, Span(at).lo, Span(at).hi)
  {
    forall k | 0 <= k < |at|
      ensures Span(at).lo <= at[k] < Span(at).hi
    {
      assert k > 0 ==> at[0] < at[k];
      assert k < |at| - 1 ==> at[k] < at[|at| - 1];
    }
    assert IsEmbedding(packets, template, at, Span(at).lo, Span(at).hi);
  }

  lemma WholeRange(packets: seq<DecodedPacket>, template: seq<Step>, at: seq<nat>, i: nat, j: nat,
      matched: seq<DecodedPacket>)
    requires template != [] && IsEmbedding(packets, template, at, i, j) && ArePacketsAt(packets, at, matched)
    ensures IsInstance(packets, template, at, matched)
  {
  }

  lemma EmptyFamily(packets: seq<DecodedPacket>, template: seq<Step>)
    ensures IsFlowFamily(packets, template, Spans([])) && StaysAhead(packets, template, 0, 0)
  {
  }
}

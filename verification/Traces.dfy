/** Recording traces (TraceWriter.py) and aligning two of them (TraceReader.py). */
module Traces {
  import opened Bytes
  import opened Md5
  import opened Md5Spec

  datatype Tracepoint =
    Tracepoint(executedInsns: nat, components: seq<seq<byte>>, stateHash: seq<byte>, didStep: bool)

  type Trace = seq<Tracepoint>

  ghost predicate Ordered(t: Trace) {
    forall i, j :: 0 <= i < j < |t| ==> t[i].executedInsns <= t[j].executedInsns
  }

  // ----- the writer

  /** A tracepoint carries the MD5 of its components, one behind the other. */
  ghost predicate Hashed(p: Tracepoint) {
    p.stateHash == Digest(Flatten(p.components))
  }

  /** From the second step recorded on, every tracepoint begins with the hash of the one before it. */
  ghost predicate Chained(t: Trace) {
    forall i :: 2 <= i < |t| ==> t[i].components != [] && t[i].components[0] == t[i - 1].stateHash
  }

  function Keys(t: Trace): (k: seq<nat>)
    ensures |k| == |t|
  {
    seq(|t|, i requires 0 <= i < |t| => t[i].executedInsns)
  }

  class TraceWriter {
    var trace: Trace
    var executedInsnCount: nat
    var previousState: seq<byte>

    ghost predicate Valid()
      reads this
    {
      && Ordered(trace)
      && forall i :: 0 <= i < |trace| ==> trace[i].executedInsns <= executedInsnCount && Hashed(trace[i])
    }

    constructor ()
      ensures Valid() && trace == [] && executedInsnCount == 0 && previousState == seq(16, _ => 0)
    {
      trace, executedInsnCount, previousState := [], 0, seq(16, _ => 0);
    }

    /** `record_state`, with the values that the trace types other than the previous state's read from
        the target after the step. */
    method RecordState(values: seq<seq<byte>>, appendToTrace: bool, doStep: bool)
      requires Valid()
      modifies this
      ensures Valid() && executedInsnCount == old(executedInsnCount) + if doStep then 1 else 0
      ensures var components := [old(previousState)] + values;
        var stateHash := Digest(Flatten(components));
        && trace == old(trace) +
             (if appendToTrace then [Tracepoint(executedInsnCount, components, stateHash, doStep)] else [])
        && previousState == if doStep then stateHash else old(previousState)
    {
      hide Digest, Flatten;
      if doStep { executedInsnCount := executedInsnCount + 1; }
      var components := [previousState] + values;
      var stateHash := HashChunks(components);
      var tracepoint := Tracepoint(executedInsnCount, components, stateHash, true);
      if doStep {
        previousState := stateHash;
      } else {
        tracepoint := tracepoint.(didStep := false);
      }
      if appendToTrace { trace := trace + [tracepoint]; }
    }
  }

  /** The counters of those of n steps that a decimated trace keeps. */
  function StepKeys(n: nat, decimation: nat, minify: bool): (k: seq<nat>)
    requires decimation > 0
    ensures decimation == 1 && !minify ==> |k| == n && forall i :: 0 <= i < n ==> k[i] == i + 1
  {
    if n == 0 then []
    else StepKeys(n - 1, decimation, minify) + if (n - 1) % decimation == 0 && !minify then [n] else []
  }

  lemma KeysSnoc(t: Trace, p: Tracepoint)
    ensures Keys(t + [p]) == Keys(t) + [p.executedInsns]
  {
  }

  /** The recording loop: the state before the first step, each step, and the state after the last one.
      `states` is what the steps read until the program ends or the limit is reached. */
  method RecordTrace(
      first: seq<seq<byte>>, states: seq<seq<seq<byte>>>, last: seq<seq<byte>>, decimation: nat, minify: bool)
    returns (writer: TraceWriter)
    requires decimation > 0
    ensures writer.Valid() && writer.executedInsnCount == |states|
    ensures Keys(writer.trace) == [0] + StepKeys(|states|, decimation, minify) + [|states|]
    ensures decimation == 1 && !minify ==> Chained(writer.trace)
  {
    hide Digest, Flatten, StepKeys, Keys;
    writer := new TraceWriter();
    writer.RecordState(first, true, false);
    OneKey(writer.trace);
    NoSteps(decimation, minify);
    for k := 0 to |states|
      invariant fresh(writer) && writer.Valid() && writer.executedInsnCount == k
      invariant Keys(writer.trace) == [0] + StepKeys(k, decimation, minify)
      invariant decimation == 1 && !minify ==>
        && Chained(writer.trace) && |writer.trace| == k + 1
        && (k > 0 ==> writer.previousState == writer.trace[k].stateHash)
    {
      var append := writer.executedInsnCount % decimation == 0 && !minify;
      ghost var before := writer.trace;
      writer.RecordState(states[k], append, true);
      if append { KeysSnoc(before, writer.trace[|before|]); } else { assert before + [] == before; }
      StepKeysNext(k, decimation, minify);
      OneModulus(k);
    }
    ghost var before := writer.trace;
    writer.RecordState(last, true, false);
    KeysSnoc(before, writer.trace[|before|]);
  }

  lemma OneKey(t: Trace)
    requires |t| == 1 && t[0].executedInsns == 0
    ensures Keys(t) == [0]
  {
  }

  lemma NoSteps(decimation: nat, minify: bool)
    requires decimation > 0
    ensures [0] + StepKeys(0, decimation, minify) == [0]
  {
  }

  lemma StepKeysNext(k: nat, decimation: nat, minify: bool)
    requires decimation > 0
    ensures [0] + StepKeys(k + 1, decimation, minify) ==
      [0] + StepKeys(k, decimation, minify) + if k % decimation == 0 && !minify then [k + 1] else []
  {
  }

  lemma OneModulus(k: nat)
    ensures k % 1 == 0
  {
  }

  // ----- alignment

  /** The index pairs handed to the callback from positions i and j on. */
  function Pairs(a: Trace, b: Trace, i: nat, j: nat): seq<(nat, nat)>
    requires i <= |a| && j <= |b|
    decreases |a| - i + |b| - j
  {
    if i == |a| || j == |b| then []
    else if a[i].executedInsns == b[j].executedInsns then [(i, j)] + Pairs(a, b, i + 1, j + 1)
    else if a[i].executedInsns < b[j].executedInsns then Pairs(a, b, i + 1, j)
    else Pairs(a, b, i, j + 1)
  }

  /** `align`; the calls of the callback are the result. */
  method Align(a: Trace, b: Trace) returns (calls: seq<(nat, nat)>)
    ensures calls == Pairs(a, b, 0, 0)
  {
    var i, j := 0, 0;
    calls := [];
    assert [] + Pairs(a, b, 0, 0) == Pairs(a, b, 0, 0);
    while i < |a| && j < |b|
      invariant i <= |a| && j <= |b|
      invariant calls + Pairs(a, b, i, j) == Pairs(a, b, 0, 0)
      decreases |a| - i + |b| - j
    {
      var (key1, key2) := (a[i].executedInsns, b[j].executedInsns);
      if key1 == key2 {
        assert calls + ([(i, j)] + Pairs(a, b, i + 1, j + 1)) == calls + [(i, j)] + Pairs(a, b, i + 1, j + 1);
        calls := calls + [(i, j)];
        i := i + 1;
        j := j + 1;
      } else if key1 < key2 {
        i := i + 1;
      } else if key2 < key1 {
        j := j + 1;
      }
    }
    assert calls + [] == calls;
  }

  /** How often a key stands among the first n tracepoints. */
  function Count(t: Trace, n: nat, key: nat): nat
    requires n <= |t|
  {
    if n == 0 then 0 else Count(t, n - 1, key) + if t[n - 1].executedInsns == key then 1 else 0
  }

  lemma {:induction false} CountGrows(t: Trace, m: nat, n: nat, key: nat)
    requires m <= n <= |t|
    ensures Count(t, m, key) <= Count(t, n, key)
    ensures (forall k :: m <= k < n ==> t[k].executedInsns != key) ==> Count(t, m, key) == Count(t, n, key)
  {
    if m < n { CountGrows(t, m, n - 1, key); }
  }

  /** Two tracepoints belong together: the same key, and the same number of occurrences before. */
  ghost predicate Match(a: Trace, b: Trace, i: nat, j: nat) {
    && i < |a| && j < |b| && a[i].executedInsns == b[j].executedInsns
    && Count(a, i, a[i].executedInsns) == Count(b, j, b[j].executedInsns)
  }

  /** Of a key still to come on one side, that side has used up no fewer than the other. */
  ghost predicate Balanced(a: Trace, b: Trace, i: nat, j: nat)
    requires i <= |a| && j <= |b|
  {
    && (forall k :: i <= k < |a| ==> Count(b, j, a[k].executedInsns) <= Count(a, i, a[k].executedInsns))
    && (forall k :: j <= k < |b| ==> Count(a, i, b[k].executedInsns) <= Count(b, j, b[k].executedInsns))
  }

  lemma BalancedAfterPair(a: Trace, b: Trace, i: nat, j: nat)
    requires i < |a| && j < |b| && Balanced(a, b, i, j) && a[i].executedInsns == b[j].executedInsns
    ensures Balanced(a, b, i + 1, j + 1)
  {
  }

  lemma BalancedAfterSkip(a: Trace, b: Trace, i: nat, j: nat)
    requires i < |a| && j <= |b| && Balanced(a, b, i, j)
    requires forall k :: j <= k < |b| ==> b[k].executedInsns != a[i].executedInsns
    ensures Balanced(a, b, i + 1, j) && (Balanced(b, a, j, i) ==> Balanced(b, a, j, i + 1))
  {
  }

  lemma BalancedMirror(a: Trace, b: Trace, i: nat, j: nat)
    requires i <= |a| && j <= |b| && Balanced(a, b, i, j)
    ensures Balanced(b, a, j, i)
  {
  }

  lemma HeadsMatch(a: Trace, b: Trace, i: nat, j: nat, p: nat, q: nat)
    requires i < |a| && j < |b| && Balanced(a, b, i, j) && a[i].executedInsns == b[j].executedInsns
    requires i <= p < |a| && j <= q < |b| && (p == i || q == j)
    ensures Match(a, b, p, q) <==> p == i && q == j
  {
    var key := a[i].executedInsns;
    if a[p].executedInsns == key && b[q].executedInsns == key {
      if q > j { CountGrows(b, j + 1, q, key); }
      if p > i { CountGrows(a, i + 1, p, key); }
    }
  }

  ghost predicate Sound(a: Trace, b: Trace, i: nat, j: nat, pairs: seq<(nat, nat)>) {
    && (forall c :: 0 <= c < |pairs| ==> i <= pairs[c].0 < |a| && j <= pairs[c].1 < |b|)
    && (forall c :: 0 <= c < |pairs| ==> a[pairs[c].0].executedInsns == b[pairs[c].1].executedInsns)
    && (forall c, d :: 0 <= c < d < |pairs| ==> pairs[c].0 < pairs[d].0 && pairs[c].1 < pairs[d].1)
  }

  lemma SoundCons(a: Trace, b: Trace, i: nat, j: nat, pairs: seq<(nat, nat)>)
    requires i < |a| && j < |b| && a[i].executedInsns == b[j].executedInsns && Sound(a, b, i + 1, j + 1, pairs)
    ensures Sound(a, b, i, j, [(i, j)] + pairs)
  {
    var all := [(i, j)] + pairs;
    forall c | 0 <= c < |all| ensures all[c] == if c == 0 then (i, j) else pairs[c - 1] {}
  }

  lemma SoundEarlier(a: Trace, b: Trace, i: nat, j: nat, i2: nat, j2: nat, pairs: seq<(nat, nat)>)
    requires Sound(a, b, i2, j2, pairs) && i <= i2 && j <= j2
    ensures Sound(a, b, i, j, pairs)
  {
  }

  /** Soundness, whatever the traces: each call pairs equal keys, later ones further on in both. */
  lemma {:induction false} CallsAreSound(a: Trace, b: Trace, i: nat, j: nat)
    requires i <= |a| && j <= |b|
    ensures Sound(a, b, i, j, Pairs(a, b, i, j))
    decreases |a| - i + |b| - j
  {
    if i == |a| || j == |b| {
    } else {
      hide Sound;
      if a[i].executedInsns == b[j].executedInsns {
        CallsAreSound(a, b, i + 1, j + 1);
        SoundCons(a, b, i, j, Pairs(a, b, i + 1, j + 1));
      } else if a[i].executedInsns < b[j].executedInsns {
        CallsAreSound(a, b, i + 1, j);
        SoundEarlier(a, b, i, j, i + 1, j, Pairs(a, b, i + 1, j));
      } else {
        CallsAreSound(a, b, i, j + 1);
        SoundEarlier(a, b, i, j, i, j + 1, Pairs(a, b, i, j + 1));
      }
    }
  }

  lemma NoneBefore(a: Trace, b: Trace, i: nat, j: nat, p: nat, q: nat)
    requires i <= |a| && j <= |b| && (p < i || q < j)
    ensures (p, q) !in Pairs(a, b, i, j)
  {
    hide Pairs;
    CallsAreSound(a, b, i, j);
  }

  lemma PairsFromEqual(a: Trace, b: Trace, i: nat, j: nat, p: nat, q: nat)
    requires i < |a| && j < |b| && a[i].executedInsns == b[j].executedInsns
    ensures (p, q) in Pairs(a, b, i, j) <==> (p, q) == (i, j) || (p, q) in Pairs(a, b, i + 1, j + 1)
  {
  }

  lemma {:induction false} PairsFromBalance(a: Trace, b: Trace, i: nat, j: nat, p: nat, q: nat)
    requires Ordered(a) && Ordered(b) && i <= |a| && j <= |b| && Balanced(a, b, i, j)
    requires i <= p < |a| && j <= q < |b|
    ensures (p, q) in Pairs(a, b, i, j) <==> Match(a, b, p, q)
    decreases |a| - i + |b| - j
  {
    hide Balanced, Match, Count;
    if a[i].executedInsns == b[j].executedInsns {
      hide Pairs;
      PairsFromEqual(a, b, i, j, p, q);
      BalancedAfterPair(a, b, i, j);
      if p > i && q > j {
        PairsFromBalance(a, b, i + 1, j + 1, p, q);
      } else {
        NoneBefore(a, b, i + 1, j + 1, p, q);
        HeadsMatch(a, b, i, j, p, q);
      }
    } else if a[i].executedInsns < b[j].executedInsns {
      BalancedAfterSkip(a, b, i, j);
      if p > i {
        PairsFromBalance(a, b, i + 1, j, p, q);
      } else {
        NoneBefore(a, b, i + 1, j, p, q);
        KeysDiffer(a, b, p, q);
      }
    } else {
      BalancedMirror(a, b, i, j);
      BalancedAfterSkip(b, a, j, i);
      BalancedMirror(b, a, j + 1, i);
      if q > j {
        PairsFromBalance(a, b, i, j + 1, p, q);
      } else {
        NoneBefore(a, b, i, j + 1, p, q);
        KeysDiffer(a, b, p, q);
      }
    }
  }

  lemma KeysDiffer(a: Trace, b: Trace, p: nat, q: nat)
    requires p < |a| && q < |b| && a[p].executedInsns != b[q].executedInsns
    ensures !Match(a, b, p, q)
  {
  }

  /** In ordered traces the callback gets exactly the pairs that belong together: occurrence n of a
      key on one side with occurrence n of it on the other. */
  lemma AlignIsMatch(a: Trace, b: Trace, p: nat, q: nat)
    requires Ordered(a) && Ordered(b) && p < |a| && q < |b|
    ensures (p, q) in Pairs(a, b, 0, 0) <==> Match(a, b, p, q)
  {
    PairsFromBalance(a, b, 0, 0, p, q);
  }

  /** How many calls concern a key. */
  function Calls(a: Trace, pairs: seq<(nat, nat)>, key: nat): nat
    requires forall c :: 0 <= c < |pairs| ==> pairs[c].0 < |a|
  {
    if pairs == [] then 0
    else (if a[pairs[0].0].executedInsns == key then 1 else 0) + Calls(a, pairs[1..], key)
  }

  function Rest(t: Trace, n: nat, key: nat): nat
    requires n <= |t|
  {
    CountGrows(t, n, |t|, key);
    Count(t, |t|, key) - Count(t, n, key)
  }

  function Min(x: nat, y: nat): nat {
    if x < y then x else y
  }

  lemma RestStep(t: Trace, n: nat, key: nat)
    requires n < |t|
    ensures Rest(t, n, key) == Rest(t, n + 1, key) + if t[n].executedInsns == key then 1 else 0
  {
    CountGrows(t, n + 1, |t|, key);
  }

  lemma NothingRests(t: Trace, n: nat, key: nat)
    requires Ordered(t) && n < |t| && key < t[n].executedInsns
    ensures Rest(t, n, key) == 0
  {
    hide Count;
    CountGrows(t, n, |t|, key);
  }

  lemma CallsCons(a: Trace, i: nat, j: nat, pairs: seq<(nat, nat)>, key: nat)
    requires i < |a| && forall c :: 0 <= c < |pairs| ==> pairs[c].0 < |a|
    ensures var all := [(i, j)] + pairs;
      (forall c :: 0 <= c < |all| ==> all[c].0 < |a|) &&
      Calls(a, all, key) == Calls(a, pairs, key) + if a[i].executedInsns == key then 1 else 0
  {
    assert ([(i, j)] + pairs)[1..] == pairs;
  }

  lemma {:induction false} CallsFrom(a: Trace, b: Trace, i: nat, j: nat, key: nat)
    requires Ordered(a) && Ordered(b) && i <= |a| && j <= |b|
    ensures var p := Pairs(a, b, i, j);
      (forall c :: 0 <= c < |p| ==> p[c].0 < |a|) && Calls(a, p, key) == Min(Rest(a, i, key), Rest(b, j, key))
    decreases |a| - i + |b| - j
  {
    hide Rest, Calls, Ordered, Count;
    if i == |a| || j == |b| {
      NothingLeft(a, b, i, j, key);
    } else {
      RestStep(a, i, key);
      RestStep(b, j, key);
      if a[i].executedInsns == b[j].executedInsns {
        CallsFrom(a, b, i + 1, j + 1, key);
        CallsCons(a, i, j, Pairs(a, b, i + 1, j + 1), key);
      } else if a[i].executedInsns < b[j].executedInsns {
        CallsFrom(a, b, i + 1, j, key);
        if key == a[i].executedInsns { NothingRests(b, j, key); }
      } else {
        CallsFrom(a, b, i, j + 1, key);
        if key == b[j].executedInsns { NothingRests(a, i, key); }
      }
    }
  }

  lemma NothingLeft(a: Trace, b: Trace, i: nat, j: nat, key: nat)
    requires i <= |a| && j <= |b| && (i == |a| || j == |b|)
    ensures Calls(a, [], key) == Min(Rest(a, i, key), Rest(b, j, key))
  {
  }

  /** In ordered traces every key is compared as often as the rarer side has it. */
  lemma CallsPerKey(a: Trace, b: Trace, key: nat)
    requires Ordered(a) && Ordered(b)
    ensures var p := Pairs(a, b, 0, 0);
      (forall c :: 0 <= c < |p| ==> p[c].0 < |a|) &&
      Calls(a, p, key) == Min(Count(a, |a|, key), Count(b, |b|, key))
  {
    CallsFrom(a, b, 0, 0, key);
  }

  /** Without the order a common key can be missed. */
  lemma UnorderedMisses()
    ensures var (a, b) := ([Tracepoint(2, [], [], true), Tracepoint(1, [], [], true)], [Tracepoint(1, [], [], true)]);
      Match(a, b, 1, 0) && Pairs(a, b, 0, 0) == []
  {
    var (a, b) := ([Tracepoint(2, [], [], true), Tracepoint(1, [], [], true)], [Tracepoint(1, [], [], true)]);
    assert Pairs(a, b, 0, 1) == [];
    assert Count(a, 1, 1) == Count(a, 0, 1) == 0;
  }
}

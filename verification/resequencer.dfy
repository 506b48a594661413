/** The reorder buffer of `orderbook_handling` (src/polymarket/websocket.rs
    and its near copy in src/main.rs). Worker threads finish out of order;
    the consumer keeps every message it receives in an ordered map keyed
    by sequence number and releases the run that starts at `next_seq`.

    `Drain`, `Step` and `Replay` are the reference definitions: the state
    after a whole arrival order. The class `Resequencer` is the consumer
    with its map and counter updated in place, proved to follow `Replay`. */
module Resequencing {
  import opened Wrappers

  /** A message as it comes off the channel: `ParsedMessage { seq_no, .. }`. */
  datatype Arrival<T> = Arrival(seqNo: nat, payload: T)

  /** A message the inner loop takes out of the buffer and hands on. */
  datatype Emission<T> = Emission(seqNo: nat, payload: T)

  /** The consumer's map and counter, with everything it has emitted so far. */
  datatype State<T> = State(buffer: map<nat, T>, nextSeq: nat, emitted: seq<Emission<T>>)

  /** `BTreeMap::new()` and `next_seq = 0`. */
  function Initial<T>(): State<T> {
    State(map[], 0, [])
  }

  /** The consecutive run lo, lo + 1, ..., hi - 1 taken out of `buffer`. */
  function Run<T>(buffer: map<nat, T>, lo: nat, hi: nat): (r: seq<Emission<T>>)
    requires lo <= hi && forall k :: lo <= k < hi ==> k in buffer
    ensures |r| == hi - lo
  {
    seq(hi - lo, i requires 0 <= i < hi - lo => Emission(lo + i, buffer[lo + i]))
  }

  /** Taking the first element off a run; the rest may be read from a
      buffer that agrees on the remaining keys. */
  lemma RunFirst<T>(buffer: map<nat, T>, rest: map<nat, T>, lo: nat, hi: nat)
    requires lo < hi && forall k :: lo <= k < hi ==> k in buffer
    requires forall k :: lo < k < hi ==> k in rest && rest[k] == buffer[k]
    ensures Run(buffer, lo, hi) == [Emission(lo, buffer[lo])] + Run(rest, lo + 1, hi)
  {
  }

  /** The inner `while let Some(..) = buffer.remove(&next_seq)` loop. */
  function Drain<T>(s: State<T>): State<T>
    decreases |s.buffer.Keys|
  {
    if s.nextSeq in s.buffer then
      var k := s.nextSeq;
      assert (s.buffer - {k}).Keys == s.buffer.Keys - {k};
      Drain(State(s.buffer - {k}, k + 1, s.emitted + [Emission(k, s.buffer[k])]))
    else
      s
  }

  /** The drain stops at the first number not in the buffer, emits the run
      up to it in order, and removes exactly that run from the buffer. */
  lemma {:induction false} DrainSpec<T>(s: State<T>)
    ensures var d := Drain(s);
            s.nextSeq <= d.nextSeq && d.nextSeq !in d.buffer &&
            (forall k :: s.nextSeq <= k < d.nextSeq ==> k in s.buffer) &&
            d.emitted == s.emitted + Run(s.buffer, s.nextSeq, d.nextSeq) &&
            (forall k :: k in d.buffer <==> k in s.buffer && !(s.nextSeq <= k < d.nextSeq)) &&
            (forall k :: k in d.buffer ==> d.buffer[k] == s.buffer[k])
    decreases |s.buffer.Keys|
  {
    if s.nextSeq in s.buffer {
      var k := s.nextSeq;
      assert (s.buffer - {k}).Keys == s.buffer.Keys - {k};
      var t := State(s.buffer - {k}, k + 1, s.emitted + [Emission(k, s.buffer[k])]);
      DrainSpec(t);
      var d := Drain(t);
      forall j | k <= j < d.nextSeq ensures j in s.buffer {
        if j > k {
          assert j in t.buffer;
        }
      }
      RunFirst(s.buffer, t.buffer, k, d.nextSeq);
    } else {
      assert Run(s.buffer, s.nextSeq, s.nextSeq) == [];
    }
  }

  /** One `rx.recv()`: insert (replacing any payload already kept under that
      number), then drain. */
  function Step<T>(s: State<T>, a: Arrival<T>): State<T> {
    Drain(s.(buffer := s.buffer[a.seqNo := a.payload]))
  }

  /** The state after the arrivals, received in this order. */
  function Replay<T>(arrivals: seq<Arrival<T>>): State<T> {
    if arrivals == [] then Initial()
    else Step(Replay(arrivals[..|arrivals| - 1]), arrivals[|arrivals| - 1])
  }

  lemma ReplayLast<T>(arrivals: seq<Arrival<T>>, a: Arrival<T>)
    ensures Replay(arrivals + [a]) == Step(Replay(arrivals), a)
  {
    assert (arrivals + [a])[..|arrivals|] == arrivals;
  }

  /** The sequence numbers that arrived. */
  ghost function SeqNos<T>(arrivals: seq<Arrival<T>>): set<nat> {
    set j | 0 <= j < |arrivals| :: arrivals[j].seqNo
  }

  lemma SeqNosLast<T>(arrivals: seq<Arrival<T>>, a: Arrival<T>)
    ensures SeqNos(arrivals + [a]) == SeqNos(arrivals) + {a.seqNo}
  {
    var all := arrivals + [a];
    forall k | k in SeqNos(arrivals) ensures k in SeqNos(all) {
      var j :| 0 <= j < |arrivals| && arrivals[j].seqNo == k;
      assert all[j] == arrivals[j];
    }
    assert all[|arrivals|] == a;
  }

  lemma ArrivedSeqNo<T>(arrivals: seq<Arrival<T>>, x: Arrival<T>)
    requires x in arrivals
    ensures x.seqNo in SeqNos(arrivals)
  {
    var j :| 0 <= j < |arrivals| && arrivals[j] == x;
  }

  /** No sequence number arrives twice. */
  ghost predicate Distinct<T>(arrivals: seq<Arrival<T>>) {
    forall i, j :: 0 <= i < j < |arrivals| ==> arrivals[i].seqNo != arrivals[j].seqNo
  }

  /** The history invariant of the consumer: the i-th emission carries
      number i, so emissions are 0, 1, 2, ... with no gap and no repeat;
      `next_seq` counts them and is never a key of the buffer; every
      emission and every buffered entry is a message that arrived. */
  ghost predicate InOrder<T>(s: State<T>, arrivals: seq<Arrival<T>>) {
    |s.emitted| == s.nextSeq && s.nextSeq !in s.buffer &&
    (forall i :: 0 <= i < |s.emitted| ==> s.emitted[i].seqNo == i) &&
    (forall i :: 0 <= i < |s.emitted| ==> Arrival(i, s.emitted[i].payload) in arrivals) &&
    (forall k :: k in s.buffer ==> Arrival(k, s.buffer[k]) in arrivals)
  }

  lemma StepInOrder<T>(s: State<T>, arrivals: seq<Arrival<T>>, a: Arrival<T>)
    requires InOrder(s, arrivals)
    ensures InOrder(Step(s, a), arrivals + [a])
  {
    var all := arrivals + [a];
    var t := s.(buffer := s.buffer[a.seqNo := a.payload]);
    var d := Drain(t);
    DrainSpec(t);
    forall x | x in arrivals ensures x in all {
    }
    forall k | k in t.buffer ensures Arrival(k, t.buffer[k]) in all {
    }
    forall i | |s.emitted| <= i < |d.emitted|
      ensures d.emitted[i].seqNo == i && Arrival(i, d.emitted[i].payload) in all
    {
      assert d.emitted[i] == Run(t.buffer, t.nextSeq, d.nextSeq)[i - |s.emitted|];
    }
  }

  lemma {:induction false} ReplayInOrder<T>(arrivals: seq<Arrival<T>>)
    ensures InOrder(Replay(arrivals), arrivals)
  {
    if arrivals != [] {
      var n := |arrivals|;
      ReplayInOrder(arrivals[..n - 1]);
      assert arrivals == arrivals[..n - 1] + [arrivals[n - 1]];
      StepInOrder(Replay(arrivals[..n - 1]), arrivals[..n - 1], arrivals[n - 1]);
    }
  }

  /** Emission is append-only: a later arrival never retracts or reorders
      what was already emitted, and `next_seq` never goes back. */
  lemma {:induction false} ReplayExtends<T>(arrivals: seq<Arrival<T>>, more: seq<Arrival<T>>)
    ensures Replay(arrivals).nextSeq <= Replay(arrivals + more).nextSeq
    ensures var e, f := Replay(arrivals).emitted, Replay(arrivals + more).emitted;
            |e| <= |f| && f[..|e|] == e
    decreases |more|
  {
    if more != [] {
      var m := |more|;
      var mid := arrivals + more[..m - 1];
      ReplayExtends(arrivals, more[..m - 1]);
      assert arrivals + more == mid + [more[m - 1]];
      ReplayLast(mid, more[m - 1]);
      var mt := Replay(mid).(buffer := Replay(mid).buffer[more[m - 1].seqNo := more[m - 1].payload]);
      DrainSpec(mt);
      var e, g, f := Replay(arrivals).emitted, Replay(mid).emitted, Replay(arrivals + more).emitted;
      assert f[..|g|] == g;
      assert f[..|e|] == g[..|e|];
    } else {
      assert arrivals + more == arrivals;
    }
  }

  /** The invariant of the consumer when no sequence number repeats: the
      buffer holds exactly the numbers that arrived and were not yet
      emitted, each with its own payload; every number below `next_seq`
      arrived and was emitted with the payload that came with it. */
  ghost predicate Accounted<T>(s: State<T>, arrivals: seq<Arrival<T>>) {
    |s.emitted| == s.nextSeq &&
    (forall k :: k in s.buffer <==> k in SeqNos(arrivals) && s.nextSeq <= k) &&
    (forall k :: 0 <= k < s.nextSeq ==> k in SeqNos(arrivals)) &&
    (forall j :: 0 <= j < |arrivals| && arrivals[j].seqNo in s.buffer ==>
       s.buffer[arrivals[j].seqNo] == arrivals[j].payload) &&
    (forall j :: 0 <= j < |arrivals| && arrivals[j].seqNo < s.nextSeq ==>
       s.emitted[arrivals[j].seqNo] == Emission(arrivals[j].seqNo, arrivals[j].payload))
  }

  lemma StepAccounted<T>(s: State<T>, arrivals: seq<Arrival<T>>, a: Arrival<T>)
    requires Accounted(s, arrivals) && a.seqNo !in SeqNos(arrivals)
    ensures Accounted(Step(s, a), arrivals + [a])
  {
    var all := arrivals + [a];
    SeqNosLast(arrivals, a);
    var t := s.(buffer := s.buffer[a.seqNo := a.payload]);
    var d := Drain(t);
    DrainSpec(t);
    assert s.nextSeq <= a.seqNo;
    forall k | 0 <= k < d.nextSeq ensures k in SeqNos(all) {
      if k >= s.nextSeq && k != a.seqNo {
        assert k in t.buffer;
        assert k in SeqNos(arrivals);
      }
    }
    forall j | 0 <= j < |all| && all[j].seqNo in d.buffer
      ensures d.buffer[all[j].seqNo] == all[j].payload
    {
      if j < |arrivals| {
        assert all[j] == arrivals[j];
      }
    }
    forall j | 0 <= j < |all| && all[j].seqNo < d.nextSeq
      ensures d.emitted[all[j].seqNo] == Emission(all[j].seqNo, all[j].payload)
    {
      StepEmitted(s, arrivals, a, j);
    }
  }

  /** The emission part of `StepAccounted`, for one arrival. */
  lemma StepEmitted<T>(s: State<T>, arrivals: seq<Arrival<T>>, a: Arrival<T>, j: nat)
    requires Accounted(s, arrivals) && a.seqNo !in SeqNos(arrivals)
    requires j < |arrivals| + 1 && (arrivals + [a])[j].seqNo < Step(s, a).nextSeq
    ensures var x, d := (arrivals + [a])[j], Step(s, a);
            x.seqNo < |d.emitted| && d.emitted[x.seqNo] == Emission(x.seqNo, x.payload)
  {
    var x := (arrivals + [a])[j];
    var t := s.(buffer := s.buffer[a.seqNo := a.payload]);
    var d := Drain(t);
    DrainSpec(t);
    var k := x.seqNo;
    if j < |arrivals| {
      assert x == arrivals[j];
    }
    if k >= s.nextSeq {
      assert d.emitted[k] == Run(t.buffer, t.nextSeq, d.nextSeq)[k - s.nextSeq];
    } else {
      assert d.emitted[k] == s.emitted[k];
    }
  }

  lemma {:induction false} ReplayAccounted<T>(arrivals: seq<Arrival<T>>)
    requires Distinct(arrivals)
    ensures Accounted(Replay(arrivals), arrivals)
  {
    if arrivals != [] {
      var n := |arrivals|;
      var earlier, a := arrivals[..n - 1], arrivals[n - 1];
      assert Distinct(earlier) by {
        forall i, j | 0 <= i < j < |earlier| ensures earlier[i].seqNo != earlier[j].seqNo {
          assert earlier[i] == arrivals[i] && earlier[j] == arrivals[j];
        }
      }
      ReplayAccounted(earlier);
      assert a.seqNo !in SeqNos(earlier);
      assert arrivals == earlier + [a];
      StepAccounted(Replay(earlier), earlier, a);
    }
  }

  /** A number that never arrives is never passed: `next_seq` stops at or
      before it, nothing at or above it is emitted, and every arrival at or
      above it stays in the buffer for good. */
  lemma {:induction false} ReplayStall<T>(arrivals: seq<Arrival<T>>, missing: nat)
    requires missing !in SeqNos(arrivals)
    ensures var s := Replay(arrivals);
            s.nextSeq <= missing &&
            (forall j :: 0 <= j < |arrivals| && arrivals[j].seqNo >= missing ==> arrivals[j].seqNo in s.buffer)
  {
    if arrivals != [] {
      var n := |arrivals|;
      var earlier, a := arrivals[..n - 1], arrivals[n - 1];
      assert arrivals == earlier + [a];
      SeqNosLast(earlier, a);
      ReplayStall(earlier, missing);
      ReplayInOrder(earlier);
      var s := Replay(earlier);
      if missing in s.buffer {
        ArrivedSeqNo(earlier, Arrival(missing, s.buffer[missing]));
      }
      var t := s.(buffer := s.buffer[a.seqNo := a.payload]);
      DrainSpec(t);
      assert missing !in t.buffer;
      forall j | 0 <= j < n && arrivals[j].seqNo >= missing
        ensures arrivals[j].seqNo in Replay(arrivals).buffer
      {
        if j < n - 1 {
          assert arrivals[j] == earlier[j];
        }
      }
    }
  }

  /** Exactly what happens when number `missing` never arrives but every
      number before it does (each once): `next_seq` stops at `missing`,
      0 .. missing - 1 are emitted in order with their payloads, and the
      buffer holds every later arrival. */
  lemma StallsAtMissing<T>(arrivals: seq<Arrival<T>>, missing: nat)
    requires Distinct(arrivals) && missing !in SeqNos(arrivals)
    requires forall k :: 0 <= k < missing ==> k in SeqNos(arrivals)
    ensures var s := Replay(arrivals);
            s.nextSeq == missing && |s.emitted| == missing &&
            (forall k :: k in s.buffer <==> k in SeqNos(arrivals) && missing < k) &&
            (forall j :: 0 <= j < |arrivals| && arrivals[j].seqNo < missing ==>
               s.emitted[arrivals[j].seqNo] == Emission(arrivals[j].seqNo, arrivals[j].payload))
  {
    ReplayInOrder(arrivals);
    ReplayAccounted(arrivals);
    ReplayStall(arrivals, missing);
  }

  /** All of 0 .. n - 1 arrive, each once, in any order: all n are emitted
      in ascending order with their payloads and the buffer ends empty. */
  lemma DeliversAll<T>(arrivals: seq<Arrival<T>>, n: nat)
    requires Distinct(arrivals) && forall j :: 0 <= j < |arrivals| ==> arrivals[j].seqNo < n
    requires forall k :: 0 <= k < n ==> k in SeqNos(arrivals)
    ensures var s := Replay(arrivals);
            s.nextSeq == n && s.buffer == map[] && |s.emitted| == n &&
            (forall j :: 0 <= j < |arrivals| ==>
               s.emitted[arrivals[j].seqNo] == Emission(arrivals[j].seqNo, arrivals[j].payload))
  {
    assert n !in SeqNos(arrivals);
    StallsAtMissing(arrivals, n);
  }

  /** `orderbook_handling`'s map and counter. `arrived` and `emitted` are the
      history, kept for the proof only. */
  class Resequencer<T> {
    var buffer: map<nat, T>
    var nextSeq: nat
    ghost var arrived: seq<Arrival<T>>
    ghost var emitted: seq<Emission<T>>

    ghost predicate Valid()
      reads this
    {
      State(buffer, nextSeq, emitted) == Replay(arrived)
    }

    constructor ()
      ensures Valid() && arrived == [] && buffer == map[] && nextSeq == 0
    {
      buffer, nextSeq := map[], 0;
      arrived, emitted := [], [];
    }

    /** One pass of the outer `while let Ok(msg) = rx.recv()` loop: insert,
        then remove and hand on `next_seq` for as long as it is present.
        `run` is what the pass hands on (printed, in the source). */
    method Receive(seqNo: nat, payload: T) returns (run: seq<Emission<T>>)
      requires Valid()
      modifies this
      ensures Valid() && arrived == old(arrived) + [Arrival(seqNo, payload)]
      ensures emitted == old(emitted) + run
    {
      buffer, nextSeq, run := TakeRun(buffer[seqNo := payload], nextSeq, emitted);
      assert State(buffer, nextSeq, emitted + run) == Step(Replay(arrived), Arrival(seqNo, payload));
      ReplayLast(arrived, Arrival(seqNo, payload));
      emitted := emitted + run;
      arrived := arrived + [Arrival(seqNo, payload)];
    }
  }

  /** The inner loop on the map and counter: `run` is what it removes and
      hands on, `before` what was handed on earlier. */
  method TakeRun<T>(buffer: map<nat, T>, nextSeq: nat, ghost before: seq<Emission<T>>)
    returns (b: map<nat, T>, n: nat, run: seq<Emission<T>>)
    ensures State(b, n, before + run) == Drain(State(buffer, nextSeq, before))
  {
    b, n, run := buffer, nextSeq, [];
    assert before + run == before;
    while n in b
      invariant Drain(State(b, n, before + run)) == Drain(State(buffer, nextSeq, before))
      decreases |b.Keys|
    {
      var p := b[n];
      assert (b - {n}).Keys == b.Keys - {n};
      assert (before + run) + [Emission(n, p)] == before + (run + [Emission(n, p)]);
      b := b - {n};
      run := run + [Emission(n, p)];
      n := n + 1;
    }
  }

  /** `orderbook_handling` over the messages in the order the channel
      delivers them: everything emitted is what `Replay` says. */
  method Handle<T>(arrivals: seq<Arrival<T>>) returns (out: seq<Emission<T>>)
    ensures out == Replay(arrivals).emitted
  {
    var consumer := new Resequencer<T>();
    out := [];
    for i := 0 to |arrivals|
      invariant consumer.Valid() && consumer.arrived == arrivals[..i] && out == consumer.emitted
    {
      var run := consumer.Receive(arrivals[i].seqNo, arrivals[i].payload);
      out := out + run;
      assert arrivals[..i + 1] == arrivals[..i] + [arrivals[i]];
    }
    assert arrivals[..|arrivals|] == arrivals;
  }

  /** What the workers send for tasks 0 .. |results| - 1, where
      `results[i]` is the parse of task i: one message per successful parse,
      none for a failed one. */
  function Sent<T>(results: seq<Option<T>>): seq<Arrival<T>> {
    if results == [] then []
    else
      var n := |results| - 1;
      Sent(results[..n]) + (if results[n].Some? then [Arrival(n, results[n].value)] else [])
  }

  /** Each task sends at most once, under its own number, with its own result. */
  lemma {:induction false} SentFacts<T>(results: seq<Option<T>>)
    ensures Distinct(Sent(results))
    ensures forall k: nat :: k in SeqNos(Sent(results)) <==> k < |results| && results[k].Some?
    ensures forall j :: 0 <= j < |Sent(results)| ==>
              Sent(results)[j].seqNo < |results| && results[Sent(results)[j].seqNo] == Some(Sent(results)[j].payload)
  {
    if results != [] {
      var n := |results| - 1;
      var earlier := Sent(results[..n]);
      SentFacts(results[..n]);
      forall j | 0 <= j < |earlier| ensures earlier[j].seqNo < n && results[earlier[j].seqNo] == Some(earlier[j].payload) {
        assert results[..n][earlier[j].seqNo] == results[earlier[j].seqNo];
      }
      if results[n].Some? {
        var a := Arrival(n, results[n].value);
        SeqNosLast(earlier, a);
        assert Sent(results) == earlier + [a];
        forall k | k in SeqNos(earlier) ensures k < n && results[k].Some? {
          assert results[..n][k] == results[k];
        }
        forall k: nat | k < n && results[k].Some? ensures k in SeqNos(earlier) {
          assert results[..n][k] == results[k];
        }
      } else {
        assert Sent(results) == earlier;
        forall k | k in SeqNos(earlier) ensures k < n && results[k].Some? {
          assert results[..n][k] == results[k];
        }
        forall k: nat | k < n && results[k].Some? ensures k in SeqNos(earlier) {
          assert results[..n][k] == results[k];
        }
      }
    }
  }

  /** `perm` lists 0 .. n - 1, each exactly once. */
  ghost predicate IsPermutation(perm: seq<nat>, n: nat) {
    |perm| == n &&
    (forall i :: 0 <= i < n ==> perm[i] < n) &&
    (forall i, j :: 0 <= i < j < n ==> perm[i] != perm[j]) &&
    (forall k :: 0 <= k < n ==> k in perm)
  }

  /** The order in which the channel happens to deliver `sent`: the
      workers of the pool finish in any order. */
  function Reorder<T>(sent: seq<Arrival<T>>, perm: seq<nat>): (r: seq<Arrival<T>>)
    requires forall i :: 0 <= i < |perm| ==> perm[i] < |sent|
    ensures |r| == |perm| && forall i :: 0 <= i < |perm| ==> r[i] == sent[perm[i]]
  {
    seq(|perm|, i requires 0 <= i < |perm| => sent[perm[i]])
  }

  /** Reordering keeps the set of numbers and keeps them distinct. */
  lemma ReorderKeeps<T>(sent: seq<Arrival<T>>, perm: seq<nat>)
    requires Distinct(sent) && IsPermutation(perm, |sent|)
    ensures Distinct(Reorder(sent, perm)) && SeqNos(Reorder(sent, perm)) == SeqNos(sent)
    ensures forall j :: 0 <= j < |perm| ==> Reorder(sent, perm)[j] in sent
  {
    var r := Reorder(sent, perm);
    forall k | k in SeqNos(sent) ensures k in SeqNos(r) {
      var j :| 0 <= j < |sent| && sent[j].seqNo == k;
      assert j in perm;
      var i :| 0 <= i < |perm| && perm[i] == j;
      assert r[i] == sent[j];
    }
  }

  /** The whole pipeline when the task numbered `failed` does not parse but
      every earlier one does: whatever order the messages arrive in, the
      consumer emits results 0 .. failed - 1 in order and then waits for
      good, holding every later success in its buffer. */
  lemma PipelineStalls<T>(results: seq<Option<T>>, perm: seq<nat>, failed: nat)
    requires failed < |results| && results[failed].None? && forall i :: 0 <= i < failed ==> results[i].Some?
    requires IsPermutation(perm, |Sent(results)|)
    ensures var s := Replay(Reorder(Sent(results), perm));
            s.nextSeq == failed && |s.emitted| == failed &&
            (forall i :: 0 <= i < failed ==> s.emitted[i] == Emission(i, results[i].value)) &&
            (forall k :: k in s.buffer <==> failed < k < |results| && results[k].Some?)
  {
    var sent := Sent(results);
    var arrivals := Reorder(sent, perm);
    SentFacts(results);
    ReorderKeeps(sent, perm);
    StallsAtMissing(arrivals, failed);
    var s := Replay(arrivals);
    forall i | 0 <= i < failed ensures s.emitted[i] == Emission(i, results[i].value) {
      assert i in SeqNos(arrivals);
      var j :| 0 <= j < |arrivals| && arrivals[j].seqNo == i;
      var m :| 0 <= m < |sent| && sent[m] == arrivals[j];
    }
  }

  /** The whole pipeline when every task parses: whatever order the
      messages arrive in, all results are emitted in task order and the
      buffer ends empty. */
  lemma PipelineDelivers<T>(results: seq<Option<T>>, perm: seq<nat>)
    requires forall i :: 0 <= i < |results| ==> results[i].Some?
    requires IsPermutation(perm, |Sent(results)|)
    ensures var s := Replay(Reorder(Sent(results), perm));
            s.nextSeq == |results| && s.buffer == map[] && |s.emitted| == |results| &&
            (forall i :: 0 <= i < |results| ==> s.emitted[i] == Emission(i, results[i].value))
  {
    var sent := Sent(results);
    var arrivals := Reorder(sent, perm);
    SentFacts(results);
    ReorderKeeps(sent, perm);
    forall j | 0 <= j < |arrivals| ensures arrivals[j].seqNo < |results| {
      var m :| 0 <= m < |sent| && sent[m] == arrivals[j];
    }
    DeliversAll(arrivals, |results|);
    var s := Replay(arrivals);
    forall i | 0 <= i < |results| ensures s.emitted[i] == Emission(i, results[i].value) {
      assert i in SeqNos(arrivals);
      var j :| 0 <= j < |arrivals| && arrivals[j].seqNo == i;
      var m :| 0 <= m < |sent| && sent[m] == arrivals[j];
    }
  }
}

/**
 * The consumer half of `main` in `src/main.rs`: results arrive on the
 * completion channel in any order, wait in a map keyed by position, and are
 * handed to the splitter's `write_f32_mono` strictly in position order.
 *
 * The channel is the sequence of its messages, in arrival order. The
 * synthesis engine and the tokio producer are not modelled; only what they
 * send is.
 */
module Reorder {
  import opened Base
  import opened Writer

  /** A synthesized line: its samples and how long the synthesis took. */
  datatype Speech = Speech(samples: seq<real>, took: Duration)

  /** One message of the completion channel: a job position and its result. */
  datatype Arrival = Arrival(idx: nat, res: Result<Speech, string>)

  /** How `main` ends after the reorder loop. */
  datatype RunOutcome =
    | Completed
    | SynthFailed(position: nat, reason: string)
    | WriteFailed(position: nat, error: WriteError)
    | ProducerFailed
    | FinalizeFailed(error: WriteError)

  /** The positions that have arrived. */
  ghost function Arrived(arr: seq<Arrival>): set<nat>
  {
    set t | 0 <= t < |arr| :: arr[t].idx
  }

  /** The positions 0 .. n-1. */
  ghost function Range(n: nat): (s: set<nat>)
    ensures forall p: nat :: p in s <==> p < n
  {
    if n == 0 then {} else Range(n - 1) + {n - 1}
  }

  /** `m` is the least position that has not arrived. */
  ghost predicate IsMex(s: set<nat>, m: nat)
  {
    m !in s && forall p :: 0 <= p < m ==> p in s
  }

  /** No position arrives twice. */
  ghost predicate Unique(arr: seq<Arrival>)
  {
    forall t, u :: 0 <= t < u < |arr| ==> arr[t].idx != arr[u].idx
  }

  /** The producer's promise: every position 0 .. n-1 is sent exactly once. */
  ghost predicate IsPermutation(arr: seq<Arrival>, n: nat)
  {
    |arr| == n && Unique(arr) && forall t :: 0 <= t < |arr| ==> arr[t].idx < n
  }

  /** The least position is determined by the set of arrived positions. */
  lemma MexUnique(s: set<nat>, m1: nat, m2: nat)
    requires IsMex(s, m1) && IsMex(s, m2)
    ensures m1 == m2
  {
  }

  lemma ArrivedStep(arr: seq<Arrival>, i: nat)
    requires i < |arr|
    ensures Arrived(arr[..i + 1]) == Arrived(arr[..i]) + {arr[i].idx}
  {
    var a, b := arr[..i], arr[..i + 1];
    forall p | p in Arrived(b) ensures p in Arrived(a) + {arr[i].idx} {
      var t :| 0 <= t < |b| && b[t].idx == p;
      if t < i {
        assert a[t].idx == p;
      }
    }
    forall p | p in Arrived(a) ensures p in Arrived(b) {
      var t :| 0 <= t < |a| && a[t].idx == p;
      assert b[t].idx == p;
    }
    assert b[i].idx == arr[i].idx;
  }

  lemma {:induction false} RangeSize(n: nat)
    ensures |Range(n)| == n
  {
    if n > 0 {
      RangeSize(n - 1);
      var r := Range(n - 1);
      assert n - 1 !in r;
      assert |r + {n - 1}| == |r| + 1;
    }
  }

  lemma {:induction false} ArrivedSize(arr: seq<Arrival>)
    requires Unique(arr)
    ensures |Arrived(arr)| == |arr|
  {
    if arr != [] {
      var n := |arr| - 1;
      var init := arr[..n];
      assert Unique(init);
      ArrivedSize(init);
      assert arr[..n + 1] == arr;
      ArrivedStep(arr, n);
      assert arr[n].idx !in Arrived(init);
    }
  }

  /** A subset as large as its superset is the whole of it. */
  lemma SubsetSameSize(a: set<nat>, b: set<nat>)
    requires a <= b && |a| == |b|
    ensures a == b
  {
    assert b == a + (b - a);
    assert |b - a| == 0;
  }

  /** A permutation of 0 .. n-1 delivers every one of those positions. */
  lemma PermutationCovers(arr: seq<Arrival>, n: nat)
    requires IsPermutation(arr, n)
    ensures Arrived(arr) == Range(n)
  {
    ArrivedSize(arr);
    RangeSize(n);
    SubsetSameSize(Arrived(arr), Range(n));
  }

  /** Once all of 0 .. n-1 have arrived, the least missing position is n. */
  lemma MexOfRange(n: nat)
    ensures IsMex(Range(n), n)
  {
  }

  /** The first arrival carrying position `p`, or `|arr|` when there is none. */
  function Find(arr: seq<Arrival>, p: nat): (t: nat)
    ensures t <= |arr|
  {
    if arr == [] then 0 else if arr[0].idx == p then 0 else 1 + Find(arr[1..], p)
  }

  /** `Find` stops at the first arrival for `p` and skips only other positions. */
  lemma {:induction false} FindFirst(arr: seq<Arrival>, p: nat)
    ensures Find(arr, p) < |arr| ==> arr[Find(arr, p)].idx == p
    ensures forall u :: 0 <= u < Find(arr, p) ==> arr[u].idx != p
  {
    if arr != [] && arr[0].idx != p {
      FindFirst(arr[1..], p);
    }
  }

  /** With unique positions, each arrival is the one found for its position. */
  lemma FindUnique(arr: seq<Arrival>, t: nat)
    requires Unique(arr) && t < |arr|
    ensures Find(arr, arr[t].idx) == t
  {
    FindFirst(arr, arr[t].idx);
  }

  /** The samples delivered for position `p` (none if it failed or never came). */
  function SamplesAt(arr: seq<Arrival>, p: nat): seq<real>
  {
    var t := Find(arr, p);
    if t < |arr| && arr[t].res.Ok? then arr[t].res.value.samples else []
  }

  /** The samples of positions 0 .. n-1, in position order: what the files should hold. */
  function Stream(arr: seq<Arrival>, n: nat): seq<real>
  {
    if n == 0 then [] else Stream(arr, n - 1) + SamplesAt(arr, n - 1)
  }

  /** The first arrival carrying an error, or `|arr|` when there is none. */
  function FirstErr(arr: seq<Arrival>): (e: nat)
    ensures e <= |arr|
    ensures forall t :: 0 <= t < e ==> arr[t].res.Ok?
    ensures e < |arr| ==> arr[e].res.Err?
  {
    if arr == [] then 0 else if arr[0].res.Err? then 0 else 1 + FirstErr(arr[1..])
  }

  /**
   * The reorder state, given the set `seen` of positions that have arrived:
   * every position below `next` has arrived (and was written), and every
   * arrived position not yet written waits in `buffer`, which holds nothing
   * that has not arrived.
   */
  ghost predicate Waiting(seen: set<nat>, buffer: map<nat, Speech>, next: nat)
  {
    && (forall p: nat :: p < next ==> p in seen)
    && (forall k :: k in buffer ==> k in seen)
    && (forall k :: k in seen && k >= next ==> k in buffer)
  }

  /**
   * With unique positions, the buffer holds exactly the results of positions
   * not yet written, and the encoders were fed positions 0 .. next-1 in order,
   * which added that many frames to the files.
   */
  ghost predicate Faithful(arr: seq<Arrival>, buffer: map<nat, Speech>, next: nat,
                           fed: seq<int>, fed0: seq<int>, frames: nat, frames0: nat)
  {
    && (forall k :: k in buffer ==> k >= next && buffer[k].samples == SamplesAt(arr, k))
    && fed == fed0 + Pcm(Stream(arr, next))
    && frames == frames0 + |Stream(arr, next)|
  }

  /** A drained state: `next` has not arrived, so it is the least missing position. */
  lemma SettledIsMex(seen: set<nat>, buffer: map<nat, Speech>, next: nat)
    requires Waiting(seen, buffer, next) && next !in buffer
    ensures IsMex(seen, next)
  {
  }

  /** Writing the next expected position keeps the reorder state. */
  lemma WaitingStep(seen: set<nat>, buffer: map<nat, Speech>, next: nat)
    requires Waiting(seen, buffer, next) && next in buffer
    ensures Waiting(seen, buffer - {next}, next + 1)
  {
  }

  /** The samples buffered for positions lo .. hi-1, in position order. */
  function Batch(buffer: map<nat, Speech>, lo: nat, hi: nat): seq<real>
    requires lo <= hi && forall k :: lo <= k < hi ==> k in buffer
    decreases hi - lo
  {
    if lo == hi then [] else Batch(buffer, lo, hi - 1) + buffer[hi - 1].samples
  }

  /** The buffer without the positions lo .. hi-1. */
  function Without(buffer: map<nat, Speech>, lo: nat, hi: nat): (m: map<nat, Speech>)
    ensures forall k :: k in m <==> k in buffer && !(lo <= k < hi)
  {
    map k | k in buffer && !(lo <= k < hi) :: buffer[k]
  }

  /** Taking position hi out as well removes lo .. hi. */
  lemma WithoutStep(buffer: map<nat, Speech>, lo: nat, hi: nat)
    requires lo <= hi
    ensures Without(buffer, lo, hi) - {hi} == Without(buffer, lo, hi + 1)
  {
  }

  /** A drain that wrote lo .. hi-1 from a reorder state leaves one at hi. */
  lemma WaitingAfterDrain(seen: set<nat>, buffer: map<nat, Speech>, lo: nat, hi: nat)
    requires Waiting(seen, buffer, lo)
    requires lo <= hi && forall k :: lo <= k < hi ==> k in buffer
    ensures Waiting(seen, Without(buffer, lo, hi), hi)
  {
  }

  /** Writing one more buffered position extends the batch, its PCM and its length. */
  lemma BatchStep(buffer: map<nat, Speech>, lo: nat, hi: nat)
    requires lo <= hi && forall k :: lo <= k <= hi ==> k in buffer
    ensures Batch(buffer, lo, hi + 1) == Batch(buffer, lo, hi) + buffer[hi].samples
    ensures Pcm(Batch(buffer, lo, hi + 1)) == Pcm(Batch(buffer, lo, hi)) + Pcm(buffer[hi].samples)
  {
    PcmAppend(Batch(buffer, lo, hi), buffer[hi].samples);
  }

  /**
   * When the buffered results of positions lo .. hi-1 are the recorded ones,
   * writing them after the stream of 0 .. lo-1 gives the stream of 0 .. hi-1.
   */
  lemma {:induction false} BatchExtendsStream(arr: seq<Arrival>, buffer: map<nat, Speech>, lo: nat, hi: nat)
    requires lo <= hi
    requires forall k :: lo <= k < hi ==> k in buffer && buffer[k].samples == SamplesAt(arr, k)
    ensures Stream(arr, lo) + Batch(buffer, lo, hi) == Stream(arr, hi)
    decreases hi - lo
  {
    if lo < hi {
      var head, last := Batch(buffer, lo, hi - 1), buffer[hi - 1].samples;
      calc {
        Stream(arr, lo) + Batch(buffer, lo, hi);
        Stream(arr, lo) + (head + last);
        (Stream(arr, lo) + head) + last;
        { BatchExtendsStream(arr, buffer, lo, hi - 1); }
        Stream(arr, hi - 1) + last;
        Stream(arr, hi - 1) + SamplesAt(arr, hi - 1);
      }
    }
  }

  /**
   * One pass of the drain: take the result of position `next` out of the
   * buffer (`buffer.remove`) and write its samples (`write_f32_mono`). Stated
   * also against the drain so far: the buffer it started from is `buffer0`,
   * positions next0 .. next-1 were written, and the writer had been fed `fed0`
   * and held `sum0` frames before them.
   */
  method WriteNext(w: Mp3Splitter, buffer: map<nat, Speech>, next: nat,
                   ghost buffer0: map<nat, Speech>, ghost next0: nat, ghost fed0: seq<int>, ghost sum0: nat)
    returns (r: Outcome<WriteError>, rest: map<nat, Speech>)
    requires w.Valid() && w.config.channels == 1 && next in buffer
    requires next0 <= next && forall k :: next0 <= k < next ==> k in buffer0
    requires buffer == Without(buffer0, next0, next)
    requires w.fed == fed0 + Pcm(Batch(buffer0, next0, next))
    requires Sum(FrameCounts(w.files)) == sum0 + |Batch(buffer0, next0, next)|
    modifies w`index, w`files, w`out, w`enc, w`writtenFrames, w`pcmScratch, w`fed, w`ioCalls
    ensures rest == buffer - {next} == Without(buffer0, next0, next + 1)
    ensures forall k :: next0 <= k < next + 1 ==> k in buffer0
    ensures w.Valid() && old(w.ioCalls) <= w.ioCalls
    ensures r.Pass? <==> w.FaultFreeBetween(old(w.ioCalls), w.ioCalls)
    ensures r.Pass? ==>
      && w.fed == old(w.fed) + Pcm(buffer[next].samples)
      && Sum(FrameCounts(w.files)) == old(Sum(FrameCounts(w.files))) + |buffer[next].samples|
    ensures r.Pass? ==>
      && w.fed == fed0 + Pcm(Batch(buffer0, next0, next + 1))
      && Sum(FrameCounts(w.files)) == sum0 + |Batch(buffer0, next0, next + 1)|
    ensures r.Pass? && old(w.Healthy()) ==> w.Healthy()
  {
    BatchStep(buffer0, next0, next);
    WithoutStep(buffer0, next0, next);
    var speech := buffer[next];
    rest := buffer - {next};
    r := w.WriteMono(speech.samples);
  }

  /**
   * The inner `while let` of the reorder loop: while the buffer holds the
   * next expected position, remove it, write it, and move on. A failed write
   * ends the run (`expect_or_log`). After a clean drain exactly the positions
   * next0 .. next-1 left the buffer, and their samples were written in that order.
   */
  method Drain(w: Mp3Splitter, buffer0: map<nat, Speech>, next0: nat, ghost seen: set<nat>)
    returns (r: Outcome<WriteError>, buffer: map<nat, Speech>, next: nat)
    requires w.Valid() && w.config.channels == 1
    requires Waiting(seen, buffer0, next0)
    modifies w`index, w`files, w`out, w`enc, w`writtenFrames, w`pcmScratch, w`fed, w`ioCalls
    ensures w.Valid() && old(w.ioCalls) <= w.ioCalls
    ensures r.Pass? <==> w.FaultFreeBetween(old(w.ioCalls), w.ioCalls)
    ensures next0 <= next && forall k :: next0 <= k < next ==> k in buffer0
    ensures r.Fail? ==> next in buffer0
    ensures r.Pass? ==>
      && buffer == Without(buffer0, next0, next)
      && Waiting(seen, buffer, next) && next !in buffer
      && w.fed == old(w.fed) + Pcm(Batch(buffer0, next0, next))
      && Sum(FrameCounts(w.files)) == old(Sum(FrameCounts(w.files))) + |Batch(buffer0, next0, next)|
    ensures r.Pass? && old(w.Healthy()) ==> w.Healthy()
  {
    buffer, next := buffer0, next0;
    assert buffer == Without(buffer0, next0, next0);
    ghost var c0, fed0 := w.ioCalls, w.fed;
    ghost var sum0 := Sum(FrameCounts(w.files));
    ghost var healthy := w.Healthy();
    r := Pass;
    while next in buffer
      invariant w.Valid() && w.config.channels == 1 && c0 <= w.ioCalls
      invariant r.Pass? && w.FaultFreeBetween(c0, w.ioCalls)
      invariant next0 <= next && forall k :: next0 <= k < next ==> k in buffer0
      invariant buffer == Without(buffer0, next0, next)
      invariant w.fed == fed0 + Pcm(Batch(buffer0, next0, next))
      invariant Sum(FrameCounts(w.files)) == sum0 + |Batch(buffer0, next0, next)|
      invariant healthy ==> w.Healthy()
      decreases |buffer|
    {
      ghost var mid := w.ioCalls;
      r, buffer := WriteNext(w, buffer, next, buffer0, next0, fed0, sum0);
      w.FaultFreeSplit(c0, mid, w.ioCalls);
      if r.Fail? {
        return;
      }
      next := next + 1;
    }
    WaitingAfterDrain(seen, buffer0, next0, next);
  }

  /**
   * With unique positions, a clean drain keeps the buffer and the fed stream
   * faithful: what it wrote are the recorded results of next0 .. next-1.
   */
  lemma FaithfulAfterDrain(arr: seq<Arrival>, buffer0: map<nat, Speech>, next0: nat,
                           buffer: map<nat, Speech>, next: nat,
                           fed1: seq<int>, fed: seq<int>, fed0: seq<int>,
                           frames1: nat, frames: nat, frames0: nat)
    requires Faithful(arr, buffer0, next0, fed1, fed0, frames1, frames0)
    requires next0 <= next && forall k :: next0 <= k < next ==> k in buffer0
    requires buffer == Without(buffer0, next0, next)
    requires fed == fed1 + Pcm(Batch(buffer0, next0, next))
    requires frames == frames1 + |Batch(buffer0, next0, next)|
    ensures Faithful(arr, buffer, next, fed, fed0, frames, frames0)
  {
    var batch := Batch(buffer0, next0, next);
    BatchExtendsStream(arr, buffer0, next0, next);
    PcmChain(fed0, fed1, fed, Stream(arr, next0), batch);
    HeldAfterDrain(arr, buffer0, next0, next);
  }

  /** Feeding `a` and then `b` feeds the conversion of `a + b`. */
  lemma PcmChain(fed0: seq<int>, fed1: seq<int>, fed: seq<int>, a: seq<real>, b: seq<real>)
    requires fed1 == fed0 + Pcm(a) && fed == fed1 + Pcm(b)
    ensures fed == fed0 + Pcm(a + b)
  {
    PcmAppend(a, b);
    assert fed == (fed0 + Pcm(a)) + Pcm(b);
  }

  /** What stays in the buffer after a drain is still the pending results from `next` on. */
  lemma HeldAfterDrain(arr: seq<Arrival>, buffer0: map<nat, Speech>, next0: nat, next: nat)
    requires forall k :: k in buffer0 ==> k >= next0 && buffer0[k].samples == SamplesAt(arr, k)
    requires next0 <= next && forall k :: next0 <= k < next ==> k in buffer0
    ensures forall k :: k in Without(buffer0, next0, next) ==>
      k >= next && Without(buffer0, next0, next)[k].samples == SamplesAt(arr, k)
  {
  }

  /** Inserting an arrived result keeps the reorder state. */
  lemma WaitingInsert(seen: set<nat>, buffer: map<nat, Speech>, next: nat, k: nat, v: Speech)
    requires Waiting(seen, buffer, next)
    ensures Waiting(seen + {k}, buffer[k := v], next)
  {
  }

  /**
   * With unique positions, an arriving result is not yet written, and it is
   * the result recorded for its position.
   */
  lemma FaithfulInsert(arr: seq<Arrival>, i: nat, buffer: map<nat, Speech>, next: nat,
                       fed: seq<int>, fed0: seq<int>, frames: nat, frames0: nat)
    requires Unique(arr) && i < |arr| && arr[i].res.Ok?
    requires forall p: nat :: p < next ==> p in Arrived(arr[..i])
    requires Faithful(arr, buffer, next, fed, fed0, frames, frames0)
    ensures Faithful(arr, buffer[arr[i].idx := arr[i].res.value], next, fed, fed0, frames, frames0)
  {
    FindUnique(arr, i);
    assert arr[i].idx !in Arrived(arr[..i]);
  }

  /**
   * The body of the reorder loop for a successful result: store it under its
   * position (`buffer.insert`), then drain. `arr[i]` is the message, `seen0`
   * the positions that arrived before it.
   */
  method Receive(w: Mp3Splitter, pending0: map<nat, Speech>, next0: nat, idx: nat, speech: Speech,
                 ghost arr: seq<Arrival>, ghost i: nat, ghost seen0: set<nat>, ghost fed0: seq<int>, ghost frames0: nat)
    returns (d: Outcome<WriteError>, pending: map<nat, Speech>, next: nat)
    requires w.Valid() && w.config.channels == 1
    requires i < |arr| && arr[i] == Arrival(idx, Ok(speech)) && seen0 == Arrived(arr[..i])
    requires Waiting(seen0, pending0, next0) && next0 !in pending0
    requires Unique(arr) ==> Faithful(arr, pending0, next0, w.fed, fed0, Sum(FrameCounts(w.files)), frames0)
    modifies w`index, w`files, w`out, w`enc, w`writtenFrames, w`pcmScratch, w`fed, w`ioCalls
    ensures w.Valid() && old(w.ioCalls) <= w.ioCalls
    ensures d.Pass? <==> w.FaultFreeBetween(old(w.ioCalls), w.ioCalls)
    ensures next0 <= next
    ensures d.Pass? ==> Waiting(seen0 + {idx}, pending, next) && next !in pending
    ensures d.Pass? && Unique(arr) ==> Faithful(arr, pending, next, w.fed, fed0, Sum(FrameCounts(w.files)), frames0)
    ensures d.Pass? && old(w.Healthy()) ==> w.Healthy()
  {
    WaitingInsert(seen0, pending0, next0, idx, speech);
    if Unique(arr) {
      FaithfulInsert(arr, i, pending0, next0, w.fed, fed0, Sum(FrameCounts(w.files)), frames0);
    }
    var stored := pending0[idx := speech];
    ghost var (fed1, frames1) := (w.fed, Sum(FrameCounts(w.files)));
    d, pending, next := Drain(w, stored, next0, seen0 + {idx});
    if d.Pass? && Unique(arr) {
      FaithfulAfterDrain(arr, stored, next0, pending, next, fed1, w.fed, fed0,
                         frames1, Sum(FrameCounts(w.files)), frames0);
    }
  }

  /**
   * The reorder loop of `main`: for each message, an error result ends the
   * run (`expect_or_log`) before it is stored; otherwise it is stored under
   * its position and the buffer is drained. `next` is `next_expected` and
   * `pending` the buffer when the loop stops.
   */
  method Consume(arr: seq<Arrival>, w: Mp3Splitter) returns (r: RunOutcome, next: nat, pending: map<nat, Speech>)
    requires w.Valid() && w.config.channels == 1
    modifies w`index, w`files, w`out, w`enc, w`writtenFrames, w`pcmScratch, w`fed, w`ioCalls
    ensures w.Valid() && old(w.ioCalls) <= w.ioCalls
    ensures r.Completed? || r.SynthFailed? || r.WriteFailed?
    ensures r.Completed? <==> FirstErr(arr) == |arr| && w.FaultFreeBetween(old(w.ioCalls), w.ioCalls)
    ensures r.Completed? ==> IsMex(Arrived(arr), next) && Waiting(Arrived(arr), pending, next)
    ensures r.SynthFailed? ==>
      && FirstErr(arr) < |arr|
      && r == SynthFailed(arr[FirstErr(arr)].idx, arr[FirstErr(arr)].res.error)
      && IsMex(Arrived(arr[..FirstErr(arr)]), next)
      && Waiting(Arrived(arr[..FirstErr(arr)]), pending, next) && next !in pending
    ensures r.WriteFailed? ==> r.position == next
    ensures !r.WriteFailed? && Unique(arr) ==>
      && w.fed == old(w.fed) + Pcm(Stream(arr, next))
      && Sum(FrameCounts(w.files)) == old(Sum(FrameCounts(w.files))) + |Stream(arr, next)|
      && (forall k :: k in pending ==> k >= next)
    ensures !r.WriteFailed? && old(w.Healthy()) ==> w.Healthy()
  {
    ghost var c0, fed0 := w.ioCalls, w.fed;
    ghost var frames0 := Sum(FrameCounts(w.files));
    ghost var healthy := w.Healthy();
    ghost var unique := Unique(arr);
    ghost var seen: set<nat> := {};
    next, pending := 0, map[];
    assert arr[..0] == [];
    var i := 0;
    while i < |arr|
      invariant i <= |arr|
      invariant w.Valid() && w.config.channels == 1 && c0 <= w.ioCalls
      invariant w.FaultFreeBetween(c0, w.ioCalls)
      invariant forall t :: 0 <= t < i ==> arr[t].res.Ok?
      invariant seen == Arrived(arr[..i])
      invariant Waiting(seen, pending, next) && next !in pending
      invariant unique ==> Faithful(arr, pending, next, w.fed, fed0, Sum(FrameCounts(w.files)), frames0)
      invariant healthy ==> w.Healthy()
    {
      var msg := arr[i];
      if msg.res.Err? {
        assert FirstErr(arr) == i;
        SettledIsMex(seen, pending, next);
        return SynthFailed(msg.idx, msg.res.error), next, pending;
      }
      ghost var mid := w.ioCalls;
      var d;
      d, pending, next := Receive(w, pending, next, msg.idx, msg.res.value, arr, i, seen, fed0, frames0);
      w.FaultFreeSplit(c0, mid, w.ioCalls);
      if d.Fail? {
        return WriteFailed(next, d.error), next, pending;
      }
      ArrivedStep(arr, i);
      seen := seen + {msg.idx};
      i := i + 1;
    }
    assert arr[..i] == arr;
    SettledIsMex(seen, pending, next);
    r := Completed;
  }

  /**
   * With every position 0 .. n-1 sent once and no failure, the loop writes
   * all n results, in position order, and leaves nothing in the buffer.
   */
  lemma PermutationDrainsAll(arr: seq<Arrival>, n: nat, pending: map<nat, Speech>, next: nat)
    requires IsPermutation(arr, n)
    requires IsMex(Arrived(arr), next) && Waiting(Arrived(arr), pending, next)
    requires forall k :: k in pending ==> k >= next
    ensures next == n && pending == map[]
  {
    PermutationCovers(arr, n);
    MexOfRange(n);
    MexUnique(Arrived(arr), next, n);
    assert forall k :: k !in pending;
  }

  /**
   * The tail of `main`: the reorder loop, then the producer's own result,
   * then `finalize`. Each failure ends the run (`expect_or_log`);
   * `producerOk` is what awaiting the producer task returned.
   */
  method Run(arr: seq<Arrival>, producerOk: bool, w: Mp3Splitter) returns (r: RunOutcome, next: nat)
    requires w.Valid() && w.config.channels == 1
    modifies w`index, w`files, w`out, w`enc, w`writtenFrames, w`pcmScratch, w`fed, w`ioCalls
    ensures w.Valid() && old(w.ioCalls) <= w.ioCalls
    ensures r.Completed? <==>
      FirstErr(arr) == |arr| && producerOk && w.FaultFreeBetween(old(w.ioCalls), w.ioCalls)
    ensures r.SynthFailed? ==>
      && FirstErr(arr) < |arr|
      && r == SynthFailed(arr[FirstErr(arr)].idx, arr[FirstErr(arr)].res.error)
      && IsMex(Arrived(arr[..FirstErr(arr)]), next)
    ensures r.Completed? ==> IsMex(Arrived(arr), next) && w.out.None?
    ensures r.Completed? && Unique(arr) ==>
      && w.fed == old(w.fed) + Pcm(Stream(arr, next))
      && Sum(FrameCounts(w.files)) == old(Sum(FrameCounts(w.files))) + |Stream(arr, next)|
    ensures r.Completed? && IsPermutation(arr, |arr|) ==>
      && next == |arr|
      && w.fed == old(w.fed) + Pcm(Stream(arr, |arr|))
      && Sum(FrameCounts(w.files)) == old(Sum(FrameCounts(w.files))) + |Stream(arr, |arr|)|
    ensures r.Completed? && IsPermutation(arr, |arr|) && old(w.Healthy()) && old(w.files) == [] && |Stream(arr, |arr|)| > 0
      ==> |w.files| == CeilDiv(|Stream(arr, |arr|)|, w.framesPerFile)
    ensures r.Completed? && old(w.Healthy()) ==>
      && (forall j :: 0 <= j < |w.files| ==> w.files[j].finished)
      && Tiled(FrameCounts(w.files), w.framesPerFile)
  {
    ghost var c0, healthy := w.ioCalls, w.Healthy();
    var pending;
    r, next, pending := Consume(arr, w);
    if !r.Completed? {
      return;
    }
    if IsPermutation(arr, |arr|) {
      PermutationDrainsAll(arr, |arr|, pending, next);
    }
    if !producerOk {
      return ProducerFailed, next;
    }
    ghost var mid := w.ioCalls;
    var f := w.Finalize();
    w.FaultFreeSplit(c0, mid, w.ioCalls);
    if f.Fail? {
      return FinalizeFailed(f.error), next;
    }
    if healthy {
      SegmentCount(FrameCounts(w.files), w.framesPerFile);
    }
    r := Completed;
  }
}

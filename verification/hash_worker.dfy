/** The hashing web worker of the client: on a message carrying `fileChunkList`
    it reads the chunks one at a time, each read started from the load handler
    of the previous one, feeds every loaded chunk to an incremental MD5 hasher,
    posts a progress message after each chunk but the last and, after the last,
    one message with the digest, then closes itself.

    The worker is modelled as a loop that records what it does as a trace of
    events. The digest function of the hasher is a parameter `md5`: the hasher
    is fed the chunks in turn and its final digest is `md5` of their
    concatenation. */
module HashWorker {

  import opened ByteFile

  /** A message posted to the page: progress only, or the final one with the digest.
      The field keeps the source's spelling `precentage`. */
  datatype Message<D> = Progress(precentage: real) | Complete(precentage: real, hash: D)

  /** What the worker does, in the order it does it: start reading chunk
      `index`; in the load handler, count the chunk and append its bytes to the
      hasher (`count` is the counter after the increment); post a message; close. */
  datatype Event<D> = Read(index: nat) | Append(count: nat, data: Bytes) | Post(message: Message<D>) | Close

  /** How a run of the handler ends: closed after the final message, or with an
      exception because there was no chunk to read. */
  datatype Ending = Closed | Threw

  /** `precentage` after `k` progress steps of `100 / n` each, added one at a
      time as the worker does (exactly, where the worker rounds each sum to a
      double). */
  function Percent(k: nat, n: nat): real
    requires n > 0
  {
    if k == 0 then 0.0 else Percent(k - 1, n) + 100.0 / (n as real)
  }

  lemma {:induction false} PercentIsProduct(k: nat, n: nat)
    requires n > 0
    ensures Percent(k, n) == (k as real) * (100.0 / (n as real))
  {
    if k > 0 {
      PercentIsProduct(k - 1, n);
      assert (k as real) * (100.0 / (n as real)) == ((k - 1) as real) * (100.0 / (n as real)) + 100.0 / (n as real);
    }
  }

  /** Progress never reaches 100 before the last chunk, and grows with every chunk. */
  lemma ProgressBelowHundred(k: nat, n: nat)
    requires 0 < n && k < n
    ensures 0.0 <= Percent(k, n) < 100.0
    ensures Percent(k, n) < Percent(k + 1, n)
  {
    PercentIsProduct(k, n);
    var step := 100.0 / (n as real);
    assert step > 0.0;
    assert (n as real) * step == 100.0;
    assert (k as real) * step < (n as real) * step;
  }

  /** The message posted after the chunk at position `k` has been appended. */
  function MessageAfter<D>(chunks: seq<Bytes>, md5: Bytes -> D, k: nat): Message<D>
    requires k < |chunks|
  {
    if k + 1 == |chunks| then Complete(100.0, md5(Flatten(chunks)))
    else Progress(Percent(k + 1, |chunks|))
  }

  /** What one call of `loadNext(k)` and its load handler do. */
  function StepEvents<D>(chunks: seq<Bytes>, md5: Bytes -> D, k: nat): seq<Event<D>>
    requires k < |chunks|
  {
    [Read(k), Append(k + 1, chunks[k]), Post(MessageAfter(chunks, md5, k))]
      + (if k + 1 == |chunks| then [Close] else [])
  }

  /** The events of the first `k` calls of `loadNext`. */
  function HashTrace<D>(chunks: seq<Bytes>, md5: Bytes -> D, k: nat): seq<Event<D>>
    requires k <= |chunks|
  {
    if k == 0 then [] else HashTrace(chunks, md5, k - 1) + StepEvents(chunks, md5, k - 1)
  }

  /** Everything a run of the handler does on a non-empty list. */
  function WorkerTrace<D>(chunks: seq<Bytes>, md5: Bytes -> D): seq<Event<D>>
  {
    HashTrace(chunks, md5, |chunks|)
  }

  /** The event at position `p` of a run, given directly: three events per
      chunk, then the close. */
  function EventAt<D>(chunks: seq<Bytes>, md5: Bytes -> D, p: nat): Event<D>
    requires 0 < |chunks| && p <= 3 * |chunks|
  {
    var k := p / 3;
    if k == |chunks| then Close
    else if p % 3 == 0 then Read(k)
    else if p % 3 == 1 then Append(k + 1, chunks[k])
    else Post(MessageAfter(chunks, md5, k))
  }

  /** The run laid out: read, append and post for each chunk in turn, then close. */
  lemma {:induction false} TraceShape<D>(chunks: seq<Bytes>, md5: Bytes -> D, k: nat)
    requires 0 < |chunks| && k <= |chunks|
    ensures |HashTrace(chunks, md5, k)| == 3 * k + (if k == |chunks| then 1 else 0)
    ensures forall p :: 0 <= p < |HashTrace(chunks, md5, k)| ==> HashTrace(chunks, md5, k)[p] == EventAt(chunks, md5, p)
  {
    if k > 0 {
      TraceShape(chunks, md5, k - 1);
      var before := HashTrace(chunks, md5, k - 1);
      var t := HashTrace(chunks, md5, k);
      forall p | 0 <= p < |t| ensures t[p] == EventAt(chunks, md5, p) {
        if p >= 3 * (k - 1) {
          var q := p - 3 * (k - 1);
          assert p / 3 == k - 1 + q / 3 && p % 3 == q % 3;
        }
      }
    }
  }

  /** The pieces `pick` takes from each event of `t`, in order. */
  function Collect<D, T>(t: seq<Event<D>>, pick: Event<D> -> seq<T>): seq<T>
  {
    if t == [] then [] else Collect(t[..|t| - 1], pick) + pick(t[|t| - 1])
  }

  function ReadIndex<D>(e: Event<D>): seq<nat>
  {
    if e.Read? then [e.index] else []
  }

  function AppendedChunk<D>(e: Event<D>): seq<(nat, Bytes)>
  {
    if e.Append? then [(e.count, e.data)] else []
  }

  function PostedMessage<D>(e: Event<D>): seq<Message<D>>
  {
    if e.Post? then [e.message] else []
  }

  /** The chunk indices read, in order. */
  function Reads<D>(t: seq<Event<D>>): seq<nat>
  {
    Collect(t, ReadIndex)
  }

  /** The bytes appended to the hasher, chunk by chunk, with the counter after each. */
  function Appends<D>(t: seq<Event<D>>): seq<(nat, Bytes)>
  {
    Collect(t, AppendedChunk)
  }

  /** The messages posted, in order. */
  function Posted<D>(t: seq<Event<D>>): seq<Message<D>>
  {
    Collect(t, PostedMessage)
  }

  lemma {:induction false} CollectConcat<D, T>(a: seq<Event<D>>, b: seq<Event<D>>, pick: Event<D> -> seq<T>)
    ensures Collect(a + b, pick) == Collect(a, pick) + Collect(b, pick)
  {
    if b == [] {
      assert a + b == a;
    } else {
      var init := b[..|b| - 1];
      CollectConcat(a, init, pick);
      assert (a + b)[..|a + b| - 1] == a + init;
      assert (a + b)[|a + b| - 1] == b[|b| - 1];
    }
  }

  /** What `pick` takes from one call of `loadNext` and its load handler. */
  lemma CollectStep<D, T>(chunks: seq<Bytes>, md5: Bytes -> D, k: nat, pick: Event<D> -> seq<T>)
    requires k < |chunks|
    ensures Collect(StepEvents(chunks, md5, k), pick)
         == pick(Read(k)) + pick(Append(k + 1, chunks[k])) + pick(Post(MessageAfter(chunks, md5, k)))
            + (if k + 1 == |chunks| then pick(Close) else [])
  {
    var three := [Read(k), Append(k + 1, chunks[k]), Post(MessageAfter(chunks, md5, k))];
    var tail: seq<Event<D>> := if k + 1 == |chunks| then [Close] else [];
    assert three[..2] == [Read(k), Append(k + 1, chunks[k])];
    assert three[..2][..1] == [Read(k)];
    assert three[..2][..1][..0] == [];
    assert Collect(three[..2][..1], pick) == pick(Read(k));
    assert Collect(three[..2], pick) == pick(Read(k)) + pick(Append(k + 1, chunks[k]));
    assert Collect(three, pick) == Collect(three[..2], pick) + pick(Post(MessageAfter(chunks, md5, k)));
    CollectConcat(three, tail, pick);
    if tail != [] {
      assert tail[..0] == [];
      assert Collect(tail, pick) == pick(Close);
    }
  }

  /** The first `k` chunk loads read chunks `0..k-1`, in order. */
  lemma {:induction false} ReadsOfPrefix<D>(chunks: seq<Bytes>, md5: Bytes -> D, k: nat)
    requires k <= |chunks|
    ensures Reads(HashTrace(chunks, md5, k)) == seq(k, i => i)
  {
    if k > 0 {
      ReadsOfPrefix(chunks, md5, k - 1);
      CollectConcat(HashTrace(chunks, md5, k - 1), StepEvents(chunks, md5, k - 1), ReadIndex);
      CollectStep(chunks, md5, k - 1, ReadIndex);
    }
  }

  /** The first `k` chunk loads feed the hasher chunks `0..k-1`, in order, and
      after the load of chunk `i` the counter is `i + 1`: it counts exactly the
      chunks appended so far. */
  lemma {:induction false} AppendsOfPrefix<D>(chunks: seq<Bytes>, md5: Bytes -> D, k: nat)
    requires k <= |chunks|
    ensures Appends(HashTrace(chunks, md5, k)) == seq(k, i requires 0 <= i < k => (i + 1, chunks[i]))
  {
    if k > 0 {
      AppendsOfPrefix(chunks, md5, k - 1);
      CollectConcat(HashTrace(chunks, md5, k - 1), StepEvents(chunks, md5, k - 1), AppendedChunk);
      CollectStep(chunks, md5, k - 1, AppendedChunk);
    }
  }

  /** The first `k` chunk loads post one message each. */
  lemma {:induction false} PostedOfPrefix<D>(chunks: seq<Bytes>, md5: Bytes -> D, k: nat)
    requires k <= |chunks|
    ensures Posted(HashTrace(chunks, md5, k)) == seq(k, i requires 0 <= i < k => MessageAfter(chunks, md5, i))
  {
    if k > 0 {
      PostedOfPrefix(chunks, md5, k - 1);
      CollectConcat(HashTrace(chunks, md5, k - 1), StepEvents(chunks, md5, k - 1), PostedMessage);
      CollectStep(chunks, md5, k - 1, PostedMessage);
    }
  }

  /** Read `k + 1` starts only after the load handler of read `k` has appended
      chunk `k` and posted its message. */
  lemma ReadAfterLoad<D>(chunks: seq<Bytes>, md5: Bytes -> D)
    requires 0 < |chunks|
    ensures forall p :: 0 <= p < |WorkerTrace(chunks, md5)| && WorkerTrace(chunks, md5)[p].Read? && WorkerTrace(chunks, md5)[p].index > 0 ==>
      p >= 2
      && WorkerTrace(chunks, md5)[p - 2].Append? && WorkerTrace(chunks, md5)[p - 2].count == WorkerTrace(chunks, md5)[p].index
      && WorkerTrace(chunks, md5)[p - 1].Post?
  {
    TraceShape(chunks, md5, |chunks|);
    var t := WorkerTrace(chunks, md5);
    forall p | 0 <= p < |t| && t[p].Read? && t[p].index > 0
      ensures p >= 2 && t[p - 2].Append? && t[p - 2].count == t[p].index && t[p - 1].Post?
    {
      assert t[p] == EventAt(chunks, md5, p);
      assert p % 3 == 0 && p / 3 == t[p].index;
      assert t[p - 2] == EventAt(chunks, md5, p - 2);
      assert t[p - 1] == EventAt(chunks, md5, p - 1);
    }
  }

  /** Exactly `n` messages are posted: `n - 1` progress messages, the k-th
      (from 1) at `k * 100 / n` percent, and then one message carrying the
      digest of all the chunks in order, at 100 percent. No other message
      carries a digest. */
  lemma PostedMessages<D>(chunks: seq<Bytes>, md5: Bytes -> D)
    requires 0 < |chunks|
    ensures |Posted(WorkerTrace(chunks, md5))| == |chunks|
    ensures forall k :: 0 <= k < |chunks| - 1 ==>
      Posted(WorkerTrace(chunks, md5))[k] == Progress(((k + 1) as real) * (100.0 / (|chunks| as real)))
    ensures Posted(WorkerTrace(chunks, md5))[|chunks| - 1] == Complete(100.0, md5(Flatten(chunks)))
    ensures forall k :: 0 <= k < |chunks| && Posted(WorkerTrace(chunks, md5))[k].Complete? ==> k == |chunks| - 1
  {
    PostedOfPrefix(chunks, md5, |chunks|);
    forall k | 0 <= k < |chunks| - 1
      ensures Posted(WorkerTrace(chunks, md5))[k] == Progress(((k + 1) as real) * (100.0 / (|chunks| as real)))
    {
      PercentIsProduct(k + 1, |chunks|);
    }
  }

  /** The worker closes after the final message and does nothing afterwards:
      the close is the last event and happens once. */
  lemma NothingAfterClose<D>(chunks: seq<Bytes>, md5: Bytes -> D)
    requires 0 < |chunks|
    ensures |WorkerTrace(chunks, md5)| > 1
    ensures WorkerTrace(chunks, md5)[|WorkerTrace(chunks, md5)| - 1] == Close
    ensures WorkerTrace(chunks, md5)[|WorkerTrace(chunks, md5)| - 2] == Post(Complete(100.0, md5(Flatten(chunks))))
    ensures forall p :: 0 <= p < |WorkerTrace(chunks, md5)| - 1 ==> WorkerTrace(chunks, md5)[p] != Close
  {
    TraceShape(chunks, md5, |chunks|);
    var t := WorkerTrace(chunks, md5);
    assert t[|t| - 1] == EventAt(chunks, md5, |t| - 1);
    assert t[|t| - 2] == EventAt(chunks, md5, |t| - 2);
    forall p | 0 <= p < |t| - 1 ensures t[p] != Close {
      assert t[p] == EventAt(chunks, md5, p);
    }
  }

  /** `self.onmessage`: hash `fileChunkList` chunk by chunk. Each turn of the
      loop is one `loadNext(index)` followed by its load handler; the handler
      calls `loadNext(count)` for the next turn unless it has just posted the
      digest and closed. With an empty list the first read is of
      `fileChunkList[0]`, which is `undefined`, and the read throws. */
  method OnMessage<D>(fileChunkList: seq<Bytes>, md5: Bytes -> D) returns (trace: seq<Event<D>>, ending: Ending)
    ensures fileChunkList == [] ==> trace == [] && ending == Threw
    ensures fileChunkList != [] ==> trace == WorkerTrace(fileChunkList, md5) && ending == Closed
  {
    var n := |fileChunkList|;
    trace := [];
    if n == 0 {
      ending := Threw;
      return;
    }
    var appended: Bytes := [];  // what the hasher has been fed
    var precentage := 0.0;
    var count := 0;
    var index := 0;
    var closed := false;
    while !closed
      invariant count <= n && (!closed ==> index == count)
      invariant closed <==> count == n
      invariant appended == Flatten(fileChunkList[..count])
      invariant !closed ==> precentage == Percent(count, n)
      invariant trace == HashTrace(fileChunkList, md5, count)
      decreases n - count
    {
      trace := trace + [Read(index)];
      var chunk := fileChunkList[index];
      count := count + 1;
      assert fileChunkList[..count][..count - 1] == fileChunkList[..count - 1];
      appended := appended + chunk;
      trace := trace + [Append(count, chunk)];
      if count == n {
        assert fileChunkList[..count] == fileChunkList;
        trace := trace + [Post(Complete(100.0, md5(appended)))];
        trace := trace + [Close];
        closed := true;
      } else {
        precentage := precentage + 100.0 / (n as real);
        trace := trace + [Post(Progress(precentage))];
        index := count;
      }
    }
    ending := Closed;
  }
}

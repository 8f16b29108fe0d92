/**
 * fs/pipe.c as a machine over its critical sections: any number of read and write calls in progress,
 * each holding the pipe lock for one chunk at a time.
 */
module PipeSpec {
  import opened Base

  const PIPE_BUF: nat := 4096

  /** A byte and the call that put it into the pipe, or took it out. */
  datatype Tagged = Tagged(data: u8, call: nat)

  /** Sleeping: the section found nothing to do and dropped the lock; what others do before it wakes is up to them. */
  datatype Status = Active | Sleeping | Returned(value: int)

  /** A call: a write holds its buffer and how much it has put, a read how much it asked for and what it got. */
  datatype Call =
    | WriteCall(buf: seq<u8>, written: nat, status: Status)
    | ReadCall(count: nat, got: seq<u8>, status: Status)

  /** The ring's bytes, everything ever put in and everything ever taken out. */
  datatype Pipe = Pipe(ring: seq<Tagged>, accepted: seq<Tagged>, taken: seq<Tagged>,
                       readers: nat, writers: nat, calls: map<nat, Call>)

  /** The bytes of a stream that belong to one call, in order. */
  function Of(s: seq<Tagged>, c: nat): seq<u8> {
    if s == [] then []
    else Of(s[..|s| - 1], c) + (if s[|s| - 1].call == c then [s[|s| - 1].data] else [])
  }

  function Data(s: seq<Tagged>): seq<u8> {
    seq(|s|, i requires 0 <= i < |s| => s[i].data)
  }

  function Tag(bytes: seq<u8>, c: nat): seq<Tagged> {
    seq(|bytes|, i requires 0 <= i < |bytes| => Tagged(bytes[i], c))
  }

  /** What one locked section of a read does: take a chunk, report end of file, or sleep. */
  datatype Outcome = Got(n: nat) | Eof | Sleep

  function ReadOutcome(size: nat, writers: nat, count: nat): Outcome {
    if size > 0 then Got(Min(count, size)) else if writers == 0 then Eof else Sleep
  }

  /** How many bytes one locked section of a write puts. */
  function WriteChunk(size: nat, left: nat): nat
    requires size <= PIPE_BUF
  {
    Min(left, PIPE_BUF - size)
  }

  datatype Event =
    | StartWrite(c: nat, buf: seq<u8>)
    | StartRead(c: nat, count: nat)
    | WriteSection(c: nat)
    | ReadSection(c: nat)
    | Wake(c: nat)
    | Interrupt(c: nat)
    | CloseReader
    | CloseWriter

  predicate IsActive(p: Pipe, c: nat) {
    c in p.calls && p.calls[c].status == Active
  }

  predicate IsAsleep(p: Pipe, c: nat) {
    c in p.calls && p.calls[c].status == Sleeping
  }

  predicate Enabled(p: Pipe, e: Event) {
    match e
    case StartWrite(c, _) => c !in p.calls
    case StartRead(c, _) => c !in p.calls
    case WriteSection(c) => IsActive(p, c) && p.calls[c].WriteCall?
    case ReadSection(c) => IsActive(p, c) && p.calls[c].ReadCall?
    case Wake(c) => IsAsleep(p, c)
    case Interrupt(c) => IsAsleep(p, c)
    case CloseReader => p.readers > 0
    case CloseWriter => p.writers > 0
  }

  /** The write loop ends when the whole buffer is in. */
  function AfterWrite(buf: seq<u8>, written: nat): Call {
    WriteCall(buf, written, if written >= |buf| then Returned(written) else Active)
  }

  function Start(p: Pipe, buf: seq<u8>): Call {
    if p.readers == 0 then WriteCall(buf, 0, Returned(-EPIPE)) else AfterWrite(buf, 0)
  }

  /** The bytes a write section puts: the next ones of its buffer, as many as there is room for. */
  function Chunk(p: Pipe, c: nat): seq<u8>
    requires Inv(p) && Enabled(p, WriteSection(c))
  {
    var w := p.calls[c];
    assert CallOk(p, c);
    w.buf[w.written..w.written + WriteChunk(|p.ring|, |w.buf| - w.written)]
  }

  function Put(p: Pipe, c: nat): Pipe
    requires Inv(p) && Enabled(p, WriteSection(c))
  {
    var w, chunk := p.calls[c], Chunk(p, c);
    p.(ring := p.ring + Tag(chunk, c), accepted := p.accepted + Tag(chunk, c),
       calls := p.calls[c := if chunk == [] then WriteCall(w.buf, w.written, Sleeping) else AfterWrite(w.buf, w.written + |chunk|)])
  }

  function Take(p: Pipe, c: nat): Pipe
    requires Enabled(p, ReadSection(c))
  {
    var r := p.calls[c];
    match ReadOutcome(|p.ring|, p.writers, r.count)
    case Got(n) =>
      var bytes := Data(p.ring[..n]);
      p.(ring := p.ring[n..], taken := p.taken + Tag(bytes, c), calls := p.calls[c := ReadCall(r.count, bytes, Returned(n))])
    case Eof => p.(calls := p.calls[c := ReadCall(r.count, r.got, Returned(0))])
    case Sleep => p.(calls := p.calls[c := ReadCall(r.count, r.got, Sleeping)])
  }

  /** A signal found after sleeping: a write that has put something reports that, everything else reports EINTR. */
  function Interrupted(k: Call): Call {
    k.(status := Returned(if k.WriteCall? && k.written > 0 then k.written else -EINTR))
  }

  function Apply(p: Pipe, e: Event): Pipe
    requires Inv(p) && Enabled(p, e)
  {
    match e
    case StartWrite(c, buf) => p.(calls := p.calls[c := Start(p, buf)])
    case StartRead(c, count) => p.(calls := p.calls[c := ReadCall(count, [], Active)])
    case WriteSection(c) => Put(p, c)
    case ReadSection(c) => Take(p, c)
    case Wake(c) => p.(calls := p.calls[c := p.calls[c].(status := Active)])
    case Interrupt(c) => p.(calls := p.calls[c := Interrupted(p.calls[c])])
    case CloseReader => p.(readers := p.readers - 1)
    case CloseWriter => p.(writers := p.writers - 1)
  }

  /** A call against its bytes in the two streams: what it put, or got, is exactly these, and its result counts them. */
  predicate ShareOk(call: Call, sent: seq<u8>, taken: seq<u8>) {
    match call
    case WriteCall(buf, written, status) =>
      && written <= |buf| && sent == buf[..written] && taken == []
      && (!status.Returned? ==> written < |buf|)
      && (status.Returned? ==> written == if status.value > 0 then status.value else 0)
    case ReadCall(count, got, status) =>
      && |got| <= count && taken == got && sent == []
      && (!status.Returned? ==> got == [])
      && (status.Returned? ==> |got| == if status.value > 0 then status.value else 0)
  }

  predicate CallOk(p: Pipe, c: nat) {
    if c in p.calls then ShareOk(p.calls[c], Of(p.accepted, c), Of(p.taken, c))
    else Of(p.accepted, c) == [] && Of(p.taken, c) == []
  }

  predicate StreamOk(p: Pipe) {
    && |p.ring| <= PIPE_BUF
    && |p.taken| + |p.ring| == |p.accepted|
    && p.accepted[|p.taken|..] == p.ring
    && Data(p.taken) == Data(p.accepted[..|p.taken|])
  }

  /** Delivered bytes followed by the ring are the accepted bytes, and every call is accounted for. */
  ghost predicate Inv(p: Pipe) {
    StreamOk(p) && forall c :: CallOk(p, c)
  }

  lemma {:induction false} OfAppend(s: seq<Tagged>, t: seq<Tagged>, c: nat)
    ensures Of(s + t, c) == Of(s, c) + Of(t, c)
    decreases |t|
  {
    if t == [] {
      assert s + t == s;
    } else {
      assert (s + t)[..|s + t| - 1] == s + t[..|t| - 1];
      OfAppend(s, t[..|t| - 1], c);
    }
  }

  lemma {:induction false} OfTag(bytes: seq<u8>, c: nat, d: nat)
    ensures Of(Tag(bytes, c), d) == if c == d then bytes else []
    decreases |bytes|
  {
    if bytes != [] {
      var last := |bytes| - 1;
      OfTag(bytes[..last], c, d);
      assert Tag(bytes, c)[..last] == Tag(bytes[..last], c);
      assert bytes == bytes[..last] + [bytes[last]];
    }
  }

  lemma ChunkSpec(p: Pipe, c: nat)
    requires Inv(p) && Enabled(p, WriteSection(c))
    ensures var w := p.calls[c];
      w.written + |Chunk(p, c)| <= |w.buf| && w.buf[..w.written] + Chunk(p, c) == w.buf[..w.written + |Chunk(p, c)|]
  {
    assert CallOk(p, c);
    hide Of;
  }

  lemma ShareGrows(p: Pipe, c: nat, d: nat)
    requires Inv(p) && Enabled(p, WriteSection(c))
    ensures Of(Put(p, c).accepted, d) == Of(p.accepted, d) + if c == d then Chunk(p, c) else []
  {
    OfAppend(p.accepted, Tag(Chunk(p, c), c), d);
    OfTag(Chunk(p, c), c, d);
    hide Inv, Of, Tag, Chunk;
  }

  lemma WriterStep(w: Call, sent: seq<u8>, taken: seq<u8>, chunk: seq<u8>)
    requires w.WriteCall? && w.status == Active && ShareOk(w, sent, taken)
    requires w.written + |chunk| <= |w.buf| && w.buf[..w.written] + chunk == w.buf[..w.written + |chunk|]
    ensures ShareOk(if chunk == [] then WriteCall(w.buf, w.written, Sleeping) else AfterWrite(w.buf, w.written + |chunk|),
                    sent + chunk, taken)
  {
    if chunk == [] { assert sent + chunk == sent; }
  }

  /** After a write section the writer's share of the stream has grown by its chunk, and nobody else's has changed. */
  lemma PutCalls(p: Pipe, c: nat, d: nat)
    requires Inv(p) && Enabled(p, WriteSection(c))
    ensures CallOk(Put(p, c), d)
  {
    assert CallOk(p, c) && CallOk(p, d);
    ChunkSpec(p, c);
    ShareGrows(p, c, d);
    hide Inv, Of, Tag, Chunk, ShareOk, AfterWrite;
    if c == d {
      WriterStep(p.calls[c], Of(p.accepted, c), Of(p.taken, c), Chunk(p, c));
    } else {
      assert Of(p.accepted, d) + [] == Of(p.accepted, d);
    }
  }

  lemma PutStream(p: Pipe, c: nat)
    requires Inv(p) && Enabled(p, WriteSection(c))
    ensures StreamOk(Put(p, c))
  {
    assert CallOk(p, c);
    hide Of, CallOk;
    assert Put(p, c).accepted[..|p.taken|] == p.accepted[..|p.taken|];
  }

  lemma PutKeeps(p: Pipe, c: nat)
    requires Inv(p) && Enabled(p, WriteSection(c))
    ensures Inv(Put(p, c))
  {
    PutStream(p, c);
    forall d ensures CallOk(Put(p, c), d) { PutCalls(p, c, d); }
    hide StreamOk, CallOk, Put, Of;
  }

  /** The bytes a read section takes. */
  function Front(p: Pipe, count: nat): seq<u8> {
    Data(p.ring[..Min(count, |p.ring|)])
  }

  lemma TakenShare(p: Pipe, c: nat, d: nat)
    requires Enabled(p, ReadSection(c)) && |p.ring| > 0
    ensures Of(Take(p, c).taken, d) == Of(p.taken, d) + if c == d then Front(p, p.calls[c].count) else []
  {
    OfAppend(p.taken, Tag(Front(p, p.calls[c].count), c), d);
    OfTag(Front(p, p.calls[c].count), c, d);
    hide Of, Tag, Data;
  }

  lemma ReaderStep(r: Call, sent: seq<u8>, taken: seq<u8>, bytes: seq<u8>)
    requires r.ReadCall? && r.status == Active && ShareOk(r, sent, taken) && |bytes| <= r.count
    ensures ShareOk(ReadCall(r.count, bytes, Returned(|bytes|)), sent, taken + bytes)
  {
  }

  /** After a read section the reader's share of what was taken is what it got, and nobody else's has changed. */
  lemma TakeCalls(p: Pipe, c: nat, d: nat)
    requires Inv(p) && Enabled(p, ReadSection(c))
    ensures CallOk(Take(p, c), d)
  {
    assert CallOk(p, c) && CallOk(p, d);
    if |p.ring| > 0 {
      TakenShare(p, c, d);
      hide Inv, Of, Tag, Data, ShareOk;
      if c == d {
        ReaderStep(p.calls[c], Of(p.accepted, c), Of(p.taken, c), Front(p, p.calls[c].count));
      } else {
        assert Of(p.taken, d) + [] == Of(p.taken, d);
      }
    } else {
      hide Inv, Of;
    }
  }

  lemma TakeStream(p: Pipe, c: nat)
    requires Inv(p) && Enabled(p, ReadSection(c))
    ensures StreamOk(Take(p, c))
  {
    hide Of, CallOk;
    var r, q := p.calls[c], Take(p, c);
    if |p.ring| > 0 {
      var n := Min(r.count, |p.ring|);
      var bytes := Data(p.ring[..n]);
      assert q.accepted[|q.taken|..] == q.ring;
      DataOfTag(bytes, c);
      assert p.accepted[..|q.taken|] == p.accepted[..|p.taken|] + p.ring[..n];
      DataAppend(p.taken, Tag(bytes, c));
      DataAppend(p.accepted[..|p.taken|], p.ring[..n]);
    }
  }

  lemma TakeKeeps(p: Pipe, c: nat)
    requires Inv(p) && Enabled(p, ReadSection(c))
    ensures Inv(Take(p, c))
  {
    TakeStream(p, c);
    forall d ensures CallOk(Take(p, c), d) { TakeCalls(p, c, d); }
    hide StreamOk, CallOk, Take, Of;
  }

  lemma DataAppend(s: seq<Tagged>, t: seq<Tagged>)
    ensures Data(s + t) == Data(s) + Data(t)
  {
  }

  lemma DataOfTag(bytes: seq<u8>, c: nat)
    ensures Data(Tag(bytes, c)) == bytes
  {
  }

  lemma EventKeeps(p: Pipe, e: Event)
    requires Inv(p) && Enabled(p, e)
    ensures Inv(Apply(p, e))
  {
    match e
    case WriteSection(c) => PutKeeps(p, c);
    case ReadSection(c) => TakeKeeps(p, c);
    case _ =>
      var q := Apply(p, e);
      forall d ensures CallOk(q, d) { assert CallOk(p, d); }
  }

  ghost predicate IsRun(run: seq<Pipe>, events: seq<Event>) {
    && |run| == |events| + 1 && Inv(run[0])
    && forall i | 0 <= i < |events| :: Inv(run[i]) ==> Enabled(run[i], events[i]) && run[i + 1] == Apply(run[i], events[i])
  }

  lemma {:induction false} StreamInEveryRun(run: seq<Pipe>, events: seq<Event>, k: nat)
    requires IsRun(run, events) && k <= |events|
    ensures Inv(run[k])
    decreases k
  {
    if k > 0 {
      StreamInEveryRun(run, events, k - 1);
      EventKeeps(run[k - 1], events[k - 1]);
    }
  }

  lemma EventGrows(p: Pipe, e: Event)
    requires Inv(p) && Enabled(p, e)
    ensures p.accepted <= Apply(p, e).accepted && p.taken <= Apply(p, e).taken
  {
    hide CallOk, Of;
  }

  /** Both streams only grow, so what has been delivered or accepted is never revised. */
  lemma {:induction false} StreamsGrow(run: seq<Pipe>, events: seq<Event>, j: nat, k: nat)
    requires IsRun(run, events) && j <= k <= |events|
    ensures run[j].accepted <= run[k].accepted && run[j].taken <= run[k].taken
    decreases k
  {
    if j < k {
      StreamInEveryRun(run, events, k - 1);
      StreamsGrow(run, events, j, k - 1);
      EventGrows(run[k - 1], events[k - 1]);
      hide Inv, Apply;
    }
  }

  /**
   * First in, first out, whatever the interleaving: delivered bytes then the ring are the accepted bytes, and the
   * result of each finished call counts exactly its bytes in the stream.
   */
  lemma Fifo(run: seq<Pipe>, events: seq<Event>, k: nat, c: nat)
    requires IsRun(run, events) && k <= |events|
    ensures Data(run[k].taken) + Data(run[k].ring) == Data(run[k].accepted)
    ensures c in run[k].calls && run[k].calls[c].status.Returned? ==>
      var call := run[k].calls[c];
      var n := if call.status.value > 0 then call.status.value else 0;
      if call.WriteCall? then n <= |call.buf| && Of(run[k].accepted, c) == call.buf[..n]
      else n <= call.count && |call.got| == n && Of(run[k].taken, c) == call.got
  {
    StreamInEveryRun(run, events, k);
    var p := run[k];
    assert CallOk(p, c);
    assert p.accepted == p.accepted[..|p.taken|] + p.ring;
  }

  // ---------------------------------------------------------------------------------------------
  // How calls end
  // ---------------------------------------------------------------------------------------------

  /** A read ends with what the ring held, at the end of the file, or by a signal found after sleeping. */
  predicate EndsRead(p: Pipe, e: Event, c: nat, count: nat, value: int) {
    || (e == ReadSection(c) && p.ring != [] && value == if count < |p.ring| then count else |p.ring|)
    || (e == ReadSection(c) && p.ring == [] && p.writers == 0 && value == 0)
    || (e == Interrupt(c) && value == -4)
  }

  /** A write ends with EPIPE, with everything put, or by a signal with what was put so far. */
  predicate EndsWrite(p: Pipe, e: Event, c: nat, buf: seq<u8>, written: nat, value: int) {
    || (e == StartWrite(c, buf) && p.readers == 0 && value == -32)
    || (e == StartWrite(c, buf) && p.readers > 0 && buf == [] && value == 0)
    || (e == WriteSection(c) && written == |buf| && value == |buf|)
    || (e == Interrupt(c) && value == if written > 0 then written else -4)
  }

  predicate EndedBy(p: Pipe, e: Event, c: nat, call: Call) {
    call.status.Returned? &&
      if call.ReadCall? then EndsRead(p, e, c, call.count, call.status.value)
      else EndsWrite(p, e, c, call.buf, call.written, call.status.value)
  }

  predicate IsReturned(p: Pipe, c: nat) {
    c in p.calls && p.calls[c].status.Returned?
  }

  /** The event at which a call returns says with what, and a call that has returned never changes again. */
  lemma EventEnds(p: Pipe, e: Event, c: nat)
    requires Inv(p) && Enabled(p, e) && IsReturned(Apply(p, e), c)
    ensures if IsReturned(p, c) then Apply(p, e).calls[c] == p.calls[c] else EndedBy(p, e, c, Apply(p, e).calls[c])
  {
    if e.WriteSection? { ChunkSpec(p, e.c); }
    hide Inv, Of, Tag, Data, Chunk;
  }

  lemma EventKeepsCall(p: Pipe, e: Event, c: nat)
    requires Inv(p) && Enabled(p, e) && c in p.calls
    ensures c in Apply(p, e).calls && Apply(p, e).calls[c].ReadCall? == p.calls[c].ReadCall?
    ensures p.calls[c].ReadCall? ==> Apply(p, e).calls[c].count == p.calls[c].count
    ensures p.calls[c].WriteCall? ==> Apply(p, e).calls[c].buf == p.calls[c].buf
    ensures IsReturned(p, c) ==> Apply(p, e).calls[c] == p.calls[c]
  {
    hide Inv, Of, Tag, Data, Chunk;
  }

  lemma RunStep(run: seq<Pipe>, events: seq<Event>, k: nat)
    requires IsRun(run, events) && k < |events|
    ensures |run| == |events| + 1 && Inv(run[k]) && Enabled(run[k], events[k]) && run[k + 1] == Apply(run[k], events[k])
  {
    StreamInEveryRun(run, events, k);
    hide Inv, Apply, Enabled;
  }

  /** Over every run: a call that has returned did so at some event, with the value that event gives. */
  lemma {:induction false} ResultsInEveryRun(run: seq<Pipe>, events: seq<Event>, k: nat, c: nat) returns (j: nat)
    requires IsRun(run, events) && c !in run[0].calls && k <= |events| && IsReturned(run[k], c)
    ensures j < k && IsReturned(run[j + 1], c) && run[k].calls[c] == run[j + 1].calls[c] && EndedBy(run[j], events[j], c, run[k].calls[c])
    decreases k
  {
    RunStep(run, events, k - 1);
    EventEnds(run[k - 1], events[k - 1], c);
    hide *;
    if IsReturned(run[k - 1], c) { j := ResultsInEveryRun(run, events, k - 1, c); } else { j := k - 1; }
  }

  lemma {:induction false} ResultStays(run: seq<Pipe>, events: seq<Event>, j: nat, k: nat, c: nat)
    requires IsRun(run, events) && j <= k <= |events| && IsReturned(run[j], c)
    ensures IsReturned(run[k], c) && run[k].calls[c] == run[j].calls[c]
    decreases k
  {
    if j < k {
      ResultStays(run, events, j, k - 1, c);
      RunStep(run, events, k - 1);
      EventKeepsCall(run[k - 1], events[k - 1], c);
      hide Inv, Apply;
    }
  }

  /** The event that finds the ring drained and nobody left to write. */
  predicate AtEof(p: Pipe, e: Event, c: nat) {
    e == ReadSection(c) && p.ring == [] && p.writers == 0
  }

  lemma EofReturns(p: Pipe, e: Event, c: nat)
    requires Inv(p) && Enabled(p, e) && AtEof(p, e, c)
    ensures IsReturned(Apply(p, e), c) && Apply(p, e).calls[c].status.value == 0
  {
    hide Inv;
  }

  /**
   * Over every run a read of nonzero length reports 0 exactly if one of its sections found the ring drained and no
   * writer left. In particular no signal makes it report 0.
   */
  lemma EofInEveryRun(run: seq<Pipe>, events: seq<Event>, k: nat, c: nat)
    requires IsRun(run, events) && c !in run[0].calls && k <= |events|
    requires c in run[k].calls && run[k].calls[c].ReadCall? && run[k].calls[c].count > 0
    ensures run[k].calls[c].status == Returned(0) <==> exists j :: 0 <= j < k && AtEof(run[j], events[j], c)
  {
    if run[k].calls[c].status == Returned(0) {
      var j := ResultsInEveryRun(run, events, k, c);
      assert AtEof(run[j], events[j], c);
    }
    if j :| 0 <= j < k && AtEof(run[j], events[j], c) {
      RunStep(run, events, j);
      EofReturns(run[j], events[j], c);
      ResultStays(run, events, j + 1, k, c);
    }
  }

  /** A write fails with EPIPE exactly when it starts with no reader left. */
  lemma EpipeExact(p: Pipe, c: nat, buf: seq<u8>)
    requires Inv(p) && c !in p.calls
    ensures Apply(p, StartWrite(c, buf)).calls[c].status == Returned(-32) <==> p.readers == 0
  {
  }

  /** A signal found after sleeping: EINTR, or what a write has put so far. */
  lemma SignalExact(p: Pipe, c: nat)
    requires Inv(p) && IsAsleep(p, c)
    ensures var k := p.calls[c];
      Apply(p, Interrupt(c)).calls[c].status == Returned(if k.WriteCall? && k.written > 0 then k.written else -4)
    ensures Apply(p, Interrupt(c)).ring == p.ring
  {
  }

  /** A write section sleeps exactly on a full ring; otherwise it ends with the buffer all in or the ring full. */
  lemma WriteSectionExact(p: Pipe, c: nat)
    requires Inv(p) && Enabled(p, WriteSection(c))
    ensures var q := Apply(p, WriteSection(c));
      && (q.calls[c].status == Sleeping <==> |p.ring| == 4096)
      && (q.calls[c].written == |q.calls[c].buf| || |q.ring| == 4096)
      && |q.ring| - |p.ring| == q.calls[c].written - p.calls[c].written
  {
    assert CallOk(p, c);
    ChunkSpec(p, c);
    hide CallOk, Of;
  }

  /** A read section sleeps exactly on an empty ring with a writer left. */
  lemma ReadSectionExact(p: Pipe, c: nat)
    requires Inv(p) && Enabled(p, ReadSection(c))
    ensures var q, n := Apply(p, ReadSection(c)), Min(p.calls[c].count, |p.ring|);
      && (q.calls[c].status == Sleeping <==> p.ring == [] && p.writers > 0)
      && (p.ring != [] ==> q.calls[c] == ReadCall(p.calls[c].count, Data(p.ring)[..n], Returned(n)) && q.ring == p.ring[n..])
  {
    hide Inv;
  }

  function Count(events: seq<Event>, k: nat, e: Event): nat
    requires k <= |events|
  {
    if k == 0 then 0 else Count(events, k - 1, e) + if events[k - 1] == e then 1 else 0
  }

  /** The counters are the ends there were to begin with, less those closed. */
  lemma {:induction false} EndsInEveryRun(run: seq<Pipe>, events: seq<Event>, k: nat)
    requires IsRun(run, events) && k <= |events|
    ensures run[k].readers == run[0].readers - Count(events, k, CloseReader)
    ensures run[k].writers == run[0].writers - Count(events, k, CloseWriter)
    decreases k
  {
    if k > 0 {
      EndsInEveryRun(run, events, k - 1);
      RunStep(run, events, k - 1);
      hide Inv, Of, Tag, Data, Chunk, IsRun;
    }
  }
}

/** The ring buffer itself. */
module Pipes {
  import opened Base
  import opened PipeSpec

  /** Where the k-th byte from position t lies in the ring. */
  function Slot(t: nat, k: nat): (r: nat)
    ensures r < 4096
  {
    (t + k) % 4096
  }

  lemma SlotStep(t: nat, k: nat)
    ensures (Slot(t, k) + 1) % 4096 == Slot(t, k + 1)
  {
  }

  lemma SlotFrom(t: nat, n: nat, k: nat)
    ensures Slot(Slot(t, n), k) == Slot(t, n + k)
  {
  }

  lemma SlotsApart(t: nat, j: nat, k: nat)
    requires j < k < j + 4096
    ensures Slot(t, j) != Slot(t, k)
  {
  }

  /** The n bytes of a ring that start at position t. */
  ghost function Window(b: seq<u8>, t: nat, n: nat): (s: seq<u8>)
    requires |b| == 4096
    ensures |s| == n
  {
    seq(n, i requires 0 <= i < n => b[Slot(t, i)])
  }

  lemma WindowDrop(b: seq<u8>, t: nat, m: nat, n: nat)
    requires |b| == 4096 && n <= m
    ensures Window(b, Slot(t, n), m - n) == Window(b, t, m)[n..]
  {
    forall i | 0 <= i < m - n ensures Window(b, Slot(t, n), m - n)[i] == Window(b, t, m)[n..][i] { SlotFrom(t, n, i); }
  }

  /** Storing at the end of a window shorter than the ring extends it by one byte. */
  lemma WindowExtend(b: seq<u8>, t: nat, m: nat, x: u8)
    requires |b| == 4096 && m < 4096
    ensures Window(b[Slot(t, m) := x], t, m + 1) == Window(b, t, m) + [x]
  {
    var b' := b[Slot(t, m) := x];
    forall i | 0 <= i < m ensures Window(b', t, m + 1)[i] == Window(b, t, m)[i] { SlotsApart(t, i, m); }
  }

  lemma CopyStep(all: seq<u8>, before: seq<u8>, now: seq<u8>, i: nat)
    requires i < |all| && i < |before| && now == all[..i] + before[i..]
    ensures now[i := all[i]] == all[..i + 1] + before[i + 1..]
  {
  }

  class PipeInfo {
    const buf: array<u8>
    var head: nat
    var tail: nat
    var size: nat
    var readers: nat
    var writers: nat
    // The same pipe with its calls in progress and its history.
    ghost var p: Pipe

    ghost predicate Shape()
      reads this
    {
      && buf.Length == 4096 && tail < 4096 && size <= 4096
      && head == Slot(tail, size)
    }

    ghost function Contents(): (s: seq<u8>)
      requires Shape()
      reads this, buf
      ensures |s| == size
    {
      Window(buf[..], tail, size)
    }

    ghost predicate Valid()
      reads this, buf
    {
      Shape() && Inv(p) && Data(p.ring) == Contents() && readers == p.readers && writers == p.writers
    }

    /** The pipe made by vfs_pipe: empty, one reader and one writer. */
    constructor ()
      ensures Valid() && fresh(buf) && Contents() == [] && p == Pipe([], [], [], 1, 1, map[])
    {
      buf := new u8[4096];
      head, tail, size := 0, 0, 0;
      readers, writers := 1, 1;
      p := Pipe([], [], [], 1, 1, map[]);
    }

    /** The byte loop of pipe_read. */
    method CopyOut(out: array<u8>, n: nat)
      requires Shape() && n <= size && n <= out.Length && out != buf
      modifies this`tail, out
      ensures tail == Slot(old(tail), n) && out[..] == old(Contents())[..n] + old(out[n..])
    {
      ghost var all, before := Contents(), out[..];
      ghost var ring, t := buf[..], tail;
      hide Contents;
      var i := 0;
      while i < n
        invariant 0 <= i <= n && tail == Slot(t, i)
        invariant out[..] == all[..i] + before[i..]
      {
        CopyStep(all, before, out[..], i);
        SlotStep(t, i);
        assert buf[..] == ring;
        out[i] := buf[tail];
        tail := (tail + 1) % 4096;
        i := i + 1;
      }
    }

    /** The ring's part of the locked section of pipe_read. */
    method TakeFront(out: array<u8>, count: nat) returns (n: nat)
      requires Shape() && size > 0 && count <= out.Length && out != buf
      modifies this`tail, this`size, out
      ensures Shape() && n == Min(count, old(size))
      ensures Contents() == old(Contents())[n..] && out[..] == old(Contents())[..n] + old(out[n..])
    {
      n := Min(count, size);
      CopyOut(out, n);
      WindowDrop(buf[..], old(tail), size, n);
      SlotFrom(old(tail), n, size - n);
      size := size - n;
    }

    /** Entering pipe_read. */
    method BeginRead(ghost c: nat, ghost count: nat)
      requires Valid() && c !in p.calls
      modifies this`p
      ensures Valid() && p == Apply(old(p), StartRead(c, count))
    {
      EventKeeps(p, StartRead(c, count));
      hide Inv;
      p := Apply(p, StartRead(c, count));
    }

    /** Entering pipe_write: EPIPE without readers, 0 for nothing to write, and otherwise the loop starts. */
    method BeginWrite(ghost c: nat, src: seq<u8>) returns (done: bool, r: int)
      requires Valid() && c !in p.calls
      modifies this`p
      ensures Valid() && p == Apply(old(p), StartWrite(c, src))
      ensures p.calls[c] == WriteCall(src, 0, if done then Returned(r) else Active)
      ensures r == if old(readers) == 0 then -32 else 0
    {
      EventKeeps(p, StartWrite(c, src));
      hide Inv;
      p := Apply(p, StartWrite(c, src));
      if readers == 0 { return true, -EPIPE; }
      return 0 >= |src|, 0;
    }

    /** The locked section of pipe_read, for a caller's buffer of at least count bytes. */
    method ReadSection(ghost c: nat, out: array<u8>, count: nat) returns (r: Outcome)
      requires Valid() && c in p.calls && p.calls[c] == ReadCall(count, [], Active) && count <= out.Length && out != buf
      modifies this`tail, this`size, this`p, out
      ensures Valid() && p == Apply(old(p), PipeSpec.ReadSection(c))
      ensures r == ReadOutcome(old(size), writers, count)
      ensures out[..] == if r.Got? then p.calls[c].got + old(out[r.n..]) else old(out[..])
      ensures p.calls[c].status == if r.Got? then Returned(r.n) else if r == Eof then Returned(0) else Sleeping
    {
      EventKeeps(p, PipeSpec.ReadSection(c));
      ghost var ring := p.ring;
      hide Inv;
      p := Apply(p, PipeSpec.ReadSection(c));
      if size > 0 {
        var n := TakeFront(out, count);
        r := Got(n);
        assert Data(ring[..n]) == Data(ring)[..n] && Data(ring[n..]) == Data(ring)[n..];
      } else if writers == 0 {
        r := Eof;
      } else {
        r := Sleep;
      }
    }

    /** The byte loop of pipe_write. */
    method CopyIn(src: seq<u8>, written: nat, n: nat)
      requires Shape() && written + n <= |src| && size + n <= 4096
      modifies this`head, buf
      ensures head == Slot(tail, size + n) && Window(buf[..], tail, size + n) == old(Contents()) + src[written..written + n]
    {
      ghost var was := Contents();
      hide Contents;
      var i := 0;
      while i < n
        invariant 0 <= i <= n && head == Slot(tail, size + i)
        invariant Window(buf[..], tail, size + i) == was + src[written..written + i]
      {
        WindowExtend(buf[..], tail, size + i, src[written + i]);
        SlotStep(tail, size + i);
        ghost var before := buf[..];
        assert src[written..written + i] + [src[written + i]] == src[written..written + i + 1];
        buf[head] := src[written + i];
        assert buf[..] == before[head := src[written + i]];
        head := (head + 1) % 4096;
        i := i + 1;
      }
    }

    /** The ring's part of the locked section of pipe_write. */
    method PutBack(src: seq<u8>, written: nat) returns (n: nat)
      requires Shape() && written < |src|
      modifies this`head, this`size, buf
      ensures Shape() && n == WriteChunk(old(size), |src| - written)
      ensures Contents() == old(Contents()) + src[written..written + n]
    {
      n := 0;
      var avail := 4096 - size;
      if avail > 0 {
        n := Min(|src| - written, avail);
        CopyIn(src, written, n);
        size := size + n;
      }
    }

    /** The locked section of pipe_write once written bytes of src are in; n more go in, and n == 0 means it sleeps. */
    method WriteSection(ghost c: nat, src: seq<u8>, written: nat) returns (n: nat)
      requires Valid() && c in p.calls && p.calls[c] == WriteCall(src, written, Active)
      modifies this`head, this`size, this`p, buf
      ensures Valid() && p == Apply(old(p), PipeSpec.WriteSection(c))
      ensures n == WriteChunk(old(size), |src| - written) && (n == 0 <==> old(size) == PIPE_BUF)
      ensures p.calls[c] == if n == 0 then WriteCall(src, written, Sleeping) else AfterWrite(src, written + n)
    {
      assert CallOk(p, c);
      EventKeeps(p, PipeSpec.WriteSection(c));
      ghost var chunk, ring := Chunk(p, c), p.ring;
      DataAppend(ring, Tag(chunk, c));
      DataOfTag(chunk, c);
      hide Inv;
      p := Apply(p, PipeSpec.WriteSection(c));
      n := PutBack(src, written);
    }

    /** Waking in pipe_read: a pending signal ends the call with EINTR, and otherwise the loop goes on. */
    method WakeReader(ghost c: nat, pending: bool) returns (r: int)
      requires Valid() && IsAsleep(p, c) && p.calls[c].ReadCall?
      modifies this`p
      ensures Valid() && p == Apply(old(p), if pending then Interrupt(c) else Wake(c))
      ensures pending ==> r == -4 && p.calls[c].status == Returned(r)
      ensures !pending ==> r == 0 && p.calls[c].status == Active
    {
      EventKeeps(p, if pending then Interrupt(c) else Wake(c));
      hide Inv;
      p := Apply(p, if pending then Interrupt(c) else Wake(c));
      r := if pending then -EINTR else 0;
    }

    /** Waking in pipe_write: a pending signal ends the call with the bytes put so far, or EINTR when there are none. */
    method WakeWriter(ghost c: nat, written: nat, pending: bool) returns (r: int)
      requires Valid() && IsAsleep(p, c) && p.calls[c].WriteCall? && p.calls[c].written == written
      modifies this`p
      ensures Valid() && p == Apply(old(p), if pending then Interrupt(c) else Wake(c))
      ensures pending ==> r == (if written > 0 then written else -4) && p.calls[c].status == Returned(r)
      ensures !pending ==> r == 0 && p.calls[c].status == Active
    {
      EventKeeps(p, if pending then Interrupt(c) else Wake(c));
      hide Inv;
      p := Apply(p, if pending then Interrupt(c) else Wake(c));
      r := if !pending then 0 else if written > 0 then written else -EINTR;
    }

    /** The counters of the two release functions. */
    method DropReader()
      requires Valid() && readers > 0
      modifies this`readers, this`p
      ensures Valid() && p == Apply(old(p), CloseReader)
    {
      EventKeeps(p, CloseReader);
      hide Inv;
      p := Apply(p, CloseReader);
      readers := readers - 1;
    }

    method DropWriter()
      requires Valid() && writers > 0
      modifies this`writers, this`p
      ensures Valid() && p == Apply(old(p), CloseWriter)
    {
      EventKeeps(p, CloseWriter);
      hide Inv;
      p := Apply(p, CloseWriter);
      writers := writers - 1;
    }
  }
}

/**
 * Downloads with progress reporting. A producer task streams the response
 * body into the target file and sends progress messages over a channel;
 * the caller reads the channel until the first terminal message. The
 * network reply is injected: either the request fails outright or it
 * delivers a sequence of body chunks, any of which may be broken.
 */
module Http {
  import opened Wrappers
  import opened Paths
  import opened FileSystem

  datatype HttpError = General(message: string)

  datatype Chunk = Data(size: nat) | Broken(reason: string)

  /** What the server does with the request. */
  datatype Reply = Refused(reason: string) | Streamed(contentLength: Option<nat>, chunks: seq<Chunk>)

  /** A message on the progress channel (`ProgressInfo`). */
  datatype Event = Start(size: nat) | Progress(current: nat, total: Option<nat>) | Complete | Failure(message: string)

  predicate Terminal(e: Event) {
    e.Complete? || e.Failure?
  }

  /** Bytes delivered by the intact chunks of `cs`. */
  function Delivered(cs: seq<Chunk>): nat {
    if |cs| == 0 then 0
    else (if cs[0].Data? then cs[0].size else 0) + Delivered(cs[1..])
  }

  predicate AllData(cs: seq<Chunk>) {
    forall i :: 0 <= i < |cs| ==> cs[i].Data?
  }

  /** The index of the first broken chunk, `|cs|` when every chunk is intact. */
  function FirstBroken(cs: seq<Chunk>): (k: nat)
    ensures k <= |cs| && (k < |cs| ==> cs[k].Broken?)
    ensures forall i :: 0 <= i < k ==> cs[i].Data?
  {
    if |cs| == 0 then 0 else if cs[0].Broken? then 0 else 1 + FirstBroken(cs[1..])
  }

  /**
   * The messages the producer sends while streaming from `done` bytes on:
   * one progress message per intact chunk carrying the running byte count,
   * then `Complete` at the end of the body or the failure of the first
   * broken chunk.
   */
  function ChunkEvents(cs: seq<Chunk>, done: nat, total: Option<nat>): (ev: seq<Event>)
    ensures |ev| == FirstBroken(cs) + 1
    ensures Terminal(ev[|ev| - 1])
    ensures forall i :: 0 < i < |ev| ==> ev[i - 1] == Progress(done + Delivered(cs[..i]), total)
    ensures ev[|ev| - 1] == Complete <==> AllData(cs)
    ensures ev[|ev| - 1].Failure? ==> ev[|ev| - 1] == Failure(cs[FirstBroken(cs)].reason)
  {
    if |cs| == 0 then [Complete]
    else match cs[0]
      case Broken(m) => [Failure(m)]
      case Data(n) =>
        var rest := ChunkEvents(cs[1..], done + n, total);
        assert forall i :: 1 <= i <= |cs| ==> Delivered(cs[..i]) == n + Delivered(cs[1..][..i - 1]) by {
          forall i | 1 <= i <= |cs| ensures Delivered(cs[..i]) == n + Delivered(cs[1..][..i - 1]) {
            assert cs[..i][1..] == cs[1..][..i - 1];
          }
        }
        assert AllData(cs) <==> AllData(cs[1..]) by {
          if AllData(cs[1..]) {
            forall i | 0 <= i < |cs| ensures cs[i].Data? {
              if i > 0 { assert cs[i] == cs[1..][i - 1]; }
            }
          }
        }
        [Progress(done + n, total)] + rest
  }

  /**
   * Every message the channel carries for one download: the request fails,
   * or the target file cannot be created (nothing else is sent), or a
   * `Start` with the announced size (0 when unknown) followed by the body.
   */
  function DownloadEvents(reply: Reply, canCreate: bool): (ev: seq<Event>)
    ensures |ev| > 0 && Terminal(ev[|ev| - 1])
    ensures forall i :: 0 <= i < |ev| - 1 ==> !Terminal(ev[i])
    ensures ev[|ev| - 1] == Complete <==> reply.Streamed? && canCreate && AllData(reply.chunks)
  {
    match reply
    case Refused(m) => [Failure(m)]
    case Streamed(len, cs) =>
      if !canCreate then [Failure("cannot create the target file")]
      else
        var body := ChunkEvents(cs, 0, len);
        assert forall i :: 0 <= i < |body| - 1 ==> !Terminal(body[i]) by {
          forall i | 0 <= i < |body| - 1 ensures !Terminal(body[i]) {
            assert body[(i + 1) - 1] == Progress(Delivered(cs[..i + 1]), len);
          }
        }
        [Start(len.GetOr(0))] + body
  }

  /**
   * The consumer loop: the first `Complete` ends it successfully, the
   * first `Failure` ends it with that failure, progress messages are only
   * displayed, and a closed channel ends it successfully.
   */
  function Consume(ev: seq<Event>): (r: Result<(), HttpError>)
    ensures (forall i :: 0 <= i < |ev| ==> !Terminal(ev[i])) ==> r.Ok?
    ensures |ev| > 0 && Terminal(ev[0]) ==> (r.Ok? <==> ev[0].Complete?)
  {
    if |ev| == 0 then Ok(())
    else match ev[0]
      case Complete => Ok(())
      case Failure(m) => Err(General(m))
      case _ => Consume(ev[1..])
  }

  /** Messages after the first terminal one are never read. */
  lemma {:induction false} ConsumeStopsAtTerminal(a: seq<Event>, b: seq<Event>)
    requires exists i :: 0 <= i < |a| && Terminal(a[i])
    ensures Consume(a + b) == Consume(a)
    decreases |a|
  {
    assert (a + b)[0] == a[0];
    if !Terminal(a[0]) {
      assert (a + b)[1..] == a[1..] + b;
      var i :| 0 <= i < |a| && Terminal(a[i]);
      assert Terminal(a[1..][i - 1]);
      ConsumeStopsAtTerminal(a[1..], b);
    }
  }

  /** With exactly one terminal message, at the end, the consumer reports what it says. */
  lemma {:induction false} ConsumeLast(ev: seq<Event>)
    requires |ev| > 0 && Terminal(ev[|ev| - 1])
    requires forall i :: 0 <= i < |ev| - 1 ==> !Terminal(ev[i])
    ensures Consume(ev).Ok? <==> ev[|ev| - 1] == Complete
    ensures ev[|ev| - 1].Failure? ==> Consume(ev) == Err(General(ev[|ev| - 1].message))
    decreases |ev|
  {
    if |ev| > 1 {
      assert !Terminal(ev[0]);
      assert forall i :: 0 <= i < |ev[1..]| - 1 ==> ev[1..][i] == ev[i + 1];
      ConsumeLast(ev[1..]);
    }
  }

  /**
   * Downloads into `to` (`download_with_progress`): the file is created
   * once the server answers, a broken body leaves the partial file behind,
   * and the outcome is whatever the first terminal message says.
   */
  function DownloadWithProgress(fs: Fs, to: Path, reply: Reply): (r: (Fs, Result<(), HttpError>))
    ensures r.1.Ok? <==> reply.Streamed? && CreateFile(fs, to).Ok? && AllData(reply.chunks)
    ensures reply.Refused? ==> r == (fs, Err(General(reply.reason)))
    ensures reply.Streamed? && CreateFile(fs, to).Ok? ==> r.0 == CreateFile(fs, to).value
    ensures !(reply.Streamed? && CreateFile(fs, to).Ok?) ==> r.0 == fs
    ensures reply.Streamed? && CreateFile(fs, to).Ok? && !AllData(reply.chunks) ==>
      r.1 == Err(General(reply.chunks[FirstBroken(reply.chunks)].reason))
  {
    var created := CreateFile(fs, to);
    var ev := DownloadEvents(reply, created.Ok?);
    ConsumeLast(ev);
    var fs' := if reply.Streamed? && created.Ok? then created.value else fs;
    (fs', Consume(ev))
  }

  /**
   * A plain download into `to` (`download_file`): fetch the whole body,
   * then create the file and write it. A failed request leaves the file
   * system untouched.
   */
  function DownloadFile(fs: Fs, to: Path, body: Result<(), string>): (r: (Fs, Result<(), HttpError>))
    ensures body.Err? ==> r == (fs, Err(General(body.error)))
    ensures r.1.Ok? <==> body.Ok? && CreateFile(fs, to).Ok?
    ensures r.1.Ok? ==> r.0 == CreateFile(fs, to).value && IsFile(r.0, to)
    ensures r.1.Err? ==> r.0 == fs
  {
    match body
    case Err(m) => (fs, Err(General(m)))
    case Ok(_) =>
      match CreateFile(fs, to)
      case Err(e) => (fs, Err(General("cannot create the target file")))
      case Ok(fs') => (fs', Ok(()))
  }
}

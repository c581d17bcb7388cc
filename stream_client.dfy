/**
 * The streaming client: the capture callback that assembles chunks into a
 * shared FIFO, the websocket thread's send step and receive loop, and its
 * stop request.
 */
module StreamClient {
  import opened Audio

  /** `chunk_size = fs * 2 * 1`: one second of 16 kHz 16-bit mono audio. */
  const ChunkSize: nat := SampleRate * 2 * 1

  lemma ChunkSizeIsOneSecond()
    ensures ChunkSize == 32000 && ChunkSize == SampleRate * BytesPerSample
  {
  }

  // ---------------------------------------------------------------------
  // Chunk assembly, as values

  /** What the capture side holds: every chunk ever queued, and the buffer. */
  datatype Assembly = Assembly(queued: seq<seq<byte>>, buffer: seq<byte>)

  /**
   * One call of the capture callback: the block is appended, and once the
   * buffer holds at least `ChunkSize` bytes the WHOLE buffer becomes one
   * queued chunk and a fresh empty buffer replaces it.
   */
  function Callback(a: Assembly, block: seq<byte>): Assembly
  {
    var grown := a.buffer + block;
    if |grown| >= ChunkSize then Assembly(a.queued + [grown], []) else Assembly(a.queued, grown)
  }

  /**
   * A callback loses and duplicates no byte, leaves the buffer shorter than
   * `ChunkSize` or untouched, and queues a chunk exactly when the grown
   * buffer reaches `ChunkSize`, that chunk being the whole grown buffer.
   */
  lemma CallbackSpec(a: Assembly, block: seq<byte>)
    ensures var r := Callback(a, block);
            Flatten(r.queued) + r.buffer == Flatten(a.queued) + a.buffer + block &&
            (|r.buffer| < ChunkSize || r.buffer == a.buffer + block) &&
            a.queued <= r.queued && |r.queued| <= |a.queued| + 1 &&
            (|r.queued| > |a.queued| <==> |a.buffer + block| >= ChunkSize) &&
            (|r.queued| > |a.queued| ==> r.queued[|a.queued|] == a.buffer + block && r.buffer == [])
  {
    var grown := a.buffer + block;
    if |grown| >= ChunkSize {
      FlattenAppend(a.queued, [grown]);
      assert Flatten([grown]) == Flatten([]) + grown;
    }
  }

  /** The state after the callback has run once per block, in arrival order. */
  function Capture(blocks: seq<seq<byte>>): Assembly
  {
    if blocks == [] then Assembly([], [])
    else Callback(Capture(blocks[..|blocks| - 1]), blocks[|blocks| - 1])
  }

  /** Nothing dropped, duplicated or reordered: queued chunks then the buffer are the input. */
  lemma {:induction false} CaptureConserves(blocks: seq<seq<byte>>)
    ensures Flatten(Capture(blocks).queued) + Capture(blocks).buffer == Flatten(blocks)
  {
    if blocks != [] {
      var init := blocks[..|blocks| - 1];
      CaptureConserves(init);
      CallbackSpec(Capture(init), blocks[|blocks| - 1]);
    }
  }

  /** Between callbacks the buffer is always shorter than one chunk: a callback either keeps a short buffer or empties it. */
  lemma CaptureResidualBound(blocks: seq<seq<byte>>)
    ensures |Capture(blocks).buffer| < ChunkSize
  {
  }

  /** Each callback queues at most one chunk, and queued chunks stay as they were. */
  lemma {:induction false} CaptureAtMostOnePerBlock(blocks: seq<seq<byte>>, more: seq<seq<byte>>)
    ensures Capture(blocks).queued <= Capture(blocks + more).queued
    ensures |Capture(blocks + more).queued| <= |Capture(blocks).queued| + |more|
  {
    if more != [] {
      var init := more[..|more| - 1];
      assert (blocks + more)[..|blocks + more| - 1] == blocks + init;
      CaptureAtMostOnePerBlock(blocks, init);
    } else {
      assert blocks + more == blocks;
    }
  }

  /** Every queued chunk is the whole buffer at a moment it reached `ChunkSize`. */
  lemma {:induction false} CaptureChunksAtLeastChunkSize(blocks: seq<seq<byte>>)
    ensures forall i :: 0 <= i < |Capture(blocks).queued| ==> |Capture(blocks).queued[i]| >= ChunkSize
  {
    if blocks != [] {
      CaptureChunksAtLeastChunkSize(blocks[..|blocks| - 1]);
    }
  }

  /** A chunk is shorter than `ChunkSize` plus the largest block. */
  lemma {:induction false} CaptureChunksBounded(blocks: seq<seq<byte>>, largest: nat)
    requires forall i :: 0 <= i < |blocks| ==> |blocks[i]| <= largest
    ensures forall i :: 0 <= i < |Capture(blocks).queued| ==> |Capture(blocks).queued[i]| < ChunkSize + largest
  {
    if blocks != [] {
      var init := blocks[..|blocks| - 1];
      CaptureChunksBounded(init, largest);
      CaptureResidualBound(init);
    }
  }

  /** A multiple of `d` below a multiple `c` of `d` stays within `c` after adding `d`. */
  lemma MultipleStep(x: nat, d: nat, c: nat)
    requires d > 0 && x % d == 0 && c % d == 0 && x < c
    ensures x + d <= c && (x + d) % d == 0
  {
    var k, n := x / d, c / d;
    assert x == k * d + x % d;
    assert c == n * d + c % d;
    var m := n - k;
    assert m * d == c - x;
    assert m > 0;
    assert (m - 1) * d >= 0;
    assert m * d == (m - 1) * d + d;
    assert x + d == (k + 1) * d;
    DivModUnique(x + d, d, k + 1, 0);
  }

  /** A buffer made of whole `d`-byte blocks, short of a chunk, and chunks of exactly `ChunkSize` bytes. */
  predicate Exact(a: Assembly, d: nat)
    requires d > 0
  {
    |a.buffer| % d == 0 && |a.buffer| < ChunkSize &&
    forall i :: 0 <= i < |a.queued| ==> |a.queued[i]| == ChunkSize
  }

  lemma ExactStep(a: Assembly, block: seq<byte>, d: nat)
    requires d > 0 && ChunkSize % d == 0 && |block| == d && Exact(a, d)
    ensures Exact(Callback(a, block), d)
  {
    var grown := a.buffer + block;
    assert |grown| == |a.buffer| + d;
    MultipleStep(|a.buffer|, d, ChunkSize);
  }

  /**
   * When every block has one size that divides `ChunkSize` (for instance
   * 800 samples = 1600 bytes; 1024 samples = 2048 bytes does not), the
   * buffer never overshoots and every chunk is exactly `ChunkSize` bytes.
   */
  lemma {:induction false} CaptureExactWhenBlocksDivide(blocks: seq<seq<byte>>, d: nat)
    requires d > 0 && ChunkSize % d == 0
    requires forall i :: 0 <= i < |blocks| ==> |blocks[i]| == d
    ensures Exact(Capture(blocks), d)
  {
    if blocks != [] {
      var init := blocks[..|blocks| - 1];
      CaptureExactWhenBlocksDivide(init, d);
      ExactStep(Capture(init), blocks[|blocks| - 1], d);
    }
  }

  /** Blocks that do not divide `ChunkSize` give chunks longer than `ChunkSize`. */
  lemma ChunkMayExceedChunkSize()
    ensures var block := seq(20000, _ => 0);
            Capture([block, block]).queued == [block + block] && |block + block| == 40000
  {
    var block: seq<byte> := seq(20000, _ => 0);
    assert [block, block][..1] == [block];
    assert [block][..0] == [];
    assert Capture([block]) == Assembly([], block);
    assert |block + block| == 40000;
  }

  // ---------------------------------------------------------------------
  // The objects the client mutates

  /** A Python `bytearray`: a byte string that is extended in place. */
  class ByteArray {
    var bytes: seq<byte>

    constructor ()
      ensures bytes == []
    {
      bytes := [];
    }

    method Extend(data: seq<byte>)
      modifies this
      ensures bytes == old(bytes) + data
    {
      bytes := bytes + data;
    }
  }

  /**
   * The `queue.Queue` shared by the capture callback (producer) and the send
   * loop (consumer). `puts` is every object ever put, `log` its bytes as
   * they were when put, and `taken` how many have been got.
   */
  class AudioQueue {
    var items: seq<ByteArray>
    ghost var puts: seq<ByteArray>
    ghost var log: seq<seq<byte>>
    ghost var taken: nat

    /** The queue holds exactly the objects put and not yet got, in order, none altered since. */
    ghost predicate Valid()
      reads this, items
    {
      taken <= |log| && |puts| == |log| && items == puts[taken..] &&
      forall i :: 0 <= i < |items| ==> items[i].bytes == log[taken + i]
    }

    constructor ()
      ensures Valid() && items == [] && puts == [] && log == [] && taken == 0
    {
      items, puts, log, taken := [], [], [], 0;
    }

    method Put(chunk: ByteArray)
      requires Valid()
      modifies this
      ensures Valid()
      ensures items == old(items) + [chunk] && puts == old(puts) + [chunk]
      ensures log == old(log) + [chunk.bytes] && taken == old(taken)
    {
      items := items + [chunk];
      puts := puts + [chunk];
      log := log + [chunk.bytes];
    }

    method Empty() returns (e: bool)
      ensures e <==> |items| == 0
    {
      e := items == [];
    }

    /** `get()` after `empty()` said no: the oldest chunk. */
    method Get() returns (chunk: ByteArray)
      requires Valid() && items != []
      modifies this
      ensures Valid()
      ensures chunk == old(items)[0] && items == old(items)[1..]
      ensures puts == old(puts) && log == old(log) && taken == old(taken) + 1 && chunk.bytes == log[old(taken)]
    {
      chunk := items[0];
      items := items[1..];
      taken := taken + 1;
    }
  }

  /**
   * The client end of the websocket: the audio messages it has sent, whether
   * its closing handshake has begun, whether it is closed, and how many close
   * coroutines have been scheduled on it. `closed` stays false while the
   * handshake is under way.
   */
  class ClientSocket {
    var sentAudio: seq<seq<byte>>
    var closing: bool
    var closed: bool
    var closeRequests: nat

    constructor ()
      ensures sentAudio == [] && !closing && !closed && closeRequests == 0
    {
      sentAudio, closing, closed, closeRequests := [], false, false, 0;
    }

    /** The connection is open: no closing handshake has begun and it is not closed. */
    predicate Open()
      reads this
    {
      !closing && !closed
    }

    /**
     * `send(chunk)`: delivered when the connection is open; once the closing
     * handshake has begun, or the socket is closed, it raises.
     */
    method Send(message: seq<byte>) returns (delivered: bool)
      modifies this
      ensures delivered == old(Open())
      ensures sentAudio == if delivered then old(sentAudio) + [message] else old(sentAudio)
      ensures closing == old(closing) && closed == old(closed) && closeRequests == old(closeRequests)
    {
      delivered := Open();
      if delivered {
        sentAudio := sentAudio + [message];
      }
    }

    /**
     * The server starts the closing handshake, as it does once its handler
     * returns: the connection is no longer open, but not yet closed.
     */
    method PeerCloses()
      modifies this
      ensures closing && !Open()
      ensures closed == old(closed) && sentAudio == old(sentAudio) && closeRequests == old(closeRequests)
    {
      closing := true;
    }

    /** The event loop runs a scheduled `close()`. */
    method Close()
      modifies this
      ensures closed && !Open() && closing == old(closing)
      ensures sentAudio == old(sentAudio) && closeRequests == old(closeRequests)
    {
      closed := true;
    }
  }

  // ---------------------------------------------------------------------
  // Inbound result messages

  /** A JSON value as far as the receive handler looks at it. */
  datatype Json = JString(s: string) | JOther(truthy: bool)

  /** A text message as `json.loads` sees it. */
  datatype Inbound =
    | Malformed                                  // json.JSONDecodeError
    | JsonObject(transcription: Option<Json>)    // a dict; the "transcription" entry, if any
    | JsonNonObject                              // valid JSON that has no `.get`

  /** What the handler does with one message. */
  datatype Reaction =
    | Emit(text: string)   // update_transcription.emit(text)
    | NoTranscription      // logged: no transcription found
    | ParseFailed          // logged: failed to parse
    | Escapes              // an exception leaves the receive loop

  /** The `"transcription"` entry, defaulting to `""` when missing. */
  function TranscriptionOf(entry: Option<Json>): (v: Json)
    ensures entry.None? ==> v == JString("")
  {
    if entry.Some? then entry.value else JString("")
  }

  function Truthy(v: Json): bool
  {
    match v
    case JString(s) => s != ""
    case JOther(t) => t
  }

  /** The decision for one received message. */
  function Interpret(m: Inbound): (r: Reaction)
    ensures r.Emit? <==> m.JsonObject? && TranscriptionOf(m.transcription).JString? && TranscriptionOf(m.transcription).s != ""
    ensures r.Emit? ==> r.text != "" && m.transcription == Some(JString(r.text))
    ensures r == ParseFailed <==> m == Malformed
    ensures r == Escapes <==> m == JsonNonObject || (m.JsonObject? && TranscriptionOf(m.transcription).JOther? && Truthy(TranscriptionOf(m.transcription)))
  {
    match m
    case Malformed => ParseFailed
    case JsonNonObject => Escapes
    case JsonObject(entry) =>
      var v := TranscriptionOf(entry);
      if !Truthy(v) then NoTranscription
      else if v.JString? then Emit(v.s)
      else Escapes
  }

  /** The texts shown for a stream of messages, up to the first one whose handling raises. */
  function Displayed(ms: seq<Inbound>): (shown: seq<string>)
    ensures forall i :: 0 <= i < |shown| ==> shown[i] != ""
    ensures |shown| <= |ms|
  {
    if ms == [] then []
    else match Interpret(ms[0])
      case Emit(t) => [t] + Displayed(ms[1..])
      case Escapes => []
      case _ => Displayed(ms[1..])
  }

  /** A missing key and an empty transcription are handled alike. */
  lemma MissingKeyIsEmpty()
    ensures Interpret(JsonObject(None)) == Interpret(JsonObject(Some(JString("")))) == NoTranscription
  {
  }

  /** An unparsable message is logged and dropped; the messages around it are handled as without it. */
  lemma {:induction false} MalformedIsSkipped(before: seq<Inbound>, after: seq<Inbound>)
    ensures Displayed(before + [Malformed] + after) == Displayed(before + after)
  {
    if before == [] {
      assert before + [Malformed] + after == [Malformed] + after;
      assert ([Malformed] + after)[0] == Malformed;
      assert ([Malformed] + after)[1..] == after;
      assert before + after == after;
    } else {
      assert (before + [Malformed] + after)[0] == before[0];
      assert (before + [Malformed] + after)[1..] == before[1..] + [Malformed] + after;
      assert (before + after)[1..] == before[1..] + after;
      MalformedIsSkipped(before[1..], after);
    }
  }

  /** How the receive loop ended. */
  datatype ReceiveEnd = NotStreaming | ConnectionClosed | Raised

  // ---------------------------------------------------------------------
  // The two objects of the client

  /** The websocket thread: streaming flag, the shared queue, and the connection once open. */
  class WebSocketThread {
    var isStreaming: bool
    const audioQueue: AudioQueue
    var websocket: ClientSocket?
    /** `audioQueue.taken` when the connection opened. */
    ghost var sentFrom: nat
    /** The send coroutine has raised and ended. */
    ghost var sendEnded: bool

    /**
     * What was sent is exactly what was got since connecting, except the last
     * chunk got when a send raised: that one was lost.
     */
    ghost predicate Valid()
      reads this, audioQueue, audioQueue.items, websocket
    {
      audioQueue.Valid() &&
      (websocket != null ==>
         sentFrom <= audioQueue.taken &&
         (!sendEnded ==> websocket.sentAudio == audioQueue.log[sentFrom..audioQueue.taken]) &&
         (sendEnded ==> sentFrom < audioQueue.taken && websocket.sentAudio == audioQueue.log[sentFrom..audioQueue.taken - 1]))
    }

    constructor (queue: AudioQueue)
      requires queue.Valid()
      ensures Valid() && audioQueue == queue && websocket == null && !isStreaming && !sendEnded
    {
      audioQueue := queue;
      isStreaming := false;
      websocket := null;
      sentFrom := 0;
      sendEnded := false;
    }

    /** The connection opened: remember it and start streaming. */
    method Connected(ws: ClientSocket)
      requires Valid() && ws.sentAudio == []
      modifies this
      ensures Valid() && websocket == ws && isStreaming && sentFrom == audioQueue.taken && !sendEnded
    {
      websocket := ws;
      isStreaming := true;
      sentFrom := audioQueue.taken;
      sendEnded := false;
    }

    /**
     * One pass of the `send_audio` loop: send the oldest queued chunk, or only
     * sleep when the queue is empty. A send on a closed socket raises after
     * the chunk was taken from the queue.
     */
    method SendStep() returns (failed: bool)
      requires audioQueue.Valid() && websocket != null
      modifies audioQueue, websocket
      ensures audioQueue.Valid() && audioQueue.log == old(audioQueue.log)
      ensures audioQueue.taken == if old(audioQueue.taken) < |audioQueue.log|
                                  then old(audioQueue.taken) + 1 else old(audioQueue.taken)
      ensures failed == (old(audioQueue.taken) < |audioQueue.log| && !old(websocket.Open()))
      ensures failed ==> audioQueue.taken == old(audioQueue.taken) + 1
      ensures !failed ==> websocket.sentAudio == old(websocket.sentAudio) + audioQueue.log[old(audioQueue.taken)..audioQueue.taken]
      ensures failed ==> websocket.sentAudio == old(websocket.sentAudio)
      ensures audioQueue.puts == old(audioQueue.puts)
      ensures websocket.closing == old(websocket.closing) && websocket.closed == old(websocket.closed)
      ensures websocket.closeRequests == old(websocket.closeRequests)
    {
      failed := false;
      var empty := audioQueue.Empty();
      if !empty {
        var chunk := audioQueue.Get();
        var delivered := websocket.Send(chunk.bytes);
        failed := !delivered;
        assert audioQueue.log[old(audioQueue.taken)..audioQueue.taken] == [chunk.bytes];
      }
    }

    /**
     * `send_audio`, for `ticks` passes of its `while self.is_streaming` loop;
     * a pass whose send raises ends the coroutine.
     */
    method SendAudio(ticks: nat) returns (failed: bool)
      requires audioQueue.Valid() && websocket != null
      modifies audioQueue, websocket
      ensures audioQueue.Valid() && audioQueue.log == old(audioQueue.log) && audioQueue.puts == old(audioQueue.puts)
      ensures old(audioQueue.taken) <= audioQueue.taken
      ensures !isStreaming ==> audioQueue.taken == old(audioQueue.taken) && !failed
      ensures isStreaming && !failed ==>
                audioQueue.taken == if old(audioQueue.taken) + ticks < |audioQueue.log|
                                    then old(audioQueue.taken) + ticks else |audioQueue.log|
      ensures failed <==> isStreaming && ticks > 0 && old(audioQueue.taken) < |audioQueue.log| && !old(websocket.Open())
      ensures failed ==> old(audioQueue.taken) < audioQueue.taken <= old(audioQueue.taken) + ticks
      ensures !failed ==> websocket.sentAudio == old(websocket.sentAudio) + audioQueue.log[old(audioQueue.taken)..audioQueue.taken]
      ensures failed ==> websocket.sentAudio == old(websocket.sentAudio) + audioQueue.log[old(audioQueue.taken)..audioQueue.taken - 1]
      ensures websocket.closing == old(websocket.closing) && websocket.closed == old(websocket.closed)
      ensures websocket.closeRequests == old(websocket.closeRequests)
    {
      ghost var t0, sent0 := audioQueue.taken, websocket.sentAudio;
      failed := false;
      var t := 0;
      while t < ticks && isStreaming
        invariant 0 <= t <= ticks
        invariant !isStreaming ==> t == 0
        invariant audioQueue.Valid() && audioQueue.log == old(audioQueue.log) && audioQueue.puts == old(audioQueue.puts)
        invariant audioQueue.taken == if t0 + t < |audioQueue.log| then t0 + t else |audioQueue.log|
        invariant websocket.sentAudio == sent0 + audioQueue.log[t0..audioQueue.taken]
        invariant websocket.closing == old(websocket.closing) && websocket.closed == old(websocket.closed)
        invariant websocket.closeRequests == old(websocket.closeRequests)
        invariant !websocket.Open() ==> audioQueue.taken == t0
        invariant t > 0 && !websocket.Open() ==> t0 == |audioQueue.log|
      {
        ghost var tb := audioQueue.taken;
        failed := SendStep();
        if failed {
          return;
        }
        SliceSplit(audioQueue.log, t0, tb, audioQueue.taken);
        t := t + 1;
      }
    }

    /**
     * The task scheduled for `send_audio` on connection: runs it and records
     * whether it ended by an exception, keeping what was sent equal to what
     * was got since connecting.
     */
    method SendTask(ticks: nat) returns (failed: bool)
      requires Valid() && websocket != null && !sendEnded
      modifies this`sendEnded, audioQueue, websocket
      ensures Valid() && sendEnded == failed
      ensures failed <==> isStreaming && ticks > 0 && old(audioQueue.taken) < |audioQueue.log| && !old(websocket.Open())
      ensures audioQueue.log == old(audioQueue.log) && audioQueue.puts == old(audioQueue.puts)
      ensures old(audioQueue.taken) <= audioQueue.taken
      ensures isStreaming && !failed ==>
                audioQueue.taken == if old(audioQueue.taken) + ticks < |audioQueue.log|
                                    then old(audioQueue.taken) + ticks else |audioQueue.log|
      ensures websocket.closing == old(websocket.closing) && websocket.closed == old(websocket.closed)
      ensures websocket.closeRequests == old(websocket.closeRequests)
    {
      ghost var t0 := audioQueue.taken;
      failed := SendAudio(ticks);
      sendEnded := failed;
      if failed {
        SliceSplit(audioQueue.log, sentFrom, t0, audioQueue.taken - 1);
      } else {
        SliceSplit(audioQueue.log, sentFrom, t0, audioQueue.taken);
      }
    }

    /**
     * `receive_transcription`: while streaming, handle each message the
     * server sends until the connection closes, or until handling one raises.
     */
    method ReceiveTranscription(messages: seq<Inbound>) returns (shown: seq<string>, ending: ReceiveEnd)
      ensures !isStreaming ==> shown == [] && ending == NotStreaming
      ensures isStreaming ==> shown == Displayed(messages)
      ensures isStreaming ==> (ending == Raised <==> exists j :: 0 <= j < |messages| && Interpret(messages[j]) == Escapes)
      ensures isStreaming ==> ending != NotStreaming
    {
      shown := [];
      var i := 0;
      while isStreaming && i < |messages|
        invariant 0 <= i <= |messages|
        invariant !isStreaming ==> i == 0 && shown == []
        invariant Displayed(messages) == shown + Displayed(messages[i..])
        invariant forall j :: 0 <= j < i ==> Interpret(messages[j]) != Escapes
        decreases |messages| - i
      {
        assert messages[i..][1..] == messages[i + 1..];
        match Interpret(messages[i]) {
          case Emit(text) =>
            shown := shown + [text];
          case NoTranscription =>
          case ParseFailed =>
          case Escapes =>
            return shown, Raised;
        }
        i := i + 1;
      }
      ending := if isStreaming then ConnectionClosed else NotStreaming;
    }

    /** `stop`: clear the flag; schedule a close only on an open connection. */
    method Stop()
      requires Valid()
      modifies this, websocket
      ensures Valid() && !isStreaming && websocket == old(websocket)
      ensures sentFrom == old(sentFrom) && sendEnded == old(sendEnded)
      ensures websocket != null ==> websocket.closing == old(websocket.closing)
      ensures websocket != null ==>
                websocket.closeRequests == old(websocket.closeRequests) + (if old(websocket.closed) then 0 else 1) &&
                websocket.closed == old(websocket.closed) && websocket.sentAudio == old(websocket.sentAudio)
    {
      isStreaming := false;
      if websocket != null && !websocket.closed {
        websocket.closeRequests := websocket.closeRequests + 1;
      }
    }
  }

  /** The capture side of the application: the assembly buffer and the queue it feeds. */
  class WAVStreamerApp {
    var buffer: ByteArray
    const audioQueue: AudioQueue
    /** The byte image of every captured block, in arrival order. */
    ghost var blocks: seq<seq<byte>>

    /** The buffer was never put on the queue, and the queue's history is what `Capture` assembles. */
    ghost predicate Valid()
      reads this, buffer, audioQueue, audioQueue.items
    {
      audioQueue.Valid() && buffer !in audioQueue.puts &&
      Capture(blocks) == Assembly(audioQueue.log, buffer.bytes)
    }

    constructor ()
      ensures Valid() && blocks == [] && audioQueue.items == [] && audioQueue.taken == 0
      ensures fresh(buffer) && fresh(audioQueue)
    {
      buffer := new ByteArray();
      audioQueue := new AudioQueue();
      blocks := [];
    }

    /** `audio_callback`: append the block; queue the whole buffer once it holds a chunk. */
    method AudioCallback(indata: seq<int16>)
      requires Valid()
      modifies this, buffer, audioQueue
      ensures Valid()
      ensures blocks == old(blocks) + [ToBytes(indata)]
      ensures unchanged(old(audioQueue.items))
      ensures audioQueue.taken == old(audioQueue.taken)
      ensures var grown := old(buffer.bytes) + ToBytes(indata);
              if |grown| >= ChunkSize then
                audioQueue.items == old(audioQueue.items) + [old(buffer)] && old(buffer).bytes == grown &&
                fresh(buffer) && buffer.bytes == []
              else
                audioQueue.items == old(audioQueue.items) && buffer == old(buffer) && buffer.bytes == grown
    {
      var block := ToBytes(indata);
      assert (blocks + [block])[..|blocks|] == blocks;
      buffer.Extend(block);
      blocks := blocks + [block];
      if |buffer.bytes| >= ChunkSize {
        audioQueue.Put(buffer);
        buffer := new ByteArray();
      }
    }
  }

  // ---------------------------------------------------------------------
  // One session: the capture side and the websocket thread share the queue

  /**
   * The first connection's session: both objects valid over their one shared
   * queue, with sending counted from the start of the queue.
   */
  ghost predicate Session(app: WAVStreamerApp, th: WebSocketThread)
    reads app, app.buffer, app.audioQueue, app.audioQueue.items, th, th.websocket
  {
    th.audioQueue == app.audioQueue && app.Valid() && th.Valid() && th.websocket != null && th.sentFrom == 0
  }

  /**
   * What the thread has sent is the first chunks the capture side queued, in
   * order; until a send raises, exactly the chunks got so far.
   */
  lemma SentIsCaptured(app: WAVStreamerApp, th: WebSocketThread)
    requires Session(app, th)
    ensures th.websocket.sentAudio <= Capture(app.blocks).queued
    ensures !th.sendEnded ==> th.websocket.sentAudio == Capture(app.blocks).queued[..th.audioQueue.taken]
  {
  }

  /**
   * `start_streaming` followed by the connection: a thread over the
   * application's queue, connected while nothing has yet been got from it.
   */
  method StartSession(app: WAVStreamerApp) returns (th: WebSocketThread)
    requires app.Valid() && app.audioQueue.taken == 0
    ensures Session(app, th) && th.isStreaming && !th.sendEnded
    ensures fresh(th) && fresh(th.websocket) && th.websocket.Open() && th.websocket.sentAudio == []
    ensures th.websocket.closeRequests == 0
  {
    th := new WebSocketThread(app.audioQueue);
    var ws := new ClientSocket();
    th.Connected(ws);
  }

  /** A capture callback during the session keeps it and leaves what was sent alone. */
  method CaptureDuringSession(app: WAVStreamerApp, th: WebSocketThread, indata: seq<int16>)
    requires Session(app, th)
    modifies app, app.buffer, app.audioQueue
    ensures Session(app, th) && app.blocks == old(app.blocks) + [ToBytes(indata)]
    ensures app.buffer == old(app.buffer) || fresh(app.buffer)
    ensures th.websocket.sentAudio == old(th.websocket.sentAudio) && th.sendEnded == old(th.sendEnded)
  {
    app.AudioCallback(indata);
  }

  /** The send task during the session keeps it and leaves what was captured alone. */
  method SendDuringSession(app: WAVStreamerApp, th: WebSocketThread, ticks: nat) returns (failed: bool)
    requires Session(app, th) && !th.sendEnded
    modifies th`sendEnded, th.audioQueue, th.websocket
    ensures Session(app, th) && app.blocks == old(app.blocks) && th.sendEnded == failed
    ensures failed <==> th.isStreaming && ticks > 0 && old(th.audioQueue.taken) < |th.audioQueue.log| && !old(th.websocket.Open())
    ensures th.isStreaming && !failed ==>
              th.audioQueue.taken == if old(th.audioQueue.taken) + ticks < |th.audioQueue.log|
                                     then old(th.audioQueue.taken) + ticks else |th.audioQueue.log|
    ensures th.websocket.Open() == old(th.websocket.Open()) && th.websocket.closeRequests == old(th.websocket.closeRequests)
  {
    failed := th.SendTask(ticks);
  }
}

/**
 * Both ends together: the chunks the client sends arrive as the server's
 * binary frames, and the server's result messages arrive as the client's
 * inbound JSON objects.
 */
module Pipeline {
  import opened Audio
  import C = StreamClient
  import S = StreamServer

  /** Each chunk `send_audio` sends arrives as one binary frame, in order. */
  function Frames(chunks: seq<seq<byte>>): (ms: seq<S.Message>)
    ensures |ms| == |chunks|
    ensures forall i :: 0 <= i < |chunks| ==> ms[i] == S.Binary(chunks[i])
  {
    if chunks == [] then [] else Frames(chunks[..|chunks| - 1]) + [S.Binary(chunks[|chunks| - 1])]
  }

  lemma {:induction false} FramesCarryChunks(chunks: seq<seq<byte>>)
    ensures S.Payloads(Frames(chunks)) == chunks
  {
    var ps := S.Payloads(Frames(chunks));
    assert forall i :: 0 <= i < |chunks| ==> ps[i] == chunks[i];
  }

  /** The `"transcription"` texts the server sent, in order. */
  function Replies(flushes: seq<S.Flush>): (texts: seq<string>)
    ensures |texts| <= |flushes|
  {
    if flushes == [] then []
    else
      var last := flushes[|flushes| - 1];
      Replies(flushes[..|flushes| - 1]) + (if last.reply.Some? then [last.reply.value] else [])
  }

  /** With every segment answered, the texts are the segments' replies, one each, in order. */
  lemma {:induction false} RepliesOfAnswered(flushes: seq<S.Flush>)
    requires forall i :: 0 <= i < |flushes| ==> flushes[i].reply.Some?
    ensures |Replies(flushes)| == |flushes|
    ensures forall i :: 0 <= i < |flushes| ==> Replies(flushes)[i] == flushes[i].reply.value
  {
    if flushes != [] {
      RepliesOfAnswered(flushes[..|flushes| - 1]);
    }
  }

  /** `json.loads(json.dumps({"transcription": t}))` on the client: an object holding the string. */
  function Deliver(texts: seq<string>): (ms: seq<C.Inbound>)
    ensures |ms| == |texts|
    ensures forall i :: 0 <= i < |texts| ==> ms[i] == C.JsonObject(Some(C.JString(texts[i])))
  {
    if texts == [] then [] else [C.JsonObject(Some(C.JString(texts[0])))] + Deliver(texts[1..])
  }

  /** The texts that are not empty, in order. */
  function NonEmpty(texts: seq<string>): (r: seq<string>)
    ensures |r| <= |texts|
    ensures forall t :: t in r ==> t in texts && t != ""
  {
    if texts == [] then []
    else (if texts[0] != "" then [texts[0]] else []) + NonEmpty(texts[1..])
  }

  /**
   * Every result message the server sends is shown by the client, in order,
   * except one whose text is empty; nothing else is shown and nothing ends
   * the receive loop.
   */
  lemma {:induction false} RepliesDisplayed(texts: seq<string>)
    ensures C.Displayed(Deliver(texts)) == NonEmpty(texts)
    ensures forall j :: 0 <= j < |texts| ==> C.Interpret(Deliver(texts)[j]) != C.Escapes
  {
    if texts != [] {
      var ms := Deliver(texts);
      assert ms[1..] == Deliver(texts[1..]);
      RepliesDisplayed(texts[1..]);
      assert forall j :: 1 <= j < |texts| ==> ms[j] == Deliver(texts[1..])[j - 1];
    }
  }

  /**
   * While the handler has not ended, the client shows, in segment order, the
   * reply `Process` gives each segment the server transcribed, leaving out
   * only empty texts.
   */
  lemma ShownInSegmentOrder(ms: seq<S.Message>, transcribe: seq<byte> -> S.Attempt<string>,
                            translate: string -> S.Attempt<string>)
    requires !S.Run(ms, transcribe, translate).ended
    ensures var fs := S.Run(ms, transcribe, translate).flushes;
            |Replies(fs)| == |fs| &&
            (forall i :: 0 <= i < |fs| ==> S.Process(fs[i].segment, transcribe, translate).reply == Some(Replies(fs)[i])) &&
            C.Displayed(Deliver(Replies(fs))) == NonEmpty(Replies(fs))
  {
    var fs := S.Run(ms, transcribe, translate).flushes;
    S.RepliesFollowSegments(ms, transcribe, translate);
    RepliesOfAnswered(fs);
    RepliesDisplayed(Replies(fs));
  }

  /** The sentinel is never empty, so the client always shows it. */
  lemma SentinelIsShown()
    ensures C.Displayed(Deliver([S.NoSpeech])) == [S.NoSpeech]
  {
    RepliesDisplayed([S.NoSpeech]);
    assert NonEmpty([S.NoSpeech]) == [S.NoSpeech] + NonEmpty([]);
  }

  /** The server's segments and buffer are exactly the chunks it has received. */
  lemma ServerHoldsWhatWasSent(sent: seq<seq<byte>>, transcribe: seq<byte> -> S.Attempt<string>,
                               translate: string -> S.Attempt<string>)
    requires !S.Run(Frames(sent), transcribe, translate).ended
    ensures var server := S.Run(Frames(sent), transcribe, translate);
            Flatten(S.Segments(server.flushes)) + server.buffer == Flatten(sent)
  {
    S.Conserves(Frames(sent), transcribe, translate);
    FramesCarryChunks(sent);
  }

  /** The chunks sent so far, those still queued and the client's buffer are the captured audio. */
  lemma ClientHoldsTheRest(blocks: seq<seq<byte>>, sent: seq<seq<byte>>)
    requires sent <= C.Capture(blocks).queued
    ensures var client := C.Capture(blocks);
            Flatten(sent) + Flatten(client.queued[|sent|..]) + client.buffer == Flatten(blocks)
  {
    var client := C.Capture(blocks);
    C.CaptureConserves(blocks);
    assert client.queued == sent + client.queued[|sent|..];
    FlattenAppend(sent, client.queued[|sent|..]);
  }

  /** For any first chunks of the queue sent, the four parts together are the captured audio. */
  lemma ConservationForSentPrefix(blocks: seq<seq<byte>>, sent: seq<seq<byte>>,
                                  transcribe: seq<byte> -> S.Attempt<string>, translate: string -> S.Attempt<string>)
    requires sent <= C.Capture(blocks).queued
    requires !S.Run(Frames(sent), transcribe, translate).ended
    ensures var server := S.Run(Frames(sent), transcribe, translate);
            var client := C.Capture(blocks);
            Flatten(S.Segments(server.flushes)) + server.buffer + Flatten(client.queued[|sent|..]) + client.buffer
            == Flatten(blocks)
  {
    ServerHoldsWhatWasSent(sent, transcribe, translate);
    ClientHoldsTheRest(blocks, sent);
  }

  /**
   * Conservation end to end over a session: the segments the server has
   * transcribed, its buffer, the chunks queued but not delivered (those
   * still queued, and the one a failed send took) and the client's buffer
   * are, in order, exactly the audio captured.
   */
  lemma EndToEndConservation(app: C.WAVStreamerApp, th: C.WebSocketThread,
                             transcribe: seq<byte> -> S.Attempt<string>, translate: string -> S.Attempt<string>)
    requires C.Session(app, th)
    requires !S.Run(Frames(th.websocket.sentAudio), transcribe, translate).ended
    ensures var server := S.Run(Frames(th.websocket.sentAudio), transcribe, translate);
            Flatten(S.Segments(server.flushes)) + server.buffer +
            Flatten(th.audioQueue.log[|th.websocket.sentAudio|..]) + app.buffer.bytes
            == Flatten(app.blocks)
  {
    C.SentIsCaptured(app, th);
    ConservationForSentPrefix(app.blocks, th.websocket.sentAudio, transcribe, translate);
  }

  /** Blocks of exactly one chunk each are queued one for one, and nothing stays buffered. */
  lemma {:induction false} WholeChunkBlocks(blocks: seq<seq<byte>>)
    requires forall i :: 0 <= i < |blocks| ==> |blocks[i]| == C.ChunkSize
    ensures C.Capture(blocks) == C.Assembly(blocks, [])
  {
    if blocks != [] {
      var init, last := blocks[..|blocks| - 1], blocks[|blocks| - 1];
      WholeChunkBlocks(init);
      assert C.Capture(blocks) == C.Callback(C.Assembly(init, []), last);
      assert [] + last == last && |last| == C.ChunkSize;
      assert init + [last] == blocks;
    }
  }

  /** The byte image of each captured block. */
  function Images(captured: seq<seq<int16>>): (blocks: seq<seq<byte>>)
    ensures |blocks| == |captured|
    ensures forall i :: 0 <= i < |captured| ==> blocks[i] == ToBytes(captured[i])
  {
    if captured == [] then [] else Images(captured[..|captured| - 1]) + [ToBytes(captured[|captured| - 1])]
  }

  /** The captured samples, block after block. */
  function Join(captured: seq<seq<int16>>): (samples: seq<int16>)
  {
    if captured == [] then [] else Join(captured[..|captured| - 1]) + captured[|captured| - 1]
  }

  lemma {:induction false} ImagesFlatten(captured: seq<seq<int16>>)
    ensures Flatten(Images(captured)) == ToBytes(Join(captured))
  {
    if captured != [] {
      var init, last := captured[..|captured| - 1], captured[|captured| - 1];
      ImagesFlatten(init);
      assert Images(captured)[..|captured| - 1] == Images(init);
      ToBytesAppend(Join(init), last);
    }
  }

  /**
   * The bytes of any run of captured blocks, read as the 16-bit mono frames
   * of the server's WAV file, are exactly the captured samples.
   */
  lemma CapturedSamplesDecode(captured: seq<seq<int16>>)
    ensures |Flatten(Images(captured))| % 2 == 0
    ensures FromBytes(Flatten(Images(captured))) == Join(captured)
  {
    ImagesFlatten(captured);
    FromToBytes(Join(captured));
  }

  /**
   * Start streaming and capture the given blocks: the session holds them all,
   * nothing has been sent yet, and the connection is open.
   */
  method StartAndCapture(captured: seq<seq<int16>>) returns (app: C.WAVStreamerApp, th: C.WebSocketThread)
    ensures C.Session(app, th) && app.blocks == Images(captured)
    ensures fresh(app) && fresh(app.buffer) && fresh(app.audioQueue) && fresh(th) && fresh(th.websocket)
    ensures th.isStreaming && !th.sendEnded && th.audioQueue.taken == 0
    ensures th.websocket.Open() && th.websocket.sentAudio == [] && th.websocket.closeRequests == 0
  {
    app := new C.WAVStreamerApp();
    th := C.StartSession(app);
    var i := 0;
    while i < |captured|
      invariant 0 <= i <= |captured|
      invariant C.Session(app, th) && app.blocks == Images(captured[..i])
      invariant fresh(app) && fresh(app.buffer) && fresh(app.audioQueue) && fresh(th) && fresh(th.websocket)
      invariant th.isStreaming && !th.sendEnded && th.websocket.Open()
      invariant th.websocket.sentAudio == [] && th.websocket.closeRequests == 0
    {
      C.CaptureDuringSession(app, th, captured[i]);
      assert captured[..i + 1][..i] == captured[..i];
      i := i + 1;
    }
    assert captured[..i] == captured;
  }

  /**
   * Start streaming, capture the given blocks, let the send task run for
   * `ticks` passes, then stop: the socket sends the first chunks the capture
   * side queued, one per pass, and exactly one close is scheduled.
   */
  method StreamThenStop(captured: seq<seq<int16>>, ticks: nat) returns (sent: seq<seq<byte>>, closes: nat)
    ensures var queued := C.Capture(Images(captured)).queued;
            sent == queued[..if ticks < |queued| then ticks else |queued|]
    ensures closes == 1
  {
    var app, th := StartAndCapture(captured);
    var failed := C.SendDuringSession(app, th, ticks);
    C.SentIsCaptured(app, th);
    th.Stop();
    sent, closes := th.websocket.sentAudio, th.websocket.closeRequests;
  }

  /**
   * Five seconds captured in one-second blocks reach the server as five
   * one-second frames, and a blank transcript of the whole makes the sentinel
   * the one answer, with nothing left buffered.
   */
  lemma SilenceReachesServer(captured: seq<seq<int16>>, transcribe: seq<byte> -> S.Attempt<string>,
                             translate: string -> S.Attempt<string>)
    requires |captured| == 5 && forall i :: 0 <= i < 5 ==> |captured[i]| == SampleRate
    requires transcribe(Flatten(Images(captured))).Returned?
    requires S.Strip(transcribe(Flatten(Images(captured))).value) == ""
    ensures C.Capture(Images(captured)) == C.Assembly(Images(captured), [])
    ensures S.Run(Frames(Images(captured)), transcribe, translate)
            == S.Handler([], [S.Flush(Flatten(Images(captured)), None, Some(S.NoSpeech))], false)
  {
    var blocks := Images(captured);
    assert forall i :: 0 <= i < |blocks| ==> |blocks[i]| == C.ChunkSize;
    WholeChunkBlocks(blocks);
    var frames := Frames(blocks);
    FramesCarryChunks(blocks);
    assert S.OneSecondFrames(frames);
    assert Flatten(S.Payloads(frames)) == Flatten(blocks);
    S.FiveSecondsOfSilence(frames, transcribe, translate);
  }

  /** A segment answered only by the sentinel shows the sentinel and nothing else. */
  lemma SentinelAloneIsShown(f: S.Flush)
    requires f.reply == Some(S.NoSpeech)
    ensures C.Displayed(Deliver(Replies([f]))) == [S.NoSpeech]
  {
    assert [f][..0] == [];
    assert Replies([f]) == [S.NoSpeech];
    SentinelIsShown();
  }

  /**
   * Five seconds of silence captured in one-second blocks: each block is
   * queued as its own chunk, the server runs the engine once on all 160000
   * bytes, sends the sentinel, translates nothing, and the client shows it.
   */
  lemma FiveSecondsOfSilenceEndToEnd(captured: seq<seq<int16>>, transcribe: seq<byte> -> S.Attempt<string>,
                                     translate: string -> S.Attempt<string>)
    requires |captured| == 5 && forall i :: 0 <= i < 5 ==> |captured[i]| == SampleRate
    requires transcribe(Flatten(Images(captured))).Returned?
    requires S.Strip(transcribe(Flatten(Images(captured))).value) == ""
    ensures C.Capture(Images(captured)) == C.Assembly(Images(captured), [])
    ensures var server := S.Run(Frames(Images(captured)), transcribe, translate);
            server == S.Handler([], [S.Flush(Flatten(Images(captured)), None, Some(S.NoSpeech))], false) &&
            C.Displayed(Deliver(Replies(server.flushes))) == [S.NoSpeech]
  {
    SilenceReachesServer(captured, transcribe, translate);
    SentinelAloneIsShown(S.Flush(Flatten(Images(captured)), None, Some(S.NoSpeech)));
  }

  /**
   * When the device delivers blocks whose size divides one second of audio,
   * every chunk sent is exactly one second, so with engines that do not
   * raise the server transcribes one five-second segment per five chunks
   * and buffers the rest.
   */
  lemma DividingBlocksGiveFiveSecondSegments(app: C.WAVStreamerApp, th: C.WebSocketThread, d: nat,
                                             transcribe: seq<byte> -> S.Attempt<string>,
                                             translate: string -> S.Attempt<string>)
    requires C.Session(app, th)
    requires d > 0 && C.ChunkSize % d == 0
    requires forall i :: 0 <= i < |app.blocks| ==> |app.blocks[i]| == d
    requires S.Reliable(transcribe, translate)
    ensures var sent := th.websocket.sentAudio;
            var server := S.Run(Frames(sent), transcribe, translate);
            !server.ended && |server.flushes| == |sent| / 5 && |server.buffer| == (|sent| % 5) * C.ChunkSize &&
            forall i :: 0 <= i < |server.flushes| ==> |server.flushes[i].segment| == S.Threshold
  {
    var sent := th.websocket.sentAudio;
    C.SentIsCaptured(app, th);
    C.CaptureExactWhenBlocksDivide(app.blocks, d);
    var queued := C.Capture(app.blocks).queued;
    assert forall i :: 0 <= i < |sent| ==> sent[i] == queued[i];
    S.EveryFifthFrameFlushes(Frames(sent), transcribe, translate);
  }

  /**
   * Twelve seconds captured in one-second blocks, with engines that do not
   * raise: twelve one-second chunks, two five-second segments, two result
   * messages in segment order, and two seconds left in the server's buffer.
   */
  lemma TwelveSecondsEndToEnd(captured: seq<seq<int16>>, transcribe: seq<byte> -> S.Attempt<string>,
                              translate: string -> S.Attempt<string>)
    requires |captured| == 12 && forall i :: 0 <= i < 12 ==> |captured[i]| == SampleRate
    requires S.Reliable(transcribe, translate)
    ensures C.Capture(Images(captured)) == C.Assembly(Images(captured), [])
    ensures var server := S.Run(Frames(Images(captured)), transcribe, translate);
            |server.flushes| == 2 && |server.buffer| == 2 * C.ChunkSize &&
            |server.flushes[0].segment| == |server.flushes[1].segment| == S.Threshold &&
            server.flushes[0].reply.Some? && server.flushes[1].reply.Some? &&
            Replies(server.flushes) == [server.flushes[0].reply.value, server.flushes[1].reply.value]
  {
    var blocks := Images(captured);
    WholeChunkBlocks(blocks);
    var frames := Frames(blocks);
    S.TwelveSecondsGiveTwoSegments(frames, transcribe, translate);
    var fs := S.Run(frames, transcribe, translate).flushes;
    assert fs[..1] == [fs[0]] && fs[..1][..0] == [];
  }
}

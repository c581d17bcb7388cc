/**
 * The server's per-connection handler: binary frames are appended to a
 * byte buffer; once it holds five seconds of audio the segment is
 * transcribed, answered with one result message (the translation, or a
 * fixed sentinel when nothing was said) and the buffer is cleared.
 */
module StreamServer {
  import opened Audio

  /** `16000 * 2 * 5`: five seconds of 16 kHz 16-bit mono audio. */
  const Threshold: nat := 16000 * 2 * 5

  lemma ThresholdIsFiveSeconds()
    ensures Threshold == 160000 && Threshold == 5 * SampleRate * BytesPerSample
  {
  }

  /** A websocket frame as the handler's `async for` yields it. */
  datatype Message = Binary(data: seq<byte>) | Text(text: string)

  /** The outcome of a call into an engine: its value, or an exception. */
  datatype Attempt<T> = Returned(value: T) | Raised

  /** The answer to a segment whose transcript is blank. */
  const NoSpeech: string := "No speech detected."

  // ---------------------------------------------------------------------
  // `str.strip()`

  /** The characters `str.isspace()` accepts. */
  predicate IsSpace(c: char)
  {
    c == ' ' || '\t' <= c <= '\r' || '\U{1c}' <= c <= '\U{1f}' || c == '\U{85}' || c == '\U{a0}' ||
    c == '\U{1680}' || '\U{2000}' <= c <= '\U{200a}' || c == '\U{2028}' || c == '\U{2029}' ||
    c == '\U{202f}' || c == '\U{205f}' || c == '\U{3000}'
  }

  /** Drops leading whitespace. */
  function LStrip(s: string): (r: string)
    ensures |r| <= |s| && r == s[|s| - |r|..]
    ensures forall i :: 0 <= i < |s| - |r| ==> IsSpace(s[i])
    ensures r != [] ==> !IsSpace(r[0])
  {
    if s != [] && IsSpace(s[0]) then LStrip(s[1..]) else s
  }

  /** Drops trailing whitespace. */
  function RStrip(s: string): (r: string)
    ensures |r| <= |s| && r == s[..|r|]
    ensures forall i :: |r| <= i < |s| ==> IsSpace(s[i])
    ensures r != [] ==> !IsSpace(r[|r| - 1])
  {
    if s != [] && IsSpace(s[|s| - 1]) then RStrip(s[..|s| - 1]) else s
  }

  /** Whitespace only, or empty: `not s.strip()`. */
  predicate Blank(s: string)
  {
    forall i :: 0 <= i < |s| ==> IsSpace(s[i])
  }

  /** `s.strip()`: empty exactly when `s` is whitespace only. */
  function Strip(s: string): (r: string)
    ensures r == [] <==> Blank(s)
    ensures r != [] ==> !IsSpace(r[0]) && !IsSpace(r[|r| - 1])
  {
    var right := RStrip(s);
    var r := LStrip(right);
    assert r != [] ==> r[|r| - 1] == right[|right| - 1];
    r
  }

  // ---------------------------------------------------------------------
  // One segment

  /**
   * What happened to one segment handed to the speech engine: the text
   * handed to the translation service, if it was called, and the
   * `"transcription"` of the result message sent back, if one was.
   */
  datatype Flush = Flush(segment: seq<byte>, translated: Option<string>, reply: Option<string>)

  /**
   * The processing of a full segment: transcribe it; answer a blank
   * transcript with `NoSpeech` without translating; otherwise translate the
   * transcript and answer with the translation. An exception from either
   * engine ends the processing where it was raised, with nothing sent.
   */
  function Process(segment: seq<byte>, transcribe: seq<byte> -> Attempt<string>,
                   translate: string -> Attempt<string>): (f: Flush)
    ensures f.segment == segment
    ensures f.reply.None? <==>
              transcribe(segment).Raised? || (f.translated.Some? && translate(f.translated.value).Raised?)
  {
    match transcribe(segment)
    case Raised => Flush(segment, None, None)
    case Returned(transcription) =>
      if Blank(transcription) then
        Flush(segment, None, Some(NoSpeech))
      else
        match translate(transcription)
        case Raised => Flush(segment, Some(transcription), None)
        case Returned(translation) => Flush(segment, Some(transcription), Some(translation))
  }

  /** A blank transcript is answered with the sentinel and nothing is translated. */
  lemma SentinelWhenBlank(segment: seq<byte>, transcribe: seq<byte> -> Attempt<string>,
                          translate: string -> Attempt<string>)
    requires transcribe(segment).Returned? && Strip(transcribe(segment).value) == ""
    ensures Process(segment, transcribe, translate).translated == None
    ensures Process(segment, transcribe, translate).reply == Some(NoSpeech)
  {
  }

  /** Any other transcript is translated, once, and its translation is what is sent. */
  lemma TranslatedOtherwise(segment: seq<byte>, transcribe: seq<byte> -> Attempt<string>,
                            translate: string -> Attempt<string>)
    requires transcribe(segment).Returned? && Strip(transcribe(segment).value) != ""
    ensures Process(segment, transcribe, translate).translated == Some(transcribe(segment).value)
    ensures Process(segment, transcribe, translate).reply ==
              if translate(transcribe(segment).value).Raised? then None
              else Some(translate(transcribe(segment).value).value)
  {
  }

  // ---------------------------------------------------------------------
  // The handler, message by message

  /**
   * The handler's state: the buffer, one record per segment handed to the
   * speech engine, and whether an exception has ended it.
   */
  datatype Handler = Handler(buffer: seq<byte>, flushes: seq<Flush>, ended: bool)

  /** The bytes a frame contributes to the buffer. */
  function Payload(m: Message): seq<byte>
  {
    if m.Binary? then m.data else []
  }

  /** One iteration of the handler's `async for`. */
  function Step(h: Handler, m: Message, transcribe: seq<byte> -> Attempt<string>,
                translate: string -> Attempt<string>): Handler
  {
    if h.ended || m.Text? then h
    else
      var grown := h.buffer + m.data;
      if |grown| < Threshold then Handler(grown, h.flushes, false)
      else
        var f := Process(grown, transcribe, translate);
        if f.reply.Some? then Handler([], h.flushes + [f], false)
        else Handler(grown, h.flushes + [f], true)
  }

  /**
   * A frame starts the processing of a segment exactly when it is binary and
   * brings the buffer to at least `Threshold` bytes; that segment is the
   * whole buffer. Text frames, and every frame after an exception, change
   * nothing.
   */
  lemma StepFlushesAtThreshold(h: Handler, m: Message, transcribe: seq<byte> -> Attempt<string>,
                               translate: string -> Attempt<string>)
    ensures var r := Step(h, m, transcribe, translate);
            h.flushes <= r.flushes && |r.flushes| <= |h.flushes| + 1 &&
            (|r.flushes| > |h.flushes| <==> !h.ended && m.Binary? && |h.buffer + m.data| >= Threshold) &&
            (|r.flushes| > |h.flushes| ==> r.flushes[|h.flushes|].segment == h.buffer + Payload(m)) &&
            (h.ended || m.Text? ==> r == h) &&
            (r.ended <==> h.ended || (|r.flushes| > |h.flushes| && r.flushes[|h.flushes|].reply.None?)) &&
            (!r.ended && |r.flushes| > |h.flushes| ==> r.buffer == []) &&
            (!h.ended && |r.flushes| == |h.flushes| ==> r.buffer == h.buffer + Payload(m))
  {
  }

  /** The handler's state after the given frames, from an empty buffer. */
  function Run(ms: seq<Message>, transcribe: seq<byte> -> Attempt<string>,
               translate: string -> Attempt<string>): Handler
  {
    if ms == [] then Handler([], [], false)
    else Step(Run(ms[..|ms| - 1], transcribe, translate), ms[|ms| - 1], transcribe, translate)
  }

  /** The segments handed to the speech engine, in order. */
  function Segments(flushes: seq<Flush>): (segments: seq<seq<byte>>)
    ensures |segments| == |flushes|
    ensures forall i :: 0 <= i < |flushes| ==> segments[i] == flushes[i].segment
  {
    if flushes == [] then [] else Segments(flushes[..|flushes| - 1]) + [flushes[|flushes| - 1].segment]
  }

  /** The binary payloads among the frames, in order. */
  function Payloads(ms: seq<Message>): (ps: seq<seq<byte>>)
    ensures |ps| == |ms|
    ensures forall i :: 0 <= i < |ms| ==> ps[i] == Payload(ms[i])
  {
    if ms == [] then [] else Payloads(ms[..|ms| - 1]) + [Payload(ms[|ms| - 1])]
  }

  /** Text frames are ignored: dropping one changes nothing. */
  lemma {:induction false} TextIgnored(before: seq<Message>, text: string, after: seq<Message>,
                                       transcribe: seq<byte> -> Attempt<string>, translate: string -> Attempt<string>)
    ensures Run(before + [Text(text)] + after, transcribe, translate) == Run(before + after, transcribe, translate)
  {
    var x := before + [Text(text)] + after;
    if after == [] {
      assert x[..|x| - 1] == before && x[|x| - 1] == Text(text);
      assert before + after == before;
    } else {
      var init, last := after[..|after| - 1], after[|after| - 1];
      var y := before + after;
      assert x[..|x| - 1] == before + [Text(text)] + init && x[|x| - 1] == last;
      assert y[..|y| - 1] == before + init && y[|y| - 1] == last;
      TextIgnored(before, text, init, transcribe, translate);
    }
  }

  /** Once an exception has ended the handler, later frames are not handled. */
  lemma {:induction false} EndedIsFinal(ms: seq<Message>, more: seq<Message>,
                                        transcribe: seq<byte> -> Attempt<string>, translate: string -> Attempt<string>)
    requires Run(ms, transcribe, translate).ended
    ensures Run(ms + more, transcribe, translate) == Run(ms, transcribe, translate)
  {
    if more == [] {
      assert ms + more == ms;
    } else {
      assert (ms + more)[..|ms + more| - 1] == ms + more[..|more| - 1];
      EndedIsFinal(ms, more[..|more| - 1], transcribe, translate);
    }
  }

  /** Between frames the buffer holds less than one segment. */
  lemma {:induction false} BufferBelowThreshold(ms: seq<Message>, transcribe: seq<byte> -> Attempt<string>,
                                                translate: string -> Attempt<string>)
    ensures !Run(ms, transcribe, translate).ended ==> |Run(ms, transcribe, translate).buffer| < Threshold
  {
    if ms != [] {
      BufferBelowThreshold(ms[..|ms| - 1], transcribe, translate);
    }
  }

  /** One step keeps the segments and the buffer together equal to what was received. */
  lemma ConservesStep(h: Handler, m: Message, transcribe: seq<byte> -> Attempt<string>,
                      translate: string -> Attempt<string>)
    requires !Step(h, m, transcribe, translate).ended
    ensures var r := Step(h, m, transcribe, translate);
            Flatten(Segments(r.flushes)) + r.buffer == Flatten(Segments(h.flushes)) + h.buffer + Payload(m)
  {
    var r := Step(h, m, transcribe, translate);
    if m.Binary? && |h.buffer + m.data| >= Threshold {
      var grown := h.buffer + m.data;
      assert r.flushes == h.flushes + [Process(grown, transcribe, translate)] && r.buffer == [];
      var segs := Segments(r.flushes);
      assert segs[..|segs| - 1] == Segments(h.flushes);
      assert Flatten(segs) == Flatten(Segments(h.flushes)) + grown;
    }
  }

  /**
   * Nothing is dropped, duplicated or reordered: the segments transcribed
   * followed by the buffer are the binary payloads received.
   */
  lemma {:induction false} Conserves(ms: seq<Message>, transcribe: seq<byte> -> Attempt<string>,
                                     translate: string -> Attempt<string>)
    requires !Run(ms, transcribe, translate).ended
    ensures Flatten(Segments(Run(ms, transcribe, translate).flushes)) + Run(ms, transcribe, translate).buffer
            == Flatten(Payloads(ms))
  {
    if ms != [] {
      var init, m := ms[..|ms| - 1], ms[|ms| - 1];
      var h := Run(init, transcribe, translate);
      assert Run(ms, transcribe, translate) == Step(h, m, transcribe, translate);
      assert !h.ended;
      Conserves(init, transcribe, translate);
      ConservesStep(h, m, transcribe, translate);
      var ps := Payloads(ms);
      assert ps[..|ps| - 1] == Payloads(init);
      assert Flatten(ps) == Flatten(Payloads(init)) + Payload(m);
    }
  }

  /**
   * Every segment recorded was processed by the rule of `Process`, and every
   * one was answered except, when an exception ended the handler, the last.
   */
  ghost predicate AnsweredInOrder(h: Handler, transcribe: seq<byte> -> Attempt<string>,
                                  translate: string -> Attempt<string>)
  {
    (forall i :: 0 <= i < |h.flushes| ==> h.flushes[i] == Process(h.flushes[i].segment, transcribe, translate)) &&
    (forall i :: 0 <= i < |h.flushes| ==> (h.flushes[i].reply.None? <==> h.ended && i == |h.flushes| - 1))
  }

  lemma AnsweredInOrderStep(h: Handler, m: Message, transcribe: seq<byte> -> Attempt<string>,
                            translate: string -> Attempt<string>)
    requires AnsweredInOrder(h, transcribe, translate)
    ensures AnsweredInOrder(Step(h, m, transcribe, translate), transcribe, translate)
  {
    if !h.ended && m.Binary? && |h.buffer + m.data| >= Threshold {
      var f := Process(h.buffer + m.data, transcribe, translate);
      var r := Step(h, m, transcribe, translate);
      assert r.flushes == h.flushes + [f] && (r.ended <==> f.reply.None?);
    }
  }

  /**
   * One result message per segment, in segment order: every segment is
   * processed by the rule of `Process`, and all but the one whose engine
   * raised are answered.
   */
  lemma {:induction false} RepliesFollowSegments(ms: seq<Message>, transcribe: seq<byte> -> Attempt<string>,
                                                 translate: string -> Attempt<string>)
    ensures AnsweredInOrder(Run(ms, transcribe, translate), transcribe, translate)
  {
    if ms != [] {
      RepliesFollowSegments(ms[..|ms| - 1], transcribe, translate);
      AnsweredInOrderStep(Run(ms[..|ms| - 1], transcribe, translate), ms[|ms| - 1], transcribe, translate);
    }
  }

  // ---------------------------------------------------------------------
  // Streams of one-second frames

  /** Engines that never raise. */
  ghost predicate Reliable(transcribe: seq<byte> -> Attempt<string>, translate: string -> Attempt<string>)
  {
    (forall s :: transcribe(s).Returned?) && (forall t :: translate(t).Returned?)
  }

  /** Frames of one second of audio each. */
  predicate OneSecondFrames(ms: seq<Message>)
  {
    forall i :: 0 <= i < |ms| ==> ms[i].Binary? && |ms[i].data| == 32000
  }

  /**
   * With one-second frames and engines that do not raise, every fifth frame
   * completes a five-second segment and the rest stays buffered.
   */
  lemma {:induction false} EveryFifthFrameFlushes(ms: seq<Message>, transcribe: seq<byte> -> Attempt<string>,
                                                  translate: string -> Attempt<string>)
    requires Reliable(transcribe, translate) && OneSecondFrames(ms)
    ensures var h := Run(ms, transcribe, translate);
            !h.ended && |h.flushes| == |ms| / 5 && |h.buffer| == (|ms| % 5) * 32000 &&
            forall i :: 0 <= i < |h.flushes| ==> |h.flushes[i].segment| == Threshold
  {
    if ms != [] {
      var n := |ms| - 1;
      var h := Run(ms[..n], transcribe, translate);
      EveryFifthFrameFlushes(ms[..n], transcribe, translate);
      var k := n % 5;
      assert n == (n / 5) * 5 + k;
      assert |h.buffer + ms[n].data| == (k + 1) * 32000;
      if k == 4 {
        DivModUnique(|ms|, 5, n / 5 + 1, 0);
      } else {
        DivModUnique(|ms|, 5, n / 5, k + 1);
      }
    }
  }

  /** Twelve one-second frames: two five-second segments, each answered, two seconds left. */
  lemma TwelveSecondsGiveTwoSegments(ms: seq<Message>, transcribe: seq<byte> -> Attempt<string>,
                                     translate: string -> Attempt<string>)
    requires Reliable(transcribe, translate) && OneSecondFrames(ms) && |ms| == 12
    ensures var h := Run(ms, transcribe, translate);
            |h.flushes| == 2 && |h.buffer| == 64000 &&
            |h.flushes[0].segment| == |h.flushes[1].segment| == Threshold &&
            h.flushes[0].reply.Some? && h.flushes[1].reply.Some?
  {
    EveryFifthFrameFlushes(ms, transcribe, translate);
    RepliesFollowSegments(ms, transcribe, translate);
  }

  /** Fewer than five one-second frames are only buffered: nothing is transcribed or sent. */
  lemma {:induction false} BuffersUntilFiveSeconds(ms: seq<Message>, transcribe: seq<byte> -> Attempt<string>,
                                                   translate: string -> Attempt<string>)
    requires OneSecondFrames(ms) && |ms| < 5
    ensures Run(ms, transcribe, translate) == Handler(Flatten(Payloads(ms)), [], false)
    ensures |Flatten(Payloads(ms))| == 32000 * |ms|
  {
    if ms != [] {
      var init := ms[..|ms| - 1];
      BuffersUntilFiveSeconds(init, transcribe, translate);
      assert Payloads(ms)[..|ms| - 1] == Payloads(init);
    }
  }

  /**
   * A frame that completes a segment whose transcript is blank: the segment
   * is answered with the sentinel, nothing is translated, the buffer empties.
   */
  lemma SilentSegmentStep(h: Handler, m: Message, transcribe: seq<byte> -> Attempt<string>,
                          translate: string -> Attempt<string>)
    requires !h.ended && m.Binary? && |h.buffer + m.data| >= Threshold
    requires transcribe(h.buffer + m.data).Returned? && Strip(transcribe(h.buffer + m.data).value) == ""
    ensures Step(h, m, transcribe, translate) == Handler([], h.flushes + [Flush(h.buffer + m.data, None, Some(NoSpeech))], false)
  {
    SentinelWhenBlank(h.buffer + m.data, transcribe, translate);
  }

  /**
   * Five seconds of audio in one-second frames: the engine runs once, on all
   * 160000 bytes; given a blank transcript (silence) the sentinel is the one
   * reply, nothing is translated, and the buffer is empty again.
   */
  lemma FiveSecondsOfSilence(ms: seq<Message>, transcribe: seq<byte> -> Attempt<string>,
                             translate: string -> Attempt<string>)
    requires OneSecondFrames(ms) && |ms| == 5
    requires transcribe(Flatten(Payloads(ms))).Returned? && Strip(transcribe(Flatten(Payloads(ms))).value) == ""
    ensures |Flatten(Payloads(ms))| == Threshold
    ensures Run(ms, transcribe, translate) == Handler([], [Flush(Flatten(Payloads(ms)), None, Some(NoSpeech))], false)
  {
    LastFrame(ms, transcribe, translate);
    FirstFourBuffered(ms, transcribe, translate);
    SilentSegmentStep(Run(ms[..4], transcribe, translate), ms[4], transcribe, translate);
  }

  /** Of five one-second frames, the first four are only buffered and the fifth is one second. */
  lemma FirstFourBuffered(ms: seq<Message>, transcribe: seq<byte> -> Attempt<string>,
                          translate: string -> Attempt<string>)
    requires OneSecondFrames(ms) && |ms| == 5
    ensures ms[..|ms| - 1] == ms[..4]
    ensures Run(ms[..4], transcribe, translate) == Handler(Flatten(Payloads(ms[..4])), [], false)
    ensures |Flatten(Payloads(ms[..4]))| == 4 * 32000 && ms[4].Binary? && |ms[4].data| == 32000
  {
    BuffersUntilFiveSeconds(ms[..4], transcribe, translate);
  }

  /** The last frame of a run is one more step, and its payload ends the bytes received. */
  lemma LastFrame(ms: seq<Message>, transcribe: seq<byte> -> Attempt<string>,
                  translate: string -> Attempt<string>)
    requires ms != []
    ensures Run(ms, transcribe, translate)
            == Step(Run(ms[..|ms| - 1], transcribe, translate), ms[|ms| - 1], transcribe, translate)
    ensures Flatten(Payloads(ms)) == Flatten(Payloads(ms[..|ms| - 1])) + Payload(ms[|ms| - 1])
  {
    assert Payloads(ms)[..|ms| - 1] == Payloads(ms[..|ms| - 1]);
  }

  // ---------------------------------------------------------------------
  // The handler as written

  /**
   * The processing of a full buffer as written: transcribe, then either the
   * sentinel for a blank transcript or the translation.
   */
  method ProcessSegment(buffer: seq<byte>, transcribe: seq<byte> -> Attempt<string>,
                        translate: string -> Attempt<string>) returns (flush: Flush)
    ensures flush == Process(buffer, transcribe, translate)
  {
    match transcribe(buffer) {
      case Raised =>
        flush := Flush(buffer, None, None);
      case Returned(transcription) =>
        if Strip(transcription) == "" {
          flush := Flush(buffer, None, Some(NoSpeech));
        } else {
          match translate(transcription) {
            case Raised =>
              flush := Flush(buffer, Some(transcription), None);
            case Returned(translation) =>
              flush := Flush(buffer, Some(transcription), Some(translation));
          }
        }
    }
  }

  /**
   * `transcribe_audio` over the frames of one connection: returns what
   * happened to each segment, in order, and whether an exception ended the
   * handler.
   */
  method TranscribeAudio(messages: seq<Message>, transcribe: seq<byte> -> Attempt<string>,
                         translate: string -> Attempt<string>) returns (flushes: seq<Flush>, raised: bool)
    ensures flushes == Run(messages, transcribe, translate).flushes
    ensures raised == Run(messages, transcribe, translate).ended
  {
    var buffer: seq<byte> := [];
    flushes, raised := [], false;
    var i := 0;
    while i < |messages|
      invariant 0 <= i <= |messages|
      invariant Run(messages[..i], transcribe, translate) == Handler(buffer, flushes, false)
    {
      assert messages[..i + 1][..i] == messages[..i];
      var message := messages[i];
      if message.Binary? {
        buffer := buffer + message.data;
        if |buffer| >= Threshold {
          var flush := ProcessSegment(buffer, transcribe, translate);
          flushes := flushes + [flush];
          if flush.reply.None? {
            raised := true;
            EndedIsFinal(messages[..i + 1], messages[i + 1..], transcribe, translate);
            assert messages[..i + 1] + messages[i + 1..] == messages;
            return;
          }
          buffer := [];
        }
      }
      i := i + 1;
    }
    assert messages[..i] == messages;
  }
}

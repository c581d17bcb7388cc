# TransApp audio streaming, modelled in Dafny

TransApp streams speech from a microphone to a server over a websocket. The
server transcribes the speech, translates it, and sends the text back. This
project models the buffering discipline at both ends and proves it.

- **Client** (`src/translate_app_stream.py`):
  - The capture callback appends each block of 16-bit mono samples to a
    `bytearray`.
  - Once that buffer holds at least `chunk_size` = 32000 bytes (one second),
    the whole buffer is put on a `queue.Queue`.
  - The websocket thread's send coroutine takes chunks off the queue and sends
    them as binary frames.
  - Its receive coroutine parses each text frame as JSON and shows the
    `"transcription"` entry when it is a non-empty string.
  - `stop` clears the streaming flag and schedules a close of a connection
    that is not yet closed, even one in its closing handshake.
- **Server** (`src/whisper_server_stream.py`): the handler `transcribe_audio`
  keeps one buffer per connection.
  - Binary frames are appended to the buffer.
  - Once the buffer holds at least 160000 bytes (five seconds), the whole
    buffer is transcribed.
  - A blank transcript is answered with `"No speech detected."`. Any other
    transcript is translated, and the translation is sent back.
  - The buffer is then cleared.
  - Text frames are ignored.
  - An exception ends the handler without a reply.

The project has four modules:

| file | module | contents |
|---|---|---|
| `audio.dfy` | `Audio` | bytes, `int16` samples and their little-endian byte image, with round trips; `Flatten`, the concatenation of chunks |
| `stream_client.dfy` | `StreamClient` | the capture callback as a pure fold (`Callback`, `Capture`) with its lemmas; the client's objects as classes (`ByteArray`, `AudioQueue`, `ClientSocket`, `WebSocketThread`, `WAVStreamerApp`); the receive decision (`Interpret`, `Displayed`) |
| `stream_server.dfy` | `StreamServer` | `str.strip`; the processing of one segment (`Process`); the handler as a fold over frames (`Step`, `Run`) with its lemmas; the handler as written (`TranscribeAudio`, a loop over a local buffer) |
| `pipeline.dfy` | `Pipeline` | both ends connected: chunks sent become binary frames, and replies become inbound JSON objects; end-to-end conservation; the five-second-silence and twelve-second scenarios |

The speech and translation engines are function-typed parameters. Each call
returns `Returned(value)` or `Raised`.

### Behaviour worth knowing

The model follows the code in each of these places.

- **Chunk size.** The comments at `src/translate_app_stream.py:102` and
  `:104` speak of 1-second chunks.
  - The callback queues the whole buffer once it reaches `chunk_size`, and
    then starts a fresh empty one (`src/translate_app_stream.py:201-204`).
  - So a chunk can be longer than one second. `ChunkMayExceedChunkSize`
    shows two 20000-byte blocks becoming one 40000-byte chunk.
  - Chunks are exactly one second when the device's block size divides
    32000 bytes (`CaptureExactWhenBlocksDivide`). Some mixed block sizes give
    exact chunks too; alternating 12000- and 20000-byte blocks do.
  - The stream is opened without a `blocksize`
    (`src/translate_app_stream.py:170`), so the device chooses it.
- **Engine failures.** An exception raised while a segment is processed
  leaves the `async for` through the handler's `except` clauses
  (`src/whisper_server_stream.py:75-78`).
  - No reply is sent for that segment, and no later frame of the connection
    is handled (`EndedIsFinal`).
- **Stop.** `stop` schedules a close on every call made while the socket is
  not yet closed, even during the closing handshake
  (`src/translate_app_stream.py:89-93`). So two calls made before
  the first close runs schedule two closes (`StreamClient.WebSocketThread.Stop`).

## Model

| member | source | states |
|---|---|---|
| Audio.ToBytes | src/translate_app_stream.py:199 | `indata.tobytes()` of a block of n samples is 2n bytes |
| Audio.FromBytes | src/whisper_server_stream.py:38-42 | an even-length byte string, as the 16-bit mono frames the WAV file holds, decodes to half as many samples |
| Audio.SampleRoundTrip | src/whisper_server_stream.py:38-42 | a sample read back from its two-byte little-endian image is the same sample |
| Audio.BytesRoundTrip | src/whisper_server_stream.py:38-42 | every two bytes are the image of the sample read from them |
| Audio.FromToBytes | src/whisper_server_stream.py:38-42 | the bytes of a block of samples, decoded as the 16-bit mono frames the WAV file holds, are those samples |
| Audio.ToFromBytes | src/whisper_server_stream.py:38-42 | every even-length byte string is the image of the samples it decodes to |
| Audio.ToBytesAppend | src/translate_app_stream.py:199 | the image of two runs of samples is the image of the first followed by the image of the second |
| StreamClient.ChunkSizeIsOneSecond | src/translate_app_stream.py:101-104 | `chunk_size` is 32000 bytes, one second at 16 kHz and 2 bytes per sample |
| StreamClient.Callback | src/translate_app_stream.py:199-204 | one run of `audio_callback` on the queued chunks and the buffer; its meaning is stated by `CallbackSpec` |
| StreamClient.Capture | src/translate_app_stream.py:191-204 | one callback per block, in arrival order; its meaning is stated by `CaptureConserves`, `CaptureResidualBound` and the other `Capture` lemmas, and `WAVStreamerApp.AudioCallback` keeps the queue equal to it |
| StreamClient.CallbackSpec | src/translate_app_stream.py:199-204 | one callback loses no byte and duplicates none; it queues at most one chunk, and does so exactly when the grown buffer reaches `chunk_size`; that chunk is the whole grown buffer, the buffer then empties, and earlier chunks are untouched |
| StreamClient.CaptureConserves | src/translate_app_stream.py:199-204 | after any sequence of blocks, the queued chunks followed by the buffer are exactly the captured bytes, in order |
| StreamClient.CaptureResidualBound | src/translate_app_stream.py:201-204 | between callbacks the buffer is shorter than `chunk_size` |
| StreamClient.CaptureAtMostOnePerBlock | src/translate_app_stream.py:201-203 | later blocks only append to the queued chunks, at most one chunk per block |
| StreamClient.CaptureChunksAtLeastChunkSize | src/translate_app_stream.py:201-203 | every queued chunk holds at least `chunk_size` bytes |
| StreamClient.CaptureChunksBounded | src/translate_app_stream.py:199-203 | every queued chunk is shorter than `chunk_size` plus the largest block |
| StreamClient.ExactStep | src/translate_app_stream.py:199-204 | a block whose size divides `chunk_size` keeps every chunk exactly `chunk_size` bytes and the buffer a whole number of blocks |
| StreamClient.CaptureExactWhenBlocksDivide | src/translate_app_stream.py:199-204 | with blocks of one size dividing `chunk_size`, every queued chunk is exactly one second |
| StreamClient.ChunkMayExceedChunkSize | src/translate_app_stream.py:201-203 | two 20000-byte blocks are queued as one 40000-byte chunk: the whole buffer is queued, not a `chunk_size` cut |
| StreamClient.ByteArray.constructor | src/translate_app_stream.py:204 | `bytearray()` is empty |
| StreamClient.ByteArray.Extend | src/translate_app_stream.py:199 | `extend` appends the data in place |
| StreamClient.AudioQueue.constructor | src/translate_app_stream.py:105 | a new queue is empty and nothing has been put or got |
| StreamClient.AudioQueue.Put | src/translate_app_stream.py:203 | `put` appends the object itself to the queue and to the history of objects put, with its current bytes logged; the queue keeps its invariant that the items are the objects put and not yet got |
| StreamClient.AudioQueue.Empty | src/translate_app_stream.py:62 | `empty()` holds exactly when no item is queued |
| StreamClient.AudioQueue.Get | src/translate_app_stream.py:63 | `get` removes and returns the oldest item, which is the next object put and whose bytes are the next logged chunk |
| StreamClient.ClientSocket.constructor | src/translate_app_stream.py:49 | a fresh connection is open, with no closing handshake begun, nothing sent and no close scheduled |
| StreamClient.ClientSocket.Send | src/translate_app_stream.py:65 | a send delivers the message exactly when the connection is open; once the closing handshake has begun, even while `closed` is still false, or once the socket is closed, it delivers nothing and raises |
| StreamClient.ClientSocket.PeerCloses | src/whisper_server_stream.py:75-78 | when the server's handler returns, the server begins the closing handshake: the client's socket is no longer open, but not yet closed, and nothing else changes |
| StreamClient.ClientSocket.Close | src/translate_app_stream.py:93 | a close that runs closes the socket, which is then not open; what was sent, the close count and whether the handshake was begun from the other end are unchanged |
| StreamClient.TranscriptionOf | src/translate_app_stream.py:78 | a missing `"transcription"` key reads as `""` |
| StreamClient.Truthy | src/translate_app_stream.py:79 | the `if transcription_text:` test: a string is truthy when non-empty, any other value by its own truthiness; its use is stated by `Interpret` and `MissingKeyIsEmpty` |
| StreamClient.Interpret | src/translate_app_stream.py:76-85 | a message is shown exactly when it is a JSON object whose entry is a non-empty string, and the text shown is that entry; a parse failure is logged; a non-object or a truthy non-string entry raises out of the loop |
| StreamClient.Displayed | src/translate_app_stream.py:69-87 | the texts shown for a stream of messages are non-empty, at most one per message |
| StreamClient.MissingKeyIsEmpty | src/translate_app_stream.py:78-83 | a missing key and an empty transcription are both reported as "no transcription" |
| StreamClient.MalformedIsSkipped | src/translate_app_stream.py:84-85 | an unparsable message changes nothing in what is shown around it |
| StreamClient.WebSocketThread.constructor | src/translate_app_stream.py:30-36 | a new thread is not streaming, has no connection, and shares the given queue |
| StreamClient.WebSocketThread.Connected | src/translate_app_stream.py:49-52 | on connection the socket is recorded and streaming starts, with sending counted from the queue's current position |
| StreamClient.WebSocketThread.SendStep | src/translate_app_stream.py:61-67 | one pass sends the oldest queued chunk, or only sleeps when the queue is empty; a pass fails exactly when there was a chunk to take and the connection was no longer open (closing or closed), and it has still taken its chunk; the socket's state and the objects put are unchanged |
| StreamClient.WebSocketThread.SendAudio | src/translate_app_stream.py:60-67 | the chunks sent are exactly the chunks got since connecting, in order, each once; it raises exactly when it is streaming, runs at least one pass, a chunk is queued and the connection is no longer open (closing or closed); the chunk that send took is lost and the coroutine ends; with no failure, every chunk that was queued is sent, up to the number of passes; when not streaming nothing happens; the socket's state and the objects put are unchanged |
| StreamClient.WebSocketThread.SendTask | src/translate_app_stream.py:54 | the send task runs the send coroutine and records whether it ended by an exception; the thread keeps its invariant, so what was sent is still the chunks got since connecting; it ends by an exception exactly when it is streaming, runs at least one pass, a chunk is queued and the connection is no longer open, and without one, while streaming, it has taken one chunk per pass up to the chunks queued |
| StreamClient.WebSocketThread.ReceiveTranscription | src/translate_app_stream.py:69-87 | while streaming, the texts shown are `Displayed` of the messages received; the loop ends by an exception exactly when some message raises, and otherwise when the connection closes |
| StreamClient.WebSocketThread.Stop | src/translate_app_stream.py:89-93 | streaming stops, and a close is scheduled exactly when there is a connection that is not yet closed, a closing one included; the connection's state, what was sent, where sending started and whether the send task ended are unchanged, so a repeated stop only clears the flag again and schedules another close |
| StreamClient.WAVStreamerApp.constructor | src/translate_app_stream.py:101-105 | a new application has a new, empty buffer object, a new, empty queue and no captured blocks |
| StreamClient.WAVStreamerApp.AudioCallback | src/translate_app_stream.py:191-204 | appends the block's bytes; once the buffer reaches `chunk_size`, the buffer object itself is queued and a fresh empty buffer replaces it; queued chunks are never altered, and the queue's history stays `Capture` of the blocks |
| StreamClient.SentIsCaptured | src/translate_app_stream.py:60-67 | in a session whose thread was connected to the application's queue, the chunks sent are a prefix of `Capture` of the blocks captured, and while the send task runs they are exactly the chunks got from the queue |
| StreamClient.StartSession | src/translate_app_stream.py:164-177 | starting streaming on an application with nothing yet got from its queue gives a session over a new thread and a new, open connection, with nothing sent and no close scheduled |
| StreamClient.CaptureDuringSession | src/translate_app_stream.py:191-204 | a capture callback during a session keeps the session's invariant, records the block, keeps the buffer object or installs a new one, and leaves what was sent unchanged |
| StreamClient.SendDuringSession | src/translate_app_stream.py:54-67 | running the send task during a session keeps the session's invariant and the captured blocks; it fails exactly when streaming, with at least one pass, a chunk queued and a connection no longer open, and otherwise, while streaming, takes one chunk per pass up to the chunks queued |
| StreamServer.ThresholdIsFiveSeconds | src/whisper_server_stream.py:33 | the threshold is 160000 bytes, five seconds at 16 kHz and 2 bytes per sample |
| StreamServer.Blank | src/whisper_server_stream.py:51 | `not transcription.strip()`: the text is whitespace only; `Strip` is proved empty exactly when it holds |
| StreamServer.LStrip | src/whisper_server_stream.py:51 | removes exactly the leading whitespace |
| StreamServer.RStrip | src/whisper_server_stream.py:51 | removes exactly the trailing whitespace |
| StreamServer.Strip | src/whisper_server_stream.py:51 | `strip()` is empty exactly when the text is whitespace only; otherwise it neither starts nor ends with whitespace |
| StreamServer.Process | src/whisper_server_stream.py:47-63 | a segment gets no reply exactly when the speech engine raises, or when the translator is called and raises |
| StreamServer.SentinelWhenBlank | src/whisper_server_stream.py:51-55 | a blank transcript is answered with `"No speech detected."`, and the translator is not called |
| StreamServer.TranslatedOtherwise | src/whisper_server_stream.py:56-63 | any other transcript is translated, once, and the reply is the translation, or no reply when the translator raises |
| StreamServer.Step | src/whisper_server_stream.py:28-73 | one iteration of the `async for`; its meaning is stated by `StepFlushesAtThreshold`, `ConservesStep` and `AnsweredInOrderStep` |
| StreamServer.Run | src/whisper_server_stream.py:27-78 | the handler over a sequence of frames from an empty buffer; its meaning is stated by `Conserves`, `RepliesFollowSegments`, `EndedIsFinal` and `TextIgnored`, and `TranscribeAudio` is proved to agree with it |
| StreamServer.StepFlushesAtThreshold | src/whisper_server_stream.py:27-73 | a frame starts a segment exactly when it is binary and brings the buffer to at least 160000 bytes; that segment is the whole buffer, and the buffer is empty afterwards; text frames, and frames after an exception, change nothing |
| StreamServer.TextIgnored | src/whisper_server_stream.py:72-73 | dropping a text frame from any stream leaves the handler's outcome unchanged |
| StreamServer.EndedIsFinal | src/whisper_server_stream.py:75-78 | once an exception has ended the handler, later frames change nothing |
| StreamServer.BufferBelowThreshold | src/whisper_server_stream.py:30-67 | between frames the buffer holds less than five seconds |
| StreamServer.ConservesStep | src/whisper_server_stream.py:30-67 | one frame keeps the segments and buffer together equal to what was received |
| StreamServer.Conserves | src/whisper_server_stream.py:27-67 | the segments transcribed, followed by the buffer, are exactly the binary payloads received, in order |
| StreamServer.AnsweredInOrderStep | src/whisper_server_stream.py:47-67 | one frame keeps every segment processed by the rule of `Process`, with every one answered except the one that raised |
| StreamServer.RepliesFollowSegments | src/whisper_server_stream.py:47-78 | one reply per segment, in segment order; the only unanswered segment is the last one, when an exception ended the handler |
| StreamServer.EveryFifthFrameFlushes | src/whisper_server_stream.py:27-67 | with one-second frames and engines that do not raise, n frames give n/5 five-second segments and leave (n mod 5) seconds buffered |
| StreamServer.TwelveSecondsGiveTwoSegments | src/whisper_server_stream.py:27-67 | twelve one-second frames give two five-second segments, both answered, with two seconds left |
| StreamServer.BuffersUntilFiveSeconds | src/whisper_server_stream.py:30-33 | fewer than five one-second frames are only buffered |
| StreamServer.SilentSegmentStep | src/whisper_server_stream.py:30-67 | proof step of `FiveSecondsOfSilence`: a frame that completes a segment with a blank transcript empties the buffer and records the sentinel as that segment's reply |
| StreamServer.FirstFourBuffered | src/whisper_server_stream.py:30-33 | proof step of `FiveSecondsOfSilence`: of five one-second frames the first four are only buffered, 128000 bytes |
| StreamServer.LastFrame | src/whisper_server_stream.py:27-30 | proof step of `FiveSecondsOfSilence`: the last frame received is one more step, and its payload ends the bytes received |
| StreamServer.FiveSecondsOfSilence | src/whisper_server_stream.py:27-67 | five one-second frames with a blank transcript: the engine runs once on all 160000 bytes, the only reply is the sentinel, nothing is translated, and the buffer is empty again |
| StreamServer.ProcessSegment | src/whisper_server_stream.py:47-63 | the code's processing of a full buffer agrees with `Process` |
| StreamServer.TranscribeAudio | src/whisper_server_stream.py:20-78 | the handler's loop produces exactly the segment records of `Run`, and stops exactly when `Run` says an exception ended it |
| Pipeline.Frames | src/translate_app_stream.py:65 | each chunk sent arrives as one binary frame, in order |
| Pipeline.FramesCarryChunks | src/whisper_server_stream.py:28-30 | the payloads the server appends are exactly the chunks sent |
| Pipeline.Replies | src/whisper_server_stream.py:54-63 | at most one result message per segment |
| Pipeline.RepliesOfAnswered | src/whisper_server_stream.py:51-63 | when every segment was answered, there is one result message per segment, and the i-th is the i-th segment's reply |
| Pipeline.ShownInSegmentOrder | src/whisper_server_stream.py:27-78 | while the handler has not ended, the i-th result message is `Process` of the i-th segment, and the client shows exactly the non-empty ones, in that order |
| Pipeline.Deliver | src/translate_app_stream.py:77-78 | each result message parses as an object whose `"transcription"` entry is the text sent |
| Pipeline.RepliesDisplayed | src/translate_app_stream.py:76-85 | the client shows every result text the server sends, in order, except empty ones; none of them ends the receive loop |
| Pipeline.SentinelIsShown | src/whisper_server_stream.py:54 | the sentinel reply is always shown |
| Pipeline.ServerHoldsWhatWasSent | src/whisper_server_stream.py:27-67 | the server's segments and buffer are exactly the chunks sent to it |
| Pipeline.ClientHoldsTheRest | src/translate_app_stream.py:60-67 | the chunks sent, the chunks still queued and the client's buffer are exactly the captured audio |
| Pipeline.StartAndCapture | src/translate_app_stream.py:164-204 | starting streaming on a new application and capturing blocks gives a session holding exactly those blocks, over a new open connection, with nothing sent yet |
| Pipeline.StreamThenStop | src/translate_app_stream.py:164-204 | start, capture, run the send task and stop, as `start_streaming`, `audio_callback`, `send_audio` and `stop_streaming` do: the socket has sent exactly the first chunks `Capture` queued, one per pass, and one close is scheduled |
| Pipeline.ConservationForSentPrefix | src/translate_app_stream.py:191-204 | for any prefix of the queued chunks sent to a server that has not ended: captured audio = server segments + server buffer + unsent chunks + client buffer, in order |
| Pipeline.EndToEndConservation | src/translate_app_stream.py:191-204 | in a session, with the chunks the thread's socket actually sent: captured audio = server segments + server buffer + chunks queued but not delivered + client buffer, in order: nothing lost, duplicated or reordered end to end |
| Pipeline.WholeChunkBlocks | src/translate_app_stream.py:201-204 | blocks of exactly one second are each queued as their own chunk |
| Pipeline.Images | src/translate_app_stream.py:199 | each captured block becomes its byte image |
| Pipeline.CapturedSamplesDecode | src/whisper_server_stream.py:38-42 | the bytes of any run of captured blocks, decoded as the WAV file's 16-bit mono frames, are exactly the captured samples, block after block |
| Pipeline.SilenceReachesServer | src/whisper_server_stream.py:27-67 | five one-second blocks arrive as five one-second frames, and a blank transcript of all of them is answered by the sentinel alone, with the buffer emptied |
| Pipeline.SentinelAloneIsShown | src/translate_app_stream.py:76-81 | a segment answered by the sentinel shows the sentinel and nothing else |
| Pipeline.FiveSecondsOfSilenceEndToEnd | src/whisper_server_stream.py:27-67 | five seconds of silence in one-second blocks: five chunks, one transcription of all 160000 bytes, no translation, and the client shows the sentinel |
| Pipeline.TwelveSecondsEndToEnd | src/whisper_server_stream.py:27-67 | twelve seconds in one-second blocks: two five-second segments, two replies in order, two seconds left on the server |
| Pipeline.DividingBlocksGiveFiveSecondSegments | src/translate_app_stream.py:199-204 | in a session whose blocks all divide one second, with engines that do not raise, the server makes one five-second segment per five chunks the socket sent and buffers the rest |

## Left out

- The Qt user interface, the window, the button and the text area are not part of this model. What the receive loop emits is modelled as the list of texts shown.
- Audio device I/O is left out. The device's blocks are the inputs of `Capture` and `AudioCallback`. The `status` logging and the amplitude printout have no effect on the buffers.
- All `print` logging is left out.
- The WAV temporary file (`wave.open`, `os.remove`) is left out. The engine receives the segment's bytes directly. The file holds those bytes as 16 kHz 16-bit mono frames, which `FromBytes` models.
- The speech engine and the translator are function parameters. Model loading and the API key are left out.
- `json.dumps` and `json.loads` are modelled only as far as the handler looks at the result: malformed, an object with an optional entry, or another JSON value. A non-string entry is abstracted to its truthiness.
- Concurrency is not modelled. The capture thread, the websocket thread's event loop and the two coroutines run as separate operations on the shared objects. `ReceiveTranscription` reads `is_streaming` as fixed for its duration, so a `stop` from another thread during the loop is not modelled.
- StreamClient.WebSocketThread.SendAudio: runs for a given number of passes (`ticks`), because the source's loop runs until another thread clears the flag. The 0.1-second sleep is one pass that sends nothing.
- StreamClient.WebSocketThread.Stop: the race where `stop` runs before the connection exists, and `self.websocket` is still `None`, is modelled only as "no close scheduled".
- The connection's own lifecycle is left out: connecting (`stream_audio`, `run`), the `ConnectionClosed` exception raised by `recv`, and the server's `websockets.serve` and `main`. A failed `send` on the server, for example to a closed client, is not modelled. In the code it would leave the handler through the same `except` clauses as an engine failure.
- StreamClient.ClientSocket.PeerCloses: when the server begins closing is a separate event on the socket. The model does not tie it to the moment the server's handler in `StreamServer` ends, because the two ends run concurrently.
- Pipeline.StreamThenStop: runs the callbacks before the send task, one phase after the other. The interleavings that threads produce are not modelled.
- Sessions after the first: the application's queue and buffer outlive a session (`src/translate_app_stream.py:103-105`), and each start makes a new thread on the same queue (`src/translate_app_stream.py:175`). On a later connection, sending starts from where the earlier one stopped. `Connected` records that position, but `Session`, and with it `SentIsCaptured`, `EndToEndConservation` and `DividingBlocksGiveFiveSecondSegments`, covers only a first connection, where nothing had been got before.
- `src/translate_app.py` and `src/whisper_server.py`, the non-streaming variants, are not part of this model.

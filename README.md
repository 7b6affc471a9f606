# onvif-bot: capture buffer, clip timestamps and motion decision

onvif-bot watches ONVIF cameras for motion events and posts a short video to a
Telegram channel. This model covers three parts of `onvif-bot.py`:

- **The capture buffer.** `VideoStream.stream_capture` demuxes the RTSP
  stream. It appends every packet that has a decode timestamp to a `deque`
  with `maxlen=250`, which drops the oldest packet once it is full.
  - Modelled by the modules `Deque` (the bounded append, and the window of
    the last `maxlen` packets it keeps) and `Stream` (the classes `Packet`
    and `VideoStream` with `Ingest`).
- **The snapshot.** After the post-trigger wait, `VideoStream.snapshot` walks
  the buffer and skips everything before the first keyframe. That keyframe's
  pts becomes the reference `pts_ref`. From it on, every packet's timestamps
  are rewritten in place (`pts -= pts_ref`, `dts = pts`) and the packet is
  muxed. An empty buffer sends the offline text instead.
  - Modelled by `Stream.VideoStream.Snapshot` and its loop `RebaseAndMux`,
    which work on the buffered packet objects.
  - They are specified by the pure module `Clip` (the first keyframe, the
    rewritten buffer and the muxed clip) and its lemmas.
  - The code zeroes the keyframe and then also subtracts `pts_ref` from it.
    So the clip starts at `-pts_ref`, not at 0. The model keeps this, and
    `Clip.MuxedTimestamps` / `Clip.MuxedMonotone` state it.
  - A buffer with no keyframe still sends a video, with no packets muxed.
- **The motion decision.** In `CameraInstance.run`, each pulled batch assigns
  every message's first SimpleItem value to the local `mess_tree` in turn. A
  clip is requested when `mess_tree == "true"`.
  - The local survives between loop iterations, so a batch that assigns
    nothing keeps the previous value. Before the first assignment it is
    unbound, and reading it raises an error that the loop logs.
  - A message whose value cannot be read also raises. The assignments made
    before it stay in effect.
  - Modelled by the module `Motion`: `ReadBatch`, `Poll` and `Run`, specified
    by `Carried` and `Decide`.

Facts about the code that the model keeps:
- Clip timestamps are the original pts minus the first keyframe's pts
  (onvif-bot.py:94-101).
- The capacity is the constant 250 (onvif-bot.py:39). The FIXME at
  onvif-bot.py:40 says it should depend on the frame rate.
- Appending to a full buffer always evicts the oldest packet, even while a
  snapshot is pending (onvif-bot.py:66).
- A buffer without a keyframe still sends an empty video
  (onvif-bot.py:104-108).

## Model

| member | source | states |
|---|---|---|
| Deque.Append | onvif-bot.py:38-40 | appending to a deque bounded by `maxlen` keeps the longest suffix of the old contents plus the new element that fits: one longer when not full, `maxlen` long (oldest dropped) when full |
| Deque.AppendKeepsWindow | onvif-bot.py:38-40 | a deque fed one element at a time holds exactly the last `maxlen` elements it was given, in arrival order, and never more than `maxlen` |
| Stream.Packet.constructor | onvif-bot.py:61 | a demuxed packet carries its keyframe flag and its pts and dts as given |
| Stream.VideoStream.Valid | onvif-bot.py:38-40 | the buffer invariant implies that the buffer never holds more than 250 packets |
| Stream.VideoStream.constructor | onvif-bot.py:37-40 | a new stream starts with an empty buffer and no packet accepted |
| Stream.VideoStream.Ingest | onvif-bot.py:61-66 | a packet without dts leaves the buffer unchanged; any other is appended, and the buffer is then the last 250 accepted packets; below capacity it grows by the packet, at capacity the oldest is evicted |
| Stream.VideoStream.Snapshot | onvif-bot.py:88-114 | an empty buffer sends the offline text; otherwise the buffered packets are left rewritten in place as `Clip.Rewritten` says, the video sent is `Clip.Muxed` of the packets as they were, and the buffer keeps the same packets |
| Stream.VideoStream.RebaseAndMux | onvif-bot.py:89-103 | packets before the first keyframe keep their values and are not muxed; from the keyframe on, each packet ends up rebased on the keyframe's pts, and the muxed sequence is those packets in buffer order |
| Clip.FirstKey | onvif-bot.py:91-99 | the index found is a keyframe with no keyframe before it; none is found exactly when the buffer holds no keyframe |
| Clip.MuxedIsRewrittenTail | onvif-bot.py:91-103 | the muxed clip is exactly the rewritten buffer from the first keyframe on; the packets before it are unchanged; without a keyframe nothing is muxed and nothing changes |
| Clip.RewrittenFromPoints | onvif-bot.py:91-101 | a buffer that is unchanged before the first keyframe and rebased from it on is the rewritten buffer |
| Clip.MuxedFromPoints | onvif-bot.py:100-103 | a mux output holding the rebased packets from the first keyframe on, in order, is the clip |
| Clip.MuxedStartsOnKeyframe | onvif-bot.py:91-99 | the clip is empty exactly when the buffer has no keyframe, and otherwise its first packet is a keyframe |
| Clip.MuxedTimestamps | onvif-bot.py:94-101 | the clip has one packet per buffered packet from the first keyframe on, with the same keyframe flags and `dts == pts`; each later packet's pts is its original pts minus the keyframe's pts, and the keyframe itself ends at minus its own original pts |
| Clip.MuxedMonotone | onvif-bot.py:94-101 | when the original pts never decrease from the keyframe on and the keyframe's is not negative, the clip's pts never decrease; the clip starts at 0 only when the keyframe's pts was 0 |
| Motion.ValuesRead | onvif-bot.py:181-182 | the values assigned from a batch are its messages' values in order, up to the first message whose value cannot be read, which stops the loop |
| Motion.ReadBatch | onvif-bot.py:181-182 | the loop raises exactly when some message cannot be read; `mess_tree` ends as the last value assigned, or as it was when nothing was assigned; a fully readable non-empty batch leaves it at its last message's value |
| Motion.Poll | onvif-bot.py:172-186 | one iteration carries `mess_tree` through the batch and triggers exactly when it then holds "true"; a failed pull, an unreadable message or an unbound `mess_tree` is logged |
| Motion.Run | onvif-bot.py:170-186 | the loop decides each pull from that pull and the value carried through all pulls so far, starting unbound |
| Motion.CarriedAfter | onvif-bot.py:181-182 | one more pull replaces the carried value with its own last value when it assigns any, and leaves it otherwise |
| Motion.CarriedUnbound | onvif-bot.py:181-183 | `mess_tree` is unbound exactly when no pull so far has assigned a value |
| Motion.CarriedFromMostRecent | onvif-bot.py:181-183 | the carried value is the last value of the most recent pull that assigned any |
| Motion.LastValueDecides | onvif-bot.py:181-184 | a readable non-empty batch triggers exactly when its last message's value is "true", whatever came before |
| Motion.EmptyBatchRepeatsDecision | onvif-bot.py:181-186 | an empty batch repeats the decision of the carried value (a clip is requested again after a "true"), and as the very first pull it is logged |
| Motion.UnreadableBatchIsLogged | onvif-bot.py:181-186 | a batch with an unreadable message is logged and triggers nothing, but the values read before that message are carried to the next pull |

## Left out

- PyAV I/O is not modelled, and the muxed packets are the model's output:
  - opening the RTSP stream and its options, and choosing the codec name;
  - opening the mp4 output and adding its stream;
  - assigning `packet.stream`, `close`, `seek`, and reusing the `BytesIO`;
  - any in-place change `mux` makes to the packet it is given, such as
    rescaling its timestamps to the output stream's time base.
    `Snapshot`'s final buffer state (`Clip.Rewritten`) is the buffer as the
    loop leaves it, before such changes, and that is what a later snapshot
    reads in the model.
- The sleeps are not modelled: the one per keyframe during capture, the 5 s retry and the 6 s post-trigger wait.
- `RUNLOOP`, `signal_handler`, `main` and task scheduling are not modelled.
  - Capture and snapshot interleave only as separate calls on one `VideoStream`.
  - Concurrent scheduling is not modelled.
- Telegram is not modelled. Sending a message or video is reduced to the returned `Delivery`.
- The ONVIF setup in `run` (camera, device information, manager start and synchronisation point) is not modelled. The only thing kept is each `PullMessages` result, given as a `Pull`.
- custom_pullpoint_manager.py is not part of this model: subscription renewal and the broken relative-time detection are library calls.
- user_data.py (configuration loading) is not part of this model.
- Exceptions raised by `snapshot` inside `run`'s `try` are not modelled. A triggered iteration is reported as `Triggered`.
- `Stream.Packet`: pts is always an integer. A packet with no pts would make `snapshot` raise, and that case is not modelled.
- Stream.VideoStream.Ingest: requires that the packet is not already buffered. Demuxing yields a fresh packet object each time.
- Motion.Message: a notification is reduced to its first SimpleItem's value. The value is None when that attribute path cannot be read.

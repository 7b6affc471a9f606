/**
 * `VideoStream` from onvif-bot.py: a bounded buffer of the most recent
 * stream packets, filled by the capture loop, and `snapshot`, which rebases
 * the buffered packets' timestamps in place and muxes them into a clip.
 */
module Stream {
  import opened Wrappers
  import opened Deque
  import opened Clip

  /** `maxlen` of the packet buffer. */
  const Capacity: nat := 250

  /** The text sent instead of a video when the buffer is empty. */
  const OfflineText := "Camera is offline or rtsp stream is not available!"

  /** A demuxed stream packet; `snapshot` rewrites its timestamps in place. */
  class Packet {
    const isKeyframe: bool
    var pts: int
    var dts: Option<int>

    constructor (isKeyframe: bool, pts: int, dts: Option<int>)
      ensures this.isKeyframe == isKeyframe && this.pts == pts && this.dts == dts
    {
      this.isKeyframe := isKeyframe;
      this.pts := pts;
      this.dts := dts;
    }

    function View(): Frame
      reads this
    {
      Frame(isKeyframe, pts, dts)
    }
  }

  /** The current field values of a sequence of packets. */
  function Views(s: seq<Packet>): seq<Frame>
    reads s
  {
    seq(|s|, i requires 0 <= i < |s| reads s => s[i].View())
  }

  /** What `snapshot` hands to the chat: the offline text, or a video made of the muxed packets. */
  datatype Delivery = OfflineNotice(text: string) | VideoClip(packets: seq<Frame>)

  class VideoStream {
    /** The deque of buffered packets, oldest first. */
    var buffer: seq<Packet>
    /** Every packet the capture loop has appended, oldest first. */
    ghost var accepted: seq<Packet>

    /**
     * The buffer is the last `Capacity` accepted packets in arrival order,
     * holds each packet object once and only packets with a decode timestamp.
     */
    ghost predicate Valid()
      reads this, buffer
      ensures Valid() ==> |buffer| <= Capacity
    {
      && buffer == Window(accepted, Capacity)
      && (forall a, b :: 0 <= a < b < |buffer| ==> buffer[a] != buffer[b])
      && (forall i :: 0 <= i < |buffer| ==> buffer[i].dts.Some?)
    }

    constructor ()
      ensures Valid() && buffer == [] && accepted == []
    {
      buffer := [];
      accepted := [];
    }

    /**
     * One iteration of the demux loop in `stream_capture`: a packet without a
     * decode timestamp is skipped; any other is appended, evicting the oldest
     * packet when the buffer already holds `Capacity`.
     */
    method Ingest(p: Packet)
      requires Valid() && p !in buffer
      modifies this
      ensures Valid()
      ensures p.dts.None? ==> buffer == old(buffer) && accepted == old(accepted)
      ensures p.dts.Some? ==> accepted == old(accepted) + [p] && buffer == Window(accepted, Capacity)
      ensures p.dts.Some? && |old(buffer)| < Capacity ==> buffer == old(buffer) + [p]
      ensures p.dts.Some? && |old(buffer)| == Capacity ==> buffer == old(buffer)[1..] + [p]
    {
      if p.dts.None? {
        return;
      }
      AppendKeepsWindow(accepted, p, Capacity);
      buffer := Append(buffer, p, Capacity);
      accepted := accepted + [p];
    }

    /**
     * The part of `snapshot` after the post-trigger wait: with an empty buffer
     * the offline text is sent; otherwise the packets from the first keyframe
     * on are rebased in place and muxed in buffer order, and the video is sent
     * (empty when there is no keyframe).
     */
    method Snapshot() returns (delivery: Delivery)
      requires Valid()
      modifies buffer
      ensures Valid() && buffer == old(buffer) && accepted == old(accepted)
      ensures Views(buffer) == Rewritten(old(Views(buffer)))
      ensures old(buffer) == [] ==> delivery == OfflineNotice(OfflineText)
      ensures old(buffer) != [] ==> delivery == VideoClip(Muxed(old(Views(buffer))))
    {
      if buffer == [] {
        return OfflineNotice(OfflineText);
      }
      ghost var before := Views(buffer);
      ghost var first := FirstKey(before);
      ghost var k := if first.Some? then first.value else |buffer|;
      assert forall j :: 0 <= j < |buffer| ==> before[j].dts.Some?;
      var muxed := RebaseAndMux(before, k);
      ghost var now := Views(buffer);
      RewrittenFromPoints(before, k, now);
      MuxedFromPoints(before, k, muxed);
      MuxedIsRewrittenTail(before);
      delivery := VideoClip(muxed);
    }

    /**
     * The loop of `snapshot` over the buffer, given the packets' values
     * `before` it starts and the index `k` of the first keyframe (`|buffer|`
     * when there is none): packets before `k` are skipped, the keyframe is
     * zeroed and becomes the reference, and it and every later packet get
     * `pts -= pts_ref`, `dts = pts` and are muxed.
     */
    method RebaseAndMux(ghost before: seq<Frame>, ghost k: nat) returns (muxed: seq<Frame>)
      requires forall a, b :: 0 <= a < b < |buffer| ==> buffer[a] != buffer[b]
      requires |before| == |buffer| && k <= |buffer|
      requires forall j :: 0 <= j < |buffer| ==> buffer[j].View() == before[j]
      requires forall j :: 0 <= j < |buffer| ==> buffer[j].dts.Some?
      requires forall j :: 0 <= j < k ==> !before[j].key
      requires k < |buffer| ==> before[k].key
      modifies buffer
      ensures forall j :: 0 <= j < |buffer| ==> buffer[j].dts.Some?
      ensures forall j :: 0 <= j < k ==> buffer[j].View() == before[j]
      ensures forall j :: k <= j < |buffer| ==> buffer[j].View() == Rebased(before, k, j)
      ensures |muxed| == |buffer| - k
      ensures forall j :: 0 <= j < |muxed| ==> muxed[j] == Rebased(before, k, k + j)
    {
      var ptsRef := 0;
      var firstPacket := true;
      muxed := [];
      for i := 0 to |buffer|
        invariant firstPacket <==> i <= k
        invariant !firstPacket ==> ptsRef == before[k].pts
        invariant forall j :: 0 <= j < |buffer| ==> buffer[j].dts.Some?
        invariant forall j :: i <= j < |buffer| ==> buffer[j].View() == before[j]
        invariant forall j :: 0 <= j < i && j < k ==> buffer[j].View() == before[j]
        invariant forall j :: k <= j < i ==> buffer[j].View() == Rebased(before, k, j)
        invariant firstPacket ==> muxed == []
        invariant !firstPacket ==> |muxed| == i - k
        invariant forall j :: 0 <= j < |muxed| ==> muxed[j] == Rebased(before, k, k + j)
      {
        var packet := buffer[i];
        if firstPacket {
          if packet.isKeyframe {
            ptsRef := packet.pts;
            packet.pts := 0;
            packet.dts := Some(0);
            firstPacket := false;
          } else {
            continue;
          }
        }
        packet.pts := packet.pts - ptsRef;
        packet.dts := Some(packet.pts);
        muxed := muxed + [packet.View()];
      }
    }
  }
}

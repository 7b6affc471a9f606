/**
 * The timestamp rewrite that `VideoStream.snapshot` applies to the buffered
 * packets, as functions over the values of the packets' fields. The buffer
 * is walked in order; packets before the first keyframe are skipped; that
 * keyframe's presentation timestamp becomes the reference `pts_ref`; it and
 * every later packet get `pts -= pts_ref` and `dts = pts` and are muxed.
 *
 * The keyframe that starts the clip first has both timestamps set to 0 and
 * then, like every muxed packet, has `pts_ref` subtracted, so it ends at
 * `-pts_ref` rather than 0.
 */
module Clip {
  import opened Wrappers

  /** The fields of one stream packet that the clip logic reads or writes. */
  datatype Frame = Frame(key: bool, pts: int, dts: Option<int>)

  /** Index of the first keyframe, or None when there is none. */
  function FirstKey(fs: seq<Frame>): (r: Option<nat>)
    ensures r.Some? ==> r.value < |fs| && fs[r.value].key
    ensures r.Some? ==> forall j :: 0 <= j < r.value ==> !fs[j].key
    ensures r.None? <==> forall j :: 0 <= j < |fs| ==> !fs[j].key
  {
    if fs == [] then None
    else if fs[0].key then Some(0)
    else match FirstKey(fs[1..])
      case None => None
      case Some(k) => Some(k + 1)
  }

  /** A muxed packet after `pts -= ref` and `dts = pts`. */
  function Shift(f: Frame, ref: int): Frame
  {
    f.(pts := f.pts - ref, dts := Some(f.pts - ref))
  }

  /** The first keyframe: both timestamps set to 0, then shifted by its own original pts. */
  function Anchor(f: Frame): Frame
  {
    Shift(f.(pts := 0, dts := Some(0)), f.pts)
  }

  /**
   * Packet `j` of the buffer after the rewrite, for `j` at or after the
   * first keyframe `k`.
   */
  function Rebased(fs: seq<Frame>, k: nat, j: nat): Frame
    requires k <= j < |fs|
  {
    if j == k then Anchor(fs[j]) else Shift(fs[j], fs[k].pts)
  }

  /** The buffer's packets after a snapshot: the rewrite happens in place. */
  function Rewritten(fs: seq<Frame>): seq<Frame>
  {
    match FirstKey(fs)
    case None => fs
    case Some(k) => seq(|fs|, j requires 0 <= j < |fs| => if j < k then fs[j] else Rebased(fs, k, j))
  }

  /** The packets handed to the muxer, in the order they are muxed. */
  function Muxed(fs: seq<Frame>): seq<Frame>
  {
    match FirstKey(fs)
    case None => []
    case Some(k) => seq(|fs| - k, i requires 0 <= i < |fs| - k => Rebased(fs, k, k + i))
  }

  /**
   * The muxed packets are exactly the rewritten buffer from the first
   * keyframe on; the entries before it are left as they were, and with no
   * keyframe nothing changes.
   */
  lemma MuxedIsRewrittenTail(fs: seq<Frame>)
    ensures |Rewritten(fs)| == |fs|
    ensures FirstKey(fs).None? ==> Muxed(fs) == [] && Rewritten(fs) == fs
    ensures FirstKey(fs).Some? ==>
              Rewritten(fs)[..FirstKey(fs).value] == fs[..FirstKey(fs).value] &&
              Rewritten(fs)[FirstKey(fs).value..] == Muxed(fs)
  {
    if FirstKey(fs).Some? {
      var k := FirstKey(fs).value;
      var r, m := Rewritten(fs), Muxed(fs);
      assert r[..k] == fs[..k];
      assert r[k..] == m;
    }
  }

  /**
   * A buffer state `after` that agrees packet by packet with the rewrite
   * (untouched before the first keyframe `k`, or `|fs|` when there is none;
   * rebased from it on) is exactly the rewritten buffer.
   */
  lemma RewrittenFromPoints(fs: seq<Frame>, k: nat, after: seq<Frame>)
    requires k == if FirstKey(fs).Some? then FirstKey(fs).value else |fs|
    requires |after| == |fs|
    requires forall j :: 0 <= j < k ==> after[j] == fs[j]
    requires forall j :: k <= j < |fs| ==> after[j] == Rebased(fs, k, j)
    ensures after == Rewritten(fs)
  {
    var r := Rewritten(fs);
    if k < |fs| {
      forall j | 0 <= j < |fs|
        ensures after[j] == r[j]
      {
      }
    } else {
      assert after == fs;
    }
  }

  /**
   * A mux output whose packet `i` is the rebased buffer packet `k + i`, from
   * the first keyframe `k` (or `|fs|` when there is none) to the end, is
   * exactly the clip.
   */
  lemma MuxedFromPoints(fs: seq<Frame>, k: nat, muxed: seq<Frame>)
    requires k == if FirstKey(fs).Some? then FirstKey(fs).value else |fs|
    requires |muxed| == |fs| - k
    requires forall i :: 0 <= i < |muxed| ==> muxed[i] == Rebased(fs, k, k + i)
    ensures muxed == Muxed(fs)
  {
    var m := Muxed(fs);
    if k < |fs| {
      forall i | 0 <= i < |muxed|
        ensures muxed[i] == m[i]
      {
      }
    }
  }

  /**
   * Nothing before the first keyframe is muxed; the clip is empty exactly
   * when the buffer holds no keyframe, and otherwise starts on one.
   */
  lemma MuxedStartsOnKeyframe(fs: seq<Frame>)
    ensures Muxed(fs) == [] <==> forall j :: 0 <= j < |fs| ==> !fs[j].key
    ensures Muxed(fs) != [] ==> Muxed(fs)[0].key
  {
    if FirstKey(fs).Some? {
      var k := FirstKey(fs).value;
      assert Muxed(fs)[0] == Rebased(fs, k, k);
    }
  }

  /**
   * The clip keeps buffer order from the first keyframe `k` to the end, so it
   * has `|fs| - k` packets; packet `i` of the clip is buffer packet `k + i`
   * with `dts == pts`; its pts is the original pts minus `pts_ref` = `fs[k].pts`,
   * except the keyframe itself, which ends at `-pts_ref`.
   */
  lemma MuxedTimestamps(fs: seq<Frame>, k: nat)
    requires FirstKey(fs) == Some(k)
    ensures var m := Muxed(fs);
      && |m| == |fs| - k
      && m[0].pts == -fs[k].pts
      && (forall i :: 0 <= i < |m| ==> m[i].key == fs[k + i].key && m[i].dts == Some(m[i].pts))
      && (forall i :: 0 < i < |m| ==> m[i].pts == fs[k + i].pts - fs[k].pts)
  {
    var m := Muxed(fs);
    assert m[0] == Rebased(fs, k, k);
    forall i | 0 <= i < |m|
      ensures m[i] == Rebased(fs, k, k + i)
    {
    }
  }

  /**
   * When the original timestamps from the first keyframe on never decrease
   * and are not negative, the clip's timestamps never decrease either; its
   * first timestamp is 0 only when the keyframe's own pts was 0.
   */
  lemma MuxedMonotone(fs: seq<Frame>, k: nat)
    requires FirstKey(fs) == Some(k)
    requires forall a, b :: k <= a < b < |fs| ==> fs[a].pts <= fs[b].pts
    requires fs[k].pts >= 0
    ensures forall a, b :: 0 <= a < b < |Muxed(fs)| ==> Muxed(fs)[a].pts <= Muxed(fs)[b].pts
    ensures Muxed(fs)[0].pts == 0 <==> fs[k].pts == 0
  {
    MuxedTimestamps(fs, k);
  }
}

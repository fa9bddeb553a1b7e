/**
 * SoundManager.convertToStereo (convcomm/engine/audio/SoundManager.java):
 * each 16-bit mono sample (two bytes) becomes a stereo frame (four bytes)
 * with the same sample on the left and on the right.
 */
module SoundManagers {
  import opened JavaBytes
  import opened SoundFilters

  /** The stereo bytes for mono bytes taken two at a time: each pair written twice. */
  function Stereo(mono: seq<int8>): (r: seq<int8>)
    ensures |r| == 2 * (|mono| / 2 * 2)
    decreases |mono|
  {
    if |mono| < 2 then []
    else
      var n := |mono| / 2 * 2;
      Stereo(mono[..n - 2]) + [mono[n - 2], mono[n - 1], mono[n - 2], mono[n - 1]]
  }

  /** Byte d of frame k of the stereo data copies byte d mod 2 of mono sample k. */
  lemma {:induction false} StereoIndex(mono: seq<int8>, k: int, d: int)
    requires |mono| % 2 == 0 && 0 <= k && 2 * k + 2 <= |mono| && 0 <= d < 4
    ensures 4 * k + d < |Stereo(mono)|
    ensures Stereo(mono)[4 * k + d] == mono[2 * k + d % 2]
    decreases |mono|
  {
    var n := |mono|;
    var init := mono[..n - 2];
    assert Stereo(mono) == Stereo(init) + [mono[n - 2], mono[n - 1], mono[n - 2], mono[n - 1]];
    if 2 * k + 2 < n {
      StereoIndex(init, k, d);
    }
  }

  /**
   * The frame written for mono sample k holds it twice: bytes 4k and 4k + 2
   * copy mono byte 2k, bytes 4k + 1 and 4k + 3 copy mono byte 2k + 1, so the
   * frame's left and right samples are both the mono sample.
   */
  lemma StereoFrame(mono: seq<int8>, k: int)
    requires |mono| % 2 == 0 && 0 <= k && 2 * k + 2 <= |mono|
    ensures var r := Stereo(mono);
      && 4 * k + 3 < |r|
      && r[4 * k] == r[4 * k + 2] == mono[2 * k]
      && r[4 * k + 1] == r[4 * k + 3] == mono[2 * k + 1]
      && Decode(r[4 * k], r[4 * k + 1]) == Decode(r[4 * k + 2], r[4 * k + 3]) == Decode(mono[2 * k], mono[2 * k + 1])
  {
    StereoIndex(mono, k, 0);
    StereoIndex(mono, k, 1);
    StereoIndex(mono, k, 2);
    StereoIndex(mono, k, 3);
  }

  /**
   * The copying loop, with its byte counter j running at twice the mono
   * index. The caller allocates the stereo array separately, twice as long.
   */
  method ConvertToStereo(monoSamples: array<int8>, stereoSamples: array<int8>)
    requires monoSamples != stereoSamples
    requires monoSamples.Length % 2 == 0 && stereoSamples.Length >= 2 * monoSamples.Length
    modifies stereoSamples
    ensures stereoSamples[..2 * monoSamples.Length] == Stereo(monoSamples[..])
    ensures stereoSamples[2 * monoSamples.Length..] == old(stereoSamples[2 * monoSamples.Length..])
  {
    ghost var mono, s0 := monoSamples[..], stereoSamples[..];
    var j := 0;
    var i := 0;
    while i < monoSamples.Length
      invariant 0 <= i <= monoSamples.Length && i % 2 == 0 && j == 2 * i
      invariant stereoSamples[..] == Stereo(mono[..i]) + s0[j..]
    {
      EvenGap(i, monoSamples.Length);
      ghost var before := stereoSamples[..];
      WriteFrame(stereoSamples, j, monoSamples[i], monoSamples[i + 1]);
      FrameStep(mono, s0, i, j, before, stereoSamples[..]);
      j := j + 4;
      i := i + 2;
    }
    assert mono[..i] == mono;
    assert |Stereo(mono)| == j;
    assert stereoSamples[..][..j] == stereoSamples[..j];
  }

  /** The loop body's four writes: the low byte at j and j + 2, the high byte at j + 1 and j + 3. */
  method WriteFrame(stereoSamples: array<int8>, j: int, lo: int8, hi: int8)
    requires 0 <= j && j + 3 < stereoSamples.Length
    modifies stereoSamples
    ensures stereoSamples[..] == old(stereoSamples[..])[j := lo][j + 2 := lo][j + 1 := hi][j + 3 := hi]
  {
    stereoSamples[j] := lo;
    stereoSamples[j + 2] := lo;
    stereoSamples[j + 1] := hi;
    stereoSamples[j + 3] := hi;
  }

  /** An even index below an even length leaves room for a whole sample. */
  lemma EvenGap(i: int, n: int)
    requires 0 <= i < n && i % 2 == 0 && n % 2 == 0
    ensures i + 2 <= n
  {
    assert i == 2 * (i / 2) && n == 2 * (n / 2);
  }

  /**
   * One pass of the loop: writing mono sample i twice over the untouched
   * bytes at 2i extends the converted prefix by one frame.
   */
  lemma FrameStep(mono: seq<int8>, s0: seq<int8>, i: int, j: int, before: seq<int8>, after: seq<int8>)
    requires 0 <= i && i % 2 == 0 && i + 2 <= |mono| && j == 2 * i && 2 * |mono| <= |s0|
    requires before == Stereo(mono[..i]) + s0[j..]
    requires after == before[j := mono[i]][j + 2 := mono[i]][j + 1 := mono[i + 1]][j + 3 := mono[i + 1]]
    ensures after == Stereo(mono[..i + 2]) + s0[j + 4..]
  {
    assert |mono[..i]| / 2 * 2 == i;
    assert |Stereo(mono[..i])| == j;
    assert mono[..i + 2][..i] == mono[..i];
    var frame := [mono[i], mono[i + 1], mono[i], mono[i + 1]];
    assert Stereo(mono[..i + 2]) == Stereo(mono[..i]) + frame;
    assert after == Stereo(mono[..i]) + frame + s0[j + 4..] by {
      assert forall t :: 0 <= t < |after| ==> after[t] == (Stereo(mono[..i]) + frame + s0[j + 4..])[t];
    }
  }

  /**
   * After the conversion, the getters of SoundFilter read the same sample on
   * the left and the right of every frame: the mono sample it was made from.
   */
  lemma ConvertedFrame(stereoSamples: array<int8>, mono: seq<int8>, k: int)
    requires |mono| % 2 == 0 && 2 * |mono| <= stereoSamples.Length
    requires stereoSamples[..2 * |mono|] == Stereo(mono)
    requires 0 <= k && 2 * k + 2 <= |mono|
    ensures GetLeftSample(stereoSamples, 4 * k) == GetRightSample(stereoSamples, 4 * k)
    ensures GetLeftSample(stereoSamples, 4 * k) == Decode(mono[2 * k], mono[2 * k + 1])
  {
    var p := 4 * k;
    StereoFrame(mono, k);
    var r := stereoSamples[..2 * |mono|];
    assert r[p] == stereoSamples[p] && r[p + 1] == stereoSamples[p + 1];
    assert r[p + 2] == stereoSamples[p + 2] && r[p + 3] == stereoSamples[p + 3];
  }
}

/** The device side (streaming_serverCNN_EIH.py): picking the label from the
    classifier's scores and serialising what is sent to the viewer. The
    camera, the preprocessing and the classifier itself are not modelled;
    their outputs are parameters here. */
module Device {
  import opened Bytes

  /** `CLASS_LABELS`, indexed by the classifier's output position. */
  const ClassLabels: seq<string> := ["Rock", "Paper", "Scissors"]

  // ---------------------------------------------------------------------
  // get_max_index

  /** `k` is the first position holding the largest score. */
  predicate IsFirstMax(arr: seq<int>, k: int)
  {
    && 0 <= k < |arr|
    && (forall j :: 0 <= j < |arr| ==> arr[j] <= arr[k])
    && (forall j :: 0 <= j < k ==> arr[j] < arr[k])
  }

  /** At most one position is the first maximum. */
  lemma FirstMaxUnique(arr: seq<int>, k1: int, k2: int)
    requires IsFirstMax(arr, k1) && IsFirstMax(arr, k2)
    ensures k1 == k2
  {
    assert arr[k1] <= arr[k2] && arr[k2] <= arr[k1];
  }

  /** The scan Python's `max(range(n), key=...)` performs: position `best`
      is the running winner after looking at the first `i` positions, and
      a later position replaces it only when strictly greater. */
  function MaxIndexFrom(arr: seq<int>, i: nat, best: nat): (r: nat)
    requires best < i <= |arr|
    requires forall j :: 0 <= j < i ==> arr[j] <= arr[best]
    requires forall j :: 0 <= j < best ==> arr[j] < arr[best]
    ensures IsFirstMax(arr, r)
    decreases |arr| - i
  {
    if i == |arr| then best
    else if arr[i] > arr[best] then MaxIndexFrom(arr, i + 1, i)
    else MaxIndexFrom(arr, i + 1, best)
  }

  /** `get_max_index(arr)`; `None` where Python's `max` raises on an empty
      sequence. */
  function GetMaxIndex(arr: seq<int>): (r: Option<nat>)
    ensures r.None? <==> arr == []
    ensures forall k :: IsFirstMax(arr, k) <==> r == Some(k)
  {
    if arr == [] then None
    else
      var k := MaxIndexFrom(arr, 1, 0);
      assert forall k' :: IsFirstMax(arr, k') ==> k' == k by {
        forall k' | IsFirstMax(arr, k') ensures k' == k {
          FirstMaxUnique(arr, k, k');
        }
      }
      Some(k)
  }

  /** `CLASS_LABELS[get_max_index(probabilities)]`; `None` where Python
      raises: on empty scores, or when the winner is past the last label. */
  function Predict(probs: seq<int>): (r: Option<string>)
    ensures probs == [] ==> r.None?
    ensures forall k :: IsFirstMax(probs, k) ==>
      r == (if k < |ClassLabels| then Some(ClassLabels[k]) else None)
  {
    match GetMaxIndex(probs)
    case None => None
    case Some(k) => if k < |ClassLabels| then Some(ClassLabels[k]) else None
  }

  /** The device always allocates exactly one score per label, so every
      prediction it makes is one of the three labels. */
  lemma PredictionIsClassLabel(probs: seq<int>)
    requires |probs| == |ClassLabels|
    ensures Predict(probs).Some?
    ensures Predict(probs).value in ClassLabels
    ensures Predict(probs).value in {"Rock", "Paper", "Scissors"}
  {
    var k := GetMaxIndex(probs).value;
    assert IsFirstMax(probs, k);
  }

  // ---------------------------------------------------------------------
  // The two messages sent per captured frame.

  /** `b"FRAME_START"`. */
  const FrameStart: seq<Byte> :=
    [0x46, 0x52, 0x41, 0x4D, 0x45, 0x5F, 0x53, 0x54, 0x41, 0x52, 0x54]

  /** `b"FRAME_END"`. */
  const FrameEnd: seq<Byte> := [0x46, 0x52, 0x41, 0x4D, 0x45, 0x5F, 0x45, 0x4E, 0x44]

  /** The ASCII text `"PREDICTION: "` as bytes. */
  const PredictionPrefix: seq<Byte> :=
    [0x50, 0x52, 0x45, 0x44, 0x49, 0x43, 0x54, 0x49, 0x4F, 0x4E, 0x3A, 0x20]

  /** The byte constants spell the source's literals. */
  lemma FrameStartSpelling()
    ensures FrameStart == Utf8("FRAME_START")
  {
    AsciiSpelling("FRAME_START", FrameStart);
  }

  lemma FrameEndSpelling()
    ensures FrameEnd == Utf8("FRAME_END")
  {
    AsciiSpelling("FRAME_END", FrameEnd);
  }

  lemma PredictionPrefixSpelling()
    ensures PredictionPrefix == Utf8("PREDICTION: ")
  {
    AsciiSpelling("PREDICTION: ", PredictionPrefix);
  }

  /** `b"FRAME_START" + image + b"FRAME_END"`. */
  function FrameMessage(image: seq<Byte>): (m: seq<Byte>)
    ensures |m| == |image| + 20
    ensures m[..11] == FrameStart && m[|m| - 9..] == FrameEnd
    ensures m[11 .. |m| - 9] == image
  {
    var m := FrameStart + image + FrameEnd;
    assert m[11 .. |m| - 9] == image;
    m
  }

  /** Distinct images give distinct frame messages. */
  lemma FrameMessageInjective(a: seq<Byte>, b: seq<Byte>)
    requires FrameMessage(a) == FrameMessage(b)
    ensures a == b
  {
    var m := FrameMessage(a);
    assert a == m[11 .. |m| - 9] == b;
  }

  /** The inverse of `FrameMessage`: the bytes between the two markers,
      when the message is long enough and carries both. */
  function UnwrapFrame(m: seq<Byte>): (r: Option<seq<Byte>>)
    ensures r.Some? <==> |m| >= 20 && m[..11] == FrameStart && m[|m| - 9..] == FrameEnd
  {
    if |m| >= 20 && m[..11] == FrameStart && m[|m| - 9..] == FrameEnd
    then Some(m[11 .. |m| - 9])
    else None
  }

  /** Unwrapping a wrapped image gives the image back. */
  lemma UnwrapWrapFrame(image: seq<Byte>)
    ensures UnwrapFrame(FrameMessage(image)) == Some(image)
  {
  }

  /** Whatever unwraps was a wrapped image. */
  lemma WrapUnwrapFrame(m: seq<Byte>)
    requires UnwrapFrame(m).Some?
    ensures FrameMessage(UnwrapFrame(m).value) == m
  {
    var image := UnwrapFrame(m).value;
    assert m == m[..11] + image + m[|m| - 9..];
  }

  /** `f"PREDICTION: {prediction}\n".encode()`: the prefix, the label's
      UTF-8 encoding, and one line feed. */
  function PredictionMessage(prediction: string): (m: seq<Byte>)
    ensures |m| == 13 + |Utf8(prediction)|
    ensures m[..12] == PredictionPrefix && m[|m| - 1] == LineFeed
  {
    var m := PredictionPrefix + Utf8(prediction) + [LineFeed];
    assert m[..12] == PredictionPrefix;
    m
  }

  /** The message is the UTF-8 encoding of the whole formatted line. */
  lemma PredictionMessageEncodesLine(prediction: string)
    ensures PredictionMessage(prediction) == Utf8("PREDICTION: " + prediction + "\n")
  {
    var pre := Utf8("PREDICTION: ");
    var nl := Utf8("\n");
    assert pre == PredictionPrefix by { PredictionPrefixSpelling(); }
    assert nl == [LineFeed] by { AsciiSpelling("\n", [LineFeed]); }
    Utf8Append3("PREDICTION: ", prediction, "\n");
  }

  lemma Utf8Append3(a: string, b: string, c: string)
    ensures Utf8(a + b + c) == Utf8(a) + Utf8(b) + Utf8(c)
  {
    Utf8Append(a + b, c);
    Utf8Append(a, b);
  }

  /** Cutting the twelve prefix bytes and the final newline off a
      prediction message gives back the label's encoding. */
  lemma PredictionMessageRoundTrip(prediction: string)
    ensures
      var m := PredictionMessage(prediction);
      m[12 .. |m| - 1] == Utf8(prediction)
  {
    var m := PredictionMessage(prediction);
    assert m[12 .. |m| - 1] == Utf8(prediction);
  }

  /** The prediction message ends in a line feed, and that is its only line
      feed exactly when the label has none. */
  lemma PredictionMessageOneNewline(prediction: string)
    ensures
      var m := PredictionMessage(prediction);
      m[|m| - 1] == LineFeed
    ensures
      var m := PredictionMessage(prediction);
      (forall i :: 0 <= i < |prediction| ==> prediction[i] != '\n')
        <==> (forall i :: 0 <= i < |m| - 1 ==> m[i] != LineFeed)
  {
    var m := PredictionMessage(prediction);
    var e := Utf8(prediction);
    Utf8LineFeedFree(prediction);
    if forall i :: 0 <= i < |e| ==> e[i] != LineFeed {
      forall i | 0 <= i < |m| - 1
        ensures m[i] != LineFeed
      {
        if i >= 12 {
          assert m[i] == e[i - 12];
        }
      }
    }
    if forall i :: 0 <= i < |m| - 1 ==> m[i] != LineFeed {
      forall i | 0 <= i < |e|
        ensures e[i] != LineFeed
      {
        assert e[i] == m[i + 12];
      }
    }
  }

  /** A string encodes without a 0x0A byte exactly when it has no newline:
      UTF-8 uses bytes below 0x80 only for ASCII characters. */
  lemma {:induction false} Utf8LineFeedFree(s: string)
    ensures (forall i :: 0 <= i < |s| ==> s[i] != '\n')
            <==> (forall j :: 0 <= j < |Utf8(s)| ==> Utf8(s)[j] != LineFeed)
  {
    if s != [] {
      Utf8LineFeedFree(s[1..]);
      var head := Utf8Char(s[0]);
      var tail := Utf8(s[1..]);
      assert Utf8(s) == head + tail;
      assert (forall j :: 0 <= j < |head| ==> head[j] != LineFeed) <==> s[0] != '\n';
      if forall i :: 0 <= i < |s| ==> s[i] != '\n' {
        assert forall i :: 0 <= i < |s[1..]| ==> s[1..][i] != '\n';
        forall j | 0 <= j < |Utf8(s)|
          ensures Utf8(s)[j] != LineFeed
        {
          if j >= |head| {
            assert Utf8(s)[j] == tail[j - |head|];
          }
        }
      }
      if forall j :: 0 <= j < |Utf8(s)| ==> Utf8(s)[j] != LineFeed {
        assert forall j :: 0 <= j < |head| ==> head[j] == Utf8(s)[j];
        assert forall j :: 0 <= j < |tail| ==> tail[j] == Utf8(s)[j + |head|];
        forall i | 0 <= i < |s|
          ensures s[i] != '\n'
        {
          if i > 0 {
            assert s[i] == s[1..][i - 1];
          }
        }
      }
    }
  }
}

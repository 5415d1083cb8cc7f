/** The two programs together: what the device's `sendall` calls put on the
    wire (streaming_serverCNN_EIH.py) and what the viewer's receive loop
    (streaming_client_cnn.py) makes of it, under the assumption that every
    `sendall` arrives as exactly one `recv` chunk. */
module Stream {
  import opened Bytes
  import opened BmpHeader
  import opened Viewer
  import opened Device

  // ---------------------------------------------------------------------
  // The text the device sends holds no `BM`.

  lemma MarkersHaveNoMagic()
    ensures NoMagic(FrameStart) && NoMagic(FrameEnd) && NoMagic(PredictionPrefix)
  {
    assert forall i :: 0 <= i < |FrameStart| ==> FrameStart[i] != MagicB;
    assert forall i :: 0 <= i < |FrameEnd| ==> FrameEnd[i] != MagicB;
    assert forall i :: 0 <= i < |PredictionPrefix| ==> PredictionPrefix[i] != MagicB;
  }

  /** A prediction line holds a `BM` only if its label does. */
  lemma PredictionMessageNoMagic(prediction: string)
    requires NoMagic(Utf8(prediction))
    ensures NoMagic(PredictionMessage(prediction))
  {
    MarkersHaveNoMagic();
    var e := Utf8(prediction);
    NoMagicAppend(PredictionPrefix, e);
    assert NoMagic([LineFeed]);
    NoMagicAppend(PredictionPrefix + e, [LineFeed]);
    assert PredictionMessage(prediction) == PredictionPrefix + e + [LineFeed];
  }

  /** None of the three labels spells `BM`. */
  lemma ClassLabelsHaveNoMagic(prediction: string)
    requires prediction in ClassLabels
    ensures NoMagic(Utf8(prediction))
  {
    if prediction == ClassLabels[0] {
      SpellingWithoutB(prediction, [0x52, 0x6F, 0x63, 0x6B]);
    } else if prediction == ClassLabels[1] {
      SpellingWithoutB(prediction, [0x50, 0x61, 0x70, 0x65, 0x72]);
    } else {
      SpellingWithoutB(prediction, [0x53, 0x63, 0x69, 0x73, 0x73, 0x6F, 0x72, 0x73]);
    }
  }

  /** An ASCII string whose bytes include no `B` encodes without `BM`. */
  lemma SpellingWithoutB(s: string, b: seq<Byte>)
    requires |s| == |b|
    requires forall i :: 0 <= i < |s| ==> s[i] as int == b[i] < 0x80 && b[i] != MagicB
    ensures NoMagic(Utf8(s))
  {
    AsciiSpelling(s, b);
  }

  /** What the viewer holds between frames once it has seen a frame and
      the prediction line after it: `FRAME_END` and that line. */
  lemma SteadyLeadHasNoMagic(prediction: string)
    requires NoMagic(Utf8(prediction))
    ensures NoMagic(FrameEnd + PredictionMessage(prediction))
  {
    MarkersHaveNoMagic();
    PredictionMessageNoMagic(prediction);
    var p := PredictionMessage(prediction);
    assert p[0] == PredictionPrefix[0];
    NoMagicAppend(FrameEnd, p);
  }

  // ---------------------------------------------------------------------
  // One step of the viewer on one frame message.

  /** Whatever bytes without `BM` were buffered, a step fed the rest of a frame
      message emits exactly the device's image; everything up to and
      including `FRAME_START` is skipped, and `FRAME_END` stays buffered. */
  lemma ViewerRecoversImage(lead: seq<Byte>, image: seq<Byte>, buffer: seq<Byte>, chunk: seq<Byte>)
    requires NoMagic(lead)
    requires WellFormedBmp(image)
    requires chunk != []
    requires buffer + chunk == lead + FrameMessage(image)
    ensures Step(buffer, chunk) == Continue(FrameEnd, Some(Emission(lead + FrameStart, image)))
  {
    FrameStartKeepsNoMagic(lead);
    Reassociate(lead, FrameStart, image, FrameEnd);
    StepCutsFileAfterNoise(buffer, chunk, lead + FrameStart, image, FrameEnd);
  }

  lemma Reassociate<T>(a: seq<T>, b: seq<T>, c: seq<T>, d: seq<T>)
    ensures a + (b + c + d) == (a + b) + c + d
  {
  }

  lemma FrameStartKeepsNoMagic(lead: seq<Byte>)
    requires NoMagic(lead)
    ensures NoMagic(lead + FrameStart)
  {
    MarkersHaveNoMagic();
    assert FrameStart[0] != MagicM;
    NoMagicAppend(lead, FrameStart);
  }

  /** The first frame: an empty buffer fed the first frame message. */
  lemma ViewerRecoversFirstFrame(image: seq<Byte>)
    requires WellFormedBmp(image)
    ensures Step([], FrameMessage(image)) == Continue(FrameEnd, Some(Emission(FrameStart, image)))
  {
    assert [] + FrameMessage(image) == [] + FrameMessage(image);
    ViewerRecoversImage([], image, [], FrameMessage(image));
    assert [] + FrameStart == FrameStart;
  }

  /** A prediction line and a frame message arriving together in one chunk
      on an empty buffer: the frame is still recovered whole, the line is
      skipped with `FRAME_START`. */
  lemma ViewerRecoversFrameAfterPrediction(prediction: string, image: seq<Byte>)
    requires prediction in ClassLabels
    requires WellFormedBmp(image)
    ensures
      var line := PredictionMessage(prediction);
      Step([], line + FrameMessage(image))
        == Continue(FrameEnd, Some(Emission(line + FrameStart, image)))
  {
    ClassLabelsHaveNoMagic(prediction);
    PredictionMessageNoMagic(prediction);
    var line := PredictionMessage(prediction);
    ViewerRecoversImage(line, image, [], line + FrameMessage(image));
  }

  /** A chunk with no `BM` in it, on a buffer with none either, is only
      appended. */
  lemma StepWaitsOnText(buffer: seq<Byte>, chunk: seq<Byte>)
    requires chunk != []
    requires NoMagic(buffer + chunk)
    ensures Step(buffer, chunk) == Continue(buffer + chunk, None)
  {
  }

  /** After a frame, the prediction line that follows it is only
      buffered, behind `FRAME_END`. */
  lemma ViewerBuffersPrediction(prediction: string)
    requires NoMagic(Utf8(prediction))
    ensures
      var line := PredictionMessage(prediction);
      Step(FrameEnd, line) == Continue(FrameEnd + line, None)
  {
    SteadyLeadHasNoMagic(prediction);
    StepWaitsOnText(FrameEnd, PredictionMessage(prediction));
  }

  // ---------------------------------------------------------------------
  // The whole stream.

  /** What the device sends for one captured frame: the BMP image and the
      label predicted for it. */
  datatype Sent = Sent(image: seq<Byte>, prediction: string)

  /** A frame the viewer can recover: a well-formed image and a label
      whose encoding holds no `BM`. */
  predicate Recoverable(x: Sent)
  {
    WellFormedBmp(x.image) && NoMagic(Utf8(x.prediction))
  }

  /** What the device can send: a well-formed image, one of the three
      labels, and a frame message that fits in one `recv`, so that each
      `sendall` can arrive as one chunk. The size bound only makes that
      one-write-per-chunk feed plausible; no proof depends on it. */
  predicate DeviceSendable(x: Sent)
  {
    && WellFormedBmp(x.image)
    && x.prediction in ClassLabels
    && |FrameMessage(x.image)| <= RecvLimit
  }

  /** The chunks the viewer receives when every `sendall` arrives as one
      chunk: per frame, the frame message and then the prediction line. */
  function DeviceChunks(sent: seq<Sent>): (cs: seq<seq<Byte>>)
    ensures |cs| == 2 * |sent|
  {
    if sent == [] then []
    else [FrameMessage(sent[0].image), PredictionMessage(sent[0].prediction)] + DeviceChunks(sent[1..])
  }

  /** Chunk `2i` is frame `i`'s message and chunk `2i + 1` its prediction
      line. */
  lemma {:induction false} DeviceChunksAt(sent: seq<Sent>, i: nat)
    requires i < |sent|
    ensures DeviceChunks(sent)[2 * i] == FrameMessage(sent[i].image)
    ensures DeviceChunks(sent)[2 * i + 1] == PredictionMessage(sent[i].prediction)
    decreases i
  {
    var head := [FrameMessage(sent[0].image), PredictionMessage(sent[0].prediction)];
    var rest := DeviceChunks(sent[1..]);
    assert DeviceChunks(sent) == head + rest;
    if i > 0 {
      DeviceChunksAt(sent[1..], i - 1);
      IndexPastHead(head, rest, 2 * (i - 1));
      IndexPastHead(head, rest, 2 * (i - 1) + 1);
    }
  }

  /** The loop over one frame's two messages: the frame comes out, and
      `FRAME_END` with the prediction line is what stays buffered. */
  lemma RunOneFrame(lead: seq<Byte>, x: Sent, cs: seq<seq<Byte>>)
    requires NoMagic(lead) && WellFormedBmp(x.image) && NoMagic(Utf8(x.prediction))
    ensures
      var line := PredictionMessage(x.prediction);
      var rest := RunLoop(FrameEnd + line, cs);
      RunLoop(lead, [FrameMessage(x.image), line] + cs)
        == RunState(rest.buffer, [Emission(lead + FrameStart, x.image)] + rest.emissions,
                    FrameMessage(x.image) + (line + rest.received), rest.fed + 2, rest.closed)
  {
    var frame := FrameMessage(x.image);
    var line := PredictionMessage(x.prediction);
    var chunks := [frame, line] + cs;
    assert chunks[0] == frame && chunks[1..] == [line] + cs;
    assert chunks[1..][0] == line && chunks[1..][1..] == cs;
    var rest := RunLoop(FrameEnd + line, cs);
    assert RunLoop(FrameEnd, chunks[1..])
      == RunState(rest.buffer, rest.emissions, line + rest.received, rest.fed + 1, rest.closed) by {
      ViewerBuffersPrediction(x.prediction);
      RunAfterStep(FrameEnd, chunks[1..], FrameEnd + line, None);
    }
    ViewerRecoversImage(lead, x.image, lead, frame);
    RunAfterStep(lead, chunks, FrameEnd, Some(Emission(lead + FrameStart, x.image)));
  }

  /** End to end: fed the device's messages one per chunk, the viewer
      displays exactly the device's images, in order, one per frame, never
      stops early, and ends holding the last `FRAME_END` and prediction
      line. */
  lemma {:induction false} ViewerRecoversStream(lead: seq<Byte>, sent: seq<Sent>)
    requires NoMagic(lead)
    requires forall i :: 0 <= i < |sent| ==> Recoverable(sent[i])
    ensures
      var r := RunLoop(lead, DeviceChunks(sent));
      && !r.closed && r.fed == 2 * |sent|
      && Frames(r.emissions) == Images(sent)
      && r.buffer == (if sent == [] then lead
                      else FrameEnd + PredictionMessage(sent[|sent| - 1].prediction))
    decreases |sent|
  {
    if sent != [] {
      var x := sent[0];
      var tail := sent[1..];
      var lead' := FrameEnd + PredictionMessage(x.prediction);
      assert Recoverable(x);
      SteadyLeadHasNoMagic(x.prediction);
      assert DeviceChunks(sent)
        == [FrameMessage(x.image), PredictionMessage(x.prediction)] + DeviceChunks(tail);
      RunOneFrame(lead, x, DeviceChunks(tail));
      assert forall i :: 0 <= i < |tail| ==> Recoverable(tail[i]) by {
        forall i | 0 <= i < |tail| ensures Recoverable(tail[i]) {
          assert tail[i] == sent[i + 1];
        }
      }
      ViewerRecoversStream(lead', tail);
      var rest := RunLoop(lead', DeviceChunks(tail));
      FramesCons(Emission(lead + FrameStart, x.image), rest.emissions);
      assert Images(sent) == [x.image] + Images(tail);
      if |sent| > 1 { TailKeepsLast(sent); }
    }
  }

  /** The device's own stream, from the moment the viewer connects:
      every image it sends comes out of the viewer's loop, in order. */
  lemma ViewerRecoversDeviceStream(sent: seq<Sent>)
    requires forall i :: 0 <= i < |sent| ==> DeviceSendable(sent[i])
    ensures
      var r := RunLoop([], DeviceChunks(sent));
      !r.closed && r.fed == 2 * |sent| && Frames(r.emissions) == Images(sent)
  {
    forall i | 0 <= i < |sent|
      ensures Recoverable(sent[i])
    {
      ClassLabelsHaveNoMagic(sent[i].prediction);
    }
    ViewerRecoversStream([], sent);
  }

  /** The images the device sent, in order. */
  function Images(sent: seq<Sent>): (imgs: seq<seq<Byte>>)
    ensures |imgs| == |sent|
    ensures forall i :: 0 <= i < |sent| ==> imgs[i] == sent[i].image
  {
    if sent == [] then [] else [sent[0].image] + Images(sent[1..])
  }

  lemma IndexPastHead<T>(head: seq<T>, rest: seq<T>, k: nat)
    requires |head| == 2 && k < |rest|
    ensures (head + rest)[k + 2] == rest[k]
  {
  }

  lemma TailKeepsLast<T>(s: seq<T>)
    requires |s| > 1
    ensures s[1..][|s| - 2] == s[|s| - 1]
  {
  }

  lemma FramesCons(e: Emission, es: seq<Emission>)
    ensures Frames([e] + es) == [e.frame] + Frames(es)
  {
    assert ([e] + es)[1..] == es;
  }
}

/** The viewer's receive loop (streaming_client_cnn.py): each received chunk
    is appended to a growable buffer, the buffer is searched for the first
    `BM`, the BMP file-size field after it decides how many bytes make up
    the frame, and at most one frame is cut out before the next receive.
    One iteration of the loop is the pure function `Step`; `RunLoop` folds
    it over a sequence of received chunks. */
module Viewer {
  import opened Bytes
  import opened BmpHeader

  /** The most bytes one `sock.recv` call returns. */
  const RecvLimit: nat := 4096

  /** The outcome of the single extraction attempt made on the buffer
      after a chunk was appended. */
  datatype Attempt =
    | NoHeader                                  // no `BM` in the buffer
    | HeaderIncomplete(start: nat)              // `BM` found, size field not all here
    | BodyIncomplete(start: nat, size: nat)     // size known, frame not all here
    | Extracted(start: nat, frame: seq<Byte>, rest: seq<Byte>)

  /** A frame cut out of the buffer, together with the bytes in front of
      it that the cut threw away. */
  datatype Emission = Emission(skipped: seq<Byte>, frame: seq<Byte>)

  /** One pass of the receive loop: either the loop ends (an empty chunk),
      or it goes on with a new buffer and perhaps one frame. */
  datatype StepResult =
    | Stop
    | Continue(buffer: seq<Byte>, emitted: Option<Emission>)

  /** The extraction attempt: find the first `BM`, read the declared size,
      and cut `[start, start + size)` out when that much is buffered. */
  function Extract(buf: seq<Byte>): (r: Attempt)
    ensures r.NoHeader? <==> NoMagic(buf)
    ensures !r.NoHeader? ==> IsFirstMagic(buf, r.start)
    ensures r.HeaderIncomplete? ==> |buf| < r.start + HeaderPrefixLength
    ensures r.BodyIncomplete? ==>
      && r.start + HeaderPrefixLength <= |buf| < r.start + r.size
      && r.size == DeclaredSize(buf, r.start)
    ensures r.Extracted? ==>
      && r.start + HeaderPrefixLength <= |buf|
      && |r.frame| == DeclaredSize(buf, r.start)
      && buf == buf[..r.start] + r.frame + r.rest
      && NoMagic(buf[..r.start])
      && (|r.frame| >= 2 ==> r.frame[..2] == Magic)
  {
    match FindMagic(buf)
    case None => NoHeader
    case Some(s) =>
      if |buf| < s + HeaderPrefixLength then HeaderIncomplete(s)
      else
        var size := DeclaredSize(buf, s);
        if |buf| < s + size then BodyIncomplete(s, size)
        else
          SplitThree(buf, s, s + size);
          NoMagicBeforeFirst(buf, s);
          SliceAtMagic(buf, s, size);
          Extracted(s, buf[s .. s + size], buf[s + size..])
  }

  /** One iteration of the receive loop, fed the chunk `recv` returned. */
  function Step(buffer: seq<Byte>, chunk: seq<Byte>): (r: StepResult)
    ensures r.Stop? <==> chunk == []
    ensures r.Continue? && r.emitted.None? ==> r.buffer == buffer + chunk
    ensures r.Continue? && r.emitted.Some? ==>
      var e := r.emitted.value;
      && buffer + chunk == e.skipped + e.frame + r.buffer
      && NoMagic(e.skipped)
      && (|e.frame| >= 2 ==> e.frame[..2] == Magic)
  {
    if chunk == [] then Stop
    else
      var buf := buffer + chunk;
      match Extract(buf)
      case Extracted(s, frame, rest) =>
        Continue(rest, Some(Emission(buf[..s], frame)))
      case _ => Continue(buf, None)
  }

  /** When the step emits nothing, one of the three waiting conditions of
      the loop holds, and conversely. */
  lemma StepEmitsNothingIff(buffer: seq<Byte>, chunk: seq<Byte>)
    requires chunk != []
    ensures
      var buf := buffer + chunk;
      Step(buffer, chunk).emitted.None? <==>
        || NoMagic(buf)
        || (exists s :: IsFirstMagic(buf, s) && |buf| < s + HeaderPrefixLength)
        || (exists s :: IsFirstMagic(buf, s) && s + HeaderPrefixLength <= |buf|
                        && |buf| < s + DeclaredSize(buf, s))
  {
    var buf := buffer + chunk;
    var a := Extract(buf);
    if !a.NoHeader? {
      forall s | IsFirstMagic(buf, s)
        ensures s == a.start
      {
        FirstMagicUnique(buf, s, a.start);
      }
    }
  }

  /** `find` has a single answer. */
  lemma FirstMagicUnique(buf: seq<Byte>, s: int, t: int)
    requires IsFirstMagic(buf, s) && IsFirstMagic(buf, t)
    ensures s == t
  {
  }

  /** A frame is cut at the first magic: the frame is exactly the declared
      number of bytes from there, the new buffer exactly what follows. */
  lemma StepExtractsAtFirstMagic(buffer: seq<Byte>, chunk: seq<Byte>, s: nat)
    requires chunk != []
    requires IsFirstMagic(buffer + chunk, s)
    requires s + HeaderPrefixLength <= |buffer + chunk|
    requires s + DeclaredSize(buffer + chunk, s) <= |buffer + chunk|
    ensures
      var buf := buffer + chunk;
      var n := DeclaredSize(buf, s);
      Step(buffer, chunk)
        == Continue(buf[s + n..], Some(Emission(buf[..s], buf[s .. s + n])))
  {
    var buf := buffer + chunk;
    FirstMagicUnique(buf, s, FindMagic(buf).value);
  }

  /** Declared size 0: an empty frame comes out and the buffer still starts
      at the same `BM`, so every later non-empty chunk finds that header
      again, emits another empty frame and keeps the whole buffer. */
  lemma StepZeroSizeRefindsHeader(buffer: seq<Byte>, chunk: seq<Byte>, s: nat, next: seq<Byte>)
    requires chunk != [] && next != []
    requires IsFirstMagic(buffer + chunk, s)
    requires s + HeaderPrefixLength <= |buffer + chunk|
    requires DeclaredSize(buffer + chunk, s) == 0
    ensures
      var buf := buffer + chunk;
      Step(buffer, chunk) == Continue(buf[s..], Some(Emission(buf[..s], [])))
    ensures
      var kept := (buffer + chunk)[s..];
      Step(kept, next) == Continue(kept + next, Some(Emission([], [])))
  {
    var buf := buffer + chunk;
    var kept := buf[s..];
    assert Step(buffer, chunk) == Continue(kept, Some(Emission(buf[..s], []))) by {
      StepExtractsAtFirstMagic(buffer, chunk, s);
      assert buf[s + 0..] == kept;
    }
    HeaderAfterDrop(buf, s);
    StepEmptyHeaderAgain(kept, next);
  }

  /** A buffer that starts with a header declaring size 0 yields an empty
      frame on every non-empty chunk and never shrinks. */
  lemma StepEmptyHeaderAgain(kept: seq<Byte>, next: seq<Byte>)
    requires next != []
    requires MagicAt(kept, 0) && HeaderPrefixLength <= |kept|
    requires DeclaredSize(kept, 0) == 0
    ensures Step(kept, next) == Continue(kept + next, Some(Emission([], [])))
  {
    var buf := kept + next;
    assert buf[0] == kept[0] && buf[1] == kept[1];
    assert buf[2..6] == kept[2..6];
    StepExtractsAtFirstMagic(kept, next, 0);
    assert buf[0..] == buf;
  }

  /** Declared size 1: the frame is the lone `B` and only that byte (and
      whatever came before it) leaves the buffer. */
  lemma StepSizeOneDropsOnlyB(buffer: seq<Byte>, chunk: seq<Byte>, s: nat)
    requires chunk != []
    requires IsFirstMagic(buffer + chunk, s)
    requires s + HeaderPrefixLength <= |buffer + chunk|
    requires DeclaredSize(buffer + chunk, s) == 1
    ensures
      var buf := buffer + chunk;
      Step(buffer, chunk) == Continue(buf[s + 1..], Some(Emission(buf[..s], [MagicB])))
  {
    StepExtractsAtFirstMagic(buffer, chunk, s);
    var buf := buffer + chunk;
    assert buf[s .. s + 1] == [buf[s]] == [MagicB];
  }

  /** Bytes with no `BM` followed by a complete
      BMP file: the step skips exactly those bytes, gives up exactly that
      file and keeps everything after it. */
  lemma StepCutsFileAfterNoise(
    buffer: seq<Byte>, chunk: seq<Byte>, p: seq<Byte>, f: seq<Byte>, tail: seq<Byte>)
    requires chunk != []
    requires NoMagic(p)
    requires WellFormedBmp(f)
    requires buffer + chunk == p + f + tail
    ensures Step(buffer, chunk) == Continue(tail, Some(Emission(p, f)))
  {
    var buf := p + f + tail;
    FirstMagicAfterPrefix(p, f, tail);
    FileSizeAfterNoise(p, f, tail);
    StepExtractsAtFirstMagic(buffer, chunk, |p|);
    assert buf[..|p|] == p;
    assert buf[|p| .. |p| + |f|] == f;
    assert buf[|p| + |f|..] == tail;
  }

  lemma FileSizeAfterNoise(p: seq<Byte>, f: seq<Byte>, tail: seq<Byte>)
    requires WellFormedBmp(f)
    ensures |p| + HeaderPrefixLength <= |p + f + tail|
    ensures DeclaredSize(p + f + tail, |p|) == |f|
  {
    assert (p + f + tail)[|p| + 2 .. |p| + 6] == f[2..6];
  }

  /** A buffer that starts with a complete BMP file gives up exactly that
      file and keeps everything after it. */
  lemma StepCutsLeadingFile(buffer: seq<Byte>, chunk: seq<Byte>, f: seq<Byte>, tail: seq<Byte>)
    requires chunk != []
    requires buffer + chunk == f + tail
    requires WellFormedBmp(f)
    ensures Step(buffer, chunk) == Continue(tail, Some(Emission([], f)))
  {
    assert [] + f + tail == f + tail;
    StepCutsFileAfterNoise(buffer, chunk, [], f, tail);
  }

  /** Two complete BMP files in the buffer: one step cuts out only the
      first and keeps the second whole; an empty chunk then ends the loop
      with the second still buffered, while a non-empty one releases it. */
  lemma StepOneFramePerChunk(
    buffer: seq<Byte>, chunk: seq<Byte>, f1: seq<Byte>, f2: seq<Byte>, next: seq<Byte>)
    requires chunk != [] && next != []
    requires buffer + chunk == f1 + f2
    requires WellFormedBmp(f1) && WellFormedBmp(f2)
    ensures Step(buffer, chunk) == Continue(f2, Some(Emission([], f1)))
    ensures Step(f2, []) == Stop
    ensures Step(f2, next) == Continue(next, Some(Emission([], f2)))
  {
    StepCutsLeadingFile(buffer, chunk, f1, f2);
    StepCutsLeadingFile(f2, next, f2, next);
  }

  // ---------------------------------------------------------------------
  // The loop over a whole sequence of received chunks.

  /** The state after running the loop over a list of chunks: the final
      buffer, the frames emitted in order, the bytes received by the steps
      that continued, how many chunks those were, and whether an empty
      chunk ended the loop. */
  datatype RunState = RunState(
    buffer: seq<Byte>, emissions: seq<Emission>, received: seq<Byte>, fed: nat, closed: bool)

  function Concat(chunks: seq<seq<Byte>>): seq<Byte>
  {
    if chunks == [] then [] else chunks[0] + Concat(chunks[1..])
  }

  /** Every byte accounted for by a list of emissions, in stream order. */
  function Flatten(es: seq<Emission>): seq<Byte>
  {
    if es == [] then [] else es[0].skipped + es[0].frame + Flatten(es[1..])
  }

  /** The frames alone, as the display receives them. */
  function Frames(es: seq<Emission>): (fs: seq<seq<Byte>>)
    ensures |fs| == |es|
    ensures forall i :: 0 <= i < |es| ==> fs[i] == es[i].frame
  {
    if es == [] then [] else [es[0].frame] + Frames(es[1..])
  }

  function EmittedList(e: Option<Emission>): (l: seq<Emission>)
    ensures |l| <= 1
  {
    match e
    case None => []
    case Some(x) => [x]
  }

  /** What any run of the loop over `chunks` satisfies: it consumed a
      prefix of the chunks, all of them non-empty, stopped early exactly
      at the first empty chunk, and emitted at most one frame per chunk
      consumed. */
  predicate RunShape(r: RunState, chunks: seq<seq<Byte>>)
  {
    && r.fed <= |chunks|
    && (forall i :: 0 <= i < r.fed ==> chunks[i] != [])
    && (r.closed <==> r.fed < |chunks|)
    && (r.closed ==> chunks[r.fed] == [])
    && |r.emissions| <= r.fed
  }

  /** `while True: chunk = sock.recv(4096); ...` over the given chunks;
      running out of chunks leaves the loop waiting, not closed. The loop
      is split into `RunLoop`, `Receive` and `Pass` so that the verifier
      unfolds `Step` only where a proof asks for it. */
  function RunLoop(buffer: seq<Byte>, chunks: seq<seq<Byte>>): (r: RunState)
    ensures RunShape(r, chunks)
    decreases |chunks|, 2
  {
    if chunks == [] then RunState(buffer, [], [], 0, false)
    else Receive(buffer, chunks)
  }

  /** `if not chunk: break`, otherwise one pass of the loop body. */
  function Receive(buffer: seq<Byte>, chunks: seq<seq<Byte>>): (r: RunState)
    requires chunks != []
    ensures RunShape(r, chunks)
    decreases |chunks|, 1
  {
    if chunks[0] == [] then RunState(buffer, [], [], 0, true)
    else Pass(buffer, chunks)
  }

  /** One pass of the loop body on a non-empty chunk, then the loop over
      the remaining chunks. */
  function Pass(buffer: seq<Byte>, chunks: seq<seq<Byte>>): (r: RunState)
    requires chunks != [] && chunks[0] != []
    ensures RunShape(r, chunks)
    decreases |chunks|, 0
  {
    var step := Step(buffer, chunks[0]);
    var rest := RunLoop(step.buffer, chunks[1..]);
    RunState(rest.buffer, EmittedList(step.emitted) + rest.emissions,
             chunks[0] + rest.received, rest.fed + 1, rest.closed)
  }

  /** On a non-empty first chunk the loop makes one pass. */
  lemma RunMakesPass(buffer: seq<Byte>, chunks: seq<seq<Byte>>)
    requires chunks != [] && chunks[0] != []
    ensures RunLoop(buffer, chunks) == Pass(buffer, chunks)
  {
    assert RunLoop(buffer, chunks) == Receive(buffer, chunks);
  }

  /** On an empty first chunk the loop ends with nothing emitted and the
      buffer as it was. */
  lemma RunClosesOnEmpty(buffer: seq<Byte>, chunks: seq<seq<Byte>>)
    requires chunks != [] && chunks[0] == []
    ensures RunLoop(buffer, chunks) == RunState(buffer, [], [], 0, true)
  {
    assert RunLoop(buffer, chunks) == Receive(buffer, chunks);
  }

  /** The loop over a non-empty first chunk is that chunk's step followed
      by the loop over the remaining chunks: the step turns the starting
      buffer and the chunk into at most one emission and a new buffer. */
  lemma RunLoopCons(buffer: seq<Byte>, chunks: seq<seq<Byte>>)
    returns (b: seq<Byte>, first: seq<Emission>)
    requires chunks != [] && chunks[0] != []
    ensures buffer + chunks[0] == Flatten(first) + b
    ensures |first| <= 1
    ensures forall i :: 0 <= i < |first| ==> NoMagic(first[i].skipped)
    ensures
      var rest := RunLoop(b, chunks[1..]);
      RunLoop(buffer, chunks)
        == RunState(rest.buffer, first + rest.emissions, chunks[0] + rest.received,
                    rest.fed + 1, rest.closed)
  {
    var step := Step(buffer, chunks[0]);
    b := step.buffer;
    first := EmittedList(step.emitted);
    StepConservesBytes(buffer, chunks[0]);
    RunMakesPass(buffer, chunks);
  }

  /** The loop over chunks whose first step is known. */
  lemma RunAfterStep(buffer: seq<Byte>, chunks: seq<seq<Byte>>, b: seq<Byte>, e: Option<Emission>)
    requires chunks != [] && Step(buffer, chunks[0]) == Continue(b, e)
    ensures
      var rest := RunLoop(b, chunks[1..]);
      RunLoop(buffer, chunks)
        == RunState(rest.buffer, EmittedList(e) + rest.emissions,
                    chunks[0] + rest.received, rest.fed + 1, rest.closed)
  {
    RunMakesPass(buffer, chunks);
  }

  /** How the bytes are split into chunks changes what the loop emits:
      two complete files arriving in one chunk give one frame (the second
      stays buffered), arriving in two chunks give both. */
  lemma RunDependsOnChunking(f1: seq<Byte>, f2: seq<Byte>)
    requires WellFormedBmp(f1) && WellFormedBmp(f2)
    ensures Frames(RunLoop([], [f1 + f2]).emissions) == [f1]
    ensures RunLoop([], [f1 + f2]).buffer == f2
    ensures Frames(RunLoop([], [f1, f2]).emissions) == [f1, f2]
    ensures RunLoop([], [f1, f2]).buffer == []
  {
    var none: seq<seq<Byte>> := [];
    var empty: seq<Byte> := [];
    assert f1 + empty == f1 && f2 + empty == f2;
    RunStartsWithFile(f1, f2, none);
    assert [f1 + f2] + none == [f1 + f2];
    RunStartsWithFile(f1, empty, [f2]);
    assert [f1 + empty] + [f2] == [f1, f2];
    RunStartsWithFile(f2, empty, none);
    assert [f2 + empty] + none == [f2];
  }

  /** A first chunk that opens with a complete file, on an empty buffer:
      the file is emitted and the rest of the chunk is kept. */
  lemma RunStartsWithFile(f: seq<Byte>, tail: seq<Byte>, more: seq<seq<Byte>>)
    requires WellFormedBmp(f)
    ensures
      var rest := RunLoop(tail, more);
      RunLoop([], [f + tail] + more)
        == RunState(rest.buffer, [Emission([], f)] + rest.emissions,
                    (f + tail) + rest.received, rest.fed + 1, rest.closed)
  {
    var chunks := [f + tail] + more;
    assert chunks[0] == f + tail && chunks[1..] == more;
    StepCutsLeadingFile([], f + tail, f, tail);
    RunAfterStep([], chunks, tail, Some(Emission([], f)));
  }

  lemma {:induction false} FlattenAppend(a: seq<Emission>, b: seq<Emission>)
    ensures Flatten(a + b) == Flatten(a) + Flatten(b)
  {
    if a == [] {
      assert a + b == b;
    } else {
      assert (a + b)[1..] == a[1..] + b;
      FlattenAppend(a[1..], b);
    }
  }

  /** One step loses and duplicates no byte. */
  lemma StepConservesBytes(buffer: seq<Byte>, chunk: seq<Byte>)
    requires chunk != []
    ensures
      var step := Step(buffer, chunk);
      buffer + chunk == Flatten(EmittedList(step.emitted)) + step.buffer
  {
    var step := Step(buffer, chunk);
    match step.emitted
    case None =>
      assert Flatten([]) == [];
    case Some(e) =>
      assert Flatten([e]) == e.skipped + e.frame + Flatten([]);
  }

  /** The bytes the loop received are exactly the chunks it fed to a
      step, in order. */
  lemma {:induction false} RunReceivesFedChunks(buffer: seq<Byte>, chunks: seq<seq<Byte>>)
    ensures
      var r := RunLoop(buffer, chunks);
      r.received == Concat(chunks[..r.fed])
    decreases |chunks|
  {
    var r := RunLoop(buffer, chunks);
    if chunks == [] {
      assert chunks[..r.fed] == [];
    } else if chunks[0] == [] {
      RunClosesOnEmpty(buffer, chunks);
      assert chunks[..r.fed] == [];
    } else {
      var b, _ := RunLoopCons(buffer, chunks);
      var rest := RunLoop(b, chunks[1..]);
      RunReceivesFedChunks(b, chunks[1..]);
      assert chunks[..r.fed][0] == chunks[0];
      assert chunks[..r.fed][1..] == chunks[1..][..rest.fed];
    }
  }

  /** No byte is lost or duplicated by the loop: the starting buffer plus
      every byte received equals, in order, the discarded prefixes and
      emitted frames followed by the final buffer. */
  lemma {:induction false} RunConservesBytes(buffer: seq<Byte>, chunks: seq<seq<Byte>>)
    ensures
      var r := RunLoop(buffer, chunks);
      buffer + r.received == Flatten(r.emissions) + r.buffer
    decreases |chunks|
  {
    if chunks == [] {
      assert Flatten([]) == [];
    } else if chunks[0] == [] {
      RunClosesOnEmpty(buffer, chunks);
      assert Flatten([]) == [];
    } else {
      var b, first := RunLoopCons(buffer, chunks);
      var rest := RunLoop(b, chunks[1..]);
      RunConservesBytes(b, chunks[1..]);
      FlattenAppend(first, rest.emissions);
      Regroup(buffer, chunks[0], Flatten(first), b, rest.received, Flatten(rest.emissions), rest.buffer);
    }
  }

  lemma Regroup(x: seq<Byte>, c: seq<Byte>, h: seq<Byte>, b: seq<Byte>, t: seq<Byte>, f: seq<Byte>, e: seq<Byte>)
    requires x + c == h + b
    requires b + t == f + e
    ensures x + (c + t) == (h + f) + e
  {
    calc {
      x + (c + t);
      (x + c) + t;
      (h + b) + t;
      h + (b + t);
      h + (f + e);
    }
  }

  /** The discarded prefixes contain no `BM`: a frame is never skipped
      over. */
  lemma {:induction false} RunSkipsOnlyNoise(buffer: seq<Byte>, chunks: seq<seq<Byte>>)
    ensures
      var r := RunLoop(buffer, chunks);
      forall i :: 0 <= i < |r.emissions| ==> NoMagic(r.emissions[i].skipped)
    decreases |chunks|
  {
    if chunks != [] && chunks[0] != [] {
      var b, first := RunLoopCons(buffer, chunks);
      var rest := RunLoop(b, chunks[1..]);
      var r := RunLoop(buffer, chunks);
      RunSkipsOnlyNoise(b, chunks[1..]);
      forall i | 0 <= i < |r.emissions|
        ensures NoMagic(r.emissions[i].skipped)
      {
        if i >= |first| {
          assert r.emissions[i] == rest.emissions[i - |first|];
        } else {
          assert r.emissions[i] == first[i];
        }
      }
    }
  }
}

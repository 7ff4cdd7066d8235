/**
  The microphone recorder: a buffer of audio blocks filled by the input
  stream's callback between start and stop.  The clock is passed in as whole
  milliseconds and the samples are of an abstract type; what stop hands back
  is either nothing (the recording is discarded) or the samples that would
  be written out as a WAV file.
*/
module Recorder {

  /** MIN_DURATION_SECS, in milliseconds: shorter recordings are ignored. */
  const MinDurationMs: int := 500

  /** What stop returns: the empty byte string, or a WAV file holding the
      given samples. */
  datatype Capture<T> = Discarded | Wav(samples: seq<T>)

  /** np.concatenate over the blocks, in arrival order. */
  function Flatten<T>(blocks: seq<seq<T>>): seq<T> {
    if blocks == [] then [] else Flatten(blocks[..|blocks| - 1]) + blocks[|blocks| - 1]
  }

  /** Sum of the block lengths. */
  function TotalLength<T>(blocks: seq<seq<T>>): nat {
    if blocks == [] then 0 else TotalLength(blocks[..|blocks| - 1]) + |blocks[|blocks| - 1]|
  }

  /** The outcome of stop for the buffered blocks and the time elapsed since
      start: nothing when no block arrived or less than the minimum duration
      elapsed, otherwise every buffered sample in arrival order. */
  function Outcome<T>(frames: seq<seq<T>>, elapsed: int): (c: Capture<T>)
    ensures c.Discarded? <==> frames == [] || elapsed < MinDurationMs
  {
    if frames == [] || elapsed < MinDurationMs then Discarded else Wav(Flatten(frames))
  }

  // ---------------------------------------------------------------------
  // Concatenation

  /** The recording is as long as all its blocks together. */
  lemma {:induction false} FlattenLength<T>(blocks: seq<seq<T>>)
    ensures |Flatten(blocks)| == TotalLength(blocks)
    decreases |blocks|
  {
    if blocks != [] {
      FlattenLength(blocks[..|blocks| - 1]);
    }
  }

  /** Recordings split anywhere concatenate back to the whole. */
  lemma {:induction false} FlattenSplit<T>(a: seq<seq<T>>, b: seq<seq<T>>)
    ensures Flatten(a + b) == Flatten(a) + Flatten(b)
    decreases |b|
  {
    if b == [] {
      assert a + b == a;
    } else {
      var n := |b| - 1;
      assert (a + b)[..|a + b| - 1] == a + b[..n];
      FlattenSplit(a, b[..n]);
    }
  }

  /** Arrival order: sample i of block j sits right after all the samples of
      the blocks that arrived before it. */
  lemma {:induction false} FlattenPlacesSample<T>(blocks: seq<seq<T>>, j: nat, i: nat)
    requires j < |blocks| && i < |blocks[j]|
    ensures TotalLength(blocks[..j]) + i < |Flatten(blocks)|
    ensures Flatten(blocks)[TotalLength(blocks[..j]) + i] == blocks[j][i]
  {
    var before := blocks[..j];
    var after := blocks[j + 1..];
    assert blocks == before + [blocks[j]] + after;
    FlattenSplit(before + [blocks[j]], after);
    assert (before + [blocks[j]])[..j] == before;
    assert Flatten(before + [blocks[j]]) == Flatten(before) + blocks[j];
    FlattenLength(before);
  }

  // ---------------------------------------------------------------------
  // The duration threshold

  /** The comparison is strict: a recording of exactly the minimum duration
      is kept, one a millisecond shorter is not. */
  lemma {:induction false} ThresholdIsInclusive<T>(frames: seq<seq<T>>)
    requires frames != []
    ensures Outcome(frames, MinDurationMs) == Wav(Flatten(frames))
    ensures Outcome(frames, MinDurationMs - 1) == Discarded
  {
  }

  /** Sample i of block j is found in `audio` right after all the samples
      of the blocks that arrived before block j. */
  ghost predicate InArrivalOrder<T>(audio: seq<T>, blocks: seq<seq<T>>, j: nat, i: nat)
    requires j < |blocks| && i < |blocks[j]|
  {
    TotalLength(blocks[..j]) + i < |audio| && audio[TotalLength(blocks[..j]) + i] == blocks[j][i]
  }

  /** A kept recording holds every buffered sample, and only those, in
      arrival order. */
  lemma {:induction false} KeptRecordingIsComplete<T>(frames: seq<seq<T>>, elapsed: int)
    requires Outcome(frames, elapsed).Wav?
    ensures |Outcome(frames, elapsed).samples| == TotalLength(frames)
    ensures forall j: nat, i: nat :: j < |frames| && i < |frames[j]| ==>
      InArrivalOrder(Outcome(frames, elapsed).samples, frames, j, i)
  {
    FlattenLength(frames);
    forall j: nat, i: nat | j < |frames| && i < |frames[j]|
      ensures InArrivalOrder(Outcome(frames, elapsed).samples, frames, j, i)
    {
      FlattenPlacesSample(frames, j, i);
    }
  }

  // ---------------------------------------------------------------------
  // The recorder

  class Recorder<T> {
    /** _frames: the blocks delivered since the last start. */
    var frames: seq<seq<T>>
    /** Whether _stream holds an open input stream. */
    var streamOpen: bool
    /** _start_time, in milliseconds. */
    var startTime: int

    /** __init__: no frames, no stream, start time zero. */
    constructor()
      ensures frames == [] && !streamOpen && startTime == 0
    {
      frames := [];
      streamOpen := false;
      startTime := 0;
    }

    /** start: empty the buffer, stamp the time and open the stream. */
    method Start(now: int)
      modifies this
      ensures frames == [] && streamOpen && startTime == now
    {
      frames := [];
      startTime := now;
      streamOpen := true;
    }

    /** _callback: append one copy of the delivered block; the status flags
        are ignored. */
    method Callback(block: seq<T>, status: bool)
      modifies this
      ensures frames == old(frames) + [block]
      ensures streamOpen == old(streamOpen) && startTime == old(startTime)
    {
      frames := frames + [block];
    }

    /** stop: close the stream if one is open, then hand back the recording
        or nothing, leaving the buffer empty either way.  Calling it with no
        stream open is allowed. */
    method Stop(now: int) returns (c: Capture<T>)
      modifies this
      ensures c == Outcome(old(frames), now - old(startTime))
      ensures frames == [] && !streamOpen && startTime == old(startTime)
    {
      var duration := now - startTime;
      if streamOpen {
        streamOpen := false;
      }
      if frames == [] || duration < MinDurationMs {
        frames := [];
        c := Discarded;
        return;
      }
      var audio := Flatten(frames);
      frames := [];
      c := Wav(audio);
    }
  }

  // ---------------------------------------------------------------------
  // Driving the recorder

  /** The input stream delivering `blocks` one after another, each through
      the callback. */
  method Deliver<T>(r: Recorder<T>, blocks: seq<seq<T>>)
    modifies r
    ensures r.frames == old(r.frames) + blocks
    ensures r.streamOpen == old(r.streamOpen) && r.startTime == old(r.startTime)
  {
    var i := 0;
    while i < |blocks|
      invariant 0 <= i <= |blocks|
      invariant r.frames == old(r.frames) + blocks[..i]
      invariant r.streamOpen == old(r.streamOpen) && r.startTime == old(r.startTime)
    {
      r.Callback(blocks[i], false);
      assert blocks[..i + 1] == blocks[..i] + [blocks[i]];
      i := i + 1;
    }
  }

  /** One start/stop cycle: what it returns depends only on the blocks
      delivered during it and on its own duration, never on an earlier
      cycle. */
  method Session<T>(r: Recorder<T>, started: int, blocks: seq<seq<T>>, stopped: int) returns (c: Capture<T>)
    modifies r
    ensures c == Outcome(blocks, stopped - started)
    ensures r.frames == [] && !r.streamOpen
  {
    r.Start(started);
    Deliver(r, blocks);
    assert r.frames == blocks && r.startTime == started;
    c := r.Stop(stopped);
  }

  /** Two cycles on one recorder: the second returns exactly the blocks
      delivered after its own start. */
  method TwoSessions<T>(first: seq<seq<T>>, second: seq<seq<T>>) returns (a: Capture<T>, b: Capture<T>)
    ensures a == Outcome(first, 1000) && b == Outcome(second, 1000)
  {
    var r := new Recorder<T>();
    a := Session(r, 0, first, 1000);
    b := Session(r, 2000, second, 3000);
  }

  /** stop on a recorder that was never started returns nothing. */
  method StopWithoutStart<T>() returns (c: Capture<T>)
    ensures c == Discarded
  {
    var r := new Recorder<T>();
    c := r.Stop(0);
  }
}

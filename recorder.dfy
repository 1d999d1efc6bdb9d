/** The microphone recorder of the meeting assistant: an object that is armed
    by `start`, collects the sample blocks the audio stream delivers through
    its callback, is disarmed by `stop`, and writes the collected audio as a
    16-bit WAV file with `save`. */
module Recorder {

  datatype Option<T> = None | Some(value: T)

  /** One frame: a sample per channel, as the stream delivers it (floats in
      [-1, 1] when the device behaves). */
  type Row = seq<real>

  /** One block handed to the callback: a run of consecutive frames. */
  type Block = seq<Row>

  const DefaultSampleRate: int := 44100
  const DefaultChannels: int := 1

  /** Full scale of the conversion to 16-bit samples. */
  const Int16Scale: int := 32767

  /** `np.concatenate(blocks, axis=0)`: the frames of every block, block after
      block. */
  function Flatten(blocks: seq<Block>): seq<Row>
    decreases |blocks|
  {
    if blocks == [] then [] else Flatten(blocks[..|blocks| - 1]) + blocks[|blocks| - 1]
  }

  /** The number of frames in all blocks together. */
  function TotalRows(blocks: seq<Block>): nat
    decreases |blocks|
  {
    if blocks == [] then 0 else |blocks[0]| + TotalRows(blocks[1..])
  }

  /** `astype(np.int16)` after scaling by 32767: the cast drops the fraction,
      rounding toward zero. */
  function Quantize(x: real): int {
    var y := x * Int16Scale as real;
    if y >= 0.0 then y.Floor else -((-y).Floor)
  }

  /** The 16-bit samples written for a run of frames. */
  function Int16Data(rows: seq<Row>): seq<seq<int>> {
    seq(|rows|, k requires 0 <= k < |rows| => seq(|rows[k]|, c requires 0 <= c < |rows[k]| => Quantize(rows[k][c])))
  }

  /** What `wav.write` is asked to store: the file name, the sample rate and
      the samples. */
  datatype WavFile = WavFile(path: string, rate: int, samples: seq<seq<int>>)

  /** The capture thread: started by `start`, joined by `stop`. */
  class CaptureThread {
    var alive: bool

    /** `threading.Thread(target=...)`: created but not yet running. */
    constructor ()
      ensures !alive
    {
      alive := false;
    }

    /** `thread.start()`. */
    method Start()
      modifies this
      ensures alive
    {
      alive := true;
    }

    /** `thread.join()`: returns once the capture loop has finished. */
    method Join()
      modifies this
      ensures !alive
    {
      alive := false;
    }
  }

  class AudioRecorder {
    const sampleRate: int
    const channels: int
    var recording: bool
    var frames: seq<Block>
    var thread: CaptureThread?

    /** A capture thread runs exactly while the recorder is armed; before the
        first `start` there is none. So a disarmed recorder has no thread
        that could still append blocks. */
    ghost predicate Valid()
      reads this, thread
    {
      && (thread == null ==> !recording)
      && (thread != null ==> thread.alive == recording)
    }

    /** A recorder is created disarmed, with an empty buffer and no thread. */
    constructor (sampleRate: int := DefaultSampleRate, channels: int := DefaultChannels)
      ensures this.sampleRate == sampleRate && this.channels == channels
      ensures !recording && frames == [] && thread == null
      ensures Valid()
    {
      this.sampleRate := sampleRate;
      this.channels := channels;
      recording := false;
      frames := [];
      thread := null;
    }

    /** Arms the recorder, empties the buffer and starts a new capture thread;
        on an armed recorder nothing changes. */
    method Start()
      requires Valid()
      modifies this
      ensures Valid() && recording
      ensures old(recording) ==> frames == old(frames) && thread == old(thread)
      ensures !old(recording) ==> frames == [] && fresh(thread)
    {
      if recording {
        return;
      }
      recording := true;
      frames := [];
      var t := new CaptureThread();
      t.Start();
      thread := t;
    }

    /** Disarms the recorder and waits for the capture thread to end; the
        buffer is kept for `save`. On a disarmed recorder nothing changes. */
    method Stop()
      requires Valid()
      modifies this`recording, thread
      ensures Valid() && !recording && frames == old(frames)
      ensures old(recording) ==> thread != null && !thread.alive
      ensures !old(recording) ==> thread == null || unchanged(thread)
    {
      if !recording {
        return;
      }
      recording := false;
      thread.Join();
    }

    /** The stream callback appends a copy of the delivered block, whether or
        not the recorder is armed. */
    method Callback(indata: Block)
      modifies this`frames
      ensures frames == old(frames) + [indata]
      ensures Flatten(frames) == Flatten(old(frames)) + indata
      ensures old(Valid()) ==> Valid()
    {
      frames := frames + [indata];
      assert frames[..|frames| - 1] == old(frames);
    }

    /** With an empty buffer nothing is written and the result is `None`;
        otherwise the blocks are joined in order, scaled to 16 bits and
        written under `filename` at the recorder's rate, and the name is
        returned. The buffer is left as it was. */
    method Save(filename: string) returns (saved: Option<string>, written: Option<WavFile>)
      ensures saved.None? <==> frames == []
      ensures written.None? <==> frames == []
      ensures saved.Some? ==> saved.value == filename
      ensures written.Some? ==> written.value.path == filename && written.value.rate == sampleRate
      ensures written.Some? ==> written.value.samples == Int16Data(Flatten(frames))
      ensures written.Some? ==> |written.value.samples| == TotalRows(frames)
    {
      if frames == [] {
        return None, None;
      }
      var audio := Flatten(frames);
      FlattenLength(frames);
      written := Some(WavFile(filename, sampleRate, Int16Data(audio)));
      saved := Some(filename);
    }
  }

  /** The module's own test run: a default recorder is started, the stream
      delivers `blocks` one by one, the recorder is stopped and the audio is
      saved as `test_recording.wav`. */
  method TestRecording(blocks: seq<Block>) returns (saved: Option<string>, written: Option<WavFile>)
    ensures saved.None? <==> blocks == []
    ensures written.None? <==> blocks == []
    ensures saved.Some? ==> saved.value == "test_recording.wav"
    ensures written.Some? ==> written.value.path == "test_recording.wav"
    ensures written.Some? ==> written.value.rate == DefaultSampleRate
    ensures written.Some? ==> written.value.samples == Int16Data(Flatten(blocks))
    ensures written.Some? ==> |written.value.samples| == TotalRows(blocks)
  {
    var recorder := new AudioRecorder();
    recorder.Start();
    var i := 0;
    while i < |blocks|
      invariant 0 <= i <= |blocks|
      invariant recorder.frames == blocks[..i]
      invariant recorder.recording && recorder.Valid()
      invariant recorder.sampleRate == DefaultSampleRate && fresh(recorder.thread)
    {
      recorder.Callback(blocks[i]);
      assert blocks[..i + 1] == blocks[..i] + [blocks[i]];
      i := i + 1;
    }
    assert blocks[..i] == blocks;
    recorder.Stop();
    saved, written := recorder.Save("test_recording.wav");
  }

  // ---------------------------------------------------------------------------
  // Properties of the saved audio

  /** Joining two runs of blocks joins their frames. */
  lemma {:induction false} FlattenConcat(a: seq<Block>, b: seq<Block>)
    ensures Flatten(a + b) == Flatten(a) + Flatten(b)
    decreases |b|
  {
    if b == [] {
      assert a + b == a;
    } else {
      var init := b[..|b| - 1];
      assert (a + b)[..|a + b| - 1] == a + init;
      FlattenConcat(a, init);
    }
  }

  /** The saved audio has as many frames as all blocks together. */
  lemma {:induction false} FlattenLength(blocks: seq<Block>)
    ensures |Flatten(blocks)| == TotalRows(blocks)
    decreases |blocks|
  {
    if blocks != [] {
      var rest := blocks[1..];
      assert blocks == [blocks[0]] + rest;
      FlattenConcat([blocks[0]], rest);
      assert Flatten([blocks[0]]) == blocks[0] by {
        assert [blocks[0]][..0] == [];
      }
      FlattenLength(rest);
    }
  }

  /** Frame `j` of block `i` lands in the saved audio right after the frames
      of the blocks before it: blocks keep their order and their content. */
  lemma {:induction false} FlattenIndex(blocks: seq<Block>, i: int, j: int)
    requires 0 <= i < |blocks| && 0 <= j < |blocks[i]|
    ensures TotalRows(blocks[..i]) + j < |Flatten(blocks)|
    ensures Flatten(blocks)[TotalRows(blocks[..i]) + j] == blocks[i][j]
  {
    var before, after := blocks[..i], blocks[i + 1..];
    assert blocks == before + [blocks[i]] + after;
    FlattenConcat(before + [blocks[i]], after);
    FlattenConcat(before, [blocks[i]]);
    assert Flatten([blocks[i]]) == blocks[i] by {
      assert [blocks[i]][..0] == [];
    }
    FlattenLength(before);
  }

  /** A sample in [-1, 1] becomes a 16-bit value within ±32767 that differs
      from the scaled sample by less than one, towards zero. */
  lemma {:induction false} QuantizeBounds(x: real)
    requires -1.0 <= x <= 1.0
    ensures -Int16Scale <= Quantize(x) <= Int16Scale
    ensures x >= 0.0 ==> Quantize(x) as real <= x * Int16Scale as real < Quantize(x) as real + 1.0
    ensures x < 0.0 ==> Quantize(x) as real - 1.0 < x * Int16Scale as real <= Quantize(x) as real
  {
  }
}

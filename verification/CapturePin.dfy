/** CCapturePin and CCaptureDevice (avstream/avshws/capture.cpp, device.cpp): the objects that
    program frames into the hardware and turn its totals into completed frames. */
module CapturePin {
  import opened Words
  import P = CapturePipeline
  import H = CaptureHardware

  /** What one pass of Process meets: whether clone and list entry succeed, and the frame's buffer. */
  datatype Pass = Pass(cloneOk: bool, allocOk: bool, buffer: array<byte>, pitch: int)

  function Outcomes(env: seq<Pass>): (r: seq<(bool, bool)>)
    ensures |r| == |env|
  {
    seq(|env|, i requires 0 <= i < |env| => (env[i].cloneOk, env[i].allocOk))
  }

  /** The hardware's buffers for the image fit those of all frames. */
  ghost predicate AllTake(hardware: H.HardwareSimulation, env: seq<Pass>) {
    forall i :: 0 <= i < |env| ==> TakesOne(hardware, env[i])
  }

  ghost predicate TakesOne(hardware: H.HardwareSimulation, pass: Pass) {
    forall count, frame :: hardware.Takes(H.SgEntry(pass.buffer, count, frame, pass.pitch))
  }

  class CapturePin {
    var frames: seq<P.Frame>
    var clones: seq<P.Clone>
    var previous: bool
    var frameNumber: nat
    var pendIo: bool

    constructor ()
      ensures frames == [] && clones == [] && !previous && frameNumber == 0 && !pendIo
    {
      frames, clones, previous, frameNumber, pendIo := [], [], false, 0, false;
    }

    ghost predicate Shows(s: P.Pipe)
      reads this
    {
      s.frames == frames && s.clones == clones && s.previous == previous && s.frameNumber == frameNumber
    }

    /** Programs the frames at the leading edge; asks to be called again exactly when a frame is
        left over or none was there. Whether their buffers take an image is not asked. */
    method Process(hardware: H.HardwareSimulation, env: seq<Pass>, ghost s: P.Pipe)
      requires Shows(s) && hardware.Shows(s) && hardware.Counting() && !s.advancing
      requires |env| >= |frames| && (previous ==> clones != [])
      modifies this, hardware`list, hardware`queued, hardware`bytesQueued
      ensures hardware.Counting() && (old(hardware.Ready()) && AllTake(hardware, env) ==> hardware.Ready())
      ensures Shows(P.Process(s, Outcomes(env))) && hardware.Shows(P.Process(s, Outcomes(env)))
      ensures pendIo == (old(pendIo) || old(frames) == [] || frames != [])
    {
      if frames == [] {
        pendIo := true;
        return;
      }
      ghost var ready := hardware.Ready() && AllTake(hardware, env);
      ProcessFrames(hardware, env, s, ready);
    }

    method ProcessFrames(hardware: H.HardwareSimulation, env: seq<Pass>, ghost s: P.Pipe, ghost ready: bool)
      requires Together(hardware, s) && hardware.Counting() && (ready ==> hardware.Ready() && AllTake(hardware, env))
      requires |env| >= |frames| && (previous ==> clones != [])
      modifies this, hardware`list, hardware`queued, hardware`bytesQueued
      ensures hardware.Counting() && (ready ==> hardware.Ready())
      ensures Together(hardware, P.Process(s, Outcomes(env)))
      ensures pendIo == (old(pendIo) || frames != [])
    {
      ghost var t, outcomes := s, Outcomes(env);
      assert outcomes[0..] == outcomes;
      var i := 0;
      while frames != []
        invariant hardware.Counting() && (ready ==> hardware.Ready())
        invariant Together(hardware, t) && pendIo == old(pendIo)
        invariant 0 <= i <= |env| && |env| - i >= |frames|
        invariant previous ==> clones != []
        invariant P.Process(t, outcomes[i..]) == P.Process(s, outcomes)
        decreases |frames|
      {
        assert outcomes[i..][0] == (env[i].cloneOk, env[i].allocOk) && outcomes[i..][1..] == outcomes[i + 1..];
        var more := ProcessLeading(hardware, env[i], t, ready);
        if !more {
          pendIo := true;
          break;
        }
        t := P.Passed(t, env[i].cloneOk, env[i].allocOk);
        i := i + 1;
      }
    }

    /** Between frames pin and hardware show the pipeline. */
    ghost predicate Together(hardware: H.HardwareSimulation, s: P.Pipe)
      reads this, hardware
    {
      Shows(s) && hardware.Shows(s) && !s.advancing
    }

    /** One frame: passed over without data, or programmed and advanced past if that succeeds. */
    method ProcessLeading(hardware: H.HardwareSimulation, pass: Pass, ghost s: P.Pipe, ghost ready: bool) returns (more: bool)
      requires Together(hardware, s) && hardware.Counting() && (ready ==> hardware.Ready() && TakesOne(hardware, pass))
      requires frames != [] && (previous ==> clones != [])
      modifies this`frames, this`clones, this`previous, hardware`list, hardware`queued, hardware`bytesQueued
      ensures hardware.Counting() && (ready ==> hardware.Ready()) && (previous ==> clones != [])
      ensures more == P.GoesOn(s, pass.cloneOk, pass.allocOk) && (!more ==> frames != [])
      ensures more ==> |frames| < |old(frames)|
      ensures Together(hardware, if more then P.Passed(s, pass.cloneOk, pass.allocOk) else P.Program(s, pass.cloneOk, pass.allocOk))
    {
      var frame := frames[0];
      if !frame.hasData {
        frames := frames[1..];
        return true;
      }
      var cloned, used := ProgramLeading(hardware, pass, s, ready);
      if !cloned || used == 0 {
        return false;
      }
      frames := frames[1..];
      clones := P.Account(clones, frame.name, frame.bytes);
      more := true;
    }

    /** Clones the leading frame, unless its clone is pending, and hands it to the hardware. */
    method ProgramLeading(hardware: H.HardwareSimulation, pass: Pass, ghost s: P.Pipe, ghost ready: bool)
      returns (cloned: bool, used: nat)
      requires Shows(s) && hardware.Shows(s) && hardware.Counting() && (ready ==> hardware.Ready() && TakesOne(hardware, pass))
      requires frames != [] && frames[0].hasData && (previous ==> clones != [])
      modifies this`clones, this`previous, hardware`list, hardware`queued, hardware`bytesQueued
      ensures hardware.Counting() && (ready ==> hardware.Ready())
      ensures previous ==> clones != []
      ensures cloned == (old(previous) || pass.cloneOk)
      ensures cloned ==> used == if pass.allocOk then frames[0].bytes else 0
      ensures Shows(P.Program(s, pass.cloneOk, pass.allocOk)) && hardware.Shows(P.Program(s, pass.cloneOk, pass.allocOk))
    {
      var frame := frames[0];
      cloned, used := previous || pass.cloneOk, 0;
      if cloned {
        if !previous {
          clones := clones + [P.Clone(frame.name, frame.bytes, 0)];
        }
        used := hardware.ProgramScatterGatherMappings(pass.buffer, frame.bytes, frame.name, pass.pitch, pass.allocOk);
        previous := used != frame.bytes;
      }
    }

    /** The DMA completion of `n` mappings: clones whose bytes are accounted go, in order. */
    method CompleteMappings(n: nat)
      modifies this`clones, this`frameNumber
      ensures var r := P.CompleteLoop(old(clones), n);
        clones == r.0 && frameNumber == old(frameNumber) + r.1
    {
      var mappingsRemaining := n;
      ghost var deleted := 0;
      while mappingsRemaining > 0 && clones != []
        invariant frameNumber == old(frameNumber) + deleted
        invariant var r, r0 := P.CompleteLoop(clones, mappingsRemaining), P.CompleteLoop(old(clones), n);
          r0.0 == r.0 && r0.1 == deleted + r.1
        decreases mappingsRemaining
      {
        var c := clones[0];
        if c.dataUsed >= c.remaining {
          frameNumber := frameNumber + 1;
          deleted := deleted + 1;
          mappingsRemaining := mappingsRemaining - 1;
          clones := clones[1..];
        } else {
          clones := [c.(remaining := c.remaining - c.dataUsed)] + clones[1..];
          mappingsRemaining := 0;
        }
      }
    }

    /** Every clone is deleted; the previous stream pointer is left as it is. */
    method CleanupReferences(ghost s: P.Pipe)
      requires Shows(s)
      modifies this`clones
      ensures Shows(P.Cleanup(s))
    {
      while clones != []
        invariant Shows(s.(clones := clones))
        decreases |clones|
      {
        clones := clones[1..];
      }
    }
  }

  class CaptureDevice {
    const hardware: H.HardwareSimulation
    const captureSink: CapturePin
    var lastMappingsCompleted: nat
    var interruptTime: nat

    constructor (hardware: H.HardwareSimulation, captureSink: CapturePin)
      ensures this.hardware == hardware && this.captureSink == captureSink
      ensures lastMappingsCompleted == 0 && interruptTime == 0
    {
      this.hardware, this.captureSink, lastMappingsCompleted, interruptTime := hardware, captureSink, 0, 0;
    }

    ghost predicate Shows(s: P.Pipe)
      reads this, hardware, captureSink
    {
      hardware.Shows(s) && captureSink.Shows(s) && s.last == lastMappingsCompleted
    }

    /** The mappings completed since the last interrupt are handed to the pin. */
    method Interrupt(ghost s: P.Pipe)
      requires Shows(s)
      modifies this, captureSink`clones, captureSink`frameNumber
      ensures Shows(P.Interrupt(s)) && interruptTime == U32(old(interruptTime) + 1)
    {
      interruptTime := U32(interruptTime + 1);
      var numMappingsCompleted := hardware.completed;
      captureSink.CompleteMappings(U32(numMappingsCompleted - lastMappingsCompleted));
      lastMappingsCompleted := numMappingsCompleted;
    }

    /** FakeHardware's part in the pipeline: fill, count a starved frame, interrupt. */
    method FakeHardware(ghost s: P.Pipe)
      requires Shows(s) && hardware.Ready()
      modifies this, hardware, captureSink`clones, captureSink`frameNumber
      modifies if hardware.list == [] then {} else {hardware.list[0].virtual}
      ensures hardware.Ready()
      ensures Shows(P.Interrupt(P.Fill(s, hardware.imageSize, Start(hardware.height, hardware.width))))
    {
      var filled := hardware.FillScatterGatherBuffers();
      if !filled {
        hardware.skipped := U32(hardware.skipped + 1);
      }
      Interrupt(P.Fill(s, hardware.imageSize, Start(hardware.height, hardware.width)));
    }
  }
}

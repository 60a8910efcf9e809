/** CSaveData (audio/sysvad/savedata.cpp): the object whose fields the ring of SaveRing abstracts. */
module SaveData {
  import opened Words
  import R = SaveRing

  class SaveData {
    const frameSize: nat
    const buffer: array<byte>
    const used: array<bool>
    const eventDone: array<bool>
    var offset: nat
    var index: nat
    var queue: seq<R.Task>
    var payload: seq<byte>
    var writeDisabled: bool

    /** The value of the whole object. */
    function State(): R.Ring
      reads this, buffer, used, eventDone
    {
      R.Ring(frameSize, buffer[..], offset, index, used[..], eventDone[..], queue, payload, writeDisabled)
    }

    ghost predicate Shaped()
      reads this, buffer, used, eventDone
    {
      used != eventDone && R.Shaped(State())
    }

    constructor (frameSize: nat)
      requires 0 < frameSize
      ensures Shaped() && State() == R.Initial(frameSize)
      ensures fresh(buffer) && fresh(used) && fresh(eventDone)
    {
      this.frameSize := frameSize;
      StartIsProduct(R.FRAME_COUNT, frameSize);
      buffer := new byte[R.FRAME_COUNT * frameSize](i => 0);
      used := new bool[R.FRAME_COUNT](i => false);
      eventDone := new bool[R.MAX_WORKER_ITEM_COUNT](i => true);
      offset, index, queue, payload, writeDisabled := 0, 0, [], [], false;
      new;
      R.InitialValid(frameSize);
      assert State().used == R.Initial(frameSize).used;
      assert State().done == R.Initial(frameSize).done;
      assert State().buffer == R.Initial(frameSize).buffer;
    }

    method Disable(disable: bool)
      modifies this`writeDisabled
      ensures State() == old(State()).(disabled := disable)
    {
      writeDisabled := disable;
    }

    /** Polls the pool entries' events in order; the pool's size stands for NULL. */
    method GetNewWorkItem() returns (item: nat)
      ensures item == R.FirstDone(eventDone[..])
    {
      for i := 0 to eventDone.Length
        invariant R.FirstDone(eventDone[..]) == i + R.FirstDone(eventDone[i..])
      {
        assert eventDone[i..][1..] == eventDone[i + 1..];
        if eventDone[i] {
          return i;
        }
      }
      return eventDone.Length;
    }

    method SaveFrame(frameNo: nat, dataSize: nat)
      requires used != eventDone
      modifies this`queue, eventDone
      ensures State() == R.SaveFrame(old(State()), frameNo, dataSize)
    {
      var item := GetNewWorkItem();
      if item < eventDone.Length {
        eventDone[item] := false;
        queue := queue + [R.Task(item, frameNo, dataSize)];
      }
    }

    /** The body of WriteData up to the end-of-frame bookkeeping. */
    method FillFrame(pBuffer: array<byte>, writeBytes: nat) returns (saveFrame: bool, saveFrameIndex: nat)
      requires Shaped() && writeBytes <= pBuffer.Length && pBuffer != buffer
      requires offset + writeBytes <= buffer.Length
      modifies this`offset, this`index, buffer, used
      ensures State() == R.Fill(old(State()), pBuffer[..writeBytes])
      ensures saveFrame == (old(offset) + writeBytes >= Start(old(index) + 1, frameSize))
      ensures saveFrame ==> saveFrameIndex == old(index)
    {
      R.Bounds(State());
      CopyIn(pBuffer, writeBytes);
      saveFrame, saveFrameIndex := CloseFrame();
    }

    /** The first copy, to the end of the buffer at most. */
    method CopyIn(pBuffer: array<byte>, writeBytes: nat)
      requires writeBytes <= pBuffer.Length && pBuffer != buffer && offset + writeBytes <= buffer.Length
      modifies this`offset, buffer
      ensures offset == old(offset) + writeBytes
      ensures State() == old(State()).(offset := offset, buffer := Patch(old(buffer[..]), old(offset), pBuffer[..writeBytes]))
    {
      assert pBuffer[..writeBytes] == pBuffer[0..0 + writeBytes];
      CopyMemory(buffer, offset, pBuffer, 0, writeBytes);
      offset := offset + writeBytes;
    }

    /** A frame that is full is marked used, and the next one becomes current. */
    method CloseFrame() returns (saveFrame: bool, saveFrameIndex: nat)
      requires used != eventDone && used.Length == R.FRAME_COUNT && index < R.FRAME_COUNT && 0 < frameSize
      requires buffer.Length == Start(R.FRAME_COUNT, frameSize)
      modifies this`offset, this`index, used
      ensures saveFrame == (old(offset) >= Start(old(index) + 1, frameSize))
      ensures saveFrame ==> saveFrameIndex == old(index)
      ensures State() == old(State()).(offset := if old(offset) == buffer.Length then 0 else old(offset),
                                       used := if saveFrame then old(used[..])[old(index) := true] else old(used[..]),
                                       index := if saveFrame then R.Next(old(index)) else old(index))
    {
      StartIsProduct(index + 1, frameSize);
      StartMono(index + 1, R.FRAME_COUNT, frameSize);
      saveFrame, saveFrameIndex := false, 0;
      if offset >= (index + 1) * frameSize {
        saveFrame := true;
      }
      if offset == buffer.Length {
        saveFrame := true;
        offset := 0;
      }
      if saveFrame {
        used[index] := true;
        assert used[..] == old(used[..])[index := true];
        saveFrameIndex := index;
        index := (index + 1) % R.FRAME_COUNT;
      }
    }

    /** Writes the left-over bytes if the next frame is available. */
    method WriteLeftOver(pBuffer: array<byte>, start: nat, count: nat)
      requires used.Length == R.FRAME_COUNT && index < R.FRAME_COUNT
      requires start <= count <= pBuffer.Length && pBuffer != buffer
      requires offset + (count - start) <= buffer.Length
      modifies this`offset, buffer
      ensures State() == R.Leftover(old(State()), pBuffer[start..count])
    {
      if start != count {
        if !used[index] {
          assert pBuffer[start..count] == pBuffer[start..start + (count - start)];
          CopyMemory(buffer, offset, pBuffer, start, count - start);
          offset := offset + (count - start);
        }
      }
    }

    method WriteData(pBuffer: array<byte>, byteCount: nat)
      requires Shaped() && byteCount <= pBuffer.Length && pBuffer != buffer
      modifies this`offset, this`index, this`queue, buffer, used, eventDone
      ensures Shaped() && State() == R.Write(old(State()), pBuffer[..byteCount])
    {
      R.WriteShaped(State(), pBuffer[..byteCount]);
      if writeDisabled {
        return;
      }
      if byteCount == 0 {
        return;
      }
      var count := if byteCount > frameSize then frameSize else byteCount;
      assert R.Clamped(State(), pBuffer[..byteCount]) == pBuffer[..count];
      if !used[index] {
        StoreData(pBuffer, byteCount, count);
      }
    }

    /** The part of WriteData that runs when the current frame is available. */
    method StoreData(pBuffer: array<byte>, ghost byteCount: nat, count: nat)
      requires Shaped() && 0 < byteCount <= pBuffer.Length && pBuffer != buffer
      requires !writeDisabled && !used[index]
      requires count <= byteCount && R.Clamped(State(), pBuffer[..byteCount]) == pBuffer[..count]
      modifies this`offset, this`index, this`queue, buffer, used, eventDone
      ensures State() == R.Write(old(State()), pBuffer[..byteCount])
    {
      var writeBytes := count;
      if buffer.Length - offset < writeBytes {
        writeBytes := buffer.Length - offset;
      }
      R.Bounds(State());
      R.FillLeavesRoom(State(), pBuffer[..count], writeBytes);
      assert pBuffer[..count][..writeBytes] == pBuffer[..writeBytes];
      assert pBuffer[..count][writeBytes..] == pBuffer[writeBytes..count];
      var saveFrame, saveFrameIndex := FillFrame(pBuffer, writeBytes);
      WriteLeftOver(pBuffer, writeBytes, count);
      if saveFrame {
        SaveFrame(saveFrameIndex, frameSize);
      }
    }

    /** SaveFrameWorkerCallback for the oldest queued item. */
    method SaveFrameWorkerCallback(written: bool)
      requires Shaped() && queue != []
      modifies this`queue, this`payload, used, eventDone
      ensures Shaped() && State() == R.Work(old(State()), written)
    {
      var task := queue[0];
      R.WorkShaped(State(), written);
      assert R.TaskShaped(State(), task);
      R.FrameBounds(task.frame, frameSize);
      StartIsProduct(task.frame, frameSize);
      if written {
        var data := task.frame * frameSize;
        payload := payload + buffer[data..data + task.size];
      }
      used[task.frame] := false;
      eventDone[task.item] := true;
      queue := queue[1..];
    }

    /** Saves the unfinished frame and waits until every queued item has run. */
    method WaitAllWorkItems()
      requires Shaped()
      modifies this`queue, this`payload, used, eventDone
      ensures Shaped() && State() == R.WaitAll(old(State()))
    {
      R.SavePartialShaped(State());
      StartIsProduct(index, frameSize);
      if offset > index * frameSize {
        SaveFrame(index, offset - index * frameSize);
      }
      while queue != []
        invariant Shaped() && R.Drain(State()) == R.WaitAll(old(State()))
        decreases |queue|
      {
        SaveFrameWorkerCallback(true);
      }
    }
  }
}

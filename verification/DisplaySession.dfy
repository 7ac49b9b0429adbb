/** The hand-off of src/display.c in its own form: two arrays shifted in place and the threads'
    locals, one method for each critical section or plane switch. Each method performs exactly
    the step of the transition system, so everything proved there holds of these methods run
    in any interleaving. */
module DisplaySession {
  import opened CTypes
  import opened TripleBuffer

  ghost function SlotsOf(arr: array<uint8>): Slots
    requires arr.Length == 3
    reads arr
  {
    Slots(arr[0], arr[1], arr[2])
  }

  method Forward(arr: array<uint8>)
    requires arr.Length == 3
    modifies arr
    ensures SlotsOf(arr) == Forwarded(old(SlotsOf(arr)))
    ensures arr[..] == old([arr[1], arr[2], 0])
  {
    arr[0] := arr[1];
    arr[1] := arr[2];
    arr[2] := 0;
  }

  method Put(arr: array<uint8>, data: uint8)
    requires arr.Length == 3
    modifies arr
    ensures SlotsOf(arr) == WithPut(old(SlotsOf(arr)), data)
    ensures arr[..] == if old(arr[0]) == 0 then [data, old(arr[1]), old(arr[2])]
                       else if old(arr[1]) == 0 then [old(arr[0]), data, old(arr[2])]
                       else if old(arr[2]) == 0 then [old(arr[0]), old(arr[1]), data]
                       else old(arr[..])
  {
    if arr[0] == 0 {
      arr[0] := data;
    } else if arr[1] == 0 {
      arr[1] := data;
    } else if arr[2] == 0 {
      arr[2] := data;
    }
  }

  class Session {
    const outputs: Outputs
    const currentDisplayBuffer: array<uint8>
    const currentAvailableBuffer: array<uint8>
    var writer: WriterPc
    var display: DisplayPc
    var displayBuffer: uint8
    var prevDisplayBuffer: uint8
    var hdmiPlane: uint8
    var compositePlane: uint8

    ghost predicate Valid() {
      && currentDisplayBuffer.Length == 3 && currentAvailableBuffer.Length == 3
      && currentDisplayBuffer != currentAvailableBuffer
    }

    ghost function View(): State
      requires Valid()
      reads this, currentDisplayBuffer, currentAvailableBuffer
    {
      State(SlotsOf(currentDisplayBuffer), SlotsOf(currentAvailableBuffer), writer, display,
            displayBuffer, prevDisplayBuffer, hdmiPlane, compositePlane)
    }

    constructor InitDisplay(outputs: Outputs)
      ensures Valid() && View() == InitialState() && this.outputs == outputs
      ensures currentDisplayBuffer[..] == [1, 0, 0] && currentAvailableBuffer[..] == [2, 3, 0]
      ensures writer == Ready && display == LoopTop && displayBuffer == prevDisplayBuffer == 0
    {
      this.outputs := outputs;
      currentDisplayBuffer := new uint8[3][1, 0, 0];
      currentAvailableBuffer := new uint8[3][2, 3, 0];
      writer, display := Ready, LoopTop;
      displayBuffer, prevDisplayBuffer, hdmiPlane, compositePlane := 0, 0, 0, 0;
    }

    /** `get_buffer_number` up to its unlock or its wait. */
    method GetBufferNumber()
      requires Valid() && writer == Ready
      modifies this`writer, currentAvailableBuffer
      ensures View() == Step(outputs, old(View()), GetBuffer)
      ensures old(currentAvailableBuffer[0]) != 0 ==>
                && writer == Decoding(old(currentAvailableBuffer[0]))
                && currentAvailableBuffer[..] == old([currentAvailableBuffer[1], currentAvailableBuffer[2], 0])
      ensures old(currentAvailableBuffer[0]) == 0 ==>
                && writer == (if currentDisplayBuffer[0] != 0 then AwaitBuffer(false) else Decoding(0))
                && currentAvailableBuffer[..] == old(currentAvailableBuffer[..])
    {
      if currentAvailableBuffer[0] != 0 {
        writer := Decoding(currentAvailableBuffer[0]);
        Forward(currentAvailableBuffer);
      } else if currentDisplayBuffer[0] != 0 {
        writer := AwaitBuffer(false);
      } else {
        writer := Decoding(0);
      }
    }

    /** `get_buffer_number` after its wait, however it was woken. */
    method ResumeGetBufferNumber()
      requires Valid() && writer.AwaitBuffer?
      modifies this`writer, currentAvailableBuffer
      ensures View() == Step(outputs, old(View()), if old(writer.signalled) then WakeWriter else SpuriousWriter)
      ensures writer == Decoding(old(currentAvailableBuffer[0]))
      ensures currentAvailableBuffer[..] == old([currentAvailableBuffer[1], currentAvailableBuffer[2], 0])
    {
      writer := Decoding(currentAvailableBuffer[0]);
      Forward(currentAvailableBuffer);
    }

    /** `put_buffer` of the held buffer, and its signal. */
    method PutBufferBack()
      requires Valid() && writer.Decoding?
      modifies this`writer, this`display, currentDisplayBuffer
      ensures View() == Step(outputs, old(View()), PutBuffer)
      ensures writer == Ready && display == if old(display).AwaitFrame? then AwaitFrame(true) else old(display)
      ensures old(currentDisplayBuffer[0]) == 0 ==> currentDisplayBuffer[0] == old(writer.buffer)
      ensures old(currentDisplayBuffer[0]) != 0 && old(currentDisplayBuffer[1]) == 0 ==>
                currentDisplayBuffer[1] == old(writer.buffer)
    {
      Put(currentDisplayBuffer, writer.buffer);
      if display.AwaitFrame? {
        display := AwaitFrame(true);
      }
      writer := Ready;
    }

    /** The frame on screen is to be replaced by the head of the display queue. */
    twostate predicate TookFrame()
      requires Valid()
      reads this, currentDisplayBuffer
    {
      && display == SwitchHdmi
      && prevDisplayBuffer == old(displayBuffer) && displayBuffer == old(currentDisplayBuffer[0])
      && currentDisplayBuffer[..] == old([currentDisplayBuffer[1], currentDisplayBuffer[2], 0])
    }

    /** The display thread's first critical section, up to its unlock or its wait. */
    method EnterLoop()
      requires Valid() && display == LoopTop
      modifies this`display, this`displayBuffer, this`prevDisplayBuffer, currentDisplayBuffer
      ensures View() == Step(outputs, old(View()), TakeFrame)
      ensures if old(currentDisplayBuffer[0]) != 0 then TookFrame()
              else display == AwaitFrame(false) && displayBuffer == old(displayBuffer)
                   && prevDisplayBuffer == old(prevDisplayBuffer)
    {
      if currentDisplayBuffer[0] == 0 {
        display := AwaitFrame(false);
      } else {
        TakeQueuedFrame();
      }
    }

    /** The display thread's first critical section, after its wait or without one. */
    method TakeQueuedFrame()
      requires Valid()
      modifies this`display, this`displayBuffer, this`prevDisplayBuffer, currentDisplayBuffer
      ensures View() == TakeIfAny(old(View()))
      ensures old(display.AwaitFrame?) ==>
                View() == Step(outputs, old(View()), if old(display.signalled) then WakeDisplay else SpuriousDisplay)
      ensures if old(currentDisplayBuffer[0]) != 0 then TookFrame()
              else display == ReleasePrevious && displayBuffer == old(displayBuffer)
                   && prevDisplayBuffer == old(prevDisplayBuffer)
    {
      if currentDisplayBuffer[0] != 0 {
        prevDisplayBuffer := displayBuffer;
        displayBuffer := currentDisplayBuffer[0];
        Forward(currentDisplayBuffer);
        display := SwitchHdmi;
      } else {
        display := ReleasePrevious;
      }
    }

    method SetPlane()
      requires Valid() && (display == SwitchHdmi || display == SwitchComposite)
      modifies this`display, this`hdmiPlane, this`compositePlane
      ensures View() == Step(outputs, old(View()), if old(display.SwitchHdmi?) then ShowHdmi else ShowComposite)
      ensures old(display) == SwitchHdmi ==>
                && display == SwitchComposite && compositePlane == old(compositePlane)
                && hdmiPlane == if outputs.hdmi then displayBuffer else old(hdmiPlane)
      ensures old(display) == SwitchComposite ==>
                && display == ReleasePrevious && hdmiPlane == old(hdmiPlane)
                && compositePlane == if outputs.composite then displayBuffer else old(compositePlane)
    {
      if display.SwitchHdmi? {
        if outputs.hdmi {
          hdmiPlane := displayBuffer;
        }
        display := SwitchComposite;
      } else {
        if outputs.composite {
          compositePlane := displayBuffer;
        }
        display := ReleasePrevious;
      }
    }

    /** The end of the loop body: the replaced buffer becomes available, and its signal. */
    method ReleaseReplaced()
      requires Valid() && display == ReleasePrevious
      modifies this`writer, this`display, this`prevDisplayBuffer, currentAvailableBuffer
      ensures View() == Step(outputs, old(View()), Release)
      ensures display == LoopTop && prevDisplayBuffer == 0
      ensures old(prevDisplayBuffer) == 0 ==> writer == old(writer)
      ensures old(prevDisplayBuffer) == 0 ==> currentAvailableBuffer[..] == old(currentAvailableBuffer[..])
      ensures old(prevDisplayBuffer) != 0 && old(writer).AwaitBuffer? ==> writer == AwaitBuffer(true)
      ensures old(prevDisplayBuffer) != 0 && old(currentAvailableBuffer[0]) == 0 ==>
                currentAvailableBuffer[0] == old(prevDisplayBuffer)
    {
      if prevDisplayBuffer != 0 {
        Put(currentAvailableBuffer, prevDisplayBuffer);
        if writer.AwaitBuffer? {
          writer := AwaitBuffer(true);
        }
        prevDisplayBuffer := 0;
      }
      display := LoopTop;
    }
  }
}

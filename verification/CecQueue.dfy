/** The linked queue and the latches of src/cec_controls.c in their own form. Each method performs
    steps of the transition system of CecControls, so what is proved of every run holds of these
    methods in any interleaving of the two threads. */
module CecQueue {
  import opened CTypes
  import opened CecControls

  class MessageNode {
    const code: uint8
    const data1: uint8
    const data2: uint8
    const hasData2: bool
    var next: MessageNode?

    constructor (msg: CecMsg)
      requires |msg.msg| == 16
      ensures AsMessage() == Received(msg) && next == null
    {
      code, data1, data2, hasData2, next := msg.msg[1], msg.msg[2], msg.msg[3], msg.len >= 4, null;
    }

    function AsMessage(): Message {
      Message(code, data1, data2, hasData2)
    }
  }

  ghost function MessagesOf(nodes: seq<MessageNode>): (ms: seq<Message>) {
    seq(|nodes|, i requires 0 <= i < |nodes| => nodes[i].AsMessage())
  }

  class Controls {
    var messageQueueStart: MessageNode?
    var messageQueueEnd: MessageNode?
    var contrastData2: uint8
    var saturationData2: uint8
    var pivotData2: uint8
    var lumaData2: uint8
    var shutterData2: uint8
    ghost var nodes: seq<MessageNode>
    ghost var pc: Pc
    ghost var changed: bool
    ghost var log: Log

    /** The queue is exactly the nodes reachable from its start, each once; its end is the last. */
    ghost predicate Valid()
      reads this, nodes
    {
      && (forall i, j | 0 <= i < j < |nodes| :: nodes[i] != nodes[j])
      && (forall i | 0 <= i < |nodes| - 1 :: nodes[i].next == nodes[i + 1])
      && (if nodes == [] then messageQueueStart == null && messageQueueEnd == null
          else messageQueueStart == nodes[0] && messageQueueEnd == nodes[|nodes| - 1] && messageQueueEnd.next == null)
    }

    ghost function LastHighs(): Latches
      reads this
    {
      Latches(contrastData2, saturationData2, pivotData2, lumaData2, shutterData2)
    }

    ghost function View(): State
      reads this
    {
      State(MessagesOf(nodes), pc, LastHighs(), changed, log)
    }

    constructor ()
      ensures Valid() && View() == InitialState()
      ensures messageQueueStart == null && messageQueueEnd == null
      ensures contrastData2 == saturationData2 == pivotData2 == lumaData2 == shutterData2 == 0
    {
      messageQueueStart, messageQueueEnd := null, null;
      contrastData2, saturationData2, pivotData2, lumaData2, shutterData2 := 0, 0, 0, 0, 0;
      nodes, pc, changed, log := [], Idle, false, Log([], [], [], []);
    }

    method AddMessageToQueue(msg: CecMsg)
      requires Valid() && |msg.msg| == 16
      modifies this, nodes
      ensures Valid() && View() == Step(old(View()), Enqueue(Received(msg)))
      ensures |nodes| == |old(nodes)| + 1 && old(nodes) <= nodes && fresh(nodes[|nodes| - 1])
      ensures var n := messageQueueEnd;
              && n != null && n == nodes[|nodes| - 1] && n.next == null
              && n.code == msg.msg[1] && n.data1 == msg.msg[2] && n.data2 == msg.msg[3] && n.hasData2 == (msg.len >= 4)
    {
      var node := new MessageNode(msg);
      if messageQueueEnd == null {
        messageQueueStart := node;
      } else {
        messageQueueEnd.next := node;
      }
      messageQueueEnd := node;
      assert MessagesOf(nodes + [node]) == MessagesOf(nodes) + [node.AsMessage()];
      nodes := nodes + [node];
      log := log.(enqueued := log.enqueued + [Received(msg)]);
    }

    /** The critical section of `poll_cec_events`: takes the first node off, if there is one. */
    method TakeMessage() returns (node: MessageNode?)
      requires Valid() && pc.Looking?
      modifies this
      ensures Valid() && View() == Step(old(View()), Dequeue)
      ensures node == old(messageQueueStart) && (node != null ==> pc == Holding(node.AsMessage()))
      ensures nodes == if node == null then [] else old(nodes)[1..]
    {
      node := messageQueueStart;
      if node == null {
        pc := Idle;
        return;
      }
      messageQueueStart := node.next;
      if messageQueueStart == null {
        messageQueueEnd := null;
      }
      pc := Holding(node.AsMessage());
      nodes := nodes[1..];
    }

    ghost predicate Holds(msg: MessageNode)
      reads this
    {
      pc == Holding(msg.AsMessage())
    }

    /** At most one request is made, and the answer is whether the camera has its control. */
    twostate predicate AsksAtMostOnce(vd: VideoDevice, applied: bool)
      reads this
    {
      var n := |old(log.requests)|;
      && old(log.requests) <= log.requests && |log.requests| <= n + 1
      && (applied <==> |log.requests| > n && log.requests[n].name in vd.integerControls)
    }

    /** The `switch` of `poll_cec_events`. */
    method Dispatch(vd: VideoDevice, msg: MessageNode) returns (applied: bool)
      modifies this`contrastData2, this`saturationData2, this`pivotData2, this`lumaData2, this`shutterData2, this`log
      ensures HasProcessed(vd, msg.AsMessage(), applied)
      ensures AsksAtMostOnce(vd, applied)
    {
      if msg.code == CONTRAST {
        applied := ProcessContrast(vd, msg);
      } else if msg.code == LUMINOSITY {
        applied := ProcessLuma(vd, msg);
      } else if msg.code == PIVOT {
        applied := ProcessPivot(vd, msg);
      } else if msg.code == SATURATION {
        applied := ProcessSaturation(vd, msg);
      } else if msg.code == SHUTTER_SPEED {
        applied := ProcessShutterSpeed(vd, msg);
      } else if msg.code == WHITE_BALANCE_TEMP {
        applied := ProcessWbt(vd, msg);
      } else {
        applied := false;
      }
    }

    /** What `poll_cec_events` does with a message between two critical sections. */
    method ProcessMessage(vd: VideoDevice, msg: MessageNode) returns (applied: bool)
      requires Valid() && Holds(msg)
      modifies this
      ensures Valid() && View() == Step(old(View()), Process(vd))
      ensures changed == (old(changed) || applied) && AsksAtMostOnce(vd, applied)
    {
      hide Processed, Answer;
      applied := Dispatch(vd, msg);
      changed := changed || applied;
      pc := Looking;
      log := log.(processed := log.processed + [msg.AsMessage()], answers := log.answers + [applied]);
    }

    /** The foreign call: it records what it was asked, and whether the camera has the control. */
    method ApplyValue(vd: VideoDevice, request: Request) returns (applied: bool)
      modifies this`log
      ensures applied == Answer(vd, [request]) && (applied <==> request.name in vd.integerControls)
      ensures log == old(log).(requests := old(log.requests) + [request])
    {
      log := log.(requests := log.requests + [request]);
      applied := request.name in vd.integerControls;
    }

    /** What a `process_*` function does to the latches, asks for and returns. */
    twostate predicate HasProcessed(vd: VideoDevice, m: Message, applied: bool)
      reads this
    {
      var (l, rs) := Processed(old(LastHighs()), m);
      LastHighs() == l && log == old(log).(requests := old(log.requests) + rs) && applied == Answer(vd, rs)
    }

    method ProcessContrast(vd: VideoDevice, msg: MessageNode) returns (applied: bool)
      requires msg.code == CONTRAST
      modifies this`contrastData2, this`log
      ensures HasProcessed(vd, msg.AsMessage(), applied)
      ensures contrastData2 == if msg.hasData2 then msg.data2 else old(contrastData2)
      ensures var value := 256 * (contrastData2 as int) + msg.data1;
              && log.requests == old(log.requests) + [Request("Contrast", 0, 4096, value)]
              && (applied <==> "Contrast" in vd.integerControls)
    {
      if msg.hasData2 {
        contrastData2 := msg.data2;
      }
      applied := ApplyValue(vd, Request("Contrast", 0, 4096, Joined(contrastData2, msg.data1)));
    }

    method ProcessSaturation(vd: VideoDevice, msg: MessageNode) returns (applied: bool)
      requires msg.code == SATURATION
      modifies this`saturationData2, this`log
      ensures HasProcessed(vd, msg.AsMessage(), applied)
      ensures saturationData2 == if msg.hasData2 then msg.data2 else old(saturationData2)
      ensures var value := 256 * (saturationData2 as int) + msg.data1;
              && log.requests == old(log.requests) + [Request("Saturation", 0, 4096, value)]
              && (applied <==> "Saturation" in vd.integerControls)
    {
      if msg.hasData2 {
        saturationData2 := msg.data2;
      }
      applied := ApplyValue(vd, Request("Saturation", 0, 4096, Joined(saturationData2, msg.data1)));
    }

    method ProcessPivot(vd: VideoDevice, msg: MessageNode) returns (applied: bool)
      requires msg.code == PIVOT
      modifies this`pivotData2, this`log
      ensures HasProcessed(vd, msg.AsMessage(), applied)
      ensures pivotData2 == if msg.hasData2 then msg.data2 else old(pivotData2)
      ensures var value := 256 * (pivotData2 as int) + msg.data1;
              && log.requests == old(log.requests) + [Request("Bright", 0, 2048, value)]
              && (applied <==> "Bright" in vd.integerControls)
    {
      if msg.hasData2 {
        pivotData2 := msg.data2;
      }
      applied := ApplyValue(vd, Request("Bright", 0, 2048, Joined(pivotData2, msg.data1)));
    }

    method ProcessLuma(vd: VideoDevice, msg: MessageNode) returns (applied: bool)
      requires msg.code == LUMINOSITY
      modifies this`lumaData2, this`log
      ensures HasProcessed(vd, msg.AsMessage(), applied)
      ensures lumaData2 == if msg.hasData2 then msg.data2 else old(lumaData2)
      ensures var value := 256 * (lumaData2 as int) + msg.data1;
              && log.requests == old(log.requests) + [Request("Gamma", 0, 2048, value)]
              && (applied <==> "Gamma" in vd.integerControls)
    {
      if msg.hasData2 {
        lumaData2 := msg.data2;
      }
      applied := ApplyValue(vd, Request("Gamma", 0, 2048, Joined(lumaData2, msg.data1)));
    }

    method ProcessShutterSpeed(vd: VideoDevice, msg: MessageNode) returns (applied: bool)
      requires msg.code == SHUTTER_SPEED
      modifies this`shutterData2, this`log
      ensures HasProcessed(vd, msg.AsMessage(), applied)
      ensures shutterData2 == if msg.hasData2 then msg.data2 else old(shutterData2)
      ensures var value := 256 * (shutterData2 as int) + msg.data1;
              && log.requests == old(log.requests) + [Request("Gain", 41667, 500, value)]
              && (applied <==> "Gain" in vd.integerControls)
    {
      if msg.hasData2 {
        shutterData2 := msg.data2;
      }
      applied := ApplyValue(vd, Request("Gain", 41667, 500, Joined(shutterData2, msg.data1)));
    }

    method ProcessWbt(vd: VideoDevice, msg: MessageNode) returns (applied: bool)
      requires msg.code == WHITE_BALANCE_TEMP
      modifies this`log
      ensures HasProcessed(vd, msg.AsMessage(), applied)
      ensures log.requests == old(log.requests) + [Request("White Balance Temperature", 0, 0, 50 * msg.data1)]
      ensures applied <==> "White Balance Temperature" in vd.integerControls
    {
      applied := ApplyValue(vd, Request("White Balance Temperature", 0, 0, (msg.data1 - 50) * 50 + 2500));
    }

    /** A poll with nothing enqueued meanwhile. */
    method PollCecEvents(vd: VideoDevice) returns (anyChanged: bool)
      requires Valid() && pc.Idle?
      modifies this
      ensures Valid() && View() == Drained(Step(old(View()), BeginPoll), vd)
      ensures anyChanged == View().changed && old(log.requests) <= log.requests
      ensures anyChanged <==>
                exists k :: |old(log.requests)| <= k < |log.requests| && log.requests[k].name in vd.integerControls
    {
      hide Processed, Answer;
      PollAnswers(Step(View(), BeginPoll), vd);
      anyChanged := false;
      pc, changed, log := Looking, false, log.(answers := []);
      while true
        invariant Valid() && pc.Looking? && anyChanged == changed
        invariant Drained(View(), vd) == Drained(Step(old(View()), BeginPoll), vd)
        decreases |nodes|
      {
        var node := TakeMessage();
        if node == null {
          break;
        }
        var applied := ProcessMessage(vd, node);
        anyChanged := anyChanged || applied;
      }
    }
  }
}

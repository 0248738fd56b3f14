/** The state the event-loop closure owns, and one call of that closure: the
    overlay flag, the frame-time history and the log buffer. The wall clock
    and the input channel are parameters: the frame time measured since the
    previous redraw and what one non-blocking receive returned. */
module EventLoop {

  import opened Wrappers
  import opened InputLog
  import opened Perf
  import opened Events

  /** What one redraw lays out: the log text handed to the text drawing, and
      the history values in the order the overlay plots them when it is
      shown. */
  datatype Frame = Frame(text: seq<byte>, graph: Option<seq<real>>)

  class App {
    var perfShown: bool
    var perf: PerfGraph<real>
    var log: LogBuffer

    ghost predicate Valid()
      reads this, perf, log
    {
      perf.Valid() && log.Valid()
    }

    /** The set-up before `el.run`: a fresh history, the overlay hidden, an
        empty log. */
    constructor ()
      ensures Valid() && fresh(perf) && fresh(perf.values) && fresh(log)
      ensures !perfShown && perf.head == 0 && perf.historyCount == HistoryCount
      ensures forall i :: 0 <= i < perf.values.Length ==> perf.values[i] == 0.0
      ensures log.Model() == Initial
    {
      perfShown := false;
      perf := new PerfGraph(0.0);
      log := new LogBuffer();
    }

    /** The `RedrawRequested` arm: record the frame time, take at most one
        line from the channel, then lay out the text and, if shown, the
        overlay. It never panics. */
    method Redraw(frameTime: real, msg: Received) returns (frame: Frame)
      requires Valid()
      modifies perf`head, perf.values, log
      ensures Valid()
      ensures perf.head == Advance(old(perf.head), perf.historyCount)
      ensures perf.values[..] == old(perf.values[..])[perf.head := frameTime]
      ensures log.Model() == Step(old(log.Model()), msg)
      ensures Displayed(log.Model()).Some?
      ensures frame == Frame(Displayed(log.Model()).value,
                             if perfShown then Some(Rotation(perf.values[..], perf.head)) else None)
    {
      perf.Update(frameTime);
      log.Receive(msg);
      var shown := log.DisplayedText();
      var graph := None;
      if perfShown {
        var walk := perf.RenderOrder();
        graph := Some(walk);
      }
      frame := Frame(shown, graph);
    }

    /** One call of the event-loop closure. A redraw is `Redraw`; key and
        close events only touch the overlay flag and the returned control
        flow. */
    method HandleEvent(e: Event, frameTime: real, msg: Received) returns (flow: ControlFlow, frame: Option<Frame>)
      requires Valid()
      modifies this`perfShown, perf`head, perf.values, log
      ensures Valid()
      ensures Outcome(perfShown, flow) == Transition(old(perfShown), e)
      ensures e.RedrawRequested? ==>
        && perf.head == Advance(old(perf.head), perf.historyCount)
        && perf.values[..] == old(perf.values[..])[perf.head := frameTime]
        && log.Model() == Step(old(log.Model()), msg)
        && Displayed(log.Model()).Some?
        && frame == Some(Frame(Displayed(log.Model()).value,
                               if perfShown then Some(Rotation(perf.values[..], perf.head)) else None))
      ensures !e.RedrawRequested? ==>
        && perf.head == old(perf.head) && perf.values[..] == old(perf.values[..])
        && log.Model() == old(log.Model())
        && frame == None
    {
      flow := Poll;
      frame := None;
      match e {
        case Window(CloseRequested) =>
          flow := Exit;
        case Window(KeyboardInput(Pressed, Some(Q))) =>
          flow := Exit;
        case Window(KeyboardInput(Pressed, Some(F3))) =>
          perfShown := !perfShown;
        case RedrawRequested =>
          var drawn := Redraw(frameTime, msg);
          frame := Some(drawn);
        case _ =>
      }
    }
  }
}

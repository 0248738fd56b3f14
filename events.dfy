/** The key and close handling of the event loop: F3 shows or hides the
    frame-time overlay, Q or a close request ends the loop. */
module Events {

  import opened Wrappers

  datatype ElementState = Pressed | Released

  /** The virtual key codes the handler distinguishes; every other key is
      `OtherKey`. */
  datatype Key = Q | F3 | OtherKey

  datatype WindowEvent =
    | Resized
    | CloseRequested
    | KeyboardInput(state: ElementState, key: Option<Key>)
    | OtherWindowEvent

  datatype Event =
    | LoopDestroyed
    | Window(event: WindowEvent)
    | RedrawRequested
    | MainEventsCleared
    | OtherEvent

  /** What the handler leaves in `*control_flow`. */
  datatype ControlFlow = Poll | Exit

  /** The overlay flag and the control flow after one event. */
  datatype Outcome = Outcome(perfShown: bool, flow: ControlFlow)

  predicate IsPress(e: Event, k: Key)
  {
    e == Window(KeyboardInput(Pressed, Some(k)))
  }

  predicate RequestsExit(e: Event)
  {
    e == Window(CloseRequested) || IsPress(e, Q)
  }

  /** The handler sets `Poll` first, then the match arms: a close request
      or a Q press sets `Exit`, an F3 press flips the overlay flag, and every
      other event (key releases, other keys, resizes, redraws) changes
      neither. */
  function Transition(perfShown: bool, e: Event): (r: Outcome)
    ensures r.flow == Exit <==> RequestsExit(e)
    ensures r.perfShown != perfShown <==> IsPress(e, F3)
    ensures !RequestsExit(e) && !IsPress(e, F3) ==> r == Outcome(perfShown, Poll)
  {
    match e
    case Window(CloseRequested) => Outcome(perfShown, Exit)
    case Window(KeyboardInput(Pressed, Some(Q))) => Outcome(perfShown, Exit)
    case Window(KeyboardInput(Pressed, Some(F3))) => Outcome(!perfShown, Poll)
    case _ => Outcome(perfShown, Poll)
  }

  /** Two F3 presses restore the overlay flag. */
  lemma F3TwiceRestores(perfShown: bool)
    ensures var f3 := Window(KeyboardInput(Pressed, Some(F3)));
      Transition(Transition(perfShown, f3).perfShown, f3).perfShown == perfShown
  {
  }

  /** A run of events flips the overlay once per F3 press in it. */
  function ShownAfter(perfShown: bool, es: seq<Event>): bool
    decreases |es|
  {
    if es == [] then perfShown else ShownAfter(Transition(perfShown, es[0]).perfShown, es[1..])
  }

  function F3Presses(es: seq<Event>): nat
    decreases |es|
  {
    if es == [] then 0 else (if IsPress(es[0], F3) then 1 else 0) + F3Presses(es[1..])
  }

  /** The overlay is shown after a run of events exactly when it was shown
      before and the run holds an even number of F3 presses, or it was hidden
      and the number is odd. */
  lemma {:induction false} ShownAfterCountsF3(perfShown: bool, es: seq<Event>)
    ensures ShownAfter(perfShown, es) == (if F3Presses(es) % 2 == 0 then perfShown else !perfShown)
    decreases |es|
  {
    if es != [] {
      ShownAfterCountsF3(Transition(perfShown, es[0]).perfShown, es[1..]);
    }
  }
}

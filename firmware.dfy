/**
 * The firmware's shared cells as an object that the interrupt handlers and
 * the main loop update in place. Each method is one critical section.
 */
module Firmware {
  import opened Wrappers
  import opened Dispatch
  import DecimalText

  class Buttons {
    /** EVENT: the pin of the most recent interrupt, until a tick takes it. */
    var event: Option<int>
    /** STATE: the pin the previous tick dispatched. */
    var state: Option<int>
    /** Every text written to the keyboard so far. */
    ghost var written: seq<string>

    function View(): Cells
      reads this
    {
      Cells(event, state)
    }

    ghost predicate Valid()
      reads this
    {
      Registered(View()) &&
      forall i :: 0 <= i < |written| ==> IsPinText(written[i])
    }

    constructor ()
      ensures Valid()
      ensures View() == Boot && written == []
    {
      event, state := None, None;
      written := [];
    }

    /** The interrupt handler of button `b`. */
    method Latch(b: Button)
      requires Valid()
      modifies this`event
      ensures Valid()
      ensures View() == Dispatch.Latch(old(View()), b)
    {
      event := Some(Pin(b));
    }

    /** One pass of the main loop; `sent` is what went to the keyboard. */
    method Tick(connected: bool) returns (sent: Option<string>)
      requires Valid()
      modifies this
      ensures Valid()
      ensures Outcome(View(), sent) == Dispatch.Tick(old(View()), connected)
      ensures written == old(written) + Emitted(sent)
    {
      var curr := event;
      event := None;
      var prev := state;
      state := None;
      if curr.Some? && prev.Some? && curr.value == prev.value {
        // already dispatched; STATE stays empty
        sent := None;
      } else if curr.Some? {
        var id := curr.value;
        sent := None;
        if connected {
          sent := Some(DecimalText.Text(id));
          DecimalText.PinTexts();
          written := written + [sent.value];
        }
        state := Some(id);
      } else {
        sent := None;
      }
    }
  }

  /** The interrupts that fire between two ticks, in order. */
  method LatchEach(buttons: Buttons, presses: seq<Button>)
    requires buttons.Valid()
    modifies buttons`event
    ensures buttons.Valid()
    ensures buttons.View() == LatchAll(old(buttons.View()), presses)
  {
    ghost var before := buttons.View();
    var j := 0;
    while j < |presses|
      invariant 0 <= j <= |presses|
      invariant buttons.Valid()
      invariant buttons.View() == LatchAll(before, presses[..j])
    {
      assert presses[..j + 1][..j] == presses[..j];
      buttons.Latch(presses[j]);
      j := j + 1;
    }
    assert presses[..j] == presses;
  }

  /** The interrupts of one round, then one tick. */
  method RunRound(buttons: Buttons, round: Round) returns (sent: Option<string>)
    requires buttons.Valid()
    modifies buttons
    ensures buttons.Valid()
    ensures Outcome(buttons.View(), sent) == Step(old(buttons.View()), round)
    ensures buttons.written == old(buttons.written) + Emitted(sent)
  {
    LatchEach(buttons, round.presses);
    sent := buttons.Tick(round.connected);
  }

  /**
   * The main loop over a finite number of ticks: before each tick the
   * interrupts of that round fire in order, then the tick runs.
   */
  method RunLoop(buttons: Buttons, rounds: seq<Round>) returns (writes: seq<Option<string>>)
    requires buttons.Valid()
    modifies buttons
    ensures buttons.Valid()
    ensures Trace(buttons.View(), writes) == Run(old(buttons.View()), rounds)
    ensures buttons.written == old(buttons.written) + Written(writes)
  {
    ghost var start := buttons.View();
    ghost var log := buttons.written;
    writes := [];
    var i := 0;
    while i < |rounds|
      invariant 0 <= i <= |rounds|
      invariant buttons.Valid()
      invariant buttons.View() == Run(start, rounds[..i]).final
      invariant writes == Run(start, rounds[..i]).writes
      invariant buttons.written == log + Written(writes)
    {
      var sent := RunRound(buttons, rounds[i]);
      RunSnoc(start, rounds, i);
      WrittenSnoc(writes, sent);
      assert buttons.written == log + (Written(writes) + Emitted(sent));
      writes := writes + [sent];
      i := i + 1;
    }
    assert rounds[..i] == rounds;
  }
}

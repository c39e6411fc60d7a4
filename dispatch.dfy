/**
 * The deduplicating dispatch of the button firmware, on values.
 *
 * Two single cells are shared between the button interrupts and the main
 * loop: `event`, the pin of the most recent interrupt, and `state`, the pin
 * the previous tick dispatched. Every access to them happens inside one
 * critical section, so each interrupt and each tick is one atomic step here.
 */
module Dispatch {
  import opened Wrappers
  import DecimalText

  /** The two buttons set up at start-up, on GPIO 12 and GPIO 13. */
  datatype Button = M1 | M2

  /** The pin number a button's driver reports. */
  function Pin(b: Button): int {
    match b
    case M1 => 12
    case M2 => 13
  }

  /** The pins whose drivers are set up, one per button. */
  const RegisteredPins: set<int> := set b: Button :: Pin(b)

  /** The registered pins are 12 and 13, and no two buttons share a pin. */
  lemma PinsRegistered()
    ensures RegisteredPins == {12, 13}
    ensures forall a: Button, b: Button :: Pin(a) == Pin(b) ==> a == b
  {
    assert Pin(M1) == 12 && Pin(M2) == 13;
    assert forall p :: p in RegisteredPins ==> p == 12 || p == 13;
  }

  /** The contents of the cells EVENT and STATE. */
  datatype Cells = Cells(event: Option<int>, state: Option<int>)

  /** Both cells start empty. */
  const Boot := Cells(None, None)

  /** Both cells hold nothing or a registered pin. */
  predicate Registered(c: Cells) {
    (c.event.Some? ==> c.event.value in RegisteredPins) &&
    (c.state.Some? ==> c.state.value in RegisteredPins)
  }

  /** The interrupt of button `b`: its pin replaces whatever EVENT held. */
  function Latch(c: Cells, b: Button): (r: Cells)
    ensures r.event == Some(Pin(b)) && r.state == c.state
    ensures Registered(c) ==> Registered(r)
  {
    c.(event := Some(Pin(b)))
  }

  /** The interrupts that fire between two ticks, in the order they fire. */
  function LatchAll(c: Cells, presses: seq<Button>): (r: Cells)
    ensures r == if presses == [] then c else Latch(c, presses[|presses| - 1])
    decreases |presses|
  {
    if presses == [] then c else LatchAll(Latch(c, presses[0]), presses[1..])
  }

  /** The cells after a tick and what the tick wrote to the keyboard. */
  datatype Outcome = Outcome(next: Cells, write: Option<string>)

  /** A tick finds a latched pin that is not the one it recorded last. */
  predicate IsNewPress(c: Cells) {
    c.event.Some? && c.state != c.event
  }

  /** One pass of the main loop's critical section. */
  function Tick(c: Cells, connected: bool): (r: Outcome)
    ensures r.next.event == None
    ensures r.next.state == (if IsNewPress(c) then c.event else None)
    ensures r.write.Some? <==> connected && IsNewPress(c)
    ensures r.write.Some? ==> r.write.value == DecimalText.Text(c.event.value)
  {
    // both cells are taken: whatever happens below, they start out empty
    var curr, prev := c.event, c.state;
    if curr.Some? && prev.Some? && curr.value == prev.value then
      // the pin was already dispatched and STATE is not put back
      Outcome(Cells(None, None), None)
    else if curr.Some? then
      var id := curr.value;
      Outcome(Cells(None, Some(id)), if connected then Some(DecimalText.Text(id)) else None)
    else
      Outcome(Cells(None, None), None)
  }

  /** What the interrupts do before one tick, and whether the keyboard is connected at it. */
  datatype Round = Round(presses: seq<Button>, connected: bool)

  /** One round: its interrupts, then one tick, described by the pin that tick finds. */
  function Step(c: Cells, round: Round): (r: Outcome)
    ensures r.next.event == None
    ensures var found := if round.presses == [] then c.event
                         else Some(Pin(round.presses[|round.presses| - 1]));
      (r.write.Some? <==> round.connected && found.Some? && c.state != found) &&
      (r.write.Some? ==> r.write.value == DecimalText.Text(found.value)) &&
      r.next.state == (if found.Some? && c.state != found then found else None)
  {
    Tick(LatchAll(c, round.presses), round.connected)
  }

  /** The cells after a run of ticks, and the keyboard write of each tick in order. */
  datatype Trace = Trace(final: Cells, writes: seq<Option<string>>)

  /** The first `|rounds|` iterations of the main loop. */
  function Run(c: Cells, rounds: seq<Round>): (t: Trace)
    ensures |t.writes| == |rounds|
    ensures rounds != [] ==> t.final.event == None
    decreases |rounds|
  {
    if rounds == [] then Trace(c, [])
    else
      var prev := Run(c, rounds[..|rounds| - 1]);
      var o := Step(prev.final, rounds[|rounds| - 1]);
      Trace(o.next, prev.writes + [o.write])
  }

  function Emitted(w: Option<string>): seq<string> {
    if w.Some? then [w.value] else []
  }

  /** Everything the keyboard received, in order. */
  function Written(writes: seq<Option<string>>): (log: seq<string>)
    ensures |log| <= |writes|
    decreases |writes|
  {
    if writes == [] then []
    else Written(writes[..|writes| - 1]) + Emitted(writes[|writes| - 1])
  }

  /** One more loop iteration extends a run by one step. */
  lemma RunSnoc(c: Cells, rounds: seq<Round>, i: nat)
    requires i < |rounds|
    ensures var prev := Run(c, rounds[..i]);
      var o := Step(prev.final, rounds[i]);
      Run(c, rounds[..i + 1]) == Trace(o.next, prev.writes + [o.write])
  {
    assert rounds[..i + 1][..i] == rounds[..i];
  }

  /** One more tick extends the keyboard log by what that tick wrote. */
  lemma WrittenSnoc(writes: seq<Option<string>>, w: Option<string>)
    ensures Written(writes + [w]) == Written(writes) + Emitted(w)
  {
    assert (writes + [w])[..|writes|] == writes;
  }

  /** The same round, `n` times over. */
  function Repeat(r: Round, n: nat): (rs: seq<Round>)
    ensures |rs| == n && forall i :: 0 <= i < n ==> rs[i] == r
  {
    seq(n, _ => r)
  }

  /** Each tick of a run writes at most one text, so the log is no longer than the run. */
  lemma AtMostOneWritePerTick(c: Cells, rounds: seq<Round>, i: nat)
    requires i < |rounds|
    ensures |Emitted(Run(c, rounds).writes[i])| <= 1
    ensures |Written(Run(c, rounds).writes)| <= |rounds|
  {
  }

  /** The writes of a run's prefix are the prefix of its writes. */
  lemma {:induction false} RunPrefix(c: Cells, rounds: seq<Round>, m: nat)
    requires m <= |rounds|
    ensures Run(c, rounds[..m]).writes == Run(c, rounds).writes[..m]
    decreases |rounds|
  {
    assert rounds[..|rounds|] == rounds;
    if m < |rounds| {
      var front := rounds[..|rounds| - 1];
      RunPrefix(c, front, m);
      assert front[..m] == rounds[..m];
    }
  }

  /** Tick `i` of a run is the step from the cells the first `i` ticks leave. */
  lemma RunAt(c: Cells, rounds: seq<Round>, i: nat)
    requires i < |rounds|
    ensures Run(c, rounds[..i + 1]).final == Step(Run(c, rounds[..i]).final, rounds[i]).next
    ensures Run(c, rounds).writes[i] == Step(Run(c, rounds[..i]).final, rounds[i]).write
  {
    RunSnoc(c, rounds, i);
    RunPrefix(c, rounds, i + 1);
  }

  /**
   * Every tick consumes the latched pin: tick `i` writes only a pin latched
   * since tick `i - 1`, namely the last one, so no latched pin is written twice.
   */
  lemma WriteTracesToPress(c: Cells, rounds: seq<Round>, i: nat)
    requires c.event == None && i < |rounds|
    ensures Run(c, rounds).writes[i].Some? ==>
      rounds[i].presses != [] && rounds[i].connected &&
      Run(c, rounds).writes[i].value ==
        DecimalText.Text(Pin(rounds[i].presses[|rounds[i].presses| - 1]))
  {
    RunAt(c, rounds, i);
    assert rounds[..0] == [];
  }

  /** A text the keyboard can receive from a registered pin. */
  predicate IsPinText(w: string) {
    w == "12" || w == "13"
  }

  /** One round keeps the cells registered and writes only a registered pin's text. */
  lemma StepRegistered(c: Cells, round: Round)
    requires Registered(c)
    ensures Registered(Step(c, round).next)
    ensures forall w :: w in Emitted(Step(c, round).write) ==> IsPinText(w)
  {
    var latched := LatchAll(c, round.presses);
    assert Registered(latched);
    DecimalText.PinTexts();
  }

  /** Started from registered cells, cells stay registered and only "12" and "13" are written. */
  lemma {:induction false} RunStaysRegistered(c: Cells, rounds: seq<Round>)
    requires Registered(c)
    ensures Registered(Run(c, rounds).final)
    ensures forall w :: w in Written(Run(c, rounds).writes) ==> IsPinText(w)
    decreases |rounds|
  {
    if rounds != [] {
      var i := |rounds| - 1;
      var prev := Run(c, rounds[..i]);
      RunStaysRegistered(c, rounds[..i]);
      StepRegistered(prev.final, rounds[i]);
      RunSnoc(c, rounds, i);
      assert rounds[..i + 1] == rounds;
      WrittenSnoc(prev.writes, Step(prev.final, rounds[i]).write);
    }
  }

  /**
   * A button whose interrupt fires again before every tick is written at
   * the first tick, suppressed at the second, written at the third, and so on:
   * the suppressed tick leaves STATE empty.
   */
  lemma {:induction false} RepeatedPressAlternates(b: Button, connected: bool, n: nat)
    ensures Run(Boot, Repeat(Round([b], connected), n)).final ==
      Cells(None, if n % 2 == 1 then Some(Pin(b)) else None)
    ensures forall i :: 0 <= i < n ==>
      Run(Boot, Repeat(Round([b], connected), n)).writes[i] ==
        if i % 2 == 0 && connected then Some(DecimalText.Text(Pin(b))) else None
    decreases n
  {
    if n > 0 {
      var rs := Repeat(Round([b], connected), n);
      assert rs[..n - 1] == Repeat(Round([b], connected), n - 1);
      RepeatedPressAlternates(b, connected, n - 1);
      RunSnoc(Boot, rs, n - 1);
      assert rs[..n] == rs;
    }
  }

  /** Over `n` such ticks with the keyboard connected, the keyboard receives the pin's text (n + 1) / 2 times. */
  lemma {:induction false} RepeatedPressLog(b: Button, n: nat)
    ensures Written(Run(Boot, Repeat(Round([b], true), n)).writes) ==
      seq((n + 1) / 2, _ => DecimalText.Text(Pin(b)))
    decreases n
  {
    var text := DecimalText.Text(Pin(b));
    if n > 0 {
      var rs := Repeat(Round([b], true), n);
      var front := Run(Boot, rs[..n - 1]);
      var last := Run(Boot, rs).writes[n - 1];
      assert rs[..n - 1] == Repeat(Round([b], true), n - 1);
      RepeatedPressLog(b, n - 1);
      RepeatedPressAlternates(b, true, n);
      RunSnoc(Boot, rs, n - 1);
      assert rs[..n] == rs;
      WrittenSnoc(front.writes, last);
      assert Written(Run(Boot, rs).writes) == seq(n / 2, _ => text) + Emitted(last);
      if n % 2 == 1 {
        assert Emitted(last) == [text];
      } else {
        assert Emitted(last) == [];
      }
    }
  }

  /**
   * If the same button fires last before two consecutive connected ticks,
   * exactly one of the two writes it.
   */
  lemma RefireAlternates(c: Cells, rounds: seq<Round>, i: nat)
    requires i + 1 < |rounds|
    requires rounds[i].presses != [] && rounds[i + 1].presses != []
    requires rounds[i].presses[|rounds[i].presses| - 1] ==
             rounds[i + 1].presses[|rounds[i + 1].presses| - 1]
    requires rounds[i].connected && rounds[i + 1].connected
    ensures Run(c, rounds).writes[i].Some? != Run(c, rounds).writes[i + 1].Some?
  {
    RunAt(c, rounds, i);
    RunAt(c, rounds, i + 1);
  }

  /**
   * A tick with no interrupt before it writes nothing and clears STATE, so
   * whatever button fires before the next connected tick is written again.
   */
  lemma IdleTickRearms(c: Cells, rounds: seq<Round>, i: nat)
    requires c.event == None
    requires i + 1 < |rounds|
    requires rounds[i].presses == [] && rounds[i + 1].presses != []
    requires rounds[i + 1].connected
    ensures Run(c, rounds).writes[i] == None
    ensures Run(c, rounds).writes[i + 1] ==
      Some(DecimalText.Text(Pin(rounds[i + 1].presses[|rounds[i + 1].presses| - 1])))
  {
    WriteTracesToPress(c, rounds, i);
    RunAt(c, rounds, i);
    RunAt(c, rounds, i + 1);
  }
}

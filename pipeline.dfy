/**
 * The assistant's module-level state and the steps that change it: the
 * text-delta handler that cuts a finished sentence and hands it the next
 * ticket (`speech_order_ticket`), the synthesis thread that names the speech
 * file and starts the play thread, the gate those play threads share, and
 * the list of started threads that is cleared once they are joined.
 */
module Pipeline {
  import opened Wrappers
  import opened Segmenter
  import opened Naming
  import opened Playback

  /** A finished sentence and the ticket it was handed. */
  datatype SentenceUnit = SentenceUnit(text: string, ticket: nat)

  /** What the handler does with one delta. */
  datatype Emission =
    | Silent                      // the delta is not a lone terminator
    | Emitted(unit: SentenceUnit) // a sentence is sent to synthesis
    | NoSentence                  // `trimed_list[-1]` raises: no non-empty piece

  /** An entry of `active_threads`. */
  datatype Worker = Speaker(unit: SentenceUnit) | Player(fileName: string, ticket: nat)

  /**
   * `on_text_delta` given the current counter: a lone terminator delta
   * takes the final run of the snapshot as the sentence, under the current
   * ticket; any other delta is ignored.
   */
  function HandleDelta(ticket: nat, delta: string, snapshot: string): (e: Emission)
    ensures !IsSentenceEnd(delta) ==> e == Silent
    ensures e.Emitted? ==> e.unit.ticket == ticket && e.unit.text != "" && TerminatorFree(e.unit.text)
  {
    if !IsSentenceEnd(delta) then Silent
    else
      match LastSentence(snapshot)
      case None => NoSentence
      case Some(sentence) => Emitted(SentenceUnit(sentence, ticket))
  }

  /**
   * What a lone terminator does, described without the split: the handler
   * raises exactly when the snapshot is all terminators, and otherwise
   * emits the snapshot's final run under the current ticket.
   */
  lemma HandleSentenceEnd(ticket: nat, delta: string, snapshot: string)
    requires IsSentenceEnd(delta)
    ensures HandleDelta(ticket, delta, snapshot) == NoSentence <==> AllTerminators(snapshot)
    ensures forall i, j :: FinalRun(snapshot, i, j) ==>
              HandleDelta(ticket, delta, snapshot) == Emitted(SentenceUnit(snapshot[i..j], ticket))
  {
    NoSentenceIff(snapshot);
    LastSentenceIsFinalRun(snapshot);
  }

  /** The counter after the handler: one more exactly when a sentence was emitted. */
  function NextTicket(ticket: nat, e: Emission): (r: nat)
    ensures ticket <= r <= ticket + 1
    ensures r == ticket + 1 <==> e.Emitted?
  {
    if e.Emitted? then ticket + 1 else ticket
  }

  // ---------------------------------------------------------------------
  // A streamed reply

  /** The sentences a run of deltas emits, the counter after it, and whether the handler raised. */
  datatype StreamResult = StreamResult(units: seq<SentenceUnit>, ticket: nat, failed: bool)

  /**
   * Feeds the deltas of a reply in order, the snapshot being the text so
   * far; the handler raising ends the run.
   */
  function HandleStream(ticket: nat, text: string, deltas: seq<string>): (r: StreamResult)
    ensures |r.units| <= |deltas|
    ensures forall k :: 0 <= k < |r.units| ==> r.units[k].text != "" && TerminatorFree(r.units[k].text)
    ensures r.failed ==> deltas != []
    decreases |deltas|
  {
    if deltas == [] then StreamResult([], ticket, false)
    else
      var snapshot := text + deltas[0];
      var e := HandleDelta(ticket, deltas[0], snapshot);
      if e == NoSentence then StreamResult([], ticket, true)
      else
        var rest := HandleStream(NextTicket(ticket, e), snapshot, deltas[1..]);
        if e.Emitted? then rest.(units := [e.unit] + rest.units) else rest
  }

  function CountSentenceEnds(deltas: seq<string>): nat
    decreases |deltas|
  {
    if deltas == [] then 0
    else (if IsSentenceEnd(deltas[0]) then 1 else 0) + CountSentenceEnds(deltas[1..])
  }

  /**
   * Tickets are dense: the sentences of a reply carry consecutive tickets
   * from the counter's value, the counter ends one past the last of them,
   * and without an error there is one sentence per lone-terminator delta.
   */
  lemma {:induction false} StreamTicketsDense(ticket: nat, text: string, deltas: seq<string>)
    ensures var r := HandleStream(ticket, text, deltas);
      r.ticket == ticket + |r.units|
      && (forall k :: 0 <= k < |r.units| ==> r.units[k].ticket == ticket + k)
      && (!r.failed ==> |r.units| == CountSentenceEnds(deltas))
    decreases |deltas|
  {
    if deltas != [] {
      var snapshot := text + deltas[0];
      var e := HandleDelta(ticket, deltas[0], snapshot);
      StreamTicketsDense(NextTicket(ticket, e), snapshot, deltas[1..]);
    }
  }

  /**
   * The re-emission quirk: a sentence followed by two lone-terminator
   * deltas is emitted twice, under consecutive tickets.
   */
  lemma SentenceEmittedTwice(ticket: nat, sentence: string, t1: char, t2: char)
    requires sentence != "" && TerminatorFree(sentence)
    requires IsTerminator(t1) && IsTerminator(t2)
    ensures HandleStream(ticket, "", [sentence, [t1], [t2]]).units
            == [SentenceUnit(sentence, ticket), SentenceUnit(sentence, ticket + 1)]
  {
    var d0, d1, d2 := sentence, [t1], [t2];
    assert "" + d0 == sentence;
    assert !IsSentenceEnd(d0) by {
      if |d0| == 1 {
        assert !IsTerminator(d0[0]);
      }
    }
    assert HandleDelta(ticket, d0, "" + d0) == Silent;
    assert "" + d0 + d1 == sentence + [] + [t1];
    TerminatorDeltaEmits(ticket, sentence, [], t1);
    assert "" + d0 + d1 + d2 == sentence + [t1] + [t2];
    TerminatorDeltaEmits(ticket + 1, sentence, [t1], t2);
    StreamOfThree(ticket, "", d0, d1, d2);
  }

  /**
   * A lone terminator after a sentence and further terminators emits that
   * sentence.
   */
  lemma TerminatorDeltaEmits(ticket: nat, sentence: string, ts: string, t: char)
    requires sentence != "" && TerminatorFree(sentence) && AllTerminators(ts)
    requires IsTerminator(t)
    ensures HandleDelta(ticket, [t], sentence + ts + [t]) == Emitted(SentenceUnit(sentence, ticket))
  {
    assert IsSentenceEnd([t]);
    assert sentence + ts + [t] == sentence + (ts + [t]);
    assert AllTerminators(ts + [t]) by {
      forall k | 0 <= k < |ts + [t]|
        ensures IsTerminator((ts + [t])[k])
      {
        if k < |ts| {
          assert (ts + [t])[k] == ts[k];
        }
      }
    }
    SentenceThenTerminators(sentence, ts + [t]);
  }

  /** After a sentence, only terminators: the sentence is what the handler takes. */
  lemma SentenceThenTerminators(sentence: string, ts: string)
    requires sentence != "" && TerminatorFree(sentence) && AllTerminators(ts)
    ensures LastSentence(sentence + ts) == Some(sentence)
  {
    var s := sentence + ts;
    assert s[0..|sentence|] == sentence;
    assert s[|sentence|..] == ts;
    LastSentenceOfFinalRun(s, 0, |sentence|);
  }

  /** A stream of three deltas: silent, emitted, emitted. */
  lemma StreamOfThree(ticket: nat, text: string, d0: string, d1: string, d2: string)
    requires HandleDelta(ticket, d0, text + d0) == Silent
    requires HandleDelta(ticket, d1, text + d0 + d1).Emitted?
    requires HandleDelta(ticket + 1, d2, text + d0 + d1 + d2).Emitted?
    ensures HandleStream(ticket, text, [d0, d1, d2]).units
            == [HandleDelta(ticket, d1, text + d0 + d1).unit, HandleDelta(ticket + 1, d2, text + d0 + d1 + d2).unit]
  {
    var s0 := text + d0;
    var s1 := s0 + d1;
    var s2 := s1 + d2;
    var e1 := HandleDelta(ticket, d1, s1);
    var e2 := HandleDelta(ticket + 1, d2, s2);
    assert [d2][1..] == [];
    var r3 := HandleStream(ticket + 2, s2, []);
    assert r3.units == [];
    var r2 := HandleStream(ticket + 1, s1, [d2]);
    assert r2.units == [e2.unit] + r3.units;
    assert [d1, d2][1..] == [d2];
    var r1 := HandleStream(ticket, s0, [d1, d2]);
    assert r1.units == [e1.unit] + r2.units;
    assert [d0, d1, d2][1..] == [d1, d2];
    assert HandleStream(ticket, text, [d0, d1, d2]) == r1;
  }

  /** A reply whose first delta is a newline makes the handler raise at once. */
  lemma LeadingNewlineRaises(ticket: nat, rest: seq<string>)
    ensures HandleStream(ticket, "", ["\n"] + rest) == StreamResult([], ticket, true)
  {
    assert "" + "\n" == "\n";
    assert (["\n"] + rest)[0] == "\n";
  }

  // ---------------------------------------------------------------------
  // The module-level state

  class Assistant {
    /** `speech_order_ticket`: never reset. */
    var ticket: nat
    /** `active_threads`. */
    var active: seq<Worker>
    /** Sentences whose speech thread has not yet started its play thread. */
    var synthesizing: seq<SentenceUnit>
    /** The shared cursor, the play threads' wait loops and the played log. */
    const gate: Sequencer
    /** Every sentence emitted so far, across all turns. */
    ghost var emitted: seq<SentenceUnit>

    /**
     * Tickets handed out are exactly 0 .. ticket - 1; tickets in synthesis
     * or waiting at the gate are distinct, below the counter and not behind
     * the cursor; and the gate has passed tickets 0 .. cursor - 1 in order.
     */
    ghost predicate Valid()
      reads this, gate
    {
      gate.Valid() && Ordered(gate.State())
      && |emitted| == ticket
      && (forall k :: 0 <= k < |emitted| ==> emitted[k].ticket == k)
      && gate.cursor <= ticket
      && (forall k :: 0 <= k < |gate.waiting| ==> gate.waiting[k].ticket < ticket)
      && (forall k :: 0 <= k < |synthesizing| ==>
            gate.cursor <= synthesizing[k].ticket < ticket && !IsPending(gate.State(), synthesizing[k].ticket))
      && (forall a, b :: 0 <= a < b < |synthesizing| ==> synthesizing[a].ticket != synthesizing[b].ticket)
    }

    constructor ()
      ensures Valid() && fresh(gate)
      ensures ticket == 0 && active == [] && synthesizing == [] && gate.State() == Init
    {
      ticket := 0;
      active := [];
      synthesizing := [];
      emitted := [];
      gate := new Sequencer();
    }

    /** `EventHandler.on_text_delta`. */
    method OnTextDelta(delta: string, snapshot: string) returns (e: Emission)
      requires Valid()
      modifies this
      ensures Valid()
      ensures e == HandleDelta(old(ticket), delta, snapshot)
      ensures ticket == NextTicket(old(ticket), e)
      ensures e.Emitted? ==>
                synthesizing == old(synthesizing) + [e.unit]
                && active == old(active) + [Speaker(e.unit)]
                && emitted == old(emitted) + [e.unit]
      ensures !e.Emitted? ==>
                synthesizing == old(synthesizing) && active == old(active) && emitted == old(emitted)
      ensures unchanged(gate)
    {
      if !IsSentenceEnd(delta) {
        return Silent;
      }
      var last := LastSentence(snapshot);
      if last.None? {
        return NoSentence;
      }
      var unit := SentenceUnit(last.value, ticket);
      ticket := ticket + 1;
      synthesizing := synthesizing + [unit];
      active := active + [Speaker(unit)];
      emitted := emitted + [unit];
      e := Emitted(unit);
    }

    /**
     * `text_to_speech` for the `k`-th sentence in synthesis, after the
     * speech file was written at time `timestamp`: its play thread starts.
     */
    method TextToSpeech(k: nat, timestamp: string) returns (fileName: string)
      requires Valid() && k < |synthesizing|
      modifies this, gate
      ensures Valid()
      ensures fileName == SpeechFileName(timestamp, old(synthesizing[k].ticket))
      ensures synthesizing == RemoveAt(old(synthesizing), k)
      ensures gate.State() == EnterGate(old(gate.State()), fileName, old(synthesizing[k].ticket))
      ensures active == old(active) + [Player(fileName, old(synthesizing[k].ticket))]
      ensures ticket == old(ticket) && emitted == old(emitted)
    {
      var unit := synthesizing[k];
      fileName := SpeechFileName(timestamp, unit.ticket);
      ghost var before := gate.State();
      EnterKeepsOrder(before, fileName, unit.ticket);
      forall j | 0 <= j < |synthesizing| && j != k
        ensures !IsPending(EnterGate(before, fileName, unit.ticket), synthesizing[j].ticket)
      {
        EnterKeepsFresh(before, fileName, unit.ticket, synthesizing[j].ticket);
      }
      gate.Enter(fileName, unit.ticket);
      synthesizing := RemoveAt(synthesizing, k);
      active := active + [Player(fileName, unit.ticket)];
    }

    /** The speech call for the `k`-th sentence raises: its thread dies and no play thread starts. */
    method SynthesisFails(k: nat)
      requires Valid() && k < |synthesizing|
      modifies this
      ensures Valid()
      ensures synthesizing == RemoveAt(old(synthesizing), k)
      ensures ticket == old(ticket) && active == old(active) && emitted == old(emitted)
      ensures unchanged(gate)
    {
      synthesizing := RemoveAt(synthesizing, k);
    }

    /** One atomic iteration of the wait loop of play thread `i`. */
    method PlayStep(i: nat, fileExists: bool, fault: bool) returns (outcome: Outcome)
      requires Valid()
      modifies gate
      ensures Valid()
      ensures Step(gate.State(), outcome) == PollGate(old(gate.State()), i, fileExists, fault)
    {
      ghost var before := gate.State();
      PollKeepsOrder(before, i, fileExists, fault);
      PollAdvancesOnlyOnRelease(before, i, fileExists, fault);
      forall j | 0 <= j < |synthesizing|
        ensures var g' := PollGate(before, i, fileExists, fault).gate;
          synthesizing[j].ticket >= g'.cursor && !IsPending(g', synthesizing[j].ticket)
      {
        PollKeepsFresh(before, i, fileExists, fault, synthesizing[j].ticket);
      }
      ghost var after := PollGate(before, i, fileExists, fault).gate;
      forall j | 0 <= j < |after.waiting| ensures after.waiting[j].ticket < ticket {
        assert IsPending(after, after.waiting[j].ticket);
        PollAddsNoTicket(before, i, fileExists, fault, after.waiting[j].ticket);
      }
      outcome := gate.Poll(i, fileExists, fault);
    }

    /**
     * `wait_for_threads`: the joins return once every started thread has
     * finished, that is once no sentence is in synthesis and no play thread
     * is waiting at the gate; then the list is emptied.
     */
    method WaitForThreads()
      requires Valid()
      requires synthesizing == [] && gate.waiting == []
      modifies this
      ensures Valid()
      ensures active == []
      ensures ticket == old(ticket) && synthesizing == old(synthesizing) && emitted == old(emitted)
      ensures unchanged(gate)
    {
      active := [];
    }
  }
}

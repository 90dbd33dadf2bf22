/**
 When a queue answers nothing: exactly when it is not ready, has no size, or holds nothing new.
 A queue the driver has not switched on, or has switched off again, takes nothing in any run.
 */
module QueueReadiness {
  import opened Results
  import opened Bytes
  import opened DescriptorChains
  import opened Virtqueue
  import opened RingProtocol
  import opened MmioRegisters

  /** Exactly which pops say that there is nothing, and exactly which advance the cursor. */
  lemma NothingIff(m: seq<byte>, q: QueueConfig, last: u16)
    ensures Pop(m, q, last).0 == Ok(None) <==> !q.ready || q.size == 0 || AvailIdx(m, q) == Ok(last)
    ensures var headRead := q.ready && q.size > 0
                            && AvailIdx(m, q).Ok? && AvailIdx(m, q) != Ok(last) && RingEntry(m, q, last).Ok?;
            Pop(m, q, last).1 == if headRead then (last + 1) % 0x1_0000 else last
  {
  }

  /**
   Of the writes made while the queue was selected, the last to QueueReady (0x044) or to
   QueueNum (0x038) is zero, or there is none.
   */
  predicate SwitchedOff(log: seq<Write>, queue: nat) {
    LastFor(log, queue, 0x044) in {None, Some(0)} || LastFor(log, queue, 0x038) in {None, Some(0)}
  }

  lemma SwitchedOffPops(log: seq<Write>, queue: nat, m: seq<byte>, last: u16)
    requires SwitchedOff(log, queue)
    ensures Pop(m, Configured(log, queue), last) == (Ok(None), last)
  {
    NothingIff(m, Configured(log, queue), last);
  }

  /** The log in which the last hit on QueueReady wrote zero, or in which there is none, is such a log. */
  lemma ZeroedReadySwitchesOff(log: seq<Write>, queue: nat, k: nat)
    requires k <= |log|
    requires k < |log| ==> Hits(log, k, queue, 0x044) && log[k].val == 0
    requires forall j :: (if k < |log| then k + 1 else 0) <= j < |log| ==> !Hits(log, j, queue, 0x044)
    ensures SwitchedOff(log, queue)
  {
    if k < |log| {
      LastHitDecides(log, queue, 0x044, k);
    } else {
      NoHitMeansNone(log, queue, 0x044);
    }
  }

  /** The driver does anything to memory and rings, or the device pops the queue as the log has configured it. */
  predicate AnyStep(log: seq<Write>, queue: nat, s: Sys, s': Sys) {
    || Device(Configured(log, queue), s, s')
    || (s'.last == s.last && s'.taken == s.taken)
  }

  /** A run over a queue that is switched off at every step, whatever else the log says, takes nothing. */
  lemma {:induction false} SwitchedOffRunTakesNothing(logs: seq<seq<Write>>, queue: nat, tr: seq<Sys>, i: nat)
    requires |logs| == |tr| && i < |tr|
    requires forall j :: 0 <= j < |tr| - 1 ==> SwitchedOff(logs[j], queue)
    requires forall j :: 0 <= j < |tr| - 1 ==> AnyStep(logs[j], queue, tr[j], tr[j + 1])
    ensures tr[i].taken == tr[0].taken && tr[i].last == tr[0].last
    decreases i
  {
    if i > 0 {
      var before: nat := i - 1;
      SwitchedOffRunTakesNothing(logs, queue, tr, before);
      assert SwitchedOff(logs[before], queue) && AnyStep(logs[before], queue, tr[before], tr[before + 1]);
      SwitchedOffPops(logs[before], queue, tr[before].mem, tr[before].last);
    }
  }
}

/** What each message does to the system, told by the bytes of its payload and the fields of
    the records (src/coordinator/coordinator.cpp, include/capacity_fabric/protocol/payload.hpp). */
module MessageLaws {
  import opened Wrappers
  import opened Binary
  import opened Doubles
  import opened Capacities
  import opened Fleet
  import opened Payload
  import opened Authority
  import opened Coordinators
  import opened Frames

  // --- Values ---------------------------------------------------------------------------

  lemma ZeroWord(w: Word)
    requires IsZero(w)
    ensures RealOf(w) == 0.0
  {
    assert Significand(0) == 0 && Significand(NEGATIVE_ZERO) == 0;
  }

  // The amount of d that these words carry.
  function Carries(c: Words, d: Dimension): real {
    if d in c then RealOf(c[d]) else 0.0
  }

  lemma AmountsCarried(c: Words, d: Dimension)
    ensures AmountsOf(NonZero(c)).At(d) == Carries(c, d)
    ensures AmountsOf(NonZero(c)).Has(d) <==> d in c && !IsZero(c[d])
  {
    if d in c && IsZero(c[d]) { ZeroWord(c[d]); }
  }

  // a carries the words c, dimension by dimension, without the zeros.
  ghost predicate IsAmountOf(a: Amounts, c: Words) {
    forall d: Dimension :: a.At(d) == Carries(c, d) && (a.Has(d) <==> d in c && !IsZero(c[d]))
  }

  lemma AmountOf(c: Words)
    ensures IsAmountOf(AmountsOf(NonZero(c)), c)
  {
    forall d: Dimension
      ensures AmountsOf(NonZero(c)).At(d) == Carries(c, d)
      ensures AmountsOf(NonZero(c)).Has(d) <==> d in c && !IsZero(c[d])
    {
      AmountsCarried(c, d);
    }
  }

  // --- Publishing -------------------------------------------------------------------------

  // The record says what was written, field by field.
  ghost predicate SaysResource(r: Resource, w: WireResource) {
    && r.id == w.identity.id && r.generation == w.identity.generation && r.fleetId == w.identity.fleetId
    && r.nodeId == w.identity.nodeId && r.deviceId == w.identity.deviceId
    && r.worker == w.identity.worker && r.bootId == w.identity.bootId
    && r.kind == w.identity.kind && r.health == w.identity.health
    && r.capability == DeviceCapability(Text(w.capability.architecture), Text(w.capability.className),
                                        Text(w.capability.name))
    && IsAmountOf(r.nominal, w.shares.nominal) && IsAmountOf(r.free, w.shares.free)
    && IsAmountOf(r.committed, w.shares.committed) && IsAmountOf(r.unavailable, w.shares.unavailable)
    && r.freeBlocks == w.freeBlocks
    && r.drained == w.condition.drained && r.maintenance == w.condition.maintenance
  }

  // Message 3 publishes the resource that was written, if its amounts are acceptable and its
  // blocks few enough, and does nothing otherwise.
  lemma ResourceMessage(w: WireResource, seqNo: Word32, rest: Bytes)
    requires Encodable(w.capability) && |w.freeBlocks| < TWO32
    ensures var effect := EffectOf(Message(3, seqNo, EncResource(w) + rest));
            if AcceptableShares(w.shares) && |w.freeBlocks| <= 1000000
            then effect.Does? && effect.step.PublishResource? && SaysResource(effect.step.resource, w)
            else effect == Nothing
  {
    ResourceRoundTrip(w, rest);
    AmountOf(w.shares.nominal);
    AmountOf(w.shares.free);
    AmountOf(w.shares.committed);
    AmountOf(w.shares.unavailable);
  }

  // Message 6 publishes the reservation that was written: its interval, its strength and its
  // hold of accelerators.  It does nothing for a bad interval, and a hold that is not finite
  // ends the process.
  lemma ReservationMessage(w: WireReservation, seqNo: Word32, rest: Bytes)
    ensures var effect := EffectOf(Message(6, seqNo, EncReservation(w) + rest));
            var hold := Payload.At(w.hold, 0);
            if !(0 <= w.start < w.end) then effect == Nothing
            else if !IsFinite(hold) then effect == Aborts
            else
              && effect.Does? && effect.step.PublishReservation?
              && var r := effect.step.reservation;
                 && r.id == w.id && r.generation == w.generation && r.strength == w.strength
                 && r.interval.start == w.start && r.interval.end == w.end
                 && r.hold.changes == map[0 := RealOf(hold)]
  {
    ReservationRoundTrip(w, rest);
    PlusZeroSame(Payload.At(w.hold, 0));
  }

  lemma PlusZeroSame(w: Word)
    ensures RealOf(PlusZero(w)) == RealOf(w)
    ensures DeltaOf(OneChange(w)).changes == map[0 := RealOf(w)]
  {
    if w == NEGATIVE_ZERO {
      ZeroWord(w);
      ZeroWord(0);
    }
  }

  // Message 5 publishes the release that was written; a confidence out of range or an amount
  // that is not finite ends the process.
  lemma ReleaseMessage(w: WireRelease, seqNo: Word32, rest: Bytes)
    ensures var effect := EffectOf(Message(5, seqNo, EncRelease(w) + rest));
            var amount := Payload.At(w.release, 0);
            if !InUnit(w.confidence) || !IsFinite(amount) then effect == Aborts
            else
              && effect.Does? && effect.step.PublishRelease?
              && var e := effect.step.release;
                 && e.sourceId == w.sourceId && e.time == w.time && e.earliest == w.earliest && e.latest == w.latest
                 && e.confidence == RealOf(w.confidence) && e.release.changes == map[0 := RealOf(amount)]
  {
    ReleaseRoundTrip(w, rest);
    PlusZeroSame(Payload.At(w.release, 0));
  }

  // Message 8 advances the generation of the resource whose id it carries, if it carries one.
  lemma AdvanceMessage(id: Word, seqNo: Word32, rest: Bytes)
    ensures EffectOf(Message(8, seqNo, LE(id, 8) + rest)) == Does(AdvanceGeneration(id))
    ensures |rest| < 8 ==> EffectOf(Message(8, seqNo, rest)) == Nothing
  {
    GetPutU64(id, rest);
  }

  // Every other message leaves the model alone.
  lemma OtherMessages(msg: Message)
    requires msg.kind != 3 && msg.kind != 5 && msg.kind != 6 && msg.kind != 8
    ensures EffectOf(msg) == Nothing
  {
  }

  // --- The connection -----------------------------------------------------------------------

  // Message 2 names worker and boot: the connection takes the worker over as its own, whether
  // or not the model accepts the registration.
  lemma RegisterMessage(s: System, c: nat, w: Word, b: Word, seqNo: Word32, rest: Bytes, replied: bool)
    requires c in s.open
    ensures Next(s, Receive(c, Message(2, seqNo, LE(w, 8) + LE(b, 8) + rest), replied))
            == System(Apply(s.model, Register(w, b)).0, s.running, s.open[c := w])
    ensures |rest| < 16 ==> Next(s, Receive(c, Message(2, seqNo, rest), replied)) == s
  {
    Regroup2(LE(w, 8), LE(b, 8), rest);
    GetPutU64(w, LE(b, 8) + rest);
    GetPutU64(b, rest);
    if |rest| < 16 { ShortRegister(rest); }
  }

  lemma ShortRegister(payload: Bytes)
    requires |payload| < 16
    ensures Named(payload) == None
  {
  }

  // Message 17 stops the coordinator and closes the connection without fencing its worker.
  lemma ShutdownMessage(s: System, c: nat, seqNo: Word32, payload: Bytes, replied: bool)
    requires c in s.open
    ensures Next(s, Receive(c, Message(17, seqNo, payload), replied)) == System(s.model, false, s.open - {c})
  {
  }

  // Any other message performs its effect; if the reply cannot be sent the coordinator stops
  // and the connection is closed without fencing its worker; an abort closes everything.
  lemma ServedMessage(s: System, c: nat, msg: Message, replied: bool)
    requires c in s.open && msg.kind != 2 && msg.kind != 17
    ensures var model := if EffectOf(msg).Does? then Apply(s.model, EffectOf(msg).step).0 else s.model;
            Next(s, Receive(c, msg, replied))
            == if EffectOf(msg).Aborts? then System(s.model, false, map[])
               else if replied then System(model, s.running, s.open)
               else System(model, false, s.open - {c})
  {
  }

  // The end of a connection fences the worker it named last, if any, and closes it; a new
  // connection names none.
  lemma ConnectionEnds(s: System, c: nat)
    ensures c in s.open && s.open[c] != 0 ==>
              Next(s, Lost(c)) == System(Apply(s.model, MarkDead(s.open[c])).0, s.running, s.open - {c})
    ensures c in s.open && s.open[c] == 0 ==> Next(s, Lost(c)) == System(s.model, s.running, s.open - {c})
    ensures c !in s.open ==> Next(s, Accept(c)) == System(s.model, s.running, s.open[c := 0])
  {
  }
}

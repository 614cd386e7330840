/** The settlement objects as the program keeps them: acknowledgers that end their span
    once, and the maps of pending ones that settlements take them from. */
module AmqpSettlement {
  import opened Common
  import opened AmqpProtocol

  /** The span of an acknowledger: whether its once has fired, how often it was ended,
      and whether an error was recorded. */
  datatype Ending = Ending(fired: bool, ends: nat, failed: bool)

  /** The effect of `once.Do` with the error of the settlement. */
  function Fired(e: Ending, err: bool): Ending {
    if e.fired then e else Ending(true, e.ends + 1, e.failed || err)
  }

  class PendingAcks {
    var acks: map<Tag, SettlingAcknowledger>

    constructor ()
      ensures acks == map[]
    {
      acks := map[];
    }

    method Add(tag: Tag, s: SettlingAcknowledger)
      modifies this
      ensures acks == old(acks)[tag := s]
    {
      acks := acks[tag := s];
    }

    method Settle(tag: Tag, multiple: bool, err: bool)
      modifies this, acks.Values
      ensures acks == Left(old(acks), tag, multiple)
      ensures forall s :: s in TakenFrom(old(acks), tag, multiple) ==> s.ending == Fired(old(s.ending), err)
      ensures forall s :: s in old(acks).Values && s !in TakenFrom(old(acks), tag, multiple) ==> s.ending == old(s.ending)
      ensures forall t :: t in acks <==> t in old(acks) && if multiple then t > tag else t != tag
      ensures forall t :: t in acks ==> acks[t] == old(acks)[t]
      ensures forall t :: t in old(acks) && (if multiple then t <= tag else t == tag) ==>
                old(acks)[t].ending == Fired(old(acks[t].ending), err)
    {
      var toEnd: seq<SettlingAcknowledger> := [];
      var before := acks;
      if multiple {
        var unseen := acks.Keys;
        while unseen != {}
          invariant unseen <= before.Keys && forall s :: s in before.Values ==> s.ending == old(s.ending)
          invariant forall t :: t in acks <==> t in before && (t in unseen || t > tag)
          invariant forall t :: t in acks ==> acks[t] == before[t]
          invariant forall t :: t in before && t !in unseen && t <= tag ==> before[t] in toEnd
          invariant forall s :: s in toEnd ==> s in TakenFrom(before, tag, multiple)
        {
          var t :| t in unseen;
          if t <= tag {
            toEnd := toEnd + [acks[t]];
            acks := acks - {t};
          }
          unseen := unseen - {t};
        }
      } else if tag in acks {
        toEnd := toEnd + [acks[tag]];
        acks := acks - {tag};
      }
      assert acks == Left(before, tag, multiple);
      forall s
        ensures s in TakenFrom(before, tag, multiple) ==> s in toEnd
        ensures s in toEnd ==> s in TakenFrom(before, tag, multiple) && s in before.Values
      {
        if s in TakenFrom(before, tag, multiple) {
          var t :| t in before && Matches(t, tag, multiple) && before[t] == s;
          assert !multiple ==> t == tag;
        }
      }
      SettlingAcknowledger.EndEach(toEnd, err);
    }

    method EndAll()
      modifies this, acks.Values
      ensures acks == map[]
      ensures forall s :: s in old(acks).Values ==> s.ending == Fired(old(s.ending), false)
    {
      var left := acks;
      acks := map[];
      var unseen := left.Keys;
      while unseen != {}
        invariant unseen <= left.Keys && acks == map[]
        invariant forall s :: s in left.Values ==> s.ending == old(s.ending) || s.ending == Fired(old(s.ending), false)
        invariant forall t :: t in left && t !in unseen ==> left[t].ending == Fired(old(left[t].ending), false)
      {
        var t :| t in unseen;
        left[t].End(false);
        unseen := unseen - {t};
      }
    }
  }

  class SettlingAcknowledger {
    const initialised: bool      // whether there is an inner acknowledger
    const local: PendingAcks?    // its consumer's map
    const channel: PendingAcks?  // its channel's map
    var ending: Ending

    constructor (initialised: bool, local: PendingAcks?, channel: PendingAcks?)
      ensures this.initialised == initialised && this.local == local && this.channel == channel
      ensures ending == Ending(false, 0, false)
    {
      this.initialised, this.local, this.channel := initialised, local, channel;
      ending := Ending(false, 0, false);
    }

    method End(err: bool)
      modifies this
      ensures ending == Fired(old(ending), err)
      ensures ending.fired && ending.ends == old(ending.ends) + if old(ending.fired) then 0 else 1
      ensures ending.failed <==> old(ending.failed) || (err && !old(ending.fired))
    {
      if !ending.fired {
        ending := ending.(fired := true);
        if err {
          ending := ending.(failed := true);
        }
        ending := ending.(ends := ending.ends + 1);
      }
    }

    static method EndEach(toEnd: seq<SettlingAcknowledger>, err: bool)
      modifies toEnd
      ensures forall s :: s in toEnd ==> s.ending == Fired(old(s.ending), err)
    {
      for i := 0 to |toEnd|
        invariant forall s :: s in toEnd[..i] ==> s.ending == Fired(old(s.ending), err)
        invariant forall s :: s in toEnd ==> s.ending == old(s.ending) || s.ending == Fired(old(s.ending), err)
      {
        toEnd[i].End(err);
        assert toEnd[..i + 1] == toEnd[..i] + [toEnd[i]];
      }
    }

    /** What the map holds now, nothing when there is none. */
    static function In(pending: PendingAcks?): map<Tag, SettlingAcknowledger>
      reads pending
    {
      if pending == null then map[] else pending.acks
    }

    /** The acknowledgers that a settlement ends. */
    function Settled(tag: Tag, multiple: bool): set<SettlingAcknowledger>
      reads local, channel
    {
      if local == null && channel == null then {this}
      else TakenFrom(In(local), tag, multiple) + TakenFrom(In(channel), tag, multiple)
    }

    method Finish(tag: Tag, multiple: bool, err: bool)
      requires local == null || local != channel
      modifies this, local, channel, In(local).Values, In(channel).Values
      ensures In(local) == Left(old(In(local)), tag, multiple) && In(channel) == Left(old(In(channel)), tag, multiple)
      ensures forall s :: s in old(Settled(tag, multiple)) ==> s.ending == Fired(old(s.ending), err)
      ensures forall s :: s in {this} + old(In(local)).Values + old(In(channel)).Values && s !in old(Settled(tag, multiple)) ==>
                s.ending == old(s.ending)
      ensures local != null ==> forall t :: t in local.acks <==> t in old(local.acks) && if multiple then t > tag else t != tag
      ensures channel != null ==> forall t :: t in channel.acks <==> t in old(channel.acks) && if multiple then t > tag else t != tag
      ensures local != null ==> forall t :: t in old(local.acks) && (if multiple then t <= tag else t == tag) ==>
                old(local.acks)[t].ending == Fired(old(local.acks[t].ending), err)
      ensures channel != null ==> forall t :: t in old(channel.acks) && (if multiple then t <= tag else t == tag) ==>
                old(channel.acks)[t].ending == Fired(old(channel.acks[t].ending), err)
      ensures local == null && channel == null ==> ending == Fired(old(ending), err)
    {
      if local != null {
        local.Settle(tag, multiple, err);
      }
      if channel != null {
        channel.Settle(tag, multiple, err);
      }
      if local == null && channel == null {
        End(err);
      }
    }

    /** Ack and Nack; Reject is Nack of one tag. The inner call reports `innerErr`, and
        settles on the channel itself when the channel's own hook is active. */
    method Ack(tag: Tag, multiple: bool, hook: bool, innerErr: bool) returns (err: bool)
      requires local == null || local != channel
      modifies this, local, channel, In(local).Values, In(channel).Values
      ensures err == (!initialised || innerErr)
      ensures In(local) == Left(old(In(local)), tag, multiple) && In(channel) == Left(old(In(channel)), tag, multiple)
      ensures forall s :: s in old(Settled(tag, multiple)) ==> s.ending == Fired(old(s.ending), err)
      ensures forall s :: s in {this} + old(In(local)).Values + old(In(channel)).Values && s !in old(Settled(tag, multiple)) ==>
                s.ending == old(s.ending)
      ensures local != null ==> forall t :: t in local.acks <==> t in old(local.acks) && if multiple then t > tag else t != tag
      ensures channel != null ==> forall t :: t in channel.acks <==> t in old(channel.acks) && if multiple then t > tag else t != tag
      ensures local != null ==> forall t :: t in old(local.acks) && (if multiple then t <= tag else t == tag) ==>
                old(local.acks)[t].ending == Fired(old(local.acks[t].ending), err)
      ensures channel != null ==> forall t :: t in old(channel.acks) && (if multiple then t <= tag else t == tag) ==>
                old(channel.acks)[t].ending == Fired(old(channel.acks[t].ending), err)
      ensures local == null && channel == null ==> ending == Fired(old(ending), err)
    {
      SettledTwice(In(channel), tag, multiple);
      EndedTwice();
      hide AmqpProtocol.Left, Fired;
      err := true;
      if initialised {
        err := innerErr;
        if hook && channel != null {
          channel.Settle(tag, multiple, innerErr);
        }
      }
      Finish(tag, multiple, err);
    }
  }

  /** Settling again under the same tags finds nothing, and a span ended once stays as it is. */
  lemma SettledTwice(m: map<Tag, SettlingAcknowledger>, tag: Tag, multiple: bool)
    ensures var left := AmqpProtocol.Left(m, tag, multiple);
      AmqpProtocol.Left(left, tag, multiple) == left && TakenFrom(left, tag, multiple) == {}
  {
  }

  lemma EndedTwice()
    ensures forall e, err, err' :: Fired(Fired(e, err), err') == Fired(e, err)
  {
  }

  /** The start of a delivery span: that of an auto-acknowledged delivery is ended at once, any
      other is pending in each map there is. `inner`: whether the delivery carries an acknowledger. */
  method StartDeliverySpan(channel: PendingAcks?, local: PendingAcks?, tag: Tag, inner: bool, autoAck: bool)
    returns (s: SettlingAcknowledger?, ended: bool)
    requires local == null || local != channel
    modifies local, channel
    ensures ended == autoAck && (s == null <==> autoAck)
    ensures autoAck ==> SettlingAcknowledger.In(local) == old(SettlingAcknowledger.In(local))
    ensures autoAck ==> SettlingAcknowledger.In(channel) == old(SettlingAcknowledger.In(channel))
    ensures s != null ==> fresh(s) && s.ending == Ending(false, 0, false) && s.initialised == inner
    ensures s != null ==> s.local == local && s.channel == channel
    ensures s != null && local != null ==> local.acks == old(local.acks)[tag := s]
    ensures s != null && channel != null ==> channel.acks == old(channel.acks)[tag := s]
  {
    if autoAck {
      return null, true;
    }
    ended := false;
    s := new SettlingAcknowledger(inner, local, channel);
    if local != null {
      local.Add(tag, s);
    }
    if channel != null {
      channel.Add(tag, s);
    }
  }

  /** What the consumer does with a delivery before it takes the next one. */
  datatype Reply = Reply(tag: Tag, multiple: bool, hook: bool, err: bool)

  /** The consumer's reply to one delivery: each span that was ended once or is waiting to be
      ended stays so. */
  method Answer(s: SettlingAcknowledger, r: Reply, pending: PendingAcks, channel: PendingAcks?,
        ghost out: seq<SettlingAcknowledger>, ghost tags: seq<Tag>)
    requires s.local == pending && s.channel == channel && pending != channel && |out| <= |tags|
    requires forall k :: 0 <= k < |out| ==> EndedOnce(out[k]) || Waits(pending, tags[k], out[k])
    modifies s, pending, channel, pending.acks.Values, SettlingAcknowledger.In(channel).Values
    ensures forall k :: 0 <= k < |out| ==> EndedOnce(out[k]) || Waits(pending, tags[k], out[k])
    ensures forall t :: t in pending.acks ==> t in old(pending.acks) && pending.acks[t] == old(pending.acks)[t]
    ensures SettlingAcknowledger.In(channel).Values <= old(SettlingAcknowledger.In(channel).Values)
  {
    ghost var acks, settled := pending.acks, s.Settled(r.tag, r.multiple);
    hide AmqpProtocol.Left, TakenFrom, SettlingAcknowledger.Settled, Fired;
    var err := s.Ack(r.tag, r.multiple, r.hook, r.err);
    forall k | 0 <= k < |out|
      ensures EndedOnce(out[k]) || Waits(pending, tags[k], out[k])
    {
      assert out[k].ending == if out[k] in settled then Fired(old(out[k].ending), err) else old(out[k].ending);
    }
  }

  /** A consumer's wrapper, with the settlements that its consumer makes in between: whatever
      they are, at the close each delivery's span has been ended exactly once. `inner`: which deliveries
      carry an acknowledger. */
  method WrapDeliveries(channel: PendingAcks?, autoAck: bool, tags: seq<Tag>, inner: seq<bool>, replies: seq<Option<Reply>>)
    returns (out: seq<SettlingAcknowledger?>, endedAtOnce: nat)
    requires |replies| == |inner| == |tags| && forall i, j :: 0 <= i < j < |tags| ==> tags[i] != tags[j]
    modifies channel, SettlingAcknowledger.In(channel).Values
    ensures |out| == |tags|
    ensures autoAck ==> endedAtOnce == |tags| && forall i :: 0 <= i < |out| ==> out[i] == null
    ensures !autoAck ==> endedAtOnce == 0
    ensures !autoAck ==> forall i :: 0 <= i < |out| ==> EndedOnce(out[i])
  {
    out, endedAtOnce := [], 0;
    ghost var known := SettlingAcknowledger.In(channel).Values;
    var pending := new PendingAcks();
    for i := 0 to |tags|
      invariant |out| == i && fresh(pending) && pending != channel
      invariant endedAtOnce == if autoAck then i else 0
      invariant autoAck ==> forall k :: 0 <= k < i ==> out[k] == null
      invariant !autoAck ==> forall k :: 0 <= k < i ==> out[k] != null && fresh(out[k])
      invariant !autoAck ==> forall k :: 0 <= k < i ==> EndedOnce(out[k]) || Waits(pending, tags[k], out[k])
      invariant forall t :: t in pending.acks ==> fresh(pending.acks[t])
      invariant forall x :: x in SettlingAcknowledger.In(channel).Values ==> x in known || fresh(x)
    {
      ghost var waiting, held := pending.acks, SettlingAcknowledger.In(channel);
      var s, ended := StartDeliverySpan(channel, pending, tags[i], inner[i], autoAck);
      ValuesAfterAdding(waiting, tags[i], s);
      ValuesAfterAdding(held, tags[i], s);
      out := out + [s];
      if ended {
        endedAtOnce := endedAtOnce + 1;
      } else if replies[i].Some? {
        Answer(s, replies[i].value, pending, channel, out, tags);
      }
    }
    pending.EndAll();
  }

  lemma ValuesAfterAdding(m: map<Tag, SettlingAcknowledger>, tag: Tag, s: SettlingAcknowledger?)
    ensures s != null ==> m[tag := s].Values <= m.Values + {s}
  {
  }

  ghost predicate EndedOnce(s: SettlingAcknowledger?)
    reads s
  {
    s != null && s.ending.fired && s.ending.ends == 1
  }

  /** Not ended yet, and found in the consumer's map. */
  ghost predicate Waits(pending: PendingAcks, tag: Tag, s: SettlingAcknowledger?)
    reads pending, s
  {
    s != null && s.ending == Ending(false, 0, false) && tag in pending.acks && pending.acks[tag] == s
  }
}

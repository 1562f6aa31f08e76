/** The QoS 2 handlers over the ack queue object: each performs one step of Qos2Model. */
module Qos2Receiver {
  import opened AckQueue
  import opened Bits
  import opened Bytes
  import opened MessageTypes
  import opened Prelude
  import opened PublishCodec
  import opened Qos2Model
  import AckModel
  import AckPackets

  class Service {
    const pub2in: Ackqueue
    var released: seq<Publish>
    var direct: seq<Publish>
    var replies: seq<Reply>
    var heartbeats: seq<int>

    ghost predicate Valid()
      reads this, pub2in, pub2in.ring
    {
      pub2in.Valid()
    }

    ghost function Abstract(): Receiver
      requires Valid()
      reads this, pub2in, pub2in.ring
    {
      Receiver(pub2in.Abstract(), released, direct, replies, heartbeats)
    }

    constructor ()
      ensures Valid() && fresh(pub2in) && fresh(pub2in.ring) && Abstract() == Start()
    {
      SixteenIsPow2();
      pub2in := new Ackqueue(AckModel.DEFAULT_QUEUE_SIZE);
      released, direct, replies, heartbeats := [], [], [], [];
    }

    /** processPublish for a packet that decodes to a PUBLISH. */
    method ProcessPublish(packet: seq<byte>)
      requires Valid() && Legal(GotPublish(packet))
      modifies this, pub2in, pub2in.ring
      ensures Valid() && (pub2in.ring == old(pub2in.ring) || fresh(pub2in.ring))
      ensures Abstract() == Next(old(Abstract()), GotPublish(packet))
    {
      hide PublishCodec.Decode, AckModel.Step, Atoi, Clamp;
      var msg := PublishCodec.Decode(packet).value.0;
      QosInRange(packet);
      if msg.topic == HEARTBEAT_TOPIC {
        var heartbeat := Atoi(msg.payload);
        if heartbeat.None? {
          return;
        }
        heartbeats := heartbeats + [Clamp(heartbeat.value)];
        if msg.qos == 1 { replies := replies + [Puback(msg.pktid)]; }
        return;
      }
      if msg.qos == 2 {
        var _ := pub2in.Wait(AckQueue.Msg(PUBLISH, msg.pktid, msg.qos, msg.dup, Some(packet)), 0);
        replies := replies + [Pubrec(msg.pktid)];
      } else if msg.qos == 1 {
        replies := replies + [Puback(msg.pktid)];
        direct := direct + [msg];
      } else {
        direct := direct + [msg];
      }
    }

    /** The PUBREL branch of processIncoming. */
    method ProcessPubrel(packet: seq<byte>)
      requires Valid() && Legal(GotPubrel(packet))
      modifies this, pub2in, pub2in.ring
      ensures Valid() && pub2in.ring == old(pub2in.ring)
      ensures Abstract() == Next(old(Abstract()), GotPubrel(packet))
    {
      hide AckPackets.Decode, AckModel.Step, AckModel.Removed;
      var id := AckPackets.Decode(PUBREL, packet).value.0;
      var _ := pub2in.Ack(PUBREL, id, packet, true);
      ProcessAcked();
      replies := replies + [Pubcomp(id)];
    }

    /** Publishes the finished messages whose stored bytes decode. */
    method ProcessAcked()
      requires Valid()
      modifies this`released, pub2in`ping, pub2in`head, pub2in`count, pub2in`emap, pub2in.ring
      ensures Valid()
      ensures pub2in.Abstract() == AckModel.Step(old(pub2in.Abstract()), AckModel.Acked)
      ensures released == old(released) + Publishes(AckModel.Removed(old(pub2in.Abstract()), AckModel.Acked))
    {
      hide AckPackets.Decode, PublishCodec.Decode, AckModel.Step, AckModel.Removed, Ackqueue.Valid, Publishes;
      var _, done := pub2in.Acked();
      var before := released;
      assert done[0..] == done;
      for i := 0 to |done|
        invariant before + Publishes(done) == released + Publishes(done[i..])
        invariant Valid() && pub2in.Abstract() == AckModel.Step(old(pub2in.Abstract()), AckModel.Acked)
      {
        var ackmsg := done[i];
        assert done[i..][1..] == done[i + 1..];
        PublishesStep(done[i..]);
        if ackmsg.mtype != PUBLISH {
          continue;
        }
        var m := PublishCodec.Decode(ackmsg.msgbuf);
        if m.Err? {
          continue;
        }
        if ackmsg.state != PUBREL || AckPackets.Decode(PUBREL, ackmsg.ackbuf).Err? {
          continue;
        }
        released := released + [m.value.0];
      }
      NoPublishes(done[|done|..]);
    }
  }

  lemma SixteenIsPow2()
    ensures IsPow2(AckModel.DEFAULT_QUEUE_SIZE) && AckModel.DEFAULT_QUEUE_SIZE <= Pow2(62)
  {
    assert Pow2(4) == 16;
    Pow2Monotone(4, 62);
  }

  lemma QosInRange(packet: seq<byte>)
    requires PublishCodec.Decode(packet).Ok?
    ensures PublishCodec.Decode(packet).value.0.qos <= 2
  {
  }
}

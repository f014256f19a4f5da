/**
The same queue as an object with the calls of rtdal_lnx/src/rtdal_itfspscq.c,
each call taken as a whole: the copying `Send` and `Recv` on top of the
zero-copy `Request`, `Push`, `Pop` and `Release`. The slot clock is a
parameter of the calls that read it. Module SpscQueue treats the interleaving
of the two sides.
*/
module SpscInterface {
  import opened SpscQueue

  class Interface {
    const maxMsg: nat
    const msgSize: nat
    const delay: nat
    var packets: array<Packet>
    var read: nat
    var write: nat
    ghost var pushed: seq<Pushed>  // everything ever pushed
    ghost var released: nat        // how many of them have been released

    ghost predicate Valid()
      reads this, packets
    {
      && packets.Length == maxMsg > 0
      && released <= |pushed| <= released + maxMsg
      && read == Slot(released, maxMsg)
      && write == Slot(|pushed|, maxMsg)
      && SlotsOk(packets[..], pushed, released)
      && (forall i :: 0 <= i < maxMsg ==> |packets[i].data| == msgSize)
      && (forall k: nat {:trigger pushed[k]} :: k < |pushed| ==> 0 < pushed[k].len <= msgSize == |pushed[k].data|)
    }

    /** The indices are within the slots. */
    ghost predicate Shaped()
      reads this
    {
      packets.Length == maxMsg && read < maxMsg && write < maxMsg
    }

    constructor (maxMsg: nat, msgSize: nat, delay: nat)
      requires maxMsg > 0
      ensures Valid() && fresh(packets) && pushed == [] && released == 0
      ensures this.maxMsg == maxMsg && this.msgSize == msgSize && this.delay == delay
    {
      this.maxMsg := maxMsg;
      this.msgSize := msgSize;
      this.delay := delay;
      this.packets := new Packet[maxMsg](_ => Packet(false, 0, 0, seq(msgSize, _ => 0)));
      this.read := 0;
      this.write := 0;
      this.pushed := [];
      this.released := 0;
      new;
      assert Slot(0, maxMsg) == 0;
    }

    /** Grants the slot at `write`; refused exactly when every slot is taken. */
    method Request() returns (granted: bool)
      requires Valid()
      ensures granted <==> |pushed| < released + maxMsg
    {
      FullIffWriteValid(packets[..], pushed, released);
      granted := !packets[write].valid;
    }

    /**
    Marks the slot at `write` and moves on, whether it was granted or not; a push
    of length 0 does nothing. If it was granted, and the length fits, this appends
    the packet to the queue.
    */
    method Push(len: int, clock: int)
      requires Shaped()
      modifies this`write, this`pushed, packets
      ensures Shaped()
      ensures packets[..] == if len == 0 then old(packets[..]) else
        old(packets[..])[old(write) := old(packets[write]).(tstamp := clock + delay, len := len, valid := true)]
      ensures write == if len == 0 then old(write) else Advance(old(write), maxMsg)
      ensures old(Valid() && |pushed| < released + maxMsg) && 0 <= len <= msgSize ==>
        && Valid()
        && pushed == old(pushed) + if len == 0 then [] else [Pushed(clock, clock + delay, len, old(packets[write].data))]
    {
      if len == 0 {
        return;
      }
      ghost var before := packets[..];
      packets[write] := packets[write].(tstamp := clock + delay);
      packets[write] := packets[write].(len := len);
      packets[write] := packets[write].(valid := true);
      assert packets[..] == before[write := packets[write]];
      write := Advance(write, maxMsg);
      if old(Valid() && |pushed| < released + maxMsg) && 0 < len <= msgSize {
        ghost var msg := Pushed(clock, clock + delay, len, before[old(write)].data);
        SlotsAfterPush(before, pushed, released, packets[old(write)], msg);
        SlotNext(|pushed|, maxMsg);
        pushed := pushed + [msg];
      }
    }

    /** Offers the oldest packet, exactly when there is one and it is due. */
    method Pop(clock: int) returns (granted: bool, len: int)
      requires Valid()
      ensures granted <==> released < |pushed| && pushed[released].due <= clock
      ensures granted ==> Carries(packets[read], pushed[released]) && len == pushed[released].len
      ensures !granted ==> len == 0
    {
      EmptyIffReadInvalid(packets[..], pushed, released);
      if !packets[read].valid {
        return false, 0;
      }
      if packets[read].tstamp > clock {
        return false, 0;
      }
      return true, packets[read].len;
    }

    /** Clears the slot at `read` and moves on; if the queue is not empty, this frees the oldest packet. */
    method Release()
      requires Shaped()
      modifies this`read, this`released, packets
      ensures Shaped()
      ensures packets[..] == old(packets[..])[old(read) := old(packets[read]).(valid := false)] && read == Advance(old(read), maxMsg)
      ensures old(Valid() && released < |pushed|) ==> Valid() && released == old(released) + 1
    {
      ghost var before := packets[..];
      packets[read] := packets[read].(valid := false);
      assert packets[..] == before[read := packets[read]];
      read := Advance(read, maxMsg);
      if old(Valid() && released < |pushed|) {
        SlotsAfterRelease(before, pushed, released, packets[old(read)]);
        SlotNext(released, maxMsg);
        released := released + 1;
      }
    }

    /** -1: too long for a slot; 0: no space; 1: queued (or nothing to queue). */
    method Send(buffer: seq<Byte>, clock: int) returns (status: int)
      requires Valid()
      modifies this`write, this`pushed, packets
      ensures Valid()
      ensures status ==
        if |buffer| > msgSize then -1 else if old(|pushed|) == released + maxMsg then 0 else 1
      ensures status != 1 || buffer == [] ==> pushed == old(pushed)
      ensures status == 1 && buffer != [] ==>
        && |pushed| == old(|pushed|) + 1 && pushed[..|pushed| - 1] == old(pushed)
        && var msg := pushed[|pushed| - 1];
           msg.at == clock && msg.due == clock + delay && msg.len == |buffer| && msg.data[..|buffer|] == buffer
    {
      if |buffer| > msgSize {
        return -1;
      }
      var granted := Request();
      if !granted {
        return 0;
      }
      ghost var before := packets[..];
      var slot := packets[write];
      packets[write] := slot.(data := buffer + slot.data[|buffer|..]);
      FullIffWriteValid(before, pushed, released);
      SlotsAfterFill(before, pushed, released, packets[write]);
      assert packets[..] == before[write := packets[write]];
      Push(|buffer|, clock);
      return 1;
    }

    /** Copies out and releases the oldest packet, cut to the room there is; 0 if there is none or it is not due. */
    method Recv(room: nat, clock: int) returns (n: int, bytes: seq<Byte>)
      requires Valid()
      modifies this`read, this`released, packets
      ensures Valid()
      ensures if old(released) < |pushed| && pushed[old(released)].due <= clock
        then
          && released == old(released) + 1
          && n == (if pushed[old(released)].len > room then room else pushed[old(released)].len)
          && bytes == pushed[old(released)].data[..n]
        else released == old(released) && n == 0 && bytes == []
    {
      var granted, plen := Pop(clock);
      if !granted {
        return 0, [];
      }
      if plen > room {
        plen := room;
      }
      bytes := packets[read].data[..plen];
      Release();
      return plen, bytes;
    }
  }

  /** What is sent is what is received: any message that fits, through an empty queue, once the delay has passed. */
  method SendThenRecv(itf: Interface, buffer: seq<Byte>, sentAt: int, room: nat, receivedAt: int)
    returns (status: int, n: int, bytes: seq<Byte>)
    requires itf.Valid() && itf.released == |itf.pushed|
    requires 0 < |buffer| <= itf.msgSize && |buffer| <= room
    modifies itf, itf.packets
    ensures itf.Valid() && status == 1
    ensures receivedAt >= sentAt + itf.delay ==> n == |buffer| && bytes == buffer && itf.released == |itf.pushed|
    ensures receivedAt < sentAt + itf.delay ==> n == 0 && bytes == [] && itf.released == |itf.pushed| - 1
  {
    status := itf.Send(buffer, sentAt);
    n, bytes := itf.Recv(room, receivedAt);
  }
}

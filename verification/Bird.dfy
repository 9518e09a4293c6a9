/** Sending status messages to BIRD in batches (pkg/bird/client.go and pkg/bird/message.go). */
module Bird {
  import opened Common

  datatype Message = Message(ipVer: byte, ipAddr: seq<byte>, prefLen: byte, state: byte) {
    predicate Valid() {
      |ipAddr| == 16
    }

    /** The fields in order, one byte each but for the address. */
    function Bytes(): seq<byte> {
      [ipVer] + ipAddr + [prefLen, state]
    }
  }

  const MESSAGE_SIZE := 19

  /** Which byte of a message is what. */
  lemma BytesOf(m: Message)
    requires |m.ipAddr| == 16
    ensures |m.Bytes()| == 19
    ensures m.Bytes()[0] == m.ipVer && m.Bytes()[1..17] == m.ipAddr && m.Bytes()[17] == m.prefLen && m.Bytes()[18] == m.state
  {
  }

  function Serialized(msgs: seq<Message>): seq<byte> {
    if msgs == [] then [] else msgs[0].Bytes() + Serialized(msgs[1..])
  }

  predicate AllValid(msgs: seq<Message>) {
    forall m <- msgs :: m.Valid()
  }

  lemma {:induction false} SerializedLength(msgs: seq<Message>)
    requires AllValid(msgs)
    ensures |Serialized(msgs)| == MESSAGE_SIZE * |msgs|
  {
    if msgs != [] {
      assert msgs[0] in msgs;
      SerializedLength(msgs[1..]);
    }
  }

  lemma {:induction false} SerializedAppend(a: seq<Message>, b: seq<Message>)
    ensures Serialized(a + b) == Serialized(a) + Serialized(b)
  {
    if a == [] {
      assert a + b == b;
    } else {
      hide Serialized, Message.Bytes;
      FirstSerialized(a);
      FirstSerialized(a + b);
      SerializedAppend(a[1..], b);
      assert (a + b)[0] == a[0];
      assert (a + b)[1..] == a[1..] + b;
      Associate(a[0].Bytes(), Serialized(a[1..]), Serialized(b));
    }
  }

  lemma Associate(a: seq<byte>, b: seq<byte>, c: seq<byte>)
    ensures a + (b + c) == a + b + c
  {
  }

  lemma FirstSerialized(msgs: seq<Message>)
    requires msgs != []
    ensures Serialized(msgs) == msgs[0].Bytes() + Serialized(msgs[1..])
  {
    hide Message.Bytes;
  }

  /** The datagrams for some messages: full ones, and a last one with what is left, if anything is. */
  function Datagrams(msgs: seq<Message>, size: nat): seq<seq<byte>>
    requires size > 0
    decreases |msgs|
  {
    if msgs == [] then []
    else if |msgs| <= size then [Serialized(msgs)]
    else [Serialized(msgs[..size])] + Datagrams(msgs[size..], size)
  }

  /** The unixgram socket: what it has taken so far. It may refuse a datagram at any time. */
  class Socket {
    var sent: seq<seq<byte>>
    ghost var tried: seq<seq<byte>> // all datagrams written, taken or refused

    constructor ()
      ensures sent == [] && tried == []
    {
      sent, tried := [], [];
    }

    method Write(buf: seq<byte>) returns (ok: bool)
      modifies this
      ensures sent == old(sent) + if ok then [buf] else []
      ensures tried == old(tried) + [buf]
    {
      ok := *;
      if ok {
        sent := sent + [buf];
      }
      tried := tried + [buf];
    }
  }

  class Client {
    const sock: Socket
    const batchSize: nat

    constructor (sock: Socket, batchSize: nat)
      ensures this.sock == sock && this.batchSize == batchSize
    {
      this.sock := sock;
      this.batchSize := batchSize;
    }

    /** Sends nothing for an empty buffer. */
    method Send(buf: seq<byte>) returns (ok: bool)
      modifies sock
      ensures buf == [] ==> ok
      ensures sock.sent == old(sock.sent) + if ok && buf != [] then [buf] else []
      ensures sock.tried == old(sock.tried) + if buf != [] then [buf] else []
    {
      if |buf| == 0 {
        return true;
      }
      ok := sock.Write(buf);
    }

    /** Everything is sent, or everything in front of the first datagram that is refused; nothing is tried behind
        that one. */
    method SendBatch(msgs: seq<Message>) returns (ok: bool)
      requires AllValid(msgs)
      modifies sock
      ensures var all := Datagrams(msgs, Greatest(1, Least(batchSize, |msgs|)));
              var k := |sock.sent| - |old(sock.sent)|;
              && 0 <= k <= |all| && sock.sent == old(sock.sent) + all[..k]
              && ok == (k == |all|)
              && sock.tried == old(sock.tried) + all[..if ok then k else k + 1]
    {
      hide Datagrams, Serialized, AllValid;
      ghost var size, before, tried := Greatest(1, Least(batchSize, |msgs|)), sock.sent, sock.tried;
      ghost var all := Datagrams(msgs, size);
      var batch := if batchSize < |msgs| then batchSize else |msgs|;
      var bufSize := MESSAGE_SIZE * batch;
      var msgBuf: seq<byte> := [];
      ghost var k, from := 0, 0; // datagrams sent, messages in them
      NoMessages(msgs);
      for i := 0 to |msgs|
        invariant 0 <= from <= i && i - from < size && k <= |all|
        invariant msgBuf == Serialized(msgs[from..i])
        invariant sock.sent == before + all[..k] && sock.tried == tried + all[..k] && all[k..] == Datagrams(msgs[from..], size)
      {
        msgBuf := msgBuf + msgs[i].Bytes();
        AddMessage(msgs, from, i);
        if |msgBuf| + MESSAGE_SIZE > bufSize {
          FullDatagram(msgs, from, size, all, k);
          ok := Send(msgBuf);
          assert all[..k + 1] == all[..k] + [all[k]];
          if !ok {
            return false;
          }
          k, from := k + 1, i + 1;
          msgBuf := [];
          NoMessages(msgs);
          assert msgs[from..i + 1] == [];
        }
      }
      LastDatagram(msgs, from, size, all, k);
      ok := Send(msgBuf);
      assert k < |all| ==> all[..k + 1] == all[..k] + [all[k]];
    }
  }

  lemma NoMessages(msgs: seq<Message>)
    ensures Serialized([]) == [] && msgs[0..] == msgs && msgs[..0] == []
  {
  }

  lemma AddMessage(msgs: seq<Message>, from: nat, i: nat)
    requires AllValid(msgs) && from <= i < |msgs|
    ensures Serialized(msgs[from..i + 1]) == Serialized(msgs[from..i]) + msgs[i].Bytes()
    ensures |Serialized(msgs[from..i + 1])| == MESSAGE_SIZE * (i + 1 - from)
  {
    assert msgs[from..i + 1] == msgs[from..i] + [msgs[i]];
    SerializedAppend(msgs[from..i], [msgs[i]]);
    SerializedLength(msgs[from..i + 1]);
    assert [msgs[i]][1..] == [] && msgs[i].Bytes() + [] == msgs[i].Bytes();
  }

  /** A full buffer is the next datagram. */
  lemma FullDatagram(msgs: seq<Message>, from: nat, size: nat, all: seq<seq<byte>>, k: nat)
    requires AllValid(msgs) && 0 < size && from + size <= |msgs| && k <= |all| && all[k..] == Datagrams(msgs[from..], size)
    ensures k < |all| && all[k] == Serialized(msgs[from..from + size]) != []
    ensures all[k + 1..] == Datagrams(msgs[from + size..], size)
  {
    var rest := msgs[from..];
    assert rest[..size] == msgs[from..from + size] && rest[size..] == msgs[from + size..];
    SerializedLength(msgs[from..from + size]);
    if |rest| == size {
      assert rest[..size] == rest;
    }
    assert Datagrams(rest, size) == [Serialized(rest[..size])] + Datagrams(rest[size..], size);
    hide Datagrams, Serialized;
    assert all[k] == all[k..][0] && all[k + 1..] == all[k..][1..];
  }

  /** What is left in the buffer is the last datagram, if anything is. */
  lemma LastDatagram(msgs: seq<Message>, from: nat, size: nat, all: seq<seq<byte>>, k: nat)
    requires AllValid(msgs) && from <= |msgs| < from + size && k <= |all| && all[k..] == Datagrams(msgs[from..], size)
    ensures msgs[from..|msgs|] == msgs[from..]
    ensures if from == |msgs| then |all| == k && Serialized(msgs[from..]) == []
            else |all| == k + 1 && all[k] == Serialized(msgs[from..]) != []
  {
    SerializedLength(msgs[from..]);
    if from < |msgs| {
      assert all[k..] == [Serialized(msgs[from..])];
      assert all[k] == all[k..][0];
    }
  }

  /** How many of `n` messages the first `k` datagrams hold. */
  function Held(n: nat, size: nat, k: nat): (held: nat)
    requires size > 0
    ensures held <= n
    decreases k
  {
    if k == 0 then 0 else if n <= size then n else size + Held(n - size, size, k - 1)
  }

  lemma Multiple(k: nat, size: nat)
    requires k > 0
    ensures k * size == size + (k - 1) * size && (k - 1) * size >= 0
  {
  }

  lemma {:induction false} HeldIs(n: nat, size: nat, k: nat)
    requires size > 0
    ensures Held(n, size, k) == Least(k * size, n)
    decreases k
  {
    if k > 0 {
      Multiple(k, size);
      if n > size {
        HeldIs(n - size, size, k - 1);
      }
    }
  }

  lemma {:induction false} DatagramsHold(msgs: seq<Message>, size: nat, k: nat)
    requires size > 0 && k <= |Datagrams(msgs, size)|
    ensures Flat(Datagrams(msgs, size)[..k]) == Serialized(msgs[..Held(|msgs|, size, k)])
    ensures k == |Datagrams(msgs, size)| ==> Held(|msgs|, size, k) == |msgs|
    decreases k
  {
    hide Serialized;
    var all := Datagrams(msgs, size);
    if k == 0 {
      NoMessages(msgs);
    } else if |msgs| <= size {
      assert k == 1 && all[..1] == all && msgs[..|msgs|] == msgs;
      assert all[1..] == [] && all[0] + [] == all[0];
    } else {
      DatagramsHold(msgs[size..], size, k - 1);
      JoinFirst(all, k, msgs, size, Held(|msgs| - size, size, k - 1));
    }
  }

  /** The first `k` datagrams hold the first messages in order, each message whole; all datagrams hold all
      of them. So what was sent before an error is the beginning of what was to be sent. */
  lemma DatagramsConserve(msgs: seq<Message>, size: nat, k: nat)
    requires size > 0 && k <= |Datagrams(msgs, size)|
    ensures Flat(Datagrams(msgs, size)[..k]) == Serialized(msgs[..Least(k * size, |msgs|)])
    ensures Flat(Datagrams(msgs, size)) == Serialized(msgs)
  {
    hide Serialized, Datagrams, Flat, Held;
    var all := Datagrams(msgs, size);
    DatagramsHold(msgs, size, k);
    HeldIs(|msgs|, size, k);
    DatagramsHold(msgs, size, |all|);
    assert all[..|all|] == all && msgs[..|msgs|] == msgs;
  }

  lemma JoinFirst(all: seq<seq<byte>>, k: nat, msgs: seq<Message>, size: nat, n: nat)
    requires 0 < k <= |all| && size <= |msgs| && n <= |msgs| - size && all[0] == Serialized(msgs[..size])
    ensures Flat(all[1..][..k - 1]) == Serialized(msgs[size..][..n]) ==> Flat(all[..k]) == Serialized(msgs[..size + n])
  {
    Whole(msgs, size, n);
    assert all[..k][1..] == all[1..][..k - 1];
  }

  lemma Whole(msgs: seq<Message>, size: nat, n: nat)
    requires size + n <= |msgs|
    ensures Serialized(msgs[..size + n]) == Serialized(msgs[..size]) + Serialized(msgs[size..][..n])
  {
    assert msgs[..size + n] == msgs[..size] + msgs[size..][..n];
    SerializedAppend(msgs[..size], msgs[size..][..n]);
  }

  /** Every datagram but the last is full, and the last is neither empty nor more than full. */
  lemma {:induction false} DatagramSizes(msgs: seq<Message>, size: nat, k: nat)
    requires size > 0 && AllValid(msgs) && k < |Datagrams(msgs, size)|
    ensures var n := |Datagrams(msgs, size)[k]|;
            && 0 < n <= MESSAGE_SIZE * size && n % MESSAGE_SIZE == 0
            && (k < |Datagrams(msgs, size)| - 1 ==> n == MESSAGE_SIZE * size)
    decreases k
  {
    if |msgs| <= size {
      SerializedLength(msgs);
    } else if k == 0 {
      SerializedLength(msgs[..size]);
    } else {
      DatagramSizes(msgs[size..], size, k - 1);
    }
  }

  /** The receiver can take every message out of what it gets. */
  lemma {:induction false} MessageAt(msgs: seq<Message>, i: nat)
    requires AllValid(msgs) && i < |msgs|
    ensures |Serialized(msgs)| == MESSAGE_SIZE * |msgs|
    ensures Serialized(msgs)[MESSAGE_SIZE * i..MESSAGE_SIZE * (i + 1)] == msgs[i].Bytes()
  {
    SerializedLength(msgs);
    assert msgs[0] in msgs;
    if i > 0 {
      MessageAt(msgs[1..], i - 1);
      assert Serialized(msgs)[MESSAGE_SIZE..] == Serialized(msgs[1..]);
    }
  }
}

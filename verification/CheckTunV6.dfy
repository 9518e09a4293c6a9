/** The check-tunnel destination option of IPv6 packets: building it, walking the extension headers to
    find it, and cutting it out (pkg/checktun/check_tun.go and pkg/checktun/exp_header.go; sections 4,
    4.2 and 4.6 of RFC 8200). */
module CheckTunV6 {
  import opened Common
  import opened Checksum
  import opened Packets

  const HEADER := 40
  const FOR_V4 := 5 // length of an option value that carries an IPv4 address
  const FOR_V6 := 17

  const HOP_BY_HOP: byte := 0
  const ROUTING: byte := 43
  const FRAGMENT: byte := 44
  const DESTINATION: byte := 60

  /** How handling a packet ends. The code indexes out of range on some truncated options, and spins
      forever when the walk stops advancing. */
  datatype Outcome = NoMessage | Extracted(message: Message) | Panics | Diverges

  /** What the walk finds: where the extension header starts behind the fixed header, and where the byte
      is that announced it. */
  datatype Finding = Nothing | Marker(at: nat, pointer: nat) | Stuck

  /** The length of an extension header, computed in byte arithmetic: 255 wraps around to zero. */
  function Octets(lengthByte: byte): nat {
    (lengthByte as int + 1) % 256 * 8
  }

  function PayloadLen(packet: seq<byte>): nat
    requires |packet| >= HEADER
  {
    Word(packet, 4)
  }

  /** The walk over the extension headers, `n` bytes of them, from offset `i`; `pointer` is the byte
      that holds the type of the header there. */
  function Walk(packet: seq<byte>, n: nat, i: nat, pointer: nat): (found: Finding)
    requires HEADER + n <= |packet| && PointsBack(pointer, i)
    ensures found.Marker? ==> i <= found.at && found.at + 8 <= n && PointsBack(found.pointer, found.at)
    ensures found.Marker? ==> packet[HEADER + found.at + 3] in {FOR_V4, FOR_V6}
    decreases n - i, if pointer == HEADER + i then 0 else 1
  {
    if i + 8 > n then Nothing
    else
      var start := HEADER + i;
      var typ := packet[pointer];
      var optionLen := packet[start + 3] as int;
      if typ == DESTINATION && packet[start + 2] == EXPERIMENT && i + optionLen <= n then
        if optionLen == FOR_V4 || optionLen == FOR_V6 then Marker(i, pointer)
        else Advance(packet, n, i, pointer, pointer, Octets(packet[start + 1]))
      else if typ == DESTINATION || typ == HOP_BY_HOP || typ == ROUTING then
        Advance(packet, n, i, pointer, start, Octets(packet[start + 1]))
      else if typ == FRAGMENT then Advance(packet, n, i, pointer, start, 16)
      else Nothing
  }

  /** The type of a header is held by the fixed header or by an extension header in front. */
  predicate PointsBack(pointer: nat, i: nat) {
    pointer == 6 || HEADER <= pointer <= HEADER + i
  }

  /** One step of the walk; a step of zero that also leaves the pointer in place repeats forever. */
  function Advance(packet: seq<byte>, n: nat, i: nat, pointer: nat, pointer': nat, step: nat): (found: Finding)
    requires HEADER + n <= |packet| && i + 8 <= n && pointer' in {pointer, HEADER + i} && PointsBack(pointer, i)
    decreases n - i, if pointer == HEADER + i then 0 else 1, 0
  {
    if step == 0 && pointer' == pointer then Stuck else Walk(packet, n, i + step, pointer')
  }

  /** The packet without the `cut` bytes at `start`: the byte that announced the extension header there
      takes over its next header, the payload length shrinks, and the rest moves up. */
  function Stripped(packet: seq<byte>, start: nat, pointer: nat, cut: nat): (r: seq<byte>)
    requires HEADER <= start < |packet| && start + cut <= |packet| && pointer < |packet|
    ensures |r| == |packet| - cut
  {
    var patched := Patched(packet, start, pointer, cut);
    patched[..start] + patched[start + cut..]
  }

  function Patched(packet: seq<byte>, start: nat, pointer: nat, cut: nat): (r: seq<byte>)
    requires HEADER <= start < |packet| && pointer < |packet|
    ensures |r| == |packet|
  {
    Put(packet[pointer := packet[start]], 4, (PayloadLen(packet) - cut) % 0x10000)
  }

  /** The message in the option at `start`. The code indexes the payload, which may end before the
      option's value does, and cuts as many bytes as the extension header claims to have. */
  function Taken(packet: seq<byte>, start: nat, pointer: nat): (outcome: Outcome)
    requires HEADER <= start && start + 8 <= |packet| && pointer < |packet|
    requires HEADER + PayloadLen(packet) <= |packet|
    ensures outcome.Extracted? || outcome.Panics?
  {
    var last := start + 3 + packet[start + 3] as int;
    var cut := Octets(packet[start + 1]);
    if last >= HEADER + PayloadLen(packet) || last < start + 4 || start + cut > |packet| then Panics
    else Extracted(Message(packet[start + 4..last], packet[last], Stripped(packet, start, pointer, cut)))
  }

  function Handled(packet: seq<byte>): Outcome {
    if |packet| < HEADER then NoMessage
    else if HEADER + PayloadLen(packet) > |packet| then Panics
    else Answer(packet, Walk(packet, PayloadLen(packet), 0, 6))
  }

  /** What is made of what the walk finds. */
  function Answer(packet: seq<byte>, found: Finding): (outcome: Outcome)
    requires |packet| >= HEADER && HEADER + PayloadLen(packet) <= |packet|
    requires found.Marker? ==> found.at + 8 <= PayloadLen(packet) && PointsBack(found.pointer, found.at)
  {
    match found
    case Nothing => NoMessage
    case Stuck => Diverges
    case Marker(at, pointer) => Taken(packet, HEADER + at, pointer)
  }

  lemma WalkHere(packet: seq<byte>, n: nat, i: nat, pointer: nat)
    requires HEADER + n <= |packet| && i + 8 <= n && PointsBack(pointer, i)
    ensures var start, typ := HEADER + i, packet[pointer];
            var optionLen, step := packet[start + 3] as int, Octets(packet[start + 1]);
            var found := Walk(packet, n, i, pointer);
            if typ == DESTINATION && packet[start + 2] == EXPERIMENT && i + optionLen <= n then
              found == if optionLen in {FOR_V4, FOR_V6} then Marker(i, pointer) else Advance(packet, n, i, pointer, pointer, step)
            else if typ in {DESTINATION, HOP_BY_HOP, ROUTING} then found == Advance(packet, n, i, pointer, start, step)
            else found == if typ == FRAGMENT then Advance(packet, n, i, pointer, start, 16) else Nothing
  {
    hide Advance, Octets;
  }

  /** The code indexes out of range exactly when the length field says more than there is, or the option found or
      the header it stands in reaches behind the end. */
  lemma OutOfRangeExactlyWhen(packet: seq<byte>)
    ensures Handled(packet) == Panics <==>
            && |packet| >= 40
            && var n := packet[4] as int * 256 + packet[5] as int;
               || 40 + n > |packet|
               || (var found := Walk(packet, n, 0, 6);
                   && found.Marker?
                   && var at := found.at;
                      || at + 3 + packet[40 + at + 3] as int >= n
                      || 40 + at + (packet[40 + at + 1] as int + 1) % 256 * 8 > |packet|)
  {
    hide Walk, Stripped;
  }

  lemma WalkEnds(packet: seq<byte>, n: nat, i: nat, pointer: nat)
    requires HEADER + n <= |packet| && i + 8 > n && PointsBack(pointer, i)
    ensures Walk(packet, n, i, pointer) == Nothing
  {
  }

  /** Walks the extension headers and cuts the experimental one out in place. The message's packet is the
      beginning of the array. Where the code would loop forever the model reports `Diverges`. */
  method Ipv6Handler(payload: array<byte>) returns (outcome: Outcome)
    modifies payload
    ensures outcome == Handled(old(payload[..]))
    ensures outcome.NoMessage? || outcome.Diverges? ==> payload[..] == old(payload[..])
    ensures outcome.Extracted? ==> outcome.message.packet <= payload[..]
  {
    hide Taken, Walk, Stripped;
    if payload.Length < HEADER {
      return NoMessage;
    }
    var payloadLen := payload[4] as int * 256 + payload[5] as int;
    if HEADER + payloadLen > payload.Length {
      return Panics;
    }
    ghost var packet := payload[..];
    assert Handled(packet) == Answer(packet, Walk(packet, payloadLen, 0, 6));
    hide Handled, PayloadLen;
    var headerType: nat := 6; // index of the byte that holds the current header's type
    var octetNum: byte := 0;
    var i: nat := 0;
    while i <= payloadLen - 8
      invariant payload[..] == packet
      invariant PointsBack(headerType, i)
      invariant Walk(packet, payloadLen, i, headerType) == Walk(packet, payloadLen, 0, 6)
      decreases payloadLen - i, if headerType == HEADER + i then 0 else 1
    {
      WalkHere(packet, payloadLen, i, headerType);
      var start := HEADER + i;
      var next := start;
      var typ := payload[headerType];
      if typ == DESTINATION {
        octetNum := payload[start + 1];
        var optionLen := payload[start + 3] as int;
        if payload[start + 2] == EXPERIMENT && optionLen + i <= payloadLen {
          if optionLen != FOR_V4 && optionLen != FOR_V6 {
            next := headerType;
          } else {
            outcome := Extract(payload, payloadLen, start, headerType);
            return;
          }
        }
      } else if typ == FRAGMENT {
        octetNum := 1;
      } else if typ == HOP_BY_HOP || typ == ROUTING {
        octetNum := payload[start + 1];
      } else {
        return NoMessage;
      }
      var step := (octetNum as int + 1) % 256 * 8;
      if step == 0 && next == headerType {
        return Diverges;
      }
      headerType := next;
      i := i + step;
    }
    WalkEnds(packet, payloadLen, i, headerType);
    return NoMessage;
  }

  /** Reads the option at `start` and cuts its extension header out. */
  method Extract(payload: array<byte>, payloadLen: nat, start: nat, headerType: nat) returns (outcome: Outcome)
    requires HEADER <= start && start + 8 <= payload.Length && headerType < payload.Length
    requires HEADER + payloadLen <= payload.Length && payloadLen == PayloadLen(payload[..])
    requires payload[start + 3] as int in {FOR_V4, FOR_V6}
    modifies payload
    ensures outcome == Taken(old(payload[..]), start, headerType)
    ensures outcome.Extracted? ==> outcome.message.packet <= payload[..]
  {
    hide Stripped;
    ghost var packet := payload[..];
    var last := start + 3 + payload[start + 3] as int;
    if last >= HEADER + payloadLen {
      return Panics;
    }
    var ip, lvsMethod := payload[start + 4..last], payload[last];
    var delta := (payload[start + 1] as int + 1) % 256 * 8;
    if start + delta > payload.Length {
      return Panics;
    }
    Cut(payload, payloadLen, start, headerType, delta);
    var totalLen := payload.Length - delta;
    return Extracted(Message(ip, lvsMethod, payload[..totalLen]));
  }

  /** Removes the extension header of `delta` bytes at `start`. */
  method Cut(payload: array<byte>, payloadLen: nat, start: nat, headerType: nat, delta: nat)
    requires HEADER <= start < payload.Length && start + delta <= payload.Length && headerType < payload.Length
    requires payloadLen == PayloadLen(payload[..])
    modifies payload
    ensures payload[..payload.Length - delta] == Stripped(old(payload[..]), start, headerType, delta)
  {
    hide Patched, Word;
    Patch(payload, payloadLen, start, headerType, delta);
    ghost var patched := payload[..];
    var n := payload.Length - (start + delta);
    CopyDown(payload, start, start + delta, n);
    UpTo(payload[..], patched[..start], patched[start + delta..start + delta + n], patched[start + n..]);
    assert patched[start + delta..start + delta + n] == patched[start + delta..];
  }

  /** Rewrites the next header and the payload length. */
  method Patch(payload: array<byte>, payloadLen: nat, start: nat, headerType: nat, delta: nat)
    requires HEADER <= start < payload.Length && headerType < payload.Length && payloadLen == PayloadLen(payload[..])
    modifies payload
    ensures payload[..] == Patched(old(payload[..]), start, headerType, delta)
  {
    payload[headerType] := payload[start];
    var rest := (payloadLen - delta) % 0x10000;
    payload[4], payload[5] := rest / 256, rest % 256;
  }

  lemma UpTo(all: seq<byte>, a: seq<byte>, b: seq<byte>, c: seq<byte>)
    requires all == a + b + c
    ensures all[..|a| + |b|] == a + b
  {
  }

  /** The length byte of the encoder, computed in byte arithmetic like the capacity it is taken from. */
  function Capacity(ipLen: nat): (c: nat)
    ensures c % 8 == 0 && c < 256
    ensures ipLen <= 243 ==> c == ipLen + 5 + Pad(ipLen)
  {
    ((ipLen + 5) % 256 + Pad(ipLen)) % 256
  }

  function Pad(ipLen: nat): (pad: nat)
    ensures pad < 8 && (ipLen + 5 + pad) % 8 == 0
  {
    (8 - (ipLen + 5) % 256 % 8) % 8
  }

  /** The destination-options header that carries an address and a method, padded to eight bytes. */
  function Constructed(ip: seq<byte>, lvsMethod: byte): (option: seq<byte>)
    ensures |option| == |ip| + 5 + Pad(|ip|)
  {
    [0, (Capacity(|ip|) / 8 - 1) % 256, EXPERIMENT, (|ip| + 1) % 256] + ip + [lvsMethod] + Padding(Pad(|ip|))
  }

  /** The header as it stands in a packet: sixteen bytes for an IPv4 address, and 24 for an IPv6 address. */
  lemma ConstructedIs(ip: seq<byte>, lvsMethod: byte)
    ensures |ip| == 4 ==> Constructed(ip, lvsMethod) == [0, 1, 30, 5] + ip + [lvsMethod] + [1, 5, 0, 0, 0, 0, 0]
    ensures |ip| == 16 ==> Constructed(ip, lvsMethod) == [0, 2, 30, 17] + ip + [lvsMethod] + [1, 1, 0]
  {
    hide Padding, Pad, Capacity;
    PaddingIs();
    SizesAre();
  }

  lemma PaddingIs()
    ensures Padding(7) == [1, 5, 0, 0, 0, 0, 0] && Padding(3) == [1, 1, 0]
  {
  }

  lemma SizesAre()
    ensures Pad(4) == 7 && Pad(16) == 3 && Capacity(4) == 16 && Capacity(16) == 24
  {
  }

  /** What stands where, for every length of address: the length bytes lose what a byte cannot hold. */
  lemma ConstructedFields(ip: seq<byte>, lvsMethod: byte)
    ensures var option, n := Constructed(ip, lvsMethod), |ip|;
            && |option| % 8 == 0 && n + 5 <= |option| < n + 13
            && option[0] == 0 && (option[1] as int + 1) * 8 % 256 == |option| % 256
            && option[2] == 30 && option[3] as int == (n + 1) % 256 && option[4..4 + n] == ip && option[4 + n] == lvsMethod
  {
    var n := |ip|;
    LengthByte(n);
    hide Capacity, Pad, Padding;
    var front := [0, (Capacity(n) / 8 - 1) % 256, EXPERIMENT, (n + 1) % 256];
    assert Constructed(ip, lvsMethod)[0 := 0] + [] == Constructed(ip, lvsMethod);
    ConstructedParts(ip, lvsMethod, 0, []);
    ThreeParts(Constructed(ip, lvsMethod), 0, front, ip, [lvsMethod] + (Padding(Pad(n)) + []));
  }

  lemma LengthByte(ipLen: nat)
    ensures ((Capacity(ipLen) / 8 - 1) % 256 + 1) * 8 % 256 == (ipLen + 5 + Pad(ipLen)) % 256
  {
    InBytes(ipLen + 5, Pad(ipLen));
    Eights(Capacity(ipLen) / 8);
    hide Pad;
    assert Capacity(ipLen) == Capacity(ipLen) / 8 * 8;
  }

  lemma InBytes(a: nat, b: nat)
    ensures (a % 256 + b) % 256 == (a + b) % 256
  {
  }

  lemma Eights(q: nat)
    requires q < 32
    ensures ((q - 1) % 256 + 1) * 8 % 256 == q * 8
  {
    if q > 0 {
      assert (q - 1) % 256 == q - 1;
    }
  }

  /** Pad1 or PadN, section 4.2 of RFC 8200. */
  function Padding(pad: nat): (p: seq<byte>)
    requires pad < 8
    ensures |p| == pad
  {
    if pad == 0 then [] else if pad == 1 then [0] else [1, pad - 2] + seq(pad - 2, _ => 0)
  }

  method ConstructDstHeaderWithIP(ipForEncode: seq<byte>, lvsMethod: byte) returns (w: seq<byte>)
    ensures w == Constructed(ipForEncode, lvsMethod) && |w| % 8 == 0
  {
    var payloadLen := (2 + 2 + |ipForEncode| + 1) % 256;
    var pad := (8 - payloadLen % 8) % 8;
    var cap := (payloadLen + pad) % 256;
    assert pad == Pad(|ipForEncode|) && cap == Capacity(|ipForEncode|);
    hide Pad, Capacity, Padding;
    w := [0];
    w := w + [(cap / 8 - 1) % 256];
    w := w + [EXPERIMENT];
    w := w + [(|ipForEncode| + 1) % 256];
    assert w == [0, (cap / 8 - 1) % 256, EXPERIMENT, (|ipForEncode| + 1) % 256];
    w := w + ipForEncode;
    w := w + [lvsMethod];
    var padding := WritePadding(pad);
    w := w + padding;
  }

  method WritePadding(pad: nat) returns (padding: seq<byte>)
    requires pad < 8
    ensures padding == Padding(pad)
  {
    if pad == 0 {
      return [];
    } else if pad == 1 {
      return [0];
    }
    var padN: array<byte> := new byte[pad](_ => 0);
    padN[0] := 1;
    padN[1] := pad - 2;
    return padN[..];
  }

  /** An extension header: its type, its length byte and everything behind these two first bytes. */
  datatype Extension = Extension(typ: byte, len: byte, rest: seq<byte>) {
    function Size(): nat {
      2 + |rest|
    }

    /** As RFC 8200 lays it out, and no destination-options header that starts with the experimental
        option itself. */
    predicate Valid() {
      && typ in {0, 43, 60} && Size() == (len as int + 1) * 8 // hop-by-hop, routing or destination options
      && !(typ == 60 && rest[0] == 30)
    }
  }

  /** The type of the first header of a chain that is followed by a header of type `next`. */
  function FirstType(chain: seq<Extension>, next: byte): byte {
    if chain == [] then next else chain[0].typ
  }

  function Encode(chain: seq<Extension>, next: byte): seq<byte> {
    if chain == [] then []
    else [FirstType(chain[1..], next), chain[0].len] + chain[0].rest + Encode(chain[1..], next)
  }

  function Length(chain: seq<Extension>): nat {
    if chain == [] then 0 else chain[0].Size() + Length(chain[1..])
  }

  /** Where the last header of a chain starts. */
  function LastOffset(chain: seq<Extension>): (o: nat)
    requires chain != []
    ensures o + chain[|chain| - 1].Size() == Length(chain)
  {
    if |chain| == 1 then 0 else chain[0].Size() + LastOffset(chain[1..])
  }

  /** Where the byte is that announces what follows a chain that starts at `i`. */
  function Announcer(chain: seq<Extension>, i: nat, pointer: nat): nat {
    if chain == [] then pointer else HEADER + i + LastOffset(chain)
  }

  lemma EncodeLength(chain: seq<Extension>, next: byte)
    ensures |Encode(chain, next)| == Length(chain)
  {
  }

  /** Only the last header's first byte depends on what follows the chain. */
  lemma {:induction false} Retarget(chain: seq<Extension>, a: byte, b: byte)
    requires chain != []
    ensures |Encode(chain, a)| == Length(chain)
    ensures Encode(chain, a)[LastOffset(chain) := b] == Encode(chain, b)
  {
    EncodeLength(chain, a);
    EncodeLength(chain[1..], a);
    if |chain| > 1 {
      Retarget(chain[1..], a, b);
    }
  }

  /** The bytes from `HEADER + i` on are this chain, followed by a header of type `next`, and `pointer`
      announces its first header. */
  predicate ChainAt(packet: seq<byte>, i: nat, pointer: nat, chain: seq<Extension>, next: byte, tail: seq<byte>) {
    && HEADER + i <= |packet| && PointsBack(pointer, i) && packet[HEADER + i..] == Encode(chain, next) + tail
    && pointer < |packet| && packet[pointer] == FirstType(chain, next)
  }

  /** One valid header is stepped over, unless its length byte is 255. */
  lemma WalkStep(packet: seq<byte>, n: nat, i: nat, pointer: nat, chain: seq<Extension>, next: byte, tail: seq<byte>)
    requires chain != [] && chain[0].Valid() && ChainAt(packet, i, pointer, chain, next, tail)
    requires HEADER + n <= |packet| && i + chain[0].Size() <= n && chain[0].len != 255
    ensures var j := i + chain[0].Size();
            ChainAt(packet, j, HEADER + i, chain[1..], next, tail) && Walk(packet, n, i, pointer) == Walk(packet, n, j, HEADER + i)
  {
    hide Walk, Encode;
    ChainStep(packet, i, pointer, chain, next, tail);
    StepOver(packet, n, i, pointer, chain[0]);
  }

  lemma ChainStep(packet: seq<byte>, i: nat, pointer: nat, chain: seq<Extension>, next: byte, tail: seq<byte>)
    requires chain != [] && |chain[0].rest| >= 1 && ChainAt(packet, i, pointer, chain, next, tail)
    ensures ChainAt(packet, i + chain[0].Size(), HEADER + i, chain[1..], next, tail)
    ensures packet[HEADER + i + 1] == chain[0].len && packet[HEADER + i + 2] == chain[0].rest[0]
    ensures packet[pointer] == chain[0].typ
  {
    var h, after := chain[0], Encode(chain[1..], next) + tail;
    var front := [FirstType(chain[1..], next), h.len] + h.rest;
    assert packet[HEADER + i..] == front + after;
    hide Encode, FirstType;
    Front(packet, HEADER + i, front, after);
  }

  /** Indexing a packet whose bytes from `start` on are known. */
  lemma Front(packet: seq<byte>, start: nat, front: seq<byte>, after: seq<byte>)
    requires start <= |packet| && packet[start..] == front + after
    ensures start + |front| <= |packet| && packet[start + |front|..] == after
    ensures packet[start..start + |front|] == front
    ensures forall k :: 0 <= k < |front| ==> packet[start + k] == front[k]
  {
    assert packet[start + |front|..] == packet[start..][|front|..];
    assert packet[start..start + |front|] == packet[start..][..|front|];
    assert forall k :: 0 <= k < |front| ==> packet[start + k] == packet[start..][k];
  }

  lemma StepOver(packet: seq<byte>, n: nat, i: nat, pointer: nat, h: Extension)
    requires h.Valid() && HEADER + n <= |packet| && i + h.Size() <= n && PointsBack(pointer, i)
    requires packet[pointer] == h.typ && packet[HEADER + i + 1] == h.len && packet[HEADER + i + 2] == h.rest[0]
    ensures Walk(packet, n, i, pointer) == Advance(packet, n, i, pointer, HEADER + i, Octets(h.len))
    ensures h.len != 255 ==> Walk(packet, n, i, pointer) == Walk(packet, n, i + h.Size(), HEADER + i)
  {
  }

  lemma {:induction false} WalkSkips(packet: seq<byte>, n: nat, i: nat, pointer: nat, chain: seq<Extension>, next: byte, tail: seq<byte>)
    requires forall h <- chain :: h.Valid() && h.len != 255
    requires ChainAt(packet, i, pointer, chain, next, tail) && HEADER + n <= |packet| && i + Length(chain) <= n
    ensures var j := i + Length(chain);
            && ChainAt(packet, j, Announcer(chain, i, pointer), [], next, tail)
            && Walk(packet, n, i, pointer) == Walk(packet, n, j, Announcer(chain, i, pointer))
    decreases chain
  {
    hide Walk, ChainAt, Encode;
    if chain == [] {
    } else {
      assert chain[0] in chain;
      WalkStep(packet, n, i, pointer, chain, next, tail);
      WalkSkips(packet, n, i + chain[0].Size(), HEADER + i, chain[1..], next, tail);
    }
  }

  lemma ConstructedLength(ipLen: nat)
    requires ipLen in {4, 16}
    ensures Capacity(ipLen) >= 8 && Octets((Capacity(ipLen) / 8 - 1) % 256) == ipLen + 5 + Pad(ipLen)
  {
  }

  lemma ConstructedParts(ip: seq<byte>, lvsMethod: byte, next: byte, rest: seq<byte>)
    ensures Constructed(ip, lvsMethod)[0 := next] + rest
         == [next, (Capacity(|ip|) / 8 - 1) % 256, EXPERIMENT, (|ip| + 1) % 256]
          + (ip + ([lvsMethod] + (Padding(Pad(|ip|)) + rest)))
  {
    hide Capacity, Pad, Padding;
  }

  /** What is read of a constructed header at `start`. */
  lemma ConstructedBytes(packet: seq<byte>, start: nat, ip: seq<byte>, lvsMethod: byte, next: byte, rest: seq<byte>)
    requires |ip| in {4, 16} && start <= |packet| && packet[start..] == Constructed(ip, lvsMethod)[0 := next] + rest
    ensures var size := |Constructed(ip, lvsMethod)|;
            && size == |ip| + 5 + Pad(|ip|) && start + size <= |packet|
            && packet[start] == next && Octets(packet[start + 1]) == size && packet[start + 2] == EXPERIMENT
            && packet[start + 3] as int == |ip| + 1
            && packet[start + 4..start + 4 + |ip|] == ip && packet[start + 4 + |ip|] == lvsMethod
  {
    ConstructedLength(|ip|);
    var front := [next, (Capacity(|ip|) / 8 - 1) % 256, EXPERIMENT, (|ip| + 1) % 256];
    var back := [lvsMethod] + (Padding(Pad(|ip|)) + rest);
    hide Octets, Capacity, Pad, Padding, Constructed;
    ConstructedParts(ip, lvsMethod, next, rest);
    ThreeParts(packet, start, front, ip, back);
  }

  lemma ThreeParts(packet: seq<byte>, start: nat, front: seq<byte>, middle: seq<byte>, back: seq<byte>)
    requires start <= |packet| && packet[start..] == front + (middle + back) && back != []
    ensures start + |front| + |middle| < |packet| == start + |front| + |middle| + |back|
    ensures forall k :: 0 <= k < |front| ==> packet[start + k] == front[k]
    ensures packet[start + |front|..start + |front| + |middle|] == middle
    ensures packet[start + |front| + |middle|] == back[0]
  {
    Front(packet, start, front, middle + back);
    Front(packet, start + |front|, middle, back);
    assert packet[start + |front| + |middle|] == packet[start + |front| + |middle|..][0];
  }

  /** The walk finds a constructed header where it starts, and takes the address and the method out. */
  lemma MarkerHere(packet: seq<byte>, i: nat, pointer: nat, ip: seq<byte>, lvsMethod: byte, next: byte, rest: seq<byte>)
    requires |ip| in {4, 16} && |packet| >= HEADER && HEADER + PayloadLen(packet) <= |packet|
    requires ChainAt(packet, i, pointer, [], DESTINATION, Constructed(ip, lvsMethod)[0 := next] + rest)
    requires i + |Constructed(ip, lvsMethod)| <= PayloadLen(packet)
    ensures Walk(packet, PayloadLen(packet), i, pointer) == Marker(i, pointer)
    ensures Taken(packet, HEADER + i, pointer)
         == Extracted(Message(ip, lvsMethod, Stripped(packet, HEADER + i, pointer, |Constructed(ip, lvsMethod)|)))
    ensures packet[HEADER + i] == next
  {
    hide Stripped, Octets, Constructed, Advance, Walk, Taken, ChainAt, PayloadLen;
    BehindChain(packet, i, pointer, DESTINATION, Constructed(ip, lvsMethod)[0 := next] + rest);
    ConstructedBytes(packet, HEADER + i, ip, lvsMethod, next, rest);
    MarkedHere(packet, PayloadLen(packet), i, pointer, |ip|);
    TakenHere(packet, HEADER + i, pointer, |ip|);
  }

  lemma BehindChain(packet: seq<byte>, i: nat, pointer: nat, next: byte, tail: seq<byte>)
    requires ChainAt(packet, i, pointer, [], next, tail)
    ensures HEADER + i <= |packet| && PointsBack(pointer, i) && pointer < |packet| && packet[pointer] == next
    ensures packet[HEADER + i..] == tail
  {
    assert [] + tail == tail;
  }

  lemma MarkedHere(packet: seq<byte>, n: nat, i: nat, pointer: nat, ipLen: nat)
    requires HEADER + n <= |packet| && i + 8 <= n && PointsBack(pointer, i) && packet[pointer] == DESTINATION
    requires ipLen in {4, 16} && packet[HEADER + i + 2] == EXPERIMENT && packet[HEADER + i + 3] as int == ipLen + 1
    requires i + ipLen + 1 <= n
    ensures Walk(packet, n, i, pointer) == Marker(i, pointer)
  {
    hide Walk, Advance, Octets;
    WalkHere(packet, n, i, pointer);
  }

  lemma TakenHere(packet: seq<byte>, start: nat, pointer: nat, ipLen: nat)
    requires HEADER <= start && start + 8 <= |packet| && pointer < |packet|
    requires HEADER + PayloadLen(packet) <= |packet| && packet[start + 3] as int == ipLen + 1 && ipLen > 0
    requires start + 4 + ipLen < HEADER + PayloadLen(packet) && start + Octets(packet[start + 1]) <= |packet|
    ensures Taken(packet, start, pointer)
         == Extracted(Message(packet[start + 4..start + 4 + ipLen], packet[start + 4 + ipLen],
                              Stripped(packet, start, pointer, Octets(packet[start + 1]))))
  {
    hide Stripped, Octets, PayloadLen;
  }

  /** A packet with this fixed header, extension headers and what follows them. */
  function Packet(header: seq<byte>, chain: seq<Extension>, next: byte, rest: seq<byte>): seq<byte> {
    header + (Encode(chain, next) + rest)
  }

  /** The fixed header adjusted for `more` bytes of extension headers. */
  function Lengthened(header: seq<byte>, chain: seq<Extension>, more: nat): seq<byte>
    requires |header| == HEADER && Word(header, 4) + more <= 0xffff
  {
    Put(header, 4, Word(header, 4) + more)[6 := FirstType(chain, 60)]
  }

  /** A packet that may get an option inserted: its extension headers are valid ones and lie within the
      payload, and the packet is as long as its length field says. */
  predicate MayInsert(header: seq<byte>, chain: seq<Extension>, next: byte, rest: seq<byte>, ip: seq<byte>) {
    && |header| == HEADER && header[6] == FirstType(chain, next) && |ip| in {4, 16}
    && (forall h <- chain :: h.Valid())
    && Length(chain) <= Word(header, 4) <= Length(chain) + |rest| && Word(header, 4) + |ip| + 5 + Pad(|ip|) <= 0xffff
  }

  /** The packet with a constructed header spliced in behind its extension headers. */
  function Inserted(header: seq<byte>, chain: seq<Extension>, next: byte, rest: seq<byte>, ip: seq<byte>, lvsMethod: byte): seq<byte>
    requires MayInsert(header, chain, next, rest, ip)
  {
    var option := Constructed(ip, lvsMethod);
    Packet(Lengthened(header, chain, |option|), chain, 60, option[0 := next] + rest)
  }

  lemma InsertedParts(header: seq<byte>, chain: seq<Extension>, next: byte, rest: seq<byte>, ip: seq<byte>, lvsMethod: byte)
    requires MayInsert(header, chain, next, rest, ip)
    ensures var option, packet := Constructed(ip, lvsMethod), Inserted(header, chain, next, rest, ip, lvsMethod);
            && |packet| >= HEADER && PayloadLen(packet) == Word(header, 4) + |option|
            && HEADER + PayloadLen(packet) <= |packet|
            && Length(chain) + |option| <= PayloadLen(packet)
            && ChainAt(packet, 0, 6, chain, DESTINATION, option[0 := next] + rest)
  {
    var option, packet := Constructed(ip, lvsMethod), Inserted(header, chain, next, rest, ip, lvsMethod);
    EncodeLength(chain, DESTINATION);
    hide Constructed, Encode, Length;
    assert packet[HEADER..] == Encode(chain, DESTINATION) + (option[0 := next] + rest);
    var h := Lengthened(header, chain, |option|);
    assert packet[4] == h[4] && packet[5] == h[5] && packet[6] == h[6];
  }

  /** Cutting the spliced header out again restores every byte. */
  lemma CutRestores(header: seq<byte>, chain: seq<Extension>, next: byte, rest: seq<byte>, ip: seq<byte>, lvsMethod: byte)
    requires MayInsert(header, chain, next, rest, ip)
    ensures var option, packet := Constructed(ip, lvsMethod), Inserted(header, chain, next, rest, ip, lvsMethod);
            var start := HEADER + Length(chain);
            && start + |option| <= |packet|
            && Announcer(chain, 0, 6) < |packet| && packet[start] == next
            && Stripped(packet, start, Announcer(chain, 0, 6), |option|) == Packet(header, chain, next, rest)
  {
    hide MayInsert, Adjusted, Word, Constructed, Encode, Length, LastOffset, ChainAt, Announcer, Stripped, PayloadLen, Packet, Inserted;
    InsertedParts(header, chain, next, rest, ip, lvsMethod);
    Retargeted(chain, DESTINATION, next);
    var h, spliced := InsertedIs(header, chain, next, rest, ip, lvsMethod);
    CutPatched(header, h, chain, next, Encode(chain, DESTINATION), spliced, rest);
  }

  /** The parts of the packet with the constructed header. */
  lemma InsertedIs(header: seq<byte>, chain: seq<Extension>, next: byte, rest: seq<byte>, ip: seq<byte>, lvsMethod: byte)
    returns (h: seq<byte>, spliced: seq<byte>)
    requires MayInsert(header, chain, next, rest, ip)
    ensures |header| == HEADER == |h| && Adjusted(header, h, chain) && header[6] == FirstType(chain, next)
    ensures |spliced| == |Constructed(ip, lvsMethod)| && spliced != [] && spliced[0] == next
    ensures Inserted(header, chain, next, rest, ip, lvsMethod) == h + (Encode(chain, DESTINATION) + (spliced + rest))
  {
    var option := Constructed(ip, lvsMethod);
    h, spliced := Lengthened(header, chain, |option|), option[0 := next];
    hide Constructed, Encode, Length, FirstType;
  }

  lemma Retargeted(chain: seq<Extension>, a: byte, b: byte)
    ensures |Encode(chain, a)| == Length(chain) == |Encode(chain, b)|
    ensures chain == [] ==> Encode(chain, b) == Encode(chain, a)
    ensures chain != [] ==> Encode(chain, b) == Encode(chain, a)[LastOffset(chain) := b]
  {
    EncodeLength(chain, a);
    EncodeLength(chain, b);
    if chain != [] {
      Retarget(chain, a, b);
    }
  }

  lemma CutPatched(header: seq<byte>, h: seq<byte>, chain: seq<Extension>, next: byte, before: seq<byte>, spliced: seq<byte>, rest: seq<byte>)
    requires |header| == HEADER == |h| && Adjusted(header, h, chain) && header[6] == FirstType(chain, next)
    requires |before| == Length(chain) == |Encode(chain, next)|
    requires Encode(chain, next) == if chain == [] then before else before[LastOffset(chain) := next]
    requires spliced != [] && spliced[0] == next
    requires PayloadLen(h + (before + (spliced + rest))) == Word(header, 4) + |spliced|
    ensures var start, pointer, packet := HEADER + |before|, Announcer(chain, 0, 6), h + (before + (spliced + rest));
            && pointer < |packet| && packet[start] == next
            && Stripped(packet, start, pointer, |spliced|) == Packet(header, chain, next, rest)
  {
    hide Put, Encode, Length, LastOffset, Adjusted, Patched, Announcer, PayloadLen, Word;
    PatchedParts(header, h, chain, next, before, spliced + rest);
    Middle(h, before, spliced, rest);
    WithoutMiddle(header, Encode(chain, next), spliced, rest);
    var pointer, packet := Announcer(chain, 0, 6), h + (before + (spliced + rest));
    PatchedIs(packet, HEADER + |before|, pointer, |spliced|, next, Word(header, 4));
  }

  lemma WithoutMiddle(a: seq<byte>, b: seq<byte>, c: seq<byte>, d: seq<byte>)
    ensures var all := a + (b + (c + d));
            all[..|a| + |b|] + all[|a| + |b| + |c|..] == a + (b + d)
  {
    var all := a + (b + (c + d));
    assert all[..|a| + |b|] == a + b && all[|a| + |b| + |c|..] == d;
  }

  lemma PatchedIs(packet: seq<byte>, start: nat, pointer: nat, cut: nat, next: byte, length: nat)
    requires HEADER <= start < |packet| && pointer < |packet| && packet[start] == next
    requires PayloadLen(packet) == length + cut && length <= 0xffff
    ensures Patched(packet, start, pointer, cut) == Put(packet[pointer := next], 4, length)
  {
    hide Put, PayloadLen;
  }

  lemma Middle(a: seq<byte>, b: seq<byte>, c: seq<byte>, d: seq<byte>)
    requires c != []
    ensures var all := a + (b + (c + d));
            && all[|a| + |b|] == c[0] && all[..|a| + |b|] == a + b && all[|a| + |b| + |c|..] == d
  {
  }

  /** Equal to a fixed header in all but the length field and the first type, which is now that of a
      chain that ends in a destination-options header. */
  predicate Adjusted(header: seq<byte>, h: seq<byte>, chain: seq<Extension>)
    requires |header| == HEADER == |h|
  {
    && h[6] == FirstType(chain, DESTINATION)
    && forall k :: 0 <= k < HEADER && k !in {4, 5, 6} ==> h[k] == header[k]
  }

  lemma PatchedParts(header: seq<byte>, h: seq<byte>, chain: seq<Extension>, next: byte, before: seq<byte>, tail: seq<byte>)
    requires |header| == HEADER == |h| && Adjusted(header, h, chain) && header[6] == FirstType(chain, next)
    requires |before| == Length(chain)
    requires Encode(chain, next) == if chain == [] then before else before[LastOffset(chain) := next]
    ensures var pointer, packet := Announcer(chain, 0, 6), h + (before + tail);
            && pointer < HEADER + |before|
            && Put(packet[pointer := next], 4, Word(header, 4)) == header + (Encode(chain, next) + tail)
  {
    hide Encode, Length, LastOffset;
    var packet := h + (before + tail);
    assert Put(header, 4, Word(header, 4)) == header;
    if chain == [] {
      assert Put(packet[6 := next], 4, Word(header, 4))[..HEADER] == header;
    } else {
      var o := LastOffset(chain);
      assert (before + tail)[o := next] == Encode(chain, next) + tail;
    }
  }

  /** The walk passes the chain and takes the address and the method out of the header behind it. */
  lemma WalkFinds(packet: seq<byte>, chain: seq<Extension>, next: byte, rest: seq<byte>, ip: seq<byte>, lvsMethod: byte)
    requires |ip| in {4, 16} && |packet| >= HEADER && HEADER + PayloadLen(packet) <= |packet|
    requires forall h <- chain :: h.Valid() && h.len != 255
    requires ChainAt(packet, 0, 6, chain, DESTINATION, Constructed(ip, lvsMethod)[0 := next] + rest)
    requires Length(chain) + |Constructed(ip, lvsMethod)| <= PayloadLen(packet)
    ensures var size, start, pointer := |Constructed(ip, lvsMethod)|, HEADER + Length(chain), Announcer(chain, 0, 6);
            && pointer < |packet| && start + size <= |packet|
            && Handled(packet) == Extracted(Message(ip, lvsMethod, Stripped(packet, start, pointer, size)))
  {
    hide Constructed, Stripped, Walk, ChainAt, Taken, Encode, Pad, PayloadLen, LastOffset;
    WalkSkips(packet, PayloadLen(packet), 0, 6, chain, DESTINATION, Constructed(ip, lvsMethod)[0 := next] + rest);
    MarkerHere(packet, Length(chain), Announcer(chain, 0, 6), ip, lvsMethod, next, rest);
  }

  /** Stripping undoes inserting: address, method and every byte of the packet come back. */
  lemma StripUndoesInsert(header: seq<byte>, chain: seq<Extension>, next: byte, rest: seq<byte>, ip: seq<byte>, lvsMethod: byte)
    requires MayInsert(header, chain, next, rest, ip)
    requires forall h <- chain :: h.len != 255
    ensures Handled(Inserted(header, chain, next, rest, ip, lvsMethod))
         == Extracted(Message(ip, lvsMethod, Packet(header, chain, next, rest)))
  {
    hide Constructed, Inserted, Packet, Stripped, Handled, ChainAt;
    InsertedParts(header, chain, next, rest, ip, lvsMethod);
    CutRestores(header, chain, next, rest, ip, lvsMethod);
    WalkFinds(Inserted(header, chain, next, rest, ip, lvsMethod), chain, next, rest, ip, lvsMethod);
  }

  /** How many headers stand in front of the first one with a length byte of 255. */
  function SoundPrefix(chain: seq<Extension>): (k: nat)
    requires exists h <- chain :: h.len == 255
    ensures k < |chain| && chain[k].len == 255 && forall h <- chain[..k] :: h.len != 255
  {
    if chain[0].len == 255 then 0 else 1 + SoundPrefix(chain[1..])
  }

  /** Dropping the first `k` headers of a chain. */
  lemma {:induction false} SplitChain(chain: seq<Extension>, k: nat, next: byte)
    requires k <= |chain|
    ensures Encode(chain, next) == Encode(chain[..k], FirstType(chain[k..], next)) + Encode(chain[k..], next)
    ensures Length(chain) == Length(chain[..k]) + Length(chain[k..])
    ensures FirstType(chain[..k], FirstType(chain[k..], next)) == FirstType(chain, next)
  {
    if k > 0 {
      SplitChain(chain[1..], k - 1, next);
      assert chain[..k][1..] == chain[1..][..k - 1] && chain[1..][k - 1..] == chain[k..];
    }
  }

  /** A header with a length byte of 255 is never passed: the walk stays there, and either spins or takes
      the header itself for the experimental one and cuts nothing. */
  lemma NeverPasses(packet: seq<byte>, n: nat, i: nat, pointer: nat, h: Extension)
    requires h.Valid() && h.len == 255 && HEADER + n <= |packet| && i + h.Size() <= n && PointsBack(pointer, i)
    requires packet[pointer] == h.typ && packet[HEADER + i + 1] == h.len && packet[HEADER + i + 2] == h.rest[0]
    requires packet[HEADER + i] in {HOP_BY_HOP, ROUTING, DESTINATION}
    ensures Walk(packet, n, i, pointer) in {Stuck, Marker(i, HEADER + i)}
  {
    hide Walk;
    StepOver(packet, n, i, pointer, h);
    if pointer != HEADER + i {
      Again(packet, n, i);
    }
  }

  lemma Again(packet: seq<byte>, n: nat, i: nat)
    requires HEADER + n <= |packet| && i + 8 <= n && packet[HEADER + i + 1] == 255
    requires packet[HEADER + i] in {HOP_BY_HOP, ROUTING, DESTINATION}
    ensures Walk(packet, n, i, HEADER + i) in {Stuck, Marker(i, HEADER + i)}
  {
  }

  /** The walk ends at the first header with a length byte of 255. */
  lemma EndsAt(packet: seq<byte>, n: nat, chain: seq<Extension>, k: nat, tail: seq<byte>)
    requires k < |chain| && chain[k].len == 255 && forall h <- chain[..k] :: h.len != 255
    requires forall h <- chain :: h.Valid()
    requires ChainAt(packet, 0, 6, chain, DESTINATION, tail) && HEADER + n <= |packet| && Length(chain) <= n
    ensures var j := Length(chain[..k]);
            && j + 8 <= n && packet[HEADER + j + 1] == 255
            && Walk(packet, n, 0, 6) in {Stuck, Marker(j, HEADER + j)}
  {
    hide *;
    var before, after := chain[..k], chain[k..];
    assert forall h <- before :: h in chain;
    Apart(packet, chain, k, tail);
    var next, rest := FirstType(after, DESTINATION), Encode(after, DESTINATION) + tail;
    SplitChain(chain, k, DESTINATION);
    LengthOfFirst(after);
    WalkSkips(packet, n, 0, 6, before, next, rest);
    assert after[0] == chain[k] && after[0] in chain && (|after| > 1 ==> after[1] == chain[k + 1] && after[1] in chain);
    StaysAt(packet, n, Length(before), Announcer(before, 0, 6), after, tail);
  }

  /** The packet's chain as what precedes header `k` and what starts there. */
  lemma Apart(packet: seq<byte>, chain: seq<Extension>, k: nat, tail: seq<byte>)
    requires k < |chain| && ChainAt(packet, 0, 6, chain, DESTINATION, tail)
    ensures ChainAt(packet, 0, 6, chain[..k], FirstType(chain[k..], DESTINATION), Encode(chain[k..], DESTINATION) + tail)
  {
    hide Encode, FirstType;
    SplitChain(chain, k, DESTINATION);
  }

  lemma LengthOfFirst(chain: seq<Extension>)
    requires chain != []
    ensures chain[0].Size() <= Length(chain)
  {
  }

  lemma StaysAt(packet: seq<byte>, n: nat, j: nat, pointer: nat, chain: seq<Extension>, tail: seq<byte>)
    requires chain != [] && chain[0].Valid() && chain[0].len == 255 && (|chain| > 1 ==> chain[1].Valid())
    requires ChainAt(packet, j, pointer, [], FirstType(chain, DESTINATION), Encode(chain, DESTINATION) + tail)
    requires HEADER + n <= |packet| && j + chain[0].Size() <= n
    ensures j + 8 <= n && packet[HEADER + j + 1] == 255
    ensures Walk(packet, n, j, pointer) in {Stuck, Marker(j, HEADER + j)}
  {
    hide Walk, Encode;
    BackToChain(packet, j, pointer, chain, tail);
    ChainStep(packet, j, pointer, chain, DESTINATION, tail);
    NeverPasses(packet, n, j, pointer, chain[0]);
  }

  lemma BackToChain(packet: seq<byte>, j: nat, pointer: nat, chain: seq<Extension>, tail: seq<byte>)
    requires ChainAt(packet, j, pointer, [], FirstType(chain, DESTINATION), Encode(chain, DESTINATION) + tail)
    ensures ChainAt(packet, j, pointer, chain, DESTINATION, tail)
  {
  }

  /** Behind a header with a length byte of 255, inserting is not undone: the code spins, fails, or returns
      the packet with nothing cut out. */
  lemma StuckAt255(header: seq<byte>, chain: seq<Extension>, next: byte, rest: seq<byte>, ip: seq<byte>, lvsMethod: byte)
    requires MayInsert(header, chain, next, rest, ip)
    requires exists h <- chain :: h.len == 255
    ensures var inserted := Inserted(header, chain, next, rest, ip, lvsMethod);
            NothingCut(inserted, Handled(inserted))
  {
    var packet := Inserted(header, chain, next, rest, ip, lvsMethod);
    InsertedParts(header, chain, next, rest, ip, lvsMethod);
    assert forall h <- chain :: h.Valid();
    hide Inserted, Constructed, ChainAt, MayInsert, Handled, NothingCut, PayloadLen;
    StuckBehind(packet, chain, Constructed(ip, lvsMethod)[0 := next] + rest);
  }

  predicate NothingCut(packet: seq<byte>, outcome: Outcome) {
    match outcome
    case Extracted(message) => |message.packet| == |packet|
    case NoMessage => false
    case _ => true
  }

  lemma StuckBehind(packet: seq<byte>, chain: seq<Extension>, tail: seq<byte>)
    requires |packet| >= HEADER && HEADER + PayloadLen(packet) <= |packet| && Length(chain) <= PayloadLen(packet)
    requires (forall h <- chain :: h.Valid()) && (exists h <- chain :: h.len == 255)
    requires ChainAt(packet, 0, 6, chain, DESTINATION, tail)
    ensures NothingCut(packet, Handled(packet))
  {
    hide Walk, ChainAt, Handled, PayloadLen;
    var k := SoundPrefix(chain);
    EndsAt(packet, PayloadLen(packet), chain, k, tail);
    CutsNothing(packet, Length(chain[..k]));
  }

  /** An extension header that seems to have no bytes is cut out with none. */
  lemma CutsNothing(packet: seq<byte>, j: nat)
    requires |packet| >= HEADER && HEADER + PayloadLen(packet) <= |packet|
    requires j + 8 <= PayloadLen(packet) && packet[HEADER + j + 1] == 255
    requires Walk(packet, PayloadLen(packet), 0, 6) in {Stuck, Marker(j, HEADER + j)}
    ensures NothingCut(packet, Handled(packet))
  {
    hide Walk, Stripped;
  }

  /** Exactly when inserting is undone: no length byte in front of the inserted header is 255. */
  lemma UndoneExactlyWhen(header: seq<byte>, chain: seq<Extension>, next: byte, rest: seq<byte>, ip: seq<byte>, lvsMethod: byte)
    requires MayInsert(header, chain, next, rest, ip)
    ensures Handled(Inserted(header, chain, next, rest, ip, lvsMethod)) == Extracted(Message(ip, lvsMethod, Packet(header, chain, next, rest)))
       <==> forall h <- chain :: h.len != 255
  {
    if h :| h in chain && h.len == 255 {
      hide Constructed, Handled;
      StuckAt255(header, chain, next, rest, ip, lvsMethod);
      EncodeLength(chain, DESTINATION);
      EncodeLength(chain, next);
      hide Encode;
    } else {
      StripUndoesInsert(header, chain, next, rest, ip, lvsMethod);
    }
  }

  /** A fragment header is eight bytes long (section 4.5 of RFC 8200) but stepped over as sixteen. Behind
      one, whatever stands in front of it and whatever follows, an extension header is not found in its
      place, nor is anything in the eight bytes behind. */
  lemma FragmentHidesTheOption(packet: seq<byte>, n: nat, chain: seq<Extension>, fragment: seq<byte>, tail: seq<byte>)
    requires forall h <- chain :: h.Valid() && h.len != 255
    requires ChainAt(packet, 0, 6, chain, 44, fragment + tail) && |fragment| == 8
    requires HEADER + n <= |packet| && Length(chain) <= n
    ensures var found := Walk(packet, n, 0, 6);
            found.Marker? ==> found.at >= Length(chain) + 16
  {
    WalkSkips(packet, n, 0, 6, chain, FRAGMENT, fragment + tail);
    hide Encode, LastOffset;
    FragmentIsSixteen(packet, n, Length(chain), Announcer(chain, 0, 6));
  }

  lemma FragmentIsSixteen(packet: seq<byte>, n: nat, i: nat, pointer: nat)
    requires HEADER + n <= |packet| && PointsBack(pointer, i) && pointer < |packet| && packet[pointer] == FRAGMENT
    ensures var found := Walk(packet, n, i, pointer);
            found.Marker? ==> found.at >= i + 16
  {
  }

  /** In particular, with nothing but the header that carries an IPv4 address behind the fragment header,
      there is no message. */
  lemma FragmentLosesTheMessage(header: seq<byte>, fragment: seq<byte>, next: byte, ip: seq<byte>, lvsMethod: byte)
    requires |header| == HEADER && header[6] == 44 && Word(header, 4) == 24
    requires |fragment| == 8 && fragment[0] == 60 && |ip| == 4
    ensures Handled(header + fragment + Constructed(ip, lvsMethod)[0 := next]) == NoMessage
  {
    var option := Constructed(ip, lvsMethod)[0 := next];
    var packet := header + fragment + option;
    LongOption(ip, lvsMethod, next);
    FragmentBytes(header, fragment, lvsMethod, option);
    hide Constructed, Word, Walk;
    WalkHere(packet, 24, 0, 6);
    WalkHere(packet, 24, 16, HEADER);
    WalkEnds(packet, 24, 32, HEADER + 16);
  }

  /** The bytes the walk reads behind a fragment header. */
  lemma FragmentBytes(header: seq<byte>, fragment: seq<byte>, lvsMethod: byte, option: seq<byte>)
    requires |header| == HEADER && |fragment| == 8 && |option| == 16
    requires option == option[..8] + option[8..] && option[8..] == [lvsMethod, 1, 5] + option[11..]
    ensures var packet := header + fragment + option;
            && packet[6] == header[6] && PayloadLen(packet) == Word(header, 4)
            && packet[HEADER] == fragment[0] && packet[HEADER + 17] == 1 && packet[HEADER + 18] == 5
  {
    var packet := header + fragment + option;
    assert packet[4] == header[4] && packet[5] == header[5];
    assert packet[HEADER + 17] == option[9] == option[8..][1] && packet[HEADER + 18] == option[10] == option[8..][2];
  }

  /** The header that carries an IPv4 address is sixteen bytes long, the last seven of them padding. */
  lemma LongOption(ip: seq<byte>, lvsMethod: byte, next: byte)
    requires |ip| == 4
    ensures var option := Constructed(ip, lvsMethod)[0 := next];
            |option| == 16 && option == option[..8] + option[8..] && option[8..] == [lvsMethod, 1, 5] + option[11..]
  {
    var option := Constructed(ip, lvsMethod);
    assert Padding(7)[..2] == [1, 5];
    ConstructedParts(ip, lvsMethod, next, []);
    var changed := option[0 := next];
    assert changed + [] == changed;
    assert changed[8..] == [lvsMethod] + (Padding(7) + []);
    assert changed[8..] == [lvsMethod] + Padding(7);
  }
}

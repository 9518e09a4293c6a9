/** What the walk over IPv6 extension headers steps over, whatever the bytes are: length bytes of 255 and
    fragment headers included (pkg/checktun/check_tun.go). */
module Strides {
  import opened Common
  import opened Checksum
  import opened Packets
  import opened CheckTunV6

  /** The walk takes these strides, from a header of type `typ` with `left` bytes of payload to go, and then
      stands at a destination-options header. A stride is as long as its length byte says in byte arithmetic,
      and sixteen bytes for a fragment header. The next type is the stride's first byte, unless the stride is
      an experimental option of another length, which leaves the type. A stride of no bytes reads its own
      first byte as the next type, once: `moved` tells whether the last stride had any. */
  predicate Steps(typ: byte, strides: seq<seq<byte>>, tail: seq<byte>, left: int, moved: bool)
    decreases |strides|
  {
    if strides == [] then typ == DESTINATION
    else
      var here, size := Flat(strides) + tail, |strides[0]|;
      && left >= 8 && |here| >= 8
      && if typ == DESTINATION && here[2] == EXPERIMENT && here[3] as int <= left then
           && here[3] as int !in {FOR_V4, FOR_V6} && size == Octets(here[1]) && size > 0
           && Steps(typ, strides[1..], tail, left - size, true)
         else if typ == DESTINATION || typ == HOP_BY_HOP || typ == ROUTING then
           && size == Octets(here[1]) && (size > 0 || moved)
           && Steps(here[0], strides[1..], tail, left - size, size > 0)
         else
           && typ == FRAGMENT && size == 16
           && Steps(here[0], strides[1..], tail, left - size, true)
  }

  /** A header that carries the option stands here. */
  predicate Carries(packet: seq<byte>, n: nat, place: nat)
    requires HEADER + n <= |packet|
  {
    && place + 8 <= n && packet[HEADER + place + 2] == EXPERIMENT
    && packet[HEADER + place + 3] as int in {FOR_V4, FOR_V6} && place + packet[HEADER + place + 3] as int <= n
  }

  predicate MarksAt(found: Finding, place: nat) {
    found.Marker? && found.at == place
  }

  /** The strides the walk has taken when it finds the option. */
  lemma {:induction false} SteppedOver(packet: seq<byte>, n: nat, i: nat, pointer: nat, place: nat) returns (strides: seq<seq<byte>>)
    requires HEADER + n <= |packet| && PointsBack(pointer, i) && MarksAt(Walk(packet, n, i, pointer), place)
    ensures i <= place <= n && Flat(strides) == packet[HEADER + i..HEADER + place]
    ensures Steps(packet[pointer], strides, packet[HEADER + place..], n - i, pointer != HEADER + i)
    decreases n - i, if pointer == HEADER + i then 0 else 1
  {
    hide Steps, Walk;
    var j, next := WalkGoes(packet, n, i, pointer, place);
    if j == i && next == pointer {
      strides := [];
      NoStride(packet[pointer], packet[HEADER + place..], n - i, pointer != HEADER + i);
    } else {
      var more := SteppedOver(packet, n, j, next, place);
      strides := OneStride(packet, n, i, pointer, j, next, more, place);
    }
  }

  /** Where the walk goes on its way to the option; it goes nowhere once it is there. */
  lemma WalkGoes(packet: seq<byte>, n: nat, i: nat, pointer: nat, place: nat) returns (j: nat, next: nat)
    requires HEADER + n <= |packet| && PointsBack(pointer, i) && MarksAt(Walk(packet, n, i, pointer), place)
    ensures i <= place && place + 8 <= n && PointsBack(next, j)
    ensures if j == i && next == pointer then place == i && packet[pointer] == DESTINATION
            else Goes(packet, n, i, pointer, j, next) && j <= place && MarksAt(Walk(packet, n, j, next), place)
  {
    var found := Walk(packet, n, i, pointer);
    var start, typ := HEADER + i, packet[pointer];
    WalkEndsOr(packet, n, i, pointer);
    WalkHere(packet, n, i, pointer);
    hide Walk;
    j, next := i, pointer;
    if typ == DESTINATION && packet[start + 2] == EXPERIMENT && i + packet[start + 3] as int <= n {
      if packet[start + 3] as int !in {FOR_V4, FOR_V6} {
        j := i + Octets(packet[start + 1]);
      }
    } else if typ == FRAGMENT {
      j, next := i + 16, start;
    } else {
      j, next := i + Octets(packet[start + 1]), start;
    }
  }

  lemma WalkEndsOr(packet: seq<byte>, n: nat, i: nat, pointer: nat)
    requires HEADER + n <= |packet| && PointsBack(pointer, i) && Walk(packet, n, i, pointer).Marker?
    ensures i + 8 <= n
  {
  }

  /** One stride from `i` to `j`, where `pointer` and then `next` hold the type. */
  predicate Goes(packet: seq<byte>, n: nat, i: nat, pointer: nat, j: nat, next: nat)
    requires HEADER + n <= |packet| && PointsBack(pointer, i)
  {
    && i + 8 <= n && i <= j
    && var start, typ := HEADER + i, packet[pointer];
       if typ == DESTINATION && packet[start + 2] == EXPERIMENT && i + packet[start + 3] as int <= n then
         packet[start + 3] as int !in {FOR_V4, FOR_V6} && j == i + Octets(packet[start + 1]) && j > i && next == pointer
       else if typ == DESTINATION || typ == HOP_BY_HOP || typ == ROUTING then
         j == i + Octets(packet[start + 1]) && next == start && (j > i || pointer != start)
       else typ == FRAGMENT && j == i + 16 && next == start
  }

  lemma NoStride(typ: byte, tail: seq<byte>, left: int, moved: bool)
    ensures Steps(typ, [], tail, left, moved) <==> typ == DESTINATION
  {
  }

  /** The bytes between two places, put in front of parts that go on from there. */
  lemma InFront(packet: seq<byte>, a: nat, b: nat, c: nat, more: seq<seq<byte>>) returns (parts: seq<seq<byte>>)
    requires a <= b <= c <= |packet| && Flat(more) == packet[b..c]
    ensures parts != [] && |parts[0]| == b - a && parts[1..] == more
    ensures Flat(parts) == packet[a..c] && Flat(parts) + packet[c..] == packet[a..]
  {
    parts := [packet[a..b]] + more;
    FirstFlat(parts);
    assert parts[1..] == more;
    assert packet[a..c] == packet[a..b] + packet[b..c];
  }

  lemma OneStride(packet: seq<byte>, n: nat, i: nat, pointer: nat, j: nat, next: nat, more: seq<seq<byte>>, place: nat)
    returns (strides: seq<seq<byte>>)
    requires HEADER + n <= |packet| && PointsBack(pointer, i) && Goes(packet, n, i, pointer, j, next)
    requires j <= place <= n && Flat(more) == packet[HEADER + j..HEADER + place]
    requires PointsBack(next, j) && Steps(packet[next], more, packet[HEADER + place..], n - j, next != HEADER + j)
    ensures Flat(strides) == packet[HEADER + i..HEADER + place]
    ensures Steps(packet[pointer], strides, packet[HEADER + place..], n - i, pointer != HEADER + i)
  {
    assert i <= j;
    hide Goes, Steps, Flat, Octets;
    strides := InFront(packet, HEADER + i, HEADER + j, HEADER + place, more);
    StrideIs(packet, n, i, pointer, j, next, strides, packet[HEADER + place..]);
  }

  /** A stride in terms of the packet is one in terms of the bytes from there on. */
  lemma StrideIs(packet: seq<byte>, n: nat, i: nat, pointer: nat, j: nat, next: nat, strides: seq<seq<byte>>, tail: seq<byte>)
    requires HEADER + n <= |packet| && PointsBack(pointer, i) && PointsBack(next, j) && strides != []
    requires Goes(packet, n, i, pointer, j, next) && i + |strides[0]| == j <= n
    requires Flat(strides) + tail == packet[HEADER + i..]
    requires Steps(packet[next], strides[1..], tail, n - j, next != HEADER + j)
    ensures Steps(packet[pointer], strides, tail, n - i, pointer != HEADER + i)
  {
    HereIs(packet, i, Flat(strides) + tail);
    hide Flat, Octets;
  }

  /** The first four bytes from some place of the payload on. */
  lemma HereIs(packet: seq<byte>, i: nat, here: seq<byte>)
    requires HEADER + i + 8 <= |packet| && here == packet[HEADER + i..]
    ensures |here| >= 8 && here[0] == packet[HEADER + i] && here[1] == packet[HEADER + i + 1]
    ensures here[2] == packet[HEADER + i + 2] && here[3] == packet[HEADER + i + 3]
  {
  }

  /** The walk takes such strides, and finds the option where they end. */
  lemma {:induction false} StepsFind(packet: seq<byte>, n: nat, i: nat, pointer: nat, strides: seq<seq<byte>>, place: nat)
    requires HEADER + n <= |packet| && PointsBack(pointer, i) && i <= place && Carries(packet, n, place)
    requires Flat(strides) == packet[HEADER + i..HEADER + place]
    requires Steps(packet[pointer], strides, packet[HEADER + place..], n - i, pointer != HEADER + i)
    ensures MarksAt(Walk(packet, n, i, pointer), place)
    decreases |strides|
  {
    hide Walk, Steps, Flat, Octets;
    if strides == [] {
      NoStride(packet[pointer], packet[HEADER + place..], n - i, pointer != HEADER + i);
      NothingFlat();
      WalkHere(packet, n, i, pointer);
    } else {
      var j := i + |strides[0]|;
      var next := TakesStride(packet, n, i, pointer, strides, place);
      StepsFind(packet, n, j, next, strides[1..], place);
      WalkFollows(packet, n, i, pointer, j, next);
    }
  }

  lemma NothingFlat()
    ensures Flat<byte>([]) == []
  {
  }

  lemma TakesStride(packet: seq<byte>, n: nat, i: nat, pointer: nat, strides: seq<seq<byte>>, place: nat) returns (next: nat)
    requires HEADER + n <= |packet| && PointsBack(pointer, i) && i <= place && Carries(packet, n, place) && strides != []
    requires Flat(strides) == packet[HEADER + i..HEADER + place]
    requires Steps(packet[pointer], strides, packet[HEADER + place..], n - i, pointer != HEADER + i)
    ensures var j := i + |strides[0]|;
            && Goes(packet, n, i, pointer, j, next) && j <= place && PointsBack(next, j)
            && Flat(strides[1..]) == packet[HEADER + j..HEADER + place]
            && Steps(packet[next], strides[1..], packet[HEADER + place..], n - j, next != HEADER + j)
  {
    var j := i + |strides[0]|;
    FirstFlat(strides);
    assert packet[HEADER + j..HEADER + place] == packet[HEADER + i..HEADER + place][|strides[0]|..];
    assert packet[HEADER + i..HEADER + place] + packet[HEADER + place..] == packet[HEADER + i..];
    hide Flat, Octets, Carries;
    next := StrideGoes(packet, n, i, pointer, strides, packet[HEADER + place..]);
  }

  lemma StrideGoes(packet: seq<byte>, n: nat, i: nat, pointer: nat, strides: seq<seq<byte>>, tail: seq<byte>) returns (next: nat)
    requires HEADER + n <= |packet| && PointsBack(pointer, i) && strides != [] && i + 8 <= n
    requires Flat(strides) + tail == packet[HEADER + i..] && i + |strides[0]| + |tail| <= |packet| - HEADER
    requires Steps(packet[pointer], strides, tail, n - i, pointer != HEADER + i)
    ensures var j := i + |strides[0]|;
            && Goes(packet, n, i, pointer, j, next) && PointsBack(next, j)
            && Steps(packet[next], strides[1..], tail, n - j, next != HEADER + j)
  {
    HereIs(packet, i, Flat(strides) + tail);
    hide Flat, Octets;
    var start, typ := HEADER + i, packet[pointer];
    next := if typ == DESTINATION && packet[start + 2] == EXPERIMENT && i + packet[start + 3] as int <= n then pointer else start;
  }

  lemma FirstFlat(strides: seq<seq<byte>>)
    requires strides != []
    ensures Flat(strides) == strides[0] + Flat(strides[1..]) && Flat(strides)[|strides[0]|..] == Flat(strides[1..])
  {
  }

  lemma WalkFollows(packet: seq<byte>, n: nat, i: nat, pointer: nat, j: nat, next: nat)
    requires HEADER + n <= |packet| && PointsBack(pointer, i) && Goes(packet, n, i, pointer, j, next) && PointsBack(next, j)
    ensures Walk(packet, n, i, pointer) == Walk(packet, n, j, next)
  {
    WalkHere(packet, n, i, pointer);
    hide Walk, Octets;
  }

  /** A header that carries the option is found in its place exactly when the bytes in front of it are strides
      that lead there. */
  lemma FoundInPlaceExactlyWhen(packet: seq<byte>, n: nat, place: nat)
    requires HEADER + n <= |packet| && Carries(packet, n, place)
    ensures MarksAt(Walk(packet, n, 0, 6), place) <==>
            exists strides: seq<seq<byte>> ::
              Flat(strides) == packet[HEADER..HEADER + place] && Steps(packet[6], strides, packet[HEADER + place..], n, true)
  {
    hide Walk, Steps, Flat;
    if MarksAt(Walk(packet, n, 0, 6), place) {
      var strides := SteppedOver(packet, n, 0, 6, place);
    } else if strides: seq<seq<byte>> :|
                Flat(strides) == packet[HEADER..HEADER + place] && Steps(packet[6], strides, packet[HEADER + place..], n, true) {
      StepsFind(packet, n, 0, 6, strides, place);
    }
  }
}

/** The check-tunnel option of IPv4 packets: building it, finding it and stripping all options
    (pkg/checktun/check_tun.go and pkg/checktun/exp_header.go; section 3.1 of RFC 791). */
module CheckTunV4 {
  import opened Common
  import opened Checksum
  import opened Packets

  const HEADER := 20
  const FOR_V4 := 7 // length of an option that carries an IPv4 address
  const FOR_V6 := 19

  function HeaderLen(packet: seq<byte>): nat
    requires packet != []
  {
    packet[0] as int % 16 * 4
  }

  /** Where the option walk finds the experimental option. */
  function Find(options: seq<byte>, i: nat): (found: Option<nat>)
    ensures found.Some? ==> i <= found.value && found.value + 1 < |options|
    ensures found.Some? ==> options[found.value] == EXPERIMENT && options[found.value + 1] in {FOR_V4, FOR_V6}
    ensures found.Some? ==> found.value + options[found.value + 1] as int <= |options|
    decreases |options| - i
  {
    if i + 2 > |options| then None
    else
      var len := options[i + 1] as int;
      if len == 0 || i + len > |options| then None
      else if options[i] == EXPERIMENT && len in {FOR_V4, FOR_V6} then Some(i)
      else Find(options, i + len)
  }

  /** The first twenty bytes of a header rewritten for a packet without options of the given length. */
  function PlainHeader(header: seq<byte>, total: nat): (r: seq<byte>)
    requires |header| == HEADER
    ensures |r| == HEADER
  {
    var zeroed := Put(Put(header[0 := 0x45], 2, total % 0x10000), 10, 0);
    Put(zeroed, 10, InternetChecksum(zeroed))
  }

  /** A packet without its options. */
  function Stripped(packet: seq<byte>): seq<byte>
    requires packet != [] && HEADER <= HeaderLen(packet) <= |packet|
  {
    var data := packet[HeaderLen(packet)..];
    PlainHeader(packet[..HEADER], HEADER + |data|) + data
  }

  /** What the handler returns for a packet. */
  function Handled(packet: seq<byte>): Option<Message>
    requires packet != []
  {
    if |packet| < HeaderLen(packet) || HeaderLen(packet) < HEADER then None
    else
      var options := packet[HEADER..HeaderLen(packet)];
      match Find(options, 0)
      case None => None
      case Some(i) =>
        var last := i + options[i + 1] as int - 1;
        Some(Message(options[i + 2..last], options[last], Stripped(packet)))
  }

  /** The type-length-value option that carries an address and a method. */
  method ConstructExperimentalHeaderWithIP(ipForEncode: seq<byte>, lvsMethod: byte) returns (option: array<byte>)
    ensures fresh(option) && option[..] == Constructed(ipForEncode, lvsMethod)
  {
    var n := |ipForEncode|;
    option := new byte[2 + n + 1](_ => 0);
    option[0] := EXPERIMENT;
    option[1] := option.Length % 256;
    for k := 0 to n
      invariant option[0] == EXPERIMENT && option[1] as int == option.Length % 256
      invariant option[2..2 + k] == ipForEncode[..k]
    {
      option[2 + k] := ipForEncode[k];
      assert option[2..2 + k + 1] == option[2..2 + k] + [ipForEncode[k]];
    }
    option[option.Length - 1] := lvsMethod;
    assert option[2..2 + n] == ipForEncode;
  }

  function Constructed(ip: seq<byte>, lvsMethod: byte): (option: seq<byte>)
    ensures |option| == |ip| + 3
  {
    [EXPERIMENT, (|ip| + 3) % 256] + ip + [lvsMethod]
  }

  /** The option as it stands in a packet. */
  lemma ConstructedIs(ip: seq<byte>, lvsMethod: byte)
    ensures var option, n := Constructed(ip, lvsMethod), |ip|;
            option[0] == 30 && option[1] == (n + 3) % 256 && option[2..2 + n] == ip && option[2 + n..] == [lvsMethod]
    ensures |ip| == 4 ==> Constructed(ip, lvsMethod) == [30, 7] + ip + [lvsMethod]
    ensures |ip| == 16 ==> Constructed(ip, lvsMethod) == [30, 19] + ip + [lvsMethod]
  {
  }

  lemma FindHere(options: seq<byte>, i: nat)
    requires i + 2 <= |options|
    ensures var len := options[i + 1] as int;
            Find(options, i) == if len == 0 || i + len > |options| then None
                                else if options[i] == EXPERIMENT && len in {FOR_V4, FOR_V6} then Some(i)
                                else Find(options, i + len)
  {
  }

  lemma FindNone(options: seq<byte>, i: nat)
    ensures i + 2 > |options| ==> Find(options, i) == None
  {
  }

  /** What the handler makes of an option it finds. */
  lemma TakesFound(packet: seq<byte>, options: seq<byte>, i: nat)
    requires packet != [] && HEADER <= HeaderLen(packet) <= |packet| && packet[HEADER..HeaderLen(packet)] == options
    requires Find(options, 0) == Some(i)
    ensures i + 1 < |options| && 3 <= options[i + 1] as int <= |options| - i
    ensures var last := i + options[i + 1] as int - 1;
            Handled(packet) == Some(Message(options[i + 2..last], options[last], Stripped(packet)))
  {
    hide Stripped;
  }

  lemma NothingFound(packet: seq<byte>)
    requires packet != []
    requires |packet| < HeaderLen(packet) || HeaderLen(packet) < HEADER || Find(packet[HEADER..HeaderLen(packet)], 0) == None
    ensures Handled(packet) == None
  {
    hide Stripped, Find;
  }

  /** Finds the experimental option and strips all options in place. The message's packet is the
      beginning of the array. */
  method Ipv4Handler(payload: array<byte>) returns (message: Option<Message>)
    requires payload.Length > 0
    modifies payload
    ensures message == Handled(old(payload[..]))
    ensures message.None? ==> payload[..] == old(payload[..])
    ensures message.Some? ==> message.value.packet <= payload[..]
  {
    hide Stripped, PlainHeader, InternetChecksum, WordSum, Find, Handled;
    ghost var packet := payload[..];
    var headerLen := payload[0] as int % 16 * 4;
    if payload.Length < headerLen || headerLen < HEADER {
      NothingFound(packet);
      return None;
    }
    var options := payload[HEADER..headerLen];
    assert options == packet[HEADER..HeaderLen(packet)];
    var i: nat := 0;
    while i <= |options| - 2
      invariant Find(options, 0) == Find(options, i)
      invariant payload[..] == packet
      decreases |options| - i
    {
      FindHere(options, i);
      var optionLen := options[i + 1] as int;
      if optionLen == 0 || optionLen + i > |options| {
        break;
      }
      if options[i] == EXPERIMENT && (optionLen == FOR_V4 || optionLen == FOR_V6) {
        var ip, lvsMethod := options[i + 2..i + optionLen - 1], options[i + optionLen - 1];
        TakesFound(packet, options, i);
        var total := RemoveIpv4Options(payload);
        return Some(Message(ip, lvsMethod, payload[..total]));
      }
      i := i + optionLen;
    }
    FindNone(options, i);
    NothingFound(packet);
    return None;
  }

  method RemoveIpv4Options(payload: array<byte>) returns (totalLen: nat)
    requires payload.Length > 0 && HEADER <= HeaderLen(payload[..]) <= payload.Length
    modifies payload
    ensures totalLen <= payload.Length && payload[..totalLen] == Stripped(old(payload[..]))
  {
    ghost var packet := payload[..];
    var headerLen := payload[0] as int % 16 * 4;
    hide PlainHeader;
    ghost var data := packet[headerLen..];
    assert packet[headerLen..headerLen + (payload.Length - headerLen)] == data;
    CopyDown(payload, HEADER, headerLen, payload.Length - headerLen);
    var delta := headerLen - HEADER;
    totalLen := payload.Length - delta;
    assert payload[..HEADER] == packet[..HEADER];
    assert payload[HEADER..totalLen] == data;
    WriteHeader(payload, totalLen);
    assert payload[HEADER..totalLen] == data;
    assert payload[..totalLen] == payload[..HEADER] + payload[HEADER..totalLen];
  }

  /** Rewrites the header for a packet without options. */
  method WriteHeader(payload: array<byte>, totalLen: nat)
    requires payload.Length >= HEADER
    modifies payload
    ensures payload[..HEADER] == PlainHeader(old(payload[..HEADER]), totalLen)
    ensures forall k :: HEADER <= k < payload.Length ==> payload[k] == old(payload[k])
  {
    ghost var zeroed := Put(Put(payload[..HEADER][0 := 0x45], 2, totalLen % 0x10000), 10, 0);
    payload[0] := 0x45;
    payload[2], payload[3] := totalLen % 0x10000 / 256, totalLen % 0x10000 % 256;
    payload[10], payload[11] := 0, 0;
    assert payload[..HEADER] == zeroed;
    var checksum := CalculateIpv4Checksum(payload[..HEADER]);
    payload[10], payload[11] := checksum / 256, checksum % 256;
    assert payload[..HEADER] == Put(zeroed, 10, checksum);
  }

  /** What every stripped packet is: a 20-byte header that verifies and tells the packet's length, all
      other header fields kept, and the data unchanged. */
  lemma StrippedIsPlain(packet: seq<byte>)
    requires packet != [] && HEADER <= HeaderLen(packet) <= |packet|
    ensures var s := Stripped(packet);
            && |s| == |packet| - (HeaderLen(packet) - HEADER)
            && HeaderLen(s) == HEADER && s[0] == 0x45
            && s[2] as int == |s| / 256 % 256 && s[3] as int == |s| % 256
            && Verifies(s[..HEADER])
            && (forall k :: 1 <= k < HEADER && k !in {2, 3, 10, 11} ==> s[k] == packet[k])
            && s[HEADER..] == packet[HeaderLen(packet)..]
  {
    var total := |packet| - (HeaderLen(packet) - HEADER);
    var zeroed := Put(Put(packet[..HEADER][0 := 0x45], 2, total % 0x10000), 10, 0);
    ChecksumVerifies(zeroed, 10, 0);
    assert Stripped(packet)[..HEADER] == PlainHeader(packet[..HEADER], total);
    TwoBytes(total);
    hide InternetChecksum, Verifies;
  }

  /** The two low bytes of a number. */
  lemma TwoBytes(total: nat)
    ensures total % 0x10000 / 256 == total / 256 % 256 && total % 0x10000 % 256 == total % 256
  {
  }

  /** A type-length-value option that is not the experimental one. */
  predicate Ordinary(option: seq<byte>) {
    |option| >= 2 && option[1] as int == |option| && !(option[0] == 30 && |option| in {7, 19})
  }

  /** The walk steps over the option to what follows it. It takes the octet behind a type for a length, and
      so passes a one-octet option only in front of an octet one. */
  predicate Passable(option: seq<byte>, tail: seq<byte>) {
    if |option| == 1 then tail != [] && tail[0] == 1 else Ordinary(option)
  }

  predicate Passes(options: seq<seq<byte>>, rest: seq<byte>) {
    options == [] || (Passable(options[0], Flat(options[1..]) + rest) && Passes(options[1..], rest))
  }

  lemma {:induction false} OrdinaryOptionsPass(options: seq<seq<byte>>, rest: seq<byte>)
    requires forall o <- options :: Ordinary(o)
    ensures Passes(options, rest)
  {
    if options != [] {
      assert options[0] in options;
      OrdinaryOptionsPass(options[1..], rest);
    }
  }

  lemma {:induction false} FindSkips(all: seq<byte>, i: nat, options: seq<seq<byte>>, rest: seq<byte>)
    requires Passes(options, rest)
    requires i <= |all| && all[i..] == Flat(options) + rest
    ensures Find(all, i) == Find(all, i + |Flat(options)|)
    decreases options
  {
    hide Find, Passable, Flat, Passes;
    if options == [] {
      NoOptions();
    } else {
      OptionSteps(all, i, options, rest);
      FindSkips(all, i + |options[0]|, options[1..], rest);
    }
  }

  lemma OptionSteps(all: seq<byte>, i: nat, options: seq<seq<byte>>, rest: seq<byte>)
    requires options != [] && Passes(options, rest) && i <= |all| && all[i..] == Flat(options) + rest
    ensures |Flat(options)| == |options[0]| + |Flat(options[1..])|
    ensures i + |options[0]| <= |all| && all[i + |options[0]|..] == Flat(options[1..]) + rest
    ensures Find(all, i) == Find(all, i + |options[0]|) && Passes(options[1..], rest)
  {
    hide Find, Passable, Flat, Passes;
    FirstOption(options, rest);
    FindStep(all, i, options[0], Flat(options[1..]) + rest);
  }

  lemma NoOptions()
    ensures Flat<byte>([]) == []
  {
  }

  lemma FirstOption(options: seq<seq<byte>>, rest: seq<byte>)
    requires options != [] && Passes(options, rest)
    ensures |Flat(options)| == |options[0]| + |Flat(options[1..])|
    ensures Flat(options) + rest == options[0] + (Flat(options[1..]) + rest)
    ensures Passable(options[0], Flat(options[1..]) + rest) && Passes(options[1..], rest)
  {
    hide Passable;
  }

  lemma FindStep(all: seq<byte>, i: nat, option: seq<byte>, tail: seq<byte>)
    requires Passable(option, tail) && i <= |all| && all[i..] == option + tail
    ensures Find(all, i) == Find(all, i + |option|) && i + |option| <= |all| && all[i + |option|..] == tail
  {
    assert all[i] == all[i..][0] && all[i + 1] == all[i..][1];
    assert all[i + |option|..] == all[i..][|option|..];
  }

  /** What the walk has stepped over when it finds the experimental option. */
  lemma {:induction false} SteppedOver(all: seq<byte>, i: nat, place: nat) returns (options: seq<seq<byte>>)
    requires i <= place <= |all| && Find(all, i) == Some(place)
    ensures Flat(options) == all[i..place] && Passes(options, all[place..])
    decreases |all| - i
  {
    if i == place {
      options := [];
    } else {
      var len := all[i + 1] as int;
      var more := SteppedOver(all, i + len, place);
      var option := all[i..i + len];
      options := [option] + more;
      assert options[1..] == more;
      assert all[i..place] == option + all[i + len..place];
      assert Flat(more) + all[place..] == all[i + len..];
    }
  }

  /** The constructed option is found in its place exactly when the options in front of it are such that the
      walk steps over each of them. */
  lemma FoundInPlaceExactlyWhen(before: seq<byte>, ip: seq<byte>, lvsMethod: byte, padding: seq<byte>)
    requires |ip| in {4, 16}
    ensures var rest := Constructed(ip, lvsMethod) + padding;
            Find(before + rest, 0) == Some(|before|) <==> exists options: seq<seq<byte>> :: Flat(options) == before && Passes(options, rest)
  {
    var rest := Constructed(ip, lvsMethod) + padding;
    var all := before + rest;
    hide Find, Constructed, Flat, Passes;
    assert all[..|before|] == before && all[|before|..] == rest && all[0..] == all;
    if Find(all, 0) == Some(|before|) {
      var options := SteppedOver(all, 0, |before|);
      assert Flat(options) == before;
    } else if options: seq<seq<byte>> :| Flat(options) == before && Passes(options, rest) {
      FindInserted(all, options, ip, lvsMethod, padding);
    }
  }

  /** A header that may have any version and length byte, total length and checksum. */
  predicate SameFields(a: seq<byte>, b: seq<byte>) {
    |a| == HEADER == |b| && forall k :: 1 <= k < HEADER && k !in {2, 3, 10, 11} ==> a[k] == b[k]
  }

  /** A packet without options whose header is what the handler would write. */
  predicate Canonical(packet: seq<byte>) {
    |packet| >= HEADER && packet[..HEADER] == PlainHeader(packet[..HEADER], |packet|)
  }

  /** Stripping undoes inserting. From a canonical packet, however the header's length, total length
      and checksum bytes were adjusted when options were inserted, if these are options the walk steps
      over, the constructed option and any padding, the handler returns the address, the method and the
      packet itself. */
  lemma StripUndoesInsert(packet: seq<byte>, header: seq<byte>, options: seq<seq<byte>>, ip: seq<byte>, lvsMethod: byte, padding: seq<byte>)
    requires Canonical(packet) && |ip| in {4, 16}
    requires Passes(options, Constructed(ip, lvsMethod) + padding)
    requires SameFields(header, packet[..HEADER])
    requires HeaderLen(header) == HEADER + |Flat(options)| + |ip| + 3 + |padding|
    ensures var inserted := header + Flat(options) + Constructed(ip, lvsMethod) + padding + packet[HEADER..];
            Handled(inserted) == Some(Message(ip, lvsMethod, packet))
  {
    hide Find, Flat, Constructed, Passes, PlainHeader, Stripped, Handled;
    var all := Flat(options) + (Constructed(ip, lvsMethod) + padding);
    var data := packet[HEADER..];
    var inserted := header + Flat(options) + Constructed(ip, lvsMethod) + padding + data;
    assert HeaderLen(header) == HEADER + |all| && |header| == HEADER == |packet[..HEADER]|;
    Regroup(header, Flat(options), Constructed(ip, lvsMethod), padding, data);
    FindInserted(all, options, ip, lvsMethod, padding);
    PlainHeaderForgets(header, packet[..HEADER], |packet|);
    HandledOf(inserted, header, all, data);
    assert packet == packet[..HEADER] + data;
    TakesFound(inserted, all, |Flat(options)|);
  }

  lemma Regroup(a: seq<byte>, b: seq<byte>, c: seq<byte>, d: seq<byte>, e: seq<byte>)
    ensures a + b + c + d + e == a + ((b + (c + d)) + e)
  {
  }

  /** The handler's parts of a packet with this header, options and data. */
  lemma HandledOf(packet: seq<byte>, header: seq<byte>, options: seq<byte>, data: seq<byte>)
    requires |header| == HEADER && packet == header + (options + data) && HeaderLen(header) == HEADER + |options|
    ensures HeaderLen(packet) == HEADER + |options| <= |packet|
    ensures packet[HEADER..HeaderLen(packet)] == options
    ensures Stripped(packet) == PlainHeader(header, HEADER + |data|) + data
  {
    assert packet[0] == header[0];
    assert packet[..HEADER] == header && packet[HeaderLen(packet)..] == data;
  }

  lemma FindInserted(all: seq<byte>, options: seq<seq<byte>>, ip: seq<byte>, lvsMethod: byte, padding: seq<byte>)
    requires |ip| in {4, 16} && Passes(options, Constructed(ip, lvsMethod) + padding)
    requires all == Flat(options) + (Constructed(ip, lvsMethod) + padding)
    ensures var i := |Flat(options)|;
            && i + |ip| + 2 < |all| && Find(all, 0) == Some(i) && all[i + 1] as int == |ip| + 3
            && all[i + 2..i + |ip| + 2] == ip && all[i + |ip| + 2] == lvsMethod
  {
    var option, i := Constructed(ip, lvsMethod), |Flat(options)|;
    assert all[0..] == all;
    FindSkips(all, 0, options, option + padding);
    assert all[i..] == option + padding;
    hide Flat, Passes;
    OptionAt(all, i, ip, lvsMethod, padding);
  }

  /** A constructed option is found where it starts. */
  lemma OptionAt(all: seq<byte>, i: nat, ip: seq<byte>, lvsMethod: byte, padding: seq<byte>)
    requires |ip| in {4, 16} && i <= |all| && all[i..] == Constructed(ip, lvsMethod) + padding
    ensures i + |ip| + 2 < |all| && Find(all, i) == Some(i) && all[i + 1] as int == |ip| + 3
    ensures all[i + 2..i + |ip| + 2] == ip && all[i + |ip| + 2] == lvsMethod
  {
    var tail := all[i..];
    assert tail[0] == EXPERIMENT && tail[1] as int == |ip| + 3 && tail[|ip| + 2] == lvsMethod;
    assert tail[2..|ip| + 2] == ip;
    assert all[i + 2..i + |ip| + 2] == tail[2..|ip| + 2];
    assert all[i] == tail[0] && all[i + 1] == tail[1] && all[i + |ip| + 2] == tail[|ip| + 2];
  }

  lemma PlainHeaderForgets(a: seq<byte>, b: seq<byte>, total: nat)
    requires SameFields(a, b)
    ensures PlainHeader(a, total) == PlainHeader(b, total)
  {
    var t := total % 0x10000;
    assert Put(Put(a[0 := 0x45], 2, t), 10, 0) == Put(Put(b[0 := 0x45], 2, t), 10, 0);
  }

  /** A one-octet option (section 3.1 of RFC 791) in front of the constructed one takes that option's type
      for its own length: behind it, the constructed option is not found in its place, whatever follows. */
  lemma OneOctetOptionHides(options: seq<seq<byte>>, octet: byte, ip: seq<byte>, lvsMethod: byte, padding: seq<byte>)
    requires forall o <- options :: Ordinary(o)
    ensures var all := Flat(options) + ([octet] + (Constructed(ip, lvsMethod) + padding));
            var found := Find(all, 0);
            found.Some? ==> found.value >= |Flat(options)| + EXPERIMENT as int
  {
    var tail := [octet] + (Constructed(ip, lvsMethod) + padding);
    var all, i := Flat(options) + tail, |Flat(options)|;
    assert tail[1] == EXPERIMENT;
    hide Find, Constructed, Flat, Passes, Ordinary;
    assert all[0..] == all && all[i..] == tail;
    OrdinaryOptionsPass(options, tail);
    FindSkips(all, 0, options, tail);
    OctetFirst(all, i, tail);
  }

  lemma OctetFirst(all: seq<byte>, i: nat, tail: seq<byte>)
    requires i <= |all| && all[i..] == tail && |tail| >= 2 && tail[1] == EXPERIMENT
    ensures var found := Find(all, i);
            found.Some? ==> found.value >= i + EXPERIMENT as int
  {
    assert all[i + 1] == tail[1];
  }

  /** When fewer octets than that are left, there is no message at all. */
  lemma OneOctetOptionLosesTheMessage(header: seq<byte>, options: seq<seq<byte>>, octet: byte, ip: seq<byte>, lvsMethod: byte, padding: seq<byte>, data: seq<byte>)
    requires |header| == HEADER
    requires forall o <- options :: Ordinary(o)
    requires HeaderLen(header) == HEADER + |Flat(options)| + 1 + |ip| + 3 + |padding|
    requires 1 + |ip| + 3 + |padding| <= EXPERIMENT as int + 1
    ensures Handled(header + (Flat(options) + ([octet] + (Constructed(ip, lvsMethod) + padding)) + data)) == None
  {
    var all := Flat(options) + ([octet] + (Constructed(ip, lvsMethod) + padding));
    OneOctetOptionHides(options, octet, ip, lvsMethod, padding);
    assert HeaderLen(header) == HEADER + |all|;
    hide Find, Flat, Constructed, Ordinary;
    HandledOf(header + (all + data), header, all, data);
  }
}

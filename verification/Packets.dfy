/** What both check-tunnel handlers share (pkg/checktun/check_tun.go). */
module Packets {
  import opened Common

  const EXPERIMENT: byte := 30 // option type, RFC 4727

  /** What a handler extracts: the address and method of the option, and the packet without it. */
  datatype Message = Message(ip: seq<byte>, lvsMethod: byte, packet: seq<byte>)

  /** Copies `n` bytes within an array, as if through a temporary when the ranges overlap. The source
      of every copy here lies behind its destination. */
  method CopyDown(a: array<byte>, to: nat, from: nat, n: nat)
    requires to <= from && from + n <= a.Length
    modifies a
    ensures a[..] == old(a[..])[..to] + old(a[..])[from..from + n] + old(a[..])[to + n..]
  {
    ghost var before := a[..];
    for k := 0 to n
      invariant forall j :: 0 <= j < to || to + k <= j < a.Length ==> a[j] == before[j]
      invariant forall j :: to <= j < to + k ==> a[j] == before[j - to + from]
    {
      a[to + k] := a[from + k];
    }
    Assembled(before, a[..], to, from, n);
  }

  lemma Assembled(before: seq<byte>, after: seq<byte>, to: nat, from: nat, n: nat)
    requires to <= from && from + n <= |before| == |after|
    requires forall j :: 0 <= j < to || to + n <= j < |after| ==> after[j] == before[j]
    requires forall j :: to <= j < to + n ==> after[j] == before[j - to + from]
    ensures after == before[..to] + before[from..from + n] + before[to + n..]
  {
  }
}

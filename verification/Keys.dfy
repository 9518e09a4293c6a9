/** Keys that identify services, reals and host prefixes (internal/types/key/keys.go). */
module Keys {

  /** An IP address: its numeric value and its family. */
  datatype Addr = Addr(value: nat, v6: bool)

  datatype Prefix = Prefix(addr: Addr, bits: nat)

  datatype Service = Service(addr: Addr, port: nat, proto: string) {
    /** The host prefix of the service's virtual address. */
    function HostPrefix(): Prefix {
      Prefix(addr, if addr.v6 then 128 else 32)
    }
  }

  /** All bits of the address: one prefix per address. */
  lemma OnePrefixPerAddress(s: Service, t: Service)
    ensures s.HostPrefix().addr == s.addr && s.HostPrefix().bits == (if s.addr.v6 then 128 else 32)
    ensures s.HostPrefix() == t.HostPrefix() <==> s.addr == t.addr
  {
  }

  datatype Real = Real(addr: Addr, port: nat)

  datatype Balancer = Balancer(serviceKey: Service, realKey: Real)
}

/** Resource records, as far as the proxy tells them apart. */
module Records {
  import opened Octets

  datatype RR =
    | A(owner: string, ttl: uint32, v4: Octets4)
    | Aaaa(owner: string, ttl: uint32, v6: Octets16)
    | Soa(owner: string, ttl: uint32)
    | Other(owner: string, ttl: uint32, text: string)

  function WithTtl(r: RR, ttl: uint32): (s: RR)
    ensures s.ttl == ttl && s.owner == r.owner
  {
    match r
    case A(owner, _, v4) => A(owner, ttl, v4)
    case Aaaa(owner, _, v6) => Aaaa(owner, ttl, v6)
    case Soa(owner, _) => Soa(owner, ttl)
    case Other(owner, _, text) => Other(owner, ttl, text)
  }
}

/** Network addresses as the program holds them: an IPv4 address never hides in IPv6 form. */
module NetAddress {
  import opened Bytes

  /** An IP address in either of its two sizes. */
  type IP = b: bytes | |b| == 4 || |b| == 16 witness Zeros(4)

  datatype Address = NoAddress | IPv4(ip: bytes) | IPv6(ip: bytes) | Domain(name: bytes)

  /** What the address types guarantee by themselves. */
  predicate Sized(a: Address) {
    (a.IPv4? ==> |a.ip| == 4) && (a.IPv6? ==> |a.ip| == 16)
  }

  predicate IsIP(a: Address) {
    a.IPv4? || a.IPv6?
  }

  /** An IPv4 address in IPv6 form. */
  predicate Mapped(ip: bytes)
    requires |ip| == 16
  {
    ip[..10] == Zeros(10) && ip[10] == 255 && ip[11] == 255
  }

  function IPAddress(ip: IP): (a: Address)
    ensures Sized(a) && IsIP(a)
  {
    if |ip| == 4 then IPv4(ip) else if Mapped(ip) then IPv4(ip[12..]) else IPv6(ip)
  }
}

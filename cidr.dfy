/**
 * The part of Go's `net` package that the plugin relies on: a parsed CIDR block
 * and the containment test `IPNet.Contains`. Parsing text into these values is
 * done by the standard library and is passed to the model as a function.
 */
module Cidr {

  type Byte = bv8

  /** An IP address as its bytes: 4 for IPv4, 16 for IPv6. */
  type Address = seq<Byte>

  /** A CIDR block: the network's address bytes and its prefix length in bits. */
  datatype Network = Network(addr: Address, prefixLen: nat)

  /** Bit `i` of an address, counting from the most significant bit of the first byte. */
  function Bit(a: Address, i: nat): bool
    requires i < 8 * |a|
  {
    (a[i / 8] >> (7 - i % 8)) & 1 == 1
  }

  /**
   * `n` contains `ip` when both belong to the same address family and their
   * first `n.prefixLen` bits agree.
   */
  predicate Contains(n: Network, ip: Address)
  {
    && |ip| == |n.addr|
    && n.prefixLen <= 8 * |ip|
    && forall i :: 0 <= i < n.prefixLen ==> Bit(ip, i) == Bit(n.addr, i)
  }

  /** A block whose prefix covers only bytes that `ip` shares with the network contains `ip`. */
  lemma ContainsBySharedBytes(n: Network, ip: Address, k: nat)
    requires |ip| == |n.addr| && k <= |ip|
    requires n.prefixLen <= 8 * k
    requires ip[..k] == n.addr[..k]
    ensures Contains(n, ip)
  {
  }

  /** A block does not contain an address whose first bit differs from the network's. */
  lemma FirstBitExcludes(n: Network, ip: Address)
    requires |ip| == |n.addr| > 0 && n.prefixLen > 0
    requires (ip[0] >> 7) != (n.addr[0] >> 7)
    ensures !Contains(n, ip)
  {
    assert Bit(ip, 0) != Bit(n.addr, 0);
  }
}

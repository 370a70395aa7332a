/** The broadcast address set_ip_address derives from an IPv4 address and a
    prefix length, on 32-bit words. */
module Netmask {

  /** Bit `i` of a 32-bit word. */
  predicate Bit(w: bv32, i: bv32)
  {
    i < 32 && (w >> i) & 1 == 1
  }

  /** The word whose low `k` bits are set. */
  function Ones(k: bv32): bv32
    requires k <= 32
  {
    if k == 32 then 0xFFFF_FFFF else (1 << k) - 1
  }

  /** The number of host bits the loop of set_ip_address sets: 32 - netmask,
      and none when the prefix is 32 bits or longer. */
  function HostBits(netmask: nat): (k: bv32)
    ensures k <= 32
    ensures netmask < 32 ==> 1 <= k
  {
    if netmask >= 32 then 0 else (32 - netmask) as bv32
  }

  function Broadcast(ip: bv32, netmask: nat): bv32
  {
    ip | Ones(HostBits(netmask))
  }

  lemma OnesBits(k: bv32, i: bv32)
    requires k <= 32 && i < 32
    ensures Bit(Ones(k), i) <==> i < k
  {
  }

  lemma BitOr(a: bv32, b: bv32, i: bv32)
    ensures Bit(a | b, i) <==> Bit(a, i) || Bit(b, i)
  {
  }

  /** The broadcast address is `ip` with its low 32 - netmask bits set and
      its top netmask bits unchanged. */
  lemma BroadcastBits(ip: bv32, netmask: nat, i: bv32)
    requires i < 32
    ensures Bit(Broadcast(ip, netmask), i) <==> i < HostBits(netmask) || Bit(ip, i)
  {
    OnesBits(HostBits(netmask), i);
    BitOr(ip, Ones(HostBits(netmask)), i);
  }

  /** A /32 address is its own broadcast address. */
  lemma BroadcastOfHost(ip: bv32)
    ensures Broadcast(ip, 32) == ip
  {
  }

  /** One iteration of the loop: setting bit b - 1 extends the set bits
      [b, k) down to [b - 1, k). */
  lemma NextBit(ip: bv32, k: bv32, b: bv32)
    requires 0 < b <= k <= 32
    ensures (ip | (Ones(k) & !Ones(b))) | (1 << (b - 1)) == ip | (Ones(k) & !Ones(b - 1))
  {
  }

  /** The loop of set_ip_address, which ORs in 1 << b for b from
      32 - netmask - 1 down to 0. Here `b` is one more than the C loop
      variable, so that it stays unsigned; the same bits are set in the
      same order. */
  method ComputeBroadcast(ip: bv32, netmask: int) returns (broadcast: bv32)
    requires 0 <= netmask
    ensures broadcast == Broadcast(ip, netmask)
  {
    broadcast := ip;
    var k := HostBits(netmask);
    var b: bv32 := k;
    while b > 0
      invariant b <= k <= 32
      invariant broadcast == ip | (Ones(k) & !Ones(b))
      decreases b
    {
      NextBit(ip, k, b);
      b := b - 1;
      broadcast := broadcast | (1 << b);
    }
  }
}

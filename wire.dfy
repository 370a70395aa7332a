/** The byte-level layout shared by every rtnetlink message: bytes, the
    4-byte alignment rule (NLMSG_ALIGN / RTA_ALIGN), host-order integer
    fields, the fixed headers and bodies, and the protocol constants.

    Control fields (lengths, types, flags, interface indices) are stored in
    host byte order; this model fixes the host as little-endian. Addresses
    passed through htonl are stored big-endian on every host. */
module Wire {

  newtype byte = x: int | 0 <= x < 256

  type Bytes = seq<byte>

  const U16Limit: int := 0x1_0000
  const U32Limit: int := 0x1_0000_0000

  type U16 = x: int | 0 <= x < 0x1_0000
  type U32 = x: int | 0 <= x < 0x1_0000_0000

  datatype Option<T> = None | Some(value: T)

  /** A C `int`. */
  type I32 = x: int | -0x8000_0000 <= x < 0x8000_0000

  /** What a read of memory yields: a value, or an access outside the bytes
      the program owns (past the received datagram, past a fixed field). */
  datatype Behaviour<T> = Defined(value: T) | Overrun

  // Sizes of the fixed records (sizeof in the C headers).
  const HeaderLen: nat := 16      // struct nlmsghdr
  const AttrHeaderLen: nat := 4   // struct rtattr
  const IfInfoLen: nat := 16      // struct ifinfomsg
  const IfAddrLen: nat := 8       // struct ifaddrmsg
  const NdLen: nat := 12          // struct ndmsg

  // Message types and header flags.
  const NlmsgDone: U16 := 3
  const RtmNewLink: U16 := 16
  const RtmGetLink: U16 := 18
  const RtmNewAddr: U16 := 20
  const RtmNewNeigh: U16 := 28
  const RtmGetNeigh: U16 := 30
  const FlagRequest: U16 := 0x1
  const FlagRoot: U16 := 0x100
  const FlagExcl: U16 := 0x200
  const FlagCreate: U16 := 0x400
  const FlagDump: U16 := 0x300

  // Attribute types.
  const IflaIfname: U16 := 3
  const IflaMaster: U16 := 10
  const IflaLinkInfo: U16 := 18
  const IflaInfoKind: U16 := 1
  const IfaAddress: U16 := 1
  const IfaLocal: U16 := 2
  const IfaBroadcast: U16 := 4
  const NdaLladdr: U16 := 2

  // Address families and interface flags.
  const AfInet: byte := 2
  const AfBridge: byte := 7
  const AfPacket: byte := 17
  const IffUp: U32 := 1

  /** NLMSG_ALIGN and RTA_ALIGN, `(x + 3) & ~3`: round up to the next multiple of 4. */
  function Align(x: nat): (r: nat)
    ensures r % 4 == 0
    ensures x <= r < x + 4
  {
    (x + 3) / 4 * 4
  }

  lemma AlignIdempotent(x: nat)
    requires x % 4 == 0
    ensures Align(x) == x
  {
  }

  /** Aligning never passes a multiple of 4 at or above the value. */
  lemma AlignBelow(x: nat, m: nat)
    requires x <= m && m % 4 == 0
    ensures Align(x) <= m
  {
  }

  lemma AlignedSum(x: nat, y: nat)
    requires x % 4 == 0 && y % 4 == 0
    ensures (x + y) % 4 == 0
  {
  }

  lemma SmallMod(x: nat, m: nat)
    requires x < m
    ensures x % m == x
  {
  }

  function Zeros(n: nat): (r: Bytes)
    ensures |r| == n
  {
    seq(n, _ => 0)
  }

  /** `s` with the bytes from offset `i` on replaced by `w`, as a store into memory. */
  function Overwrite(s: Bytes, i: nat, w: Bytes): (r: Bytes)
    requires i + |w| <= |s|
    ensures |r| == |s|
  {
    seq(|s|, j requires 0 <= j < |s| => if i <= j < i + |w| then w[j - i] else s[j])
  }

  /** Every byte after a store: from `w` inside the stored range, from `s` outside it. */
  lemma OverwriteAt(s: Bytes, i: nat, w: Bytes)
    requires i + |w| <= |s|
    ensures forall j :: 0 <= j < |s| ==> Overwrite(s, i, w)[j] == if i <= j < i + |w| then w[j - i] else s[j]
  {
  }

  /** The bytes and fields of `w` where it sits inside `m`. */
  lemma Within(m: Bytes, a: nat, w: Bytes)
    requires a + |w| <= |m| && m[a..a + |w|] == w
    ensures forall i :: 0 <= i < |w| ==> m[a + i] == w[i]
    ensures forall i :: 0 <= i && i + 2 <= |w| ==> U16At(m, a + i) == U16At(w, i)
    ensures forall i :: 0 <= i && i + 4 <= |w| ==> U32At(m, a + i) == U32At(w, i)
  {
    forall i | 0 <= i < |w|
      ensures m[a + i] == w[i]
    {
      assert m[a..a + |w|][i] == m[a + i];
    }
  }

  /** The middle part of a concatenation sits at the length of the first part. */
  lemma SliceAt(a: Bytes, b: Bytes, c: Bytes)
    ensures (a + b + c)[|a|..|a| + |b|] == b
  {
  }

  /** A slice of a slice is a slice of the whole. */
  lemma SliceOfSlice(m: Bytes, a: nat, b: nat, c: nat, d: nat)
    requires a <= b <= |m| && c <= d <= b - a
    ensures m[a..b][c..d] == m[a + c..a + d]
  {
    forall k | 0 <= k < d - c
      ensures m[a..b][c..d][k] == m[a + c..a + d][k]
    {
      assert m[a..b][c..d][k] == m[a..b][c + k] == m[a + c + k];
    }
  }

  /** A 16-bit field in host (little-endian) order. */
  function LE16(v: U16): (r: Bytes)
    ensures |r| == 2
  {
    [(v % 256) as byte, (v / 256) as byte]
  }

  /** A 32-bit field in host (little-endian) order. */
  function LE32(v: U32): (r: Bytes)
    ensures |r| == 4
  {
    LE16(v % U16Limit) + LE16(v / U16Limit)
  }

  /** A 32-bit value in network (big-endian) order, as htonl leaves it in memory. */
  function BE32(v: U32): (r: Bytes)
    ensures |r| == 4
  {
    [(v / 0x100_0000) as byte, (v / 0x1_0000 % 256) as byte, (v / 256 % 256) as byte, (v % 256) as byte]
  }

  function U16At(s: Bytes, i: nat): (v: U16)
    requires i + 2 <= |s|
  {
    s[i] as int + 256 * s[i + 1] as int
  }

  function U32At(s: Bytes, i: nat): (v: U32)
    requires i + 4 <= |s|
  {
    U16At(s, i) + U16Limit * U16At(s, i + 2)
  }

  lemma U16RoundTrip(v: U16, s: Bytes, i: nat)
    requires i + 2 <= |s| && s[i..i + 2] == LE16(v)
    ensures U16At(s, i) == v
  {
    assert s[i] == s[i..i + 2][0] && s[i + 1] == s[i..i + 2][1];
    assert LE16(v)[0] as int + 256 * LE16(v)[1] as int == v;
  }

  lemma U32RoundTrip(v: U32, s: Bytes, i: nat)
    requires i + 4 <= |s| && s[i..i + 4] == LE32(v)
    ensures U32At(s, i) == v
  {
    assert LE32(v)[..2] == LE16(v % U16Limit) && LE32(v)[2..] == LE16(v / U16Limit);
    assert s[i..i + 2] == s[i..i + 4][..2];
    assert s[i + 2..i + 4] == s[i..i + 4][2..];
    U16RoundTrip(v % U16Limit, s, i);
    U16RoundTrip(v / U16Limit, s, i + 2);
  }

  /** A C `int` stored into a 32-bit field (two's complement). */
  function ToU32(x: int): (r: U32)
    ensures r % U32Limit == x % U32Limit
  {
    x % U32Limit
  }

  /** A 32-bit field read back as a C `int`. */
  function ToI32(u: U32): (x: int)
    ensures -0x8000_0000 <= x < 0x8000_0000
    ensures x % U32Limit == u
  {
    if u < 0x8000_0000 then u else u - U32Limit
  }

  /** Storing a C `int` and reading it back gives the same `int`. */
  lemma IntFieldRoundTrip(x: int)
    requires -0x8000_0000 <= x < 0x8000_0000
    ensures ToI32(ToU32(x)) == x
  {
  }

  /** struct nlmsghdr: length, type, flags, sequence number, port id. */
  function Header(len: U32, mtype: U16, flags: U16, seqNo: U32, pid: U32): (r: Bytes)
    ensures |r| == HeaderLen
  {
    LE32(len) + LE16(mtype) + LE16(flags) + LE32(seqNo) + LE32(pid)
  }

  /** Every header field reads back at its offset. */
  lemma HeaderFields(len: U32, mtype: U16, flags: U16, seqNo: U32, pid: U32)
    ensures var r := Header(len, mtype, flags, seqNo, pid);
      U32At(r, 0) == len && U16At(r, 4) == mtype && U16At(r, 6) == flags
      && U32At(r, 8) == seqNo && U32At(r, 12) == pid
  {
    var r := Header(len, mtype, flags, seqNo, pid);
    U32RoundTrip(len, r, 0);
    U16RoundTrip(mtype, r, 4);
    U16RoundTrip(flags, r, 6);
    U32RoundTrip(seqNo, r, 8);
    U32RoundTrip(pid, r, 12);
  }

  /** The header's first four bytes are nlmsg_len; the other twelve do not depend on it. */
  lemma HeaderLengthField(len: U32, len': U32, mtype: U16, flags: U16, seqNo: U32, pid: U32)
    ensures Header(len, mtype, flags, seqNo, pid)[..4] == LE32(len)
    ensures Header(len, mtype, flags, seqNo, pid)[4..] == Header(len', mtype, flags, seqNo, pid)[4..]
  {
    var rest := LE16(mtype) + LE16(flags) + LE32(seqNo) + LE32(pid);
    assert Header(len, mtype, flags, seqNo, pid) == LE32(len) + rest;
    assert Header(len', mtype, flags, seqNo, pid) == LE32(len') + rest;
  }

  /** struct ifinfomsg: family, pad, device type, index, flags, change mask. */
  function IfInfo(family: byte, index: U32, flags: U32, change: U32): (r: Bytes)
    ensures |r| == IfInfoLen
  {
    [family, 0] + LE16(0) + LE32(index) + LE32(flags) + LE32(change)
  }

  /** Every ifinfomsg field reads back at its offset; the device type is 0. */
  lemma IfInfoFields(family: byte, index: U32, flags: U32, change: U32)
    ensures var r := IfInfo(family, index, flags, change);
      r[0] == family && U16At(r, 2) == 0 && U32At(r, 4) == index
      && U32At(r, 8) == flags && U32At(r, 12) == change
  {
    var r := IfInfo(family, index, flags, change);
    var p := [family, 0] + LE16(0);
    SliceAt([family, 0], LE16(0), LE32(index) + LE32(flags) + LE32(change));
    SliceAt(p, LE32(index), LE32(flags) + LE32(change));
    SliceAt(p + LE32(index), LE32(flags), LE32(change));
    SliceAt(p + LE32(index) + LE32(flags), LE32(change), []);
    assert [family, 0] + LE16(0) + (LE32(index) + LE32(flags) + LE32(change)) == r;
    assert p + LE32(index) + (LE32(flags) + LE32(change)) == r;
    assert p + LE32(index) + LE32(flags) + LE32(change) + [] == r;
    U16RoundTrip(0, r, 2);
    U32RoundTrip(index, r, 4);
    U32RoundTrip(flags, r, 8);
    U32RoundTrip(change, r, 12);
  }

  /** struct ifaddrmsg: family, prefix length, flags, scope, index. */
  function IfAddr(family: byte, prefixLen: byte, index: U32): (r: Bytes)
    ensures |r| == IfAddrLen
  {
    [family, prefixLen, 0, 0] + LE32(index)
  }

  /** Every ifaddrmsg field reads back at its offset; flags and scope are 0. */
  lemma IfAddrFields(family: byte, prefixLen: byte, index: U32)
    ensures var r := IfAddr(family, prefixLen, index);
      r[0] == family && r[1] == prefixLen && r[2] == 0 && r[3] == 0 && U32At(r, 4) == index
  {
    U32RoundTrip(index, IfAddr(family, prefixLen, index), 4);
  }

  /** struct ndmsg: family, two pad fields, interface index, state, flags, type. */
  function NdMsg(family: byte, ifindex: U32, state: U16, flags: byte, ntype: byte): (r: Bytes)
    ensures |r| == NdLen
  {
    [family, 0] + LE16(0) + LE32(ifindex) + LE16(state) + [flags, ntype]
  }

  /** ndm_ifindex reads back four bytes into the ndmsg. */
  lemma NdMsgIndex(family: byte, ifindex: U32, state: U16, flags: byte, ntype: byte)
    ensures U32At(NdMsg(family, ifindex, state, flags, ntype), 4) == ifindex
  {
    var r := NdMsg(family, ifindex, state, flags, ntype);
    assert r[4..8] == LE32(ifindex);
    U32RoundTrip(ifindex, r, 4);
  }
}

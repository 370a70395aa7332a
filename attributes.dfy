/** The attribute codec: one type-length-value record (struct rtattr) with
    its 4-byte alignment, the encoder used by the request builders, the
    walk (RTA_OK / RTA_NEXT) used by the dump parsers, and add_netlink_msg,
    which appends an attribute to a message held in a byte buffer. */
module Attributes {
  import opened Wire

  /** An attribute as a builder supplies it: a type and a raw payload. */
  datatype Attribute = Attribute(rtype: U16, payload: Bytes)

  /** An attribute accepted by the walk over received bytes: the offset of
      its header, its rta_len (header plus payload, unaligned) and its rta_type. */
  datatype Rta = Rta(at: nat, len: nat, rtype: U16)

  /** The rta_len field is 16 bits wide. */
  predicate Encodable(a: Attribute)
  {
    AttrHeaderLen + |a.payload| < U16Limit
  }

  /** The bytes of one attribute: header, payload, zero padding up to the
      next 4-byte boundary. */
  function EncodeAttr(a: Attribute): (r: Bytes)
    requires Encodable(a)
    ensures |r| == Align(AttrHeaderLen + |a.payload|)
  {
    var n := AttrHeaderLen + |a.payload|;
    LE16(n) + LE16(a.rtype) + a.payload + Zeros(Align(n) - n)
  }

  /** The header of an encoded attribute reads back as rta_len = 4 + payload
      length and rta_type, and the payload follows it. */
  lemma EncodeAttrFields(a: Attribute)
    requires Encodable(a)
    ensures U16At(EncodeAttr(a), 0) == AttrHeaderLen + |a.payload| && U16At(EncodeAttr(a), 2) == a.rtype
    ensures EncodeAttr(a)[AttrHeaderLen..AttrHeaderLen + |a.payload|] == a.payload
  {
    var n := AttrHeaderLen + |a.payload|;
    var r := EncodeAttr(a);
    U16RoundTrip(n, r, 0);
    U16RoundTrip(a.rtype, r, 2);
  }

  predicate AllEncodable(attrs: seq<Attribute>)
  {
    forall i :: 0 <= i < |attrs| ==> Encodable(attrs[i])
  }

  /** A list of attributes, each starting at the aligned end of the previous one. */
  function EncodeAll(attrs: seq<Attribute>): Bytes
    requires AllEncodable(attrs)
  {
    if attrs == [] then [] else EncodeAttr(attrs[0]) + EncodeAll(attrs[1..])
  }

  /** The sum of RTA_ALIGN(RTA_LENGTH(payload length)) over a list of attributes. */
  function AlignedSizes(attrs: seq<Attribute>): nat
  {
    if attrs == [] then 0 else Align(AttrHeaderLen + |attrs[0].payload|) + AlignedSizes(attrs[1..])
  }

  lemma {:induction false} EncodeAllLength(attrs: seq<Attribute>)
    requires AllEncodable(attrs)
    ensures |EncodeAll(attrs)| == AlignedSizes(attrs)
    ensures |EncodeAll(attrs)| % 4 == 0
  {
    if attrs != [] {
      EncodeAllLength(attrs[1..]);
      AlignedSum(|EncodeAttr(attrs[0])|, |EncodeAll(attrs[1..])|);
    }
  }

  /** Encoding two lists one after the other encodes their concatenation. */
  lemma {:induction false} EncodeAllAppend(xs: seq<Attribute>, ys: seq<Attribute>)
    requires AllEncodable(xs) && AllEncodable(ys)
    ensures AllEncodable(xs + ys)
    ensures EncodeAll(xs + ys) == EncodeAll(xs) + EncodeAll(ys)
    decreases |xs|
  {
    assert forall i :: 0 <= i < |xs + ys| ==> (xs + ys)[i] == if i < |xs| then xs[i] else ys[i - |xs|];
    if xs == [] {
      assert xs + ys == ys;
    } else {
      assert (xs + ys)[1..] == xs[1..] + ys;
      EncodeAllAppend(xs[1..], ys);
    }
  }

  /** The walk over the attributes of a received message, starting at offset
      `a` with budget `l`: RTA_OK accepts an attribute when the budget is at
      least a header and 4 <= rta_len <= budget; RTA_NEXT moves on by
      RTA_ALIGN(rta_len) and takes the same amount off the budget. Reading a
      header field that lies past the received bytes is an overrun. */
  function AttrsFrom(d: Bytes, a: nat, l: int): Behaviour<seq<Rta>>
    decreases l
  {
    if l < AttrHeaderLen then Defined([])
    else if a + 2 > |d| then Overrun
    else
      var len := U16At(d, a);
      if len < AttrHeaderLen || len > l then Defined([])
      else if a + 4 > |d| then Overrun
      else
        match AttrsFrom(d, a + Align(len), l - Align(len))
        case Overrun => Overrun
        case Defined(rest) => Defined([Rta(a, len, U16At(d, a + 2))] + rest)
  }

  /** Every attribute the walk accepts lies inside the window [a, a + l),
      carries at least a header, and the next one starts at its aligned end. */
  ghost predicate InWindow(rs: seq<Rta>, a: nat, l: int)
  {
    && (forall i :: 0 <= i < |rs| ==> a <= rs[i].at && rs[i].at + rs[i].len <= a + l && AttrHeaderLen <= rs[i].len)
    && (forall i, j :: 0 <= i < j < |rs| && j == i + 1 ==> rs[j].at == rs[i].at + Align(rs[i].len))
    && (rs != [] ==> rs[0].at == a)
  }

  lemma {:induction false} AttrsStayInWindow(d: Bytes, a: nat, l: int)
    ensures AttrsFrom(d, a, l).Defined? ==> InWindow(AttrsFrom(d, a, l).value, a, l)
    ensures AttrsFrom(d, a, l).Defined? ==> 4 * |AttrsFrom(d, a, l).value| <= if l < 0 then 0 else l
    decreases l
  {
    if l >= AttrHeaderLen && a + 4 <= |d| {
      var len := U16At(d, a);
      if AttrHeaderLen <= len <= l {
        AttrsStayInWindow(d, a + Align(len), l - Align(len));
      }
    }
  }

  /** A walk whose window lies inside the received bytes never overruns. */
  lemma {:induction false} AttrsInsideDefined(d: Bytes, a: nat, l: int)
    requires a + l <= |d|
    ensures AttrsFrom(d, a, l).Defined?
    decreases l
  {
    if l >= AttrHeaderLen {
      var len := U16At(d, a);
      if AttrHeaderLen <= len <= l {
        AttrsInsideDefined(d, a + Align(len), l - Align(len));
      }
    }
  }

  /** Each accepted attribute lies inside the received bytes. */
  predicate InBytes(d: Bytes, rs: seq<Rta>)
  {
    forall i :: 0 <= i < |rs| ==> AttrHeaderLen <= rs[i].len && rs[i].at + rs[i].len <= |d|
  }

  /** The type and payload bytes of each accepted attribute (RTA_DATA, RTA_PAYLOAD). */
  function Decoded(d: Bytes, rs: seq<Rta>): (r: seq<Attribute>)
    requires InBytes(d, rs)
    ensures |r| == |rs|
  {
    seq(|rs|, i requires 0 <= i < |rs| => Attribute(rs[i].rtype, d[rs[i].at + AttrHeaderLen..rs[i].at + rs[i].len]))
  }

  /** `w` occurs in `d` at offset `a`. */
  predicate BytesAt(d: Bytes, a: nat, w: Bytes)
  {
    a + |w| <= |d| && forall i :: 0 <= i < |w| ==> d[a + i] == w[i]
  }

  /** Decoding what the encoder wrote gives back every type and payload,
      and consumes exactly the encoded bytes. */
  lemma {:induction false} DecodeEncoded(d: Bytes, a: nat, attrs: seq<Attribute>)
    requires AllEncodable(attrs)
    requires BytesAt(d, a, EncodeAll(attrs))
    ensures AttrsFrom(d, a, |EncodeAll(attrs)|).Defined?
    ensures InWindow(AttrsFrom(d, a, |EncodeAll(attrs)|).value, a, |EncodeAll(attrs)|)
    ensures Decoded(d, AttrsFrom(d, a, |EncodeAll(attrs)|).value) == attrs
    decreases |attrs|
  {
    var e := EncodeAll(attrs);
    AttrsStayInWindow(d, a, |e|);
    if attrs == [] {
      assert |e| == 0;
      assert AttrsFrom(d, a, 0) == Defined([]);
    } else {
      var first := EncodeAttr(attrs[0]);
      var rest := EncodeAll(attrs[1..]);
      assert e == first + rest;
      assert |e| == |first| + |rest|;
      SplitAt(d, a, first, rest);
      DecodeEncoded(d, a + |first|, attrs[1..]);
      var tail := AttrsFrom(d, a + |first|, |rest|).value;
      DecodeStep(d, a, attrs[0], attrs[1..], |rest|, tail, |e|);
      assert [attrs[0]] + attrs[1..] == attrs;
    }
  }

  /** One step of the round trip: an encoded attribute in front of an
      already decoded list. */
  lemma DecodeStep(d: Bytes, a: nat, x: Attribute, attrs: seq<Attribute>, restLen: nat, tail: seq<Rta>, l: nat)
    requires Encodable(x) && BytesAt(d, a, EncodeAttr(x))
    requires a + |EncodeAttr(x)| + restLen <= |d|
    requires AttrsFrom(d, a + |EncodeAttr(x)|, restLen) == Defined(tail)
    requires InWindow(tail, a + |EncodeAttr(x)|, restLen)
    requires InBytes(d, tail) ==> Decoded(d, tail) == attrs
    requires l == |EncodeAttr(x)| + restLen
    ensures AttrsFrom(d, a, l).Defined?
    ensures InBytes(d, AttrsFrom(d, a, l).value)
    ensures Decoded(d, AttrsFrom(d, a, l).value) == [x] + attrs
  {
    var first := EncodeAttr(x);
    var r := Rta(a, AttrHeaderLen + |x.payload|, x.rtype);
    assert l - |first| == restLen;
    AcceptEncoded(d, a, x, l, tail);
    InWindowInBytes(d, tail, a + |first|, restLen);
    InBytesCons(d, r, tail);
    DecodedCons(d, r, tail, x, attrs);
  }

  lemma SplitAt(d: Bytes, a: nat, first: Bytes, rest: Bytes)
    requires BytesAt(d, a, first + rest)
    ensures BytesAt(d, a, first) && BytesAt(d, a + |first|, rest)
  {
    assert forall i :: 0 <= i < |first| ==> (first + rest)[i] == first[i];
    assert forall i :: 0 <= i < |rest| ==> (first + rest)[|first| + i] == rest[i];
  }

  /** The walk accepts an encoded attribute it finds at `a`, reads its
      length, type and payload back and goes on after its aligned end. */
  lemma AcceptEncoded(d: Bytes, a: nat, x: Attribute, l: int, tail: seq<Rta>)
    requires Encodable(x) && BytesAt(d, a, EncodeAttr(x))
    requires |EncodeAttr(x)| <= l
    requires AttrsFrom(d, a + |EncodeAttr(x)|, l - |EncodeAttr(x)|) == Defined(tail)
    ensures d[a + AttrHeaderLen..a + AttrHeaderLen + |x.payload|] == x.payload
    ensures AttrsFrom(d, a, l) == Defined([Rta(a, AttrHeaderLen + |x.payload|, x.rtype)] + tail)
  {
    var first := EncodeAttr(x);
    var n := AttrHeaderLen + |x.payload|;
    EncodeAttrFields(x);
    assert d[a] == first[0] && d[a + 1] == first[1] && d[a + 2] == first[2] && d[a + 3] == first[3];
    assert U16At(d, a) == U16At(first, 0) == n;
    assert U16At(d, a + 2) == U16At(first, 2);
    assert Align(n) == |first|;
    assert d[a + AttrHeaderLen..a + n] == first[AttrHeaderLen..n];
  }

  lemma InWindowInBytes(d: Bytes, rs: seq<Rta>, a: nat, l: int)
    requires InWindow(rs, a, l) && a + l <= |d|
    ensures InBytes(d, rs)
  {
  }

  lemma InBytesCons(d: Bytes, r: Rta, tail: seq<Rta>)
    requires AttrHeaderLen <= r.len && r.at + r.len <= |d| && InBytes(d, tail)
    ensures InBytes(d, [r] + tail)
  {
    var rs := [r] + tail;
    forall i | 0 <= i < |rs|
      ensures AttrHeaderLen <= rs[i].len && rs[i].at + rs[i].len <= |d|
    {
      if i > 0 {
        assert rs[i] == tail[i - 1];
      }
    }
  }

  lemma DecodedCons(d: Bytes, r: Rta, tail: seq<Rta>, x: Attribute, rest: seq<Attribute>)
    requires AttrHeaderLen <= r.len && r.at + r.len <= |d|
    requires InBytes(d, [r] + tail) && InBytes(d, tail)
    requires Decoded(d, tail) == rest
    requires x == Attribute(r.rtype, d[r.at + AttrHeaderLen..r.at + r.len])
    ensures Decoded(d, [r] + tail) == [x] + rest
  {
    var rs := [r] + tail;
    forall i | 0 <= i < |rs|
      ensures Decoded(d, rs)[i] == ([x] + rest)[i]
    {
      if i > 0 {
        assert rs[i] == tail[i - 1];
      }
    }
  }

  /** Room for one more attribute in `s`, a message buffer whose first
      bytes are a header with at least its own size as nlmsg_len. */
  predicate HasRoom(s: Bytes, payloadLen: nat)
  {
    && HeaderLen <= |s| < U32Limit
    && HeaderLen <= U32At(s, 0)
    && Align(U32At(s, 0)) + Align(AttrHeaderLen + payloadLen) <= |s|
  }

  /** The buffer after add_netlink_msg: the attribute header (rta_len, which
      is 16 bits wide and truncated as in C, then rta_type) and the payload
      at the aligned end of the message, and nlmsg_len moved to the aligned
      end of the attribute. */
  function Appended(s: Bytes, rtype: U16, data: Bytes): Bytes
    requires HasRoom(s, |data|)
  {
    var at := Align(U32At(s, 0));
    var rtaLen := (AttrHeaderLen + |data|) % U16Limit;
    Overwrite(Overwrite(s, 0, LE32(at + Align(AttrHeaderLen + |data|))), at, LE16(rtaLen) + LE16(rtype) + data)
  }

  /** The header fields add_netlink_msg leaves: nlmsg_len moved from the old
      length to the aligned end of the new attribute (a multiple of 4,
      strictly larger), and at the aligned old end an attribute header with
      rta_len = 4 + payload length and the given type. */
  lemma AppendedHeaders(s: Bytes, rtype: U16, data: Bytes, at: nat, r: Bytes)
    requires HasRoom(s, |data|) && at == Align(U32At(s, 0)) && r == Appended(s, rtype, data)
    ensures |r| == |s|
    ensures U32At(r, 0) == at + Align(AttrHeaderLen + |data|)
    ensures U32At(r, 0) % 4 == 0 && U32At(r, 0) > U32At(s, 0)
    ensures U16At(r, at) == (AttrHeaderLen + |data|) % U16Limit
    ensures U16At(r, at + 2) == rtype
  {
    var size := Align(AttrHeaderLen + |data|);
    var n := at + size;
    assert at % 4 == 0 && size % 4 == 0 && size >= AttrHeaderLen;
    AlignedSum(at, size);
    var rtaLen := LE16((AttrHeaderLen + |data|) % U16Limit);
    var w := rtaLen + LE16(rtype) + data;
    OverwriteAt(s, 0, LE32(n));
    OverwriteAt(Overwrite(s, 0, LE32(n)), at, w);
    assert r[0..4] == LE32(n);
    U32RoundTrip(n, r, 0);
    assert r[at..at + 2] == rtaLen by {
      assert forall k :: 0 <= k < 2 ==> r[at + k] == w[k] == rtaLen[k];
    }
    U16RoundTrip((AttrHeaderLen + |data|) % U16Limit, r, at);
    assert r[at + 2..at + 4] == LE16(rtype) by {
      assert forall k :: 0 <= k < 2 ==> r[at + 2 + k] == w[2 + k] == LE16(rtype)[k];
    }
    U16RoundTrip(rtype, r, at + 2);
  }

  /** add_netlink_msg copies the payload verbatim 4 bytes after the attribute
      header and changes no byte outside nlmsg_len and the new attribute. */
  lemma AppendedPayload(s: Bytes, rtype: U16, data: Bytes, at: nat, r: Bytes)
    requires HasRoom(s, |data|) && at == Align(U32At(s, 0)) && r == Appended(s, rtype, data)
    ensures forall k :: 0 <= k < |data| ==> r[at + AttrHeaderLen + k] == data[k]
    ensures forall j :: 4 <= j < at ==> r[j] == s[j]
    ensures forall j :: at + AttrHeaderLen + |data| <= j < |s| ==> r[j] == s[j]
  {
    var w := LE16((AttrHeaderLen + |data|) % U16Limit) + LE16(rtype) + data;
    var n := at + Align(AttrHeaderLen + |data|);
    OverwriteAt(s, 0, LE32(n));
    OverwriteAt(Overwrite(s, 0, LE32(n)), at, w);
    forall k | 0 <= k < |data|
      ensures r[at + AttrHeaderLen + k] == data[k]
    {
      assert r[at + AttrHeaderLen + k] == w[AttrHeaderLen + k];
    }
  }

  /** add_netlink_msg: append one attribute to the message held in `buf`;
      the caller reserves the room. */
  method AddAttribute(buf: array<byte>, rtype: U16, data: Bytes)
    requires HasRoom(buf[..], |data|)
    modifies buf
    ensures buf[..] == Appended(old(buf[..]), rtype, data)
  {
    ghost var s := buf[..];
    var at := Align(U32At(buf[..], 0));
    var rtaLength := AttrHeaderLen + |data|;
    var dataAt := at + AttrHeaderLen;
    PutU16(buf, at + 2, rtype);
    ghost var s1 := buf[..];
    PutU16(buf, at, rtaLength % U16Limit);
    ghost var s2 := buf[..];
    PutU32(buf, 0, at + Align(rtaLength));
    ghost var s3 := buf[..];
    CopyInto(buf, dataAt, data);
    ChainIsAppended(s, s1, s2, s3, buf[..], rtype, data);
  }

  lemma ChainIsAppended(s: Bytes, s1: Bytes, s2: Bytes, s3: Bytes, s4: Bytes, rtype: U16, data: Bytes)
    requires HasRoom(s, |data|)
    requires Align(U32At(s, 0)) + AttrHeaderLen + |data| <= |s|
    requires s1 == Overwrite(s, Align(U32At(s, 0)) + 2, LE16(rtype))
    requires s2 == Overwrite(s1, Align(U32At(s, 0)), LE16((AttrHeaderLen + |data|) % U16Limit))
    requires s3 == Overwrite(s2, 0, LE32(Align(U32At(s, 0)) + Align(AttrHeaderLen + |data|)))
    requires s4 == Overwrite(s3, Align(U32At(s, 0)) + AttrHeaderLen, data)
    ensures s4 == Appended(s, rtype, data)
  {
    StoresInOrder(s, rtype, data);
  }

  /** The four stores of add_netlink_msg, in its order: rta_type, rta_len,
      nlmsg_len, then the payload. */
  lemma StoresInOrder(s: Bytes, rtype: U16, data: Bytes)
    requires HasRoom(s, |data|)
    ensures var at := Align(U32At(s, 0));
      var rtaLength := AttrHeaderLen + |data|;
      && at + AttrHeaderLen + |data| <= |s|
      && Overwrite(Overwrite(Overwrite(Overwrite(s, at + 2, LE16(rtype)), at, LE16(rtaLength % U16Limit)),
                             0, LE32(at + Align(rtaLength))), at + AttrHeaderLen, data)
         == Appended(s, rtype, data)
  {
    var at := Align(U32At(s, 0));
    var rtaLength := AttrHeaderLen + |data|;
    StoresCommute(s, at, LE32(at + Align(rtaLength)), LE16(rtaLength % U16Limit), LE16(rtype), data);
  }

  /** The four stores of add_netlink_msg, in its order, leave the same bytes
      as storing the length field and then the whole attribute. */
  lemma StoresCommute(s: Bytes, at: nat, lenField: Bytes, rtaLen: Bytes, rtaType: Bytes, data: Bytes)
    requires |lenField| == 4 <= at && |rtaLen| == 2 && |rtaType| == 2
    requires at + 4 + |data| <= |s|
    ensures Overwrite(Overwrite(Overwrite(Overwrite(s, at + 2, rtaType), at, rtaLen), 0, lenField), at + 4, data)
         == Overwrite(Overwrite(s, 0, lenField), at, rtaLen + rtaType + data)
  {
    var lhs := Overwrite(Overwrite(Overwrite(Overwrite(s, at + 2, rtaType), at, rtaLen), 0, lenField), at + 4, data);
    var rhs := Overwrite(Overwrite(s, 0, lenField), at, rtaLen + rtaType + data);
    var s1 := Overwrite(s, at + 2, rtaType);
    var s2 := Overwrite(s1, at, rtaLen);
    var s3 := Overwrite(s2, 0, lenField);
    OverwriteAt(s, at + 2, rtaType);
    OverwriteAt(s1, at, rtaLen);
    OverwriteAt(s2, 0, lenField);
    OverwriteAt(s3, at + 4, data);
    OverwriteAt(s, 0, lenField);
    OverwriteAt(Overwrite(s, 0, lenField), at, rtaLen + rtaType + data);
    forall j | 0 <= j < |s|
      ensures lhs[j] == rhs[j]
    {
    }
  }

  /** memcpy of `data` into `buf` at offset `i`. */
  method CopyInto(buf: array<byte>, i: nat, data: Bytes)
    requires i + |data| <= buf.Length
    modifies buf
    ensures buf[..] == Overwrite(old(buf[..]), i, data)
  {
    ghost var s := buf[..];
    forall k | 0 <= k < |data| {
      buf[i + k] := data[k];
    }
    OverwriteAt(s, i, data);
  }

  method PutU16(buf: array<byte>, i: nat, v: U16)
    requires i + 2 <= buf.Length
    modifies buf
    ensures buf[..] == Overwrite(old(buf[..]), i, LE16(v))
  {
    ghost var s := buf[..];
    buf[i] := (v % 256) as byte;
    buf[i + 1] := (v / 256) as byte;
    OverwriteAt(s, i, LE16(v));
  }

  method PutU32(buf: array<byte>, i: nat, v: U32)
    requires i + 4 <= buf.Length
    modifies buf
    ensures buf[..] == Overwrite(old(buf[..]), i, LE32(v))
  {
    ghost var s := buf[..];
    PutU16(buf, i, v % U16Limit);
    ghost var s1 := buf[..];
    PutU16(buf, i + 2, v / U16Limit);
    OverwriteAt(s, i, LE16(v % U16Limit));
    OverwriteAt(s1, i + 2, LE16(v / U16Limit));
    OverwriteAt(s, i, LE32(v));
  }
}

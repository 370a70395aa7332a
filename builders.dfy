/** The request builders: each zeroes a scratch struct (header, fixed body
    and spare room), fills the header and body fields, appends attributes
    with add_netlink_msg and hands the first nlmsg_len bytes to send. Each
    builder here returns those bytes and is proved equal to a `Request`
    value: header, fixed body and the encoding of an attribute list. */
module Builders {
  import opened Wire
  import opened Attributes
  import opened Netmask

  /** sizeof the scratch struct of the link builders (header, ifinfomsg, 1024 spare bytes). */
  const LinkScratch: nat := HeaderLen + IfInfoLen + 1024
  /** sizeof the scratch struct of set_ip_address (header, ifaddrmsg, 256 spare bytes). */
  const AddrScratch: nat := HeaderLen + IfAddrLen + 256

  const CreateFlags: U16 := FlagRequest + FlagCreate + FlagExcl

  /** "bridge" with its terminating NUL: the IFLA_INFO_KIND payload. */
  const BridgeKind: Bytes := [98, 114, 105, 100, 103, 101, 0]

  /** An interface name as a C string holds no NUL before its terminator. */
  predicate NulFree(name: Bytes)
  {
    forall i :: 0 <= i < |name| ==> name[i] != 0
  }

  /** A header, a fixed body whose size keeps the attributes aligned, and
      attributes, all within the 32-bit nlmsg_len. */
  predicate Framable(body: Bytes, attrs: seq<Attribute>)
  {
    |body| % 4 == 0 && AllEncodable(attrs) && HeaderLen + |body| + |EncodeAll(attrs)| < U32Limit
  }

  /** What follows nlmsg_len in a request the builders leave: the type, the
      flags, sequence number and port id zero, then the fixed body. */
  function Fixed(mtype: U16, flags: U16, body: Bytes): (r: Bytes)
    ensures |r| == HeaderLen - 4 + |body|
  {
    LE16(mtype) + LE16(flags) + LE32(0) + LE32(0) + body
  }

  /** A message with nlmsg_len covering itself, the part `fixed` after it and
      the attribute bytes `e`. */
  function Image(fixed: Bytes, e: Bytes): (r: Bytes)
    requires 4 + |fixed| + |e| < U32Limit
    ensures |r| == 4 + |fixed| + |e|
  {
    LE32(4 + |fixed| + |e|) + fixed + e
  }

  /** A request as the builders leave it: nlmsg_len covering the header, the
      body and every attribute; sequence number and port id zero. */
  function Request(mtype: U16, flags: U16, body: Bytes, attrs: seq<Attribute>): Bytes
    requires Framable(body, attrs)
  {
    Image(Fixed(mtype, flags, body), EncodeAll(attrs))
  }

  /** The bytes of `s` are `img` followed by zeros only. */
  predicate ZeroTail(s: Bytes, img: Bytes)
  {
    |img| <= |s| && s == img + Zeros(|s| - |img|)
  }

  /** A scratch buffer holding a message with at least a header, zero-padded
      to its end, whose fixed part and attributes keep nlmsg_len aligned. */
  predicate Holds(s: Bytes, fixed: Bytes, e: Bytes)
  {
    && HeaderLen <= 4 + |fixed| && |fixed| % 4 == 0 && |e| % 4 == 0
    && 4 + |fixed| + |e| < U32Limit && ZeroTail(s, Image(fixed, e))
  }

  // ---------------------------------------------------------------------
  // Properties of requests

  /** A request is its header, its body and its encoded attributes. */
  lemma RequestLayout(mtype: U16, flags: U16, body: Bytes, attrs: seq<Attribute>)
    requires Framable(body, attrs)
    ensures Request(mtype, flags, body, attrs)
         == Header(HeaderLen + |body| + |EncodeAll(attrs)|, mtype, flags, 0, 0) + body + EncodeAll(attrs)
  {
    HeaderThenBody(HeaderLen + |body| + |EncodeAll(attrs)|, mtype, flags, body);
  }

  /** nlmsg_len of a request is its size, which is the header, the body and
      RTA_ALIGN(4 + payload length) for each attribute; it is a multiple of 4. */
  lemma RequestLength(mtype: U16, flags: U16, body: Bytes, attrs: seq<Attribute>)
    requires Framable(body, attrs)
    ensures U32At(Request(mtype, flags, body, attrs), 0) == |Request(mtype, flags, body, attrs)|
    ensures |Request(mtype, flags, body, attrs)| == HeaderLen + |body| + AlignedSizes(attrs)
    ensures |Request(mtype, flags, body, attrs)| % 4 == 0
  {
    ImageLength(Fixed(mtype, flags, body), EncodeAll(attrs));
    EncodeAllLength(attrs);
    AlignedSum(HeaderLen, |body|);
    AlignedSum(HeaderLen + |body|, |EncodeAll(attrs)|);
  }

  /** Parsing a request back: the header carries the type and flags, and
      the fixed body follows the header. */
  lemma RequestHeaderParses(mtype: U16, flags: U16, body: Bytes, attrs: seq<Attribute>)
    requires Framable(body, attrs)
    ensures var m := Request(mtype, flags, body, attrs);
      U16At(m, 4) == mtype && U16At(m, 6) == flags && m[HeaderLen..HeaderLen + |body|] == body
  {
    var h := Header(HeaderLen + |body| + |EncodeAll(attrs)|, mtype, flags, 0, 0);
    var m := Request(mtype, flags, body, attrs);
    RequestLayout(mtype, flags, body, attrs);
    HeaderFields(HeaderLen + |body| + |EncodeAll(attrs)|, mtype, flags, 0, 0);
    assert m[..8] == h[..8];
    assert m[HeaderLen..HeaderLen + |body|] == body;
  }

  /** Parsing a request back: an attribute walk from the end of the body
      over the rest of the message yields exactly the attributes the
      builder appended. */
  lemma RequestAttrsParse(mtype: U16, flags: U16, body: Bytes, attrs: seq<Attribute>)
    requires Framable(body, attrs)
    ensures var m := Request(mtype, flags, body, attrs);
      && AttrsFrom(m, HeaderLen + |body|, |m| - HeaderLen - |body|).Defined?
      && InWindow(AttrsFrom(m, HeaderLen + |body|, |m| - HeaderLen - |body|).value, HeaderLen + |body|, |m| - HeaderLen - |body|)
      && Decoded(m, AttrsFrom(m, HeaderLen + |body|, |m| - HeaderLen - |body|).value) == attrs
  {
    var m := Request(mtype, flags, body, attrs);
    var e := EncodeAll(attrs);
    RequestLayout(mtype, flags, body, attrs);
    assert |m| - HeaderLen - |body| == |e|;
    assert forall i :: 0 <= i < |e| ==> m[HeaderLen + |body| + i] == e[i];
    DecodeEncoded(m, HeaderLen + |body|, attrs);
  }

  /** nlmsg_len of an image reads back as its size. */
  lemma ImageLength(fixed: Bytes, e: Bytes)
    requires 4 + |fixed| + |e| < U32Limit
    ensures U32At(Image(fixed, e), 0) == |Image(fixed, e)|
  {
    var r := Image(fixed, e);
    assert r[0..4] == LE32(|r|);
    U32RoundTrip(|r|, r, 0);
  }

  /** Appending attribute bytes renews nlmsg_len and keeps everything after it. */
  lemma ImageSnoc(fixed: Bytes, e: Bytes, ex: Bytes)
    requires 4 + |fixed| + |e| + |ex| < U32Limit
    ensures Image(fixed, e + ex) == LE32(4 + |fixed| + |e| + |ex|) + Image(fixed, e)[4..] + ex
  {
    assert Image(fixed, e)[4..] == fixed + e;
  }

  /** Appending one attribute to a list appends its encoding. */
  lemma EncodeSnoc(attrs: seq<Attribute>, x: Attribute)
    requires AllEncodable(attrs) && Encodable(x)
    ensures AllEncodable(attrs + [x])
    ensures EncodeAll(attrs + [x]) == EncodeAll(attrs) + EncodeAttr(x)
  {
    assert AllEncodable([x]);
    EncodeAllAppend(attrs, [x]);
    assert [x][1..] == [];
    assert EncodeAll([x]) == EncodeAttr(x) + EncodeAll([]);
  }

  /** A zero-padded image carries its own size in nlmsg_len, already
      aligned, so the first nlmsg_len bytes of the buffer are the image. */
  lemma PaddedLength(s: Bytes, fixed: Bytes, e: Bytes)
    requires Holds(s, fixed, e)
    ensures HeaderLen <= U32At(s, 0) == |Image(fixed, e)| <= |s|
    ensures Align(U32At(s, 0)) == U32At(s, 0)
    ensures s[..U32At(s, 0)] == Image(fixed, e)
  {
    var img := Image(fixed, e);
    ImageLength(fixed, e);
    assert s[..4] == img[..4];
    AlignedSum(4, |fixed|);
    AlignedSum(4 + |fixed|, |e|);
    AlignIdempotent(|img|);
  }

  /** What one add_netlink_msg call does to a zero-padded message: the same
      message with the attribute's encoding appended, still zero-padded. */
  lemma AppendToImage(s: Bytes, fixed: Bytes, e: Bytes, x: Attribute)
    requires Holds(s, fixed, e) && Encodable(x)
    requires 4 + |fixed| + |e| + Align(AttrHeaderLen + |x.payload|) <= |s| < U32Limit
    ensures HasRoom(s, |x.payload|)
    ensures Holds(Appended(s, x.rtype, x.payload), fixed, e + EncodeAttr(x))
  {
    PaddedLength(s, fixed, e);
    AlignedSum(|e|, |EncodeAttr(x)|);
    ImageSnoc(fixed, e, EncodeAttr(x));
    StoredAttribute(s, Image(fixed, e), x);
  }

  /** The store sequence of add_netlink_msg on a zero-padded image. */
  lemma StoredAttribute(s: Bytes, img: Bytes, x: Attribute)
    requires Encodable(x) && HeaderLen <= |img| && ZeroTail(s, img)
    requires U32At(s, 0) == |img| && Align(|img|) == |img|
    requires |img| + Align(AttrHeaderLen + |x.payload|) <= |s| < U32Limit
    ensures HasRoom(s, |x.payload|)
    ensures ZeroTail(Appended(s, x.rtype, x.payload), LE32(|img| + |EncodeAttr(x)|) + img[4..] + EncodeAttr(x))
  {
    var n := AttrHeaderLen + |x.payload|;
    var r := Appended(s, x.rtype, x.payload);
    var e := EncodeAttr(x);
    var img' := LE32(|img| + |e|) + img[4..] + e;
    var w := LE16(n % U16Limit) + LE16(x.rtype) + x.payload;
    SmallMod(n, U16Limit);
    assert e == w + Zeros(Align(n) - n);
    var t := img' + Zeros(|s| - |img'|);
    assert |e| == Align(n) && |img'| == |img| + |e|;
    forall j | 0 <= j < |s|
      ensures r[j] == t[j]
    {
      if j < 4 {
        assert r[j] == LE32(|img| + Align(n))[j];
        assert t[j] == LE32(|img| + |e|)[j];
      } else if j < |img| {
        assert r[j] == s[j] == img[j];
        assert t[j] == img[4..][j - 4];
      } else if j < |img| + |w| {
        assert r[j] == w[j - |img|] == e[j - |img|];
        assert t[j] == e[j - |img|];
      } else if j < |img'| {
        assert r[j] == s[j] == 0;
        assert t[j] == e[j - |img|] == Zeros(Align(n) - n)[j - |img| - |w|];
      } else {
        assert r[j] == s[j] == 0;
        assert t[j] == Zeros(|s| - |img'|)[j - |img'|];
      }
    }
  }

  /** The memset struct after the header and body stores. */
  lemma Prefilled(size: nat, h: Bytes, b: Bytes)
    requires |h| == HeaderLen && HeaderLen + |b| <= size
    ensures Overwrite(Overwrite(Zeros(size), 0, h), HeaderLen, b) == h + b + Zeros(size - HeaderLen - |b|)
  {
    var lhs := Overwrite(Overwrite(Zeros(size), 0, h), HeaderLen, b);
    var rhs := h + b + Zeros(size - HeaderLen - |b|);
    OverwriteAt(Zeros(size), 0, h);
    OverwriteAt(Overwrite(Zeros(size), 0, h), HeaderLen, b);
    assert forall j :: 0 <= j < size ==> lhs[j] == rhs[j];
  }

  /** The prefix of a zero-padded buffer that send transmits. */
  lemma SentPrefix(s: Bytes, img: Bytes)
    requires ZeroTail(s, img)
    ensures s[..|img|] == img
  {
  }

  // ---------------------------------------------------------------------
  // Field stores shared by the builders

  /** nlmsg_len, nlmsg_flags and nlmsg_type, in the builders' order; the
      sequence number and port id keep the memset's zeros. */
  method SetHeader(buf: array<byte>, len: U32, mtype: U16, flags: U16)
    requires HeaderLen <= buf.Length
    requires forall j :: 8 <= j < HeaderLen ==> buf[j] == 0
    modifies buf
    ensures buf[..] == Overwrite(old(buf[..]), 0, Header(len, mtype, flags, 0, 0))
  {
    ghost var s := buf[..];
    PutU32(buf, 0, len);
    ghost var s1 := buf[..];
    PutU16(buf, 6, flags);
    ghost var s2 := buf[..];
    PutU16(buf, 4, mtype);
    ghost var h := Header(len, mtype, flags, 0, 0);
    OverwriteAt(s, 0, LE32(len));
    OverwriteAt(s1, 6, LE16(flags));
    OverwriteAt(s2, 4, LE16(mtype));
    OverwriteAt(s, 0, h);
    assert h == LE32(len) + LE16(mtype) + LE16(flags) + LE32(0) + LE32(0);
    forall j | 0 <= j < buf.Length
      ensures buf[j] == Overwrite(s, 0, h)[j]
    {
    }
  }

  /** The ifinfomsg fields: family, index, flags and change mask (the pad and
      device type keep the memset's zeros). */
  method SetIfInfo(buf: array<byte>, family: byte, index: U32, flags: U32, change: U32)
    requires HeaderLen + IfInfoLen <= buf.Length
    requires forall j :: HeaderLen <= j < HeaderLen + IfInfoLen ==> buf[j] == 0
    modifies buf
    ensures buf[..] == Overwrite(old(buf[..]), HeaderLen, IfInfo(family, index, flags, change))
  {
    ghost var s := buf[..];
    PutU32(buf, 28, change);
    ghost var s1 := buf[..];
    PutU32(buf, 24, flags);
    buf[16] := family;
    ghost var s2 := buf[..];
    PutU32(buf, 20, index);
    ghost var b := IfInfo(family, index, flags, change);
    OverwriteAt(s, 28, LE32(change));
    OverwriteAt(s1, 24, LE32(flags));
    OverwriteAt(s2, 20, LE32(index));
    OverwriteAt(s, HeaderLen, b);
    assert b == [family, 0] + LE16(0) + LE32(index) + LE32(flags) + LE32(change);
    forall j | 0 <= j < buf.Length
      ensures buf[j] == Overwrite(s, HeaderLen, b)[j]
    {
    }
  }

  /** The ifaddrmsg fields: family, prefix length, flags and index (the scope
      keeps the memset's zero). */
  method SetIfAddr(buf: array<byte>, family: byte, prefixLen: byte, index: U32)
    requires HeaderLen + IfAddrLen <= buf.Length
    requires forall j :: HeaderLen <= j < HeaderLen + IfAddrLen ==> buf[j] == 0
    modifies buf
    ensures buf[..] == Overwrite(old(buf[..]), HeaderLen, IfAddr(family, prefixLen, index))
  {
    ghost var s := buf[..];
    buf[16] := family;
    buf[17] := prefixLen;
    buf[18] := 0;
    ghost var s1 := buf[..];
    PutU32(buf, 20, index);
    ghost var b := IfAddr(family, prefixLen, index);
    OverwriteAt(s1, 20, LE32(index));
    OverwriteAt(s, HeaderLen, b);
    assert b == [family, prefixLen, 0, 0] + LE32(index);
    forall j | 0 <= j < buf.Length
      ensures buf[j] == Overwrite(s, HeaderLen, b)[j]
    {
    }
  }

  /** The empty request the memset and the header and body stores leave. */
  lemma Started(size: nat, mtype: U16, flags: U16, body: Bytes)
    requires |body| % 4 == 0 && HeaderLen + |body| <= size < U32Limit
    ensures Holds(Overwrite(Overwrite(Zeros(size), 0, Header(HeaderLen + |body|, mtype, flags, 0, 0)), HeaderLen, body),
                  Fixed(mtype, flags, body), [])
  {
    var h := Header(HeaderLen + |body|, mtype, flags, 0, 0);
    var fixed := Fixed(mtype, flags, body);
    var img := Image(fixed, []);
    Prefilled(size, h, body);
    HeaderThenBody(HeaderLen + |body|, mtype, flags, body);
    assert img == LE32(HeaderLen + |body|) + fixed + [];
    assert h + body == img;
  }

  /** A header with sequence number and port id zero, then a body: the length
      field followed by the fixed part. */
  lemma HeaderThenBody(n: U32, mtype: U16, flags: U16, body: Bytes)
    ensures Header(n, mtype, flags, 0, 0) + body == LE32(n) + Fixed(mtype, flags, body)
  {
    var a, b, c, d := LE16(mtype), LE16(flags), LE32(0), LE32(0);
    assert LE32(n) + a + b + c + d + body == LE32(n) + (a + b + c + d + body);
  }

  /** An attribute whose size is already a multiple of 4 is encoded without padding. */
  lemma EncodeUnpadded(x: Attribute)
    requires Encodable(x) && (AttrHeaderLen + |x.payload|) % 4 == 0
    ensures EncodeAttr(x) == LE16(AttrHeaderLen + |x.payload|) + LE16(x.rtype) + x.payload
  {
    AlignIdempotent(AttrHeaderLen + |x.payload|);
    assert EncodeAttr(x) == LE16(AttrHeaderLen + |x.payload|) + LE16(x.rtype) + x.payload + Zeros(0);
  }

  /** Replacing the middle part `u` of a sequence by `v` of the same length. */
  lemma PatchMiddle(p: Bytes, u: Bytes, v: Bytes, q: Bytes)
    requires |u| == |v|
    ensures p + v + q == Overwrite(p + u + q, |p|, v)
  {
    var lhs := p + v + q;
    var rhs := Overwrite(p + u + q, |p|, v);
    OverwriteAt(p + u + q, |p|, v);
    assert forall j :: 0 <= j < |lhs| ==> lhs[j] == rhs[j];
  }

  /** A store inside the message part of a zero-padded buffer. */
  lemma ZeroTailOverwrite(s: Bytes, img: Bytes, i: nat, w: Bytes)
    requires ZeroTail(s, img) && i + |w| <= |img|
    ensures ZeroTail(Overwrite(s, i, w), Overwrite(img, i, w))
  {
    var lhs := Overwrite(s, i, w);
    var rhs := Overwrite(img, i, w) + Zeros(|s| - |img|);
    OverwriteAt(s, i, w);
    OverwriteAt(img, i, w);
    assert forall j :: 0 <= j < |s| ==> lhs[j] == rhs[j];
  }

  /** The images before and after the container patch of create_bridge, as
      the bytes before the container's rta_len, that field, and the rest. */
  lemma ContainerImages(fixed: Bytes, e: Bytes, c: U16, k: Attribute)
    requires Encodable(k) && AttrHeaderLen + |EncodeAttr(k)| < U16Limit
    requires 4 + |fixed| + |e| + AttrHeaderLen + |EncodeAttr(k)| < U32Limit
    ensures Encodable(Attribute(c, EncodeAttr(k)))
    ensures var p := LE32(4 + |fixed| + |e| + AttrHeaderLen + |EncodeAttr(k)|) + fixed + e;
      && Image(fixed, e + EncodeAttr(Attribute(c, [])) + EncodeAttr(k)) == p + LE16(AttrHeaderLen) + (LE16(c) + EncodeAttr(k))
      && Image(fixed, e + EncodeAttr(Attribute(c, EncodeAttr(k))))
         == p + LE16(AttrHeaderLen + |EncodeAttr(k)|) + (LE16(c) + EncodeAttr(k))
  {
    var ek := EncodeAttr(k);
    AlignIdempotent(AttrHeaderLen);
    EncodeUnpadded(Attribute(c, []));
    AlignedSum(AttrHeaderLen, |ek|);
    EncodeUnpadded(Attribute(c, ek));
    var l := LE32(4 + |fixed| + |e| + AttrHeaderLen + |ek|);
    assert Image(fixed, e + (LE16(AttrHeaderLen) + LE16(c) + [])+ ek) == l + fixed + (e + (LE16(AttrHeaderLen) + LE16(c) + []) + ek);
    Regroup(l + fixed, e, LE16(AttrHeaderLen), LE16(c), ek);
    Regroup(l + fixed, e, LE16(AttrHeaderLen + |ek|), LE16(c), ek);
  }

  /** Concatenation regrouped. */
  lemma Regroup(a: Bytes, e: Bytes, u: Bytes, v: Bytes, w: Bytes)
    ensures a + (e + (u + v + []) + w) == a + e + u + (v + w)
    ensures a + (e + (u + v + w)) == a + e + u + (v + w)
  {
  }

  /** The container patch of create_bridge: once the nested attribute `k`
      follows an empty container attribute, storing 4 + its aligned size as
      the container's rta_len turns the two into one container attribute
      whose payload is the nested attribute. */
  lemma ContainerPatch(s: Bytes, fixed: Bytes, e: Bytes, c: U16, k: Attribute)
    requires Encodable(k) && AttrHeaderLen + |EncodeAttr(k)| < U16Limit
    requires Holds(s, fixed, e + EncodeAttr(Attribute(c, [])) + EncodeAttr(k))
    ensures Align(U32At(s, 0)) == 4 + |fixed| + |e| + AttrHeaderLen + |EncodeAttr(k)|
    ensures Encodable(Attribute(c, EncodeAttr(k)))
    ensures Holds(Overwrite(s, 4 + |fixed| + |e|, LE16(AttrHeaderLen + |EncodeAttr(k)|)),
                  fixed, e + EncodeAttr(Attribute(c, EncodeAttr(k))))
  {
    PatchedEnd(s, fixed, e, c, k);
    PatchedImage(s, fixed, e, c, k);
  }

  /** Where the aligned end lies once the nested attribute is appended. */
  lemma PatchedEnd(s: Bytes, fixed: Bytes, e: Bytes, c: U16, k: Attribute)
    requires Encodable(k)
    requires Holds(s, fixed, e + EncodeAttr(Attribute(c, [])) + EncodeAttr(k))
    ensures Align(U32At(s, 0)) == 4 + |fixed| + |e| + AttrHeaderLen + |EncodeAttr(k)|
  {
    PaddedLength(s, fixed, e + EncodeAttr(Attribute(c, [])) + EncodeAttr(k));
  }

  /** The bytes after the container patch. */
  lemma PatchedImage(s: Bytes, fixed: Bytes, e: Bytes, c: U16, k: Attribute)
    requires Encodable(k) && AttrHeaderLen + |EncodeAttr(k)| < U16Limit
    requires Holds(s, fixed, e + EncodeAttr(Attribute(c, [])) + EncodeAttr(k))
    ensures Encodable(Attribute(c, EncodeAttr(k)))
    ensures Holds(Overwrite(s, 4 + |fixed| + |e|, LE16(AttrHeaderLen + |EncodeAttr(k)|)),
                  fixed, e + EncodeAttr(Attribute(c, EncodeAttr(k))))
  {
    AlignIdempotent(AttrHeaderLen);
    AlignedSum(AttrHeaderLen, |EncodeAttr(k)|);
    AlignIdempotent(AttrHeaderLen + |EncodeAttr(k)|);
    PatchedZeroTail(s, fixed, e, c, k);
  }

  /** The bytes after the container patch, still zero-padded. */
  lemma PatchedZeroTail(s: Bytes, fixed: Bytes, e: Bytes, c: U16, k: Attribute)
    requires Encodable(k) && AttrHeaderLen + |EncodeAttr(k)| < U16Limit
    requires 4 + |fixed| + |e| + AttrHeaderLen + |EncodeAttr(k)| < U32Limit
    requires ZeroTail(s, Image(fixed, e + EncodeAttr(Attribute(c, [])) + EncodeAttr(k)))
    ensures Encodable(Attribute(c, EncodeAttr(k)))
    ensures 4 + |fixed| + |e| + |EncodeAttr(Attribute(c, EncodeAttr(k)))| < U32Limit
    ensures ZeroTail(Overwrite(s, 4 + |fixed| + |e|, LE16(AttrHeaderLen + |EncodeAttr(k)|)),
                     Image(fixed, e + EncodeAttr(Attribute(c, EncodeAttr(k)))))
  {
    var w: U16 := AttrHeaderLen + |EncodeAttr(k)|;
    var before := Image(fixed, e + EncodeAttr(Attribute(c, [])) + EncodeAttr(k));
    ContainerImages(fixed, e, c, k);
    var p := LE32(4 + |fixed| + |e| + w) + fixed + e;
    var q := LE16(c) + EncodeAttr(k);
    PatchMiddle(p, LE16(AttrHeaderLen), LE16(w), q);
    assert |p| == 4 + |fixed| + |e|;
    ZeroTailOverwrite(s, before, |p|, LE16(w));
    assert Overwrite(before, |p|, LE16(w)) == Image(fixed, e + EncodeAttr(Attribute(c, EncodeAttr(k))));
  }

  // ---------------------------------------------------------------------
  // The requests

  /** The longest bridge name whose request fits the 1024 spare bytes. */
  const MaxNameLen: nat := 1003

  function CreateBridgeAttrs(name: Bytes): seq<Attribute>
  {
    [Attribute(IflaIfname, name + [0]), Attribute(IflaLinkInfo, EncodeAttr(Attribute(IflaInfoKind, BridgeKind)))]
  }

  /** create_bridge: a new link with the name attribute and a link-info
      container holding the device kind "bridge". */
  function CreateBridgeRequest(name: Bytes): Bytes
    requires |name| <= MaxNameLen
  {
    CreateBridgeFits(name);
    Request(RtmNewLink, CreateFlags, IfInfo(AfPacket, 0, 0, 0), CreateBridgeAttrs(name))
  }

  lemma CreateBridgeFits(name: Bytes)
    requires |name| <= MaxNameLen
    ensures Framable(IfInfo(AfPacket, 0, 0, 0), CreateBridgeAttrs(name))
    ensures |EncodeAll(CreateBridgeAttrs(name))| == Align(AttrHeaderLen + |name| + 1) + 16
  {
    var attrs := CreateBridgeAttrs(name);
    assert |EncodeAttr(Attribute(IflaInfoKind, BridgeKind))| == 12;
    EncodePair(attrs[0], attrs[1]);
  }

  /** The encoding of a two-attribute list. */
  lemma EncodePair(a: Attribute, b: Attribute)
    requires Encodable(a) && Encodable(b)
    ensures AllEncodable([a, b])
    ensures EncodeAll([a, b]) == EncodeAttr(a) + EncodeAttr(b)
  {
    assert [a, b][1..] == [b] && [b][1..] == [];
    assert EncodeAll([b]) == EncodeAttr(b) + EncodeAll([]);
  }

  /** The encoding of a three-attribute list. */
  lemma EncodeTriple(a: Attribute, b: Attribute, c: Attribute)
    requires Encodable(a) && Encodable(b) && Encodable(c)
    ensures AllEncodable([a, b, c])
    ensures EncodeAll([a, b, c]) == EncodeAttr(a) + EncodeAttr(b) + EncodeAttr(c)
  {
    assert [a, b, c][1..] == [b, c];
    EncodePair(b, c);
  }

  /** join_bridge (leave_bridge with index 0): the port's link with the bridge's index as master. */
  function JoinBridgeRequest(brIndex: U32, port: I32): Bytes
  {
    var attrs := [Attribute(IflaMaster, LE32(brIndex))];
    assert EncodeAll(attrs) == EncodeAttr(attrs[0]) + EncodeAll([]);
    Request(RtmNewLink, FlagRequest, IfInfo(AfPacket, ToU32(port), 0, 0), attrs)
  }

  /** dev_up: the device's link with IFF_UP in both its flags and its change mask. */
  function DevUpRequest(index: U32): Bytes
  {
    assert EncodeAll([]) == [];
    Request(RtmNewLink, FlagRequest, IfInfo(AfPacket, index, IffUp, IffUp), [])
  }

  /** htonl: a 32-bit word laid out in memory in network byte order. */
  function NetworkOrder(v: bv32): (r: Bytes)
    ensures |r| == 4
  {
    BE32(v as int)
  }

  /** The attributes of set_ip_address: the address in network order as
      local address and as address, and the broadcast address declared 8
      bytes long, of which the last 4 (`beyond`) are whatever follows the
      4-byte variable in memory. */
  function SetIpAddressAttrs(ip: bv32, broadcast: bv32, beyond: Bytes): seq<Attribute>
  {
    [ Attribute(IfaLocal, NetworkOrder(ip)),
      Attribute(IfaAddress, NetworkOrder(ip)),
      Attribute(IfaBroadcast, NetworkOrder(broadcast) + beyond) ]
  }

  /** set_ip_address: the prefix length is the netmask cut to a byte, and the
      broadcast address is `ip` with its host bits set. */
  function SetIpAddressRequest(ip: bv32, netmask: nat, index: U32, beyond: Bytes): Bytes
    requires |beyond| == 4
  {
    SetIpAddressFits(ip, Broadcast(ip, netmask), (netmask % 256) as byte, index, beyond);
    Request(RtmNewAddr, CreateFlags, IfAddr(AfInet, (netmask % 256) as byte, index),
            SetIpAddressAttrs(ip, Broadcast(ip, netmask), beyond))
  }

  lemma SetIpAddressFits(ip: bv32, broadcast: bv32, prefixLen: byte, index: U32, beyond: Bytes)
    requires |beyond| == 4
    ensures Framable(IfAddr(AfInet, prefixLen, index), SetIpAddressAttrs(ip, broadcast, beyond))
    ensures |EncodeAll(SetIpAddressAttrs(ip, broadcast, beyond))| == 28
  {
    var attrs := SetIpAddressAttrs(ip, broadcast, beyond);
    EncodeTriple(attrs[0], attrs[1], attrs[2]);
  }

  /** The request of create_bridge as the builder writes it: the name
      attribute, then the link-info container. */
  lemma CreateBridgeImage(name: Bytes)
    requires |name| <= MaxNameLen
    ensures var kind := Attribute(IflaInfoKind, BridgeKind);
      CreateBridgeRequest(name)
      == Image(Fixed(RtmNewLink, CreateFlags, IfInfo(AfPacket, 0, 0, 0)),
               [] + EncodeAttr(Attribute(IflaIfname, name + [0])) + EncodeAttr(Attribute(IflaLinkInfo, EncodeAttr(kind))))
  {
    var attrs := CreateBridgeAttrs(name);
    EncodePair(attrs[0], attrs[1]);
    assert [] + EncodeAttr(attrs[0]) == EncodeAttr(attrs[0]);
  }

  /** The request of join_bridge as the builder writes it. */
  lemma JoinBridgeImage(brIndex: U32, port: I32)
    ensures JoinBridgeRequest(brIndex, port)
         == Image(Fixed(RtmNewLink, FlagRequest, IfInfo(AfPacket, ToU32(port), 0, 0)), [] + EncodeAttr(Attribute(IflaMaster, LE32(brIndex))))
  {
    var master := Attribute(IflaMaster, LE32(brIndex));
    assert [master][1..] == [];
    assert EncodeAll([master]) == EncodeAttr(master) + EncodeAll([]);
    assert [] + EncodeAttr(master) == EncodeAttr(master);
  }

  /** The attribute bytes set_ip_address appends, in its order. */
  function AddressAttrBytes(addr: Bytes, bcast: Bytes): (r: Bytes)
    requires |addr| == 4 && |bcast| == 8
    ensures |r| == 28
  {
    [] + EncodeAttr(Attribute(IfaLocal, addr)) + EncodeAttr(Attribute(IfaAddress, addr)) + EncodeAttr(Attribute(IfaBroadcast, bcast))
  }

  /** The request of set_ip_address as the builder writes it. */
  lemma SetIpAddressImage(ip: bv32, broadcast: bv32, prefixLen: byte, index: U32, beyond: Bytes)
    requires |beyond| == 4
    ensures Framable(IfAddr(AfInet, prefixLen, index), SetIpAddressAttrs(ip, broadcast, beyond))
    ensures Request(RtmNewAddr, CreateFlags, IfAddr(AfInet, prefixLen, index), SetIpAddressAttrs(ip, broadcast, beyond))
         == Image(Fixed(RtmNewAddr, CreateFlags, IfAddr(AfInet, prefixLen, index)),
                  AddressAttrBytes(NetworkOrder(ip), NetworkOrder(broadcast) + beyond))
  {
    var attrs := SetIpAddressAttrs(ip, broadcast, beyond);
    SetIpAddressFits(ip, broadcast, prefixLen, index, beyond);
    EncodeTriple(attrs[0], attrs[1], attrs[2]);
    assert [] + EncodeAttr(attrs[0]) == EncodeAttr(attrs[0]);
  }

  /** A request split at its header and its body. */
  lemma RequestPieces(mtype: U16, flags: U16, body: Bytes, attrs: seq<Attribute>)
    requires Framable(body, attrs)
    ensures var m := Request(mtype, flags, body, attrs);
      && |m| == HeaderLen + |body| + |EncodeAll(attrs)|
      && m[0..HeaderLen] == Header(|m|, mtype, flags, 0, 0)
      && m[HeaderLen..HeaderLen + |body|] == body
      && m[HeaderLen + |body|..] == EncodeAll(attrs)
  {
    RequestLayout(mtype, flags, body, attrs);
  }

  /** The link message of dev_up is 32 bytes long, names the device by its
      index and carries IFF_UP as both the new flags and the change mask. */
  lemma DevUpLayout(index: U32)
    ensures var m := DevUpRequest(index);
      && |m| == U32At(m, 0) == HeaderLen + IfInfoLen
      && U16At(m, 4) == RtmNewLink && U16At(m, 6) == FlagRequest
      && m[16] == AfPacket && U32At(m, 20) == index && U32At(m, 24) == IffUp && U32At(m, 28) == IffUp
  {
    var body := IfInfo(AfPacket, index, IffUp, IffUp);
    var m := DevUpRequest(index);
    assert EncodeAll([]) == [];
    RequestPieces(RtmNewLink, FlagRequest, body, []);
    HeaderFields(|m|, RtmNewLink, FlagRequest, 0, 0);
    IfInfoFields(AfPacket, index, IffUp, IffUp);
    Within(m, 0, Header(|m|, RtmNewLink, FlagRequest, 0, 0));
    Within(m, HeaderLen, body);
  }

  /** The link message of join_bridge is 40 bytes long; it names the port by
      its index and carries one IFLA_MASTER attribute, 8 bytes long, whose
      payload is the bridge's index (0 for leave_bridge). */
  lemma JoinBridgeLayout(brIndex: U32, port: I32)
    ensures var m := JoinBridgeRequest(brIndex, port);
      && |m| == U32At(m, 0) == HeaderLen + IfInfoLen + 8
      && U32At(m, 20) == ToU32(port)
      && U16At(m, 32) == 8 && U16At(m, 34) == IflaMaster && U32At(m, 36) == brIndex
  {
    var body := IfInfo(AfPacket, ToU32(port), 0, 0);
    var master := Attribute(IflaMaster, LE32(brIndex));
    var m := JoinBridgeRequest(brIndex, port);
    var none: seq<Attribute> := [];
    assert none + [master] + none == [master];
    AttrInRequest(RtmNewLink, FlagRequest, body, none, master, none);
    AttrFieldsAt(m, HeaderLen + IfInfoLen, master);
    U32RoundTrip(brIndex, m, 36);
    JoinBridgeHeader(brIndex, port);
  }

  lemma JoinBridgeHeader(brIndex: U32, port: I32)
    ensures var m := JoinBridgeRequest(brIndex, port);
      |m| == U32At(m, 0) == HeaderLen + IfInfoLen + 8 && U32At(m, 20) == ToU32(port)
  {
    var body := IfInfo(AfPacket, ToU32(port), 0, 0);
    var master := Attribute(IflaMaster, LE32(brIndex));
    var m := JoinBridgeRequest(brIndex, port);
    assert [master][1..] == [];
    assert EncodeAll([master]) == EncodeAttr(master) + EncodeAll([]);
    RequestPieces(RtmNewLink, FlagRequest, body, [master]);
    HeaderFields(|m|, RtmNewLink, FlagRequest, 0, 0);
    IfInfoFields(AfPacket, ToU32(port), 0, 0);
    Within(m, 0, Header(|m|, RtmNewLink, FlagRequest, 0, 0));
    Within(m, HeaderLen, body);
  }

  /** An attribute of a request sits right after the encodings of the
      attributes before it. */
  lemma AttrInRequest(mtype: U16, flags: U16, body: Bytes, before: seq<Attribute>, x: Attribute, after: seq<Attribute>)
    requires Framable(body, before + [x] + after)
    ensures AllEncodable(before) && Encodable(x)
    ensures var m := Request(mtype, flags, body, before + [x] + after);
      var at := HeaderLen + |body| + |EncodeAll(before)|;
      && at + |EncodeAttr(x)| <= |m|
      && m[at..at + |EncodeAttr(x)|] == EncodeAttr(x)
  {
    RequestPieces(mtype, flags, body, before + [x] + after);
    var m := Request(mtype, flags, body, before + [x] + after);
    EncodedAt(m, HeaderLen + |body|, before, x, after);
  }

  /** Where a list of attributes ends a message, each of them sits right
      after the encodings of the ones before it. */
  lemma EncodedAt(m: Bytes, base: nat, before: seq<Attribute>, x: Attribute, after: seq<Attribute>)
    requires AllEncodable(before + [x] + after)
    requires base <= |m| && m[base..] == EncodeAll(before + [x] + after)
    ensures AllEncodable(before) && Encodable(x)
    ensures base + |EncodeAll(before)| + |EncodeAttr(x)| <= |m|
    ensures m[base + |EncodeAll(before)|..base + |EncodeAll(before)| + |EncodeAttr(x)|] == EncodeAttr(x)
  {
    EncodeAround(before, x, after);
    var eb, ex, ea := EncodeAll(before), EncodeAttr(x), EncodeAll(after);
    SliceAt(eb, ex, ea);
    SliceOfSlice(m, base, |m|, |eb|, |eb| + |ex|);
  }

  /** The encoding of a list around one of its elements. */
  lemma EncodeAround(before: seq<Attribute>, x: Attribute, after: seq<Attribute>)
    requires AllEncodable(before + [x] + after)
    ensures AllEncodable(before) && Encodable(x) && AllEncodable(after)
    ensures EncodeAll(before + [x] + after) == EncodeAll(before) + EncodeAttr(x) + EncodeAll(after)
  {
    var all := before + [x] + after;
    assert forall j :: 0 <= j < |before| ==> before[j] == all[j];
    assert x == all[|before|];
    assert forall j :: 0 <= j < |after| ==> after[j] == all[|before| + 1 + j];
    EncodeSnoc(before, x);
    EncodeAllAppend(before + [x], after);
  }

  /** The fields of an encoded attribute where it sits inside a message. */
  lemma AttrFieldsAt(m: Bytes, at: nat, a: Attribute)
    requires Encodable(a) && at + |EncodeAttr(a)| <= |m| && m[at..at + |EncodeAttr(a)|] == EncodeAttr(a)
    ensures U16At(m, at) == AttrHeaderLen + |a.payload| && U16At(m, at + 2) == a.rtype
    ensures m[at + AttrHeaderLen..at + AttrHeaderLen + |a.payload|] == a.payload
  {
    EncodeAttrFields(a);
    Within(m, at, EncodeAttr(a));
    assert m[at + AttrHeaderLen..at + AttrHeaderLen + |a.payload|] == EncodeAttr(a)[AttrHeaderLen..AttrHeaderLen + |a.payload|];
  }

  /** The address message of set_ip_address is 24 + 8 + 8 + 12 = 52 bytes
      long; its ifaddrmsg carries the netmask cut to a byte as prefix length
      and the device's index. */
  lemma SetIpAddressLayout(ip: bv32, netmask: nat, index: U32, beyond: Bytes)
    requires |beyond| == 4
    ensures var m := SetIpAddressRequest(ip, netmask, index, beyond);
      && |m| == U32At(m, 0) == 52
      && U16At(m, 4) == RtmNewAddr && U16At(m, 6) == CreateFlags
      && m[16] == AfInet && m[17] as int == netmask % 256 && U32At(m, 20) == index
  {
    var body := IfAddr(AfInet, (netmask % 256) as byte, index);
    var attrs := SetIpAddressAttrs(ip, Broadcast(ip, netmask), beyond);
    var m := SetIpAddressRequest(ip, netmask, index, beyond);
    SetIpAddressFits(ip, Broadcast(ip, netmask), (netmask % 256) as byte, index, beyond);
    RequestPieces(RtmNewAddr, CreateFlags, body, attrs);
    HeaderFields(|m|, RtmNewAddr, CreateFlags, 0, 0);
    IfAddrFields(AfInet, (netmask % 256) as byte, index);
    Within(m, 0, Header(|m|, RtmNewAddr, CreateFlags, 0, 0));
    Within(m, HeaderLen, body);
  }

  /** The link message of create_bridge is 48 + RTA_ALIGN(4 + strlen(name) + 1)
      bytes long and carries RTM_NEWLINK with NLM_F_REQUEST | NLM_F_CREATE |
      NLM_F_EXCL. */
  lemma CreateBridgeLayout(name: Bytes)
    requires |name| <= MaxNameLen
    ensures var m := CreateBridgeRequest(name);
      && |m| == U32At(m, 0) == 48 + Align(AttrHeaderLen + |name| + 1)
      && U16At(m, 4) == RtmNewLink && U16At(m, 6) == CreateFlags
  {
    var body := IfInfo(AfPacket, 0, 0, 0);
    var attrs := CreateBridgeAttrs(name);
    var m := CreateBridgeRequest(name);
    CreateBridgeFits(name);
    EncodePair(attrs[0], attrs[1]);
    RequestPieces(RtmNewLink, CreateFlags, body, attrs);
    HeaderFields(|m|, RtmNewLink, CreateFlags, 0, 0);
    Within(m, 0, Header(|m|, RtmNewLink, CreateFlags, 0, 0));
  }

  /** In the create_bridge message the IFLA_LINKINFO container follows the
      name attribute, its patched rta_len is 16, and its payload is exactly
      the nested IFLA_INFO_KIND attribute. */
  lemma CreateBridgeContainer(name: Bytes)
    requires |name| <= MaxNameLen
    ensures var m := CreateBridgeRequest(name);
      var n := Align(AttrHeaderLen + |name| + 1);
      && 48 + n <= |m|
      && U16At(m, 32 + n) == 16 && U16At(m, 34 + n) == IflaLinkInfo
      && m[36 + n..48 + n] == EncodeAttr(Attribute(IflaInfoKind, BridgeKind))
  {
    var body := IfInfo(AfPacket, 0, 0, 0);
    var attrs := CreateBridgeAttrs(name);
    var m := CreateBridgeRequest(name);
    var n := Align(AttrHeaderLen + |name| + 1);
    CreateBridgeFits(name);
    var none: seq<Attribute> := [];
    assert [attrs[0]] + [attrs[1]] + none == attrs;
    AttrInRequest(RtmNewLink, CreateFlags, body, [attrs[0]], attrs[1], none);
    assert EncodeAll([attrs[0]]) == EncodeAttr(attrs[0]) by {
      assert [attrs[0]][1..] == none;
    }
    assert |EncodeAttr(attrs[1])| == 16;
    AttrFieldsAt(m, 32 + n, attrs[1]);
  }

  /** The payload of the IFLA_LINKINFO container, walked as attributes,
      holds the one IFLA_INFO_KIND attribute "bridge". */
  lemma BridgeKindParses()
    ensures var p := EncodeAttr(Attribute(IflaInfoKind, BridgeKind));
      && AttrsFrom(p, 0, |p|).Defined?
      && InWindow(AttrsFrom(p, 0, |p|).value, 0, |p|)
      && Decoded(p, AttrsFrom(p, 0, |p|).value) == [Attribute(IflaInfoKind, BridgeKind)]
  {
    var kind := Attribute(IflaInfoKind, BridgeKind);
    var p := EncodeAttr(kind);
    assert [kind][1..] == [];
    assert EncodeAll([kind]) == p + EncodeAll([]);
    DecodeEncoded(p, 0, [kind]);
  }

  // ---------------------------------------------------------------------
  // The broadcast address

  /** 10.0.0.1/24 has broadcast address 10.0.0.255, sent as the bytes 10, 0, 0, 255. */
  lemma BroadcastExample()
    ensures Broadcast(0x0A00_0001, 24) == 0x0A00_00FF
    ensures NetworkOrder(Broadcast(0x0A00_0001, 24)) == [10, 0, 0, 255]
  {
  }

  // ---------------------------------------------------------------------
  // The builders

  /** The opening of the link builders: a zeroed scratch struct with
      nlmsg_len = NLMSG_LENGTH(sizeof(struct ifinfomsg)), the flags, type
      RTM_NEWLINK and the ifinfomsg fields stored. */
  method StartLink(flags: U16, family: byte, index: U32, ifFlags: U32, change: U32) returns (buf: array<byte>)
    ensures fresh(buf) && buf.Length == LinkScratch
    ensures Holds(buf[..], Fixed(RtmNewLink, flags, IfInfo(family, index, ifFlags, change)), [])
  {
    buf := new byte[LinkScratch](_ => 0);
    assert buf[..] == Zeros(LinkScratch);
    SetHeader(buf, HeaderLen + IfInfoLen, RtmNewLink, flags);
    SetIfInfo(buf, family, index, ifFlags, change);
    Started(LinkScratch, RtmNewLink, flags, IfInfo(family, index, ifFlags, change));
  }

  /** The opening of set_ip_address: a zeroed scratch struct with
      nlmsg_len = NLMSG_LENGTH(sizeof(struct ifaddrmsg)), the flags, type
      RTM_NEWADDR and the ifaddrmsg fields stored. */
  method StartAddr(flags: U16, family: byte, prefixLen: byte, index: U32) returns (buf: array<byte>)
    ensures fresh(buf) && buf.Length == AddrScratch
    ensures Holds(buf[..], Fixed(RtmNewAddr, flags, IfAddr(family, prefixLen, index)), [])
  {
    buf := new byte[AddrScratch](_ => 0);
    assert buf[..] == Zeros(AddrScratch);
    SetHeader(buf, HeaderLen + IfAddrLen, RtmNewAddr, flags);
    SetIfAddr(buf, family, prefixLen, index);
    Started(AddrScratch, RtmNewAddr, flags, IfAddr(family, prefixLen, index));
  }

  /** add_netlink_msg on a scratch buffer holding a message. */
  method Append(buf: array<byte>, ghost fixed: Bytes, ghost e: Bytes, x: Attribute)
    requires Holds(buf[..], fixed, e) && Encodable(x)
    requires 4 + |fixed| + |e| + Align(AttrHeaderLen + |x.payload|) <= buf.Length < U32Limit
    modifies buf
    ensures Holds(buf[..], fixed, e + EncodeAttr(x))
  {
    AppendToImage(buf[..], fixed, e, x);
    AddAttribute(buf, x.rtype, x.payload);
  }

  /** A container attribute holding one nested attribute, as create_bridge
      builds it: the position of the aligned end is remembered, an empty
      container of type `c` and then `k` are appended, and the container's
      rta_len is patched to run from that position to the new aligned end. */
  method AppendNested(buf: array<byte>, ghost fixed: Bytes, ghost e: Bytes, c: U16, k: Attribute)
    requires Holds(buf[..], fixed, e) && Encodable(k)
    requires AttrHeaderLen + Align(AttrHeaderLen + |k.payload|) < U16Limit
    requires 4 + |fixed| + |e| + AttrHeaderLen + Align(AttrHeaderLen + |k.payload|) <= buf.Length < U32Limit
    modifies buf
    ensures Encodable(Attribute(c, EncodeAttr(k)))
    ensures Holds(buf[..], fixed, e + EncodeAttr(Attribute(c, EncodeAttr(k))))
  {
    PaddedLength(buf[..], fixed, e);
    var at := Align(U32At(buf[..], 0));
    AlignIdempotent(AttrHeaderLen);
    Append(buf, fixed, e, Attribute(c, []));
    Append(buf, fixed, e + EncodeAttr(Attribute(c, [])), k);
    ContainerPatch(buf[..], fixed, e, c, k);
    PutU16(buf, at, Align(U32At(buf[..], 0)) - at);
  }

  /** What send transmits: the first nlmsg_len bytes of the scratch struct. */
  method Sent(buf: array<byte>, ghost fixed: Bytes, ghost e: Bytes) returns (msg: Bytes)
    requires Holds(buf[..], fixed, e)
    ensures msg == Image(fixed, e)
  {
    PaddedLength(buf[..], fixed, e);
    msg := buf[..U32At(buf[..], 0)];
  }

  /** create_bridge. */
  method CreateBridge(name: Bytes) returns (msg: Bytes)
    requires NulFree(name) && |name| <= MaxNameLen
    ensures msg == CreateBridgeRequest(name)
  {
    var ifname := Attribute(IflaIfname, name + [0]);
    var kind := Attribute(IflaInfoKind, BridgeKind);
    ghost var fixed := Fixed(RtmNewLink, CreateFlags, IfInfo(AfPacket, 0, 0, 0));
    var buf := StartLink(CreateFlags, AfPacket, 0, 0, 0);
    AlignBelow(AttrHeaderLen + |ifname.payload|, MaxNameLen + 5);
    Append(buf, fixed, [], ifname);
    assert Align(AttrHeaderLen + |kind.payload|) == 12;
    AppendNested(buf, fixed, [] + EncodeAttr(ifname), IflaLinkInfo, kind);
    msg := Sent(buf, fixed, [] + EncodeAttr(ifname) + EncodeAttr(Attribute(IflaLinkInfo, EncodeAttr(kind))));
    CreateBridgeImage(name);
  }

  /** join_bridge: the bridge's index comes from the name lookup, or is 0
      when no bridge name is given. */
  method JoinBridge(brname: Option<Bytes>, port: I32, nameToIndex: Bytes -> U32) returns (msg: Bytes)
    ensures msg == JoinBridgeRequest(if brname.Some? then nameToIndex(brname.value) else 0, port)
  {
    var brIndex: U32;
    if brname.Some? {
      brIndex := nameToIndex(brname.value);
    } else {
      brIndex := 0;
    }
    ghost var fixed := Fixed(RtmNewLink, FlagRequest, IfInfo(AfPacket, ToU32(port), 0, 0));
    var buf := StartLink(FlagRequest, AfPacket, ToU32(port), 0, 0);
    var master := Attribute(IflaMaster, LE32(brIndex));
    Append(buf, fixed, [], master);
    msg := Sent(buf, fixed, [] + EncodeAttr(master));
    JoinBridgeImage(brIndex, port);
  }

  /** leave_bridge: join_bridge with no bridge name. */
  method LeaveBridge(port: I32) returns (msg: Bytes)
    ensures msg == JoinBridgeRequest(0, port)
  {
    msg := JoinBridge(None, port, (_: Bytes) => 0);
  }

  /** set_ip_address: the broadcast address is computed first, the index of
      the device comes from the name lookup, and `beyond` stands for the four
      bytes that follow the broadcast variable in memory. */
  method SetIpAddress(ip: bv32, netmask: int, devname: Bytes, nameToIndex: Bytes -> U32, beyond: Bytes) returns (msg: Bytes)
    requires 0 <= netmask && |beyond| == 4
    ensures msg == SetIpAddressRequest(ip, netmask, nameToIndex(devname), beyond)
  {
    var broadcast := ComputeBroadcast(ip, netmask);
    var index := nameToIndex(devname);
    var prefixLen := (netmask % 256) as byte;
    msg := SendAddress(prefixLen, index, NetworkOrder(ip), NetworkOrder(broadcast) + beyond);
    SetIpAddressImage(ip, broadcast, prefixLen, index, beyond);
  }

  /** The part of set_ip_address after the broadcast computation: the
      ifaddrmsg, the address (in network order) as IFA_LOCAL and as
      IFA_ADDRESS, and the 8 broadcast bytes as IFA_BROADCAST. */
  method SendAddress(prefixLen: byte, index: U32, addr: Bytes, bcast: Bytes) returns (msg: Bytes)
    requires |addr| == 4 && |bcast| == 8
    ensures msg == Image(Fixed(RtmNewAddr, CreateFlags, IfAddr(AfInet, prefixLen, index)), AddressAttrBytes(addr, bcast))
  {
    ghost var fixed := Fixed(RtmNewAddr, CreateFlags, IfAddr(AfInet, prefixLen, index));
    var buf := StartAddr(CreateFlags, AfInet, prefixLen, index);
    var local := Attribute(IfaLocal, addr);
    var address := Attribute(IfaAddress, addr);
    var broadcast := Attribute(IfaBroadcast, bcast);
    ghost var e1 := [] + EncodeAttr(local);
    ghost var e2 := e1 + EncodeAttr(address);
    Append(buf, fixed, [], local);
    Append(buf, fixed, e1, address);
    Append(buf, fixed, e2, broadcast);
    msg := Sent(buf, fixed, e2 + EncodeAttr(broadcast));
  }

  /** dev_up: the device's index comes from the name lookup. */
  method DevUp(devname: Bytes, nameToIndex: Bytes -> U32) returns (msg: Bytes)
    ensures msg == DevUpRequest(nameToIndex(devname))
  {
    var index := nameToIndex(devname);
    ghost var fixed := Fixed(RtmNewLink, FlagRequest, IfInfo(AfPacket, index, IffUp, IffUp));
    var buf := StartLink(FlagRequest, AfPacket, index, IffUp, IffUp);
    msg := Sent(buf, fixed, []);
    assert EncodeAll([]) == [];
  }
}

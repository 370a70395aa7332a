// The dump side of netdev/netlink.c: get_netdev_names and get_fdb send one
// dump request and then walk the replies, message by message (NLMSG_OK,
// NLMSG_NEXT) and inside each message attribute by attribute (RTA_OK,
// RTA_NEXT), collecting one record per message until NLMSG_DONE.
//
// The replies are a finite sequence of received datagrams; where the code
// would block in read() once they are used up, the dump ends as `Blocked`.
module Dump {
  import opened Wire
  import opened Attributes
  import opened Builders

  /** IFLA_RTA(NLMSG_DATA(nh)): the attributes of a link message start after
      the header and the ifinfomsg. */
  const LinkAttrStart: nat := 32
  /** The attributes of a neighbour message start after the header and the
      ndmsg (16 + NLMSG_ALIGN(12)); the code gets there as IFLA_RTA - 4. */
  const NeighAttrStart: nat := 28
  /** ndm_ifindex inside a neighbour message. */
  const NdIfindexAt: nat := 20
  /** Size of the link-layer address of an FDB entry. */
  const AddrLen: nat := 6

  /** An accepted message of a datagram: its offset, nlmsg_len and nlmsg_type. */
  datatype Msg = Msg(at: nat, len: nat, mtype: U16)

  /** An accepted message together with the datagram it was read from. */
  datatype Received = Received(d: Bytes, m: Msg)

  /** How a dump ends: at NLMSG_DONE with the records collected so far, in
      read() once the datagrams are used up, or in a read past the received
      bytes (or a write past a record's address field). */
  datatype Dump<T> = Complete(items: seq<T>) | Blocked(items: seq<T>) | Undefined

  /** A forwarding-database entry: the port's name and the link-layer
      address, each byte of which is None until an NDA_LLADDR sets it. */
  datatype Fib = Fib(destination: Bytes, addr: seq<Option<byte>>)

  // ---------------------------------------------------------------------
  // The message walk

  /** NLMSG_OK at offset `a`, with |d| - a bytes remaining. */
  predicate MessageOk(d: Bytes, a: nat)
  {
    |d| - a >= HeaderLen && HeaderLen <= U32At(d, a) <= |d| - a
  }

  function MessageAt(d: Bytes, a: nat): (m: Msg)
    requires MessageOk(d, a)
    ensures m.at == a && HeaderLen <= m.len && m.at + m.len <= |d|
  {
    Msg(a, U32At(d, a), U16At(d, a + 4))
  }

  /** The messages NLMSG_OK accepts from offset `a` on, each next one at
      NLMSG_ALIGN(nlmsg_len) from the previous; the first that fails ends
      the walk. */
  function MessagesFrom(d: Bytes, a: nat): seq<Msg>
    decreases |d| - a
  {
    if MessageOk(d, a) then
      var m := MessageAt(d, a);
      [m] + MessagesFrom(d, a + Align(m.len))
    else []
  }

  /** Every accepted message lies inside the datagram and holds at least a
      header; the first starts at `a` and each next one at the aligned end of
      the previous; there are at most (|d| - a) / 16 of them. */
  lemma {:induction false} MessagesInDatagram(d: Bytes, a: nat)
    ensures var ms := MessagesFrom(d, a);
      && (forall i :: 0 <= i < |ms| ==> a <= ms[i].at && HeaderLen <= ms[i].len && ms[i].at + ms[i].len <= |d|)
      && (forall i :: 0 <= i < |ms| - 1 ==> ms[i + 1].at == ms[i].at + Align(ms[i].len))
      && (ms != [] ==> ms[0].at == a)
      && HeaderLen * |ms| <= if |d| < a then 0 else |d| - a
    decreases |d| - a
  {
    if MessageOk(d, a) {
      var m := MessageAt(d, a);
      var ms := MessagesFrom(d, a);
      var rest := MessagesFrom(d, a + Align(m.len));
      MessagesInDatagram(d, a + Align(m.len));
      assert ms == [m] + rest;
      assert forall i :: 1 <= i < |ms| ==> ms[i] == rest[i - 1];
    }
  }

  // ---------------------------------------------------------------------
  // The dump, datagram by datagram

  /** The records of the accepted messages `ms` of datagram `d` up to the
      first NLMSG_DONE: Blocked when the datagram ends without one. */
  function InDatagram<T>(d: Bytes, ms: seq<Msg>, record: (Bytes, Msg) -> Behaviour<T>): Dump<T>
  {
    if ms == [] then Blocked([])
    else if ms[0].mtype == NlmsgDone then Complete([])
    else match record(d, ms[0])
      case Overrun => Undefined
      case Defined(x) => Prepend([x], InDatagram(d, ms[1..], record))
  }

  /** A dump over one part of the replies followed by the rest: only a part
      that ends in read() goes on to the rest. */
  function Then<T>(first: Dump<T>, rest: Dump<T>): Dump<T>
  {
    if first.Blocked? then Prepend(first.items, rest) else first
  }

  /** The dump over datagrams `k` and later. */
  function DumpFrom<T>(ds: seq<Bytes>, k: nat, record: (Bytes, Msg) -> Behaviour<T>): Dump<T>
    requires k <= |ds|
    decreases |ds| - k
  {
    if k == |ds| then Blocked([])
    else Then(InDatagram(ds[k], MessagesFrom(ds[k], 0), record), DumpFrom(ds, k + 1, record))
  }

  /** One step of the message loop at an accepted message `m`, with `acc`
      collected: NLMSG_DONE completes the dump with what was collected, an
      undefined record makes it undefined, and any other record is added
      before the walk moves on. */
  lemma MessageStep<T>(d: Bytes, m: Msg, ms: seq<Msg>, acc: seq<T>, record: (Bytes, Msg) -> Behaviour<T>)
    ensures Prepend(acc, InDatagram(d, [m] + ms, record))
      == if m.mtype == NlmsgDone then Complete(acc)
         else if record(d, m).Overrun? then Undefined
         else Prepend(acc + [record(d, m).value], InDatagram(d, ms, record))
  {
    assert ([m] + ms)[0] == m && ([m] + ms)[1..] == ms;
    if m.mtype == NlmsgDone {
      assert acc + [] == acc;
    } else if record(d, m).Defined? {
      PrependTwice(acc, [record(d, m).value], InDatagram(d, ms, record));
    }
  }

  /** Records collected before a datagram come before those of the datagram,
      whether or not the dump goes on past it. */
  lemma PrependThen<T>(acc: seq<T>, first: Dump<T>, rest: Dump<T>)
    ensures Prepend(acc, Then(first, rest)) == Then(Prepend(acc, first), rest)
  {
    if first.Blocked? {
      PrependTwice(acc, first.items, rest);
    }
  }

  lemma PrependNothing<T>(r: Dump<T>)
    ensures Prepend([], r) == r
  {
    if !r.Undefined? {
      assert [] + r.items == r.items;
    }
  }

  /** The walk of datagram `k` begins at its first byte. */
  lemma DatagramStart<T>(ds: seq<Bytes>, k: nat, record: (Bytes, Msg) -> Behaviour<T>)
    requires k < |ds|
    ensures DumpFrom(ds, k, record) == Then(InDatagram(ds[k], MessagesFrom(ds[k], 0), record), DumpFrom(ds, k + 1, record))
  {
  }

  /** A message that fails NLMSG_OK ends the datagram. */
  lemma MessagesEnd(d: Bytes, a: nat)
    requires !MessageOk(d, a)
    ensures MessagesFrom(d, a) == []
  {
  }

  /** Within a datagram, the next message follows the current one. */
  lemma MessagesStep(d: Bytes, a: nat)
    requires MessageOk(d, a)
    ensures MessagesFrom(d, a) == [MessageAt(d, a)] + MessagesFrom(d, a + Align(MessageAt(d, a).len))
  {
  }

  // ---------------------------------------------------------------------
  // The dump, stated over the accepted messages

  /** Every message the walk accepts, datagram after datagram, from datagram `k` on. */
  function Accepted(ds: seq<Bytes>, k: nat): seq<Received>
    requires k <= |ds|
    decreases |ds| - k
  {
    if k == |ds| then [] else Tag(ds[k], MessagesFrom(ds[k], 0)) + Accepted(ds, k + 1)
  }

  function Tag(d: Bytes, ms: seq<Msg>): (r: seq<Received>)
    ensures |r| == |ms| && forall i :: 0 <= i < |ms| ==> r[i] == Received(d, ms[i])
  {
    seq(|ms|, i requires 0 <= i < |ms| => Received(d, ms[i]))
  }

  lemma TagCons(d: Bytes, m: Msg, ms: seq<Msg>)
    ensures Tag(d, [m] + ms) == [Received(d, m)] + Tag(d, ms)
  {
    assert Tag(d, [m] + ms)[1..] == Tag(d, ms);
  }

  predicate IsDone(r: Received)
  {
    r.m.mtype == NlmsgDone
  }

  /** The records of the messages before the first NLMSG_DONE; complete if
      there is one, undefined if a record before it is. */
  function Expected<T>(rs: seq<Received>, record: (Bytes, Msg) -> Behaviour<T>): Dump<T>
  {
    if rs == [] then Blocked([])
    else if IsDone(rs[0]) then Complete([])
    else match record(rs[0].d, rs[0].m)
      case Overrun => Undefined
      case Defined(x) => Prepend([x], Expected(rs[1..], record))
  }

  function Prepend<T>(xs: seq<T>, r: Dump<T>): Dump<T>
  {
    match r
    case Complete(items) => Complete(xs + items)
    case Blocked(items) => Blocked(xs + items)
    case Undefined => Undefined
  }

  /** The messages before the first NLMSG_DONE. */
  function UntilDone(rs: seq<Received>): (r: seq<Received>)
    ensures |r| <= |rs| && r == rs[..|r|]
    ensures forall i :: 0 <= i < |r| ==> !IsDone(rs[i])
    ensures |r| < |rs| ==> IsDone(rs[|r|])
  {
    if rs == [] || IsDone(rs[0]) then [] else [rs[0]] + UntilDone(rs[1..])
  }

  /** What the dump means: it completes exactly when an NLMSG_DONE arrives,
      its records are those of the accepted messages before it, one per
      message and in order, and it is undefined exactly when one of those
      records is. */
  lemma {:induction false} ExpectedMeaning<T>(rs: seq<Received>, record: (Bytes, Msg) -> Behaviour<T>)
    ensures var before := UntilDone(rs);
      var r := Expected(rs, record);
      && (r.Undefined? ==> exists i :: 0 <= i < |before| && record(before[i].d, before[i].m).Overrun?)
      && (!r.Undefined? ==>
           && (r.Complete? <==> |before| < |rs|)
           && |r.items| == |before|
           && forall i :: 0 <= i < |before| ==> record(before[i].d, before[i].m) == Defined(r.items[i]))
    decreases |rs|
  {
    if rs != [] && !IsDone(rs[0]) {
      var before := UntilDone(rs);
      var rest := UntilDone(rs[1..]);
      assert before == [rs[0]] + rest;
      ExpectedMeaning(rs[1..], record);
      match record(rs[0].d, rs[0].m)
      case Overrun =>
        assert record(before[0].d, before[0].m).Overrun?;
      case Defined(x) =>
        match Expected(rs[1..], record)
        case Undefined =>
          var i :| 0 <= i < |rest| && record(rest[i].d, rest[i].m).Overrun?;
          assert before[i + 1] == rest[i];
        case Complete(items) =>
          assert Expected(rs, record) == Complete([x] + items);
          forall i | 0 <= i < |before|
            ensures record(before[i].d, before[i].m) == Defined(([x] + items)[i])
          {
            if i > 0 { assert before[i] == rest[i - 1]; }
          }
        case Blocked(items) =>
          assert Expected(rs, record) == Blocked([x] + items);
          forall i | 0 <= i < |before|
            ensures record(before[i].d, before[i].m) == Defined(([x] + items)[i])
          {
            if i > 0 { assert before[i] == rest[i - 1]; }
          }
    }
  }

  /** Expected on a list with a known first message. */
  lemma ExpectedCons<T>(r: Received, later: seq<Received>, record: (Bytes, Msg) -> Behaviour<T>)
    ensures Expected([r] + later, record)
      == if IsDone(r) then Complete([])
         else if record(r.d, r.m).Overrun? then Undefined
         else Prepend([record(r.d, r.m).value], Expected(later, record))
  {
    assert ([r] + later)[0] == r && ([r] + later)[1..] == later;
  }

  lemma PrependTwice<T>(xs: seq<T>, ys: seq<T>, r: Dump<T>)
    ensures Prepend(xs + ys, r) == Prepend(xs, Prepend(ys, r))
  {
    match r
    case Complete(items) => assert xs + ys + items == xs + (ys + items);
    case Blocked(items) => assert xs + ys + items == xs + (ys + items);
    case Undefined =>
  }

  /** The datagram-by-datagram dump is the dump over all accepted messages. */
  lemma {:induction false} DumpFromIsExpected<T>(ds: seq<Bytes>, k: nat, record: (Bytes, Msg) -> Behaviour<T>)
    requires k <= |ds|
    ensures DumpFrom(ds, k, record) == Expected(Accepted(ds, k), record)
    decreases |ds| - k
  {
    if k < |ds| {
      var t := Tag(ds[k], MessagesFrom(ds[k], 0));
      DumpFromIsExpected(ds, k + 1, record);
      InDatagramIsExpected(ds[k], MessagesFrom(ds[k], 0), record);
      ExpectedAppend(t, Accepted(ds, k + 1), record);
    }
  }

  lemma {:induction false} InDatagramIsExpected<T>(d: Bytes, ms: seq<Msg>, record: (Bytes, Msg) -> Behaviour<T>)
    ensures InDatagram(d, ms, record) == Expected(Tag(d, ms), record)
    decreases |ms|
  {
    if ms != [] {
      assert [ms[0]] + ms[1..] == ms;
      TagCons(d, ms[0], ms[1..]);
      ExpectedCons(Received(d, ms[0]), Tag(d, ms[1..]), record);
      InDatagramIsExpected(d, ms[1..], record);
    }
  }

  /** The dump over two lists of messages in a row. */
  lemma {:induction false} ExpectedAppend<T>(xs: seq<Received>, ys: seq<Received>, record: (Bytes, Msg) -> Behaviour<T>)
    ensures Expected(xs + ys, record) == Then(Expected(xs, record), Expected(ys, record))
    decreases |xs|
  {
    if xs == [] {
      assert xs + ys == ys;
      PrependNothing(Expected(ys, record));
    } else {
      assert xs + ys == [xs[0]] + (xs[1..] + ys);
      assert xs == [xs[0]] + xs[1..];
      ExpectedCons(xs[0], xs[1..] + ys, record);
      ExpectedCons(xs[0], xs[1..], record);
      ExpectedAppend(xs[1..], ys, record);
      var r := Expected(xs[1..], record);
      if r.Blocked? && !IsDone(xs[0]) && record(xs[0].d, xs[0].m).Defined? {
        PrependTwice([record(xs[0].d, xs[0].m).value], r.items, Expected(ys, record));
      }
    }
  }

  // ---------------------------------------------------------------------
  // get_netdev_names

  /** strdup of the string at offset `i`: the bytes up to the first NUL,
      which must lie inside the received bytes. */
  function CStringAt(d: Bytes, i: nat): (r: Behaviour<Bytes>)
    ensures r.Defined? ==> i + |r.value| < |d| && d[i..i + |r.value|] == r.value && d[i + |r.value|] == 0 && NulFree(r.value)
    ensures r.Overrun? <==> forall j :: i <= j < |d| ==> d[j] != 0
    decreases |d| - i
  {
    if i >= |d| then Overrun
    else if d[i] == 0 then Defined([])
    else match CStringAt(d, i + 1)
      case Overrun => Overrun
      case Defined(s) => Defined([d[i]] + s)
  }

  /** The device name slot after the attributes `rs`, starting from `slot`:
      every IFLA_IFNAME attribute overwrites it with a copy of its string. */
  function LastName(d: Bytes, rs: seq<Rta>, slot: Option<Bytes>): Behaviour<Option<Bytes>>
    decreases |rs|
  {
    if rs == [] then Defined(slot)
    else if rs[0].rtype != IflaIfname then LastName(d, rs[1..], slot)
    else match CStringAt(d, rs[0].at + AttrHeaderLen)
      case Overrun => Overrun
      case Defined(s) => LastName(d, rs[1..], Some(s))
  }

  /** The name slot after walking the attributes from `at` with budget `l`. */
  function NamesFrom(d: Bytes, at: nat, l: int, slot: Option<Bytes>): Behaviour<Option<Bytes>>
  {
    match AttrsFrom(d, at, l)
    case Overrun => Overrun
    case Defined(rs) => LastName(d, rs, slot)
  }

  /** The record get_netdev_names keeps for a link message: its attributes
      start 32 bytes in, and the budget is what of the message lies past
      that point. */
  function NameRecord(d: Bytes, m: Msg): Behaviour<Option<Bytes>>
  {
    NamesFrom(d, m.at + LinkAttrStart, m.len - LinkAttrStart, None)
  }

  /** The record as the code computes it, with the whole nlmsg_len as budget. */
  function NameRecordAsWritten(d: Bytes, m: Msg): Behaviour<Option<Bytes>>
  {
    NamesFrom(d, m.at + LinkAttrStart, m.len, None)
  }

  /** A message without IFLA_IFNAME attributes leaves the slot as it was. */
  lemma {:induction false} NoNameKeepsSlot(d: Bytes, rs: seq<Rta>, slot: Option<Bytes>)
    requires forall i :: 0 <= i < |rs| ==> rs[i].rtype != IflaIfname
    ensures LastName(d, rs, slot) == Defined(slot)
    decreases |rs|
  {
    if rs != [] {
      assert forall i :: 0 <= i < |rs[1..]| ==> rs[1..][i] == rs[i + 1];
      NoNameKeepsSlot(d, rs[1..], slot);
    }
  }

  /** Walking two runs of attributes one after the other. */
  lemma {:induction false} LastNameAppend(d: Bytes, xs: seq<Rta>, ys: seq<Rta>, slot: Option<Bytes>)
    ensures LastName(d, xs + ys, slot)
      == match LastName(d, xs, slot) case Overrun => Overrun case Defined(s) => LastName(d, ys, s)
    decreases |xs|
  {
    if xs == [] {
      assert xs + ys == ys;
    } else {
      assert (xs + ys)[0] == xs[0] && (xs + ys)[1..] == xs[1..] + ys;
      match CStringAt(d, xs[0].at + AttrHeaderLen)
      case Overrun =>
        LastNameAppend(d, xs[1..], ys, slot);
      case Defined(s) =>
        LastNameAppend(d, xs[1..], ys, slot);
        LastNameAppend(d, xs[1..], ys, Some(s));
    }
  }

  /** The slot ends up holding the string of the last IFLA_IFNAME attribute. */
  lemma LastNameWins(d: Bytes, rs: seq<Rta>, slot: Option<Bytes>, i: nat)
    requires i < |rs| && rs[i].rtype == IflaIfname
    requires forall j :: i < j < |rs| ==> rs[j].rtype != IflaIfname
    requires LastName(d, rs, slot).Defined?
    ensures CStringAt(d, rs[i].at + AttrHeaderLen).Defined?
    ensures LastName(d, rs, slot) == Defined(Some(CStringAt(d, rs[i].at + AttrHeaderLen).value))
  {
    LastNameAt(d, rs, slot, i);
  }

  /** The slot of a link message: the string of its last IFLA_IFNAME. */
  lemma NameRecordName(d: Bytes, m: Msg, rs: seq<Rta>, k: nat)
    requires NameRecord(d, m).Defined?
    requires AttrsFrom(d, m.at + LinkAttrStart, m.len - LinkAttrStart) == Defined(rs)
    requires k < |rs| && rs[k].rtype == IflaIfname
    requires forall j :: k < j < |rs| ==> rs[j].rtype != IflaIfname
    ensures CStringAt(d, rs[k].at + AttrHeaderLen).Defined?
    ensures NameRecord(d, m) == Defined(Some(CStringAt(d, rs[k].at + AttrHeaderLen).value))
  {
    LastNameWins(d, rs, None, k);
  }

  /** A link message without IFLA_IFNAME leaves its slot unset. */
  lemma NameRecordNoName(d: Bytes, m: Msg, rs: seq<Rta>)
    requires AttrsFrom(d, m.at + LinkAttrStart, m.len - LinkAttrStart) == Defined(rs)
    requires forall j :: 0 <= j < |rs| ==> rs[j].rtype != IflaIfname
    ensures NameRecord(d, m) == Defined(None)
  {
    NoNameKeepsSlot(d, rs, None);
  }

  /** With no IFLA_IFNAME after attribute `i`, the slot is the string of
      attribute `i`, once the attributes before it were walked. */
  lemma LastNameAt(d: Bytes, rs: seq<Rta>, slot: Option<Bytes>, i: nat)
    requires i < |rs| && rs[i].rtype == IflaIfname
    requires forall j :: i < j < |rs| ==> rs[j].rtype != IflaIfname
    ensures LastName(d, rs, slot)
      == if LastName(d, rs[..i], slot).Overrun? || CStringAt(d, rs[i].at + AttrHeaderLen).Overrun? then Overrun
         else Defined(Some(CStringAt(d, rs[i].at + AttrHeaderLen).value))
  {
    var before, after := rs[..i], rs[i + 1..];
    Around(rs, i);
    LastNameAppend(d, before, [rs[i]] + after, slot);
    var b := LastName(d, before, slot);
    if b.Defined? {
      NameThenNoName(d, rs[i], after, b.value);
    }
  }

  lemma NameThenNoName(d: Bytes, r: Rta, after: seq<Rta>, slot: Option<Bytes>)
    requires r.rtype == IflaIfname
    requires forall j :: 0 <= j < |after| ==> after[j].rtype != IflaIfname
    ensures LastName(d, [r] + after, slot)
      == if CStringAt(d, r.at + AttrHeaderLen).Overrun? then Overrun
         else Defined(Some(CStringAt(d, r.at + AttrHeaderLen).value))
  {
    assert ([r] + after)[0] == r && ([r] + after)[1..] == after;
    if CStringAt(d, r.at + AttrHeaderLen).Defined? {
      NoNameKeepsSlot(d, after, Some(CStringAt(d, r.at + AttrHeaderLen).value));
    }
  }

  /** One step of the attribute loop of get_netdev_names. */
  lemma NamesStep(d: Bytes, at: nat, l: int, slot: Option<Bytes>)
    requires l >= AttrHeaderLen && at + 4 <= |d|
    requires AttrHeaderLen <= U16At(d, at) <= l
    ensures var len := U16At(d, at);
      NamesFrom(d, at, l, slot)
      == if U16At(d, at + 2) != IflaIfname then NamesFrom(d, at + Align(len), l - Align(len), slot)
         else match CStringAt(d, at + AttrHeaderLen)
           case Overrun => Overrun
           case Defined(s) => NamesFrom(d, at + Align(len), l - Align(len), Some(s))
  {
    var len := U16At(d, at);
    var r := Rta(at, len, U16At(d, at + 2));
    match AttrsFrom(d, at + Align(len), l - Align(len))
    case Overrun =>
      if U16At(d, at + 2) == IflaIfname && CStringAt(d, at + AttrHeaderLen).Defined? {
        assert NamesFrom(d, at + Align(len), l - Align(len), Some(CStringAt(d, at + AttrHeaderLen).value)) == Overrun;
      }
    case Defined(rest) =>
      assert AttrsFrom(d, at, l) == Defined([r] + rest);
      assert ([r] + rest)[0] == r && ([r] + rest)[1..] == rest;
  }

  /** The attribute loop of get_netdev_names over one link message. */
  method NameOfMessage(d: Bytes, m: Msg) returns (slot: Behaviour<Option<Bytes>>)
    ensures slot == NameRecord(d, m)
  {
    var at: nat := m.at + LinkAttrStart;
    var l: int := m.len - LinkAttrStart;
    var name: Option<Bytes> := None;
    while l >= AttrHeaderLen
      invariant NamesFrom(d, at, l, name) == NameRecord(d, m)
      decreases l
    {
      if at + 2 > |d| {
        return Overrun;
      }
      var len := U16At(d, at);
      if len < AttrHeaderLen || len > l {
        break;
      }
      if at + 4 > |d| {
        return Overrun;
      }
      NamesStep(d, at, l, name);
      if U16At(d, at + 2) == IflaIfname {
        var s := CStringAt(d, at + AttrHeaderLen);
        if s.Overrun? {
          return Overrun;
        }
        name := Some(s.value);
      }
      at := at + Align(len);
      l := l - Align(len);
    }
    return Defined(name);
  }

  /** The message loop of get_netdev_names over one datagram, after `names`
      were collected from the earlier ones. */
  method NamesOfDatagram(d: Bytes, names: seq<Option<Bytes>>) returns (r: Dump<Option<Bytes>>)
    ensures r == Prepend(names, InDatagram(d, MessagesFrom(d, 0), NameRecord))
  {
    ghost var goal := Prepend(names, InDatagram(d, MessagesFrom(d, 0), NameRecord));
    var acc := names;
    var a := 0;
    while MessageOk(d, a)
      invariant Prepend(acc, InDatagram(d, MessagesFrom(d, a), NameRecord)) == goal
      decreases |d| - a
    {
      var m := MessageAt(d, a);
      var next := a + Align(m.len);
      assert |d| - next < |d| - a;
      MessagesStep(d, a);
      MessageStep(d, m, MessagesFrom(d, next), acc, NameRecord);
      if m.mtype == NlmsgDone {
        return Complete(acc);
      }
      var slot := NameOfMessage(d, m);
      if slot.Overrun? {
        return Undefined;
      }
      acc := acc + [slot.value];
      a := next;
    }
    MessagesEnd(d, a);
    assert acc + [] == acc;
    return Blocked(acc);
  }

  /** get_netdev_names over the datagrams `ds`: one slot per link message,
      until NLMSG_DONE. */
  method GetNetdevNames(ds: seq<Bytes>) returns (result: Dump<Option<Bytes>>)
    ensures result == DumpFrom(ds, 0, NameRecord)
  {
    var names: seq<Option<Bytes>> := [];
    var k := 0;
    while k < |ds|
      invariant k <= |ds|
      invariant Prepend(names, DumpFrom(ds, k, NameRecord)) == DumpFrom(ds, 0, NameRecord)
    {
      DatagramStart(ds, k, NameRecord);
      PrependThen(names, InDatagram(ds[k], MessagesFrom(ds[k], 0), NameRecord), DumpFrom(ds, k + 1, NameRecord));
      var r := NamesOfDatagram(ds[k], names);
      if !r.Blocked? {
        return r;
      }
      names := r.items;
      k := k + 1;
    }
    assert names + [] == names;
    return Blocked(names);
  }

  // ---------------------------------------------------------------------
  // get_fdb

  /** The address field of a new record: realloc leaves every byte unset. */
  const Unset: seq<Option<byte>> := seq(AddrLen, _ => None)

  /** The copy loop of an NDA_LLADDR attribute `r`: its RTA_PAYLOAD bytes go
      to the start of `addr`, one by one, with no bound. A payload longer
      than the field writes past it; a payload past the received bytes is
      read past them. */
  function CopyAddr(d: Bytes, r: Rta, addr: seq<Option<byte>>): (out: Behaviour<seq<Option<byte>>>)
    requires |addr| == AddrLen && r.len >= AttrHeaderLen
    ensures out.Defined? ==> |out.value| == AddrLen
  {
    var n := r.len - AttrHeaderLen;
    if n > AddrLen || (n > 0 && r.at + r.len > |d|) then Overrun
    else Defined(seq(AddrLen, i requires 0 <= i < AddrLen => if i < n then Some(d[r.at + AttrHeaderLen + i]) else addr[i]))
  }

  /** The copy fails exactly when the payload is longer than the field or
      runs past the received bytes; otherwise the payload lands at the start
      of the field and the rest of the field keeps its bytes. */
  lemma CopyAddrMeaning(d: Bytes, r: Rta, addr: seq<Option<byte>>)
    requires |addr| == AddrLen && r.len >= AttrHeaderLen
    ensures var out := CopyAddr(d, r, addr);
      && (out.Overrun? <==> r.len - AttrHeaderLen > AddrLen || (r.len > AttrHeaderLen && r.at + r.len > |d|))
      && (out.Defined? ==> forall i :: 0 <= i < r.len - AttrHeaderLen ==> out.value[i] == Some(d[r.at + AttrHeaderLen + i]))
      && (out.Defined? ==> forall i :: r.len - AttrHeaderLen <= i < AddrLen ==> out.value[i] == addr[i])
  {
  }

  /** The address after the attributes `rs`: each NDA_LLADDR is copied in turn. */
  function LastAddr(d: Bytes, rs: seq<Rta>, addr: seq<Option<byte>>): (out: Behaviour<seq<Option<byte>>>)
    requires |addr| == AddrLen
    requires forall i :: 0 <= i < |rs| ==> rs[i].len >= AttrHeaderLen
    ensures out.Defined? ==> |out.value| == AddrLen
    decreases |rs|
  {
    if rs == [] then Defined(addr)
    else if rs[0].rtype != NdaLladdr then LastAddr(d, rs[1..], addr)
    else match CopyAddr(d, rs[0], addr)
      case Overrun => Overrun
      case Defined(a) => LastAddr(d, rs[1..], a)
  }

  /** The address after walking the attributes from `at` with budget `l`. */
  function AddrsFrom(d: Bytes, at: nat, l: int, addr: seq<Option<byte>>): (out: Behaviour<seq<Option<byte>>>)
    requires |addr| == AddrLen
    ensures out.Defined? ==> |out.value| == AddrLen
  {
    match AttrsFrom(d, at, l)
    case Overrun => Overrun
    case Defined(rs) =>
      AttrsStayInWindow(d, at, l);
      LastAddr(d, rs, addr)
  }

  /** The record get_fdb keeps for a neighbour message: the destination is the
      name of the interface whose index is ndm_ifindex, and the attributes
      start 28 bytes in, with what of the message lies past that point as
      budget. */
  function FibRecord(d: Bytes, m: Msg, indexToName: U32 -> Bytes): (r: Behaviour<Fib>)
    ensures r.Defined? ==> m.at + NdIfindexAt + 4 <= |d|
    ensures r.Defined? ==> r.value.destination == indexToName(U32At(d, m.at + NdIfindexAt)) && |r.value.addr| == AddrLen
  {
    if m.at + NdIfindexAt + 4 > |d| then Overrun
    else match AddrsFrom(d, m.at + NeighAttrStart, m.len - NeighAttrStart, Unset)
      case Overrun => Overrun
      case Defined(addr) => Defined(Fib(indexToName(U32At(d, m.at + NdIfindexAt)), addr))
  }

  /** The record as the code computes it, with the whole nlmsg_len as budget. */
  function FibRecordAsWritten(d: Bytes, m: Msg, indexToName: U32 -> Bytes): Behaviour<Fib>
  {
    if m.at + NdIfindexAt + 4 > |d| then Overrun
    else match AddrsFrom(d, m.at + NeighAttrStart, m.len, Unset)
      case Overrun => Overrun
      case Defined(addr) => Defined(Fib(indexToName(U32At(d, m.at + NdIfindexAt)), addr))
  }

  /** The per-message record of get_fdb for a given interface lookup. */
  function FibOf(indexToName: U32 -> Bytes): (Bytes, Msg) -> Behaviour<Fib>
  {
    (d, m) => FibRecord(d, m, indexToName)
  }

  /** One step of the attribute loop of get_fdb. */
  lemma AddrsStep(d: Bytes, at: nat, l: int, addr: seq<Option<byte>>)
    requires |addr| == AddrLen
    requires l >= AttrHeaderLen && at + 4 <= |d|
    requires AttrHeaderLen <= U16At(d, at) <= l
    ensures var len := U16At(d, at);
      AddrsFrom(d, at, l, addr)
      == if U16At(d, at + 2) != NdaLladdr then AddrsFrom(d, at + Align(len), l - Align(len), addr)
         else match CopyAddr(d, Rta(at, len, NdaLladdr), addr)
           case Overrun => Overrun
           case Defined(a) => AddrsFrom(d, at + Align(len), l - Align(len), a)
  {
    var len := U16At(d, at);
    var r := Rta(at, len, U16At(d, at + 2));
    AttrsStayInWindow(d, at + Align(len), l - Align(len));
    match AttrsFrom(d, at + Align(len), l - Align(len))
    case Overrun =>
      if U16At(d, at + 2) == NdaLladdr && CopyAddr(d, r, addr).Defined? {
        assert AddrsFrom(d, at + Align(len), l - Align(len), CopyAddr(d, r, addr).value) == Overrun;
      }
    case Defined(rest) =>
      assert AttrsFrom(d, at, l) == Defined([r] + rest);
      assert ([r] + rest)[0] == r && ([r] + rest)[1..] == rest;
  }

  /** The copy loop of one NDA_LLADDR attribute. */
  method CopyLladdr(d: Bytes, r: Rta, addr: seq<Option<byte>>) returns (out: Behaviour<seq<Option<byte>>>)
    requires |addr| == AddrLen && r.len >= AttrHeaderLen
    ensures out == CopyAddr(d, r, addr)
  {
    var a := addr;
    var i := 0;
    while i < r.len - AttrHeaderLen
      invariant 0 <= i <= r.len - AttrHeaderLen && i <= AddrLen
      invariant i > 0 ==> r.at + AttrHeaderLen + i <= |d|
      invariant |a| == AddrLen
      invariant forall j :: 0 <= j < AddrLen ==> a[j] == if j < i then Some(d[r.at + AttrHeaderLen + j]) else addr[j]
    {
      if i >= AddrLen {
        return Overrun;
      }
      if r.at + AttrHeaderLen + i >= |d| {
        return Overrun;
      }
      a := a[i := Some(d[r.at + AttrHeaderLen + i])];
      i := i + 1;
    }
    CopyAddrMeaning(d, r, addr);
    assert CopyAddr(d, r, addr).Defined?;
    assert a == CopyAddr(d, r, addr).value;
    return Defined(a);
  }

  /** The attribute loop of get_fdb over one neighbour message, after the
      destination is looked up. */
  method FibOfMessage(d: Bytes, m: Msg, indexToName: U32 -> Bytes) returns (fib: Behaviour<Fib>)
    ensures fib == FibRecord(d, m, indexToName)
  {
    if m.at + NdIfindexAt + 4 > |d| {
      return Overrun;
    }
    var destination := indexToName(U32At(d, m.at + NdIfindexAt));
    var at: nat := m.at + NeighAttrStart;
    var l: int := m.len - NeighAttrStart;
    var addr := Unset;
    while l >= AttrHeaderLen
      invariant |addr| == AddrLen
      invariant AddrsFrom(d, at, l, addr) == AddrsFrom(d, m.at + NeighAttrStart, m.len - NeighAttrStart, Unset)
      decreases l
    {
      if at + 2 > |d| {
        return Overrun;
      }
      var len := U16At(d, at);
      if len < AttrHeaderLen || len > l {
        break;
      }
      if at + 4 > |d| {
        return Overrun;
      }
      AddrsStep(d, at, l, addr);
      if U16At(d, at + 2) == NdaLladdr {
        var copied := CopyLladdr(d, Rta(at, len, NdaLladdr), addr);
        if copied.Overrun? {
          return Overrun;
        }
        addr := copied.value;
      }
      at := at + Align(len);
      l := l - Align(len);
    }
    return Defined(Fib(destination, addr));
  }

  /** The message loop of get_fdb over one datagram, after `fibs` were
      collected from the earlier ones. */
  method FibsOfDatagram(d: Bytes, fibs: seq<Fib>, indexToName: U32 -> Bytes) returns (r: Dump<Fib>)
    ensures r == Prepend(fibs, InDatagram(d, MessagesFrom(d, 0), FibOf(indexToName)))
  {
    ghost var goal := Prepend(fibs, InDatagram(d, MessagesFrom(d, 0), FibOf(indexToName)));
    var acc := fibs;
    var a := 0;
    while MessageOk(d, a)
      invariant Prepend(acc, InDatagram(d, MessagesFrom(d, a), FibOf(indexToName))) == goal
      decreases |d| - a
    {
      var m := MessageAt(d, a);
      var next := a + Align(m.len);
      assert |d| - next < |d| - a;
      MessagesStep(d, a);
      MessageStep(d, m, MessagesFrom(d, next), acc, FibOf(indexToName));
      if m.mtype == NlmsgDone {
        return Complete(acc);
      }
      var fib := FibOfMessage(d, m, indexToName);
      if fib.Overrun? {
        return Undefined;
      }
      acc := acc + [fib.value];
      a := next;
    }
    MessagesEnd(d, a);
    assert acc + [] == acc;
    return Blocked(acc);
  }

  /** get_fdb over the datagrams `ds`: one record per neighbour message,
      until NLMSG_DONE. */
  method GetFdb(ds: seq<Bytes>, indexToName: U32 -> Bytes) returns (result: Dump<Fib>)
    ensures result == DumpFrom(ds, 0, FibOf(indexToName))
  {
    var fibs: seq<Fib> := [];
    var k := 0;
    while k < |ds|
      invariant k <= |ds|
      invariant Prepend(fibs, DumpFrom(ds, k, FibOf(indexToName))) == DumpFrom(ds, 0, FibOf(indexToName))
    {
      DatagramStart(ds, k, FibOf(indexToName));
      PrependThen(fibs, InDatagram(ds[k], MessagesFrom(ds[k], 0), FibOf(indexToName)), DumpFrom(ds, k + 1, FibOf(indexToName)));
      var r := FibsOfDatagram(ds[k], fibs, indexToName);
      if !r.Blocked? {
        return r;
      }
      fibs := r.items;
      k := k + 1;
    }
    assert fibs + [] == fibs;
    return Blocked(fibs);
  }

  // ---------------------------------------------------------------------
  // Properties of the get_fdb record

  /** A message without NDA_LLADDR attributes leaves the address as it was. */
  lemma {:induction false} NoLladdrKeepsAddr(d: Bytes, rs: seq<Rta>, addr: seq<Option<byte>>)
    requires |addr| == AddrLen
    requires forall i :: 0 <= i < |rs| ==> rs[i].len >= AttrHeaderLen && rs[i].rtype != NdaLladdr
    ensures LastAddr(d, rs, addr) == Defined(addr)
    decreases |rs|
  {
    if rs != [] {
      assert forall i :: 0 <= i < |rs[1..]| ==> rs[1..][i] == rs[i + 1];
      NoLladdrKeepsAddr(d, rs[1..], addr);
    }
  }

  /** Walking two runs of attributes one after the other. */
  lemma {:induction false} LastAddrAppend(d: Bytes, xs: seq<Rta>, ys: seq<Rta>, addr: seq<Option<byte>>)
    requires |addr| == AddrLen
    requires forall i :: 0 <= i < |xs| ==> xs[i].len >= AttrHeaderLen
    requires forall i :: 0 <= i < |ys| ==> ys[i].len >= AttrHeaderLen
    ensures forall i :: 0 <= i < |xs + ys| ==> (xs + ys)[i].len >= AttrHeaderLen
    ensures LastAddr(d, xs + ys, addr)
      == match LastAddr(d, xs, addr) case Overrun => Overrun case Defined(a) => LastAddr(d, ys, a)
    decreases |xs|
  {
    if xs == [] {
      assert xs + ys == ys;
    } else {
      assert (xs + ys)[0] == xs[0] && (xs + ys)[1..] == xs[1..] + ys;
      if xs[0].rtype != NdaLladdr {
        LastAddrAppend(d, xs[1..], ys, addr);
      } else {
        match CopyAddr(d, xs[0], addr)
        case Overrun =>
        case Defined(a) => LastAddrAppend(d, xs[1..], ys, a);
      }
    }
  }

  lemma LladdrThenNone(d: Bytes, r: Rta, after: seq<Rta>, addr: seq<Option<byte>>)
    requires |addr| == AddrLen && r.len >= AttrHeaderLen && r.rtype == NdaLladdr
    requires forall j :: 0 <= j < |after| ==> after[j].len >= AttrHeaderLen && after[j].rtype != NdaLladdr
    ensures LastAddr(d, [r] + after, addr) == CopyAddr(d, r, addr)
  {
    assert ([r] + after)[0] == r && ([r] + after)[1..] == after;
    if CopyAddr(d, r, addr).Defined? {
      NoLladdrKeepsAddr(d, after, CopyAddr(d, r, addr).value);
    }
  }

  /** A sequence around its element at `i`. */
  lemma Around(rs: seq<Rta>, i: nat)
    requires i < |rs|
    ensures rs == rs[..i] + ([rs[i]] + rs[i + 1..])
    ensures forall j :: 0 <= j < i ==> rs[..i][j] == rs[j]
    ensures var after := rs[i + 1..]; forall j :: 0 <= j < |after| ==> after[j] == rs[i + 1 + j]
  {
  }

  /** With no NDA_LLADDR after attribute `i`, the address is what copying
      attribute `i` makes of the address before it. */
  lemma LastCopyWins(d: Bytes, rs: seq<Rta>, addr: seq<Option<byte>>, i: nat)
    requires |addr| == AddrLen
    requires forall j :: 0 <= j < |rs| ==> rs[j].len >= AttrHeaderLen
    requires i < |rs| && rs[i].rtype == NdaLladdr
    requires forall j :: i < j < |rs| ==> rs[j].rtype != NdaLladdr
    ensures LastAddr(d, rs, addr)
      == match LastAddr(d, rs[..i], addr) case Overrun => Overrun case Defined(b) => CopyAddr(d, rs[i], b)
  {
    var before, after := rs[..i], rs[i + 1..];
    Around(rs, i);
    LastAddrAppend(d, before, [rs[i]] + after, addr);
    var b := LastAddr(d, before, addr);
    if b.Defined? {
      LladdrThenNone(d, rs[i], after, b.value);
    }
  }

  /** The address ends up holding the payload of the last NDA_LLADDR
      attribute, byte for byte, which is then at most 6 bytes long. */
  lemma LastLladdrWins(d: Bytes, rs: seq<Rta>, addr: seq<Option<byte>>, i: nat)
    requires |addr| == AddrLen
    requires forall j :: 0 <= j < |rs| ==> rs[j].len >= AttrHeaderLen
    requires i < |rs| && rs[i].rtype == NdaLladdr
    requires forall j :: i < j < |rs| ==> rs[j].rtype != NdaLladdr
    requires LastAddr(d, rs, addr).Defined?
    ensures rs[i].len - AttrHeaderLen <= AddrLen
    ensures forall j :: 0 <= j < rs[i].len - AttrHeaderLen ==>
      rs[i].at + AttrHeaderLen + j < |d| && LastAddr(d, rs, addr).value[j] == Some(d[rs[i].at + AttrHeaderLen + j])
  {
    LastCopyWins(d, rs, addr, i);
    var b := LastAddr(d, rs[..i], addr);
    assert b.Defined?;
    CopiedPayload(d, rs[i], b.value);
  }

  /** The address of a get_fdb entry: its first RTA_PAYLOAD bytes are the
      payload of the message's last NDA_LLADDR, which is at most 6 bytes
      long. */
  lemma FibRecordAddr(d: Bytes, m: Msg, indexToName: U32 -> Bytes, rs: seq<Rta>, k: nat)
    requires FibRecord(d, m, indexToName).Defined?
    requires AttrsFrom(d, m.at + NeighAttrStart, m.len - NeighAttrStart) == Defined(rs)
    requires k < |rs| && rs[k].rtype == NdaLladdr
    requires forall j :: k < j < |rs| ==> rs[j].rtype != NdaLladdr
    ensures rs[k].len - AttrHeaderLen <= AddrLen
    ensures rs[k].len > AttrHeaderLen ==> rs[k].at + rs[k].len <= |d|
    ensures forall j :: 0 <= j < rs[k].len - AttrHeaderLen ==>
      FibRecord(d, m, indexToName).value.addr[j] == Some(d[rs[k].at + AttrHeaderLen + j])
  {
    FibAddrIsLastAddr(d, m, indexToName, rs);
    var addr := FibRecord(d, m, indexToName).value.addr;
    LastLladdrWins(d, rs, Unset, k);
    if rs[k].len > AttrHeaderLen {
      var last := rs[k].len - AttrHeaderLen - 1;
      assert LastAddr(d, rs, Unset).value[last] == addr[last];
    }
    forall j | 0 <= j < rs[k].len - AttrHeaderLen
      ensures addr[j] == Some(d[rs[k].at + AttrHeaderLen + j])
    {
      assert LastAddr(d, rs, Unset).value[j] == addr[j];
    }
  }

  /** The address of a defined get_fdb entry is what the NDA_LLADDR copies
      among its attributes leave in the unset field. */
  lemma FibAddrIsLastAddr(d: Bytes, m: Msg, indexToName: U32 -> Bytes, rs: seq<Rta>)
    requires FibRecord(d, m, indexToName).Defined?
    requires AttrsFrom(d, m.at + NeighAttrStart, m.len - NeighAttrStart) == Defined(rs)
    ensures forall j :: 0 <= j < |rs| ==> rs[j].len >= AttrHeaderLen
    ensures LastAddr(d, rs, Unset) == Defined(FibRecord(d, m, indexToName).value.addr)
  {
    AttrsStayInWindow(d, m.at + NeighAttrStart, m.len - NeighAttrStart);
  }

  /** A neighbour message without NDA_LLADDR gives the named port with the
      address unset. */
  lemma FibRecordNoLladdr(d: Bytes, m: Msg, indexToName: U32 -> Bytes, rs: seq<Rta>)
    requires m.at + NdIfindexAt + 4 <= |d|
    requires AttrsFrom(d, m.at + NeighAttrStart, m.len - NeighAttrStart) == Defined(rs)
    requires forall j :: 0 <= j < |rs| ==> rs[j].rtype != NdaLladdr
    ensures FibRecord(d, m, indexToName) == Defined(Fib(indexToName(U32At(d, m.at + NdIfindexAt)), Unset))
  {
    var at, l := m.at + NeighAttrStart, m.len - NeighAttrStart;
    AttrsStayInWindow(d, at, l);
    assert forall j :: 0 <= j < |rs| ==> rs[j].len >= AttrHeaderLen && rs[j].rtype != NdaLladdr;
    NoLladdrKeepsAddr(d, rs, Unset);
    assert AddrsFrom(d, at, l, Unset) == Defined(Unset);
  }

  /** A copy that succeeds had a payload that fits the field and lies inside
      the received bytes, and holds it at the start of the field. */
  lemma CopiedPayload(d: Bytes, r: Rta, addr: seq<Option<byte>>)
    requires |addr| == AddrLen && r.len >= AttrHeaderLen
    requires CopyAddr(d, r, addr).Defined?
    ensures r.len - AttrHeaderLen <= AddrLen
    ensures forall j :: 0 <= j < r.len - AttrHeaderLen ==>
      r.at + AttrHeaderLen + j < |d| && CopyAddr(d, r, addr).value[j] == Some(d[r.at + AttrHeaderLen + j])
  {
    CopyAddrMeaning(d, r, addr);
  }

  // ---------------------------------------------------------------------
  // The attribute budget

  /** With the budget that ends where the message ends, the attribute walk
      over a message inside the received bytes is always defined and every
      attribute it accepts lies inside the message. */
  lemma AttrsInsideMessage(d: Bytes, m: Msg, start: nat)
    requires m.at + m.len <= |d|
    ensures AttrsFrom(d, m.at + start, m.len - start).Defined?
    ensures forall r :: r in AttrsFrom(d, m.at + start, m.len - start).value ==> m.at + start <= r.at && r.at + r.len <= m.at + m.len
  {
    AttrsInsideDefined(d, m.at + start, m.len - start);
    AttrsStayInWindow(d, m.at + start, m.len - start);
    var rs := AttrsFrom(d, m.at + start, m.len - start).value;
    forall r | r in rs
      ensures m.at + start <= r.at && r.at + r.len <= m.at + m.len
    {
      var i :| 0 <= i < |rs| && rs[i] == r;
    }
  }

  /** A datagram holding a single link message with no attributes. */
  function BareLink(): (d: Bytes)
    ensures |d| == HeaderLen + IfInfoLen
  {
    Header(HeaderLen + IfInfoLen, RtmNewLink, 0, 0, 0) + IfInfo(AfPacket, 1, 0, 0)
  }

  /** A datagram holding a single neighbour message with no attributes. */
  function BareNeigh(): (d: Bytes)
    ensures |d| == HeaderLen + NdLen
  {
    Header(HeaderLen + NdLen, RtmNewNeigh, 0, 0, 0) + NdMsg(AfBridge, 1, 0, 0, 0)
  }

  /** The message walk finds one message, of `n` bytes and type `t`, in a
      datagram of exactly that size. */
  lemma OneMessage(d: Bytes, n: nat, t: U16)
    requires HeaderLen <= n == |d| && n % 4 == 0 && U32At(d, 0) == n && U16At(d, 4) == t
    ensures MessagesFrom(d, 0) == [Msg(0, n, t)]
  {
    AlignIdempotent(n);
  }

  /** The dump over a single datagram that holds a single message other
      than NLMSG_DONE is that message's record. */
  lemma OneRecord<T>(d: Bytes, m: Msg, record: (Bytes, Msg) -> Behaviour<T>)
    requires MessagesFrom(d, 0) == [m] && m.mtype != NlmsgDone
    ensures DumpFrom([d], 0, record) == if record(d, m).Overrun? then Undefined else Blocked([record(d, m).value])
  {
    assert [m][0] == m && [m][1..] == [];
    assert DumpFrom([d], 1, record) == Blocked([]);
    assert [d][0] == d;
    if record(d, m).Defined? {
      var x := record(d, m).value;
      assert [x] + [] == [x];
      assert InDatagram(d, [m], record) == Blocked([x]);
    }
  }

  /** The record of get_netdev_names as written: a link message of exactly
      32 bytes that ends the datagram sends the attribute walk to read an
      rta_len past the received bytes, so the dump is undefined, while the
      budget that ends at the message's end gives one unset slot. */
  lemma NameBudgetFinding()
    ensures MessagesFrom(BareLink(), 0) == [Msg(0, HeaderLen + IfInfoLen, RtmNewLink)]
    ensures DumpFrom([BareLink()], 0, NameRecordAsWritten) == Undefined
    ensures DumpFrom([BareLink()], 0, NameRecord) == Blocked([None])
  {
    var h := Header(HeaderLen + IfInfoLen, RtmNewLink, 0, 0, 0);
    var d := BareLink();
    var m := Msg(0, HeaderLen + IfInfoLen, RtmNewLink);
    HeaderFields(HeaderLen + IfInfoLen, RtmNewLink, 0, 0, 0);
    assert d[0..HeaderLen] == h;
    Within(d, 0, h);
    OneMessage(d, HeaderLen + IfInfoLen, RtmNewLink);
    assert NameRecordAsWritten(d, m) == Overrun;
    assert NameRecord(d, m) == Defined(None);
    OneRecord(d, m, NameRecordAsWritten);
    OneRecord(d, m, NameRecord);
  }

  /** "eth0", the name the datagram below carries. */
  const Eth0: Bytes := [101, 116, 104, 48]

  /** A datagram as a kernel sends it for one interface: a link message
      and then NLMSG_DONE. */
  function EthThenDone(): (d: Bytes)
    ensures |d| == 64
  {
    EthLink() + EthDone()
  }

  /** A 44-byte link message: nlmsghdr of type RTM_NEWLINK, ifinfomsg, and an
      IFLA_IFNAME attribute "eth0" padded to 12 bytes. */
  function EthLink(): (m: Bytes)
    ensures |m| == 44
  {
    Header(44, RtmNewLink, 0, 0, 0) + IfInfo(AfPacket, 1, 0, 0) + EncodeAttr(Attribute(IflaIfname, Eth0 + [0]))
  }

  /** A 20-byte NLMSG_DONE: nlmsghdr and the int error field, zero. */
  function EthDone(): (m: Bytes)
    ensures |m| == 20
  {
    Header(20, NlmsgDone, 0, 0, 0) + LE32(0)
  }

  lemma EthLinkFields()
    ensures var m := EthLink();
      && U32At(m, 0) == 44 && U16At(m, 4) == RtmNewLink
      && U16At(m, 32) == 9 && U16At(m, 34) == IflaIfname
      && m[36..41] == Eth0 + [0]
  {
    var name := Attribute(IflaIfname, Eth0 + [0]);
    HeaderFields(44, RtmNewLink, 0, 0, 0);
    EncodeAttrFields(name);
    LinkParts(EthLink(), Header(44, RtmNewLink, 0, 0, 0), IfInfo(AfPacket, 1, 0, 0), EncodeAttr(name));
  }

  /** Where the header and the attribute of a link message sit in it. */
  lemma LinkParts(m: Bytes, h: Bytes, b: Bytes, a: Bytes)
    requires m == h + b + a && |h| == HeaderLen && |b| == IfInfoLen && |a| == 12
    requires U32At(h, 0) == 44 && U16At(h, 4) == RtmNewLink
    requires U16At(a, 0) == 9 && U16At(a, 2) == IflaIfname && a[4..9] == Eth0 + [0]
    ensures U32At(m, 0) == 44 && U16At(m, 4) == RtmNewLink
    ensures U16At(m, 32) == 9 && U16At(m, 34) == IflaIfname
    ensures m[36..41] == Eth0 + [0]
  {
    assert m[0..16] == h;
    assert m[32..44] == a;
    Within(m, 0, h);
    Within(m, 32, a);
    assert m[36..41] == a[4..9];
  }

  lemma EthDoneFields()
    ensures var m := EthDone();
      U32At(m, 0) == 20 && U16At(m, 0) == 20 && U16At(m, 4) == NlmsgDone
  {
    var h := Header(20, NlmsgDone, 0, 0, 0);
    HeaderFields(20, NlmsgDone, 0, 0, 0);
    assert EthDone()[0..16] == h;
    Within(EthDone(), 0, h);
  }

  /** The fields of EthThenDone that the walks read. */
  predicate EthFields(d: Bytes)
  {
    && |d| == 64
    && U32At(d, 0) == 44 && U16At(d, 4) == RtmNewLink
    && U16At(d, 32) == 9 && U16At(d, 34) == IflaIfname
    && U32At(d, 44) == 20 && U16At(d, 44) == 20 && U16At(d, 48) == NlmsgDone
    && BytesAt(d, 36, Eth0 + [0])
  }

  lemma EthThenDoneFields()
    ensures EthFields(EthThenDone())
  {
    EthLinkFields();
    EthDoneFields();
    DatagramParts(EthThenDone(), EthLink(), EthDone());
  }

  /** The fields of a link message and an NLMSG_DONE, read where they sit in
      the datagram that holds them one after the other. */
  lemma DatagramParts(d: Bytes, l: Bytes, e: Bytes)
    requires d == l + e && |l| == 44 && |e| == 20
    requires U32At(l, 0) == 44 && U16At(l, 4) == RtmNewLink
    requires U16At(l, 32) == 9 && U16At(l, 34) == IflaIfname && l[36..41] == Eth0 + [0]
    requires U32At(e, 0) == 20 && U16At(e, 0) == 20 && U16At(e, 4) == NlmsgDone
    ensures EthFields(d)
  {
    assert d[0..44] == l;
    assert d[44..64] == e;
    Within(d, 0, l);
    Within(d, 44, e);
    assert U16At(d, 44) == 20 && U16At(d, 48) == NlmsgDone && U32At(d, 44) == 20;
    assert d[36..41] == l[36..41];
  }

  /** The message walk over such a datagram finds the link message and
      NLMSG_DONE. */
  lemma EthMessages(d: Bytes)
    requires EthFields(d)
    ensures MessagesFrom(d, 0) == [Msg(0, 44, RtmNewLink), Msg(44, 20, NlmsgDone)]
  {
    assert MessagesFrom(d, 64) == [];
    assert MessagesFrom(d, 44) == [Msg(44, 20, NlmsgDone)];
  }

  /** With the whole nlmsg_len as budget the attribute walk takes the
      NLMSG_DONE header for a 20-byte attribute and then reads an rta_len at
      the end of the datagram; with the budget that ends at the message's end
      it finds the one IFLA_IFNAME. */
  lemma EthAttrs(d: Bytes)
    requires EthFields(d)
    ensures AttrsFrom(d, LinkAttrStart, 44) == Overrun
    ensures AttrsFrom(d, LinkAttrStart, 12) == Defined([Rta(32, 9, IflaIfname)])
  {
    assert Align(9) == 12 && Align(20) == 20;
    assert AttrsFrom(d, 64, 12) == Overrun;
    assert AttrsFrom(d, 44, 32) == Overrun;
    assert AttrsFrom(d, 44, 0) == Defined([]);
    assert [Rta(32, 9, IflaIfname)] + [] == [Rta(32, 9, IflaIfname)];
  }

  /** The ordinary reply above already breaks the code as written: the dump
      over it is undefined, while with the budget that ends at the message's
      end it completes with the one name. */
  lemma NameBudgetEthDone()
    ensures MessagesFrom(EthThenDone(), 0) == [Msg(0, 44, RtmNewLink), Msg(44, 20, NlmsgDone)]
    ensures NameRecordAsWritten(EthThenDone(), Msg(0, 44, RtmNewLink)) == Overrun
    ensures DumpFrom([EthThenDone()], 0, NameRecordAsWritten) == Undefined
    ensures NameRecord(EthThenDone(), Msg(0, 44, RtmNewLink)) == Defined(Some(Eth0))
    ensures DumpFrom([EthThenDone()], 0, NameRecord) == Complete([Some(Eth0)])
  {
    var d := EthThenDone();
    EthThenDoneFields();
    EthNames(d);
  }

  /** The two dumps over a datagram with the fields of EthThenDone. */
  lemma EthNames(d: Bytes)
    requires EthFields(d)
    ensures MessagesFrom(d, 0) == [Msg(0, 44, RtmNewLink), Msg(44, 20, NlmsgDone)]
    ensures NameRecordAsWritten(d, Msg(0, 44, RtmNewLink)) == Overrun
    ensures DumpFrom([d], 0, NameRecordAsWritten) == Undefined
    ensures NameRecord(d, Msg(0, 44, RtmNewLink)) == Defined(Some(Eth0))
    ensures DumpFrom([d], 0, NameRecord) == Complete([Some(Eth0)])
  {
    var link, done := Msg(0, 44, RtmNewLink), Msg(44, 20, NlmsgDone);
    EthMessages(d);
    EthAttrs(d);
    CStringOf(d, 36, Eth0);
    var name := Rta(32, 9, IflaIfname);
    assert LastName(d, [name], None) == Defined(Some(Eth0));
    assert [link, done][1..] == [done];
    assert [d][0] == d;
    assert DumpFrom([d], 1, NameRecord) == Blocked([]);
    assert InDatagram(d, [link, done], NameRecord) == Complete([Some(Eth0)]);
  }


  /** The neighbour message of BareNeigh, and its two records. */
  lemma BareNeighRecords(indexToName: U32 -> Bytes)
    ensures MessagesFrom(BareNeigh(), 0) == [Msg(0, HeaderLen + NdLen, RtmNewNeigh)]
    ensures FibRecordAsWritten(BareNeigh(), Msg(0, HeaderLen + NdLen, RtmNewNeigh), indexToName) == Overrun
    ensures FibRecord(BareNeigh(), Msg(0, HeaderLen + NdLen, RtmNewNeigh), indexToName) == Defined(Fib(indexToName(1), Unset))
  {
    var h := Header(HeaderLen + NdLen, RtmNewNeigh, 0, 0, 0);
    var b := NdMsg(AfBridge, 1, 0, 0, 0);
    var d := BareNeigh();
    HeaderFields(HeaderLen + NdLen, RtmNewNeigh, 0, 0, 0);
    assert d[0..HeaderLen] == h;
    Within(d, 0, h);
    NdMsgIndex(AfBridge, 1, 0, 0, 0);
    assert d[HeaderLen..HeaderLen + NdLen] == b;
    Within(d, HeaderLen, b);
    OneMessage(d, HeaderLen + NdLen, RtmNewNeigh);
  }

  /** The record of get_fdb as written: a neighbour message of exactly 28
      bytes that ends the datagram sends the attribute walk to read an
      rta_len past the received bytes, while the budget that ends at the
      message's end gives one record with the address unset. */
  lemma FibBudgetFinding(indexToName: U32 -> Bytes)
    ensures MessagesFrom(BareNeigh(), 0) == [Msg(0, HeaderLen + NdLen, RtmNewNeigh)]
    ensures DumpFrom([BareNeigh()], 0, (d, m) => FibRecordAsWritten(d, m, indexToName)) == Undefined
    ensures DumpFrom([BareNeigh()], 0, FibOf(indexToName)) == Blocked([Fib(indexToName(1), Unset)])
  {
    var m := Msg(0, HeaderLen + NdLen, RtmNewNeigh);
    BareNeighRecords(indexToName);
    OneRecord(BareNeigh(), m, (d, m) => FibRecordAsWritten(d, m, indexToName));
    OneRecord(BareNeigh(), m, FibOf(indexToName));
  }

  // ---------------------------------------------------------------------
  // The dump requests

  /** The request get_netdev_names sends: a root dump of the links, with the
      sequence number the counter held. The struct is not cleared, so every
      byte of the ifinfomsg but the family keeps what `stale` held. */
  function LinkDumpRequest(seqNo: U32, stale: Bytes): (r: Bytes)
    requires |stale| == HeaderLen + IfInfoLen
    ensures |r| == HeaderLen + IfInfoLen
  {
    Header(HeaderLen + IfInfoLen, RtmGetLink, FlagRoot + FlagRequest, seqNo, 0) + [AfPacket] + stale[HeaderLen + 1..]
  }

  /** The request get_fdb sends: a dump of the neighbours of the bridge
      family, from a cleared struct with sequence number 0. */
  function NeighDumpRequest(): (r: Bytes)
    ensures |r| == HeaderLen + IfInfoLen
  {
    Header(HeaderLen + IfInfoLen, RtmGetNeigh, FlagDump + FlagRequest, 0, 0) + IfInfo(AfBridge, 0, 0, 0)
  }

  /** The header fields of the link dump request read back; the stale bytes
      are sent as they were; the kernel sees one message of 32 bytes. */
  lemma LinkDumpRequestFields(seqNo: U32, stale: Bytes)
    requires |stale| == HeaderLen + IfInfoLen
    ensures var r := LinkDumpRequest(seqNo, stale);
      && U32At(r, 0) == HeaderLen + IfInfoLen && U16At(r, 4) == RtmGetLink
      && U16At(r, 6) == FlagRoot + FlagRequest && U32At(r, 8) == seqNo && U32At(r, 12) == 0
      && r[HeaderLen] == AfPacket && r[HeaderLen + 1..] == stale[HeaderLen + 1..]
      && MessagesFrom(r, 0) == [Msg(0, HeaderLen + IfInfoLen, RtmGetLink)]
  {
    var h := Header(HeaderLen + IfInfoLen, RtmGetLink, FlagRoot + FlagRequest, seqNo, 0);
    var r := LinkDumpRequest(seqNo, stale);
    HeaderFields(HeaderLen + IfInfoLen, RtmGetLink, FlagRoot + FlagRequest, seqNo, 0);
    assert r[0..HeaderLen] == h;
    Within(r, 0, h);
    OneMessage(r, HeaderLen + IfInfoLen, RtmGetLink);
  }

  /** The header and ifinfomsg fields of the neighbour dump request read
      back; the kernel sees one message of 32 bytes. */
  lemma NeighDumpRequestFields()
    ensures var r := NeighDumpRequest();
      && U32At(r, 0) == HeaderLen + IfInfoLen && U16At(r, 4) == RtmGetNeigh
      && U16At(r, 6) == FlagDump + FlagRequest && U32At(r, 8) == 0 && U32At(r, 12) == 0
      && r[HeaderLen] == AfBridge && (forall i :: HeaderLen < i < |r| ==> r[i] == 0)
      && MessagesFrom(r, 0) == [Msg(0, HeaderLen + IfInfoLen, RtmGetNeigh)]
  {
    var h := Header(HeaderLen + IfInfoLen, RtmGetNeigh, FlagDump + FlagRequest, 0, 0);
    var b := IfInfo(AfBridge, 0, 0, 0);
    var r := NeighDumpRequest();
    HeaderFields(HeaderLen + IfInfoLen, RtmGetNeigh, FlagDump + FlagRequest, 0, 0);
    assert r[0..HeaderLen] == h;
    Within(r, 0, h);
    assert b == [AfBridge, 0, 0, 0] + Zeros(12);
    OneMessage(r, HeaderLen + IfInfoLen, RtmGetNeigh);
  }

  /** get_netdev_names filling in its request struct field by field. */
  method SendLinkDump(seqNo: U32, stale: Bytes) returns (msg: Bytes)
    requires |stale| == HeaderLen + IfInfoLen
    ensures msg == LinkDumpRequest(seqNo, stale)
  {
    var buf := new byte[HeaderLen + IfInfoLen](i requires 0 <= i < |stale| => stale[i]);
    ghost var s0 := buf[..];
    PutU32(buf, 0, HeaderLen + IfInfoLen);
    ghost var s1 := buf[..];
    PutU16(buf, 4, RtmGetLink);
    ghost var s2 := buf[..];
    PutU16(buf, 6, FlagRoot + FlagRequest);
    ghost var s3 := buf[..];
    PutU32(buf, 12, 0);
    ghost var s4 := buf[..];
    PutU32(buf, 8, seqNo);
    ghost var s5 := buf[..];
    buf[HeaderLen] := AfPacket;
    OverwriteAt(s0, 0, LE32(HeaderLen + IfInfoLen));
    OverwriteAt(s1, 4, LE16(RtmGetLink));
    OverwriteAt(s2, 6, LE16(FlagRoot + FlagRequest));
    OverwriteAt(s3, 12, LE32(0));
    OverwriteAt(s4, 8, LE32(seqNo));
    ghost var r := LinkDumpRequest(seqNo, stale);
    assert r == LE32(HeaderLen + IfInfoLen) + LE16(RtmGetLink) + LE16(FlagRoot + FlagRequest) + LE32(seqNo) + LE32(0) + [AfPacket] + stale[HeaderLen + 1..];
    forall j | 0 <= j < buf.Length
      ensures buf[j] == r[j]
    {
    }
    msg := buf[..];
  }

  /** get_fdb clearing its request struct and filling it in. */
  method SendNeighDump() returns (msg: Bytes)
    ensures msg == NeighDumpRequest()
  {
    var buf := new byte[HeaderLen + IfInfoLen](_ => 0);
    SetHeader(buf, HeaderLen + IfInfoLen, RtmGetNeigh, FlagDump + FlagRequest);
    ghost var s := buf[..];
    SetIfInfo(buf, AfBridge, 0, 0, 0);
    ghost var h := Header(HeaderLen + IfInfoLen, RtmGetNeigh, FlagDump + FlagRequest, 0, 0);
    OverwriteAt(Zeros(HeaderLen + IfInfoLen), 0, h);
    OverwriteAt(s, HeaderLen, IfInfo(AfBridge, 0, 0, 0));
    forall j | 0 <= j < buf.Length
      ensures buf[j] == NeighDumpRequest()[j]
    {
    }
    msg := buf[..];
  }

  // ---------------------------------------------------------------------
  // Reading back what the encoder writes

  /** strdup of a NUL-terminated name gives back the name. */
  lemma {:induction false} CStringOf(d: Bytes, i: nat, name: Bytes)
    requires BytesAt(d, i, name + [0]) && NulFree(name)
    ensures CStringAt(d, i) == Defined(name)
    decreases |name|
  {
    if name == [] {
      assert d[i] == (name + [0])[0];
    } else {
      assert d[i] == (name + [0])[0] == name[0];
      assert name[1..] + [0] == (name + [0])[1..];
      CStringOf(d, i + 1, name[1..]);
      assert [name[0]] + name[1..] == name;
    }
  }

  /** What the walk read back at attribute `i`: its type, and its payload
      in place. */
  lemma DecodedAt(d: Bytes, rs: seq<Rta>, i: nat)
    requires InBytes(d, rs) && i < |rs|
    ensures rs[i].rtype == Decoded(d, rs)[i].rtype
    ensures rs[i].len == AttrHeaderLen + |Decoded(d, rs)[i].payload|
    ensures BytesAt(d, rs[i].at + AttrHeaderLen, Decoded(d, rs)[i].payload)
  {
    var p := rs[i].at + AttrHeaderLen;
    var w := Decoded(d, rs)[i].payload;
    assert w == d[p..rs[i].at + rs[i].len];
    forall k | 0 <= k < |w|
      ensures d[p + k] == w[k]
    {
      assert d[p..rs[i].at + rs[i].len][k] == d[p + k];
    }
  }

  /** What the walk read back, attribute by attribute, as the encoder
      wrote `attrs`. */
  lemma ParsedAttr(d: Bytes, rs: seq<Rta>, attrs: seq<Attribute>, i: nat)
    requires InBytes(d, rs) && Decoded(d, rs) == attrs && i < |attrs|
    ensures forall j :: 0 <= j < |rs| ==> rs[j].rtype == attrs[j].rtype && rs[j].len >= AttrHeaderLen
    ensures rs[i].len == AttrHeaderLen + |attrs[i].payload|
    ensures BytesAt(d, rs[i].at + AttrHeaderLen, attrs[i].payload)
  {
    forall j | 0 <= j < |rs|
      ensures rs[j].rtype == attrs[j].rtype
    {
      DecodedAt(d, rs, j);
    }
    DecodedAt(d, rs, i);
  }

  /** The one IFLA_IFNAME attribute among `rs`, holding a NUL-terminated
      name, names the slot. */
  lemma OnlyName(d: Bytes, rs: seq<Rta>, i: nat, name: Bytes)
    requires i < |rs| && rs[i].rtype == IflaIfname
    requires BytesAt(d, rs[i].at + AttrHeaderLen, name + [0]) && NulFree(name)
    requires forall j :: 0 <= j < |rs| && j != i ==> rs[j].rtype != IflaIfname
    ensures LastName(d, rs, None) == Defined(Some(name))
  {
    NoNameBefore(d, rs, i, None);
    LastNameAt(d, rs, None, i);
    CStringOf(d, rs[i].at + AttrHeaderLen, name);
  }

  /** No IFLA_IFNAME before attribute `i` leaves the slot as it was. */
  lemma NoNameBefore(d: Bytes, rs: seq<Rta>, i: nat, slot: Option<Bytes>)
    requires i < |rs|
    requires forall j :: 0 <= j < i ==> rs[j].rtype != IflaIfname
    ensures LastName(d, rs[..i], slot) == Defined(slot)
  {
    Around(rs, i);
    NoNameKeepsSlot(d, rs[..i], slot);
  }

  /** A link message whose attribute walk reads back `rs`, among which
      the one IFLA_IFNAME attribute holds a NUL-terminated name: its slot
      holds the name. */
  lemma NameOfParsed(m: Bytes, t: U16, rs: seq<Rta>, i: nat, name: Bytes)
    requires LinkAttrStart <= |m| && AttrsFrom(m, LinkAttrStart, |m| - LinkAttrStart) == Defined(rs)
    requires i < |rs| && rs[i].rtype == IflaIfname
    requires BytesAt(m, rs[i].at + AttrHeaderLen, name + [0]) && NulFree(name)
    requires forall j :: 0 <= j < |rs| && j != i ==> rs[j].rtype != IflaIfname
    ensures NameRecord(m, Msg(0, |m|, t)) == Defined(Some(name))
  {
    OnlyName(m, rs, i, name);
  }

  /** A link message laid out as the builders lay out a request, with one
      IFLA_IFNAME attribute: get_netdev_names reads the name back. */
  lemma NameRoundTrip(mtype: U16, flags: U16, body: Bytes, attrs: seq<Attribute>, i: nat, name: Bytes)
    requires Framable(body, attrs) && |body| == IfInfoLen
    requires i < |attrs| && attrs[i] == Attribute(IflaIfname, name + [0]) && NulFree(name)
    requires forall j :: 0 <= j < |attrs| && j != i ==> attrs[j].rtype != IflaIfname
    ensures var m := Request(mtype, flags, body, attrs);
      NameRecord(m, Msg(0, |m|, mtype)) == Defined(Some(name))
  {
    var m := Request(mtype, flags, body, attrs);
    RequestAttrsParse(mtype, flags, body, attrs);
    var rs := AttrsFrom(m, LinkAttrStart, |m| - LinkAttrStart).value;
    ParsedAttr(m, rs, attrs, i);
    NameOfParsed(m, mtype, rs, i, name);
  }

  /** The name create_bridge sends is the name get_netdev_names reads back
      from a link message laid out the same way. */
  lemma CreateBridgeNameRoundTrip(name: Bytes)
    requires NulFree(name) && |name| <= MaxNameLen
    ensures var m := CreateBridgeRequest(name);
      NameRecord(m, Msg(0, |m|, RtmNewLink)) == Defined(Some(name))
  {
    CreateBridgeFits(name);
    var attrs := CreateBridgeAttrs(name);
    NameRoundTrip(RtmNewLink, CreateFlags, IfInfo(AfPacket, 0, 0, 0), attrs, 0, name);
  }

  /** The one NDA_LLADDR attribute among `rs`, of 6 bytes, fills the whole
      address. */
  lemma OnlyLladdr(d: Bytes, rs: seq<Rta>, i: nat, mac: Bytes)
    requires forall j :: 0 <= j < |rs| ==> rs[j].len >= AttrHeaderLen
    requires i < |rs| && rs[i].rtype == NdaLladdr && rs[i].len == AttrHeaderLen + AddrLen
    requires |mac| == AddrLen && BytesAt(d, rs[i].at + AttrHeaderLen, mac)
    requires forall j :: 0 <= j < |rs| && j != i ==> rs[j].rtype != NdaLladdr
    ensures LastAddr(d, rs, Unset) == Defined(seq(AddrLen, j requires 0 <= j < AddrLen => Some(mac[j])))
  {
    NoLladdrBefore(d, rs, i, Unset);
    LastCopyWins(d, rs, Unset, i);
    FullCopy(d, rs[i], Unset, mac);
  }

  /** No NDA_LLADDR before attribute `i` leaves the address as it was. */
  lemma NoLladdrBefore(d: Bytes, rs: seq<Rta>, i: nat, addr: seq<Option<byte>>)
    requires |addr| == AddrLen && i < |rs|
    requires forall j :: 0 <= j < i ==> rs[j].len >= AttrHeaderLen && rs[j].rtype != NdaLladdr
    ensures LastAddr(d, rs[..i], addr) == Defined(addr)
  {
    Around(rs, i);
    NoLladdrKeepsAddr(d, rs[..i], addr);
  }

  /** Copying a 6-byte payload replaces the whole address. */
  lemma FullCopy(d: Bytes, r: Rta, addr: seq<Option<byte>>, mac: Bytes)
    requires |addr| == AddrLen && r.len == AttrHeaderLen + AddrLen
    requires |mac| == AddrLen && BytesAt(d, r.at + AttrHeaderLen, mac)
    ensures CopyAddr(d, r, addr) == Defined(seq(AddrLen, j requires 0 <= j < AddrLen => Some(mac[j])))
  {
    var c := CopyAddr(d, r, addr);
    CopyAddrMeaning(d, r, addr);
    assert c.Defined?;
    var want := seq(AddrLen, j requires 0 <= j < AddrLen => Some(mac[j]));
    forall k | 0 <= k < AddrLen
      ensures c.value[k] == want[k]
    {
      assert d[r.at + AttrHeaderLen + k] == mac[k];
    }
    assert c.value == want;
  }

  /** A neighbour message whose attribute walk reads back `rs`, among which
      the one NDA_LLADDR attribute holds 6 bytes: its record holds them. */
  lemma FibOfParsed(m: Bytes, t: U16, rs: seq<Rta>, i: nat, mac: Bytes, indexToName: U32 -> Bytes)
    requires NeighAttrStart <= |m| && AttrsFrom(m, NeighAttrStart, |m| - NeighAttrStart) == Defined(rs)
    requires forall j :: 0 <= j < |rs| ==> rs[j].len >= AttrHeaderLen
    requires i < |rs| && rs[i].rtype == NdaLladdr && rs[i].len == AttrHeaderLen + AddrLen
    requires |mac| == AddrLen && BytesAt(m, rs[i].at + AttrHeaderLen, mac)
    requires forall j :: 0 <= j < |rs| && j != i ==> rs[j].rtype != NdaLladdr
    ensures FibRecord(m, Msg(0, |m|, t), indexToName)
      == Defined(Fib(indexToName(U32At(m, NdIfindexAt)), seq(AddrLen, j requires 0 <= j < AddrLen => Some(mac[j]))))
  {
    OnlyLladdr(m, rs, i, mac);
  }

  /** A neighbour message laid out as the builders lay out a request, with
      one NDA_LLADDR attribute of 6 bytes: get_fdb reads back the port the
      index names and the address. */
  lemma FibRoundTrip(mtype: U16, flags: U16, ifindex: U32, mac: Bytes, indexToName: U32 -> Bytes)
    requires |mac| == AddrLen
    ensures Framable(NdMsg(AfBridge, ifindex, 0, 0, 0), [Attribute(NdaLladdr, mac)])
    ensures var m := Request(mtype, flags, NdMsg(AfBridge, ifindex, 0, 0, 0), [Attribute(NdaLladdr, mac)]);
      FibRecord(m, Msg(0, |m|, mtype), indexToName)
      == Defined(Fib(indexToName(ifindex), seq(AddrLen, j requires 0 <= j < AddrLen => Some(mac[j]))))
  {
    var body := NdMsg(AfBridge, ifindex, 0, 0, 0);
    var attrs := [Attribute(NdaLladdr, mac)];
    assert EncodeAll(attrs) == EncodeAttr(attrs[0]) + EncodeAll([]);
    var m := Request(mtype, flags, body, attrs);
    RequestAttrsParse(mtype, flags, body, attrs);
    RequestHeaderParses(mtype, flags, body, attrs);
    var rs := AttrsFrom(m, NeighAttrStart, |m| - NeighAttrStart).value;
    ParsedAttr(m, rs, attrs, 0);
    FibOfParsed(m, mtype, rs, 0, mac, indexToName);
    NdMsgIndex(AfBridge, ifindex, 0, 0, 0);
    Within(m, HeaderLen, body);
  }
}

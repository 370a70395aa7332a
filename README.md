# rtnetlink encoder and decoder of libsai, in Dafny

This project models `netdev/netlink.c`, the rtnetlink layer of libsai. The
library talks to the Linux kernel over a `NETLINK_ROUTE` socket in two ways.

- **The builders** each fill in one zeroed scratch struct and send the
  message it holds. The struct holds an nlmsghdr, a fixed body (ifinfomsg or
  ifaddrmsg) and spare room for attributes:
  - create_bridge sends a new link named by IFLA_IFNAME, with an
    IFLA_LINKINFO container around IFLA_INFO_KIND "bridge";
  - join_bridge and leave_bridge send IFLA_MASTER;
  - set_ip_address sends IFA_LOCAL, IFA_ADDRESS and IFA_BROADCAST, with the
    broadcast address computed by a bit loop;
  - dev_up sends IFF_UP.

  Attributes are appended by add_netlink_msg. It writes one rtattr at the
  aligned end of the message and moves nlmsg_len past it.
- **The dump readers** each send one dump request and then walk the reply
  datagrams. The walk goes message by message (NLMSG_OK, NLMSG_NEXT) and,
  inside each message, attribute by attribute (RTA_OK, RTA_NEXT). It stops
  at NLMSG_DONE.
  - get_netdev_names collects one device-name slot per link message: the
    string of the last IFLA_IFNAME.
  - get_fdb collects one forwarding entry per neighbour message. The entry
    holds the name of the port whose index the ndmsg carries, and the bytes
    of the last NDA_LLADDR.

The files:

- `wire.dfy` (module `Wire`): bytes, alignment, the little-endian control
  fields, and the layouts of nlmsghdr, ifinfomsg, ifaddrmsg and ndmsg.
- `attributes.dfy` (module `Attributes`): the rtattr codec.
  - `EncodeAttr` and `EncodeAll` encode.
  - The walk `AttrsFrom` decodes; it mirrors RTA_OK/RTA_NEXT.
  - `AddAttribute` is add_netlink_msg as four stores into an `array`.
- `netmask.dfy` (module `Netmask`): the broadcast loop of set_ip_address
  over `bv32`.
- `builders.dfy` (module `Builders`): each builder is a method over its
  zeroed scratch `array`. The method is proved to send exactly a pure
  request image (`CreateBridgeRequest`, `JoinBridgeRequest`,
  `SetIpAddressRequest`, `DevUpRequest`). Layout lemmas say which fields the
  kernel reads back from each image.
- `dump.dfy` (module `Dump`): the message and attribute walks.
  - Both readers are nested-loop methods, proved equal to the specification
    functions `DumpFrom(ds, 0, NameRecord)` and `DumpFrom(ds, 0, FibOf(..))`.
  - `ExpectedMeaning` and `DumpFromIsExpected` say what such a dump
    contains. It holds one record per accepted message before NLMSG_DONE, in
    order. It is `Complete` exactly when NLMSG_DONE arrives. It is
    `Undefined` exactly when a record reads past the received bytes.
  - Round-trip lemmas read back what the builders' layout writes.

Reads past the bytes a datagram supplied are modelled as the outcome
`Overrun`/`Undefined`. The code reads stale receive-buffer contents there,
so its result is not determined by the reply. Writes past the 6-byte
address field of a forwarding entry are modelled the same way.

## Model

| member | source | states |
|---|---|---|
| Wire.Align | netdev/netlink.c:46-50 | NLMSG_ALIGN/RTA_ALIGN: the result is a multiple of 4, at least x and less than x + 4 |
| Wire.AlignIdempotent | netdev/netlink.c:46-50 | aligning a multiple of 4 leaves it unchanged |
| Wire.HeaderFields | netdev/netlink.c:69-71 | every nlmsghdr field (len, type, flags, seq, pid) reads back at its offset |
| Wire.HeaderLengthField | netdev/netlink.c:50 | nlmsg_len is the first four bytes; rewriting it leaves the other twelve header bytes unchanged |
| Wire.IfInfoFields | netdev/netlink.c:72-74 | every ifinfomsg field reads back at its offset and the device type is 0 |
| Wire.IfAddrFields | netdev/netlink.c:153-156 | every ifaddrmsg field reads back at its offset; flags and scope are 0 |
| Wire.NdMsgIndex | netdev/netlink.c:303-305 | ndm_ifindex reads back four bytes into the ndmsg |
| Wire.U16RoundTrip | netdev/netlink.c:48-49 | a 16-bit field stored in host order reads back as the stored value |
| Wire.U32RoundTrip | netdev/netlink.c:69 | a 32-bit field stored in host order reads back as the stored value |
| Wire.IntFieldRoundTrip | netdev/netlink.c:116 | a C int stored in the 32-bit ifi_index and read back as int is the same int |
| Wire.OverwriteAt | netdev/netlink.c:52 | after a store, the bytes inside the stored range are the new ones and every other byte is as before |
| Attributes.EncodeAttrFields | netdev/netlink.c:44-52 | an encoded rtattr reads back rta_len = 4 + payload length and rta_type, with the payload at offset 4 |
| Attributes.EncodeAllLength | netdev/netlink.c:50 | the attribute bytes are the sum of the aligned attribute sizes, a multiple of 4 |
| Attributes.EncodeAllAppend | netdev/netlink.c:46-50 | encoding two attribute lists one after the other encodes their concatenation |
| Attributes.EncodeAttr | netdev/netlink.c:44-52 | the bytes of one rtattr, RTA_ALIGN(4 + payload) long; EncodeAttrFields and DecodeEncoded read it back |
| Attributes.AttrsFrom | netdev/netlink.c:237-242 | the RTA_OK/RTA_NEXT walk; AttrsStayInWindow, AttrsInsideDefined and DecodeEncoded state what it accepts, and that it reads no further than the window |
| Attributes.AttrsStayInWindow | netdev/netlink.c:237-242 | every attribute RTA_OK accepts lies inside the window it was given, at least 4 bytes each |
| Attributes.AttrsInsideDefined | netdev/netlink.c:237-242 | a walk whose window lies inside the received bytes never reads past them |
| Attributes.AcceptEncoded | netdev/netlink.c:237-242 | the walk accepts an encoded attribute, reads its type and length back, and moves to its aligned end |
| Attributes.DecodeEncoded | netdev/netlink.c:42-53 | decoding the bytes the encoder wrote gives back every attribute's type and payload, in order |
| Attributes.Appended | netdev/netlink.c:44-52 | the buffer after add_netlink_msg; AppendedHeaders and AppendedPayload state what it holds where, StoresInOrder that the code's stores produce it |
| Attributes.AppendedHeaders | netdev/netlink.c:46-50 | add_netlink_msg moves nlmsg_len to the old aligned end plus RTA_ALIGN(4 + n), and writes rta_len (cut to 16 bits) and rta_type there |
| Attributes.AppendedPayload | netdev/netlink.c:52 | add_netlink_msg copies the payload 4 bytes after the attribute start; bytes of the message before it and after the payload are unchanged |
| Attributes.StoresInOrder | netdev/netlink.c:48-52 | the four stores of add_netlink_msg, in the code's order, leave the buffer `Appended` describes |
| Attributes.AddAttribute | netdev/netlink.c:42-53 | add_netlink_msg on an array: the new contents are `Appended(old contents, type, data)` |
| Attributes.CopyInto | netdev/netlink.c:52 | memcpy: the array holds `data` from offset i on and is otherwise unchanged |
| Attributes.PutU16 | netdev/netlink.c:48-49 | a 16-bit host-order store into the array, nothing else changed |
| Attributes.PutU32 | netdev/netlink.c:50 | a 32-bit host-order store into the array, nothing else changed |
| Netmask.Broadcast | netdev/netlink.c:139-145 | ip with the low 32 - netmask bits set; BroadcastBits and BroadcastOfHost state it bit by bit |
| Netmask.BroadcastBits | netdev/netlink.c:139-145 | bit i of the broadcast address is set exactly when bit i of ip is set or i < 32 - netmask |
| Netmask.BroadcastOfHost | netdev/netlink.c:143-145 | a /32 address is its own broadcast address |
| Netmask.NextBit | netdev/netlink.c:144 | one loop iteration extends the set host bits by bit b - 1 |
| Netmask.ComputeBroadcast | netdev/netlink.c:139-145 | the loop computes `Broadcast(ip, netmask)` for every netmask >= 0, including netmask > 32 where it sets nothing |
| Builders.RequestLayout | netdev/netlink.c:67-84 | a request is the header with nlmsg_len = 16 + body + attributes, then the body, then the encoded attributes |
| Builders.RequestLength | netdev/netlink.c:84 | nlmsg_len equals the size of the message sent: 16 + body + the aligned attribute sizes, a multiple of 4 |
| Builders.RequestHeaderParses | netdev/netlink.c:69-74 | the message type and flags read back from the header, and the body follows it |
| Builders.RequestAttrsParse | netdev/netlink.c:76-80 | the attribute walk over the rest of a request gives back exactly the attributes appended, in order |
| Builders.ImageLength | netdev/netlink.c:50 | nlmsg_len of an image reads back as its size |
| Builders.PaddedLength | netdev/netlink.c:46 | in a zero-padded scratch struct, nlmsg_len is aligned and is the size of the image before the zeros |
| Builders.AppendToImage | netdev/netlink.c:42-53 | add_netlink_msg on a zero-padded image appends the attribute's encoding and keeps the zero padding |
| Builders.StoredAttribute | netdev/netlink.c:46-52 | the stores of add_netlink_msg leave the renewed nlmsg_len, the old image after it, then the encoded attribute, then zeros |
| Builders.Prefilled | netdev/netlink.c:67-74 | memset then the header and body stores leave the header, the body, then zeros |
| Builders.Started | netdev/netlink.c:67-74 | the opened scratch struct holds an empty request: fixed part, no attributes, zero padding |
| Builders.SentPrefix | netdev/netlink.c:84 | the first nlmsg_len bytes of a zero-padded struct are the image |
| Builders.SetHeader | netdev/netlink.c:69-71 | the array afterwards holds the header with seq and pid still zero, and is otherwise unchanged |
| Builders.SetIfInfo | netdev/netlink.c:72-74 | the array afterwards holds the ifinfomsg after the header, and is otherwise unchanged |
| Builders.SetIfAddr | netdev/netlink.c:153-156 | the array afterwards holds the ifaddrmsg after the header, and is otherwise unchanged |
| Builders.ContainerPatch | netdev/netlink.c:78-82 | patching the container's rta_len to (aligned end - container start) turns an empty container followed by the nested attribute into one container holding it |
| Builders.PatchedEnd | netdev/netlink.c:82 | the aligned end after the nested attribute is the container start plus 4 plus the nested encoding |
| Builders.PatchedImage | netdev/netlink.c:82 | the patched buffer holds the image with the container attribute |
| Builders.PatchedZeroTail | netdev/netlink.c:82 | the patched buffer is still the image followed by zeros |
| Builders.ContainerImages | netdev/netlink.c:78-82 | the image before the patch and the image after it differ only in the container's rta_len |
| Builders.CreateBridgeRequest | netdev/netlink.c:67-84 | the request create_bridge sends; CreateBridgeLayout, CreateBridgeContainer and CreateBridgeNameRoundTrip state its fields |
| Builders.JoinBridgeRequest | netdev/netlink.c:110-120 | the request join_bridge sends; JoinBridgeLayout and JoinBridgeHeader state its fields |
| Builders.SetIpAddressAttrs | netdev/netlink.c:147-160 | IFA_LOCAL and IFA_ADDRESS with ip in network order, then IFA_BROADCAST declared 8 bytes long: the broadcast address in network order and the 4 bytes that follow the variable in memory; SetIpAddressFits and SetIpAddressLayout state their sizes and bytes |
| Builders.SetIpAddressRequest | netdev/netlink.c:150-162 | the request set_ip_address sends; SetIpAddressLayout and BroadcastExample state its fields |
| Builders.DevUpRequest | netdev/netlink.c:179-187 | the request dev_up sends; DevUpLayout states its fields |
| Builders.CreateBridgeFits | netdev/netlink.c:56-62 | for names up to 1003 bytes the create_bridge attributes fit the 1024 spare bytes |
| Builders.CreateBridgeImage | netdev/netlink.c:67-84 | the request create_bridge sends is the IFLA_IFNAME attribute followed by IFLA_LINKINFO holding IFLA_INFO_KIND "bridge\0" |
| Builders.CreateBridgeLayout | netdev/netlink.c:67-82 | the create_bridge message is 48 + RTA_ALIGN(4 + strlen(name) + 1) bytes; RTM_NEWLINK, NLM_F_REQUEST, NLM_F_CREATE and NLM_F_EXCL read back |
| Builders.CreateBridgeContainer | netdev/netlink.c:78-82 | in the create_bridge message the container's patched rta_len is 16, its type IFLA_LINKINFO, and its payload the nested IFLA_INFO_KIND attribute |
| Builders.BridgeKindParses | netdev/netlink.c:80 | the container's payload walks as the single attribute IFLA_INFO_KIND "bridge\0" |
| Builders.JoinBridgeImage | netdev/netlink.c:110-120 | the request join_bridge sends is the port's link with one IFLA_MASTER attribute |
| Builders.JoinBridgeLayout | netdev/netlink.c:110-118 | the join_bridge message is 40 bytes; it carries the port index and IFLA_MASTER with rta_len 8 and the bridge index as payload |
| Builders.JoinBridgeHeader | netdev/netlink.c:112-116 | the join_bridge message's nlmsg_len is 40 and ifi_index is the port as a 32-bit field |
| Builders.DevUpLayout | netdev/netlink.c:177-187 | the dev_up message is 32 bytes: RTM_NEWLINK, NLM_F_REQUEST, AF_PACKET, the index, and IFF_UP as both the flags and the change mask |
| Builders.SetIpAddressFits | netdev/netlink.c:158-160 | the three address attributes take 28 bytes and fit the 256 spare bytes |
| Builders.SetIpAddressImage | netdev/netlink.c:150-162 | the request set_ip_address sends is the ifaddrmsg, then IFA_LOCAL, IFA_ADDRESS and the 8-byte IFA_BROADCAST |
| Builders.SetIpAddressLayout | netdev/netlink.c:150-160 | the set_ip_address message is 52 bytes: RTM_NEWADDR with the create flags, AF_INET, prefix length = netmask mod 256, and the index |
| Builders.BroadcastExample | netdev/netlink.c:143-148 | 10.0.0.1/24 gets broadcast 10.0.0.255, sent as the bytes 10, 0, 0, 255 |
| Builders.AttrInRequest | netdev/netlink.c:46 | each attribute of a request sits right after the encodings of those before it |
| Builders.AttrFieldsAt | netdev/netlink.c:48-52 | an attribute encoded inside a message reads back its rta_len, its type and its payload in place |
| Builders.StartLink | netdev/netlink.c:110-116 | the opening of the link builders leaves a fresh zeroed 1056-byte struct holding the empty RTM_NEWLINK request |
| Builders.StartAddr | netdev/netlink.c:141-156 | the opening of set_ip_address leaves a fresh zeroed 280-byte struct holding the empty RTM_NEWADDR request |
| Builders.Append | netdev/netlink.c:76 | add_netlink_msg on the scratch struct appends the attribute's encoding to the image it holds |
| Builders.AppendNested | netdev/netlink.c:78-82 | the container sequence of create_bridge leaves the image with one container attribute holding the nested one |
| Builders.Sent | netdev/netlink.c:84 | send transmits exactly the image the struct holds |
| Builders.CreateBridge | netdev/netlink.c:55-87 | create_bridge sends `CreateBridgeRequest(name)` |
| Builders.JoinBridge | netdev/netlink.c:89-123 | join_bridge sends the request with the looked-up bridge index, or 0 without a bridge name |
| Builders.LeaveBridge | netdev/netlink.c:125-127 | leave_bridge sends the join_bridge request with bridge index 0 |
| Builders.SetIpAddress | netdev/netlink.c:129-165 | set_ip_address sends `SetIpAddressRequest` with the broadcast of the loop and the looked-up index |
| Builders.SendAddress | netdev/netlink.c:150-162 | the stores and three appends of set_ip_address send the ifaddrmsg followed by the three attributes in order |
| Builders.DevUp | netdev/netlink.c:167-190 | dev_up sends `DevUpRequest` with the looked-up index |
| Dump.MessagesFrom | netdev/netlink.c:226-245 | the messages NLMSG_OK accepts, one after the other at NLMSG_NEXT; MessagesInDatagram states where they lie |
| Dump.InDatagram | netdev/netlink.c:226-246 | the dump over one datagram's messages; MessageStep and InDatagramIsExpected state it: stop at NLMSG_DONE, undefined at the first record that overruns, else one record per message |
| Dump.DumpFrom | netdev/netlink.c:219-247 | the dump over the datagrams read() returns, each read only if the previous ended without NLMSG_DONE; DumpFromIsExpected and ExpectedMeaning state its contents |
| Dump.MessageAt | netdev/netlink.c:226 | a message NLMSG_OK accepts lies inside the datagram and holds at least a header |
| Dump.MessagesInDatagram | netdev/netlink.c:226-245 | every accepted message lies inside the datagram; each next one starts at NLMSG_ALIGN of the previous one's end; at most (size / 16) messages |
| Dump.UntilDone | netdev/netlink.c:227-229 | the messages before the first NLMSG_DONE form a prefix with no NLMSG_DONE, followed by NLMSG_DONE if any remain |
| Dump.MessageStep | netdev/netlink.c:227-231 | at NLMSG_DONE the dump completes with what was collected; otherwise the record is added or the dump is undefined |
| Dump.ExpectedMeaning | netdev/netlink.c:219-249 | the dump completes exactly when NLMSG_DONE arrives; it holds one record per message before it, in order; it is undefined only when one of those records is |
| Dump.InDatagramIsExpected | netdev/netlink.c:226-246 | the walk of one datagram is the dump over its accepted messages |
| Dump.ExpectedAppend | netdev/netlink.c:219-247 | the dump over two runs of messages is the first, continued by the second only if the first ended in read() |
| Dump.DumpFromIsExpected | netdev/netlink.c:219-247 | the datagram-by-datagram dump equals the dump over all accepted messages of all datagrams |
| Dump.CStringAt | netdev/netlink.c:239 | strdup yields the NUL-free bytes up to the first NUL; it reads past the received bytes exactly when no NUL follows |
| Dump.CStringOf | netdev/netlink.c:239 | strdup of a NUL-terminated name gives back the name |
| Dump.NoNameKeepsSlot | netdev/netlink.c:237-243 | without IFLA_IFNAME the slot keeps its value |
| Dump.LastNameAppend | netdev/netlink.c:237-243 | walking two runs of attributes is walking the second from the slot the first leaves |
| Dump.LastNameAt | netdev/netlink.c:238-240 | with no IFLA_IFNAME after attribute i, the slot is attribute i's string (or undefined) |
| Dump.LastNameWins | netdev/netlink.c:238-240 | a defined slot holds the string of the last IFLA_IFNAME |
| Dump.NameThenNoName | netdev/netlink.c:238-242 | an IFLA_IFNAME followed by no other IFLA_IFNAME leaves exactly its string |
| Dump.NoNameBefore | netdev/netlink.c:237-243 | no IFLA_IFNAME before attribute i leaves the slot as it was |
| Dump.NamesStep | netdev/netlink.c:237-242 | one attribute step: IFLA_IFNAME replaces the slot by its string, any other type leaves it; the walk moves by RTA_ALIGN(rta_len) |
| Dump.LastName | netdev/netlink.c:237-243 | the slot after the IFLA_IFNAME strdups of a run of attributes; LastNameWins, NoNameKeepsSlot and LastNameAppend state that the last IFLA_IFNAME decides it |
| Dump.NameRecord | netdev/netlink.c:234-243 | the record of one link message: the slot the IFLA_IFNAME attributes leave, walking from +32 with budget nlmsg_len - 32; its meaning is stated by NameRecordName and NameRecordNoName |
| Dump.NameRecordName | netdev/netlink.c:237-243 | a defined record of a message with an IFLA_IFNAME is the string of its last IFLA_IFNAME, and that string is defined |
| Dump.NameRecordNoName | netdev/netlink.c:237-243 | a link message with no IFLA_IFNAME leaves the slot unset |
| Dump.NameRecordAsWritten | netdev/netlink.c:234-243 | the record as the code computes it, with the whole nlmsg_len as attribute budget; NameBudgetFinding and NameBudgetEthDone show where it differs from NameRecord |
| Dump.NameOfMessage | netdev/netlink.c:234-243 | the attribute loop over one link message computes `NameRecord` |
| Dump.NamesOfDatagram | netdev/netlink.c:226-246 | the message loop over one datagram continues the dump from the names collected so far |
| Dump.GetNetdevNames | netdev/netlink.c:197-254 | get_netdev_names over the received datagrams returns `DumpFrom(ds, 0, NameRecord)` |
| Dump.CopyAddrMeaning | netdev/netlink.c:312-314 | the NDA_LLADDR copy puts the payload at the start of the field and keeps the rest; it is undefined exactly when the payload exceeds 6 bytes or runs past the received bytes |
| Dump.CopiedPayload | netdev/netlink.c:312-314 | a copy that succeeds had a payload of at most 6 bytes, inside the received bytes, and holds it byte for byte |
| Dump.CopyLladdr | netdev/netlink.c:313-314 | the byte-copy loop computes `CopyAddr` |
| Dump.FibRecord | netdev/netlink.c:295-318 | the record of one neighbour message: the destination is the name of ndm_ifindex, the address is what the NDA_LLADDR copies of its attribute walk (from +28, budget nlmsg_len - 28) leave in an unset field; its meaning is stated by FibRecordAddr and FibRecordNoLladdr |
| Dump.FibAddrIsLastAddr | netdev/netlink.c:309-318 | a defined entry's address is the field the NDA_LLADDR copies over the message's attributes leave |
| Dump.FibRecordAddr | netdev/netlink.c:309-318 | a defined entry's address starts with the payload of the message's last NDA_LLADDR, byte for byte; that payload is at most 6 bytes and lies inside the received bytes |
| Dump.FibRecordNoLladdr | netdev/netlink.c:301-318 | a neighbour message with no NDA_LLADDR gives the entry (name of ndm_ifindex, address unset) |
| Dump.FibRecordAsWritten | netdev/netlink.c:299-318 | the record as the code computes it, with the whole nlmsg_len as attribute budget; FibBudgetFinding shows where it differs from FibRecord |
| Dump.CopyAddr | netdev/netlink.c:313-314 | the byte-copy loop of one NDA_LLADDR; CopyAddrMeaning states it: the payload goes to the start of the field, the rest is kept, and it is undefined exactly when the payload exceeds 6 bytes or the received bytes |
| Dump.LastAddr | netdev/netlink.c:309-318 | the address after the NDA_LLADDR copies of a run of attributes; LastLladdrWins, NoLladdrKeepsAddr and LastAddrAppend state that the last NDA_LLADDR decides it |
| Dump.AddrsStep | netdev/netlink.c:309-318 | one attribute step: NDA_LLADDR copies its payload into the address, any other type leaves it; the walk moves by RTA_ALIGN(rta_len) |
| Dump.FibOfMessage | netdev/netlink.c:295-318 | the index lookup and attribute loop over one neighbour message compute `FibRecord` |
| Dump.FibsOfDatagram | netdev/netlink.c:287-321 | the message loop of get_fdb over one datagram continues the dump from the entries collected so far |
| Dump.GetFdb | netdev/netlink.c:257-329 | get_fdb over the received datagrams returns `DumpFrom(ds, 0, FibOf(indexToName))` |
| Dump.NoLladdrKeepsAddr | netdev/netlink.c:309-318 | without NDA_LLADDR the address keeps its bytes |
| Dump.LastAddrAppend | netdev/netlink.c:309-318 | walking two runs of attributes is walking the second from the address the first leaves |
| Dump.LladdrThenNone | netdev/netlink.c:312-317 | an NDA_LLADDR followed by no other NDA_LLADDR leaves exactly what its copy leaves |
| Dump.LastCopyWins | netdev/netlink.c:312-317 | with no NDA_LLADDR after attribute i, the address is attribute i's copy onto the address before it |
| Dump.LastLladdrWins | netdev/netlink.c:312-317 | a defined address holds the payload of the last NDA_LLADDR byte for byte, and that payload is at most 6 bytes |
| Dump.NoLladdrBefore | netdev/netlink.c:309-318 | no NDA_LLADDR before attribute i leaves the address as it was |
| Dump.AttrsInsideMessage | netdev/netlink.c:236 | with budget nlmsg_len minus the attribute start, the walk over a received message is defined and every attribute lies inside the message |
| Dump.OneMessage | netdev/netlink.c:226 | a datagram holding exactly one aligned message yields that one message |
| Dump.OneRecord | netdev/netlink.c:226-246 | a datagram with one message other than NLMSG_DONE dumps that message's record, then blocks in read() |
| Dump.NameBudgetFinding | netdev/netlink.c:236 | for a bare 32-byte link message the as-written budget makes the dump undefined; the corrected budget gives one unset slot |
| Dump.NameBudgetEthDone | netdev/netlink.c:236 | for an ordinary reply (a 44-byte link message "eth0" and NLMSG_DONE) the as-written record overruns and the dump is undefined, while the corrected record is "eth0" and the dump completes with it |
| Dump.BareNeighRecords | netdev/netlink.c:299 | for a bare 28-byte neighbour message the as-written record overruns and the corrected record has the port name and an unset address |
| Dump.FibBudgetFinding | netdev/netlink.c:299 | for a bare 28-byte neighbour message the as-written budget makes get_fdb's dump undefined; the corrected budget gives one entry |
| Dump.LinkDumpRequest | netdev/netlink.c:204-214 | the 32 bytes get_netdev_names sends; LinkDumpRequestFields reads back its fields |
| Dump.NeighDumpRequest | netdev/netlink.c:263-275 | the 32 bytes get_fdb sends; NeighDumpRequestFields reads back its fields |
| Dump.LinkDumpRequestFields | netdev/netlink.c:204-214 | the link dump request: nlmsg_len 32, RTM_GETLINK, NLM_F_ROOT and NLM_F_REQUEST, the counter's sequence number, pid 0, AF_PACKET; the rest of the ifinfomsg keeps its stale bytes |
| Dump.NeighDumpRequestFields | netdev/netlink.c:263-275 | the neighbour dump request: nlmsg_len 32, RTM_GETNEIGH, NLM_F_DUMP and NLM_F_REQUEST, seq and pid 0, PF_BRIDGE and zeros |
| Dump.SendLinkDump | netdev/netlink.c:209-217 | the field stores of get_netdev_names over the uncleared struct send `LinkDumpRequest(seq, stale)` |
| Dump.SendNeighDump | netdev/netlink.c:268-278 | the memset and field stores of get_fdb send `NeighDumpRequest()` |
| Dump.DecodedAt | netdev/netlink.c:237-242 | each accepted attribute's type and payload are what its bytes hold in place |
| Dump.OnlyName | netdev/netlink.c:237-243 | a single IFLA_IFNAME holding a NUL-terminated name fills the slot with the name |
| Dump.NameOfParsed | netdev/netlink.c:234-243 | a link message whose walk reads back a single IFLA_IFNAME name has that name as its record |
| Dump.NameRoundTrip | netdev/netlink.c:234-243 | any request the builders lay out with one IFLA_IFNAME "name\0" reads back the name in get_netdev_names |
| Dump.CreateBridgeNameRoundTrip | netdev/netlink.c:76 | the message create_bridge sends reads back its bridge name in get_netdev_names |
| Dump.OnlyLladdr | netdev/netlink.c:309-318 | a single 6-byte NDA_LLADDR fills the whole address |
| Dump.FullCopy | netdev/netlink.c:313-314 | copying a 6-byte payload replaces every byte of the address |
| Dump.FibOfParsed | netdev/netlink.c:301-318 | a neighbour message whose walk reads back a single 6-byte NDA_LLADDR has that address and the port's name as its record |
| Dump.FibRoundTrip | netdev/netlink.c:301-318 | a neighbour message with ndm_ifindex i and one 6-byte NDA_LLADDR reads back as the entry (indexToName(i), those 6 bytes) |

## Left out

- The socket: opening it (lines 31-38), send and read are not modelled as I/O. Builders return the bytes they would send; the dump readers take the received datagrams as a sequence.
- `if_nametoindex` and `if_indextoname` are function parameters. A failed lookup (index 0, or an unchanged devname buffer) is not modelled.
- The endless `while(1)` read loop: with a finite list of datagrams, a dump that has not seen NLMSG_DONE when they are used up ends as `Blocked`, standing for blocking in read().
- realloc and strdup become sequence append and sequence copy. A slot or address byte the code never writes is `None`, not stale heap memory. Out-of-memory is not modelled.
- The static sequence counter of get_netdev_names is a parameter, and so are the stale bytes of its uncleared request struct.
- The 1 MiB receive buffer's size is not modelled; a datagram is any byte sequence.
- Builders.SetIpAddress: the IFA_BROADCAST attribute declares 8 bytes, but the variable is 4 bytes wide. The 4 bytes after it in memory are a parameter `beyond`.
- Netmask.ComputeBroadcast: a negative netmask is excluded by its requires. In C it would shift by 32 or more, which is undefined.
- Builders.CreateBridge: the name is a C string, so it is required to be NUL-free; names longer than 1003 bytes would overflow the 1024 spare bytes and are excluded.
- Dump.CopyAddrMeaning: the copy at netdev/netlink.c:313-314 has no clamp, so a payload longer than 6 bytes writes past `addr`; the model gives such a copy the outcome `Overrun` instead of modelling the write into the neighbouring memory.
- Dump.FibRecord: the code never initialises `addr`, so the bytes no NDA_LLADDR writes are modelled as `None` rather than as whatever the allocation held.
- The layout of `struct fib` comes from `netlink.h`, which is not part of this model. Its address field is taken to be 6 bytes.
- Both readers use the corrected attribute budget (see Findings). The as-written budget is modelled by `NameRecordAsWritten` and `FibRecordAsWritten`.

## Findings

| source | as written | input that shows it | evidently intended | confidence | as-written member | corrected member |
|---|---|---|---|---|---|---|
| netdev/netlink.c:236 | the attribute budget of a link message is the whole nlmsg_len, though the attributes start 32 bytes in, so the walk may run 32 bytes past the message | an ordinary 64-byte reply: a 44-byte RTM_NEWLINK message with IFLA_IFNAME "eth0", then a 20-byte NLMSG_DONE; the walk takes the NLMSG_DONE header for an attribute and then reads rta_len at offset 64, beyond the received bytes (a bare 32-byte link message overruns the same way) | budget nlmsg_len - 32 (IFLA_PAYLOAD), so the walk ends where the message ends | not executed | Dump.NameBudgetEthDone | Dump.AttrsInsideMessage |
| netdev/netlink.c:299 | the attribute budget of a neighbour message is the whole nlmsg_len, though the attributes start 28 bytes in, so the walk may run 28 bytes past the message | a datagram holding one 28-byte RTM_NEWNEIGH message with no attributes: RTA_OK reads rta_len at offset 28, beyond the received bytes | budget nlmsg_len - 28, so the walk ends where the message ends | not executed | Dump.FibBudgetFinding | Dump.AttrsInsideMessage |

/** src/tcp_closer_netlink.c: the sock_diag dump and destroy requests, the
    walk over a dump reply, the retention policy for an established
    connection, and the walk over the replies to destroy requests. */
module Diag {
  import opened Bytes
  import opened Wrappers
  import opened Mnl
  import Bytecode

  /** Netlink message types and flags, and the inet_diag constants used. */
  const NLMSG_ERROR: u16 := 2
  const NLMSG_DONE: u16 := 3
  const SOCK_DIAG_BY_FAMILY: u16 := 20
  const SOCK_DESTROY: u16 := 21
  const NLM_F_REQUEST: u16 := 0x1
  const NLM_F_ACK: u16 := 0x4
  const NLM_F_DUMP: u16 := 0x300
  const IPPROTO_TCP: byte := 6
  const TCP_ESTABLISHED: nat := 1
  const INET_DIAG_REQ_BYTECODE: u16 := 1
  const INET_DIAG_INFO: u16 := 2

  /** sizeof(struct inet_diag_req_v2), of struct inet_diag_msg and of the
      socket id both carry. */
  const DIAG_REQ_SIZE: nat := 56
  const DIAG_MSG_SIZE: nat := 72
  const SOCKID_SIZE: nat := 48
  /** Offsets inside struct inet_diag_msg and struct tcp_info. */
  const MSG_ID_OFF: nat := 4
  const MSG_INODE_OFF: nat := 68
  const TCPI_LAST_DATA_RECV_OFF: nat := 52

  /** struct inet_diag_req_v2: family, protocol, extension mask, pad,
      state mask, socket id. */
  datatype DiagReq = DiagReq(family: byte, protocol: byte, ext: byte, states: u32, id: seq<byte>)

  function EncodeReq(r: DiagReq): (bs: seq<byte>)
    requires |r.id| == SOCKID_SIZE
    ensures |bs| == DIAG_REQ_SIZE
  {
    [r.family, r.protocol, r.ext, 0] + Le32(r.states) + r.id
  }

  function ReadReq(buf: seq<byte>, off: int): DiagReq
  {
    DiagReq(ByteAt(buf, off), ByteAt(buf, off + 1), ByteAt(buf, off + 2),
            Le32At(buf, off + 4), Slice(buf, off + 8, SOCKID_SIZE))
  }

  lemma ReadEncodeReq(a: seq<byte>, r: DiagReq, b: seq<byte>)
    requires |r.id| == SOCKID_SIZE
    ensures ReadReq(a + EncodeReq(r) + b, |a|) == r
  {
    var m := EncodeReq(r);
    var s := a + m + b;
    SliceOf(a, m, b, 4, 8);
    Le32Read(s, |a| + 4, r.states);
    assert Slice(s, |a| + 8, SOCKID_SIZE) == r.id;
  }

  /** The header send_diag_msg fills in, for a message of msgLen bytes. */
  function DumpHeader(msgLen: u32, portid: u32): NlMsgHdr
  {
    NlMsgHdr(msgLen, SOCK_DIAG_BY_FAMILY, NLM_F_DUMP + NLM_F_REQUEST + NLM_F_ACK, 0, portid)
  }

  /** The request send_diag_msg fills in: family, TCP, the INET_DIAG_INFO
      extension bit, and the TCP_ESTABLISHED state bit. */
  function DumpSelector(family: byte): DiagReq
  {
    DiagReq(family, IPPROTO_TCP, 1 * 2, 2, Zeros(SOCKID_SIZE))
  }

  /** What the kernel gets for the dump request of send_diag_msg: a header
      from mnl_nlmsg_put_header, the zeroed inet_diag_req_v2 from
      mnl_nlmsg_put_extra_header with the fields the code sets, and the
      bytecode attribute of mnl_attr_put; nlmsg_len, grown by the aligned
      16-bit nla_len, decides how many bytes are sent. */
  function DumpRequest(family: byte, filter: seq<byte>, portid: u32): (r: seq<byte>)
  {
    var nlaLen := (NLA_HDRLEN + |filter|) % 0x1_0000;
    var msgLen := NLMSG_HDRLEN + DIAG_REQ_SIZE + Align4(nlaLen);
    var full := EncodeHdr(DumpHeader(msgLen, portid)) + EncodeReq(DumpSelector(family))
                + EncodeAttr(INET_DIAG_REQ_BYTECODE, filter);
    Align4Bounds(|filter|);
    Align4Mono(nlaLen, NLA_HDRLEN + |filter|);
    Align4Plus4(|filter|);
    full[..msgLen]
  }

  /** The destroy request of destroy_socket: header and request only, with
      the family and the socket id of the reply entry. */
  function DestroyRequest(family: byte, id: seq<byte>, portid: u32): (r: seq<byte>)
    requires |id| == SOCKID_SIZE
    ensures |r| == NLMSG_HDRLEN + DIAG_REQ_SIZE
  {
    var hdr := NlMsgHdr(NLMSG_HDRLEN + DIAG_REQ_SIZE, SOCK_DESTROY, NLM_F_REQUEST + NLM_F_ACK, 0, portid);
    EncodeHdr(hdr) + EncodeReq(DiagReq(family, IPPROTO_TCP, 0, 0, id))
  }

  /** Without wrap-around, the whole of the built message is sent. */
  lemma DumpRequestWhole(family: byte, filter: seq<byte>, portid: u32)
    requires NLA_HDRLEN + |filter| < 0x1_0000
    ensures DumpRequest(family, filter, portid)
         == EncodeHdr(DumpHeader(NLMSG_HDRLEN + DIAG_REQ_SIZE + NLA_HDRLEN + Align4(|filter|), portid))
            + EncodeReq(DumpSelector(family)) + EncodeAttr(INET_DIAG_REQ_BYTECODE, filter)
  {
    Align4Plus4(|filter|);
  }

  /** The dump request, read back: one SOCK_DIAG_BY_FAMILY dump with ACK for
      established TCP sockets of the family, asking for tcp_info, whose one
      attribute carries the filter verbatim; exactly nlmsg_len bytes. */
  lemma DumpRequestLayout(family: byte, filter: seq<byte>, portid: u32)
    requires NLA_HDRLEN + |filter| < 0x1_0000
    ensures var r := DumpRequest(family, filter, portid);
      && |r| == NLMSG_HDRLEN + DIAG_REQ_SIZE + Align4(NLA_HDRLEN + |filter|)
      && ReadHdr(r, 0) == NlMsgHdr(|r|, SOCK_DIAG_BY_FAMILY, 0x305, 0, portid)
      && ReadReq(r, NLMSG_HDRLEN) == DiagReq(family, IPPROTO_TCP, 2, 2, Zeros(SOCKID_SIZE))
      && ReadAttr(r, NLMSG_HDRLEN + DIAG_REQ_SIZE)
         == NlAttr(NLMSG_HDRLEN + DIAG_REQ_SIZE, NLA_HDRLEN + |filter|, INET_DIAG_REQ_BYTECODE)
      && AttrPayload(r, ReadAttr(r, NLMSG_HDRLEN + DIAG_REQ_SIZE)) == filter
  {
    Align4Plus4(|filter|);
    var msgLen := NLMSG_HDRLEN + DIAG_REQ_SIZE + NLA_HDRLEN + Align4(|filter|);
    var h, q, t := EncodeHdr(DumpHeader(msgLen, portid)), EncodeReq(DumpSelector(family)),
                   EncodeAttr(INET_DIAG_REQ_BYTECODE, filter);
    DumpRequestWhole(family, filter, portid);
    var r := DumpRequest(family, filter, portid);
    assert r == [] + h + (q + t);
    ReadEncodeHdr([], DumpHeader(msgLen, portid), q + t);
    ReadEncodeReq(h, DumpSelector(family), t);
    assert r == (h + q) + t + [];
    ReadEncodeAttr(h + q, INET_DIAG_REQ_BYTECODE, filter, []);
  }

  /** With 4096 ports (a 65536-byte filter, within MAX_NUM_PORTS) the 16-bit
      nla_len wraps to 4: the request that goes out is 76 bytes and carries
      an empty bytecode attribute instead of the filter. */
  lemma DumpRequestDropsLargeFilter(family: byte, filter: seq<byte>, portid: u32)
    requires |filter| == 0x1_0000
    ensures var r := DumpRequest(family, filter, portid);
      && |r| == NLMSG_HDRLEN + DIAG_REQ_SIZE + NLA_HDRLEN
      && ReadHdr(r, 0).len == |r|
      && ReadAttr(r, NLMSG_HDRLEN + DIAG_REQ_SIZE).len == NLA_HDRLEN
  {
    var h, q, t := EncodeHdr(DumpHeader(76, portid)), EncodeReq(DumpSelector(family)),
                   EncodeAttr(INET_DIAG_REQ_BYTECODE, filter);
    var s := h + q + t;
    assert DumpRequest(family, filter, portid) == s[..76];
    assert [] + h + (q + t) == s;
    ReadEncodeHdr([], DumpHeader(76, portid), q + t);
    assert (h + q) + t + [] == s;
    ReadEncodeAttr(h + q, INET_DIAG_REQ_BYTECODE, filter, []);
    HdrOfPrefix(s, 76);
    AttrOfPrefix(s, 76, 72);
  }

  /** The bytes send_diag_msg writes into its request buffer for a filter
      of filterLen bytes: header, request, attribute header and the filter
      padded to four bytes (mnl_attr_put copies the whole filter whatever
      the 16-bit nla_len says). */
  function DumpBytesWritten(filterLen: nat): (n: nat)
    ensures n >= NLMSG_HDRLEN + DIAG_REQ_SIZE + NLA_HDRLEN + filterLen
  {
    Align4Bounds(filterLen);
    NLMSG_HDRLEN + DIAG_REQ_SIZE + NLA_HDRLEN + Align4(filterLen)
  }

  /** The request buffer is uint8_t[MNL_SOCKET_BUFFER_SIZE], the page size
      but at most 8192 bytes.  A filter of n ports (16 bytes each) fits a
      4096-byte buffer only up to 251 ports and an 8192-byte one only up to
      507 ports, far below MAX_NUM_PORTS: beyond, the copy of the filter runs
      past the buffer. */
  lemma DumpBufferBound(n: nat)
    ensures DumpBytesWritten(16 * n) <= 4096 <==> n <= 251
    ensures DumpBytesWritten(16 * n) <= 8192 <==> n <= 507
    ensures 507 < Bytecode.MAX_NUM_PORTS
  {
    assert Align4(16 * n) == 16 * n by {
      assert (16 * n + 3) / 4 == 4 * n;
    }
  }

  /** Cutting a buffer after a header leaves the header as it was. */
  lemma HdrOfPrefix(s: seq<byte>, k: nat)
    requires NLMSG_HDRLEN <= k <= |s|
    ensures ReadHdr(s[..k], 0) == ReadHdr(s, 0)
  {
    assert forall i :: 0 <= i < 16 ==> ByteAt(s[..k], i) == ByteAt(s, i);
  }

  /** Cutting a buffer after an attribute header leaves it as it was. */
  lemma AttrOfPrefix(s: seq<byte>, k: nat, off: nat)
    requires off + NLA_HDRLEN <= k <= |s|
    ensures ReadAttr(s[..k], off) == ReadAttr(s, off)
  {
    assert forall i :: off <= i < off + 4 ==> ByteAt(s[..k], i) == ByteAt(s, i);
  }

  /** The destroy request, read back: SOCK_DESTROY with REQUEST|ACK, 72
      bytes, carrying the given family and socket id unchanged. */
  lemma DestroyRequestLayout(family: byte, id: seq<byte>, portid: u32)
    requires |id| == SOCKID_SIZE
    ensures var r := DestroyRequest(family, id, portid);
      && ReadHdr(r, 0) == NlMsgHdr(|r|, SOCK_DESTROY, 0x5, 0, portid)
      && ReadReq(r, NLMSG_HDRLEN) == DiagReq(family, IPPROTO_TCP, 0, 0, id)
  {
    var hdr := NlMsgHdr(NLMSG_HDRLEN + DIAG_REQ_SIZE, SOCK_DESTROY, NLM_F_REQUEST + NLM_F_ACK, 0, portid);
    var req := DiagReq(family, IPPROTO_TCP, 0, 0, id);
    var r := DestroyRequest(family, id, portid);
    assert r == [] + EncodeHdr(hdr) + EncodeReq(req);
    ReadEncodeHdr([], hdr, EncodeReq(req));
    assert r == EncodeHdr(hdr) + EncodeReq(req) + [];
    ReadEncodeReq(EncodeHdr(hdr), req, []);
  }

  /*** parse_diag_msg ***/

  /** The attributes the walk of parse_diag_msg examines if it never stops
      early: it lowers the remaining count by the unaligned nla_len but
      moves to the next attribute by the aligned length. */
  function AttrWalk(buf: seq<byte>, off: int, rem: int): (r: seq<NlAttr>)
    decreases if rem < 0 then 0 else rem
  {
    if !AttrOk(buf, off, rem) then []
    else [ReadAttr(buf, off)] + AttrWalk(buf, AttrNext(buf, off), rem - Le16At(buf, off))
  }

  /** Because of that mismatch, the window the walk checks against drifts
      past the message by up to 3 bytes per skipped attribute: attribute k
      ends at most 3*k bytes beyond the rem bytes it started with. */
  lemma {:induction false} AttrWalkDrift(buf: seq<byte>, off: int, rem: int)
    ensures forall k :: 0 <= k < |AttrWalk(buf, off, rem)| ==>
      off <= AttrWalk(buf, off, rem)[k].off &&
      AttrWalk(buf, off, rem)[k].off + AttrWalk(buf, off, rem)[k].len <= off + rem + 3 * k
    decreases if rem < 0 then 0 else rem
  {
    if AttrOk(buf, off, rem) {
      var len, nx := Le16At(buf, off), AttrNext(buf, off);
      AttrWalkDrift(buf, nx, rem - len);
      var r, rest := AttrWalk(buf, off, rem), AttrWalk(buf, nx, rem - len);
      assert r == [ReadAttr(buf, off)] + rest;
      forall k | 1 <= k < |r|
        ensures off <= r[k].off && r[k].off + r[k].len <= off + rem + 3 * k
      {
        assert r[k] == rest[k - 1];
        assert nx <= rest[k - 1].off && rest[k - 1].off + rest[k - 1].len <= nx + (rem - len) + 3 * (k - 1);
      }
    }
  }

  /** One step of the walk, seen from a walk w that has it as its suffix. */
  lemma AttrWalkStep(w: seq<NlAttr>, k: nat, buf: seq<byte>, off: int, rem: int)
    requires k <= |w| && w[k..] == AttrWalk(buf, off, rem) && AttrOk(buf, off, rem)
    ensures k < |w| && w[k] == ReadAttr(buf, off)
    ensures w[k + 1..] == AttrWalk(buf, AttrNext(buf, off), rem - Le16At(buf, off))
  {
    assert w[k..][0] == w[k];
    assert w[k + 1..] == w[k..][1..];
  }

  /** The position of the first INET_DIAG_INFO attribute, or |attrs|. */
  function InfoIndex(attrs: seq<NlAttr>): (k: nat)
    ensures k <= |attrs|
    ensures k < |attrs| ==> attrs[k].typ == INET_DIAG_INFO
    ensures forall j :: 0 <= j < k ==> attrs[j].typ != INET_DIAG_INFO
  {
    if attrs == [] then 0
    else if attrs[0].typ == INET_DIAG_INFO then 0
    else 1 + InfoIndex(attrs[1..])
  }

  /** Where the attributes of a reply entry start, and how many bytes the
      walk starts with: the entry's payload less the inet_diag_msg. */
  function AttrStart(f: Frame): int
  {
    f.off + NLMSG_HDRLEN + DIAG_MSG_SIZE
  }

  function AttrRem(f: Frame): int
  {
    (f.hdr.len - NLMSG_HDRLEN) - DIAG_MSG_SIZE
  }

  /** The kernel attached tcp_info to the entry; the code assumes it. */
  predicate HasInfo(buf: seq<byte>, f: Frame)
  {
    InfoIndex(AttrWalk(buf, AttrStart(f), AttrRem(f))) < |AttrWalk(buf, AttrStart(f), AttrRem(f))|
  }

  /** The attribute walk of parse_diag_msg: the first INET_DIAG_INFO
      attribute the walk reaches, if any. */
  method FindInfoAttr(buf: seq<byte>, start: int, payloadLen: int) returns (found: bool, at: int)
    ensures found <==> InfoIndex(AttrWalk(buf, start, payloadLen)) < |AttrWalk(buf, start, payloadLen)|
    ensures found ==> at == AttrWalk(buf, start, payloadLen)[InfoIndex(AttrWalk(buf, start, payloadLen))].off
  {
    ghost var w := AttrWalk(buf, start, payloadLen);
    ghost var k := 0;
    at := start;
    var rem := payloadLen;
    found := false;
    while AttrOk(buf, at, rem)
      invariant 0 <= k <= |w| && w[k..] == AttrWalk(buf, at, rem)
      invariant k <= InfoIndex(w)
      decreases if rem < 0 then 0 else rem
    {
      var attr := ReadAttr(buf, at);
      AttrWalkStep(w, k, buf, at, rem);
      if attr.typ != INET_DIAG_INFO {
        rem := rem - attr.len;
        at := AttrNext(buf, at);
        k := k + 1;
        continue;
      }
      found := true;
      return;
    }
    assert k == |w|;
  }

  /** The retention policy: a connection is destroyed iff it has been idle
      for at least idle_time (when set) and for less than
      last_data_recv_limit (when set), both in milliseconds. */
  predicate ShouldDestroy(lastDataRecv: u32, idleTime: nat, limit: nat)
  {
    (idleTime == 0 || lastDataRecv >= idleTime) && (limit == 0 || lastDataRecv < limit)
  }

  /** The ctx fields the netlink code reads. */
  datatype Config = Config(socketFamily: byte, idleTime: nat, lastDataRecvLimit: nat,
                           useNetlink: bool, dumpInterval: nat, dumpPortId: u32, destroyPortId: u32)

  /** What parse_diag_msg does for an entry it destroys. */
  datatype Action = SendDestroy(request: seq<byte>) | ProcKill(inode: u32)

  /** The entry's tcpi_last_data_recv, read from the first INET_DIAG_INFO. */
  function LastDataRecv(buf: seq<byte>, f: Frame): u32
    requires HasInfo(buf, f)
  {
    var w := AttrWalk(buf, AttrStart(f), AttrRem(f));
    Le32At(buf, w[InfoIndex(w)].off + NLA_HDRLEN + TCPI_LAST_DATA_RECV_OFF)
  }

  /** The action parse_diag_msg takes for a reply entry, if any. */
  function EntryAction(buf: seq<byte>, f: Frame, cfg: Config): Option<Action>
    requires HasInfo(buf, f)
  {
    var diag := f.off + NLMSG_HDRLEN;
    if !ShouldDestroy(LastDataRecv(buf, f), cfg.idleTime, cfg.lastDataRecvLimit) then None
    else if cfg.useNetlink then
      Some(SendDestroy(DestroyRequest(ByteAt(buf, diag), Slice(buf, diag + MSG_ID_OFF, SOCKID_SIZE), cfg.destroyPortId)))
    else Some(ProcKill(Le32At(buf, diag + MSG_INODE_OFF)))
  }

  /** parse_diag_msg for the entry in frame f. */
  method ParseDiagMsg(buf: seq<byte>, f: Frame, cfg: Config) returns (action: Option<Action>)
    requires HasInfo(buf, f)
    ensures action == EntryAction(buf, f, cfg)
  {
    var diag := f.off + NLMSG_HDRLEN;
    var payloadLen := f.hdr.len - NLMSG_HDRLEN;
    var found, at := FindInfoAttr(buf, AttrStart(f), AttrRem(f));
    var lastDataRecv := Le32At(buf, at + NLA_HDRLEN + TCPI_LAST_DATA_RECV_OFF);
    if cfg.idleTime != 0 && lastDataRecv < cfg.idleTime {
      return None;
    }
    if cfg.lastDataRecvLimit != 0 && lastDataRecv >= cfg.lastDataRecvLimit {
      return None;
    }
    if cfg.useNetlink {
      var id := Slice(buf, diag + MSG_ID_OFF, SOCKID_SIZE);
      action := Some(SendDestroy(DestroyRequest(ByteAt(buf, diag), id, cfg.destroyPortId)));
    } else {
      action := Some(ProcKill(Le32At(buf, diag + MSG_INODE_OFF)));
    }
  }

  /** An entry is acted on exactly when the policy says so, by exactly one
      action of the configured kind; a destroy request carries the entry's
      own family and socket id. */
  lemma EntryActionSpec(buf: seq<byte>, f: Frame, cfg: Config)
    requires HasInfo(buf, f)
    ensures var a := EntryAction(buf, f, cfg);
      && (a.Some? <==> ShouldDestroy(LastDataRecv(buf, f), cfg.idleTime, cfg.lastDataRecvLimit))
      && (a.Some? ==> (a.value.SendDestroy? <==> cfg.useNetlink))
      && (a.Some? && a.value.ProcKill? ==> a.value.inode == Le32At(buf, f.off + NLMSG_HDRLEN + MSG_INODE_OFF))
      && (a.Some? && a.value.SendDestroy? ==>
            var r := a.value.request;
            && ReadHdr(r, 0).typ == SOCK_DESTROY
            && ReadReq(r, NLMSG_HDRLEN).family == ByteAt(buf, f.off + NLMSG_HDRLEN)
            && ReadReq(r, NLMSG_HDRLEN).id == Slice(buf, f.off + NLMSG_HDRLEN + MSG_ID_OFF, SOCKID_SIZE))
  {
    var diag := f.off + NLMSG_HDRLEN;
    DestroyRequestLayout(ByteAt(buf, diag), Slice(buf, diag + MSG_ID_OFF, SOCKID_SIZE), cfg.destroyPortId);
  }

  /*** recv_diag_msg ***/

  /** The position of the first NLMSG_DONE message, or |fs|. */
  function DoneIndex(fs: seq<Frame>): (k: nat)
    ensures k <= |fs|
    ensures k < |fs| ==> fs[k].hdr.typ == NLMSG_DONE
    ensures forall j :: 0 <= j < k ==> fs[j].hdr.typ != NLMSG_DONE
  {
    if fs == [] then 0
    else if fs[0].hdr.typ == NLMSG_DONE then 0
    else 1 + DoneIndex(fs[1..])
  }

  /** The error code of an NLMSG_ERROR message (struct nlmsgerr's error). */
  function ErrorCode(buf: seq<byte>, f: Frame): int
  {
    ToInt32(Le32At(buf, f.off + NLMSG_HDRLEN))
  }

  predicate IsEntry(f: Frame)
  {
    f.hdr.typ != NLMSG_DONE && f.hdr.typ != NLMSG_ERROR
  }

  predicate IsFailure(buf: seq<byte>, f: Frame)
  {
    f.hdr.typ == NLMSG_ERROR && ErrorCode(buf, f) != 0
  }

  /** Some message among fs is an NLMSG_ERROR. */
  predicate HasError(fs: seq<Frame>)
  {
    fs != [] && (HasError(fs[..|fs| - 1]) || fs[|fs| - 1].hdr.typ == NLMSG_ERROR)
  }

  /** Some message among fs is an NLMSG_ERROR with a nonzero code. */
  predicate HasFailure(buf: seq<byte>, fs: seq<Frame>)
  {
    fs != [] && (HasFailure(buf, fs[..|fs| - 1]) || IsFailure(buf, fs[|fs| - 1]))
  }

  lemma {:induction false} HasErrorExists(buf: seq<byte>, fs: seq<Frame>)
    ensures HasError(fs) <==> exists j :: 0 <= j < |fs| && fs[j].hdr.typ == NLMSG_ERROR
    ensures HasFailure(buf, fs) <==> exists j :: 0 <= j < |fs| && IsFailure(buf, fs[j])
  {
    if fs != [] {
      var p := fs[..|fs| - 1];
      HasErrorExists(buf, p);
      assert forall j :: 0 <= j < |p| ==> p[j] == fs[j];
    }
  }

  predicate EntriesHaveInfo(buf: seq<byte>, fs: seq<Frame>)
  {
    forall j {:trigger HasInfo(buf, fs[j])} :: 0 <= j < |fs| && IsEntry(fs[j]) ==> HasInfo(buf, fs[j])
  }

  /** The actions taken for the entries among fs, in order. */
  function Actions(buf: seq<byte>, fs: seq<Frame>, cfg: Config): seq<Action>
    requires EntriesHaveInfo(buf, fs)
  {
    if fs == [] then []
    else
      var f := fs[|fs| - 1];
      assert EntriesHaveInfo(buf, fs[..|fs| - 1]) by {
        assert forall j :: 0 <= j < |fs| - 1 ==> fs[..|fs| - 1][j] == fs[j];
      }
      Actions(buf, fs[..|fs| - 1], cfg) + FrameActions(buf, f, cfg)
  }

  /** The actions taken for one message: none unless it is an entry. */
  function FrameActions(buf: seq<byte>, f: Frame, cfg: Config): seq<Action>
    requires IsEntry(f) ==> HasInfo(buf, f)
  {
    if !IsEntry(f) then [] else match EntryAction(buf, f, cfg) case Some(a) => [a] case None => []
  }

  predicate NoDone(fs: seq<Frame>)
  {
    forall j :: 0 <= j < |fs| ==> fs[j].hdr.typ != NLMSG_DONE
  }

  /** After messages without NLMSG_DONE, the first NLMSG_DONE is no earlier,
      and it is right there when the rest is empty or starts with one. */
  lemma DoneAfter(seen: seq<Frame>, rest: seq<Frame>)
    requires NoDone(seen)
    ensures DoneIndex(seen + rest) >= |seen|
    ensures rest == [] || rest[0].hdr.typ == NLMSG_DONE ==>
      DoneIndex(seen + rest) == |seen| && (seen + rest)[..DoneIndex(seen + rest)] == seen
  {
    var fs := seen + rest;
    assert forall j :: 0 <= j < |seen| ==> fs[j] == seen[j];
    assert rest != [] ==> fs[|seen|] == rest[0];
  }

  /** What one more message other than NLMSG_DONE adds to the account of
      the messages seen so far. */
  lemma DumpStep(buf: seq<byte>, fs: seq<Frame>, seen: seq<Frame>, rest: seq<Frame>, cfg: Config)
    requires fs == seen + rest && rest != [] && rest[0].hdr.typ != NLMSG_DONE && NoDone(seen)
    requires EntriesHaveInfo(buf, fs[..DoneIndex(fs)]) && EntriesHaveInfo(buf, seen)
    ensures NoDone(seen + [rest[0]]) && EntriesHaveInfo(buf, seen + [rest[0]])
    ensures IsEntry(rest[0]) ==> HasInfo(buf, rest[0])
    ensures Actions(buf, seen + [rest[0]], cfg) == Actions(buf, seen, cfg) + FrameActions(buf, rest[0], cfg)
    ensures HasError(seen + [rest[0]]) == (HasError(seen) || rest[0].hdr.typ == NLMSG_ERROR)
    ensures HasFailure(buf, seen + [rest[0]]) == (HasFailure(buf, seen) || IsFailure(buf, rest[0]))
  {
    var s := seen + [rest[0]];
    DoneAfter(seen, rest);
    var d := DoneIndex(fs);
    assert fs[|seen|] == rest[0];
    assert forall j :: 0 <= j < |s| ==> s[j] == fs[..d][j];
    assert s[..|seen|] == seen;
  }

  /** The program's context: the configuration it reads and the two flags
      recv_diag_msg updates. */
  class Ctx {
    const cfg: Config
    var dumpInProgress: bool
    var stopRequested: bool

    constructor (cfg: Config)
      ensures this.cfg == cfg && !dumpInProgress && !stopRequested
    {
      this.cfg := cfg;
      dumpInProgress := false;
      stopRequested := false;
    }

    /** send_diag_msg: the bytes sent on the dump socket. */
    function DumpMsg(filter: seq<byte>): seq<byte>
    {
      DumpRequest(cfg.socketFamily, filter, cfg.dumpPortId)
    }

    /** The body of recv_diag_msg's loop for a message other than
        NLMSG_DONE: an NLMSG_ERROR clears dump_in_progress and, with a
        nonzero code and no dump interval, asks the loop to stop; any other
        message is a reply entry for parse_diag_msg. */
    method HandleDumpMsg(buf: seq<byte>, f: Frame) returns (actions: seq<Action>)
      requires f.hdr.typ != NLMSG_DONE && (IsEntry(f) ==> HasInfo(buf, f))
      modifies this
      ensures actions == FrameActions(buf, f, cfg)
      ensures dumpInProgress == (if f.hdr.typ == NLMSG_ERROR then false else old(dumpInProgress))
      ensures stopRequested == (old(stopRequested) || (cfg.dumpInterval == 0 && IsFailure(buf, f)))
    {
      actions := [];
      if f.hdr.typ == NLMSG_ERROR {
        dumpInProgress := false;
        if ErrorCode(buf, f) != 0 {
          if cfg.dumpInterval == 0 {
            stopRequested := true;
          }
        }
        return;
      }
      var a := ParseDiagMsg(buf, f, cfg);
      if a.Some? {
        actions := [a.value];
      }
    }

    /** recv_diag_msg over the received buffer (numbytes is what recvfrom
        returned, -1 on error): entries before the first NLMSG_DONE are
        parsed in order; NLMSG_DONE and NLMSG_ERROR clear dump_in_progress;
        NLMSG_DONE, and an NLMSG_ERROR with a nonzero code, ask the loop to
        stop when no dump interval is set; nothing after NLMSG_DONE is read. */
    method RecvDiagMsg(buf: seq<byte>, numbytes: int) returns (actions: seq<Action>)
      requires numbytes <= |buf|
      requires var fs := Frames(buf, 0, numbytes); EntriesHaveInfo(buf, fs[..DoneIndex(fs)])
      modifies this
      ensures var fs := Frames(buf, 0, numbytes); var pre := fs[..DoneIndex(fs)];
        && actions == Actions(buf, pre, cfg)
        && dumpInProgress == (if DoneIndex(fs) < |fs| || HasError(pre) then false else old(dumpInProgress))
        && stopRequested == (old(stopRequested) ||
                             (cfg.dumpInterval == 0 && (DoneIndex(fs) < |fs| || HasFailure(buf, pre))))
    {
      ghost var fs := Frames(buf, 0, numbytes);
      ghost var seen: seq<Frame> := [];
      var off, rem := 0, numbytes;
      actions := [];
      while NlmsgOk(buf, off, rem)
        invariant fs == seen + Frames(buf, off, rem)
        invariant NoDone(seen)
        invariant EntriesHaveInfo(buf, seen)
        invariant actions == Actions(buf, seen, cfg)
        invariant dumpInProgress == (if HasError(seen) then false else old(dumpInProgress))
        invariant stopRequested == (old(stopRequested) || (cfg.dumpInterval == 0 && HasFailure(buf, seen)))
        decreases if rem < 0 then 0 else rem
      {
        var hdr := ReadHdr(buf, off);
        var f := Frame(off, hdr);
        var nextOff, nextRem := off + Align4(hdr.len), rem - Align4(hdr.len);
        FramesAppend(seen, buf, off, rem, f, nextOff, nextRem);
        ghost var rest := Frames(buf, off, rem);
        if hdr.typ == NLMSG_DONE {
          DoneAfter(seen, rest);
          dumpInProgress := false;
          if cfg.dumpInterval == 0 {
            stopRequested := true;
          }
          break;
        }
        DumpStep(buf, fs, seen, rest, cfg);
        var more := HandleDumpMsg(buf, f);
        actions := actions + more;
        seen := seen + [f];
        off, rem := nextOff, nextRem;
      }
      if !NlmsgOk(buf, off, rem) {
        DoneAfter(seen, []);
      }
    }
  }

  /** An NLMSG_DONE header whose nlmsg_len is 0x80000000: the C walk visits
      it (so recv_diag_msg clears dump_in_progress), while the walk of the
      model, Frames, ends before it and RecvDiagMsg changes nothing. */
  lemma HugeDoneSeenOnlyInC()
    ensures var buf := EncodeHdr(NlMsgHdr(0x8000_0000, NLMSG_DONE, 0, 0, 0));
      Frames(buf, 0, |buf|) == [] && |FramesC(buf, 0, |buf|, 1)| == 1
      && FramesC(buf, 0, |buf|, 1)[0].hdr.typ == NLMSG_DONE
  {
    var h := NlMsgHdr(0x8000_0000, NLMSG_DONE, 0, 0, 0);
    var buf := EncodeHdr(h);
    ReadEncodeHdr([], h, []);
    assert [] + buf + [] == buf;
    HugeLengthStep(buf, 0, |buf|);
  }

  /*** recv_destroy_msg ***/

  /** What recv_destroy_msg reports: a message of an unexpected type
      (skipped), or the error that ends the walk. */
  datatype Report = Unexpected(typ: u16) | Failed(code: int)

  /** The reports for the messages fs, from the first on. */
  function DestroyReports(buf: seq<byte>, fs: seq<Frame>): seq<Report>
  {
    if fs == [] then []
    else
      var f := fs[0];
      if f.hdr.typ == NLMSG_DONE then []
      else if f.hdr.typ != NLMSG_ERROR then [Unexpected(f.hdr.typ)] + DestroyReports(buf, fs[1..])
      else if ErrorCode(buf, f) != 0 then [Failed(ErrorCode(buf, f))]
      else DestroyReports(buf, fs[1..])
  }

  /** recv_destroy_msg: skips and reports unexpected types, continues over
      acknowledgements, and stops at NLMSG_DONE or at the first failure.
      It changes nothing in the context. */
  method RecvDestroyMsg(buf: seq<byte>, numbytes: int) returns (reports: seq<Report>)
    requires numbytes <= |buf|
    ensures reports == DestroyReports(buf, Frames(buf, 0, numbytes))
  {
    var off, rem := 0, numbytes;
    reports := [];
    while NlmsgOk(buf, off, rem)
      invariant reports + DestroyReports(buf, Frames(buf, off, rem)) == DestroyReports(buf, Frames(buf, 0, numbytes))
      decreases if rem < 0 then 0 else rem
    {
      var hdr := ReadHdr(buf, off);
      var f := Frame(off, hdr);
      var nextOff, nextRem := off + Align4(hdr.len), rem - Align4(hdr.len);
      FramesAppend([], buf, off, rem, f, nextOff, nextRem);
      if hdr.typ == NLMSG_DONE {
        break;
      } else if hdr.typ != NLMSG_ERROR {
        reports := reports + [Unexpected(hdr.typ)];
        off, rem := nextOff, nextRem;
        continue;
      }
      if ErrorCode(buf, f) != 0 {
        reports := reports + [Failed(ErrorCode(buf, f))];
        break;
      }
      off, rem := nextOff, nextRem;
    }
  }

  /** At most one failure is reported, and only as the last report; every
      other report is an unexpected type, and there is one per message
      examined at most. */
  lemma {:induction false} DestroyReportsShape(buf: seq<byte>, fs: seq<Frame>)
    ensures var r := DestroyReports(buf, fs);
      && |r| <= |fs|
      && forall j :: 0 <= j < |r| - 1 ==> r[j].Unexpected?
  {
    if fs != [] {
      DestroyReportsShape(buf, fs[1..]);
    }
  }

  /** A buffer of acknowledgements only (error code 0) reports nothing. */
  lemma {:induction false} AcksReportNothing(buf: seq<byte>, fs: seq<Frame>)
    requires forall j :: 0 <= j < |fs| ==> fs[j].hdr.typ == NLMSG_ERROR && ErrorCode(buf, fs[j]) == 0
    ensures DestroyReports(buf, fs) == []
  {
    if fs != [] {
      AcksReportNothing(buf, fs[1..]);
    }
  }
}

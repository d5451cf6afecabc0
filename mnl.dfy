/** The netlink framing rules the program relies on through libmnl: a
    16-byte message header, 4-byte attribute headers, 4-byte alignment
    (section 2.3.2 of RFC 3549), and the ok/next walking helpers. */
module Mnl {
  import opened Bytes

  /** sizeof(struct nlmsghdr) and sizeof(struct nlattr). */
  const NLMSG_HDRLEN: nat := 16
  const NLA_HDRLEN: nat := 4

  /** struct nlmsghdr, in host (little-endian) order. */
  datatype NlMsgHdr = NlMsgHdr(len: u32, typ: u16, flags: u16, seqNo: u32, pid: u32)

  function EncodeHdr(h: NlMsgHdr): (r: seq<byte>)
    ensures |r| == NLMSG_HDRLEN
  {
    Le32(h.len) + Le16(h.typ) + Le16(h.flags) + Le32(h.seqNo) + Le32(h.pid)
  }

  /** The header at byte offset off of a buffer. */
  function ReadHdr(buf: seq<byte>, off: int): NlMsgHdr
  {
    NlMsgHdr(Le32At(buf, off), Le16At(buf, off + 4), Le16At(buf, off + 6),
             Le32At(buf, off + 8), Le32At(buf, off + 12))
  }

  lemma SliceOf(a: seq<byte>, m: seq<byte>, b: seq<byte>, i: nat, j: nat)
    requires i <= j <= |m|
    ensures (a + m + b)[|a| + i..|a| + j] == m[i..j]
  {
    assert forall t :: |a| + i <= t < |a| + j ==> (a + m + b)[t] == m[t - |a|];
  }

  /** A header written anywhere in a buffer is read back unchanged. */
  lemma ReadEncodeHdr(a: seq<byte>, h: NlMsgHdr, b: seq<byte>)
    ensures ReadHdr(a + EncodeHdr(h) + b, |a|) == h
  {
    var m := EncodeHdr(h);
    var s := a + m + b;
    SliceOf(a, m, b, 0, 4);
    SliceOf(a, m, b, 4, 6);
    SliceOf(a, m, b, 6, 8);
    SliceOf(a, m, b, 8, 12);
    SliceOf(a, m, b, 12, 16);
    Le32Read(s, |a|, h.len);
    Le16Read(s, |a| + 4, h.typ);
    Le16Read(s, |a| + 6, h.flags);
    Le32Read(s, |a| + 8, h.seqNo);
    Le32Read(s, |a| + 12, h.pid);
  }

  /** mnl_nlmsg_ok: a whole header fits in the rem bytes left, and the
      message's own length covers its header and fits too.  The length is
      compared as an unbounded number; NlmsgOkC below keeps libmnl's cast
      to int, and the two differ only for lengths of 2^31 or more. */
  predicate NlmsgOk(buf: seq<byte>, off: int, rem: int)
  {
    rem >= NLMSG_HDRLEN && NLMSG_HDRLEN <= ReadHdr(buf, off).len <= rem
  }

  /** A message as the walk meets it: its offset and its header. */
  datatype Frame = Frame(off: int, hdr: NlMsgHdr)

  /** The messages the loop `while (mnl_nlmsg_ok(nlh, numbytes))` visits when
      every iteration ends with mnl_nlmsg_next, which moves the cursor and
      lowers the remaining count by the aligned message length. */
  function Frames(buf: seq<byte>, off: int, rem: int): (r: seq<Frame>)
    decreases if rem < 0 then 0 else rem
  {
    if !NlmsgOk(buf, off, rem) then []
    else
      var h := ReadHdr(buf, off);
      [Frame(off, h)] + Frames(buf, off + Align4(h.len), rem - Align4(h.len))
  }

  /** One step of the walk: the message f at off, then the walk from the
      next one; also with the messages visited before it in front. */
  lemma FramesAppend(seen: seq<Frame>, buf: seq<byte>, off: int, rem: int, f: Frame, nextOff: int, nextRem: int)
    requires NlmsgOk(buf, off, rem) && f == Frame(off, ReadHdr(buf, off))
    requires nextOff == off + Align4(f.hdr.len) && nextRem == rem - Align4(f.hdr.len)
    ensures Frames(buf, off, rem) == [f] + Frames(buf, nextOff, nextRem)
    ensures seen + Frames(buf, off, rem) == (seen + [f]) + Frames(buf, nextOff, nextRem)
  {
  }

  /** Every message the walk visits lies within the rem bytes it started
      with, and each begins where the aligned previous one ends. */
  lemma {:induction false} FramesWithin(buf: seq<byte>, off: int, rem: int)
    ensures forall k :: 0 <= k < |Frames(buf, off, rem)| ==>
      var f := Frames(buf, off, rem)[k];
      off <= f.off && f.off + f.hdr.len <= off + rem && f.hdr == ReadHdr(buf, f.off)
    ensures forall k :: 0 <= k < |Frames(buf, off, rem)| - 1 ==>
      Frames(buf, off, rem)[k + 1].off == Frames(buf, off, rem)[k].off + Align4(Frames(buf, off, rem)[k].hdr.len)
    ensures |Frames(buf, off, rem)| > 0 ==> Frames(buf, off, rem)[0].off == off
    decreases if rem < 0 then 0 else rem
  {
    if NlmsgOk(buf, off, rem) {
      var h := ReadHdr(buf, off);
      var nx, nr := off + Align4(h.len), rem - Align4(h.len);
      Align4Bounds(h.len);
      FramesWithin(buf, nx, nr);
      var r, rest := Frames(buf, off, rem), Frames(buf, nx, nr);
      FramesAppend([], buf, off, rem, Frame(off, h), nx, nr);
      assert forall k :: 1 <= k < |r| ==> r[k] == rest[k - 1];
    }
  }

  /** mnl_nlmsg_ok as libmnl writes it: nlmsg_len is cast to int before it
      is compared with the signed count, so a length of 2^31 or more reads
      as negative and passes the test. */
  predicate NlmsgOkC(buf: seq<byte>, off: int, rem: int)
  {
    var len := ReadHdr(buf, off).len;
    rem >= NLMSG_HDRLEN && len >= NLMSG_HDRLEN && ToInt32(len) <= rem
  }

  /** For an int count, the cast test passes exactly when the unbounded one
      does or the length has its top bit set. */
  lemma NlmsgOkCast(buf: seq<byte>, off: int, rem: int)
    requires rem < 0x8000_0000
    ensures NlmsgOkC(buf, off, rem) <==>
      NlmsgOk(buf, off, rem) || (rem >= NLMSG_HDRLEN && ReadHdr(buf, off).len >= 0x8000_0000)
  {
  }

  /** mnl_nlmsg_next as C computes it: MNL_ALIGN in unsigned 32-bit
      arithmetic moves the cursor, and is subtracted from the int count
      with wrap-around. */
  function NextC(off: int, rem: int, len: u32): (r: (int, int))
    ensures off <= r.0 < off + 0x1_0000_0000
    ensures -0x8000_0000 <= r.1 < 0x8000_0000 && (rem - r.1) % 0x1_0000_0000 == r.0 - off
  {
    var adv := Align4(len) % 0x1_0000_0000;
    (off + adv, ToInt32((rem - adv) % 0x1_0000_0000))
  }

  /** For a message that passes the unbounded test, the C step is the one
      Frames takes. */
  lemma NextCAgrees(off: int, rem: int, len: u32)
    requires NLMSG_HDRLEN <= len <= rem < 0x8000_0000
    ensures NextC(off, rem, len) == (off + Align4(len), rem - Align4(len))
  {
    Align4Bounds(len);
  }

  /** A length of 2^31 or more passes the C test but moves the cursor either
      2 GiB or more past the message, beyond any count, or, when MNL_ALIGN
      wraps to 0 (lengths 0xFFFFFFFD and up), not at all, with the count
      unchanged: the walk then repeats that message forever. */
  lemma HugeLengthStep(buf: seq<byte>, off: int, rem: int)
    requires NLMSG_HDRLEN <= rem < 0x8000_0000 && ReadHdr(buf, off).len >= 0x8000_0000
    ensures NlmsgOkC(buf, off, rem) && !NlmsgOk(buf, off, rem)
    ensures var n := NextC(off, rem, ReadHdr(buf, off).len);
      n.0 >= off + 0x8000_0000 || n == (off, rem)
    ensures NextC(off, rem, ReadHdr(buf, off).len) == (off, rem) <==> ReadHdr(buf, off).len >= 0xFFFF_FFFD
  {
    var len := ReadHdr(buf, off).len;
    Align4Bounds(len);
    if len >= 0xFFFF_FFFD {
      assert Align4(len) == 0x1_0000_0000;
    } else {
      assert Align4(len) < 0x1_0000_0000;
    }
  }

  /** The walk as the C loop performs it, for at most fuel messages (with a
      wrapped MNL_ALIGN it never ends). */
  function FramesC(buf: seq<byte>, off: int, rem: int, fuel: nat): (r: seq<Frame>)
    ensures |r| <= fuel
    decreases fuel
  {
    if fuel == 0 || !NlmsgOkC(buf, off, rem) then []
    else
      var h := ReadHdr(buf, off);
      var n := NextC(off, rem, h.len);
      [Frame(off, h)] + FramesC(buf, n.0, n.1, fuel - 1)
  }

  /** The C walk visits the messages of Frames first, in order; if it visits
      one more, that message's length has its top bit set (it passed only
      through the cast, and lies beyond the bytes received). */
  lemma {:induction false} FramesCExtends(buf: seq<byte>, off: int, rem: int, fuel: nat)
    requires -0x8000_0000 <= rem < 0x8000_0000 && |Frames(buf, off, rem)| <= fuel
    ensures var fs, cs := Frames(buf, off, rem), FramesC(buf, off, rem, fuel);
      |fs| <= |cs| && cs[..|fs|] == fs
    ensures var fs, cs := Frames(buf, off, rem), FramesC(buf, off, rem, fuel);
      |cs| > |fs| ==> cs[|fs|].hdr.len >= 0x8000_0000
    decreases fuel
  {
    var h := ReadHdr(buf, off);
    NlmsgOkCast(buf, off, rem);
    if NlmsgOk(buf, off, rem) {
      NextCAgrees(off, rem, h.len);
      Align4Bounds(h.len);
      var nx, nr := off + Align4(h.len), rem - Align4(h.len);
      FramesCExtends(buf, nx, nr, fuel - 1);
      var fs, cs := Frames(buf, off, rem), FramesC(buf, off, rem, fuel);
      var fs', cs' := Frames(buf, nx, nr), FramesC(buf, nx, nr, fuel - 1);
      assert fs == [Frame(off, h)] + fs' && cs == [Frame(off, h)] + cs';
      assert cs[..|fs|] == [Frame(off, h)] + cs'[..|fs'|];
    }
  }

  /** struct nlattr at byte offset off. */
  datatype NlAttr = NlAttr(off: int, len: u16, typ: u16)

  function ReadAttr(buf: seq<byte>, off: int): NlAttr
  {
    NlAttr(off, Le16At(buf, off), Le16At(buf, off + 2))
  }

  /** mnl_attr_ok: an attribute header fits in the rem bytes left, and the
      attribute's own length covers its header and fits too. */
  predicate AttrOk(buf: seq<byte>, off: int, rem: int)
  {
    rem >= NLA_HDRLEN && NLA_HDRLEN <= Le16At(buf, off) <= rem
  }

  /** mnl_attr_next: the next attribute starts after the aligned length. */
  function AttrNext(buf: seq<byte>, off: int): (r: int)
    ensures off + Le16At(buf, off) <= r < off + Le16At(buf, off) + 4
  {
    Align4Bounds(Le16At(buf, off));
    off + Align4(Le16At(buf, off))
  }

  /** mnl_attr_put: the 16-bit nla_len (header plus payload, truncated to
      16 bits), the type, the payload and zero padding to 4 bytes. */
  function EncodeAttr(typ: u16, payload: seq<byte>): (r: seq<byte>)
    ensures |r| == NLA_HDRLEN + Align4(|payload|)
  {
    Align4Bounds(|payload|);
    Le16((NLA_HDRLEN + |payload|) % 0x1_0000) + Le16(typ) + payload + Zeros(Align4(|payload|) - |payload|)
  }

  /** An attribute written anywhere is read back: its header, and its
      payload when the length did not wrap. */
  lemma ReadEncodeAttr(a: seq<byte>, typ: u16, payload: seq<byte>, b: seq<byte>)
    ensures ReadAttr(a + EncodeAttr(typ, payload) + b, |a|)
         == NlAttr(|a|, (NLA_HDRLEN + |payload|) % 0x1_0000, typ)
    ensures NLA_HDRLEN + |payload| < 0x1_0000 ==>
      AttrPayload(a + EncodeAttr(typ, payload) + b, ReadAttr(a + EncodeAttr(typ, payload) + b, |a|)) == payload
  {
    var m := EncodeAttr(typ, payload);
    var l, t := Le16((NLA_HDRLEN + |payload|) % 0x1_0000), Le16(typ);
    assert m == l + t + payload + Zeros(Align4(|payload|) - |payload|);
    assert m[0..2] == l && m[2..4] == t && m[4..4 + |payload|] == payload;
    AttrHeaderAt(a, m, b, (NLA_HDRLEN + |payload|) % 0x1_0000, typ);
    if NLA_HDRLEN + |payload| < 0x1_0000 {
      assert (NLA_HDRLEN + |payload|) % 0x1_0000 == NLA_HDRLEN + |payload|;
      PayloadAt(a, m, b, payload);
    }
  }

  lemma AttrHeaderAt(a: seq<byte>, m: seq<byte>, b: seq<byte>, len: u16, typ: u16)
    requires 4 <= |m| && m[0..2] == Le16(len) && m[2..4] == Le16(typ)
    ensures ReadAttr(a + m + b, |a|) == NlAttr(|a|, len, typ)
  {
    SliceOf(a, m, b, 0, 2);
    SliceOf(a, m, b, 2, 4);
    Le16Read(a + m + b, |a|, len);
    Le16Read(a + m + b, |a| + 2, typ);
  }

  lemma PayloadAt(a: seq<byte>, m: seq<byte>, b: seq<byte>, payload: seq<byte>)
    requires NLA_HDRLEN + |payload| <= |m| && m[NLA_HDRLEN..NLA_HDRLEN + |payload|] == payload
    ensures Slice(a + m + b, |a| + NLA_HDRLEN, |payload|) == payload
  {
    var s := a + m + b;
    forall i | 0 <= i < |payload|
      ensures s[|a| + NLA_HDRLEN + i] == payload[i]
    {
      assert s[|a| + NLA_HDRLEN + i] == m[NLA_HDRLEN + i];
      assert payload[i] == m[NLA_HDRLEN..NLA_HDRLEN + |payload|][i];
    }
  }

  /** The bytes of an attribute's payload (mnl_attr_get_payload). */
  function AttrPayload(buf: seq<byte>, a: NlAttr): (r: seq<byte>)
    requires a.len >= NLA_HDRLEN
    ensures |r| == a.len - NLA_HDRLEN
  {
    Slice(buf, a.off + NLA_HDRLEN, a.len - NLA_HDRLEN)
  }
}

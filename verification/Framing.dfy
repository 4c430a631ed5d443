/**
 Messages on a connection: a byte stream on which every system call may move fewer bytes
 than asked, the loops that make up for it, and the frames that `send_msg` writes and
 `recv_msg` takes apart.
 */
module Framing {
  import opened Bytes
  import opened Stripes
  import opened Wire

  /** The bytes in flight from one end of a connection to the other. */
  class Stream {
    var data: seq<byte>

    constructor (data: seq<byte>)
      ensures this.data == data
    {
      this.data := data;
    }

    /** `write`: some bytes from the front of `buf`, or none and at most 0. */
    method Write(buf: seq<byte>) returns (n: int)
      modifies this
      ensures -1 <= n <= |buf|
      ensures data == old(data) + if n > 0 then buf[..n] else []
    {
      n :| -1 <= n <= |buf|;
      data := data + if n > 0 then buf[..n] else [];
    }

    /** `read`: some bytes, none only at the end of the stream, or -1. */
    method Read(max: nat) returns (n: int, bytes: seq<byte>)
      requires max > 0
      modifies this
      ensures n == -1 || (0 <= n <= max && (n == 0 <==> old(data) == []))
      ensures |bytes| == if n > 0 then n else 0
      ensures bytes + data == old(data)
    {
      n :| -1 <= n <= max && n <= |data| && (n == 0 ==> data == []);
      bytes := if n > 0 then data[..n] else [];
      data := data[|bytes|..];
    }
  }

  // ---------------------------------------------------------------- partial transfers

  /** `sock_send`: everything, unless a call fails. */
  method SockSend(stream: Stream, buf: seq<byte>) returns (sent: int, failed: bool)
    modifies stream
    ensures 0 <= sent <= |buf| && stream.data == old(stream.data) + buf[..sent]
    ensures sent < |buf| <==> failed
  {
    sent, failed := 0, false;
    var remain := |buf|;
    while remain > 0
      invariant 0 <= sent <= |buf| && sent + remain == |buf| && !failed
      invariant stream.data == old(stream.data) + buf[..sent]
    {
      var n := stream.Write(buf[sent..]);
      if n <= 0 {
        failed := true;
        break;
      }
      assert buf[..sent] + buf[sent..][..n] == buf[..sent + n];
      remain := remain - n;
      sent := sent + n;
    }
  }

  /** `sock_recv`: the next `size` bytes, or all there are, unless a call fails. */
  method SockRecv(stream: Stream, size: nat) returns (got: seq<byte>, failed: bool)
    modifies stream
    ensures |got| <= size && got + stream.data == old(stream.data)
    ensures failed ==> |got| < size
    ensures !failed && |got| < size ==> stream.data == []
  {
    got, failed := [], false;
    var remain := size;
    while remain > 0
      invariant 0 <= remain && |got| + remain == size && !failed
      invariant got + stream.data == old(stream.data)
    {
      var n, bytes := stream.Read(remain);
      if n <= 0 {
        failed := n < 0;
        break;
      }
      assert (got + bytes) + stream.data == got + (bytes + stream.data);
      got := got + bytes;
      remain := remain - n;
    }
  }

  // ---------------------------------------------------------------- frames

  /** The payload is there exactly when the header announces one. */
  predicate PayloadFits(m: Msg, payload: seq<byte>) {
    |payload| == m.hd.buflen <= INT_MAX
  }

  datatype Packet = Packet(m: Msg, payload: seq<byte>)

  predicate Sendable(p: Packet) { Initialised(p.m) && PayloadFits(p.m, p.payload) }

  /** The bytes a sender of byte order `e` puts on the wire for one message. */
  function Frame(e: Endian, p: Packet): (bs: seq<byte>)
    requires Sendable(p)
    ensures |bs| == p.m.hd.msglen + |p.payload|
  {
    HeaderImage(e, Serialized(e, p.m).hd) + BodyImage(e, Serialized(e, p.m).body) + p.payload
  }

  /**
   The bytes of a frame, outright: the header and the fields of a data message most
   significant byte first, of a command only the first two fields; its name and owner as
   they are, its offset and length in the sender's order; and then the payload.
   */
  predicate WireBytes(e: Endian, p: Packet, f: seq<byte>) {
    && |f| >= 32
    && f[0..4] == Store(Big, p.m.hd.msglen)
    && f[4..8] == Store(Big, p.m.hd.msgtype)
    && f[8..12] == Store(Big, p.m.hd.op)
    && f[12..16] == Store(Big, p.m.hd.err)
    && f[16..20] == Store(Big, p.m.hd.buflen)
    && match p.m.body
       case Command(sfilefd, filesize, filename, fileowner, offset, reqlen) =>
         && |f| >= 436
         && f[20..24] == Store(Big, sfilefd) && f[24..28] == Store(Big, filesize)
         && f[28..328] == filename && f[328..428] == fileowner
         && f[428..432] == Store(e, offset) && f[432..436] == Store(e, reqlen)
         && f[436..] == p.payload
       case Data(sfilefd, offset, reqlen) =>
         && f[20..24] == Store(Big, sfilefd) && f[24..28] == Store(Big, offset)
         && f[28..32] == Store(Big, reqlen)
         && f[32..] == p.payload
  }

  lemma FrameBytes(e: Endian, p: Packet)
    requires Sendable(p)
    ensures WireBytes(e, p, Frame(e, p))
  {
    var m := Serialized(e, p.m);
    var head, body := HeaderImage(e, m.hd), BodyImage(e, m.body);
    HeaderBytes(e, p.m.hd, head);
    if p.m.body.Command? {
      CommandBytes(e, p.m.body, body);
    } else {
      DataBytes(e, p.m.body, body);
    }
    FrameSlices(head, body, p.payload);
  }

  /** Every stretch of the header or the body is a stretch of the frame. */
  lemma FrameSlices(head: seq<byte>, body: seq<byte>, payload: seq<byte>)
    requires |head| == HEADER_SIZE
    ensures var f := head + body + payload;
            && (forall i, j | 0 <= i <= j <= HEADER_SIZE :: f[i..j] == head[i..j])
            && (forall i, j | HEADER_SIZE <= i <= j <= HEADER_SIZE + |body| ::
                  f[i..j] == body[i - HEADER_SIZE..j - HEADER_SIZE])
            && f[HEADER_SIZE + |body|..] == payload
  {
  }

  lemma HeaderBytes(e: Endian, hd: Header, head: seq<byte>)
    requires head == HeaderImage(e, SwapHeader(x => Htonl(e, x), hd))
    ensures head[0..4] == Store(Big, hd.msglen) && head[4..8] == Store(Big, hd.msgtype)
    ensures head[8..12] == Store(Big, hd.op) && head[12..16] == Store(Big, hd.err)
    ensures head[16..20] == Store(Big, hd.buflen)
  {
    var ws := HeaderWords(SwapHeader(x => Htonl(e, x), hd));
    WordBytes(e, ws, 0, hd.msglen);
    WordBytes(e, ws, 1, hd.msgtype);
    WordBytes(e, ws, 2, hd.op);
    WordBytes(e, ws, 3, hd.err);
    WordBytes(e, ws, 4, hd.buflen);
  }

  lemma WordBytes(e: Endian, ws: seq<uint32>, i: nat, x: uint32)
    requires i < |ws| && ws[i] == Htonl(e, x)
    ensures StoreAll(e, ws)[4 * i..4 * i + 4] == Store(Big, x)
  {
    BytesAt(e, ws, i);
    HtonlIsBigEndian(e, x);
  }

  lemma DataBytes(e: Endian, b: Body, image: seq<byte>)
    requires b.Data? && image == BodyImage(e, SwapBody(x => Htonl(e, x), b))
    ensures image[0..4] == Store(Big, b.sfilefd) && image[4..8] == Store(Big, b.offset)
    ensures image[8..12] == Store(Big, b.reqlen)
  {
    var ws := [Htonl(e, b.sfilefd), Htonl(e, b.offset), Htonl(e, b.reqlen)];
    WordBytes(e, ws, 0, b.sfilefd);
    WordBytes(e, ws, 1, b.offset);
    WordBytes(e, ws, 2, b.reqlen);
  }

  lemma CommandBytes(e: Endian, b: Body, image: seq<byte>)
    requires b.Command? && BodyFits(b) && image == BodyImage(e, SwapBody(x => Htonl(e, x), b))
    ensures image[0..4] == Store(Big, b.sfilefd) && image[4..8] == Store(Big, b.filesize)
    ensures image[8..308] == b.filename && image[308..408] == b.fileowner
    ensures image[408..412] == Store(e, b.offset) && image[412..416] == Store(e, b.reqlen)
  {
    var front, back := [Htonl(e, b.sfilefd), Htonl(e, b.filesize)], [b.offset, b.reqlen];
    WordBytes(e, front, 0, b.sfilefd);
    WordBytes(e, front, 1, b.filesize);
    BytesAt(e, back, 0);
    BytesAt(e, back, 1);
    CommandParts(StoreAll(e, front), b.filename, b.fileowner, StoreAll(e, back));
    assert image[0..4] == image[..8][0..4] && image[4..8] == image[..8][4..8];
    assert image[408..412] == image[408..][0..4] && image[412..416] == image[408..][4..8];
  }

  /** A type that is accepted beside a length that is negative as an `int`: no byte is sent. */
  predicate NothingToSend(m: Msg) { m.hd.msgtype == TypeOf(m.body) && ToInt(m.hd.msglen) < 0 }

  /**
   `send_msg`, for a freshly initialised message and for one that an earlier call has left
   swapped.  -1 means that the type is out of range or that the frame was cut short.
   */
  method SendMsg(e: Endian, stream: Stream, msg: MsgBuf, buf: seq<byte>) returns (ret: int)
    requires ToInt(msg.hd.msgtype) < MSGTYPE_MAX ==> Sendable(Packet(msg.Value(), buf)) || NothingToSend(msg.Value())
    modifies stream, msg
    ensures ToInt(old(msg.hd.msgtype)) >= MSGTYPE_MAX ==>
              ret == -1 && stream.data == old(stream.data) && msg.Value() == old(msg.Value())
    ensures ToInt(old(msg.hd.msgtype)) < MSGTYPE_MAX ==>
              && msg.Value() == Serialized(e, old(msg.Value()))
              && if NothingToSend(old(msg.Value())) then ret == -1 && stream.data == old(stream.data)
                 else SentPart(old(stream.data), stream.data, Frame(e, Packet(old(msg.Value()), buf)), ret)
  {
    var msgtype, msgsize, bufsize := ToInt(msg.hd.msgtype), ToInt(msg.hd.msglen), ToInt(msg.hd.buflen);
    if msgtype >= MSGTYPE_MAX {
      return -1;
    }
    ghost var m := msg.Value();
    msg.SerializeMsg(e);
    if msgsize < 0 {
      return -1;
    }
    var image := HeaderImage(e, msg.hd) + BodyImage(e, msg.body);
    assert Frame(e, Packet(m, buf)) == image + buf;
    ret := SendParts(stream, image, buf, bufsize);
  }

  /**
   What is left of a message after it has been sent.  On a big-endian host it is the message
   itself.  On a little-endian host a data message has a type that is refused, and a command
   a length that is negative; but sending that once more swaps it back.
   */
  lemma LeftBehind(e: Endian, m: Msg)
    requires Initialised(m)
    ensures e.Big? ==> Serialized(e, m) == m
    ensures e.Little? && m.body.Data? ==> ToInt(Serialized(e, m).hd.msgtype) >= MSGTYPE_MAX
    ensures e.Little? && m.body.Command? ==> NothingToSend(Serialized(e, m))
    ensures e.Little? && m.body.Command? ==>
              Serialized(e, m).hd.msgtype == 0 && Serialized(e, m).hd.msglen >= 0x8000_0000
    ensures Serialized(e, Serialized(e, m)) == m
  {
    SerializedTwice(e, m);
    if e.Big? {
      SerializedBig(m);
    } else {
      SwappedFields(e, m);
      if m.body.Data? {
        LittleHtonl(m.hd.msgtype, 0, 1);
      } else {
        LittleHtonl(m.hd.msgtype, 0, 0);
        LittleHtonl(m.hd.msglen, 1, 180);
      }
    }
  }

  lemma SwappedFields(e: Endian, m: Msg)
    ensures Serialized(e, m).hd.msgtype == Htonl(e, m.hd.msgtype)
    ensures Serialized(e, m).hd.msglen == Htonl(e, m.hd.msglen)
    ensures Serialized(e, m).body.Command? <==> m.body.Command?
  {
  }

  /** Sending the same struct again: it works between calls only on a big-endian host. */
  method SendAgain(e: Endian, stream: Stream, msg: MsgBuf, buf: seq<byte>, ghost m: Msg) returns (ret: int)
    requires Sendable(Packet(m, buf)) && msg.Value() == Serialized(e, m)
    modifies stream, msg
    ensures e.Little? ==> ret == -1 && stream.data == old(stream.data)
    ensures e.Big? ==> SentPart(old(stream.data), stream.data, Frame(e, Packet(m, buf)), ret)
    ensures m.body.Command? ==> msg.Value() == m
  {
    LeftBehind(e, m);
    ret := SendMsg(e, stream, msg, buf);
  }

  /** The two stages of sending: the message, then its payload if there is one. */
  method SendParts(stream: Stream, image: seq<byte>, buf: seq<byte>, bufsize: int) returns (ret: int)
    requires |buf| == if bufsize > 0 then bufsize else 0
    modifies stream
    ensures SentPart(old(stream.data), stream.data, image + buf, ret)
  {
    ghost var was, frame := stream.data, image + buf;
    var sent, failed := SockSend(stream, image);
    if failed {
      assert frame[..sent] == image[..sent];
      return -1;
    }
    assert stream.data == was + image;
    if bufsize > 0 {
      sent, failed := SockSend(stream, buf);
      assert frame[..|image| + sent] == image + buf[..sent];
      assert stream.data == was + frame[..|image| + sent];
      if failed {
        return -1;
      }
      assert frame[..|image| + sent] == frame;
    } else {
      assert frame == image;
    }
    return 0;
  }

  /** The stream grew by all of `frame`, or by a proper prefix if the result is -1. */
  ghost predicate SentPart(was: seq<byte>, now: seq<byte>, frame: seq<byte>, ret: int) {
    (ret == 0 && now == was + frame) || (ret == -1 && exists n: nat :: n < |frame| && now == was + frame[..n])
  }

  datatype Outcome = Message(p: Packet) | Nothing | Undefined

  /** The memory for the message can hold the header that is copied into it. */
  predicate HoldsHeader(hd: Header) { ToInt(hd.msglen) >= HEADER_SIZE }

  predicate BadType(hd: Header) { ToInt(hd.msgtype) >= MSGTYPE_MAX }

  /** The type is known and the memory for the message can hold the struct of that type. */
  predicate HoldsStruct(hd: Header) {
    hd.msgtype in {MSG_COMMAND, MSG_DATA} && ToInt(hd.msglen) >= HEADER_SIZE + BodySize(hd.msgtype)
  }

  function BodySize(msgtype: uint32): nat {
    if msgtype == MSG_COMMAND then COMMAND_SIZE - HEADER_SIZE else DATA_SIZE - HEADER_SIZE
  }

  function HeaderOf(e: Endian, head: seq<byte>): Header
    requires |head| == HEADER_SIZE
  {
    SwapHeader(x => Ntohl(e, x), ReadHeader(e, head))
  }

  /** The body in the front of what follows the header. */
  function BodyOf(e: Endian, hd: Header, body: seq<byte>): Body
    requires HoldsStruct(hd) && |body| == hd.msglen - HEADER_SIZE
  {
    SwapBody(x => Ntohl(e, x), ReadBody(e, hd.msgtype, body[..BodySize(hd.msgtype)]))
  }

  function PayloadSize(hd: Header): nat { if ToInt(hd.buflen) > 0 then ToInt(hd.buflen) else 0 }

  /** What a message that has arrived completely is worth. */
  function Judge(e: Endian, hd: Header, body: seq<byte>, payload: seq<byte>): Outcome
    requires HoldsHeader(hd) && |body| == hd.msglen - HEADER_SIZE
  {
    if BadType(hd) then Nothing
    else if !HoldsStruct(hd) then Undefined
    else Message(Packet(Msg(hd, BodyOf(e, hd, body)), payload))
  }

  /**
   What one call of `recv_msg` makes of the stream, and what it leaves.  `Undefined` stands
   for a message that is smaller than the header or the struct of its type, which the code
   accesses all the same, or whose type is negative as an `int`, which it does not convert.
   */
  function Decode(e: Endian, s: seq<byte>): (r: (Outcome, seq<byte>))
    ensures r.0.Message? ==> |r.1| + HEADER_SIZE <= |s|
  {
    if |s| < HEADER_SIZE then (Nothing, [])
    else
      var hd := HeaderOf(e, s[..HEADER_SIZE]);
      if !HoldsHeader(hd) then (Undefined, s[HEADER_SIZE..])
      else
        var n, all := hd.msglen, hd.msglen + PayloadSize(hd);
        if |s| < all then (Nothing, [])
        else (Judge(e, hd, s[HEADER_SIZE..n], s[n..all]), s[all..])
  }

  /** The number in four bytes, the most significant one first or last. */
  function WordIn(e: Endian, s: seq<byte>, i: nat): uint32
    requires i + 4 <= |s|
  {
    if e.Big? then Number(s[i], s[i + 1], s[i + 2], s[i + 3]) else Number(s[i + 3], s[i + 2], s[i + 1], s[i])
  }

  function HeaderIn(s: seq<byte>): Header
    requires |s| >= 20
  {
    Header(WordIn(Big, s, 0), WordIn(Big, s, 4), WordIn(Big, s, 8), WordIn(Big, s, 12), WordIn(Big, s, 16))
  }

  /** The body of a message of type `msgtype` in the stream `s`. */
  function BodyIn(e: Endian, s: seq<byte>, msgtype: int): Body
    requires |s| >= if msgtype == 0 then 436 else 32
  {
    if msgtype == 0 then
      Command(WordIn(Big, s, 20), WordIn(Big, s, 24), s[28..328], s[328..428], WordIn(e, s, 428), WordIn(e, s, 432))
    else Data(WordIn(Big, s, 20), WordIn(Big, s, 24), WordIn(Big, s, 28))
  }

  /** What receiving makes of a stream `s` that begins with the header `hd`. */
  predicate ReceivedBehind(e: Endian, s: seq<byte>, hd: Header, r: Outcome, rest: seq<byte>)
    requires |s| >= 20
  {
    var len, msgtype, buf := ToInt(hd.msglen), ToInt(hd.msgtype), ToInt(hd.buflen);
    var all := if buf > 0 then len + buf else len;
    if len < 20 then r == Undefined && rest == s[20..]
    else if |s| < all then r == Nothing && rest == []
    else
      && rest == s[all..]
      && if msgtype >= 2 then r == Nothing
         else if (msgtype == 0 && len >= 436) || (msgtype == 1 && len >= 32) then
           r == Message(Packet(Msg(hd, BodyIn(e, s, msgtype)), s[len..all]))
         else r == Undefined
  }

  /** What receiving on a host of order `e` makes of any stream `s`, outright, byte by byte. */
  predicate ReceivedAs(e: Endian, s: seq<byte>, r: Outcome, rest: seq<byte>) {
    if |s| < 20 then r == Nothing && rest == [] else ReceivedBehind(e, s, HeaderIn(s), r, rest)
  }

  lemma LoadIs(e: Endian, s: seq<byte>, i: nat)
    requires i + 4 <= |s|
    ensures Load(e, s[i..i + 4]) == WordIn(e, s, i)
  {
  }

  /** A converted field is the number in its bytes, the most significant one first. */
  lemma FieldIs(e: Endian, bs: seq<byte>, i: nat)
    requires |bs| % 4 == 0 && 4 * i < |bs|
    ensures LoadAll(e, bs)[i] == WordIn(e, bs, 4 * i) && Ntohl(e, LoadAll(e, bs)[i]) == WordIn(Big, bs, 4 * i)
  {
    WordAt(e, bs, i);
    LoadIs(e, bs, 4 * i);
    LoadIs(Big, bs, 4 * i);
    NtohlOfBytes(e, bs[4 * i..4 * i + 4]);
  }

  lemma HeaderFields(e: Endian, s: seq<byte>)
    requires |s| >= HEADER_SIZE
    ensures HeaderOf(e, s[..HEADER_SIZE]) == HeaderIn(s)
  {
    var head := s[..HEADER_SIZE];
    FieldIs(e, head, 0);
    FieldIs(e, head, 1);
    FieldIs(e, head, 2);
    FieldIs(e, head, 3);
    FieldIs(e, head, 4);
  }

  lemma DataFields(e: Endian, hd: Header, body: seq<byte>)
    requires HoldsStruct(hd) && hd.msgtype == MSG_DATA && |body| == hd.msglen - HEADER_SIZE
    ensures BodyOf(e, hd, body) == Data(WordIn(Big, body, 0), WordIn(Big, body, 4), WordIn(Big, body, 8))
  {
    var bs := body[..12];
    FieldIs(e, bs, 0);
    FieldIs(e, bs, 1);
    FieldIs(e, bs, 2);
  }

  lemma CommandFields(e: Endian, hd: Header, body: seq<byte>)
    requires HoldsStruct(hd) && hd.msgtype == MSG_COMMAND && |body| == hd.msglen - HEADER_SIZE
    ensures BodyOf(e, hd, body) ==
            Command(WordIn(Big, body, 0), WordIn(Big, body, 4), body[8..308], body[308..408],
                    WordIn(e, body, 408), WordIn(e, body, 412))
  {
    var bs := body[..416];
    FieldIs(e, bs[..8], 0);
    FieldIs(e, bs[..8], 1);
    FieldIs(e, bs[408..], 0);
    FieldIs(e, bs[408..], 1);
  }

  lemma WordInPart(e: Endian, s: seq<byte>, i: nat, j: nat, k: nat)
    requires i + k + 4 <= j <= |s|
    ensures WordIn(e, s[i..j], k) == WordIn(e, s, i + k)
  {
  }

  lemma DataIs(e: Endian, s: seq<byte>, hd: Header, n: nat)
    requires HoldsStruct(hd) && hd.msgtype == MSG_DATA && hd.msglen == n <= |s|
    ensures BodyOf(e, hd, s[HEADER_SIZE..n]) == BodyIn(e, s, 1)
  {
    DataFields(e, hd, s[HEADER_SIZE..n]);
    WordInPart(Big, s, HEADER_SIZE, n, 0);
    WordInPart(Big, s, HEADER_SIZE, n, 4);
    WordInPart(Big, s, HEADER_SIZE, n, 8);
  }

  lemma CommandIs(e: Endian, s: seq<byte>, hd: Header, n: nat)
    requires HoldsStruct(hd) && hd.msgtype == MSG_COMMAND && hd.msglen == n <= |s|
    ensures BodyOf(e, hd, s[HEADER_SIZE..n]) == BodyIn(e, s, 0)
  {
    CommandFields(e, hd, s[HEADER_SIZE..n]);
    WordInPart(Big, s, HEADER_SIZE, n, 0);
    WordInPart(Big, s, HEADER_SIZE, n, 4);
    WordInPart(e, s, HEADER_SIZE, n, 408);
    WordInPart(e, s, HEADER_SIZE, n, 412);
    SliceOfSlice(s, HEADER_SIZE, n, 8, 308);
    SliceOfSlice(s, HEADER_SIZE, n, 308, 408);
  }

  lemma SliceOfSlice(s: seq<byte>, i: nat, j: nat, k: nat, l: nat)
    requires k <= l && i + l <= j <= |s|
    ensures s[i..j][k..l] == s[i + k..i + l]
  {
    var part := s[i..j][k..l];
    assert |part| == l - k;
    forall x | 0 <= x < |part| ensures part[x] == s[i + k..i + l][x] {
      assert part[x] == s[i..j][k + x] == s[i + k + x];
    }
  }

  /** The body in `s` if it has the known type `hd.msgtype`. */
  lemma BodyIs(e: Endian, s: seq<byte>, hd: Header, n: nat)
    requires HoldsStruct(hd) && hd.msglen == n <= |s|
    ensures BodyOf(e, hd, s[HEADER_SIZE..n]) == BodyIn(e, s, hd.msgtype)
  {
    if hd.msgtype == MSG_DATA {
      DataIs(e, s, hd, n);
    } else {
      CommandIs(e, s, hd, n);
    }
  }

  lemma JudgeExactly(e: Endian, s: seq<byte>, hd: Header, payload: seq<byte>)
    requires HoldsHeader(hd) && hd.msglen <= |s|
    ensures var msgtype, len := ToInt(hd.msgtype), ToInt(hd.msglen);
            Judge(e, hd, s[HEADER_SIZE..hd.msglen], payload) ==
            if msgtype >= 2 then Nothing
            else if (msgtype == 0 && len >= 436) || (msgtype == 1 && len >= 32) then
              Message(Packet(Msg(hd, BodyIn(e, s, msgtype)), payload))
            else Undefined
  {
    if HoldsStruct(hd) {
      BodyIs(e, s, hd, hd.msglen);
    }
  }

  lemma DecodeBehind(e: Endian, s: seq<byte>, hd: Header)
    requires |s| >= HEADER_SIZE && hd == HeaderOf(e, s[..HEADER_SIZE])
    ensures ReceivedBehind(e, s, hd, Decode(e, s).0, Decode(e, s).1)
  {
    if HoldsHeader(hd) && |s| >= hd.msglen + PayloadSize(hd) {
      JudgeExactly(e, s, hd, s[hd.msglen..hd.msglen + PayloadSize(hd)]);
    }
  }

  /** The outcome for every stream, malformed ones included. */
  lemma DecodeExactly(e: Endian, s: seq<byte>)
    ensures ReceivedAs(e, s, Decode(e, s).0, Decode(e, s).1)
  {
    if |s| >= HEADER_SIZE {
      HeaderFields(e, s);
      DecodeBehind(e, s, HeaderIn(s));
    }
  }

  lemma DecodeWhole(e: Endian, head: seq<byte>, body: seq<byte>, payload: seq<byte>, rest: seq<byte>)
    requires |head| == HEADER_SIZE && HoldsHeader(HeaderOf(e, head))
    requires |body| == HeaderOf(e, head).msglen - HEADER_SIZE && |payload| == PayloadSize(HeaderOf(e, head))
    ensures Decode(e, head + body + payload + rest) == (Judge(e, HeaderOf(e, head), body, payload), rest)
  {
    Cut(head, body, payload, rest);
  }

  /** Cutting a concatenation where its parts meet. */
  lemma Cut(a: seq<byte>, b: seq<byte>, c: seq<byte>, d: seq<byte>)
    ensures var s, m, n := a + b + c + d, |a| + |b|, |a| + |b| + |c|;
            s[..|a|] == a && s[|a|..m] == b && s[m..n] == c && s[n..] == d
  {
  }

  lemma DecodeShort(e: Endian, head: seq<byte>, tail: seq<byte>)
    requires |head| == HEADER_SIZE && HoldsHeader(HeaderOf(e, head))
    requires |tail| < HeaderOf(e, head).msglen - HEADER_SIZE + PayloadSize(HeaderOf(e, head))
    ensures Decode(e, head + tail) == (Nothing, [])
  {
    assert (head + tail)[..HEADER_SIZE] == head;
  }

  lemma DecodeBadSize(e: Endian, head: seq<byte>, rest: seq<byte>)
    requires |head| == HEADER_SIZE && !HoldsHeader(HeaderOf(e, head))
    ensures Decode(e, head + rest) == (Undefined, rest)
  {
    assert (head + rest)[..HEADER_SIZE] == head;
    assert (head + rest)[HEADER_SIZE..] == rest;
  }

  /** The two reads of `recv_msg` behind the header: the rest of the struct, then the payload. */
  method RecvParts(stream: Stream, bodysize: nat, bufsize: int)
    returns (body: seq<byte>, payload: seq<byte>, whole: bool, failed: bool)
    modifies stream
    ensures failed ==> !whole
    ensures !failed && !whole ==>
              |old(stream.data)| < bodysize + (if bufsize > 0 then bufsize else 0) && stream.data == []
    ensures whole ==> |body| == bodysize && |payload| == (if bufsize > 0 then bufsize else 0)
    ensures whole ==> old(stream.data) == body + payload + stream.data
  {
    payload := [];
    body, failed := SockRecv(stream, bodysize);
    if |body| != bodysize {
      return body, payload, false, failed;
    }
    if bufsize > 0 {
      payload, failed := SockRecv(stream, bufsize);
      if |payload| != bufsize {
        return body, payload, false, failed;
      }
    }
    whole := true;
    assert body + (payload + stream.data) == body + payload + stream.data;
  }

  /** The end of `recv_msg`: the type is checked and the body converted in place. */
  method Accept(e: Endian, msg: MsgBuf, body: seq<byte>, payload: seq<byte>) returns (r: Outcome)
    requires HoldsHeader(msg.hd) && |body| == msg.hd.msglen - HEADER_SIZE
    modifies msg
    ensures r == Judge(e, old(msg.hd), body, payload)
  {
    if ToInt(msg.hd.msgtype) >= MSGTYPE_MAX {
      return Nothing;
    }
    if !HoldsStruct(msg.hd) {
      return Undefined;
    }
    msg.body := ReadBody(e, msg.hd.msgtype, body[..BodySize(msg.hd.msgtype)]);
    msg.DeserializeBody(e, msg.hd.msgtype);
    r := Message(Packet(msg.Value(), payload));
  }

  /** `recv_msg`: however the stream is cut into short reads, the result is `Decode`. */
  method RecvMsg(e: Endian, stream: Stream) returns (r: Outcome, failed: bool)
    modifies stream
    ensures !failed ==> (r, stream.data) == Decode(e, old(stream.data))
    ensures !failed ==> ReceivedAs(e, old(stream.data), r, stream.data)
    ensures failed ==> r == Nothing
  {
    DecodeExactly(e, stream.data);
    var head;
    head, failed := SockRecv(stream, HEADER_SIZE);
    if |head| != HEADER_SIZE {
      return Nothing, failed;
    }
    var msg := new MsgBuf(Msg(ReadHeader(e, head), Data(0, 0, 0)));
    msg.DeserializeHeader(e);
    assert msg.hd == HeaderOf(e, head);
    if ToInt(msg.hd.msglen) < HEADER_SIZE {
      DecodeBadSize(e, head, stream.data);
      return Undefined, failed;
    }
    ghost var behind := stream.data;
    var body, payload, whole;
    body, payload, whole, failed := RecvParts(stream, ToInt(msg.hd.msglen) - HEADER_SIZE, ToInt(msg.hd.buflen));
    if !whole {
      if !failed { DecodeShort(e, head, behind); }
      return Nothing, failed;
    }
    Regroup(head, body, payload, stream.data);
    DecodeWhole(e, head, body, payload, stream.data);
    r := Accept(e, msg, body, payload);
  }

  lemma Regroup(a: seq<byte>, b: seq<byte>, c: seq<byte>, d: seq<byte>)
    ensures a + (b + c + d) == a + b + c + d
  {
  }

  // ---------------------------------------------------------------- whole conversations

  /** What the receiver gets of a packet, and a list of packets, sent by a host of order `a`. */
  function Arrived(a: Endian, b: Endian, p: Packet): Packet { p.(m := Received(a, b, p.m)) }

  function AllArrived(a: Endian, b: Endian, ps: seq<Packet>): (r: seq<Packet>)
    ensures |r| == |ps| && forall i | 0 <= i < |ps| :: r[i] == Arrived(a, b, ps[i])
  {
    seq(|ps|, i requires 0 <= i < |ps| => Arrived(a, b, ps[i]))
  }

  /** What one receiving call makes of a stream, and what it leaves. */
  type Decoder = seq<byte> -> (Outcome, seq<byte>)

  /** A message takes bytes off the stream, and an empty stream holds none. */
  ghost predicate Shrinks(dec: Decoder) {
    && dec([]).1 == []
    && forall s :: dec(s).0.Message? ==> |dec(s).1| < |s|
  }

  /** Receiving until there is no message: the messages, and the stream behind them. */
  ghost function DecodeAll(dec: Decoder, s: seq<byte>): (seq<Packet>, seq<byte>)
    requires Shrinks(dec)
    decreases |s|
  {
    var (r, rest) := dec(s);
    if r.Message? then var (ps, end) := DecodeAll(dec, rest); ([r.p] + ps, end)
    else ([], rest)
  }

  /** `recv_msg` on a host of byte order `e`. */
  function Receiver(e: Endian): (dec: Decoder)
    ensures forall s :: dec(s) == Decode(e, s)
    ensures Shrinks(dec)
  {
    s => Decode(e, s)
  }

  /** The header of a frame, as any receiver reads it, is the header that was sent. */
  lemma FrameHead(a: Endian, b: Endian, p: Packet)
    requires Sendable(p)
    ensures HeaderOf(b, HeaderImage(a, Serialized(a, p.m).hd)) == p.m.hd
    ensures HoldsHeader(p.m.hd) && HoldsStruct(p.m.hd) && PayloadSize(p.m.hd) == |p.payload|
  {
    HeaderRoundTrip(a, b, p.m.hd);
  }

  lemma SentHeader(m: Msg)
    requires Initialised(m)
    ensures HoldsHeader(m.hd) && HoldsStruct(m.hd) && !BadType(m.hd)
    ensures m.hd.msglen - HEADER_SIZE == BodySize(m.hd.msgtype)
  {
  }

  /** The body and payload of a frame are accepted as the packet that was sent. */
  lemma FrameJudged(a: Endian, b: Endian, p: Packet)
    requires Sendable(p) && HoldsHeader(p.m.hd)
    ensures var body := BodyImage(a, Serialized(a, p.m).body);
            |body| == p.m.hd.msglen - HEADER_SIZE && Judge(b, p.m.hd, body, p.payload) == Message(Arrived(a, b, p))
  {
    SentHeader(p.m);
    BodyArrives(a, b, p.m);
    assert Received(a, b, p.m).hd == p.m.hd;
  }

  lemma BodyArrives(a: Endian, b: Endian, m: Msg)
    requires Initialised(m) && HoldsStruct(m.hd) && m.hd.msglen - HEADER_SIZE == BodySize(m.hd.msgtype)
    ensures BodyFits(Serialized(a, m).body)
    ensures BodyOf(b, m.hd, BodyImage(a, Serialized(a, m).body)) == Received(a, b, m).body
  {
    var body := BodyImage(a, Serialized(a, m).body);
    assert body[..BodySize(m.hd.msgtype)] == body;
    BodyRoundTrip(a, b, m);
  }

  /** One frame in front of anything decodes to its packet and leaves what is behind it. */
  lemma DecodeFrame(a: Endian, b: Endian, p: Packet, rest: seq<byte>)
    requires Sendable(p)
    ensures Decode(b, Frame(a, p) + rest) == (Message(Arrived(a, b, p)), rest)
  {
    var head, body := HeaderImage(a, Serialized(a, p.m).hd), BodyImage(a, Serialized(a, p.m).body);
    FrameHead(a, b, p);
    FrameJudged(a, b, p);
    assert Frame(a, p) == head + body + p.payload;
    DecodeWhole(b, head, body, p.payload, rest);
  }

  lemma CutBytes(f: seq<byte>, g: seq<byte>, n: nat)
    requires n <= |f| + |g|
    ensures n <= |f| ==> (f + g)[..n] == f[..n]
    ensures n >= |f| ==> (f + g)[..n] == f + g[..n - |f|]
  {
  }

  /** A frame cut short is no message. */
  lemma DecodeCutFrame(a: Endian, b: Endian, p: Packet, n: nat)
    requires Sendable(p) && n < |Frame(a, p)|
    ensures Decode(b, Frame(a, p)[..n]) == (Nothing, [])
  {
    var head := HeaderImage(a, Serialized(a, p.m).hd);
    var body := BodyImage(a, Serialized(a, p.m).body);
    FrameHead(a, b, p);
    CutFrame(b, head, body, p.payload, n);
  }

  lemma CutFrame(b: Endian, head: seq<byte>, body: seq<byte>, payload: seq<byte>, n: nat)
    requires |head| == HEADER_SIZE && HoldsHeader(HeaderOf(b, head))
    requires |body| == HeaderOf(b, head).msglen - HEADER_SIZE && |payload| == PayloadSize(HeaderOf(b, head))
    requires n < |head + body + payload|
    ensures Decode(b, (head + body + payload)[..n]) == (Nothing, [])
  {
    var s := (head + body + payload)[..n];
    if n >= HEADER_SIZE {
      assert s[..HEADER_SIZE] == head;
    }
  }

  // A list of frames, by what a decoder makes of each of them.

  /** `f` is a frame of `q`: it decodes to `q` in front of anything, and to nothing if cut short. */
  ghost predicate IsFrameOf(dec: Decoder, f: seq<byte>, q: Packet) {
    && (forall rest :: dec(f + rest) == (Message(q), rest))
    && (forall n: nat | n < |f| :: dec(f[..n]) == (Nothing, []))
  }

  ghost predicate AreFramesOf(dec: Decoder, fs: seq<seq<byte>>, qs: seq<Packet>) {
    |fs| == |qs| && forall i | 0 <= i < |fs| :: IsFrameOf(dec, fs[i], qs[i])
  }

  function Join(fs: seq<seq<byte>>): seq<byte> {
    if fs == [] then [] else fs[0] + Join(fs[1..])
  }

  /** The number of frames that lie completely in the first `n` bytes. */
  function WholeFrames(fs: seq<seq<byte>>, n: nat): (k: nat)
    ensures k <= |fs|
    decreases |fs|
  {
    if fs == [] || n < |fs[0]| then 0 else 1 + WholeFrames(fs[1..], n - |fs[0]|)
  }

  /** They fit into the `n` bytes, and the next one does not. */
  lemma {:induction false} WholeFramesFit(fs: seq<seq<byte>>, n: nat)
    ensures var k := WholeFrames(fs, n);
            && |Join(fs[..k])| <= n
            && (k < |fs| ==> n < |Join(fs[..k])| + |fs[k]|)
    decreases |fs|
  {
    var k := WholeFrames(fs, n);
    if k == 0 {
    } else {
      WholeFramesFit(fs[1..], n - |fs[0]|);
      assert fs[..k][0] == fs[0] && fs[..k][1..] == fs[1..][..k - 1];
    }
  }

  lemma {:induction false} DecodeJoin(dec: Decoder, fs: seq<seq<byte>>, qs: seq<Packet>)
    requires Shrinks(dec) && AreFramesOf(dec, fs, qs)
    ensures DecodeAll(dec, Join(fs)) == (qs, [])
    decreases |fs|
  {
    if fs == [] {
    } else {
      assert IsFrameOf(dec, fs[0], qs[0]);
      DecodeJoin(dec, fs[1..], qs[1..]);
      assert qs == [qs[0]] + qs[1..];
    }
  }

  lemma DecodeCutFirst(dec: Decoder, f: seq<byte>, q: Packet, g: seq<byte>, n: nat)
    requires Shrinks(dec) && IsFrameOf(dec, f, q) && n <= |f| + |g|
    ensures n < |f| ==> DecodeAll(dec, (f + g)[..n]) == ([], [])
    ensures n >= |f| ==> var (ps, end) := DecodeAll(dec, g[..n - |f|]);
                         DecodeAll(dec, (f + g)[..n]) == ([q] + ps, end)
  {
    CutBytes(f, g, n);
    if n < |f| {
      assert dec(f[..n]) == (Nothing, []);
    } else {
      assert dec(f + g[..n - |f|]) == (Message(q), g[..n - |f|]);
    }
  }

  lemma FramesRest(dec: Decoder, fs: seq<seq<byte>>, qs: seq<Packet>)
    requires Shrinks(dec) && AreFramesOf(dec, fs, qs) && fs != []
    ensures IsFrameOf(dec, fs[0], qs[0]) && AreFramesOf(dec, fs[1..], qs[1..])
  {
  }

  lemma TakeOneMore<T>(qs: seq<T>, k: nat)
    requires k < |qs|
    ensures qs[..k + 1] == [qs[0]] + qs[1..][..k]
  {
  }

  lemma {:induction false} DecodeCutJoin(dec: Decoder, fs: seq<seq<byte>>, qs: seq<Packet>, n: nat)
    requires Shrinks(dec) && AreFramesOf(dec, fs, qs) && n <= |Join(fs)|
    ensures DecodeAll(dec, Join(fs)[..n]) == (qs[..WholeFrames(fs, n)], [])
    decreases |fs|
  {
    if fs == [] {
      assert Join(fs)[..n] == [];
    } else {
      FramesRest(dec, fs, qs);
      DecodeCutFirst(dec, fs[0], qs[0], Join(fs[1..]), n);
      if n >= |fs[0]| {
        DecodeCutJoin(dec, fs[1..], qs[1..], n - |fs[0]|);
        TakeOneMore(qs, WholeFrames(fs[1..], n - |fs[0]|));
      }
    }
  }

  predicate AllSendable(ps: seq<Packet>) { forall p | p in ps :: Sendable(p) }

  /** The frames that a sender of byte order `e` puts on the wire for `ps`. */
  function FramesOf(e: Endian, ps: seq<Packet>): (fs: seq<seq<byte>>)
    requires AllSendable(ps)
    ensures |fs| == |ps| && forall i | 0 <= i < |ps| :: fs[i] == Frame(e, ps[i])
  {
    seq(|ps|, i requires 0 <= i < |ps| => Frame(e, ps[i]))
  }

  lemma FramesAreFrames(a: Endian, b: Endian, ps: seq<Packet>)
    requires AllSendable(ps)
    ensures AreFramesOf(Receiver(b), FramesOf(a, ps), AllArrived(a, b, ps))
  {
    forall i | 0 <= i < |ps| ensures IsFrameOf(Receiver(b), FramesOf(a, ps)[i], AllArrived(a, b, ps)[i]) {
      FrameIsFrame(a, b, ps[i]);
    }
  }

  lemma FrameIsFrame(a: Endian, b: Endian, p: Packet)
    requires Sendable(p)
    ensures IsFrameOf(Receiver(b), Frame(a, p), Arrived(a, b, p))
  {
    forall rest: seq<byte> ensures Receiver(b)(Frame(a, p) + rest) == (Message(Arrived(a, b, p)), rest) {
      DecodeFrame(a, b, p, rest);
    }
    forall n: nat | n < |Frame(a, p)| ensures Receiver(b)(Frame(a, p)[..n]) == (Nothing, []) {
      DecodeCutFrame(a, b, p, n);
    }
  }

  /**
   The framing round trip: for every list of messages, decoding the concatenation of their
   frames gives back those messages and payloads in order and consumes the stream exactly.
   */
  lemma ConversationRoundTrip(a: Endian, b: Endian, ps: seq<Packet>)
    requires AllSendable(ps)
    ensures DecodeAll(Receiver(b), Join(FramesOf(a, ps))) == (AllArrived(a, b, ps), [])
  {
    FramesAreFrames(a, b, ps);
    DecodeJoin(Receiver(b), FramesOf(a, ps), AllArrived(a, b, ps));
  }

  /**
   A stream cut off after any `n` bytes yields exactly the messages whose frames are
   complete, never an extra one, and nothing is left of it.
   */
  lemma CutConversation(a: Endian, b: Endian, ps: seq<Packet>, n: nat)
    requires AllSendable(ps) && n <= |Join(FramesOf(a, ps))|
    ensures DecodeAll(Receiver(b), Join(FramesOf(a, ps))[..n]) ==
            (AllArrived(a, b, ps)[..WholeFrames(FramesOf(a, ps), n)], [])
  {
    FramesAreFrames(a, b, ps);
    DecodeCutJoin(Receiver(b), FramesOf(a, ps), AllArrived(a, b, ps), n);
  }

  lemma {:induction false} JoinFront(fs: seq<seq<byte>>, i: nat)
    requires i < |fs|
    ensures Join(fs[..i + 1]) == Join(fs[..i]) + fs[i]
    decreases |fs|
  {
    if i > 0 {
      JoinFront(fs[1..], i - 1);
      assert fs[..i + 1][0] == fs[0] && fs[..i + 1][1..] == fs[1..][..i];
      assert fs[..i][0] == fs[0] && fs[..i][1..] == fs[1..][..i - 1];
    } else {
      assert fs[..1] == [fs[0]] && fs[..1][1..] == [] && fs[..0] == [];
    }
  }

  /** Initialising and sending one message. */
  method SendPacket(e: Endian, stream: Stream, p: Packet) returns (ret: int)
    requires Sendable(p)
    modifies stream
    ensures SentPart(old(stream.data), stream.data, Frame(e, p), ret)
  {
    var msg := new MsgBuf(p.m);
    ret := SendMsg(e, stream, msg, p.payload);
  }

  /** `stream` holds `was` and the first `i` frames, or a front of the frames if sending failed. */
  ghost predicate SoFar(was: seq<byte>, now: seq<byte>, fs: seq<seq<byte>>, i: nat, ret: int)
    requires i <= |fs|
  {
    if ret == 0 then now == was + Join(fs[..i]) else SentPart(was, now, Join(fs), ret)
  }

  lemma SentNext(was: seq<byte>, before: seq<byte>, now: seq<byte>, fs: seq<seq<byte>>, i: nat, ret: int)
    requires i < |fs| && SoFar(was, before, fs, i, 0) && SentPart(before, now, fs[i], ret)
    ensures SoFar(was, now, fs, i + 1, ret)
  {
    JoinFront(fs, i);
    CutJoin(fs, i);
    SentFront(was, now, Join(fs[..i]), fs[i], Join(fs[i + 1..]), ret);
  }

  /** Sending one message after the other, giving up at the first failure. */
  method SendAll(e: Endian, stream: Stream, ps: seq<Packet>) returns (ret: int)
    requires AllSendable(ps)
    modifies stream
    ensures SentPart(old(stream.data), stream.data, Join(FramesOf(e, ps)), ret)
  {
    ghost var was, fs := stream.data, FramesOf(e, ps);
    var i := 0;
    ret := 0;
    while i < |ps| && ret == 0
      invariant i <= |ps| && SoFar(was, stream.data, fs, i, ret)
      decreases |ps| - i, ret == 0
    {
      ghost var before := stream.data;
      ret := SendPacket(e, stream, ps[i]);
      SentNext(was, before, stream.data, fs, i, ret);
      i := i + 1;
    }
    SentEnd(was, stream.data, fs, i, ret);
  }

  lemma SentEnd(was: seq<byte>, now: seq<byte>, fs: seq<seq<byte>>, i: nat, ret: int)
    requires i <= |fs| && SoFar(was, now, fs, i, ret) && (i == |fs| || ret != 0)
    ensures SentPart(was, now, Join(fs), ret)
  {
    assert fs[..|fs|] == fs;
  }

  lemma SentFront(was: seq<byte>, now: seq<byte>, a: seq<byte>, f: seq<byte>, c: seq<byte>, ret: int)
    requires SentPart(was + a, now, f, ret)
    ensures ret == 0 ==> now == was + (a + f)
    ensures ret != 0 ==> SentPart(was, now, a + f + c, ret)
  {
    if ret == 0 {
      assert was + a + f == was + (a + f);
    } else {
      var n: nat :| n < |f| && now == was + a + f[..n];
      assert (a + f + c)[..|a| + n] == a + f[..n];
      assert now == was + (a + f + c)[..|a| + n];
    }
  }

  lemma {:induction false} CutJoin(fs: seq<seq<byte>>, i: nat)
    requires i < |fs|
    ensures Join(fs) == Join(fs[..i]) + fs[i] + Join(fs[i + 1..])
    decreases |fs|
  {
    if i > 0 {
      CutJoin(fs[1..], i - 1);
      assert fs[..i][0] == fs[0] && fs[..i][1..] == fs[1..][..i - 1];
      assert fs[1..][i - 1] == fs[i] && fs[1..][i..] == fs[i + 1..];
      Regroup(fs[0], Join(fs[1..][..i - 1]), fs[i], Join(fs[i + 1..]));
    } else {
      assert fs[..0] == [] && fs[0 + 1..] == fs[1..];
    }
  }

  /** The receiver's loop: whatever the fragmentation, it gets what `DecodeAll` gets. */
  method RecvAll(e: Endian, stream: Stream) returns (ps: seq<Packet>, failed: bool)
    modifies stream
    ensures !failed ==> (ps, stream.data) == DecodeAll(Receiver(e), old(stream.data))
    ensures ps <= DecodeAll(Receiver(e), old(stream.data)).0
    decreases |stream.data|
  {
    var r;
    r, failed := RecvMsg(e, stream);
    if !r.Message? {
      return [], failed;
    }
    var rest;
    rest, failed := RecvAll(e, stream);
    ps := [r.p] + rest;
  }
}

/**
 The bytes of a message: 32-bit fields in host or network byte order, the in-place
 swapping of a message before it is sent and after it is received, and its frame.
 */
module Wire {
  import opened Bytes
  import opened Stripes

  // ---------------------------------------------------------------- byte order

  datatype Endian = Big | Little

  /** The four bytes of `x` as a host of byte order `e` keeps them in memory. */
  function Store(e: Endian, x: uint32): (bs: seq<byte>)
    ensures |bs| == 4
  {
    var d, abc := x % 256, x / 256;
    var c, ab := abc % 256, abc / 256;
    var b, a := ab % 256, ab / 256;
    if e.Big? then [a, b, c, d] else [d, c, b, a]
  }

  /** The number whose base-256 digits are `a`, `b`, `c`, `d`, the most significant first. */
  function Join(a: int, b: int, c: int, d: int): int { ((a * 256 + b) * 256 + c) * 256 + d }

  function Load(e: Endian, bs: seq<byte>): uint32
    requires |bs| == 4
  {
    if e.Big? then Join(bs[0], bs[1], bs[2], bs[3]) else Join(bs[3], bs[2], bs[1], bs[0])
  }

  /** `htonl` and `ntohl` on a host of byte order `e`. */
  function Htonl(e: Endian, x: uint32): uint32 { Load(e, Store(Big, x)) }

  function Ntohl(e: Endian, x: uint32): uint32 { Load(Big, Store(e, x)) }

  lemma LoadStore(e: Endian, x: uint32)
    ensures Load(e, Store(e, x)) == x
  {
    assert x == x / 256 * 256 + x % 256;
    assert x / 256 == x / 256 / 256 * 256 + x / 256 % 256;
    assert x / 256 / 256 == x / 256 / 256 / 256 * 256 + x / 256 / 256 % 256;
  }

  lemma Digit(y: int, d: int)
    requires 0 <= d < 256
    ensures (y * 256 + d) / 256 == y && (y * 256 + d) % 256 == d
  {
  }

  lemma StoreLoad(e: Endian, bs: seq<byte>)
    requires |bs| == 4
    ensures Store(e, Load(e, bs)) == bs
  {
    var a: int, b: int, c: int, d: int := bs[0], bs[1], bs[2], bs[3];
    if e.Little? { a, b, c, d := bs[3], bs[2], bs[1], bs[0]; }
    Digit((a * 256 + b) * 256 + c, d);
    Digit(a * 256 + b, c);
    Digit(a, b);
  }

  function Number(a: int, b: int, c: int, d: int): int { a * 0x100_0000 + b * 0x1_0000 + c * 0x100 + d }

  /** The bytes in memory are the digits of the number, from the front or from the back. */
  lemma StoreDigits(x: uint32)
    ensures var b := Store(Big, x); x == Number(b[0], b[1], b[2], b[3])
    ensures forall k | 0 <= k < 4 :: Store(Little, x)[k] == Store(Big, x)[3 - k]
  {
    LoadStore(Big, x);
  }

  /** What the receiver makes of four bytes that arrive most significant first. */
  lemma NtohlOfBytes(e: Endian, bs: seq<byte>)
    requires |bs| == 4
    ensures Ntohl(e, Load(e, bs)) == Load(Big, bs)
  {
    StoreLoad(e, bs);
  }

  /** After `htonl` the memory of any host holds the most significant byte first. */
  lemma HtonlIsBigEndian(e: Endian, x: uint32)
    ensures Store(e, Htonl(e, x)) == Store(Big, x)
  {
    StoreLoad(e, Store(Big, x));
  }

  /** On one host the two conversions are the same function, so either undoes the other. */
  lemma HtonlIsNtohl(e: Endian, x: uint32)
    ensures Htonl(e, x) == Ntohl(e, x)
    ensures Ntohl(e, Htonl(e, x)) == x
  {
    HtonlIsBigEndian(e, x);
    LoadStore(Big, x);
  }

  /** The value a host of order `b` finds in memory written by a host of order `a`. */
  function Reinterpret(a: Endian, b: Endian, x: uint32): uint32 { Load(b, Store(a, x)) }

  function Swapped(x: uint32): uint32 { Reinterpret(Big, Little, x) }

  /** A field sent without conversion arrives unchanged iff the hosts agree or it reads the same backwards. */
  lemma ReinterpretExactly(a: Endian, b: Endian, x: uint32)
    ensures Reinterpret(a, b, x) == x <==> a == b || Swapped(x) == x
  {
    LoadStore(a, x);
  }

  /** A field converted on both sides arrives unchanged between any two hosts. */
  lemma ConvertedField(a: Endian, b: Endian, x: uint32)
    ensures Ntohl(b, Reinterpret(a, b, Htonl(a, x))) == x
  {
    HtonlIsBigEndian(a, x);
    StoreLoad(b, Store(Big, x));
    LoadStore(Big, x);
  }

  // ---------------------------------------------------------------- words

  function StoreAll(e: Endian, xs: seq<uint32>): (bs: seq<byte>)
    ensures |bs| == 4 * |xs|
  {
    if xs == [] then [] else Store(e, xs[0]) + StoreAll(e, xs[1..])
  }

  function LoadAll(e: Endian, bs: seq<byte>): (xs: seq<uint32>)
    requires |bs| % 4 == 0
    ensures |bs| == 4 * |xs|
    decreases |bs|
  {
    if bs == [] then [] else [Load(e, bs[..4])] + LoadAll(e, bs[4..])
  }

  lemma {:induction false} WordsAcross(a: Endian, b: Endian, xs: seq<uint32>)
    ensures |LoadAll(b, StoreAll(a, xs))| == |xs|
    ensures forall i | 0 <= i < |xs| :: LoadAll(b, StoreAll(a, xs))[i] == Reinterpret(a, b, xs[i])
    decreases |xs|
  {
    if xs == [] {
    } else {
      var bs := StoreAll(a, xs);
      assert bs[..4] == Store(a, xs[0]) && bs[4..] == StoreAll(a, xs[1..]);
      WordsAcross(a, b, xs[1..]);
      assert forall i | 0 < i < |xs| :: xs[i] == xs[1..][i-1];
    }
  }

  lemma {:induction false} WordAt(e: Endian, bs: seq<byte>, i: nat)
    requires |bs| % 4 == 0 && 4 * i < |bs|
    ensures LoadAll(e, bs)[i] == Load(e, bs[4 * i..4 * i + 4])
    decreases i
  {
    if i == 0 {
    } else {
      WordAt(e, bs[4..], i - 1);
      assert bs[4..][4 * (i - 1)..4 * (i - 1) + 4] == bs[4 * i..4 * i + 4];
    }
  }

  lemma {:induction false} BytesAt(e: Endian, xs: seq<uint32>, i: nat)
    requires i < |xs|
    ensures StoreAll(e, xs)[4 * i..4 * i + 4] == Store(e, xs[i])
    decreases i
  {
    if i == 0 {
    } else {
      BytesAt(e, xs[1..], i - 1);
      var rest := StoreAll(e, xs[1..]);
      assert StoreAll(e, xs)[4 * i..4 * i + 4] == rest[4 * (i - 1)..4 * (i - 1) + 4];
    }
  }

  // ---------------------------------------------------------------- messages

  const MSG_COMMAND := 0
  const MSG_DATA := 1
  const MSGTYPE_MAX := 2
  const FILENAME_LEN_MAX := 300
  const OWNERNAME_LEN_MAX := 100
  const HEADER_SIZE := 20
  const COMMAND_SIZE := 436
  const DATA_SIZE := 32

  datatype Header = Header(msglen: uint32, msgtype: uint32, op: uint32, err: uint32, buflen: uint32)

  datatype Body =
    | Command(sfilefd: uint32, filesize: uint32, filename: seq<byte>, fileowner: seq<byte>,
              offset: uint32, reqlen: uint32)
    | Data(sfilefd: uint32, offset: uint32, reqlen: uint32)

  datatype Msg = Msg(hd: Header, body: Body)

  predicate BodyFits(b: Body) {
    b.Command? ==> |b.filename| == FILENAME_LEN_MAX && |b.fileowner| == OWNERNAME_LEN_MAX
  }

  function StructSize(b: Body): nat { if b.Command? then COMMAND_SIZE else DATA_SIZE }

  function TypeOf(b: Body): uint32 { if b.Command? then MSG_COMMAND else MSG_DATA }

  /** A message as `init_send_msg` prepares it and its sender fills it in. */
  predicate Initialised(m: Msg) {
    BodyFits(m.body) && m.hd.msglen == StructSize(m.body) && m.hd.msgtype == TypeOf(m.body)
  }

  function HeaderWords(hd: Header): (ws: seq<uint32>) { [hd.msglen, hd.msgtype, hd.op, hd.err, hd.buflen] }

  function HeaderFrom(ws: seq<uint32>): Header
    requires |ws| == 5
  {
    Header(ws[0], ws[1], ws[2], ws[3], ws[4])
  }

  /** The memory of a message on a host of byte order `e`. */
  function BodyImage(e: Endian, b: Body): (bs: seq<byte>)
    requires BodyFits(b)
    ensures |bs| == StructSize(b) - HEADER_SIZE
  {
    match b
    case Command(sfilefd, filesize, filename, fileowner, offset, reqlen) =>
      StoreAll(e, [sfilefd, filesize]) + filename + fileowner + StoreAll(e, [offset, reqlen])
    case Data(sfilefd, offset, reqlen) => StoreAll(e, [sfilefd, offset, reqlen])
  }

  function HeaderImage(e: Endian, hd: Header): (bs: seq<byte>)
    ensures |bs| == HEADER_SIZE
  {
    StoreAll(e, HeaderWords(hd))
  }

  function ReadHeader(e: Endian, bs: seq<byte>): Header
    requires |bs| == HEADER_SIZE
  {
    HeaderFrom(LoadAll(e, bs))
  }

  function ReadBody(e: Endian, msgtype: uint32, bs: seq<byte>): (b: Body)
    requires msgtype in {MSG_COMMAND, MSG_DATA}
    requires |bs| == if msgtype == MSG_COMMAND then COMMAND_SIZE - HEADER_SIZE else DATA_SIZE - HEADER_SIZE
    ensures BodyFits(b) && TypeOf(b) == msgtype
  {
    if msgtype == MSG_COMMAND then
      var front, back := LoadAll(e, bs[..8]), LoadAll(e, bs[408..]);
      Command(front[0], front[1], bs[8..308], bs[308..408], back[0], back[1])
    else
      var ws := LoadAll(e, bs);
      Data(ws[0], ws[1], ws[2])
  }

  // ---------------------------------------------------------------- swapping

  function SwapHeader(convert: uint32 -> uint32, hd: Header): Header {
    Header(convert(hd.msglen), convert(hd.msgtype), convert(hd.op), convert(hd.err), convert(hd.buflen))
  }

  /** `offset` and `reqlen` of a command are left in host order. */
  function SwapBody(convert: uint32 -> uint32, b: Body): Body {
    match b
    case Command(_, _, _, _, _, _) => b.(sfilefd := convert(b.sfilefd), filesize := convert(b.filesize))
    case Data(_, _, _) => Data(convert(b.sfilefd), convert(b.offset), convert(b.reqlen))
  }

  function Serialized(e: Endian, m: Msg): Msg {
    Msg(SwapHeader(x => Htonl(e, x), m.hd), SwapBody(x => Htonl(e, x), m.body))
  }

  /** A message in memory, swapped in place. */
  class MsgBuf {
    var hd: Header
    var body: Body

    constructor (m: Msg)
      ensures hd == m.hd && body == m.body
    {
      hd, body := m.hd, m.body;
    }

    function Value(): Msg
      reads this
    {
      Msg(hd, body)
    }

    method SerializeHeader(e: Endian)
      modifies this
      ensures Value() == Msg(Serialized(e, old(Value())).hd, old(body))
    {
      hd := hd.(msglen := Htonl(e, hd.msglen));
      hd := hd.(msgtype := Htonl(e, hd.msgtype));
      hd := hd.(op := Htonl(e, hd.op));
      hd := hd.(err := Htonl(e, hd.err));
      hd := hd.(buflen := Htonl(e, hd.buflen));
    }

    method SerializeBody(e: Endian, msgtype: uint32)
      requires msgtype == TypeOf(body)
      modifies this
      ensures Value() == Msg(old(hd), Serialized(e, old(Value())).body)
    {
      if msgtype == MSG_COMMAND {
        body := body.(sfilefd := Htonl(e, body.sfilefd));
        body := body.(filesize := Htonl(e, body.filesize));
      } else if msgtype == MSG_DATA {
        body := Data(Htonl(e, body.sfilefd), body.offset, body.reqlen);
        body := Data(body.sfilefd, Htonl(e, body.offset), body.reqlen);
        body := Data(body.sfilefd, body.offset, Htonl(e, body.reqlen));
      }
    }

    /** The type is looked at before the header is swapped. */
    method SerializeMsg(e: Endian)
      requires hd.msgtype == TypeOf(body)
      modifies this
      ensures Value() == Serialized(e, old(Value()))
    {
      var msgtype := hd.msgtype;
      SerializeHeader(e);
      SerializeBody(e, msgtype);
    }

    method DeserializeHeader(e: Endian)
      modifies this
      ensures hd == SwapHeader(x => Ntohl(e, x), old(hd)) && body == old(body)
    {
      hd := hd.(msglen := Ntohl(e, hd.msglen));
      hd := hd.(msgtype := Ntohl(e, hd.msgtype));
      hd := hd.(op := Ntohl(e, hd.op));
      hd := hd.(err := Ntohl(e, hd.err));
      hd := hd.(buflen := Ntohl(e, hd.buflen));
    }

    /** `reqlen` of a data message is converted with `htonl` on the receiving side too. */
    method DeserializeBody(e: Endian, msgtype: uint32)
      requires msgtype == TypeOf(body)
      modifies this
      ensures hd == old(hd) && body == SwapBody(x => Ntohl(e, x), old(body))
    {
      if msgtype == MSG_COMMAND {
        body := body.(sfilefd := Ntohl(e, body.sfilefd));
        body := body.(filesize := Ntohl(e, body.filesize));
      } else if msgtype == MSG_DATA {
        body := Data(Ntohl(e, body.sfilefd), body.offset, body.reqlen);
        body := Data(body.sfilefd, Ntohl(e, body.offset), body.reqlen);
        HtonlIsNtohl(e, body.reqlen);
        body := Data(body.sfilefd, body.offset, Htonl(e, body.reqlen));
      }
    }
  }

  // ---------------------------------------------------------------- between two hosts

  /** The message that a host of order `b` ends up with when a host of order `a` sent `m`. */
  function Received(a: Endian, b: Endian, m: Msg): Msg {
    match m.body
    case Command(_, _, _, _, offset, reqlen) =>
      m.(body := m.body.(offset := Reinterpret(a, b, offset), reqlen := Reinterpret(a, b, reqlen)))
    case Data(_, _, _) => m
  }

  /** Headers survive the journey between any two hosts. */
  lemma HeaderRoundTrip(a: Endian, b: Endian, hd: Header)
    ensures SwapHeader(x => Ntohl(b, x), ReadHeader(b, HeaderImage(a, SwapHeader(x => Htonl(a, x), hd)))) == hd
  {
    var sent := SwapHeader(x => Htonl(a, x), hd);
    WordsAcross(a, b, HeaderWords(sent));
    ConvertedField(a, b, hd.msglen);
    ConvertedField(a, b, hd.msgtype);
    ConvertedField(a, b, hd.op);
    ConvertedField(a, b, hd.err);
    ConvertedField(a, b, hd.buflen);
  }

  lemma CommandRoundTrip(a: Endian, b: Endian, c: Body)
    requires BodyFits(c) && c.Command?
    ensures var sent := SwapBody(x => Htonl(a, x), c);
            BodyFits(sent) && SwapBody(x => Ntohl(b, x), ReadBody(b, MSG_COMMAND, BodyImage(a, sent))) ==
            c.(offset := Reinterpret(a, b, c.offset), reqlen := Reinterpret(a, b, c.reqlen))
  {
    var sent := SwapBody(x => Htonl(a, x), c);
    var front, back := StoreAll(a, [sent.sfilefd, sent.filesize]), StoreAll(a, [c.offset, c.reqlen]);
    CommandParts(front, c.filename, c.fileowner, back);
    WordsAcross(a, b, [sent.sfilefd, sent.filesize]);
    WordsAcross(a, b, [c.offset, c.reqlen]);
    ConvertedField(a, b, c.sfilefd);
    ConvertedField(a, b, c.filesize);
  }

  lemma CommandParts(front: seq<byte>, name: seq<byte>, owner: seq<byte>, back: seq<byte>)
    requires |front| == 8 && |name| == FILENAME_LEN_MAX && |owner| == OWNERNAME_LEN_MAX && |back| == 8
    ensures var bs := front + name + owner + back;
            bs[..8] == front && bs[8..308] == name && bs[308..408] == owner && bs[408..] == back
  {
  }

  lemma DataRoundTrip(a: Endian, b: Endian, d: Body)
    requires d.Data?
    ensures var sent := SwapBody(x => Htonl(a, x), d);
            SwapBody(x => Ntohl(b, x), ReadBody(b, MSG_DATA, BodyImage(a, sent))) == d
  {
    var sent := SwapBody(x => Htonl(a, x), d);
    WordsAcross(a, b, [sent.sfilefd, sent.offset, sent.reqlen]);
    ConvertedField(a, b, d.sfilefd);
    ConvertedField(a, b, d.offset);
    ConvertedField(a, b, d.reqlen);
  }

  /** Bodies do too, except that the unconverted fields of a command are reinterpreted. */
  lemma BodyRoundTrip(a: Endian, b: Endian, m: Msg)
    requires BodyFits(m.body)
    ensures var sent := SwapBody(x => Htonl(a, x), m.body);
            && BodyFits(sent)
            && SwapBody(x => Ntohl(b, x), ReadBody(b, TypeOf(m.body), BodyImage(a, sent))) == Received(a, b, m).body
  {
    if m.body.Command? {
      CommandRoundTrip(a, b, m.body);
    } else {
      DataRoundTrip(a, b, m.body);
    }
  }

  /**
   A message arrives exactly as it was sent if and only if it is a data message, or the
   hosts have the same byte order, or the two unconverted fields read the same backwards.
   */
  lemma RoundTripExactly(a: Endian, b: Endian, m: Msg)
    ensures Received(a, b, m) == m <==>
            || m.body.Data?
            || a == b
            || (Swapped(m.body.offset) == m.body.offset && Swapped(m.body.reqlen) == m.body.reqlen)
  {
    if m.body.Command? {
      ReinterpretExactly(a, b, m.body.offset);
      ReinterpretExactly(a, b, m.body.reqlen);
    }
  }

  /** A command for byte 1 arrives at a host of the other byte order as one for byte 2^24. */
  lemma CommandCanChange(a: Endian, b: Endian, name: seq<byte>, owner: seq<byte>)
    requires a != b && |name| == FILENAME_LEN_MAX && |owner| == OWNERNAME_LEN_MAX
    ensures var m := Msg(Header(COMMAND_SIZE, MSG_COMMAND, 0, 0, 0), Command(0, 0, name, owner, 1, 0));
            Initialised(m) && Received(a, b, m) == m.(body := m.body.(offset := 0x0100_0000))
  {
    var zero: seq<byte>, one: seq<byte> := [0, 0, 0, 0], if a.Big? then [0, 0, 0, 1] else [1, 0, 0, 0];
    StoreLoad(a, zero);
    StoreLoad(a, one);
    assert Load(a, zero) == 0 == Load(b, zero);
    assert Load(a, one) == 1 && Load(b, one) == 0x0100_0000;
  }

  /** Converting twice on one host gives the message back. */
  lemma SerializedTwice(e: Endian, m: Msg)
    ensures Serialized(e, Serialized(e, m)) == m
  {
    var hd, body := m.hd, m.body;
    HtonlTwice(e, hd.msglen);
    HtonlTwice(e, hd.msgtype);
    HtonlTwice(e, hd.op);
    HtonlTwice(e, hd.err);
    HtonlTwice(e, hd.buflen);
    HtonlTwice(e, body.sfilefd);
    match body
    case Command(_, filesize, _, _, _, _) => HtonlTwice(e, filesize);
    case Data(_, offset, reqlen) =>
      HtonlTwice(e, offset);
      HtonlTwice(e, reqlen);
  }

  lemma HtonlTwice(e: Endian, x: uint32)
    ensures Htonl(e, Htonl(e, x)) == x
  {
    HtonlIsNtohl(e, x);
    HtonlIsNtohl(e, Htonl(e, x));
  }

  /** What a little-endian host makes of a number below 2^16. */
  lemma LittleHtonl(x: uint32, c: byte, d: byte)
    requires x == c * 256 + d
    ensures Htonl(Little, x) == Join(d, c, 0, 0)
  {
    var bs: seq<byte> := [0, 0, c, d];
    StoreLoad(Big, bs);
    assert Load(Big, bs) == x;
  }

  /** On a big-endian host there is nothing to convert. */
  lemma SerializedBig(m: Msg)
    ensures Serialized(Big, m) == m
  {
    forall x: uint32 ensures Htonl(Big, x) == x {
      LoadStore(Big, x);
    }
  }
}

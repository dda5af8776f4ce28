/** WebSocket framing of src/socket-handler.ts: `decodeFrame` over the
    handler's byte buffer, `generateMetaData` and `encodeFrame` (base framing
    and masking, sections 5.2 and 5.3 of RFC 6455, as far as this code
    implements them). */
module WebSocket {

  /** A byte of a Node `Buffer`. */
  newtype byte = x: int | 0 <= x < 256

  /** Bitwise exclusive or of two naturals, one binary digit at a time. */
  function BitXor(a: nat, b: nat): (r: nat)
    decreases a + b
  {
    if a == 0 then b
    else if b == 0 then a
    else 2 * BitXor(a / 2, b / 2) + (if a % 2 == b % 2 then 0 else 1)
  }

  function Pow2(k: nat): (p: nat)
    ensures p >= 1
  {
    if k == 0 then 1 else 2 * Pow2(k - 1)
  }

  lemma {:induction false} BitXorBound(a: nat, b: nat, k: nat)
    requires a < Pow2(k) && b < Pow2(k)
    ensures BitXor(a, b) < Pow2(k)
    decreases a + b
  {
    if a != 0 && b != 0 {
      BitXorBound(a / 2, b / 2, k - 1);
    }
  }

  lemma {:induction false} BitXorInvolutive(a: nat, m: nat)
    ensures BitXor(BitXor(a, m), m) == a
    decreases a + m
  {
    if a == 0 {
      assert BitXor(m, m) == 0 by { BitXorSelf(m); }
    } else if m == 0 {
    } else {
      var x := BitXor(a, m);
      BitXorInvolutive(a / 2, m / 2);
      assert x / 2 == BitXor(a / 2, m / 2);
      if x == 0 {
        BitXorZero(a, m);
      } else {
        assert x % 2 == (if a % 2 == m % 2 then 0 else 1);
        assert BitXor(x, m) == 2 * BitXor(x / 2, m / 2) + (if x % 2 == m % 2 then 0 else 1);
      }
    }
  }

  lemma {:induction false} BitXorSelf(m: nat)
    ensures BitXor(m, m) == 0
    decreases m
  {
    if m != 0 {
      BitXorSelf(m / 2);
    }
  }

  lemma {:induction false} BitXorZero(a: nat, m: nat)
    requires BitXor(a, m) == 0
    ensures a == m
    decreases a + m
  {
    if a != 0 && m != 0 {
      BitXorZero(a / 2, m / 2);
    }
  }

  /** Bitwise exclusive or of two bytes (`^=` on a `Buffer` element). */
  function Xor(a: byte, b: byte): byte
  {
    BitXorBound(a as nat, b as nat, 8);
    BitXor(a as nat, b as nat) as byte
  }

  lemma XorInvolutive(a: byte, m: byte)
    ensures Xor(Xor(a, m), m) == a
  {
    BitXorBound(a as nat, m as nat, 8);
    BitXorInvolutive(a as nat, m as nat);
  }

  /** 256 to the power `n`. */
  function Pow256(n: nat): (p: nat)
    ensures p >= 1
  {
    if n == 0 then 1 else 256 * Pow256(n - 1)
  }

  /** `n` as `width` big-endian bytes (`writeUInt16BE`, `writeUInt32BE`);
      digits above the width are dropped. */
  function BigEndian(n: nat, width: nat): (bytes: seq<byte>)
    ensures |bytes| == width
  {
    if width == 0 then [] else BigEndian(n / 256, width - 1) + [(n % 256) as byte]
  }

  /** The unsigned big-endian number in `bytes` (`readUInt16BE`,
      `readUInt32BE`). */
  function FromBigEndian(bytes: seq<byte>): (n: nat)
    ensures n < Pow256(|bytes|)
  {
    if bytes == [] then 0
    else
      var high := FromBigEndian(bytes[..|bytes| - 1]);
      assert high * 256 <= (Pow256(|bytes| - 1) - 1) * 256;
      high * 256 + bytes[|bytes| - 1] as int
  }

  /** Reading back what was written gives the number, when it fits. */
  lemma {:induction false} BigEndianRoundTrip(n: nat, width: nat)
    requires n < Pow256(width)
    ensures FromBigEndian(BigEndian(n, width)) == n
  {
    if width > 0 {
      var bytes := BigEndian(n, width);
      assert bytes[..|bytes| - 1] == BigEndian(n / 256, width - 1);
      assert n / 256 < Pow256(width - 1);
      BigEndianRoundTrip(n / 256, width - 1);
    }
  }

  /** RSV1-3 clear, a known opcode, and no fragmented control frame. */
  predicate ValidFirstByte(b: byte)
  {
    var hb := b as int / 16;
    var opcode := b as int % 16;
    hb % 8 == 0 && opcode in {0, 1, 2, 8, 9, 10} && (opcode >= 8 ==> hb == 8)
  }

  /** Each byte i XORed with mask byte i mod 4; masking and unmasking are
      the same operation. */
  function Unmask(data: seq<byte>, mask: seq<byte>): (r: seq<byte>)
    requires |mask| == 4
    ensures |r| == |data|
  {
    seq(|data|, i requires 0 <= i < |data| => Xor(data[i], mask[i % 4]))
  }

  lemma UnmaskInvolutive(data: seq<byte>, mask: seq<byte>)
    requires |mask| == 4
    ensures Unmask(Unmask(data, mask), mask) == data
  {
    var once := Unmask(data, mask);
    forall i | 0 <= i < |data| ensures Unmask(once, mask)[i] == data[i] {
      assert once[i] == Xor(data[i], mask[i % 4]);
      XorInvolutive(data[i], mask[i % 4]);
    }
  }

  /** What `decodeFrame` returns: undefined (not yet a whole frame), false
      (a header it refuses), or the payload of one frame. Decoding the
      payload bytes as UTF-8 text is not modelled. */
  datatype Frame = Incomplete | Rejected | Payload(data: seq<byte>)

  /** A decoding step: the frame, and what the buffer holds afterwards. */
  datatype Decoded = Decoded(frame: Frame, rest: seq<byte>)

  const TWO_POW_32: nat := 0x1_0000_0000

  /** Where a frame's payload lies according to its header, or that the
      buffer does not hold enough of it yet. */
  datatype Layout = NeedMore | Layout(masked: bool, len: nat, start: nat)

  /** The second header byte gives the mask bit and the 7-bit length code;
      codes 126 and 127 announce a 16-bit or a 64-bit length (read as two
      32-bit halves) after it. The completeness test adds the 7-bit code
      itself to the offset, before any extended length is read. */
  function HeaderLayout(buf: seq<byte>): (l: Layout)
    requires |buf| >= 2
    ensures l.Layout? ==> 2 <= l.start <= |buf| && (l.masked ==> l.start >= 6)
  {
    var masked := buf[1] as int / 128 == 1;
    var code := buf[1] as int % 128;
    var start0 := if masked then 6 else 2;
    if |buf| < start0 + code then NeedMore
    else if code == 126 then Layout(masked, FromBigEndian(buf[2..4]), start0 + 2)
    else if code == 127 then Layout(masked, FromBigEndian(buf[2..6]) * TWO_POW_32 + FromBigEndian(buf[6..10]), start0 + 8)
    else Layout(masked, code, start0)
  }

  /** The payload bytes, unmasked with the four bytes before them when the
      frame is masked. */
  function Extract(buf: seq<byte>, masked: bool, start: nat, len: nat): (data: seq<byte>)
    requires start + len <= |buf| && (masked ==> start >= 4)
    ensures |data| == len
  {
    var data := buf[start..start + len];
    if masked then Unmask(data, buf[start - 4..start]) else data
  }

  /** One `decodeFrame` on buffer `buf`: the frame, and the buffer after it. */
  function Decode(buf: seq<byte>): (r: Decoded)
    ensures r.frame.Payload? ==> |r.rest| <= |buf| - 2 && r.rest == buf[|buf| - |r.rest|..]
    ensures !r.frame.Payload? ==> r.rest == buf
    ensures r.frame == Rejected <==> |buf| >= 2 && !ValidFirstByte(buf[0])
    ensures |buf| < 2 ==> r.frame == Incomplete
  {
    if |buf| < 2 then Decoded(Incomplete, buf)
    else if !ValidFirstByte(buf[0]) then Decoded(Rejected, buf)
    else
      var l := HeaderLayout(buf);
      if l.NeedMore? || |buf| < l.start + l.len then Decoded(Incomplete, buf)
      else Decoded(Payload(Extract(buf, l.masked, l.start, l.len)), buf[l.start + l.len..])
  }

  /** The 7-bit length code of the second header byte. */
  function LengthCode(len: nat): (code: nat)
    ensures code < 128
    ensures len < 126 ==> code == len
  {
    if len < 126 then len else if len < 65536 then 126 else 127
  }

  /** The extended payload length that follows the second header byte. */
  function ExtendedLength(len: nat): (bytes: seq<byte>)
    ensures |bytes| == if len < 126 then 0 else if len < 65536 then 2 else 8
  {
    if len < 126 then []
    else if len < 65536 then BigEndian(len, 2)
    else BigEndian(len / TWO_POW_32, 4) + BigEndian(len % TWO_POW_32, 4)
  }

  /** The header size `generateMetaData` allocates. */
  function HeaderLength(len: nat, masked: bool): nat
  {
    2 + (if len < 126 then 0 else if len < 65536 then 2 else 8) + (if masked then 4 else 0)
  }

  /** The header `generateMetaData` builds for a payload of `len` bytes. */
  function MetaData(fin: bool, opcode: int, masked: bool, len: nat, maskKey: seq<byte>): (meta: seq<byte>)
    requires masked ==> |maskKey| == 4
    ensures |meta| == HeaderLength(len, masked)
    ensures meta[0] as int == ((if fin then 128 else 0) + opcode) % 256
    ensures meta[1] as int == (if masked then 128 else 0) + LengthCode(len)
    ensures masked ==> meta[|meta| - 4..] == maskKey
  {
    [(((if fin then 128 else 0) + opcode) % 256) as byte,
     ((if masked then 128 else 0) + LengthCode(len)) as byte]
    + ExtendedLength(len) + (if masked then maskKey else [])
  }

  /** A whole frame as `encodeFrame` would send it with these header
      fields: the header, then the payload, masked when asked. */
  function Encoded(fin: bool, opcode: int, masked: bool, payload: seq<byte>, maskKey: seq<byte>): (frame: seq<byte>)
    requires masked ==> |maskKey| == 4
  {
    MetaData(fin, opcode, masked, |payload|, maskKey) + (if masked then Unmask(payload, maskKey) else payload)
  }

  /** The opcodes the decoder accepts, with the rule that control frames
      are never fragmented. */
  predicate Sendable(fin: bool, opcode: int)
  {
    opcode in {0, 1, 2, 8, 9, 10} && (opcode >= 8 ==> fin)
  }

  lemma FirstByteOfEncoded(fin: bool, opcode: int, b: byte)
    requires Sendable(fin, opcode)
    requires b as int == ((if fin then 128 else 0) + opcode) % 256
    ensures ValidFirstByte(b)
  {
  }

  lemma ExtendedLengthRoundTrip(len: nat)
    requires 126 <= len < Pow256(8)
    ensures len < 65536 ==> FromBigEndian(ExtendedLength(len)) == len
    ensures len >= 65536 ==>
              FromBigEndian(ExtendedLength(len)[..4]) * TWO_POW_32 + FromBigEndian(ExtendedLength(len)[4..]) == len
  {
    assert Pow256(2) == 65536;
    assert Pow256(4) == TWO_POW_32;
    if len < 65536 {
      BigEndianRoundTrip(len, 2);
    } else {
      var bytes := ExtendedLength(len);
      assert bytes[..4] == BigEndian(len / TWO_POW_32, 4);
      assert bytes[4..] == BigEndian(len % TWO_POW_32, 4);
      assert len / TWO_POW_32 < TWO_POW_32;
      BigEndianRoundTrip(len / TWO_POW_32, 4);
      BigEndianRoundTrip(len % TWO_POW_32, 4);
    }
  }

  /** The first two bytes of a buffer that starts with a header. */
  lemma HeaderBytes(fin: bool, opcode: int, masked: bool, len: nat, maskKey: seq<byte>, buf: seq<byte>)
    requires Sendable(fin, opcode)
    requires masked ==> |maskKey| == 4
    requires MetaData(fin, opcode, masked, len, maskKey) <= buf
    ensures |buf| >= 2 && ValidFirstByte(buf[0])
    ensures buf[1] as int / 128 == 1 <==> masked
    ensures buf[1] as int % 128 == LengthCode(len)
  {
    var meta := MetaData(fin, opcode, masked, len, maskKey);
    assert buf[0] == meta[0] && buf[1] == meta[1];
    FirstByteOfEncoded(fin, opcode, buf[0]);
  }

  /** The extended length of a buffer that starts with a header. */
  lemma HeaderLengthBytes(fin: bool, opcode: int, masked: bool, len: nat, maskKey: seq<byte>, buf: seq<byte>)
    requires masked ==> |maskKey| == 4
    requires 126 <= len < Pow256(8)
    requires MetaData(fin, opcode, masked, len, maskKey) <= buf
    ensures len < 65536 ==> |buf| >= 4 && FromBigEndian(buf[2..4]) == len
    ensures len >= 65536 ==> |buf| >= 10 && FromBigEndian(buf[2..6]) * TWO_POW_32 + FromBigEndian(buf[6..10]) == len
  {
    var meta := MetaData(fin, opcode, masked, len, maskKey);
    ExtendedLengthRoundTrip(len);
    var ext := ExtendedLength(len);
    assert meta[2..2 + |ext|] == ext;
    assert buf[2..2 + |ext|] == ext;
    if len >= 65536 {
      assert buf[2..6] == ext[..4];
      assert buf[6..10] == ext[4..];
    }
  }

  /** The layout a header describes, from the facts its bytes carry. */
  lemma HeaderLayoutOf(buf: seq<byte>, masked: bool, len: nat)
    requires |buf| >= 2
    requires buf[1] as int / 128 == 1 <==> masked
    requires buf[1] as int % 128 == LengthCode(len)
    requires |buf| >= HeaderLength(len, masked) + len
    requires 126 <= len < 65536 ==> FromBigEndian(buf[2..4]) == len
    requires len >= 65536 ==> |buf| >= 10 && FromBigEndian(buf[2..6]) * TWO_POW_32 + FromBigEndian(buf[6..10]) == len
    ensures HeaderLayout(buf) == Layout(masked, len, HeaderLength(len, masked))
  {
  }

  /** The header of an encoded frame reads back as the payload's length,
      the mask bit and the header's own length. */
  lemma EncodedHeader(fin: bool, opcode: int, masked: bool, payload: seq<byte>, maskKey: seq<byte>, rest: seq<byte>)
    requires Sendable(fin, opcode)
    requires masked ==> |maskKey| == 4
    requires |payload| < Pow256(8)
    ensures var buf := Encoded(fin, opcode, masked, payload, maskKey) + rest;
            |buf| >= 2 && ValidFirstByte(buf[0]) &&
            HeaderLayout(buf) == Layout(masked, |payload|, HeaderLength(|payload|, masked))
  {
    var len := |payload|;
    var meta := MetaData(fin, opcode, masked, len, maskKey);
    var buf := Encoded(fin, opcode, masked, payload, maskKey) + rest;
    assert meta <= buf by {
      assert buf[..|meta|] == meta;
    }
    assert |buf| >= |meta| + len;
    HeaderBytes(fin, opcode, masked, len, maskKey, buf);
    if len >= 126 {
      HeaderLengthBytes(fin, opcode, masked, len, maskKey, buf);
    }
    HeaderLayoutOf(buf, masked, len);
  }

  /** The bytes after an encoded frame's header are its payload, masked as
      encoded, and then whatever followed the frame. */
  lemma EncodedPayload(fin: bool, opcode: int, masked: bool, payload: seq<byte>, maskKey: seq<byte>, rest: seq<byte>)
    requires masked ==> |maskKey| == 4
    ensures var buf := Encoded(fin, opcode, masked, payload, maskKey) + rest;
            var start := |MetaData(fin, opcode, masked, |payload|, maskKey)|;
            start + |payload| <= |buf| && (masked ==> start >= 4) &&
            Extract(buf, masked, start, |payload|) == payload && buf[start + |payload|..] == rest
  {
    var meta := MetaData(fin, opcode, masked, |payload|, maskKey);
    var body := if masked then Unmask(payload, maskKey) else payload;
    assert Encoded(fin, opcode, masked, payload, maskKey) + rest == meta + body + rest;
    FrameParts(meta, body, rest);
    if masked {
      UnmaskInvolutive(payload, maskKey);
    }
  }

  /** Where the header, the body and what follows sit in a buffer. */
  lemma FrameParts(meta: seq<byte>, body: seq<byte>, rest: seq<byte>)
    ensures var buf := meta + body + rest;
            buf[|meta|..|meta| + |body|] == body && buf[|meta| + |body|..] == rest &&
            (|meta| >= 4 ==> buf[|meta| - 4..|meta|] == meta[|meta| - 4..])
  {
    var buf := meta + body + rest;
    assert buf[|meta|..|meta| + |body|] == body;
    assert buf[|meta| + |body|..] == rest;
    if |meta| >= 4 {
      assert buf[|meta| - 4..|meta|] == meta[|meta| - 4..];
    }
  }

  /** Round trip: decoding an encoded frame, whatever follows it in the
      buffer, gives back the payload, masked or not, and consumes exactly the
      frame. */
  lemma DecodeEncoded(fin: bool, opcode: int, masked: bool, payload: seq<byte>, maskKey: seq<byte>, rest: seq<byte>)
    requires Sendable(fin, opcode)
    requires masked ==> |maskKey| == 4
    requires |payload| < Pow256(8)
    ensures Decode(Encoded(fin, opcode, masked, payload, maskKey) + rest) == Decoded(Payload(payload), rest)
  {
    EncodedHeader(fin, opcode, masked, payload, maskKey, rest);
    EncodedPayload(fin, opcode, masked, payload, maskKey, rest);
  }

  lemma HeaderLayoutExtends(buf: seq<byte>, more: seq<byte>)
    requires |buf| >= 2 && HeaderLayout(buf).Layout?
    ensures HeaderLayout(buf + more) == HeaderLayout(buf)
  {
    var ext := buf + more;
    assert ext[1] == buf[1];
    var code := buf[1] as int % 128;
    if code == 126 {
      assert ext[2..4] == buf[2..4];
    } else if code == 127 {
      assert ext[2..6] == buf[2..6];
      assert ext[6..10] == buf[6..10];
    }
  }

  /** Bytes arriving after a whole frame do not change how it decodes: they
      only end up in the remaining buffer. */
  lemma DecodeExtends(buf: seq<byte>, more: seq<byte>)
    requires Decode(buf).frame.Payload?
    ensures Decode(buf + more) == Decoded(Decode(buf).frame, Decode(buf).rest + more)
  {
    var ext := buf + more;
    assert ext[0] == buf[0];
    HeaderLayoutExtends(buf, more);
    var l := HeaderLayout(buf);
    ExtractExtends(buf, more, l.masked, l.start, l.len);
    assert ext[l.start + l.len..] == buf[l.start + l.len..] + more;
  }

  /** The payload of a frame lying wholly in `buf` is the same in `buf + more`. */
  lemma ExtractExtends(buf: seq<byte>, more: seq<byte>, masked: bool, start: nat, len: nat)
    requires start + len <= |buf| && (masked ==> start >= 4)
    ensures Extract(buf + more, masked, start, len) == Extract(buf, masked, start, len)
  {
    var ext := buf + more;
    assert ext[start..start + len] == buf[start..start + len];
    if masked {
      assert ext[start - 4..start] == buf[start - 4..start];
    }
  }

  /** The handler's receive buffer; the client sockets and the event emitter
      are not modelled. */
  class SocketHandler {
    var buffer: seq<byte>

    constructor()
      ensures buffer == []
    {
      buffer := [];
    }

    /** `decodeFrame`: one decoding step on `buffer`. */
    method DecodeFrame() returns (frame: Frame)
      modifies this
      ensures Decode(old(buffer)) == Decoded(frame, buffer)
    {
      var buf := buffer;
      if |buf| < 2 {
        return Incomplete;
      }
      var valid := CheckFirstByte(buf[0]);
      if !valid {
        return Rejected;
      }
      var layout := ReadLayout(buf);
      if layout.NeedMore? || |buf| < layout.start + layout.len {
        return Incomplete;
      }
      var payload := ExtractPayload(buf, layout.masked, layout.start, layout.len);
      buffer := buf[layout.start + layout.len..];
      frame := Payload(payload);
    }
  }

  /** The first-byte tests of `decodeFrame`: RSV bits, opcode, and no
      fragmented control frame. */
  method CheckFirstByte(b: byte) returns (valid: bool)
    ensures valid == ValidFirstByte(b)
  {
    var hb := b as int / 16;
    if hb % 8 != 0 {
      return false;
    }
    var fin := hb == 8;
    var opcode := b as int % 16;
    if opcode != 0 && opcode != 1 && opcode != 2 && opcode != 8 && opcode != 9 && opcode != 10 {
      return false;
    }
    if opcode >= 8 && !fin {
      return false;
    }
    return true;
  }

  /** The header reads of `decodeFrame`: mask bit, length code, the first
      completeness test, and the extended length. */
  method ReadLayout(buf: seq<byte>) returns (layout: Layout)
    requires |buf| >= 2
    ensures layout == HeaderLayout(buf)
  {
    var b := buf[1] as int;
    var hasMask := b / 128;
    var len := b % 128;
    var start := if hasMask == 1 then 6 else 2;
    if |buf| < start + len {
      return NeedMore;
    }
    if len == 126 {
      len := FromBigEndian(buf[2..4]);
      start := start + 2;
    } else if len == 127 {
      len := FromBigEndian(buf[2..6]) * TWO_POW_32 + FromBigEndian(buf[6..10]);
      start := start + 8;
    }
    return Layout(hasMask == 1, len, start);
  }

  /** The payload copy of `decodeFrame`, unmasked in place when the frame
      is masked. */
  method ExtractPayload(buf: seq<byte>, masked: bool, start: nat, len: nat) returns (data: seq<byte>)
    requires start + len <= |buf| && (masked ==> start >= 4)
    ensures data == Extract(buf, masked, start, len)
  {
    var payload := new byte[len](i requires 0 <= i < len => buf[start + i]);
    assert payload[..] == buf[start..start + len];
    if masked {
      MaskInPlace(payload, buf[start - 4..start]);
    }
    data := payload[..];
  }

  /** Writes `bytes` into `buf` from position `offset` on (the effect of
      `writeUInt16BE`, `writeUInt32BE` and the mask-key loop). */
  method CopyInto(buf: array<byte>, offset: nat, bytes: seq<byte>)
    requires offset + |bytes| <= buf.Length
    modifies buf
    ensures forall j :: 0 <= j < buf.Length ==>
              buf[j] == if offset <= j < offset + |bytes| then bytes[j - offset] else old(buf[j])
  {
    for i := 0 to |bytes|
      invariant forall j :: 0 <= j < buf.Length ==>
                  buf[j] == if offset <= j < offset + i then bytes[j - offset] else old(buf[j])
    {
      buf[offset + i] := bytes[i];
    }
  }

  /** `generateMetaData`: builds the header for `payload` and, when
      masking, writes the mask key (drawn at random in the source, a
      parameter here) and masks the payload in place. A length of 2^64 or
      more makes `writeUInt32BE` throw. */
  method GenerateMetaData(fin: bool, opcode: int, masked: bool, payload: array<byte>, maskKey: seq<byte>)
    returns (meta: array<byte>)
    requires masked ==> |maskKey| == 4
    requires payload.Length < Pow256(8)
    modifies payload
    ensures fresh(meta)
    ensures meta[..] == MetaData(fin, opcode, masked, payload.Length, maskKey)
    ensures payload[..] == if masked then Unmask(old(payload[..]), maskKey) else old(payload[..])
  {
    var len := payload.Length;
    ghost var ext := ExtendedLength(len);
    meta := new byte[2 + (if len < 126 then 0 else if len < 65536 then 2 else 8) + (if masked then 4 else 0)];
    var first := (((if fin then 128 else 0) + opcode) % 256) as byte;
    meta[0] := first;
    var second := if masked then 128 else 0;
    var start := 2;
    if len < 126 {
      second := second + len;
    } else if len < 65536 {
      second := second + 126;
      CopyInto(meta, 2, BigEndian(len, 2));
      start := start + 2;
    } else {
      second := second + 127;
      CopyInto(meta, 2, BigEndian(len / TWO_POW_32, 4));
      CopyInto(meta, 6, BigEndian(len % TWO_POW_32, 4));
      start := start + 8;
    }
    meta[1] := second as byte;
    ghost var header := [first, second as byte] + ext;
    assert start == |header|;
    forall j | 2 <= j < start
      ensures meta[j] == header[j]
    {
      if len >= 65536 && j >= 6 {
        assert header[j] == BigEndian(len % TWO_POW_32, 4)[j - 6];
      }
    }
    assert meta[..start] == header;
    assert MetaData(fin, opcode, masked, len, maskKey) == header + (if masked then maskKey else []);
    if masked {
      CopyInto(meta, start, maskKey);
      assert meta[..start] == header;
      assert meta[start..] == maskKey;
      MaskInPlace(payload, maskKey);
      start := start + 4;
    } else {
      assert meta[..] == meta[..start];
    }
  }

  /** The masking loops of `decodeFrame` and `generateMetaData`: each
      payload byte XORed in place with the mask key. */
  method MaskInPlace(payload: array<byte>, maskKey: seq<byte>)
    requires |maskKey| == 4
    modifies payload
    ensures payload[..] == Unmask(old(payload[..]), maskKey)
  {
    for i := 0 to payload.Length
      invariant forall j :: 0 <= j < i ==> payload[j] == Xor(old(payload[j]), maskKey[j % 4])
      invariant forall j :: i <= j < payload.Length ==> payload[j] == old(payload[j])
    {
      payload[i] := Xor(payload[i], maskKey[i % 4]);
    }
  }

  /** `encodeFrame`: a final text frame (FIN set, opcode 1) carrying `data`. */
  method EncodeFrame(data: seq<byte>, masked: bool, maskKey: seq<byte>) returns (frame: seq<byte>)
    requires masked ==> |maskKey| == 4
    requires |data| < Pow256(8)
    ensures frame == Encoded(true, 1, masked, data, maskKey)
  {
    var payload := new byte[|data|](i requires 0 <= i < |data| => data[i]);
    assert payload[..] == data;
    var meta := GenerateMetaData(true, 1, masked, payload, maskKey);
    frame := meta[..] + payload[..];
  }

  /** What one `encodeFrame` sends, one `decodeFrame` takes back. */
  lemma EncodeThenDecode(data: seq<byte>, masked: bool, maskKey: seq<byte>, rest: seq<byte>)
    requires masked ==> |maskKey| == 4
    requires |data| < Pow256(8)
    ensures Decode(Encoded(true, 1, masked, data, maskKey) + rest) == Decoded(Payload(data), rest)
  {
    DecodeEncoded(true, 1, masked, data, maskKey, rest);
  }
}

/** Raw packets: the packed little-endian structs of protocol.hpp and `validateAndParse` of parser_validator.hpp. */
module WireFormat {
  import opened Bits
  import opened Protocol

  type Byte = x: nat | x < 256

  datatype ValidationResult =
    | Valid | TruncatedHeader | UnknownMessageType | LengthMismatch | InvalidSide | InvalidPrice | InvalidQuantity

  const TWO_TO_32: nat := 0x1_0000_0000

  function Power256(k: nat): (r: nat)
    ensures r > 0
  {
    if k == 0 then 1 else 256 * Power256(k - 1)
  }

  /** `k` bytes of a number, least significant first. */
  function Little(n: nat, k: nat): (s: seq<Byte>)
    ensures |s| == k
  {
    if k == 0 then [] else [n % 256] + Little(n / 256, k - 1)
  }

  function Number(s: seq<Byte>): nat {
    if s == [] then 0 else s[0] + 256 * Number(s[1..])
  }

  lemma {:induction false} ReadLittle(n: nat, k: nat)
    requires n < Power256(k)
    ensures Number(Little(n, k)) == n
  {
    if k > 0 {
      ReadLittle(n / 256, k - 1);
      assert Little(n, k)[1..] == Little(n / 256, k - 1);
    }
  }

  /** Two's complement. */
  function ToSigned(n: nat): int {
    if n < 0x8000_0000 then n else n - TWO_TO_32
  }

  function Field(buffer: seq<Byte>, at: nat, size: nat): nat
    requires at + size <= |buffer|
  {
    Number(buffer[at..at + size])
  }

  /** A field of the width of its type: eight bytes always hold a 64-bit word. */
  function Field64(buffer: seq<Byte>, at: nat): Word
    requires at + 8 <= |buffer|
  {
    Wrap(Field(buffer, at, 8))
  }

  function Field32(buffer: seq<Byte>, at: nat): int
    requires at + 4 <= |buffer|
  {
    ToSigned(Field(buffer, at, 4))
  }

  /** sizeof of the struct a type byte announces, or zero. */
  function ExpectedSize(kind: char): nat {
    if kind == 'A' then 34 else if kind == 'X' then 29 else if kind == 'E' then 33 else 0
  }

  /** The struct at the front of a buffer. */
  function Decode(buffer: seq<Byte>): (m: Message)
    requires buffer != [] && ExpectedSize(buffer[0] as char) > 0 && |buffer| >= ExpectedSize(buffer[0] as char)
    ensures m.MsgType() == buffer[0] as char
  {
    var seqNo, ts, id := Field64(buffer, 1), Field64(buffer, 9), Field64(buffer, 17);
    if buffer[0] as char == 'A' then Add(seqNo, ts, id, buffer[25] as char, Field32(buffer, 26), Field32(buffer, 30))
    else if buffer[0] as char == 'X' then Cancel(seqNo, ts, id, Field32(buffer, 25))
    else Execute(seqNo, ts, id, Field32(buffer, 25), Field32(buffer, 29))
  }

  function Header(kind: char, m: Message): seq<Byte>
    requires kind as int < 256 && !m.Other?
  {
    [kind as int] + Little(m.seqNo, 8) + Little(m.timestampNs, 8) + Little(m.orderId, 8)
  }

  function Signed(x: int): seq<Byte>
    requires IsInt32(x)
  {
    Little(x % TWO_TO_32, 4)
  }

  /** Fields fit the wire. */
  predicate Encodable(m: Message) {
    match m
    case Add(_, ts, _, side, price, quantity) =>
      ts < WORD && side as int < 256 && IsInt32(price) && IsInt32(quantity)
    case Cancel(_, ts, _, quantity) => ts < WORD && IsInt32(quantity)
    case Execute(_, ts, _, execQuantity, matchPrice) => ts < WORD && IsInt32(execQuantity) && IsInt32(matchPrice)
    case Other(_, _) => false
  }

  /** The packed struct of a message. */
  function Encode(m: Message): (s: seq<Byte>)
    requires Encodable(m)
    ensures |s| == ExpectedSize(m.MsgType())
  {
    match m
    case Add(_, _, _, side, price, quantity) => Header('A', m) + [side as int] + Signed(price) + Signed(quantity)
    case Cancel(_, _, _, quantity) => Header('X', m) + Signed(quantity)
    case Execute(_, _, _, execQuantity, matchPrice) => Header('E', m) + Signed(execQuantity) + Signed(matchPrice)
  }

  lemma Read64(n: Word)
    ensures Wrap(Number(Little(n, 8))) == n
  {
    assert Power256(8) == WORD by {
      assert Power256(4) == 0x1_0000_0000;
      assert Power256(6) == 0x1_0000_0000_0000;
    }
    ReadLittle(n, 8);
    DivModUnique(n, WORD, 0, n);
  }

  lemma ReadSigned(x: int)
    requires IsInt32(x)
    ensures ToSigned(Number(Signed(x))) == x
  {
    assert Power256(4) == 0x1_0000_0000;
    ReadLittle(x % TWO_TO_32, 4);
    DivModUnique(x, TWO_TO_32, if x >= 0 then 0 else -1, if x >= 0 then x else x + TWO_TO_32);
  }

  /** The header fields stand at offsets 1, 9 and 17. */
  lemma ReadHeader(kind: char, m: Message, rest: seq<Byte>)
    requires kind as int < 256 && !m.Other? && m.timestampNs < WORD
    ensures var b := Header(kind, m) + rest;
      && |Header(kind, m)| == 25
      && b[0] as char == kind
      && Field64(b, 1) == m.seqNo && Field64(b, 9) == m.timestampNs && Field64(b, 17) == m.orderId
  {
    var b := Header(kind, m) + rest;
    assert b[1..9] == Little(m.seqNo, 8);
    assert b[9..17] == Little(m.timestampNs, 8);
    assert b[17..25] == Little(m.orderId, 8);
    Read64(m.seqNo);
    Read64(m.timestampNs);
    Read64(m.orderId);
  }

  lemma ReadField32(before: seq<Byte>, x: int, after: seq<Byte>)
    requires IsInt32(x)
    ensures Field32(before + Signed(x) + after, |before|) == x
  {
    var b := before + Signed(x) + after;
    assert b[|before|..|before| + 4] == Signed(x);
    ReadSigned(x);
  }

  lemma DecodeAdd(m: Message, rest: seq<Byte>)
    requires Encodable(m) && m.Add?
    ensures Decode(Encode(m) + rest) == m
  {
    var h, s, p, q := Header('A', m), [m.side as int], Signed(m.price), Signed(m.quantity);
    var b := Encode(m) + rest;
    assert Field64(b, 1) == m.seqNo && Field64(b, 9) == m.timestampNs && Field64(b, 17) == m.orderId by {
      assert b == h + (s + p + q + rest);
      ReadHeader('A', m, s + p + q + rest);
    }
    assert b[25] == m.side as int;
    assert Field32(b, 26) == m.price by {
      assert b == (h + s) + p + (q + rest);
      ReadField32(h + s, m.price, q + rest);
    }
    assert Field32(b, 30) == m.quantity by {
      assert b == (h + s + p) + q + rest;
      ReadField32(h + s + p, m.quantity, rest);
    }
  }

  lemma DecodeCancel(m: Message, rest: seq<Byte>)
    requires Encodable(m) && m.Cancel?
    ensures Decode(Encode(m) + rest) == m
  {
    var h, b := Header('X', m), Encode(m) + rest;
    assert b == h + (Signed(m.quantity) + rest);
    ReadHeader('X', m, Signed(m.quantity) + rest);
    ReadField32(h, m.quantity, rest);
  }

  lemma DecodeExecute(m: Message, rest: seq<Byte>)
    requires Encodable(m) && m.Execute?
    ensures Decode(Encode(m) + rest) == m
  {
    var h, b := Header('E', m), Encode(m) + rest;
    var q, p := Signed(m.execQuantity), Signed(m.matchPrice);
    assert b == h + (q + p + rest);
    ReadHeader('E', m, q + p + rest);
    assert b == h + q + (p + rest);
    ReadField32(h, m.execQuantity, p + rest);
    assert b == (h + q) + p + rest;
    ReadField32(h + q, m.matchPrice, rest);
  }

  /** Decoding an encoded message, with anything behind it, gives the message back. */
  lemma DecodeEncode(m: Message, rest: seq<Byte>)
    requires Encodable(m)
    ensures |Encode(m) + rest| >= ExpectedSize(m.MsgType()) > 0 && (Encode(m) + rest)[0] as char == m.MsgType()
    ensures Decode(Encode(m) + rest) == m
  {
    match m
    case Add(_, _, _, _, _, _) => DecodeAdd(m, rest);
    case Cancel(_, _, _, _) => DecodeCancel(m, rest);
    case Execute(_, _, _, _, _) => DecodeExecute(m, rest);
  }

  // ----- The layout, byte by byte -----

  /** Four bytes, least significant first. */
  function Quad(b: seq<Byte>, at: nat): nat
    requires at + 4 <= |b|
  {
    var b0: nat, b1: nat, b2: nat, b3: nat := b[at], b[at + 1], b[at + 2], b[at + 3];
    b0 + 0x100 * b1 + 0x1_0000 * b2 + 0x100_0000 * b3
  }

  function Oct(b: seq<Byte>, at: nat): Word
    requires at + 8 <= |b|
  {
    Quad(b, at) + 0x1_0000_0000 * Quad(b, at + 4)
  }

  /** Two's complement. */
  function Int(b: seq<Byte>, at: nat): int
    requires at + 4 <= |b|
  {
    Quad(b, at) - if b[at + 3] >= 0x80 then 0x1_0000_0000 else 0
  }

  lemma NumberFour(s: seq<Byte>)
    requires |s| >= 4
    ensures Number(s) == Quad(s, 0) + 0x1_0000_0000 * Number(s[4..])
  {
    assert s[1..][1..] == s[2..] && s[2..][1..] == s[3..] && s[3..][1..] == s[4..];
    assert Number(s[3..]) == s[3] + 256 * Number(s[4..]);
    assert Number(s[2..]) == s[2] + 256 * Number(s[3..]);
    assert Number(s[1..]) == s[1] + 256 * Number(s[2..]);
  }

  lemma ReadsQuad(b: seq<Byte>, at: nat)
    requires at + 4 <= |b|
    ensures Field(b, at, 4) == Quad(b, at) && Field32(b, at) == Int(b, at)
  {
    var s := b[at..at + 4];
    NumberFour(s);
    assert s[4..] == [];
  }

  lemma ReadsOct(b: seq<Byte>, at: nat)
    requires at + 8 <= |b|
    ensures Field64(b, at) == Oct(b, at)
  {
    var s := b[at..at + 8];
    NumberFour(s);
    NumberFour(s[4..]);
    assert s[4..][4..] == [];
    assert Quad(s, 0) == Quad(b, at) && Quad(s[4..], 0) == Quad(b, at + 4);
    DivModUnique(Oct(b, at), WORD, 0, Oct(b, at));
  }

  /** Where every field of the three packed structs stands, and how its bytes are read. */
  lemma Layout(b: seq<Byte>)
    ensures |b| >= 34 && b[0] as char == 'A' ==>
      Decode(b) == Add(Oct(b, 1), Oct(b, 9), Oct(b, 17), b[25] as char, Int(b, 26), Int(b, 30))
    ensures |b| >= 29 && b[0] as char == 'X' ==>
      Decode(b) == Cancel(Oct(b, 1), Oct(b, 9), Oct(b, 17), Int(b, 25))
    ensures |b| >= 33 && b[0] as char == 'E' ==>
      Decode(b) == Execute(Oct(b, 1), Oct(b, 9), Oct(b, 17), Int(b, 25), Int(b, 29))
  {
    if |b| >= 29 {
      ReadsOct(b, 1);
      ReadsOct(b, 9);
      ReadsOct(b, 17);
      ReadsQuad(b, 25);
      if |b| >= 33 {
        ReadsQuad(b, 29);
      }
      if |b| >= 34 {
        ReadsQuad(b, 26);
        ReadsQuad(b, 30);
      }
    }
  }

  /** The first field error of a decoded message, in the order the fields are checked. */
  ghost predicate Refuses(m: Message, r: ValidationResult) {
    match m
    case Add(_, _, _, side, price, quantity) =>
      && (r.InvalidSide? <==> side != 'B' && side != 'S')
      && (r.InvalidPrice? <==> (side == 'B' || side == 'S') && price <= 0)
      && (r.InvalidQuantity? <==> (side == 'B' || side == 'S') && price > 0 && quantity <= 0)
    case Cancel(_, _, _, quantity) => !r.InvalidSide? && !r.InvalidPrice? && (r.InvalidQuantity? <==> quantity < 0)
    case Execute(_, _, _, execQuantity, matchPrice) =>
      && !r.InvalidSide?
      && (r.InvalidQuantity? <==> execQuantity <= 0)
      && (r.InvalidPrice? <==> execQuantity > 0 && matchPrice <= 0)
    case Other(_, _) => false
  }

  /** `validateAndParse`: length checks by type byte, then field checks in the source's order. */
  method ValidateAndParse(buffer: seq<Byte>) returns (result: ValidationResult, outMsg: Message)
    ensures result.TruncatedHeader? <==> buffer == []
    ensures result.UnknownMessageType? <==> buffer != [] && ExpectedSize(buffer[0] as char) == 0
    ensures result.LengthMismatch? <==> buffer != [] && 0 < |buffer| < ExpectedSize(buffer[0] as char)
    ensures buffer != [] && 0 < ExpectedSize(buffer[0] as char) <= |buffer| ==>
      && outMsg == Decode(buffer)
      && (result.Valid? <==> outMsg.IsValid())
      && Refuses(outMsg, result)
  {
    outMsg := BLANK;
    if |buffer| < 1 {
      return TruncatedHeader, outMsg;
    }
    var reqSize := ExpectedSize(buffer[0] as char);
    if reqSize == 0 {
      return UnknownMessageType, outMsg;
    }
    if |buffer| < reqSize {
      return LengthMismatch, outMsg;
    }
    outMsg := Decode(buffer);
    match outMsg {
    case Add(_, _, _, side, price, quantity) =>
      if side != 'B' && side != 'S' {
        return InvalidSide, outMsg;
      }
      if price <= 0 {
        return InvalidPrice, outMsg;
      }
      if quantity <= 0 {
        return InvalidQuantity, outMsg;
      }
    case Cancel(_, _, _, quantity) =>
      if quantity < 0 {
        return InvalidQuantity, outMsg;
      }
    case Execute(_, _, _, execQuantity, matchPrice) =>
      if execQuantity <= 0 {
        return InvalidQuantity, outMsg;
      }
      if matchPrice <= 0 {
        return InvalidPrice, outMsg;
      }
    case Other(_, _) =>
    }
    return ValidationResult.Valid, outMsg;
  }
}

/** services/kova-ledger/src/statement.rs, the cursor: 8 bytes of big-endian microseconds
    and 16 bytes of entry id, in base64, and the way back to a timestamp. */
module Cursor {
  import opened Common
  import Base64

  const I64_LIMIT: int := 0x8000_0000_0000_0000
  const U64_LIMIT: int := 0x1_0000_0000_0000_0000

  /** chrono's representable seconds: years -262143 to 262142. */
  const MIN_SECONDS: int := -8_334_601_228_800
  const MAX_SECONDS: int := 8_210_266_876_799

  datatype Position = Position(micros: int, id: Id)

  // ---- Bytes of an i64 ------------------------------------------------------

  function Pow256(n: nat): (p: nat)
    ensures p > 0
  {
    if n == 0 then 1 else 256 * Pow256(n - 1)
  }

  lemma Pow256Of8()
    ensures Pow256(8) == U64_LIMIT
  {
    assert Pow256(2) == 65536;
    assert Pow256(4) == 0x1_0000_0000;
    assert Pow256(6) == 0x1_0000_0000_0000;
  }

  function BigEndian(u: nat, n: nat): (b: seq<Byte>)
    ensures |b| == n
  {
    if n == 0 then [] else BigEndian(u / 256, n - 1) + [u % 256]
  }

  function FromBigEndian(b: seq<Byte>): (u: nat) {
    if |b| == 0 then 0 else FromBigEndian(b[..|b| - 1]) * 256 + b[|b| - 1]
  }

  lemma {:induction false} BigEndianRoundTrip(u: nat, n: nat)
    requires u < Pow256(n)
    ensures FromBigEndian(BigEndian(u, n)) == u
    decreases n
  {
    if n > 0 {
      BigEndianRoundTrip(u / 256, n - 1);
      var b := BigEndian(u, n);
      assert b[..n - 1] == BigEndian(u / 256, n - 1);
    }
  }

  lemma {:induction false} FromBigEndianRoundTrip(b: seq<Byte>)
    ensures FromBigEndian(b) < Pow256(|b|)
    ensures BigEndian(FromBigEndian(b), |b|) == b
    decreases |b|
  {
    if |b| > 0 {
      FromBigEndianRoundTrip(b[..|b| - 1]);
      assert b == b[..|b| - 1] + [b[|b| - 1]];
    }
  }

  predicate IsI64(x: int) {
    -I64_LIMIT <= x < I64_LIMIT
  }

  /** i64::to_be_bytes: two's complement, most significant byte first. */
  function ToBeBytes(x: int): (b: seq<Byte>)
    ensures |b| == 8
  {
    BigEndian(x % U64_LIMIT, 8)
  }

  function FromBeBytes(b: seq<Byte>): (x: int)
    requires |b| == 8
    ensures IsI64(x)
  {
    FromBigEndianRoundTrip(b);
    Pow256Of8();
    var u := FromBigEndian(b);
    if u < I64_LIMIT then u else u - U64_LIMIT
  }

  lemma BeBytesRoundTrip(x: int)
    requires IsI64(x)
    ensures FromBeBytes(ToBeBytes(x)) == x
  {
    Pow256Of8();
    BigEndianRoundTrip(x % U64_LIMIT, 8);
    assert x % U64_LIMIT == if x < 0 then x + U64_LIMIT else x;
  }

  lemma FromBeBytesRoundTrip(b: seq<Byte>)
    requires |b| == 8
    ensures ToBeBytes(FromBeBytes(b)) == b
  {
    Pow256Of8();
    FromBigEndianRoundTrip(b);
    var u := FromBigEndian(b);
    assert FromBeBytes(b) % U64_LIMIT == u;
  }

  // ---- The cursor text ------------------------------------------------------

  /** The text of a position: what encode_cursor must return. */
  function CursorText(p: Position): (s: string)
    ensures |s| == 32
  {
    Base64.Encode(ToBeBytes(p.micros) + p.id)
  }

  /** What decode_cursor must return. */
  function ParseCursor(s: string): (r: Result<Position>)
    ensures r.Ok? ==> IsI64(r.value.micros)
  {
    match Base64.Decode(s)
    case None => Err(InvalidArgument)
    case Some(b) => if |b| != 24 then Err(InvalidArgument) else Ok(Position(FromBeBytes(b[..8]), b[8..]))
  }

  method EncodeCursor(micros: int, id: Id) returns (s: string)
    ensures s == CursorText(Position(micros, id))
  {
    var bytes := ToBeBytes(micros);
    var buf := new Byte[24](i => 0);
    forall i | 0 <= i < 8 {
      buf[i] := bytes[i];
    }
    forall i | 8 <= i < 24 {
      buf[i] := id[i - 8];
    }
    assert buf[..] == bytes + id;
    s := Base64.Encode(buf[..]);
  }

  method DecodeCursor(cursor: string) returns (r: Result<Position>)
    ensures r == ParseCursor(cursor)
  {
    var decoded := Base64.Decode(cursor);
    if decoded.None? {
      return Err(InvalidArgument);
    }
    var bytes := decoded.value;
    if |bytes| != 24 {
      return Err(InvalidArgument);
    }
    var micros := FromBeBytes(bytes[0..8]);
    var buf := new Byte[16](i => 0);
    forall i | 0 <= i < 16 {
      buf[i] := bytes[8 + i];
    }
    assert buf[..] == bytes[8..];
    assert bytes[0..8] == bytes[..8];
    var id: Id := buf[..];
    r := Ok(Position(micros, id));
  }

  /** Decoding inverts encoding for every i64 and every id. */
  lemma CursorRoundTrip(p: Position)
    requires IsI64(p.micros)
    ensures ParseCursor(CursorText(p)) == Ok(p)
  {
    var b := ToBeBytes(p.micros) + p.id;
    Base64.DecodeEncode(b);
    assert b[..8] == ToBeBytes(p.micros) && b[8..] == p.id;
    BeBytesRoundTrip(p.micros);
  }

  /** The number eight bytes stand for, the first the most significant. */
  function Number(b: seq<Byte>): int
    requires |b| == 8
  {
    ((((((b[0] as int * 256 + b[1]) * 256 + b[2]) * 256 + b[3]) * 256 + b[4]) * 256 + b[5]) * 256 + b[6]) * 256 + b[7]
  }

  lemma {:induction false} HornerStep(b: seq<Byte>, n: nat)
    requires n < |b|
    ensures FromBigEndian(b[..n + 1]) == FromBigEndian(b[..n]) * 256 + b[n]
  {
    assert b[..n + 1][..n] == b[..n];
  }

  /** What a cursor says, byte by byte: the microseconds in two's complement, then the id. */
  lemma CursorBytes(p: Position)
    requires IsI64(p.micros)
    ensures var b := Base64.Decode(CursorText(p));
      && b.Some? && |b.value| == 24 && b.value[8..] == p.id
      && Number(b.value[..8]) == if p.micros < 0 then p.micros + 18_446_744_073_709_551_616 else p.micros
  {
    var head := ToBeBytes(p.micros);
    Base64.DecodeEncode(head + p.id);
    HeadAndTail(head, p.id);
    BytesAreNumber(p.micros);
  }

  lemma HeadAndTail(head: seq<Byte>, id: Id)
    requires |head| == 8
    ensures (head + id)[..8] == head && (head + id)[8..] == id
  {
  }

  lemma BytesAreNumber(x: int)
    requires IsI64(x)
    ensures Number(ToBeBytes(x)) == if x < 0 then x + 18_446_744_073_709_551_616 else x
  {
    Pow256Of8();
    BigEndianRoundTrip(x % U64_LIMIT, 8);
    EightSteps(ToBeBytes(x));
    assert x % U64_LIMIT == if x < 0 then x + U64_LIMIT else x;
  }

  lemma FourSteps(b: seq<Byte>)
    requires |b| >= 4
    ensures FromBigEndian(b[..4]) == ((b[0] as int * 256 + b[1]) * 256 + b[2]) * 256 + b[3]
  {
    HornerStep(b, 0);
    HornerStep(b, 1);
    HornerStep(b, 2);
    HornerStep(b, 3);
  }

  lemma EightSteps(b: seq<Byte>)
    requires |b| == 8
    ensures FromBigEndian(b) == Number(b)
  {
    FourSteps(b);
    HornerStep(b, 4);
    HornerStep(b, 5);
    HornerStep(b, 6);
    HornerStep(b, 7);
    assert b[..8] == b;
  }

  /** A text is accepted exactly when it is the cursor of some position, and then of the
      one it decodes to: no two texts stand for the same position. */
  lemma CursorIsCanonical(s: string, p: Position)
    ensures ParseCursor(s) == Ok(p) <==> IsI64(p.micros) && s == CursorText(p)
  {
    if ParseCursor(s) == Ok(p) {
      var b := Base64.Decode(s).value;
      Base64.EncodeDecode(s);
      FromBeBytesRoundTrip(b[..8]);
      assert b == b[..8] + b[8..];
    }
    if IsI64(p.micros) && s == CursorText(p) {
      CursorRoundTrip(p);
    }
  }

  /** Encoding the cursor a second time, as the account service does before handing it to
      its own clients, gives a text the ledger refuses. */
  lemma ReencodedCursorIsRefused(p: Position, wire: seq<Byte>)
    requires |wire| == |CursorText(p)|
    requires forall i :: 0 <= i < |wire| ==> wire[i] == CursorText(p)[i] as int
    ensures ParseCursor(Base64.Encode(wire)) == Err(InvalidArgument)
  {
    Base64.DecodeEncode(wire);
  }

  // ---- Back to a timestamp --------------------------------------------------

  /** Division and remainder of i64, truncating toward zero. */
  function TruncDiv(a: int, b: int): int
    requires b > 0
  {
    if a >= 0 then a / b else -(-a / b)
  }

  function TruncRem(a: int, b: int): int
    requires b > 0
  {
    a - b * TruncDiv(a, b)
  }

  /** DateTime::from_timestamp, in microseconds: fails outside chrono's years and for a
      nanosecond part of two seconds or more, or of one second or more except in the last
      second of a minute. */
  function FromTimestamp(seconds: int, nanos: nat): Option<int> {
    if !(MIN_SECONDS <= seconds <= MAX_SECONDS) then None
    else if nanos >= 2_000_000_000 || (nanos >= 1_000_000_000 && seconds % 60 != 59) then None
    else Some(seconds * 1_000_000 + nanos / 1000)
  }

  /** The time a decoded cursor is compared with. The cast to u32 wraps a negative
      remainder, and a failed conversion falls back to 1970. */
  function MicrosToNaive(micros: int): int {
    var seconds := TruncDiv(micros, 1_000_000);
    var sub := TruncRem(micros, 1_000_000);
    match FromTimestamp(seconds, sub * 1000 % 0x1_0000_0000)
    case None => 0
    case Some(t) => t
  }

  /** The times a cursor carries faithfully: inside chrono's years, and from 1970 on or
      on a whole second. */
  predicate Faithful(micros: int) {
    && -8_334_601_228_800_000_000 <= micros < 8_210_266_876_800_000_000
    && (micros >= 0 || micros % 1_000_000 == 0)
  }

  lemma Parts(micros: int)
    ensures var q, r := TruncDiv(micros, 1_000_000), TruncRem(micros, 1_000_000);
      && micros == q * 1_000_000 + r && (micros >= 0 ==> 0 <= r < 1_000_000) && (micros < 0 ==> -1_000_000 < r <= 0)
      && (r == 0 <==> micros % 1_000_000 == 0)
  {
    var a := if micros < 0 then -micros else micros;
    assert a == a / 1_000_000 * 1_000_000 + a % 1_000_000;
  }

  /** The conversion gives the time back exactly for those times. */
  lemma MicrosToNaiveExact(micros: int)
    ensures MicrosToNaive(micros) == micros <==> Faithful(micros)
    ensures !Faithful(micros) ==> MicrosToNaive(micros) == 0
  {
    Parts(micros);
    var q, r := TruncDiv(micros, 1_000_000), TruncRem(micros, 1_000_000);
    if r < 0 {
      assert r * 1000 % 0x1_0000_0000 == r * 1000 + 0x1_0000_0000;
    } else {
      assert r * 1000 % 0x1_0000_0000 == r * 1000;
      assert r * 1000 / 1000 == r;
    }
  }
}

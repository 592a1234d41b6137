/** Standard base64 (section 4 of RFC 4648): padded, canonical, and rejecting non-zero
    trailing bits, as the STANDARD engine used for cursors does. */
module Base64 {
  import opened Common

  function CharOf(v: nat): (c: char)
    requires v < 64
    ensures ValueOf(c) == Some(v)
    ensures c != '='
  {
    if v < 26 then 'A' + v as char
    else if v < 52 then 'a' + (v - 26) as char
    else if v < 62 then '0' + (v - 52) as char
    else if v == 62 then '+'
    else '/'
  }

  function ValueOf(c: char): (v: Option<nat>)
    ensures v.Some? ==> v.value < 64
  {
    if 'A' <= c <= 'Z' then Some(c as int - 'A' as int)
    else if 'a' <= c <= 'z' then Some(c as int - 'a' as int + 26)
    else if '0' <= c <= '9' then Some(c as int - '0' as int + 52)
    else if c == '+' then Some(62)
    else if c == '/' then Some(63)
    else None
  }

  const ALPHABET: string := "ABCDEFGHIJKLMNOPQRSTUVWXYZ" + "abcdefghijklmnopqrstuvwxyz" + "0123456789+/"

  /** Table 1 of RFC 4648. */
  lemma CharsAreTheAlphabet(v: nat)
    requires v < 64
    ensures CharOf(v) == ALPHABET[v]
  {
    assert "ABCDEFGHIJKLMNOPQRSTUVWXYZ" == seq(26, i requires 0 <= i < 26 => 'A' + i as char);
    assert "abcdefghijklmnopqrstuvwxyz" == seq(26, i requires 0 <= i < 26 => 'a' + i as char);
    assert "0123456789+/" == seq(10, i requires 0 <= i < 10 => '0' + i as char) + ['+', '/'];
  }

  function ByteAt(b: seq<Byte>, i: nat): nat {
    if i < |b| then b[i] else 0
  }

  lemma SameNumber(b0: nat, b1: nat, b2: nat)
    requires b0 < 256 && b1 < 256 && b2 < 256
    ensures var v0, v1, v2, v3 := b0 / 4, b0 % 4 * 16 + b1 / 16, b1 % 16 * 4 + b2 / 64, b2 % 64;
      && v0 < 64 && v1 < 64 && v2 < 64 && v3 < 64
      && 65_536 * b0 + 256 * b1 + b2 == v0 * 262_144 + v1 * 4_096 + v2 * 64 + v3
  {
  }

  /** Section 4 of RFC 4648: three bytes are a number of 24 bits, and its four digits to base 64
      are the characters. Missing bytes count as zero and their characters are '='. */
  lemma EncodeMeans(b: seq<Byte>) returns (v0: nat, v1: nat, v2: nat, v3: nat)
    requires |b| > 0
    ensures v0 < 64 && v1 < 64 && v2 < 64 && v3 < 64
    ensures 65_536 * ByteAt(b, 0) + 256 * ByteAt(b, 1) + ByteAt(b, 2)
         == v0 * 262_144 + v1 * 4_096 + v2 * 64 + v3
    ensures Encode(b)[..4] == [ALPHABET[v0], ALPHABET[v1], if |b| > 1 then ALPHABET[v2] else '=',
                               if |b| > 2 then ALPHABET[v3] else '=']
    ensures Encode(b)[4..] == Encode(if |b| > 3 then b[3..] else [])
  {
    var b1, b2 := ByteAt(b, 1), ByteAt(b, 2);
    v0, v1, v2, v3 := b[0] / 4, b[0] % 4 * 16 + b1 / 16, b1 % 16 * 4 + b2 / 64, b2 % 64;
    SameNumber(b[0], b1, b2);
    EncodeStep(b, v0, v1, v2, v3);
    CharsAreTheAlphabet(v0);
    CharsAreTheAlphabet(v1);
    CharsAreTheAlphabet(v2);
    CharsAreTheAlphabet(v3);
  }

  lemma EncodeStep(b: seq<Byte>, v0: nat, v1: nat, v2: nat, v3: nat)
    requires |b| > 0 && v0 < 64 && v1 < 64 && v2 < 64 && v3 < 64
    requires v0 == b[0] / 4 && v1 == b[0] % 4 * 16 + ByteAt(b, 1) / 16
    requires v2 == ByteAt(b, 1) % 16 * 4 + ByteAt(b, 2) / 64 && v3 == ByteAt(b, 2) % 64
    ensures Encode(b)[..4] == [CharOf(v0), CharOf(v1), if |b| > 1 then CharOf(v2) else '=',
                               if |b| > 2 then CharOf(v3) else '=']
    ensures Encode(b)[4..] == Encode(if |b| > 3 then b[3..] else [])
  {
  }

  lemma CharOfValue(c: char)
    ensures ValueOf(c).Some? ==> CharOf(ValueOf(c).value) == c
  {
  }

  function Encode(b: seq<Byte>): (s: string)
    ensures |s| == (|b| + 2) / 3 * 4
    decreases |b|
  {
    if |b| == 0 then ""
    else if |b| == 1 then
      [CharOf(b[0] / 4), CharOf(b[0] % 4 * 16), '=', '=']
    else if |b| == 2 then
      [CharOf(b[0] / 4), CharOf(b[0] % 4 * 16 + b[1] / 16), CharOf(b[1] % 16 * 4), '=']
    else
      [CharOf(b[0] / 4), CharOf(b[0] % 4 * 16 + b[1] / 16), CharOf(b[1] % 16 * 4 + b[2] / 64), CharOf(b[2] % 64)]
      + Encode(b[3..])
  }

  /** The bytes of one group of four characters. Padding is allowed in the last group. */
  function DecodeGroup(s: string, last: bool): Option<seq<Byte>>
    requires |s| == 4
  {
    var v0, v1, v2, v3 := ValueOf(s[0]), ValueOf(s[1]), ValueOf(s[2]), ValueOf(s[3]);
    if v0.None? || v1.None? then None
    else if last && s[2] == '=' && s[3] == '=' then
      if v1.value % 16 != 0 then None else Some([v0.value * 4 + v1.value / 16])
    else if v2.None? then None
    else if last && s[3] == '=' then
      if v2.value % 4 != 0 then None
      else Some([v0.value * 4 + v1.value / 16, v1.value % 16 * 16 + v2.value / 4])
    else if v3.None? then None
    else Some([v0.value * 4 + v1.value / 16, v1.value % 16 * 16 + v2.value / 4, v2.value % 4 * 64 + v3.value])
  }

  function Decode(s: string): Option<seq<Byte>>
    decreases |s|
  {
    if |s| == 0 then Some([])
    else if |s| < 4 then None
    else
      match DecodeGroup(s[..4], |s| == 4)
      case None => None
      case Some(head) =>
        match Decode(s[4..])
        case None => None
        case Some(tail) => Some(head + tail)
  }

  /** The four sextets v0 to v3 are the 24 bits of the three bytes b0 to b2. */
  predicate SameBits(b0: Byte, b1: Byte, b2: Byte, v0: nat, v1: nat, v2: nat, v3: nat) {
    && v0 == b0 / 4 && v1 == b0 % 4 * 16 + b1 / 16 && v2 == b1 % 16 * 4 + b2 / 64 && v3 == b2 % 64
  }

  lemma JoinCut(b0: Byte, b1: Byte, b2: Byte, v0: nat, v1: nat, v2: nat, v3: nat)
    requires SameBits(b0, b1, b2, v0, v1, v2, v3)
    ensures v0 < 64 && v1 < 64 && v2 < 64 && v3 < 64
    ensures b0 == v0 * 4 + v1 / 16 && b1 == v1 % 16 * 16 + v2 / 4 && b2 == v2 % 4 * 64 + v3
  {
  }

  lemma CutJoin(b0: Byte, b1: Byte, b2: Byte, v0: nat, v1: nat, v2: nat, v3: nat)
    requires v0 < 64 && v1 < 64 && v2 < 64 && v3 < 64
    requires b0 == v0 * 4 + v1 / 16 && b1 == v1 % 16 * 16 + v2 / 4 && b2 == v2 % 4 * 64 + v3
    ensures SameBits(b0, b1, b2, v0, v1, v2, v3)
  {
  }

  lemma EncodeThree(b: seq<Byte>, v0: nat, v1: nat, v2: nat, v3: nat)
    requires |b| == 3 && SameBits(b[0], b[1], b[2], v0, v1, v2, v3)
    requires v0 < 64 && v1 < 64 && v2 < 64 && v3 < 64
    ensures Encode(b) == [CharOf(v0), CharOf(v1), CharOf(v2), CharOf(v3)]
  {
    assert Encode(b[3..]) == "";
  }

  lemma EncodeTwo(b: seq<Byte>, v0: nat, v1: nat, v2: nat)
    requires |b| == 2 && SameBits(b[0], b[1], 0, v0, v1, v2, 0)
    requires v0 < 64 && v1 < 64 && v2 < 64
    ensures Encode(b) == [CharOf(v0), CharOf(v1), CharOf(v2), '=']
  {
    assert v2 == b[1] % 16 * 4;
  }

  lemma EncodeOne(b: seq<Byte>, v0: nat, v1: nat)
    requires |b| == 1 && SameBits(b[0], 0, 0, v0, v1, 0, 0)
    requires v0 < 64 && v1 < 64
    ensures Encode(b) == [CharOf(v0), CharOf(v1), '=', '=']
  {
    assert v1 == b[0] % 4 * 16;
  }

  lemma DecodeOne(s: string, v0: nat, v1: nat)
    requires v0 < 64 && v1 < 64 && v1 % 16 == 0
    requires s == [CharOf(v0), CharOf(v1), '=', '=']
    ensures DecodeGroup(s, true) == Some([v0 * 4 + v1 / 16])
  {
    assert ValueOf(s[0]) == Some(v0) && ValueOf(s[1]) == Some(v1);
  }

  lemma DecodeThree(s: string, last: bool, v0: nat, v1: nat, v2: nat, v3: nat)
    requires v0 < 64 && v1 < 64 && v2 < 64 && v3 < 64
    requires s == [CharOf(v0), CharOf(v1), CharOf(v2), CharOf(v3)]
    ensures DecodeGroup(s, last) == Some(Joined(v0, v1, v2, v3))
  {
    assert ValueOf(s[0]) == Some(v0) && ValueOf(s[1]) == Some(v1);
    assert ValueOf(s[2]) == Some(v2) && ValueOf(s[3]) == Some(v3);
  }

  lemma DecodeTwo(s: string, v0: nat, v1: nat, v2: nat)
    requires v0 < 64 && v1 < 64 && v2 < 64 && v2 % 4 == 0
    requires s == [CharOf(v0), CharOf(v1), CharOf(v2), '=']
    ensures DecodeGroup(s, true) == Some([v0 * 4 + v1 / 16, v1 % 16 * 16 + v2 / 4])
  {
    assert ValueOf(s[0]) == Some(v0) && ValueOf(s[1]) == Some(v1) && ValueOf(s[2]) == Some(v2);
  }

  /** The three bytes that four sextets make. */
  function Joined(v0: nat, v1: nat, v2: nat, v3: nat): (b: seq<Byte>)
    requires v0 < 64 && v1 < 64 && v2 < 64 && v3 < 64
    ensures |b| == 3
  {
    [v0 * 4 + v1 / 16, v1 % 16 * 16 + v2 / 4, v2 % 4 * 64 + v3]
  }

  lemma GroupOfThree(b: seq<Byte>, last: bool, v0: nat, v1: nat, v2: nat, v3: nat)
    requires |b| == 3 && SameBits(b[0], b[1], b[2], v0, v1, v2, v3)
    ensures v0 < 64 && v1 < 64 && v2 < 64 && v3 < 64
    ensures Encode(b) == [CharOf(v0), CharOf(v1), CharOf(v2), CharOf(v3)]
    ensures DecodeGroup(Encode(b), last) == Some(b)
  {
    JoinCut(b[0], b[1], b[2], v0, v1, v2, v3);
    EncodeThree(b, v0, v1, v2, v3);
    DecodeThree(Encode(b), last, v0, v1, v2, v3);
    JoinedIs(b, v0, v1, v2, v3);
  }

  lemma JoinedIs(b: seq<Byte>, v0: nat, v1: nat, v2: nat, v3: nat)
    requires |b| == 3 && v0 < 64 && v1 < 64 && v2 < 64 && v3 < 64
    requires b[0] == v0 * 4 + v1 / 16 && b[1] == v1 % 16 * 16 + v2 / 4 && b[2] == v2 % 4 * 64 + v3
    ensures b == Joined(v0, v1, v2, v3)
  {
  }

  lemma GroupOfTwo(b: seq<Byte>, v0: nat, v1: nat, v2: nat)
    requires |b| == 2 && SameBits(b[0], b[1], 0, v0, v1, v2, 0)
    ensures v0 < 64 && v1 < 64 && v2 < 64
    ensures Encode(b) == [CharOf(v0), CharOf(v1), CharOf(v2), '=']
    ensures DecodeGroup(Encode(b), true) == Some(b)
  {
    JoinCut(b[0], b[1], 0, v0, v1, v2, 0);
    EncodeTwo(b, v0, v1, v2);
    DecodeTwo(Encode(b), v0, v1, v2);
    assert b == [b[0], b[1]];
  }

  lemma GroupOfOne(b: seq<Byte>, v0: nat, v1: nat)
    requires |b| == 1 && SameBits(b[0], 0, 0, v0, v1, 0, 0)
    ensures v0 < 64 && v1 < 64
    ensures Encode(b) == [CharOf(v0), CharOf(v1), '=', '=']
    ensures DecodeGroup(Encode(b), true) == Some(b)
  {
    JoinCut(b[0], 0, 0, v0, v1, 0, 0);
    EncodeOne(b, v0, v1);
    DecodeOne(Encode(b), v0, v1);
    assert b == [b[0]];
  }

  lemma GroupRoundTrip(b: seq<Byte>, last: bool)
    requires |b| == 3 || (last && 1 <= |b| <= 2)
    ensures |Encode(b)| == 4 && DecodeGroup(Encode(b), last) == Some(b)
  {
    if |b| == 1 {
      GroupOfOne(b, b[0] / 4, b[0] % 4 * 16);
    } else if |b| == 2 {
      GroupOfTwo(b, b[0] / 4, b[0] % 4 * 16 + b[1] / 16, b[1] % 16 * 4);
    } else {
      GroupOfThree(b, last, b[0] / 4, b[0] % 4 * 16 + b[1] / 16, b[1] % 16 * 4 + b[2] / 64, b[2] % 64);
    }
  }

  /** Decoding an encoding gives the bytes back. */
  lemma {:induction false} DecodeEncode(b: seq<Byte>)
    ensures Decode(Encode(b)) == Some(b)
    decreases |b|
  {
    if |b| == 0 {
    } else if |b| <= 2 {
      GroupRoundTrip(b, true);
      assert Encode(b)[..4] == Encode(b);
      assert Encode(b)[4..] == "";
      assert Decode("") == Some([]);
      assert b + [] == b;
    } else {
      var s := Encode(b);
      assert b[..3][3..] == [];
      assert s[..4] == Encode(b[..3]);
      assert s[4..] == Encode(b[3..]);
      GroupRoundTrip(b[..3], |s| == 4);
      DecodeEncode(b[3..]);
      assert b == b[..3] + b[3..];
    }
  }

  lemma GroupCanonical(s: string, last: bool)
    requires |s| == 4 && DecodeGroup(s, last).Some?
    ensures var b := DecodeGroup(s, last).value;
      && 1 <= |b| <= 3 && (!last ==> |b| == 3)
      && Encode(b) == s
  {
    CharOfValue(s[0]);
    CharOfValue(s[1]);
    CharOfValue(s[2]);
    CharOfValue(s[3]);
    var b := DecodeGroup(s, last).value;
    var v0, v1 := ValueOf(s[0]).value, ValueOf(s[1]).value;
    if |b| == 1 {
      CutJoin(b[0], 0, 0, v0, v1, 0, 0);
      GroupOfOne(b, v0, v1);
    } else {
      var v2 := ValueOf(s[2]).value;
      if |b| == 2 {
        CutJoin(b[0], b[1], 0, v0, v1, v2, 0);
        GroupOfTwo(b, v0, v1, v2);
      } else {
        var v3 := ValueOf(s[3]).value;
        CutJoin(b[0], b[1], b[2], v0, v1, v2, v3);
        GroupOfThree(b, last, v0, v1, v2, v3);
      }
    }
  }

  lemma EncodeWholeGroup(head: seq<Byte>, tail: seq<Byte>)
    requires |head| == 3
    ensures Encode(head + tail) == Encode(head) + Encode(tail)
  {
    assert (head + tail)[3..] == tail;
    assert Encode(head[3..]) == "";
  }

  /** Every accepted text is the encoding of what it decodes to. */
  lemma {:induction false} EncodeDecode(s: string)
    requires Decode(s).Some?
    ensures Encode(Decode(s).value) == s
    decreases |s|
  {
    if |s| > 0 {
      var head := DecodeGroup(s[..4], |s| == 4).value;
      var tail := Decode(s[4..]).value;
      GroupCanonical(s[..4], |s| == 4);
      assert s == s[..4] + s[4..];
      if |s| == 4 {
        assert tail == [];
        assert head + tail == head;
      } else {
        EncodeDecode(s[4..]);
        EncodeWholeGroup(head, tail);
      }
    }
  }
}

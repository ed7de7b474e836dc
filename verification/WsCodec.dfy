/** Base64 (RFC 4648, section 4), WebSocket frames (RFC 6455, section 5.2) and the handshake
    answer (RFC 6455, section 4.2.2).  */
module WsCodec {
  import opened ByteOrder
  import opened Forests
  import opened Sha1Digest

  // ---- Base64 ----

  const UPPER: string := "ABCDEFGHIJKLMNOPQRSTUVWXYZ"
  const LOWER: string := "abcdefghijklmnopqrstuvwxyz"
  const DIGITS: string := "0123456789"
  const ALPHABET: string := UPPER + LOWER + DIGITS + "+/"

  /** RFC 4648, table 1: the value of a character of the alphabet. */
  function Value(c: char): Option<nat> {
    if 'A' <= c <= 'Z' then Some(c as nat - 65)
    else if 'a' <= c <= 'z' then Some(c as nat - 71)
    else if '0' <= c <= '9' then Some(c as nat + 4)
    else if c == '+' then Some(62)
    else if c == '/' then Some(63)
    else None
  }

  function Letter(v: nat): char
    requires v < 64
  {
    AlphabetSize();
    ALPHABET[v]
  }

  lemma AlphabetSize()
    ensures |ALPHABET| == 64
  {
  }

  lemma UpperAt(v: nat)
    requires v < 26
    ensures UPPER[v] as nat == 65 + v
  {
  }

  lemma LowerAt(v: nat)
    requires v < 26
    ensures LOWER[v] as nat == 97 + v
  {
  }

  lemma DigitAt(v: nat)
    requires v < 10
    ensures DIGITS[v] as nat == 48 + v
  {
  }

  /** The alphabet is the standard's table. */
  lemma AlphabetIsTable1(v: nat)
    requires v < 64
    ensures Value(Letter(v)) == Some(v) && Letter(v) != '='
  {
    if v < 26 {
      UpperAt(v);
    } else if v < 52 {
      LowerAt(v - 26);
    } else if v < 62 {
      DigitAt(v - 52);
    }
  }

  lemma ValueIsLetter(c: char)
    requires Value(c).Some?
    ensures Value(c).value < 64 && Letter(Value(c).value) == c
  {
    var v := Value(c).value;
    if v < 26 {
      UpperAt(v);
    } else if v < 52 {
      LowerAt(v - 26);
    } else if v < 62 {
      DigitAt(v - 52);
    }
  }

  /** The 24 bits of a group, missing bytes as zero. The shifted bytes do not overlap, so joining
      them is addition. */
  function Bits24(d: seq<nat>): (v: nat)
    requires 1 <= |d| <= 3
  {
    d[0] * 65536 + (if |d| > 1 then d[1] * 256 else 0) + (if |d| > 2 then d[2] else 0)
  }

  /** One group: up to three bytes as four characters, missing bytes as zero bits and padding. */
  function Group(d: seq<nat>): (s: string)
    requires 1 <= |d| <= 3 && IsBytes(d)
    ensures |s| == 4
  {
    var v := Bits24(d);
    [Letter(v / 262144 % 64), Letter(v / 4096 % 64),
     if |d| > 1 then Letter(v / 64 % 64) else '=',
     if |d| > 2 then Letter(v % 64) else '=']
  }

  function Encode(d: seq<nat>): (s: string)
    requires IsBytes(d)
    decreases |d|
  {
    if |d| == 0 then ""
    else if |d| <= 3 then Group(d)
    else Group(d[..3]) + Encode(d[3..])
  }

  /** RFC 4648: four characters back to bytes. Padding may only close the last group, and the
      bits it leaves unused must be zero. */
  function Ungroup(s: string, last: bool): Option<seq<nat>>
    requires |s| == 4
  {
    var a, b, c, d := Value(s[0]), Value(s[1]), Value(s[2]), Value(s[3]);
    if a.None? || b.None? then None
    else if s[2] == '=' then
      if last && s[3] == '=' && b.value % 16 == 0 then Some([a.value * 4 + b.value / 16]) else None
    else if c.None? then None
    else if s[3] == '=' then
      if last && c.value % 4 == 0 then Some([a.value * 4 + b.value / 16, b.value % 16 * 16 + c.value / 4]) else None
    else if d.None? then None
    else Some([a.value * 4 + b.value / 16, b.value % 16 * 16 + c.value / 4, c.value % 4 * 64 + d.value])
  }

  function Decode(s: string): Option<seq<nat>>
    decreases |s|
  {
    if |s| == 0 then Some([])
    else if |s| < 4 then None
    else
      match Ungroup(s[..4], |s| == 4)
      case None => None
      case Some(head) =>
        match Decode(s[4..])
        case None => None
        case Some(tail) => Some(head + tail)
  }

  /** Four six-bit digits can be read back out of the 24-bit value. */
  lemma SixBitDigits(v: nat, a: nat, b: nat, c: nat, e: nat)
    requires v == a * 262144 + b * 4096 + c * 64 + e && a < 64 && b < 64 && c < 64 && e < 64
    ensures v / 262144 % 64 == a && v / 4096 % 64 == b && v / 64 % 64 == c && v % 64 == e
  {
    assert v / 64 == a * 4096 + b * 64 + c;
    assert v / 4096 == a * 64 + b;
    assert v / 262144 == a;
  }

  /** Three bytes as four six-bit digits. */
  lemma ThreeBytes(x: nat, y: nat, z: nat)
    requires x < 256 && y < 256 && z < 256
    ensures x * 65536 + y * 256 + z ==
            (x / 4) * 262144 + (x % 4 * 16 + y / 16) * 4096 + (y % 16 * 4 + z / 64) * 64 + z % 64
    ensures x / 4 < 64 && x % 4 * 16 + y / 16 < 64 && y % 16 * 4 + z / 64 < 64 && z % 64 < 64
  {
    assert x == 4 * (x / 4) + x % 4 && y == 16 * (y / 16) + y % 16 && z == 64 * (z / 64) + z % 64;
  }

  /** A group decodes to its bytes. */
  lemma GroupRoundTrip(d: seq<nat>, last: bool)
    requires 1 <= |d| <= 3 && IsBytes(d) && (|d| < 3 ==> last)
    ensures Ungroup(Group(d), last) == Some(d)
  {
    hide Letter, Value, Bits24, Group;
    var x, y, z := d[0], if |d| > 1 then d[1] else 0, if |d| > 2 then d[2] else 0;
    var a, b, c, e := x / 4, x % 4 * 16 + y / 16, y % 16 * 4 + z / 64, z % 64;
    GroupLetters(d, x, y, z);
    AlphabetIsTable1(a);
    AlphabetIsTable1(b);
    AlphabetIsTable1(c);
    AlphabetIsTable1(e);
    BytesOfDigits(x, y, z);
    PaddingIsNoDigit();
    if |d| == 1 {
      assert d == [x];
    } else if |d| == 2 {
      assert d == [x, y];
    } else {
      assert d == [x, y, z];
    }
  }

  lemma PaddingIsNoDigit()
    ensures Value('=').None?
  {
  }

  lemma BytesOfDigits(x: nat, y: nat, z: nat)
    requires x < 256 && y < 256 && z < 256
    ensures var a, b, c, e := x / 4, x % 4 * 16 + y / 16, y % 16 * 4 + z / 64, z % 64;
            && a * 4 + b / 16 == x && b % 16 * 16 + c / 4 == y && c % 4 * 64 + e == z
            && (y == 0 ==> b % 16 == 0) && (z == 0 ==> c % 4 == 0)
  {
    var b, c := x % 4 * 16 + y / 16, y % 16 * 4 + z / 64;
    assert b / 16 == x % 4 && b % 16 == y / 16;
    assert c / 4 == y % 16 && c % 4 == z / 64;
  }

  lemma GroupLetters(d: seq<nat>, x: nat, y: nat, z: nat)
    requires 1 <= |d| <= 3 && IsBytes(d)
    requires x == d[0] && y == (if |d| > 1 then d[1] else 0) && z == if |d| > 2 then d[2] else 0
    ensures x / 4 < 64 && x % 4 * 16 + y / 16 < 64 && y % 16 * 4 + z / 64 < 64 && z % 64 < 64
    ensures Group(d) == [Letter(x / 4), Letter(x % 4 * 16 + y / 16),
                         if |d| > 1 then Letter(y % 16 * 4 + z / 64) else '=',
                         if |d| > 2 then Letter(z % 64) else '=']
  {
    hide Letter;
    ThreeBytes(x, y, z);
    SixBitDigits(Bits24(d), x / 4, x % 4 * 16 + y / 16, y % 16 * 4 + z / 64, z % 64);
  }

  /** Decoding an encoding gives the bytes back. */
  lemma {:induction false} DecodeEncode(d: seq<nat>)
    requires IsBytes(d)
    ensures Decode(Encode(d)) == Some(d)
    decreases |d|
  {
    if |d| > 3 {
      var head, tail := d[..3], d[3..];
      GroupRoundTrip(head, false);
      DecodeEncode(tail);
      EncodeLength(tail);
      assert Encode(d)[..4] == Group(head) && Encode(d)[4..] == Encode(tail);
      assert head + tail == d;
    } else if |d| > 0 {
      GroupRoundTrip(d, true);
      assert Encode(d)[..4] == Group(d) && Encode(d)[4..] == "";
      assert d + [] == d;
    }
  }

  /** Four characters for every three bytes, rounded up. */
  lemma {:induction false} EncodeLength(d: seq<nat>)
    requires IsBytes(d)
    ensures |Encode(d)| == 4 * ((|d| + 2) / 3)
    decreases |d|
  {
    hide Group;
    if |d| > 3 {
      EncodeLength(d[3..]);
      assert (|d| + 2) / 3 == (|d| - 1) / 3 + 1;
    } else if |d| > 0 {
      assert (|d| + 2) / 3 == 1;
    }
  }

  lemma UngroupGroup(s: string, last: bool)
    requires |s| == 4 && Ungroup(s, last).Some?
    ensures var d := Ungroup(s, last).value;
            1 <= |d| <= 3 && IsBytes(d) && Group(d) == s && (|d| < 3 ==> last)
  {
    hide Letter, Value, Bits24;
    ValueIsLetter(s[0]);
    ValueIsLetter(s[1]);
    if s[2] != '=' { ValueIsLetter(s[2]); }
    if s[2] != '=' && s[3] != '=' { ValueIsLetter(s[3]); }
    var d := Ungroup(s, last).value;
    var a, b := Value(s[0]).value, Value(s[1]).value;
    var c := if s[2] == '=' then 0 else Value(s[2]).value;
    var e := if s[2] == '=' || s[3] == '=' then 0 else Value(s[3]).value;
    var x, y, z := d[0], if |d| > 1 then d[1] else 0, if |d| > 2 then d[2] else 0;
    DigitsOfBytes(a, b, c, e);
    assert x == a * 4 + b / 16 && y == b % 16 * 16 + c / 4 && z == c % 4 * 64 + e;
    GroupLetters(d, x, y, z);
  }

  lemma DigitsOfBytes(a: nat, b: nat, c: nat, e: nat)
    requires a < 64 && b < 64 && c < 64 && e < 64
    ensures var x, y, z := a * 4 + b / 16, b % 16 * 16 + c / 4, c % 4 * 64 + e;
            && x < 256 && y < 256 && z < 256
            && x / 4 == a && x % 4 * 16 + y / 16 == b && y % 16 * 4 + z / 64 == c && z % 64 == e
  {
    var x, y, z := a * 4 + b / 16, b % 16 * 16 + c / 4, c % 4 * 64 + e;
    assert x / 4 == a && x % 4 == b / 16;
    assert y / 16 == b % 16 && y % 16 == c / 4;
    assert z / 64 == c % 4 && z % 64 == e;
  }

  /** The decoder accepts nothing but encodings. */
  lemma {:induction false} EncodeDecode(s: string)
    requires Decode(s).Some?
    ensures IsBytes(Decode(s).value) && Encode(Decode(s).value) == s
    decreases |s|
  {
    if |s| > 0 {
      UngroupGroup(s[..4], |s| == 4);
      EncodeDecode(s[4..]);
      var head, tail := Ungroup(s[..4], |s| == 4).value, Decode(s[4..]).value;
      assert s == s[..4] + s[4..];
      if |s| == 4 {
        assert tail == [] && head + tail == head;
      } else {
        assert |tail| > 0;
        assert (head + tail)[..3] == head && (head + tail)[3..] == tail;
      }
    }
  }

  /** The encoder's loop: three bytes a step. */
  method Base64(d: seq<nat>) returns (o: string)
    requires IsBytes(d)
    ensures o == Encode(d)
  {
    hide Letter, ALPHABET, Encode, Group, Rest;
    o := "";
    var i := 0;
    Ends(d);
    while i < |d|
      invariant 0 <= i <= |d| + 2
      invariant o + Encode(Rest(d, i)) == Encode(d)
    {
      var v := d[i] * 65536 + (if i + 1 < |d| then d[i + 1] * 256 else 0) + (if i + 2 < |d| then d[i + 2] else 0);
      EncodeStep(d, i, v);
      ghost var before := o;
      o := o + [Letter(v / 262144 % 64)];
      o := o + [Letter(v / 4096 % 64)];
      o := o + [if i + 1 < |d| then Letter(v / 64 % 64) else '='];
      o := o + [if i + 2 < |d| then Letter(v % 64) else '='];
      assert o == before + Quad(v, |d| - i);
      Regrouped(before, Quad(v, |d| - i), Encode(Rest(d, i + 3)));
      i := i + 3;
    }
    Beyond(d, i);
  }

  /** The four characters for the 24 bits v when left bytes remain. */
  function Quad(v: nat, left: nat): string {
    [Letter(v / 262144 % 64), Letter(v / 4096 % 64),
     if left > 1 then Letter(v / 64 % 64) else '=', if left > 2 then Letter(v % 64) else '=']
  }

  lemma Regrouped(a: string, b: string, c: string)
    ensures a + (b + c) == a + b + c
  {
  }

  lemma Ends(d: seq<nat>)
    requires IsBytes(d)
    ensures "" + Encode(Rest(d, 0)) == Encode(d)
  {
    assert |d| > 0 ==> d[0..] == d;
  }

  lemma Beyond(d: seq<nat>, i: nat)
    requires IsBytes(d) && i >= |d|
    ensures Encode(Rest(d, i)) == ""
  {
  }

  /** What is left from position i on. */
  function Rest(d: seq<nat>, i: nat): (r: seq<nat>)
    requires IsBytes(d)
    ensures IsBytes(r)
  {
    if i < |d| then d[i..] else []
  }

  lemma EncodeStep(d: seq<nat>, i: nat, v: nat)
    requires IsBytes(d) && i < |d|
    requires v == d[i] * 65536 + (if i + 1 < |d| then d[i + 1] * 256 else 0) + (if i + 2 < |d| then d[i + 2] else 0)
    ensures Encode(Rest(d, i)) == Quad(v, |d| - i) + Encode(Rest(d, i + 3))
  {
    hide Letter;
    var r := Rest(d, i);
    if |r| > 3 {
      assert r[3..] == d[i + 3..];
    }
  }

  // ---- Frames ----

  datatype Message = Message(opcode: nat, payload: seq<nat>)

  const WIRE_LIMIT: nat := 0x8000_0000_0000_0000

  /** The length as RFC 6455, section 5.2, writes it: the shortest of the three forms. */
  function LengthBytes(n: nat): seq<nat> {
    if n <= 125 then [n]
    else if n <= 65535 then [126] + BigEndian(n, 2)
    else [127] + BigEndian(n, 8)
  }

  /** A final, unmasked frame. */
  function FrameBytes(op: int, data: seq<nat>): seq<nat> {
    [128 + op % 16] + LengthBytes(|data|) + data
  }

  /** The length field read back, with the bytes behind it. Longer forms than needed, and a
      64-bit length with its top bit set, are malformed. */
  function ParseLength(s: seq<nat>): Option<(nat, seq<nat>)> {
    if |s| < 1 || s[0] >= 128 then None
    else if s[0] <= 125 then Some((s[0], s[1..]))
    else if s[0] == 126 then
      if |s| < 3 || FromBigEndian(s[1..3]) <= 125 then None
      else Some((FromBigEndian(s[1..3]), s[3..]))
    else if |s| < 9 || !(65535 < FromBigEndian(s[1..9]) < WIRE_LIMIT) then None
    else Some((FromBigEndian(s[1..9]), s[9..]))
  }

  /** RFC 6455, section 5.2: one final unmasked frame off the front of a byte stream. */
  function Parse(s: seq<nat>): Option<(Message, seq<nat>)> {
    if |s| < 1 || s[0] / 128 != 1 || s[0] / 16 % 8 != 0 then None
    else
      match ParseLength(s[1..])
      case None => None
      case Some((n, body)) =>
        if |body| < n then None else Some((Message(s[0] % 16, body[..n]), body[n..]))
  }

  /** All frames of a byte stream. */
  function ParseAll(s: seq<nat>): Option<seq<Message>>
    decreases |s|
  {
    if s == [] then Some([])
    else
      match Parse(s)
      case None => None
      case Some((m, rest)) =>
        if |rest| >= |s| then None
        else
          match ParseAll(rest)
          case None => None
          case Some(ms) => Some([m] + ms)
  }

  lemma Powers()
    ensures Pow256(2) == 65536 && Pow256(8) == 0x1_0000_0000_0000_0000
  {
    assert Pow256(4) == 0x1_0000_0000;
  }

  lemma LengthRoundTrip(n: nat, rest: seq<nat>)
    requires n < WIRE_LIMIT
    ensures ParseLength(LengthBytes(n) + rest) == Some((n, rest))
  {
    hide BigEndian, FromBigEndian, Pow256;
    Powers();
    var s := LengthBytes(n) + rest;
    if n <= 125 {
      assert s[1..] == rest;
    } else if n <= 65535 {
      RoundTrip(n, 2);
      assert s[1..3] == BigEndian(n, 2) && s[3..] == rest;
    } else {
      RoundTrip(n, 8);
      assert s[1..9] == BigEndian(n, 8) && s[9..] == rest;
    }
  }

  /** A frame parses to its opcode and payload and leaves what follows it untouched. */
  lemma FrameRoundTrip(op: int, data: seq<nat>, rest: seq<nat>)
    requires |data| < WIRE_LIMIT
    ensures Parse(FrameBytes(op, data) + rest) == Some((Message(op % 16, data), rest))
  {
    hide LengthBytes, ParseLength;
    var s := FrameBytes(op, data) + rest;
    LengthRoundTrip(|data|, data + rest);
    assert s[1..] == LengthBytes(|data|) + (data + rest);
    assert (data + rest)[..|data|] == data && (data + rest)[|data|..] == rest;
  }

  /** The wire bytes of a run of frames. */
  function Stream(ms: seq<Message>): seq<nat> {
    if ms == [] then [] else FrameBytes(ms[0].opcode, ms[0].payload) + Stream(ms[1..])
  }

  /** Frames sent back to back arrive as the same messages. */
  lemma {:induction false} StreamRoundTrip(ms: seq<Message>)
    requires forall i :: 0 <= i < |ms| ==> ms[i].opcode < 16 && |ms[i].payload| < WIRE_LIMIT
    ensures ParseAll(Stream(ms)) == Some(ms)
  {
    if ms != [] {
      hide Parse, LengthBytes;
      FrameRoundTrip(ms[0].opcode, ms[0].payload, Stream(ms[1..]));
      StreamRoundTrip(ms[1..]);
      assert ms == [ms[0]] + ms[1..];
    }
  }

  lemma LengthIsCanonical(s: seq<nat>)
    requires IsBytes(s) && ParseLength(s).Some?
    ensures var (n, body) := ParseLength(s).value; s == LengthBytes(n) + body && n < WIRE_LIMIT
  {
    hide BigEndian, FromBigEndian, Pow256;
    Powers();
    if s[0] <= 125 {
      assert s == [s[0]] + s[1..];
    } else if s[0] == 126 {
      RoundTripBytes(s[1..3]);
      assert s == [126] + s[1..3] + s[3..];
    } else {
      RoundTripBytes(s[1..9]);
      assert s == [127] + s[1..9] + s[9..];
    }
  }

  /** The parser accepts nothing but frames as written here: the shortest form is the only one. */
  lemma FrameIsCanonical(s: seq<nat>)
    requires IsBytes(s) && Parse(s).Some?
    ensures var (m, rest) := Parse(s).value;
            s == FrameBytes(m.opcode, m.payload) + rest && m.opcode < 16 && |m.payload| < WIRE_LIMIT
  {
    hide LengthBytes, ParseLength;
    LengthIsCanonical(s[1..]);
    var (n, body) := ParseLength(s[1..]).value;
    assert s[0] == 128 + s[0] % 16;
    assert body == body[..n] + body[n..];
    assert s == [s[0]] + LengthBytes(n) + body[..n] + body[n..];
  }

  /** The server's frame builder, byte by byte. */
  method Frame(op: int, data: seq<nat>) returns (f: seq<nat>)
    requires |data| < 0x1_0000_0000_0000_0000
    ensures f == FrameBytes(op, data)
  {
    var len := |data|;
    f := [128 + op % 16];
    if len <= 125 {
      f := f + [len];
    } else if len <= 65535 {
      f := f + [126];
      f := f + [len / 256 % 256];
      f := f + [len % 256];
      assert BigEndian(len, 2) == [len / 256 % 256, len % 256];
    } else {
      f := f + [127];
      f := LongLength(f, len);
    }
    f := f + data;
  }

  /** The eight bytes of a long length, most significant first. */
  method LongLength(head: seq<nat>, len: nat) returns (f: seq<nat>)
    ensures f == head + BigEndian(len, 8)
  {
    hide BigEndian, Pow256;
    f := head;
    for i := 8 downto 0
      invariant f == head + BigEndian(len, 8)[..8 - i]
    {
      BigEndianAt(len, 8, 7 - i);
      f := f + [(len / Pow256(i)) % 256];
    }
  }

  // ---- The handshake answer ----

  const GUID: string := "258EAFA5-E914-47DA-95CA-C5AB0DC85B11"

  /** A character's byte. */
  function Octets(s: string): seq<Byte> {
    seq(|s|, i requires 0 <= i < |s| => (s[i] as nat % 256) as Byte)
  }

  function Numbers(b: seq<Byte>): (n: seq<nat>)
    ensures |n| == |b| && IsBytes(n)
  {
    seq(|b|, i requires 0 <= i < |b| => b[i] as nat)
  }

  lemma DigestLength(m: seq<Byte>)
    ensures |Digest(m)| == 20
  {
    hide Absorb, Padded;
  }

  /** RFC 6455, section 4.2.2, step 5: the base64 of the SHA-1 digest of the key and the GUID;
      28 characters from which the client can recover the digest. */
  method AcceptKey(key: string) returns (answer: string)
    ensures Decode(answer) == Some(Numbers(Digest(Octets(key + GUID))))
    ensures answer == Encode(Numbers(Digest(Octets(key + GUID)))) && |answer| == 28
  {
    hide Digest, Decode, Encode, GUID, Octets, Numbers, Holds;
    var s := Octets(key + GUID);
    var sha := new Sha1();
    sha.Update(s);
    assert [] + s == s;
    var d := sha.Finish();
    DigestLength(s);
    answer := Base64(Numbers(d));
    DecodeEncode(Numbers(d));
    EncodeLength(Numbers(d));
  }
}

/** Base64 decoding of payloads in backend replies (crates/client-backend/src/adapter.rs). */
module Base64 {
  import opened Results
  import opened Bytes

  const PAD: byte := 0x3d  // '='

  /** ASCII whitespace: tab, line feed, form feed, carriage return, space. */
  predicate Blank(b: byte) {
    b == 9 || b == 10 || b == 12 || b == 13 || b == 32
  }

  /** A digit's value, or 64 for the padding character. */
  type Sextet = x: int | 0 <= x <= 64

  function ValueOf(b: byte): Option<Sextet> {
    if 0x41 <= b <= 0x5a then Some(b - 0x41)
    else if 0x61 <= b <= 0x7a then Some(b - 0x61 + 26)
    else if 0x30 <= b <= 0x39 then Some(b - 0x30 + 52)
    else if b == 0x2b then Some(62)
    else if b == 0x2f then Some(63)
    else if b == PAD then Some(64)
    else None
  }

  /** The alphabet of section 4 of RFC 4648. */
  function DigitOf(x: Sextet): byte {
    if x < 26 then 0x41 + x
    else if x < 52 then 0x61 + x - 26
    else if x < 62 then 0x30 + x - 52
    else if x == 62 then 0x2b
    else if x == 63 then 0x2f
    else PAD
  }

  // ---------------------------------------------------------------------------------------------
  // Decoding.

  /** A left shift drops the bits above the eighth. */
  function First(a: Sextet, b: Sextet): byte
    requires a < 64 && b < 64
  {
    a * 4 + b / 16
  }

  function Second(b: Sextet, c: Sextet): byte
    requires b < 64 && c < 64
  {
    b * 16 % 256 + c / 4
  }

  function Third(c: Sextet, d: Sextet): byte
    requires c < 64 && d < 64
  {
    c * 64 % 256 + d
  }

  /** The bytes of one group of four. */
  function GroupBytes(a: Sextet, b: Sextet, c: Sextet, d: Sextet): Option<seq<byte>> {
    if a == 64 || b == 64 then None
    else if c == 64 then (if d == 64 then Some([First(a, b)]) else None)
    else if d == 64 then Some([First(a, b), Second(b, c)])
    else Some([First(a, b), Second(b, c), Third(c, d)])
  }

  /** The decoder between two bytes: what it has put out, and the digits of the open group. */
  datatype Reading = Reading(out: seq<byte>, chunk: seq<Sextet>)

  function Take(r: Reading, b: byte): Option<Reading>
    requires |r.chunk| < 4
  {
    if Blank(b) then Some(r)
    else match ValueOf(b)
      case None => None
      case Some(x) =>
        if |r.chunk| < 3 then Some(r.(chunk := r.chunk + [x]))
        else match GroupBytes(r.chunk[0], r.chunk[1], r.chunk[2], x)
          case None => None
          case Some(bytes) => Some(Reading(r.out + bytes, []))
  }

  function ReadFrom(r: Reading, raw: seq<byte>): (end: Option<Reading>)
    requires |r.chunk| < 4
    ensures end.Some? ==> |end.value.chunk| < 4
    decreases |raw|
  {
    if |raw| == 0 then Some(r)
    else match Take(r, raw[0])
      case None => None
      case Some(r') => ReadFrom(r', raw[1..])
  }

  function Decode(raw: seq<byte>): Option<seq<byte>> {
    match ReadFrom(Reading([], []), raw)
    case Some(end) => if end.chunk == [] then Some(end.out) else None
    case None => None
  }

  /** The decoder's loop, with its four-digit buffer. */
  method DecodeBase64(raw: seq<byte>) returns (r: Option<seq<byte>>)
    ensures r == Decode(raw)
  {
    var out: seq<byte> := [];
    var chunk := new Sextet[4](_ => 0);
    var chunkLen := 0;
    assert raw[0..] == raw;
    for i := 0 to |raw|
      invariant 0 <= chunkLen < 4
      invariant ReadFrom(Reading([], []), raw) == ReadFrom(Reading(out, chunk[..chunkLen]), raw[i..])
    {
      var b := raw[i];
      assert raw[i..][0] == b && raw[i..][1..] == raw[i + 1..];
      if Blank(b) {
        continue;
      }
      var value := ValueOf(b);
      if value.None? {
        return None;
      }
      ghost var before := chunk[..chunkLen];
      chunk[chunkLen] := value.value;
      assert chunk[..chunkLen + 1] == before + [value.value];
      chunkLen := chunkLen + 1;
      if chunkLen == 4 {
        var bytes := PushChunk(chunk[0], chunk[1], chunk[2], chunk[3]);
        if bytes.None? {
          return None;
        }
        out := out + bytes.value;
        chunkLen := 0;
      }
    }
    if chunkLen != 0 {
      return None;
    }
    return Some(out);
  }

  method PushChunk(a: Sextet, b: Sextet, c: Sextet, d: Sextet) returns (r: Option<seq<byte>>)
    ensures r == GroupBytes(a, b, c, d)
  {
    if a == 64 || b == 64 {
      return None;
    }
    var out: seq<byte> := [First(a, b)];
    if c != 64 {
      out := out + [Second(b, c)];
      assert out == [First(a, b), Second(b, c)];
    }
    if d != 64 {
      if c == 64 {
        return None;
      }
      out := out + [Third(c, d)];
      assert out == [First(a, b), Second(b, c), Third(c, d)];
    }
    return Some(out);
  }

  // ---------------------------------------------------------------------------------------------
  // Encoding, as section 4 of RFC 4648 says.

  /** One to three bytes as four characters. */
  function EncodeGroup(bytes: seq<byte>): (text: seq<byte>)
    requires 1 <= |bytes| <= 3
    ensures |text| == 4
  {
    var b0 := bytes[0];
    var b1 := if |bytes| > 1 then bytes[1] else 0;
    var b2 := if |bytes| > 2 then bytes[2] else 0;
    [DigitOf(b0 / 4), DigitOf(b0 % 4 * 16 + b1 / 16),
     if |bytes| > 1 then DigitOf(b1 % 16 * 4 + b2 / 64) else PAD,
     if |bytes| > 2 then DigitOf(b2 % 64) else PAD]
  }

  function Encode(bytes: seq<byte>): seq<byte> {
    if |bytes| == 0 then []
    else if |bytes| <= 3 then EncodeGroup(bytes)
    else EncodeGroup(bytes[..3]) + Encode(bytes[3..])
  }

  function Strip(raw: seq<byte>): seq<byte> {
    if |raw| == 0 then []
    else if Blank(raw[0]) then Strip(raw[1..])
    else [raw[0]] + Strip(raw[1..])
  }

  // ---------------------------------------------------------------------------------------------
  // Decoding inverts encoding.

  lemma DigitValue(x: Sextet)
    ensures ValueOf(DigitOf(x)) == Some(x) && !Blank(DigitOf(x))
    ensures DigitOf(x) == PAD <==> x == 64
  {
  }

  lemma ValueDigit(b: byte)
    requires ValueOf(b).Some?
    ensures DigitOf(ValueOf(b).value) == b && !Blank(b)
  {
  }

  /** Whitespace anywhere makes no difference. */
  lemma {:induction false} BlanksIgnored(r: Reading, raw: seq<byte>)
    requires |r.chunk| < 4
    ensures ReadFrom(r, raw) == ReadFrom(r, Strip(raw))
    decreases |raw|
  {
    if |raw| > 0 {
      if Blank(raw[0]) {
        BlanksIgnored(r, raw[1..]);
      } else {
        assert Strip(raw)[1..] == Strip(raw[1..]);
        if Take(r, raw[0]).Some? {
          BlanksIgnored(Take(r, raw[0]).value, raw[1..]);
        }
      }
    }
  }

  /** The values of four characters. */
  function GroupOf(text: seq<byte>): Option<seq<byte>>
    requires |text| == 4
  {
    var a, b, c, d := ValueOf(text[0]), ValueOf(text[1]), ValueOf(text[2]), ValueOf(text[3]);
    if a.Some? && b.Some? && c.Some? && d.Some? then GroupBytes(a.value, b.value, c.value, d.value) else None
  }

  /** Four characters without whitespace, from a group boundary, are one group. */
  lemma ReadGroup(out: seq<byte>, text: seq<byte>)
    requires |text| >= 4 && forall i :: 0 <= i < 4 ==> !Blank(text[i])
    ensures ReadFrom(Reading(out, []), text) ==
            match GroupOf(text[..4])
            case None => None
            case Some(bytes) => ReadFrom(Reading(out + bytes, []), text[4..])
  {
    hide ValueOf, GroupBytes;
    var t1, t2, t3 := text[1..], text[2..], text[3..];
    assert t1[1..] == t2 && t2[1..] == t3 && t3[1..] == text[4..];
    var a, b, c := ValueOf(text[0]), ValueOf(text[1]), ValueOf(text[2]);
    if a.Some? {
      assert [] + [a.value] == [a.value];
      assert ReadFrom(Reading(out, []), text) == ReadFrom(Reading(out, [a.value]), t1);
      if b.Some? {
        assert [a.value] + [b.value] == [a.value, b.value];
        assert ReadFrom(Reading(out, [a.value]), t1) == ReadFrom(Reading(out, [a.value, b.value]), t2);
        if c.Some? {
          assert [a.value, b.value] + [c.value] == [a.value, b.value, c.value];
          assert ReadFrom(Reading(out, [a.value, b.value]), t2) ==
                 ReadFrom(Reading(out, [a.value, b.value, c.value]), t3);
        }
      }
    }
  }

  /** Bits that a shift keeps. */
  lemma Shifts(b: Sextet, c: Sextet)
    ensures b * 16 % 256 == b % 16 * 16
    ensures c * 64 % 256 == c % 4 * 64
  {
    assert b * 16 == 256 * (b / 16) + b % 16 * 16;
    assert c * 64 == 256 * (c / 4) + c % 4 * 64;
  }

  lemma Rejoin(b0: byte, b1: byte, b2: byte)
    ensures First(b0 / 4, b0 % 4 * 16 + b1 / 16) == b0
    ensures Second(b0 % 4 * 16 + b1 / 16, b1 % 16 * 4 + b2 / 64) == b1
    ensures Third(b1 % 16 * 4 + b2 / 64, b2 % 64) == b2
  {
    var x, y := b0 % 4 * 16 + b1 / 16, b1 % 16 * 4 + b2 / 64;
    assert x / 16 == b0 % 4 && x % 16 == b1 / 16;
    assert y / 4 == b1 % 16 && y % 4 == b2 / 64;
    Shifts(x, y);
  }

  lemma ResplitFirst(a: Sextet, b: Sextet, c: Sextet)
    requires a < 64 && b < 64 && c < 64
    ensures First(a, b) / 4 == a
    ensures First(a, b) % 4 * 16 + Second(b, c) / 16 == b
    ensures First(a, b) % 4 * 16 == b <==> b % 16 == 0
  {
    Shifts(b, c);
    assert b == b / 16 * 16 + b % 16;
    assert First(a, b) % 4 == b / 16;
  }

  lemma ResplitLast(b: Sextet, c: Sextet, d: Sextet)
    requires b < 64 && c < 64 && d < 64
    ensures Second(b, c) % 16 * 4 + Third(c, d) / 64 == c
    ensures Third(c, d) % 64 == d
    ensures Second(b, c) % 16 * 4 == c <==> c % 4 == 0
  {
    Shifts(b, c);
    assert c == c / 4 * 4 + c % 4;
    assert Second(b, c) % 16 == c / 4;
  }

  lemma GroupRoundTrip(bytes: seq<byte>)
    requires 1 <= |bytes| <= 3
    ensures GroupOf(EncodeGroup(bytes)) == Some(bytes)
    ensures forall i :: 0 <= i < 4 ==> !Blank(EncodeGroup(bytes)[i])
    ensures EncodeGroup(bytes)[3] == PAD <==> |bytes| < 3
  {
    hide ValueOf, DigitOf, First, Second, Third, Blank;
    var b0 := bytes[0];
    var b1 := if |bytes| > 1 then bytes[1] else 0;
    var b2 := if |bytes| > 2 then bytes[2] else 0;
    DigitValue(b0 / 4);
    DigitValue(b0 % 4 * 16 + b1 / 16);
    DigitValue(b1 % 16 * 4 + b2 / 64);
    DigitValue(b2 % 64);
    DigitValue(64);
    Rejoin(b0, b1, b2);
    assert bytes == [b0] || bytes == [b0, b1] || bytes == [b0, b1, b2];
  }

  lemma {:induction false} ReadEncoded(out: seq<byte>, bytes: seq<byte>)
    ensures ReadFrom(Reading(out, []), Encode(bytes)) == Some(Reading(out + bytes, []))
    decreases |bytes|
  {
    hide ValueOf, DigitOf, GroupBytes, EncodeGroup, GroupOf, Take;
    if |bytes| == 0 {
      assert out + bytes == out;
    } else if |bytes| <= 3 {
      GroupRoundTrip(bytes);
      ReadGroup(out, Encode(bytes));
      assert Encode(bytes)[..4] == Encode(bytes) && Encode(bytes)[4..] == [];
    } else {
      GroupRoundTrip(bytes[..3]);
      var text := Encode(bytes);
      assert text[..4] == EncodeGroup(bytes[..3]) && text[4..] == Encode(bytes[3..]);
      assert forall i :: 0 <= i < 4 ==> text[i] == EncodeGroup(bytes[..3])[i];
      ReadGroup(out, text);
      ReadEncoded(out + bytes[..3], bytes[3..]);
      assert out + bytes[..3] + bytes[3..] == out + bytes;
    }
  }

  /** For every byte string, its encoding, with whitespace put in anywhere, decodes to it. */
  lemma DecodeInvertsEncode(bytes: seq<byte>, text: seq<byte>)
    requires Strip(text) == Encode(bytes)
    ensures Decode(text) == Some(bytes)
  {
    BlanksIgnored(Reading([], []), text);
    ReadEncoded([], bytes);
    assert [] + bytes == bytes;
  }

  // ---------------------------------------------------------------------------------------------
  // What else the decoder accepts.

  /** Bits of the last digit that no byte uses are zero. */
  predicate TidyGroup(text: seq<byte>)
    requires |text| == 4
  {
    && (text[2] == PAD && ValueOf(text[1]).Some? ==> ValueOf(text[1]).value % 16 == 0)
    && (text[2] != PAD && text[3] == PAD && ValueOf(text[2]).Some? ==> ValueOf(text[2]).value % 4 == 0)
  }

  /** Padding only at the very end, and no stray bits. */
  predicate Tidy(text: seq<byte>)
  {
    |text| >= 4 ==> TidyGroup(text[..4]) && (|text| > 4 ==> text[3] != PAD && Tidy(text[4..]))
  }

  lemma GroupEncodes(a: Sextet, b: Sextet, c: Sextet, d: Sextet)
    requires GroupBytes(a, b, c, d).Some?
    ensures 1 <= |GroupBytes(a, b, c, d).value| <= 3
    ensures EncodeGroup(GroupBytes(a, b, c, d).value) == [DigitOf(a), DigitOf(b), DigitOf(c), DigitOf(d)] <==>
            (c == 64 ==> b % 16 == 0) && (c < 64 && d == 64 ==> c % 4 == 0)
  {
    hide First, Second, Third;
    var c', d' := if c < 64 then c else 0, if d < 64 then d else 0;
    ResplitFirst(a, b, c');
    ResplitLast(b, c', d');
    DigitsDiffer(First(a, b) % 4 * 16, b);
    DigitsDiffer(Second(b, c') % 16 * 4, c');
    hide DigitOf;
  }

  lemma DigitsDiffer(x: Sextet, y: Sextet)
    ensures DigitOf(x) == DigitOf(y) <==> x == y
  {
    DigitValue(x);
    DigitValue(y);
  }

  lemma GroupCanonical(text: seq<byte>)
    requires |text| == 4 && GroupOf(text).Some?
    ensures 1 <= |GroupOf(text).value| <= 3
    ensures |GroupOf(text).value| == 3 <==> text[3] != PAD
    ensures EncodeGroup(GroupOf(text).value) == text <==> TidyGroup(text)
  {
    var a, b, c, d := ValueOf(text[0]).value, ValueOf(text[1]).value, ValueOf(text[2]).value, ValueOf(text[3]).value;
    ValueDigit(text[0]);
    ValueDigit(text[1]);
    ValueDigit(text[2]);
    ValueDigit(text[3]);
    DigitValue(a);
    DigitValue(b);
    DigitValue(c);
    DigitValue(d);
    GroupEncodes(a, b, c, d);
    assert [DigitOf(a), DigitOf(b), DigitOf(c), DigitOf(d)] == text;
  }

  /** A text without whitespace that decodes is the encoding of its bytes if and only if it is
      tidy: the decoder also accepts padding between groups, and stray bits. */
  lemma {:induction false} DecodedIsEncoding(out: seq<byte>, text: seq<byte>)
    requires forall i :: 0 <= i < |text| ==> !Blank(text[i])
    requires ReadFrom(Reading(out, []), text).Some? && ReadFrom(Reading(out, []), text).value.chunk == []
    ensures out <= ReadFrom(Reading(out, []), text).value.out
    ensures var bytes := ReadFrom(Reading(out, []), text).value.out[|out|..];
            (Encode(bytes) == text <==> Tidy(text)) && (|text| > 0 ==> |bytes| > 0)
    decreases |text|
  {
    hide ValueOf, DigitOf, GroupBytes, EncodeGroup, GroupOf, Take, TidyGroup;
    if |text| >= 4 {
      ReadGroup(out, text);
      var group := GroupOf(text[..4]).value;
      GroupCanonical(text[..4]);
      DecodedIsEncoding(out + group, text[4..]);
      var rest := ReadFrom(Reading(out + group, []), text[4..]).value.out[|out + group|..];
      var bytes := ReadFrom(Reading(out, []), text).value.out[|out|..];
      assert bytes == group + rest;
      assert text == text[..4] + text[4..];
      if |group| == 3 {
        FullGroupFirst(group, rest);
      } else if |text| > 4 {
        ShortGroupFirst(bytes, text);
      } else {
        assert rest == [] && bytes == group;
      }
    } else {
      NoShortGroup(out, text);
    }
  }

  lemma FullGroupFirst(group: seq<byte>, rest: seq<byte>)
    requires |group| == 3
    ensures Encode(group + rest) == EncodeGroup(group) + Encode(rest)
  {
    assert (group + rest)[..3] == group && (group + rest)[3..] == rest;
    assert rest == [] ==> group + rest == group;
  }

  lemma ShortGroupFirst(bytes: seq<byte>, text: seq<byte>)
    requires |text| > 4 && text[3] == PAD
    ensures Encode(bytes) != text
  {
    if |bytes| > 3 {
      GroupRoundTrip(bytes[..3]);
      assert Encode(bytes)[3] == EncodeGroup(bytes[..3])[3];
    }
  }

  lemma NoShortGroup(out: seq<byte>, text: seq<byte>)
    requires |text| < 4 && forall i :: 0 <= i < |text| ==> !Blank(text[i])
    ensures var end := ReadFrom(Reading(out, []), text); end.Some? ==> |end.value.chunk| == |text|
  {
    ReadShort(Reading(out, []), text);
  }

  lemma {:induction false} ReadShort(r: Reading, text: seq<byte>)
    requires |r.chunk| + |text| < 4 && forall i :: 0 <= i < |text| ==> !Blank(text[i])
    ensures ReadFrom(r, text).Some? ==> |ReadFrom(r, text).value.chunk| == |r.chunk| + |text|
    decreases |text|
  {
    if |text| > 0 && Take(r, text[0]).Some? {
      ReadShort(Take(r, text[0]).value, text[1..]);
    }
  }

  /** For every text that decodes: it is, whitespace aside, the encoding of what it decodes to if
      and only if it is tidy. */
  lemma EncodeInvertsDecode(text: seq<byte>)
    requires Decode(text).Some?
    ensures Encode(Decode(text).value) == Strip(text) <==> Tidy(Strip(text))
  {
    BlanksIgnored(Reading([], []), text);
    StripIsBare(text);
    DecodedIsEncoding([], Strip(text));
  }

  lemma {:induction false} StripIsBare(text: seq<byte>)
    ensures forall i :: 0 <= i < |Strip(text)| ==> !Blank(Strip(text)[i])
  {
    if |text| > 0 {
      StripIsBare(text[1..]);
    }
  }

  /** Two texts the decoder does not tell apart: a stray bit, "QR==" for "QQ==". */
  lemma StrayBitsAccepted()
    ensures Decode([0x51, 0x52, 0x3d, 0x3d]) == Decode([0x51, 0x51, 0x3d, 0x3d]) == Some([0x41])
  {
    var stray, plain := [0x51, 0x52, 0x3d, 0x3d], [0x51, 0x51, 0x3d, 0x3d];
    ReadGroup([], stray);
    ReadGroup([], plain);
    assert stray[..4] == stray && plain[..4] == plain;
    assert GroupOf(stray) == GroupOf(plain) == Some([0x41]);
    assert [] + [0x41] == [0x41];
  }

  /** Padding between groups, "QQ==QQ==", is accepted, and is not how the two bytes are encoded. */
  lemma InnerPaddingAccepted()
    ensures var text := [0x51, 0x51, 0x3d, 0x3d, 0x51, 0x51, 0x3d, 0x3d];
            Decode(text) == Some([0x41, 0x41]) && Encode([0x41, 0x41]) != text
  {
    var group, text := [0x51, 0x51, 0x3d, 0x3d], [0x51, 0x51, 0x3d, 0x3d, 0x51, 0x51, 0x3d, 0x3d];
    assert text[..4] == group && text[4..] == group && group[..4] == group && group[4..] == [];
    assert GroupOf(group) == Some([0x41]);
    ReadGroup([], text);
    assert [] + [0x41] == [0x41];
    ReadGroup([0x41], group);
    assert [0x41] + [0x41] == [0x41, 0x41];
  }

  // ---------------------------------------------------------------------------------------------
  // Which texts decode, and to what.

  /** Four characters of the alphabet, padded at most in the last place or the last two. */
  predicate GoodGroup(text: seq<byte>)
    requires |text| == 4
  {
    && (forall i :: 0 <= i < 4 ==> ValueOf(text[i]).Some?)
    && text[0] != PAD && text[1] != PAD && (text[2] == PAD ==> text[3] == PAD)
  }

  /** Any number of such groups. */
  predicate GoodText(text: seq<byte>) {
    |text| == 0 || (|text| >= 4 && GoodGroup(text[..4]) && GoodText(text[4..]))
  }

  lemma GroupDecodes(text: seq<byte>)
    requires |text| == 4
    ensures GroupOf(text).Some? <==> GoodGroup(text)
  {
    if forall i :: 0 <= i < 4 ==> ValueOf(text[i]).Some? {
      ValueDigit(text[0]);
      ValueDigit(text[1]);
      ValueDigit(text[2]);
      ValueDigit(text[3]);
      DigitValue(64);
    }
  }

  lemma {:induction false} BareDecodes(out: seq<byte>, text: seq<byte>)
    requires forall i :: 0 <= i < |text| ==> !Blank(text[i])
    ensures var end := ReadFrom(Reading(out, []), text);
            (end.Some? && end.value.chunk == []) <==> GoodText(text)
    decreases |text|
  {
    hide ValueOf, GroupOf, GoodGroup, Take;
    if |text| >= 4 {
      ReadGroup(out, text);
      GroupDecodes(text[..4]);
      if GroupOf(text[..4]).Some? {
        BareDecodes(out + GroupOf(text[..4]).value, text[4..]);
      }
    } else {
      NoShortGroup(out, text);
    }
  }

  /** A text decodes if and only if, whitespace aside, it is a series of good groups. */
  lemma DecodesExactly(text: seq<byte>)
    ensures Decode(text).Some? <==> GoodText(Strip(text))
  {
    hide ReadFrom, GoodText;
    BlanksIgnored(Reading([], []), text);
    StripIsBare(text);
    BareDecodes([], Strip(text));
  }

  /** What a full group decodes to, in numbers: its digits to the base 64 are the bytes to the base
      256. */
  lemma FullGroupValue(a: Sextet, b: Sextet, c: Sextet, d: Sextet)
    requires a < 64 && b < 64 && c < 64 && d < 64
    ensures GroupBytes(a, b, c, d) == Some([First(a, b), Second(b, c), Third(c, d)])
    ensures First(a, b) * 65536 + Second(b, c) * 256 + Third(c, d) == a * 262144 + b * 4096 + c * 64 + d
  {
    Shifts(b, c);
    assert b == b / 16 * 16 + b % 16;
    assert c == c / 4 * 4 + c % 4;
  }

  /** And a padded one: the bits left over fall away. */
  lemma PaddedGroupValue(a: Sextet, b: Sextet, c: Sextet)
    requires a < 64 && b < 64
    ensures GroupBytes(a, b, 64, 64) == Some([First(a, b)]) && First(a, b) == (a * 64 + b) / 16
    ensures c < 64 ==>
              && GroupBytes(a, b, c, 64) == Some([First(a, b), Second(b, c)])
              && First(a, b) * 256 + Second(b, c) == (a * 4096 + b * 64 + c) / 4
  {
    if c < 64 {
      Shifts(b, c);
      assert b == b / 16 * 16 + b % 16;
    }
  }
}

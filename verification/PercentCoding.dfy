/** Percent-decoding as `VHttpRequest_DecodeUrl` does it, and the encoding of section 2.1 of RFC 3986. */
module PercentCoding {
  import opened Basics

  /** `isxdigit`. */
  predicate IsHex(b: Byte) {
    48 <= b <= 57 || 65 <= b <= 70 || 97 <= b <= 102
  }

  /** The value `strtol` gives one hexadecimal digit. */
  function HexValue(b: Byte): (v: Byte)
    requires IsHex(b)
    ensures v < 16
  {
    if b <= 57 then b - 48 else if b <= 70 then b - 55 else b - 87
  }

  function HexDigit(v: Byte): (b: Byte)
    requires v < 16
    ensures IsHex(b) && HexValue(b) == v
  {
    if v < 10 then v + 48 else v + 55
  }

  /** The byte is the digit of that value, in lower or upper case. */
  predicate Digit(b: Byte, v: nat)
    requires v < 16
  {
    b == "0123456789abcdef"[v] as int || b == "0123456789ABCDEF"[v] as int
  }

  /** The bytes taken as hexadecimal digits are those digits, each with its value. */
  lemma HexIff(b: Byte, v: nat)
    requires v < 16
    ensures IsHex(b) && HexValue(b) == v <==> Digit(b, v)
  {
    assert v == 0 || v == 1 || v == 2 || v == 3 || v == 4 || v == 5 || v == 6 || v == 7
        || v == 8 || v == 9 || v == 10 || v == 11 || v == 12 || v == 13 || v == 14 || v == 15;
  }

  /** What the decoder appends for the text from index `i` on: an escape is a percent sign and two
      hexadecimal digits; a plus sign gives a space and then itself, as its case falls through. */
  function Decode(u: Text): Text
    decreases |u|
  {
    if u == [] then []
    else if u[0] == PERCENT && 3 <= |u| && IsHex(u[1]) && IsHex(u[2]) then
      [HexValue(u[1]) * 16 + HexValue(u[2])] + Decode(u[3..])
    else if u[0] == PLUS then [SPACE, PLUS] + Decode(u[1..])
    else [u[0]] + Decode(u[1..])
  }

  /** A percent sign and the digits of `i` and `j`, in either case, decode to one byte. */
  lemma EscapeDecodes(i: nat, j: nat, x: Byte, y: Byte, rest: Text)
    requires i < 16 && j < 16 && Digit(x, i) && Digit(y, j)
    ensures Decode(Ascii("%") + [x, y] + rest) == [16 * i + j] + Decode(rest)
  {
    NamedBytes();
    HexIff(x, i);
    HexIff(y, j);
    assert (Ascii("%") + [x, y] + rest)[3..] == rest;
  }

  /** A way to spell a byte string: each byte as it is, unless it is a percent or a plus sign (37 and 43), or
      as a percent sign and two hexadecimal digits, of either case each. */
  ghost predicate Spells(u: Text, s: Text)
    decreases |s|
  {
    if s == [] then u == []
    else
      || (u != [] && u[0] == s[0] && s[0] != 37 && s[0] != 43 && Spells(u[1..], s[1..]))
      || (3 <= |u| && u[0] == 37 && Digit(u[1], s[0] / 16) && Digit(u[2], s[0] % 16) && Spells(u[3..], s[1..]))
  }

  /** Decoding inverts every spelling. */
  lemma {:induction false} DecodeSpelling(u: Text, s: Text)
    requires Spells(u, s)
    ensures Decode(u) == s
    decreases |s|
  {
    if s != [] {
      NamedBytes();
      if u[0] == s[0] && s[0] != 37 && s[0] != 43 && Spells(u[1..], s[1..]) {
        assert u[0] != PERCENT && u[0] != PLUS;
        DecodeSpelling(u[1..], s[1..]);
      } else {
        EscapeDecodes(s[0] / 16, s[0] % 16, u[1], u[2], u[3..]);
        assert Ascii("%") + [u[1], u[2]] + u[3..] == u;
        DecodeSpelling(u[3..], s[1..]);
      }
    }
  }

  /** The unreserved characters of RFC 3986, section 2.3. */
  predicate Unreserved(b: Byte) {
    48 <= b <= 57 || 65 <= b <= 90 || 97 <= b <= 122 || b == 45 || b == 46 || b == 95 || b == 126
  }

  function EncodeByte(b: Byte): Text {
    if Unreserved(b) then [b] else [PERCENT, HexDigit(b / 16), HexDigit(b % 16)]
  }

  function Encode(s: Text): Text {
    if s == [] then [] else EncodeByte(s[0]) + Encode(s[1..])
  }

  /** The encoding is one of the spellings. */
  lemma {:induction false} EncodeSpells(s: Text)
    ensures Spells(Encode(s), s)
  {
    if s != [] {
      EncodeSpells(s[1..]);
      var u := Encode(s);
      if Unreserved(s[0]) {
        assert u[1..] == Encode(s[1..]);
      } else {
        NamedBytes();
        HexIff(u[1], s[0] / 16);
        HexIff(u[2], s[0] % 16);
        assert u[3..] == Encode(s[1..]);
      }
    }
  }

  /** Decoding inverts encoding, on every byte string. */
  lemma {:induction false} DecodeEncode(s: Text)
    ensures Decode(Encode(s)) == s
  {
    EncodeSpells(s);
    DecodeSpelling(Encode(s), s);
  }

  lemma {:induction false} EncodedBytes(s: Text)
    ensures |s| <= |Encode(s)|
    ensures forall i :: 0 <= i < |Encode(s)| ==> Unreserved(Encode(s)[i]) || Encode(s)[i] == PERCENT
  {
    if s != [] {
      EncodedBytes(s[1..]);
      assert forall v: Byte :: v < 16 ==> Unreserved(HexDigit(v));
    }
  }

  /** Where decoding changes a text first: a plus sign, or a percent sign that starts an escape. */
  predicate Special(u: Text, i: nat) {
    i < |u| && (u[i] == PLUS || (u[i] == PERCENT && i + 2 < |u| && IsHex(u[i + 1]) && IsHex(u[i + 2])))
  }

  /** A text without escapes and plus signs decodes to itself. */
  lemma {:induction false} DecodePlain(u: Text)
    requires forall i: nat :: !Special(u, i)
    ensures Decode(u) == u
  {
    if u != [] {
      assert !Special(u, 0);
      forall i: nat ensures !Special(u[1..], i) {
        assert !Special(u, i + 1);
      }
      DecodePlain(u[1..]);
    }
  }

  // ---- plus signs ----

  /** Decoding as forms are encoded: a plus sign is a space. */
  function FormDecode(u: Text): Text
    decreases |u|
  {
    if u == [] then []
    else if u[0] == PERCENT && 3 <= |u| && IsHex(u[1]) && IsHex(u[2]) then
      [HexValue(u[1]) * 16 + HexValue(u[2])] + FormDecode(u[3..])
    else if u[0] == PLUS then [SPACE] + FormDecode(u[1..])
    else [u[0]] + FormDecode(u[1..])
  }

  /** Each plus sign followed by an escaped one. */
  function PlusTwice(u: Text): Text {
    if u == [] then []
    else (if u[0] == PLUS then [PLUS, PERCENT, HexDigit(2), HexDigit(11)] else [u[0]]) + PlusTwice(u[1..])
  }

  lemma PlusTwiceStart(u: Text)
    ensures u != [] ==> PlusTwice(u) != [] && PlusTwice(u)[0] == u[0]
    ensures u != [] && u[0] != PLUS ==> PlusTwice(u)[1..] == PlusTwice(u[1..])
  {
  }

  /** An escape starts a text exactly when it does so after plus signs have been doubled. */
  lemma EscapeKept(u: Text)
    requires u != [] && u[0] == PERCENT
    ensures var w := PlusTwice(u);
      && (3 <= |u| && IsHex(u[1]) && IsHex(u[2]) <==> 3 <= |w| && IsHex(w[1]) && IsHex(w[2]))
      && (3 <= |u| && IsHex(u[1]) && IsHex(u[2]) ==> w[1..3] == u[1..3] && w[3..] == PlusTwice(u[3..]))
  {
    PlusTwiceStart(u);
    PlusTwiceStart(u[1..]);
    if 2 <= |u| && IsHex(u[1]) {
      PlusTwiceStart(u[1..][1..]);
    }
  }

  lemma FormPlus(rest: Text)
    ensures FormDecode([PLUS, PERCENT, HexDigit(2), HexDigit(11)] + rest) == [SPACE, PLUS] + FormDecode(rest)
  {
    var w: Text := [PLUS, PERCENT, HexDigit(2), HexDigit(11)] + rest;
    assert w[1..][3..] == rest;
  }

  /** What the decoder makes of any text: what form decoding makes of it with each plus sign followed by an
      escaped one. */
  lemma {:induction false} DecodeIsForm(u: Text)
    ensures Decode(u) == FormDecode(PlusTwice(u))
    decreases |u|
  {
    if u != [] {
      PlusTwiceStart(u);
      DecodeIsForm(u[1..]);
      if u[0] == PLUS {
        FormPlus(PlusTwice(u[1..]));
      } else if u[0] == PERCENT {
        EscapeKept(u);
        if 3 <= |u| {
          DecodeIsForm(u[3..]);
        }
      }
    }
  }

  /** A plus sign decodes to a space and a plus sign. */
  lemma PlusDecodes(rest: Text)
    ensures Decode(Ascii("+") + rest) == Ascii(" +") + Decode(rest)
  {
    NamedBytes();
    assert (Ascii("+") + rest)[1..] == rest;
    assert Ascii(" +") == [SPACE, PLUS];
  }

  lemma {:induction false} DecodeLonger(u: Text)
    ensures |FormDecode(u)| <= |Decode(u)|
    ensures PLUS in u ==> |FormDecode(u)| < |Decode(u)|
    ensures PLUS !in u ==> FormDecode(u) == Decode(u)
    decreases |u|
  {
    if u != [] {
      DecodeLonger(u[1..]);
      if 3 <= |u| {
        DecodeLonger(u[3..]);
        assert u == [u[0], u[1], u[2]] + u[3..];
      }
      assert u == [u[0]] + u[1..];
    }
  }

  /** Decoding is form decoding exactly on texts without plus signs. */
  lemma PlusIff(u: Text)
    ensures Decode(u) == FormDecode(u) <==> PLUS !in u
  {
    DecodeLonger(u);
  }
}

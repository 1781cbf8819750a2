/** Percent-encoding as net/url does it (sections 2.1 and 3.2.1 of RFC 3986). */
module PercentCoding {
  import opened Wrappers

  predicate AllBytes(s: string) {
    forall i | 0 <= i < |s| :: s[i] as int < 0x100
  }

  /** A Go string: each character stands for one byte. */
  type Bytes = s: string | AllBytes(s)

  const HEX := "0123456789ABCDEF"

  function HexDigit(n: nat): char
    requires n < 16
  {
    HEX[n]
  }

  function HexValue(c: char): Option<nat> {
    if '0' <= c <= '9' then Some(c as int - '0' as int)
    else if 'a' <= c <= 'f' then Some(c as int - 'a' as int + 10)
    else if 'A' <= c <= 'F' then Some(c as int - 'A' as int + 10)
    else None
  }

  lemma HexRoundTrip(n: nat)
    requires n < 16
    ensures HexValue(HexDigit(n)) == Some(n)
  {
    assert HEX[0] == '0' && HEX[1] == '1' && HEX[2] == '2' && HEX[3] == '3';
    assert HEX[4] == '4' && HEX[5] == '5' && HEX[6] == '6' && HEX[7] == '7';
    assert HEX[8] == '8' && HEX[9] == '9' && HEX[10] == 'A' && HEX[11] == 'B';
    assert HEX[12] == 'C' && HEX[13] == 'D' && HEX[14] == 'E' && HEX[15] == 'F';
  }

  /** The characters url.UserPassword leaves as they are: unreserved ones and part of the sub-delims. */
  predicate KeptInUserinfo(c: char) {
    || 'a' <= c <= 'z' || 'A' <= c <= 'Z' || '0' <= c <= '9'
    || c in "-_.~"
    || c in "$&+,;="
  }

  function Escaped(c: char): string
    requires c as int < 0x100
  {
    ['%', HexDigit(c as int / 16), HexDigit(c as int % 16)]
  }

  /** The escaping of a user name or a password. */
  function EscapeUserinfo(s: Bytes): string {
    if s == "" then ""
    else (if KeptInUserinfo(s[0]) then [s[0]] else Escaped(s[0])) + EscapeUserinfo(s[1..])
  }

  /** Percent-decoding with `+` left alone: url.PathUnescape, and the decoding of userinfo and of paths. */
  function Decode(s: string): (r: Option<string>) {
    if s == "" then Some("")
    else if s[0] == '%' then
      if |s| < 3 || HexValue(s[1]).None? || HexValue(s[2]).None? then None
      else
        Prefixed((HexValue(s[1]).value * 16 + HexValue(s[2]).value) as char, Decode(s[3..]))
    else Prefixed(s[0], Decode(s[1..]))
  }

  function Prefixed(c: char, r: Option<string>): Option<string> {
    match r
    case None => None
    case Some(t) => Some([c] + t)
  }

  /** Decoding undoes the escaping of any bytes. */
  lemma {:induction false} EscapeRoundTrip(s: Bytes)
    ensures Decode(EscapeUserinfo(s)) == Some(s)
  {
    if s != "" {
      EscapeRoundTrip(s[1..]);
      var c := s[0];
      assert s == [c] + s[1..];
      if KeptInUserinfo(c) {
        assert EscapeUserinfo(s)[1..] == EscapeUserinfo(s[1..]);
      } else {
        HexRoundTrip(c as int / 16);
        HexRoundTrip(c as int % 16);
        assert EscapeUserinfo(s)[3..] == EscapeUserinfo(s[1..]);
      }
    }
  }

  /** The escaped text is made of kept characters, `%` and hex digits. */
  lemma {:induction false} EscapedAlphabet(s: Bytes)
    ensures forall i | 0 <= i < |EscapeUserinfo(s)| :: KeptInUserinfo(EscapeUserinfo(s)[i]) || EscapeUserinfo(s)[i] == '%'
    ensures EscapeUserinfo(s) == "" <==> s == ""
  {
    if s != "" {
      EscapedAlphabet(s[1..]);
      if !KeptInUserinfo(s[0]) {
        HexKept(s[0] as int / 16);
        HexKept(s[0] as int % 16);
      }
    }
  }

  lemma HexKept(n: nat)
    requires n < 16
    ensures KeptInUserinfo(HexDigit(n))
  {
    HexRoundTrip(n);
  }

  // ------------------------------------------------------ in plain characters

  /** `c` is the digit for `n`, in either case. */
  predicate IsDigitFor(c: char, n: nat)
    requires n < 16
  {
    c == "0123456789abcdef"[n] || c == "0123456789ABCDEF"[n]
  }

  lemma HexDigits(n: nat)
    requires n < 16
    ensures forall c :: HexValue(c) == Some(n) <==> IsDigitFor(c, n)
  {
    var lower, upper := "0123456789abcdef", "0123456789ABCDEF";
    assert lower[0] == '0' && lower[1] == '1' && lower[2] == '2' && lower[3] == '3' && lower[4] == '4' && lower[5] == '5';
    assert lower[6] == '6' && lower[7] == '7' && lower[8] == '8' && lower[9] == '9' && lower[10] == 'a' && lower[11] == 'b';
    assert lower[12] == 'c' && lower[13] == 'd' && lower[14] == 'e' && lower[15] == 'f';
    assert upper[0] == '0' && upper[1] == '1' && upper[2] == '2' && upper[3] == '3' && upper[4] == '4' && upper[5] == '5';
    assert upper[6] == '6' && upper[7] == '7' && upper[8] == '8' && upper[9] == '9' && upper[10] == 'A' && upper[11] == 'B';
    assert upper[12] == 'C' && upper[13] == 'D' && upper[14] == 'E' && upper[15] == 'F';
  }

  /** An escape stands for the byte its two digits denote, whatever their case, and what follows is decoded on its own. */
  lemma DecodeByte(n: nat, high: char, low: char, rest: string)
    requires n < 0x100 && IsDigitFor(high, n / 16) && IsDigitFor(low, n % 16)
    ensures Decode(['%', high, low]) == Some([n as char])
    ensures Decode(['%', high, low] + rest) == (if Decode(rest).Some? then Some([n as char] + Decode(rest).value) else None)
  {
    HexDigits(n / 16);
    HexDigits(n % 16);
    hide HexValue, IsDigitFor;
    assert (['%', high, low] + rest)[3..] == rest;
    assert ['%', high, low][3..] == "";
    assert Decode("") == Some("");
    assert [n as char] + "" == [n as char];
  }

  /** A byte of userinfo is kept as it is, or written as `%` and two upper-case digits. */
  lemma EscapeByte(c: char, rest: Bytes)
    requires c as int < 0x100
    ensures EscapeUserinfo([c] + rest) ==
            (if 'a' <= c <= 'z' || 'A' <= c <= 'Z' || '0' <= c <= '9' || c in "-_.~$&+,;=" then [c]
             else ['%', "0123456789ABCDEF"[c as int / 16], "0123456789ABCDEF"[c as int % 16]])
            + EscapeUserinfo(rest)
  {
    assert ([c] + rest)[1..] == rest;
    assert "-_.~$&+,;=" == "-_.~" + "$&+,;=";
  }

  predicate IsHex(c: char) {
    c in "0123456789abcdefABCDEF"
  }

  lemma IsHexIff(c: char)
    ensures HexValue(c).Some? <==> IsHex(c)
  {
    assert "0123456789abcdefABCDEF" == ['0', '1', '2', '3', '4', '5', '6', '7', '8', '9', 'a', 'b', 'c', 'd', 'e', 'f', 'A', 'B', 'C', 'D', 'E', 'F'];
  }

  /** A `%` that two hex digits do not follow. */
  ghost predicate BrokenAt(s: string, i: nat) {
    i < |s| && s[i] == '%' && !(i + 2 < |s| && IsHex(s[i + 1]) && IsHex(s[i + 2]))
  }

  /** Decoding fails exactly on a text with a broken escape somewhere. */
  lemma {:induction false} DecodeFailsIff(s: string)
    ensures Decode(s).None? <==> exists i: nat :: BrokenAt(s, i)
    decreases |s|
  {
    hide IsHex, HexValue, Decode;
    if s == "" {
      EmptyDecodes();
    } else if s[0] != '%' {
      PlainFirst(s);
      DecodeFailsIff(s[1..]);
      BrokenLater(s, 1);
    } else {
      EscapeFirst(s);
      if !BrokenAt(s, 0) {
        HexIsNoPercent(s[1]);
        HexIsNoPercent(s[2]);
        DecodeFailsIff(s[3..]);
        BrokenLater(s, 3);
      }
    }
  }

  lemma EmptyDecodes()
    ensures Decode("") == Some("")
  {
  }

  /** A text that is sound up to `n` is broken exactly if it is from there on. */
  lemma BrokenLater(s: string, n: nat)
    requires n <= |s| && forall i: nat | i < n :: !BrokenAt(s, i)
    ensures (exists i: nat :: BrokenAt(s, i)) <==> exists i: nat :: BrokenAt(s[n..], i)
  {
    hide IsHex;
    if i: nat :| BrokenAt(s[n..], i) {
      assert BrokenAt(s, n + i);
    }
    if i: nat :| BrokenAt(s, i) {
      assert BrokenAt(s[n..], i - n);
    }
  }

  lemma PlainFirst(s: string)
    requires s != "" && s[0] != '%'
    ensures Decode(s).None? <==> Decode(s[1..]).None?
  {
  }

  lemma EscapeFirst(s: string)
    requires s != "" && s[0] == '%'
    ensures BrokenAt(s, 0) ==> Decode(s).None?
    ensures !BrokenAt(s, 0) ==> |s| >= 3 && IsHex(s[1]) && IsHex(s[2]) && (Decode(s).None? <==> Decode(s[3..]).None?)
  {
    hide HexValue, IsHex;
    if |s| >= 3 {
      IsHexIff(s[1]);
      IsHexIff(s[2]);
    }
  }

  lemma HexIsNoPercent(c: char)
    requires IsHex(c)
    ensures c != '%'
  {
  }
}

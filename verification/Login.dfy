/** internal/login/login.go: the stored form of a university login. Characters are code points here. */
module Login {

  /** Unicode White_Space, which strings.TrimSpace cuts. */
  predicate IsSpace(c: char) {
    var n := c as int;
    || 0x09 <= n <= 0x0D || n == 0x20 || n == 0x85 || n == 0xA0 || n == 0x1680
    || 0x2000 <= n <= 0x200A || n == 0x2028 || n == 0x2029 || n == 0x202F || n == 0x205F || n == 0x3000
  }

  /** What a lower-casing of single characters has to satisfy. */
  ghost predicate IsLowerCasing(lower: char -> char) {
    && (forall c :: lower(lower(c)) == lower(c))
    && (forall c :: IsSpace(lower(c)) <==> IsSpace(c))
  }

  /** Lower case of ASCII and Latin-1 letters; other characters are left alone. */
  function LatinLower(c: char): char {
    if 'A' <= c <= 'Z' || (0xC0 <= c as int <= 0xDE && c as int != 0xD7) then (c as int + 32) as char else c
  }

  /** The character table strings.ToLower uses, whatever its version: any lower-casing. */
  type LowerCasing = lower: char -> char | IsLowerCasing(lower) witness LatinLower

  function MapLower(lower: char -> char, s: string): string {
    if s == "" then "" else [lower(s[0])] + MapLower(lower, s[1..])
  }

  function TrimLeft(s: string): string {
    if s != "" && IsSpace(s[0]) then TrimLeft(s[1..]) else s
  }

  function TrimRight(s: string): string {
    if s != "" && IsSpace(s[|s| - 1]) then TrimRight(s[..|s| - 1]) else s
  }

  /** strings.TrimSpace. */
  function TrimSpace(s: string): string {
    TrimRight(TrimLeft(s))
  }

  function Normalize(lower: LowerCasing, universityLogin: string): string {
    TrimSpace(MapLower(lower, universityLogin))
  }

  /** Nothing is left to trim. */
  predicate IsTrimmed(s: string) {
    s != "" ==> !IsSpace(s[0]) && !IsSpace(s[|s| - 1])
  }

  lemma {:induction false} TrimLeftIsSuffix(s: string) returns (n: nat)
    ensures n <= |s| && TrimLeft(s) == s[n..]
    ensures TrimLeft(s) != "" ==> !IsSpace(TrimLeft(s)[0])
  {
    n := 0;
    if s != "" && IsSpace(s[0]) {
      n := TrimLeftIsSuffix(s[1..]);
      n := n + 1;
    }
  }

  lemma {:induction false} TrimRightIsPrefix(s: string) returns (n: nat)
    ensures n <= |s| && TrimRight(s) == s[..n]
    ensures n > 0 ==> !IsSpace(s[n - 1])
  {
    n := |s|;
    if s != "" && IsSpace(s[|s| - 1]) {
      n := TrimRightIsPrefix(s[..|s| - 1]);
    }
  }

  lemma TrimSpaceTrims(s: string)
    ensures IsTrimmed(TrimSpace(s))
    ensures forall x | x in TrimSpace(s) :: x in s
  {
    var n := TrimLeftIsSuffix(s);
    var m := TrimRightIsPrefix(TrimLeft(s));
  }

  lemma TrimmedStays(s: string)
    requires IsTrimmed(s)
    ensures TrimSpace(s) == s
  {
  }

  lemma {:induction false} MapLowerAt(lower: char -> char, s: string)
    ensures |MapLower(lower, s)| == |s|
    ensures forall i | 0 <= i < |s| :: MapLower(lower, s)[i] == lower(s[i])
  {
    if s != "" {
      MapLowerAt(lower, s[1..]);
    }
  }

  lemma {:induction false} MapLowerFixed(lower: char -> char, s: string)
    requires forall i | 0 <= i < |s| :: lower(s[i]) == s[i]
    ensures MapLower(lower, s) == s
  {
    MapLowerAt(lower, s);
  }

  /** Normalizing twice is normalizing once, for every lower-casing. */
  lemma NormalizeIdempotent(lower: LowerCasing, s: string)
    ensures Normalize(lower, Normalize(lower, s)) == Normalize(lower, s)
  {
    var t := MapLower(lower, s);
    MapLowerAt(lower, s);
    var n := TrimLeftIsSuffix(t);
    var m := TrimRightIsPrefix(TrimLeft(t));
    var u := TrimSpace(t);
    TrimSpaceTrims(t);
    assert forall i | 0 <= i < |u| :: u[i] == t[n + i] == lower(s[n + i]);
    MapLowerFixed(lower, u);
    TrimmedStays(u);
  }

  // ------------------------------------------------------ what a login becomes

  /** The White_Space characters of Unicode. */
  const WHITE_SPACE := "\t\n\U{0B}\U{0C}\r \U{85}\U{A0}\U{1680}" +
                       "\U{2000}\U{2001}\U{2002}\U{2003}\U{2004}\U{2005}\U{2006}\U{2007}\U{2008}\U{2009}\U{200A}" +
                       "\U{2028}\U{2029}\U{202F}\U{205F}\U{3000}"

  lemma IsSpaceIs(c: char)
    ensures IsSpace(c) <==> c in WHITE_SPACE
  {
    var n := c as int;
    assert WHITE_SPACE == ['\t', '\n', '\U{0B}', '\U{0C}', '\r', ' ', '\U{85}', '\U{A0}', '\U{1680}',
                           '\U{2000}', '\U{2001}', '\U{2002}', '\U{2003}', '\U{2004}', '\U{2005}', '\U{2006}', '\U{2007}', '\U{2008}',
                           '\U{2009}', '\U{200A}', '\U{2028}', '\U{2029}', '\U{202F}', '\U{205F}', '\U{3000}'];
  }

  predicate AllSpace(s: string) {
    forall i | 0 <= i < |s| :: IsSpace(s[i])
  }

  /** The stored form is the lower case of what is left of the login between its outer white space; nothing is left to lower or to trim. */
  lemma NormalizeIs(lower: LowerCasing, s: string) returns (n: nat, m: nat)
    ensures n <= m <= |s| && AllSpace(s[..n]) && AllSpace(s[m..])
    ensures |Normalize(lower, s)| == m - n && forall i | 0 <= i < m - n :: Normalize(lower, s)[i] == lower(s[n + i])
    ensures IsTrimmed(Normalize(lower, s))
    ensures forall c | c in Normalize(lower, s) :: lower(c) == c
  {
    var t := MapLower(lower, s);
    MapLowerAt(lower, s);
    n := TrimLeftIsSuffix(t);
    m := TrimRightIsPrefix(t[n..]);
    TrimSpaceTrims(t);
    TrimLeftDrops(t, n);
    TrimRightDrops(t[n..], m);
    m := n + m;
    hide TrimLeft, TrimRight, IsSpace;
    forall i | 0 <= i < n
      ensures IsSpace(s[i])
    {
      assert IsSpace(lower(s[i])) <==> IsSpace(s[i]);
      assert t[..n][i] == t[i];
    }
    forall i | m <= i < |s|
      ensures IsSpace(s[i])
    {
      assert IsSpace(lower(s[i])) <==> IsSpace(s[i]);
      assert t[n..][m - n..][i - m] == t[i];
    }
  }

  lemma {:induction false} TrimLeftDrops(s: string, n: nat)
    requires n <= |s| && TrimLeft(s) == s[n..]
    ensures AllSpace(s[..n])
  {
    if s != "" && IsSpace(s[0]) && n > 0 {
      assert s[1..][n - 1..] == s[n..];
      TrimLeftDrops(s[1..], n - 1);
      assert forall i | 1 <= i < n :: s[..n][i] == s[1..][..n - 1][i - 1];
    }
  }

  lemma {:induction false} TrimRightDrops(s: string, n: nat)
    requires n <= |s| && TrimRight(s) == s[..n]
    ensures AllSpace(s[n..])
  {
    if s != "" && IsSpace(s[|s| - 1]) && n < |s| {
      var t := s[..|s| - 1];
      assert t[..n] == s[..n];
      TrimRightDrops(t, n);
      assert forall i | 0 <= i < |s| - n :: s[n..][i] == if i < |s| - n - 1 then t[n..][i] else s[|s| - 1];
    }
  }

  lemma {:induction false} TrimLeftOver(pad: string, s: string)
    requires AllSpace(pad)
    ensures TrimLeft(pad + s) == TrimLeft(s)
    decreases |pad|
  {
    if pad == "" {
      assert pad + s == s;
    } else {
      assert (pad + s)[1..] == pad[1..] + s;
      TrimLeftOver(pad[1..], s);
    }
  }

  lemma {:induction false} TrimRightOver(s: string, pad: string)
    requires AllSpace(pad)
    ensures TrimRight(s + pad) == TrimRight(s)
    decreases |pad|
  {
    if pad == "" {
      assert s + pad == s;
    } else {
      var t := pad[..|pad| - 1];
      assert (s + pad)[|s + pad| - 1] == pad[|pad| - 1] && (s + pad)[..|s + pad| - 1] == s + t;
      TrimRightOver(s, t);
    }
  }

  /** White space after a text does not disturb the trimming before it. */
  lemma {:induction false} TrimSpaceBefore(s: string, pad: string)
    requires AllSpace(pad)
    ensures TrimRight(TrimLeft(s + pad)) == TrimRight(TrimLeft(s))
    decreases |s|
  {
    if s == "" {
      assert s + pad == pad == pad + "";
      TrimLeftOver(pad, "");
    } else if IsSpace(s[0]) {
      assert (s + pad)[1..] == s[1..] + pad;
      TrimSpaceBefore(s[1..], pad);
    } else {
      TrimRightOver(s, pad);
    }
  }

  lemma {:induction false} MapLowerSum(lower: char -> char, a: string, b: string)
    ensures MapLower(lower, a + b) == MapLower(lower, a) + MapLower(lower, b)
    decreases |a|
  {
    if a == "" {
      assert a + b == b;
    } else {
      assert (a + b)[1..] == a[1..] + b;
      MapLowerSum(lower, a[1..], b);
    }
  }

  lemma SpaceStaysSpace(lower: LowerCasing, pad: string)
    requires AllSpace(pad)
    ensures AllSpace(MapLower(lower, pad))
  {
    MapLowerAt(lower, pad);
    hide IsSpace;
    assert forall i | 0 <= i < |pad| :: IsSpace(lower(pad[i])) <==> IsSpace(pad[i]);
  }

  lemma NormalizePadded(lower: LowerCasing, x: string, s: string, y: string)
    requires AllSpace(x) && AllSpace(y)
    ensures Normalize(lower, x + s + y) == Normalize(lower, s)
  {
    SpaceStaysSpace(lower, x);
    SpaceStaysSpace(lower, y);
    hide MapLower, AllSpace, TrimLeft, TrimRight;
    var lx, ls, ly := MapLower(lower, x), MapLower(lower, s), MapLower(lower, y);
    MapLowerSum(lower, x + s, y);
    MapLowerSum(lower, x, s);
    assert lx + ls + ly == lx + (ls + ly);
    TrimLeftOver(lx, ls + ly);
    TrimSpaceBefore(ls, ly);
  }

  lemma SameLowerCase(lower: char -> char, s: string, t: string)
    requires |s| == |t| && forall i | 0 <= i < |s| :: lower(s[i]) == lower(t[i])
    ensures MapLower(lower, s) == MapLower(lower, t)
  {
    MapLowerAt(lower, s);
    MapLowerAt(lower, t);
    hide MapLower;
  }

  /** Logins that differ only in case and in outer white space are stored alike. */
  lemma SameLogin(lower: LowerCasing, x: string, s: string, y: string, u: string, t: string, v: string)
    requires AllSpace(x) && AllSpace(y) && AllSpace(u) && AllSpace(v)
    requires |s| == |t| && forall i | 0 <= i < |s| :: lower(s[i]) == lower(t[i])
    ensures Normalize(lower, x + s + y) == Normalize(lower, u + t + v)
  {
    NormalizePadded(lower, x, s, y);
    NormalizePadded(lower, u, t, v);
    SameLowerCase(lower, s, t);
  }
}

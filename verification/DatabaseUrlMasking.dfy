/**
 * The credential rewrite of utils/sanitizeDatabaseUrl.go.
 *
 * Text is a `string` whose characters each stand for one byte. The pattern is
 * described twice: `Credential` is the language it denotes, `MatchAt` the
 * left-to-right scanner that finds it. `Document` is the reference meaning of
 * "replace every leftmost, non-overlapping match".
 */
module DatabaseUrlMasking {
  import opened Wrappers

  const PLAIN_SCHEME := "postgres://"
  const LONG_SCHEME := "postgresql://"
  const MASK := "***"

  /** RE2's `\s`. */
  predicate IsSpace(c: char) {
    c == '\t' || c == '\n' || c == '\U{0C}' || c == '\r' || c == ' '
  }

  /** The two character classes of the pattern. */
  datatype Class = User | Password {
    predicate Has(c: char) {
      c != '@' && c != '/' && !IsSpace(c) && (User? ==> c != ':')
    }

    predicate HasAll(s: string) {
      forall i | 0 <= i < |s| :: Has(s[i])
    }
  }

  /** A string of the pattern's language, split into its parts. */
  datatype Credential = Credential(scheme: string, user: string, password: string) {
    predicate Valid() {
      && (scheme == PLAIN_SCHEME || scheme == LONG_SCHEME)
      && user != ""
      && User.HasAll(user)
      && Password.HasAll(password)
    }

    function Text(): string {
      scheme + user + ":" + password + "@"
    }

    function Masked(): Credential {
      this.(password := MASK)
    }
  }

  // ---------------------------------------------------------------- scanner

  /** Length of the longest prefix of `s` whose characters are all in the class. */
  function RunLength(s: string, chars: Class): (n: nat)
    ensures n <= |s| && chars.HasAll(s[..n])
    ensures n < |s| ==> !chars.Has(s[n])
  {
    if s == "" || !chars.Has(s[0]) then 0
    else
      var n := 1 + RunLength(s[1..], chars);
      assert s[..n] == [s[0]] + s[1..][..n - 1];
      n
  }

  function SchemeLength(s: string): nat {
    if LONG_SCHEME <= s then |LONG_SCHEME| else if PLAIN_SCHEME <= s then |PLAIN_SCHEME| else 0
  }

  /** The match of the pattern that starts at the first character of `s`, if any. */
  function MatchAt(s: string): Option<Credential> {
    var n := SchemeLength(s);
    if n == 0 then None else
    var u := n + RunLength(s[n..], User);
    if u == n || u == |s| || s[u] != ':' then None else
    var p := u + 1 + RunLength(s[u + 1..], Password);
    if p == |s| || s[p] != '@' then None else Some(Credential(s[..n], s[n..u], s[u + 1..p]))
  }

  lemma PartsOf(s: string, n: nat, u: nat, p: nat)
    requires n < u < p < |s| && s[u] == ':' && s[p] == '@'
    ensures Credential(s[..n], s[n..u], s[u + 1..p]).Text() == s[..p + 1]
  {
    assert s[..u] == s[..n] + s[n..u];
    assert s[..u + 1] == s[..u] + ":";
    assert s[..p] == s[..u + 1] + s[u + 1..p];
    assert s[..p + 1] == s[..p] + "@";
  }

  lemma PartsAreValid(s: string, u: nat, p: nat)
    requires 0 < SchemeLength(s) < u < p < |s| && s[u] == ':' && s[p] == '@'
    requires User.HasAll(s[SchemeLength(s)..u]) && Password.HasAll(s[u + 1..p])
    ensures var c := Credential(s[..SchemeLength(s)], s[SchemeLength(s)..u], s[u + 1..p]);
            c.Valid() && c.Text() <= s && c.Text() != ""
  {
    PartsOf(s, SchemeLength(s), u, p);
    hide Credential.Text;
  }

  lemma MatchIsSound(s: string, c: Credential)
    requires MatchAt(s) == Some(c)
    ensures c.Valid() && c.Text() <= s && c.Text() != ""
  {
    hide Credential.Text, Class.Has, Credential.Valid, RunLength;
    var n := SchemeLength(s);
    var w := RunLength(s[n..], User);
    var v := RunLength(s[n + w + 1..], Password);
    var p := n + w + 1 + v;
    assert s[n..][..w] == s[n..n + w];
    assert s[n + w + 1..][..v] == s[n + w + 1..p];
    PartsAreValid(s, n + w, p);
  }

  lemma {:induction false} RunLengthIs(s: string, chars: Class, n: nat)
    requires n <= |s| && chars.HasAll(s[..n])
    requires n < |s| ==> !chars.Has(s[n])
    ensures RunLength(s, chars) == n
  {
    if n > 0 {
      assert s[..n][0] == s[0];
      assert s[1..][..n - 1] == s[..n][1..];
      RunLengthIs(s[1..], chars, n - 1);
    }
  }

  /** Where the parts of a credential sit in a text that begins with it. */
  lemma PartsIn(s: string, c: Credential)
    requires c.Text() <= s
    ensures |c.scheme| + |c.user| + |c.password| + 2 == |c.Text()| <= |s|
    ensures c.scheme == s[..|c.scheme|]
    ensures c.user == s[|c.scheme|..|c.scheme| + |c.user|]
    ensures s[|c.scheme| + |c.user|] == ':' && s[|c.Text()| - 1] == '@'
    ensures c.password == s[|c.scheme| + |c.user| + 1..|c.Text()| - 1]
  {
    var t := c.Text();
    assert s == t + s[|t|..];
  }

  lemma SchemeLengthIs(s: string, c: Credential)
    requires c.Valid() && c.Text() <= s
    ensures SchemeLength(s) == |c.scheme|
  {
    PartsIn(s, c);
    if c.scheme == PLAIN_SCHEME {
      assert s[8] == c.scheme[8] == ':';
      assert LONG_SCHEME[8] == 'q';
    }
  }

  lemma RunsIn(s: string, c: Credential)
    requires c.Valid() && c.Text() <= s
    ensures RunLength(s[|c.scheme|..], User) == |c.user|
    ensures RunLength(s[|c.scheme| + |c.user| + 1..], Password) == |c.password|
  {
    PartsIn(s, c);
    hide Credential.Text;
    var n := |c.scheme|;
    var u := n + |c.user|;
    assert s[n..][..|c.user|] == c.user;
    assert s[n..][|c.user|] == s[u];
    RunLengthIs(s[n..], User, |c.user|);
    assert s[u + 1..][..|c.password|] == c.password;
    assert s[u + 1..][|c.password|] == s[|c.Text()| - 1];
    RunLengthIs(s[u + 1..], Password, |c.password|);
  }

  lemma MatchFrom(s: string, u: nat, p: nat)
    requires 0 < SchemeLength(s) < u < p < |s| && s[u] == ':' && s[p] == '@'
    requires RunLength(s[SchemeLength(s)..], User) == u - SchemeLength(s)
    requires RunLength(s[u + 1..], Password) == p - u - 1
    ensures MatchAt(s) == Some(Credential(s[..SchemeLength(s)], s[SchemeLength(s)..u], s[u + 1..p]))
  {
    hide RunLength, SchemeLength;
  }

  lemma MatchIsComplete(s: string, c: Credential)
    requires c.Valid() && c.Text() <= s
    ensures MatchAt(s) == Some(c)
  {
    hide *;
    PartsAreThere(c);
    PartsIn(s, c);
    SchemeLengthIs(s, c);
    RunsIn(s, c);
    MatchFrom(s, |c.scheme| + |c.user|, |c.Text()| - 1);
  }

  lemma PartsAreThere(c: Credential)
    requires c.Valid()
    ensures c.scheme != "" && c.user != ""
  {
  }

  /** The scanner finds exactly the strings of the pattern's language, and at most one starts at any point. */
  lemma MatchIsDeterministic(s: string, c: Credential)
    ensures MatchAt(s) == Some(c) <==> c.Valid() && c.Text() <= s
  {
    hide MatchAt, Credential.Valid, Credential.Text;
    if MatchAt(s) == Some(c) {
      MatchIsSound(s, c);
    }
    if c.Valid() && c.Text() <= s {
      MatchIsComplete(s, c);
    }
  }

  /** SanitizeDatabaseURL: one left-to-right pass over the text. */
  function Sanitize(s: string): string {
    if s == "" then ""
    else
      match MatchAt(s)
      case Some(c) =>
        MatchIsSound(s, c);
        c.Masked().Text() + Sanitize(s[|c.Text()|..])
      case None => [s[0]] + Sanitize(s[1..])
  }

  // ------------------------------------------------- where a match can lie

  /** No match that starts inside `a` reaches into `b`. */
  ghost predicate Separated(a: string, b: string) {
    forall i, c: Credential | 0 <= i < |a| && c.Valid() && c.Text() <= (a + b)[i..] :: i + |c.Text()| <= |a|
  }

  lemma SeparatedMatch(a: string, b: string)
    requires Separated(a, b) && a != ""
    ensures MatchAt(a + b) == MatchAt(a)
  {
    var s := a + b;
    assert s[0..] == s;
    if MatchAt(s).Some? {
      var c := MatchAt(s).value;
      MatchIsSound(s, c);
      assert c.Text() <= a;
      MatchIsDeterministic(a, c);
    } else if MatchAt(a).Some? {
      MatchIsSound(a, MatchAt(a).value);
      MatchIsDeterministic(s, MatchAt(a).value);
    }
  }

  lemma SeparatedTail(a: string, b: string, n: nat)
    requires Separated(a, b) && n <= |a|
    ensures Separated(a[n..], b)
  {
    forall i, c: Credential | 0 <= i < |a[n..]| && c.Valid() && c.Text() <= (a[n..] + b)[i..]
      ensures i + |c.Text()| <= |a[n..]|
    {
      assert (a[n..] + b)[i..] == (a + b)[n + i..];
    }
  }

  /** Texts that no match straddles can be sanitized one by one. */
  lemma {:induction false} SanitizeSeparated(a: string, b: string)
    requires Separated(a, b)
    ensures Sanitize(a + b) == Sanitize(a) + Sanitize(b)
    decreases |a|
  {
    hide MatchAt, Separated;
    if a == "" {
      assert a + b == b;
    } else {
      SeparatedMatch(a, b);
      var n := 1;
      var head := [a[0]];
      if MatchAt(a).Some? {
        var c := MatchAt(a).value;
        MatchIsSound(a, c);
        n, head := |c.Text()|, c.Masked().Text();
      }
      assert (a + b)[n..] == a[n..] + b;
      SeparatedTail(a, b, n);
      SanitizeSeparated(a[n..], b);
      assert Sanitize(a + b) == head + (Sanitize(a[n..]) + Sanitize(b));
    }
  }

  lemma TextPosition(c: Credential, k: nat)
    requires c.Valid() && |c.scheme| <= k < |c.Text()|
    ensures c.Text()[k] != '/'
  {
    var u := |c.scheme| + |c.user|;
    if k < u {
      assert c.Text()[k] == c.user[k - |c.scheme|];
    } else if u < k < |c.Text()| - 1 {
      assert c.Text()[k] == c.password[k - u - 1];
    }
  }

  lemma TextHasNoSpace(c: Credential, k: nat)
    requires c.Valid() && k < |c.Text()|
    ensures !IsSpace(c.Text()[k])
  {
    var u := |c.scheme| + |c.user|;
    if |c.scheme| <= k < u {
      assert c.Text()[k] == c.user[k - |c.scheme|];
    } else if u < k < |c.Text()| - 1 {
      assert c.Text()[k] == c.password[k - u - 1];
    }
  }

  /** A match never crosses a line break. */
  lemma NewlineSeparates(a: string, b: string)
    requires a != "" ==> a[|a| - 1] == '\n'
    ensures Separated(a, b)
  {
    forall i, c: Credential | 0 <= i < |a| && c.Valid() && c.Text() <= (a + b)[i..]
      ensures i + |c.Text()| <= |a|
    {
      var k := |a| - 1 - i;
      assert (a + b)[i..][k] == a[|a| - 1];
      if k < |c.Text()| {
        TextHasNoSpace(c, k);
      }
    }
  }

  /** The scheme holds `p` only at its first place, so no second credential can start inside a first one. */
  lemma SchemeDiffers(c: Credential, k: nat, d: Credential) returns (j: nat)
    requires c.Valid() && d.Valid() && 0 < k < |c.Text()|
    ensures j < |d.scheme| && k + j < |c.Text()| && c.Text()[k + j] != d.scheme[j]
  {
    var slash := |d.scheme| - 1;
    if k < |c.scheme| {
      j := 0;
      assert c.Text()[k] == c.scheme[k] != 'p';
    } else if k + slash < |c.Text()| {
      j := slash;
      TextPosition(c, k + slash);
    } else {
      j := |c.Text()| - 1 - k;
    }
  }

  /** What a match starting in `a` shows of the credential that follows. */
  lemma OverlapAgrees(a: string, d: Credential, rest: string, i: nat, c: Credential, j: nat)
    requires i < |a| && c.Text() <= (a + (d.Text() + rest))[i..]
    requires j < |d.scheme| && |a| - i + j < |c.Text()|
    ensures c.Text()[|a| - i + j] == d.scheme[j]
  {
    var b := d.Text() + rest;
    assert (a + b)[i..][|a| - i + j] == b[j];
    assert d.Text()[j] == d.scheme[j];
  }

  lemma MatchEndsBefore(a: string, d: Credential, rest: string, i: nat, c: Credential)
    requires c.Valid() && d.Valid() && i < |a| && c.Text() <= (a + (d.Text() + rest))[i..]
    ensures i + |c.Text()| <= |a|
  {
    hide Credential.Text, Credential.Valid;
    if i + |c.Text()| > |a| {
      forall j: nat | j < |d.scheme| && |a| - i + j < |c.Text()|
        ensures c.Text()[|a| - i + j] == d.scheme[j]
      {
        OverlapAgrees(a, d, rest, i, c, j);
      }
      var j := SchemeDiffers(c, |a| - i, d);
    }
  }

  /** A match never crosses into a following credential. */
  lemma CredentialSeparates(a: string, d: Credential, rest: string)
    requires d.Valid()
    ensures Separated(a, d.Text() + rest)
  {
    hide Credential.Text, Credential.Valid;
    forall i, c: Credential | 0 <= i < |a| && c.Valid() && c.Text() <= (a + (d.Text() + rest))[i..]
      ensures i + |c.Text()| <= |a|
    {
      MatchEndsBefore(a, d, rest, i, c);
    }
  }

  lemma SanitizeCredential(c: Credential, suffix: string)
    requires c.Valid()
    ensures Sanitize(c.Text() + suffix) == c.Masked().Text() + Sanitize(suffix)
  {
    MatchIsDeterministic(c.Text() + suffix, c);
    MatchIsSound(c.Text() + suffix, c);
    hide MatchAt, Credential.Text, Credential.Masked;
    assert (c.Text() + suffix)[|c.Text()|..] == suffix;
  }

  /**
   * Decomposition: a credential inside any text is rewritten on its own, and the text
   * on either side is sanitized as if it stood alone.
   */
  lemma Decomposition(prefix: string, c: Credential, suffix: string)
    requires c.Valid()
    ensures Sanitize(prefix + c.Text() + suffix) == Sanitize(prefix) + c.Masked().Text() + Sanitize(suffix)
  {
    hide *;
    assert prefix + c.Text() + suffix == prefix + (c.Text() + suffix);
    CredentialSeparates(prefix, c, suffix);
    SanitizeSeparated(prefix, c.Text() + suffix);
    SanitizeCredential(c, suffix);
    assert Sanitize(prefix) + (c.Masked().Text() + Sanitize(suffix)) == Sanitize(prefix) + c.Masked().Text() + Sanitize(suffix);
  }

  /** Non-interference: the output does not depend on the password. */
  lemma PasswordIndependence(prefix: string, c: Credential, d: Credential, suffix: string)
    requires c.Valid() && d.Valid() && c.scheme == d.scheme && c.user == d.user
    ensures Sanitize(prefix + c.Text() + suffix) == Sanitize(prefix + d.Text() + suffix)
  {
    Decomposition(prefix, c, suffix);
    Decomposition(prefix, d, suffix);
  }

  // ------------------------------------------------------ reference meaning

  /** A text cut at its matches: free text, a match, and so on. */
  datatype Document = Tail(text: string) | Found(gap: string, credential: Credential, next: Document)

  function Render(d: Document): string {
    match d
    case Tail(t) => t
    case Found(gap, c, next) => gap + c.Text() + Render(next)
  }

  /** No match starts in the first `n` places of `t`. */
  ghost predicate NoMatchBefore(n: nat, t: string)
    requires n <= |t|
  {
    forall i, c: Credential | 0 <= i < n && c.Valid() :: !(c.Text() <= t[i..])
  }

  /** The matches are the leftmost ones, taken one after the other without overlap. */
  ghost predicate Leftmost(d: Document) {
    match d
    case Tail(t) => NoMatchBefore(|t|, t)
    case Found(gap, c, next) => c.Valid() && NoMatchBefore(|gap|, Render(d)) && Leftmost(next)
  }

  function MaskAll(d: Document): Document {
    match d
    case Tail(_) => d
    case Found(gap, c, next) => Found(gap, c.Masked(), MaskAll(next))
  }

  lemma Pieces(gap: string, text: string, rest: string)
    ensures var t := gap + text + rest;
            && |gap| + |text| <= |t| && gap == t[..|gap|]
            && t[|gap|..] == text + rest && rest == t[|gap| + |text|..]
  {
  }

  lemma FoundParts(d: Document)
    requires d.Found? && d.credential.Valid()
    ensures var t, g, n := Render(d), |d.gap|, |d.credential.Text()|;
            && g + n <= |t| && n > 0
            && d.gap == t[..g]
            && MatchAt(t[g..]) == Some(d.credential)
            && Render(d.next) == t[g + n..]
  {
    var text, rest := d.credential.Text(), Render(d.next);
    assert Render(d) == d.gap + text + rest && |text| > 0;
    hide *;
    Pieces(d.gap, text, rest);
    MatchIsDeterministic(text + rest, d.credential);
  }

  /** The gap before a leftmost match is not longer than the place of any match. */
  lemma GapIsShortest(t: string, n: nat, place: nat, c: Credential)
    requires n <= |t| && NoMatchBefore(n, t)
    requires place <= |t| && MatchAt(t[place..]) == Some(c)
    ensures n <= place
  {
    hide MatchAt, Credential.Text, Credential.Valid;
    MatchIsSound(t[place..], c);
  }

  /** A text has one such cutting only. */
  lemma {:induction false} LeftmostIsUnique(d: Document, e: Document)
    requires Leftmost(d) && Leftmost(e) && Render(d) == Render(e)
    ensures d == e
  {
    hide MatchAt, Credential.Text, Credential.Valid, NoMatchBefore;
    var t := Render(d);
    if d.Found? {
      FoundParts(d);
      GapIsShortest(t, if e.Tail? then |t| else |e.gap|, |d.gap|, d.credential);
    }
    if e.Found? {
      FoundParts(e);
      GapIsShortest(t, if d.Tail? then |t| else |d.gap|, |e.gap|, e.credential);
    }
    if d.Found? && e.Found? {
      LeftmostIsUnique(d.next, e.next);
    }
  }

  function Prepend(ch: char, d: Document): (r: Document)
    ensures Render(r) == [ch] + Render(d)
  {
    match d
    case Tail(t) => Tail([ch] + t)
    case Found(gap, c, next) =>
      assert [ch] + (gap + c.Text() + Render(next)) == [ch] + gap + c.Text() + Render(next);
      Found([ch] + gap, c, next)
  }

  /** The cutting the scanner computes. */
  function Scan(s: string): (d: Document)
    ensures Render(d) == s
  {
    hide MatchAt, Credential.Text;
    if s == "" then Tail("")
    else
      match MatchAt(s)
      case Some(c) =>
        MatchIsSound(s, c);
        assert "" + c.Text() + s[|c.Text()|..] == s;
        Found("", c, Scan(s[|c.Text()|..]))
      case None => Prepend(s[0], Scan(s[1..]))
  }

  lemma {:induction false} ScanIsLeftmost(s: string)
    ensures Leftmost(Scan(s))
    decreases |s|
  {
    hide MatchAt, Credential.Valid, Credential.Text;
    if s != "" {
      match MatchAt(s) {
        case Some(c) =>
          MatchIsSound(s, c);
          ScanIsLeftmost(s[|c.Text()|..]);
        case None =>
          ScanIsLeftmost(s[1..]);
          var d := Scan(s[1..]);
          var n := if d.Tail? then |d.text| else |d.gap|;
          assert NoMatchBefore(n, s[1..]);
          assert NoMatchBefore(n + 1, s) by {
            forall i, c: Credential | 0 <= i < n + 1 && c.Valid()
              ensures !(c.Text() <= s[i..])
            {
              if i == 0 {
                MatchIsDeterministic(s, c);
                assert s[0..] == s;
              } else {
                assert s[i..] == s[1..][i - 1..];
              }
            }
          }
      }
    }
  }

  /** The pass masks exactly the passwords of the leftmost matches and keeps every other byte in place. */
  lemma {:induction false} SanitizeIsReference(s: string)
    ensures Sanitize(s) == Render(MaskAll(Scan(s)))
    decreases |s|
  {
    hide MatchAt, Credential.Text;
    if s != "" {
      match MatchAt(s) {
        case Some(c) =>
          MatchIsSound(s, c);
          SanitizeIsReference(s[|c.Text()|..]);
        case None =>
          SanitizeIsReference(s[1..]);
          var d := Scan(s[1..]);
          assert MaskAll(Prepend(s[0], d)) == Prepend(s[0], MaskAll(d));
      }
    }
  }

  /** What stands after a gap may change from one credential to another: no match appears in the gap. */
  lemma GapStaysFree(gap: string, c: Credential, rest: string, d: Credential, rest': string)
    requires c.Valid() && d.Valid()
    requires NoMatchBefore(|gap|, gap + c.Text() + rest)
    ensures NoMatchBefore(|gap|, gap + d.Text() + rest')
  {
    hide Credential.Text;
    var t, b := gap + c.Text() + rest, d.Text() + rest';
    assert gap + d.Text() + rest' == gap + b;
    CredentialSeparates(gap, d, rest');
    forall i, m: Credential | 0 <= i < |gap| && m.Valid()
      ensures !(m.Text() <= (gap + b)[i..])
    {
      var n := |m.Text()|;
      if i + n <= |gap| {
        assert t[i..][..n] == gap[i..i + n] == (gap + b)[i..][..n];
      }
    }
  }

  lemma {:induction false} MaskAllKeepsLeftmost(d: Document)
    requires Leftmost(d)
    ensures Leftmost(MaskAll(d))
  {
    if d.Found? {
      MaskAllKeepsLeftmost(d.next);
      GapStaysFree(d.gap, d.credential, Render(d.next), d.credential.Masked(), Render(MaskAll(d.next)));
    }
  }

  /**
   * What is left after masking: the same free text, the same schemes and users in the
   * same order, and `***` as the password of every match that can still be found.
   */
  lemma OutputScan(s: string)
    ensures Scan(Sanitize(s)) == MaskAll(Scan(s))
  {
    SanitizeIsReference(s);
    ScanIsLeftmost(s);
    MaskAllKeepsLeftmost(Scan(s));
    ScanIsLeftmost(Sanitize(s));
    LeftmostIsUnique(Scan(Sanitize(s)), MaskAll(Scan(s)));
  }

  lemma {:induction false} MaskAllIdempotent(d: Document)
    ensures MaskAll(MaskAll(d)) == MaskAll(d)
  {
    if d.Found? {
      MaskAllIdempotent(d.next);
    }
  }

  /** Masking a masked text changes nothing. */
  lemma SanitizeIdempotent(s: string)
    ensures Sanitize(Sanitize(s)) == Sanitize(s)
  {
    OutputScan(s);
    SanitizeIsReference(s);
    SanitizeIsReference(Sanitize(s));
    MaskAllIdempotent(Scan(s));
  }

  // ------------------------------------------------------ in plain characters

  /** What `[^:@/\s]` refuses. */
  const NOT_IN_USER := ":@/\t\n\U{0C}\r "

  /** What `[^@/\s]` refuses. */
  const NOT_IN_PASSWORD := "@/\t\n\U{0C}\r "

  predicate Avoids(s: string, refused: string) {
    forall ch | ch in s :: ch !in refused
  }

  lemma HasAllIs(s: string)
    ensures User.HasAll(s) <==> Avoids(s, NOT_IN_USER)
    ensures Password.HasAll(s) <==> Avoids(s, NOT_IN_PASSWORD)
  {
    forall ch: char
      ensures User.Has(ch) <==> ch !in NOT_IN_USER
      ensures Password.Has(ch) <==> ch !in NOT_IN_PASSWORD
    {
      assert NOT_IN_USER == [':', '@', '/', '\t', '\n', '\U{0C}', '\r', ' '];
      assert NOT_IN_PASSWORD == ['@', '/', '\t', '\n', '\U{0C}', '\r', ' '];
    }
    hide Class.Has;
    assert forall i | 0 <= i < |s| :: s[i] in s;
  }

  /** The scanner finds what the pattern says, character by character. */
  lemma MatchLiterally(s: string, scheme: string, user: string, password: string)
    ensures MatchAt(s) == Some(Credential(scheme, user, password)) <==>
            && (scheme == "postgres://" || scheme == "postgresql://")
            && user != "" && Avoids(user, NOT_IN_USER) && Avoids(password, NOT_IN_PASSWORD)
            && scheme + user + ":" + password + "@" <= s
  {
    MatchIsDeterministic(s, Credential(scheme, user, password));
    HasAllIs(user);
    HasAllIs(password);
    hide MatchAt, Class.HasAll, Avoids;
  }

  /** The password of a credential comes out as `***`, and everything around it as if it stood alone. */
  lemma MaskedLiterally(prefix: string, scheme: string, user: string, password: string, suffix: string)
    requires scheme == "postgres://" || scheme == "postgresql://"
    requires user != "" && Avoids(user, NOT_IN_USER) && Avoids(password, NOT_IN_PASSWORD)
    ensures Sanitize(prefix + scheme + user + ":" + password + "@" + suffix) ==
            Sanitize(prefix) + scheme + user + ":***@" + Sanitize(suffix)
  {
    var c := Credential(scheme, user, password);
    HasAllIs(user);
    HasAllIs(password);
    assert c.Valid();
    TextOf(scheme, user, password);
    hide *;
    Decomposition(prefix, c, suffix);
    Flatten5(prefix, scheme, user, ":", password, "@");
    Flatten3(Sanitize(prefix), scheme, user, ":***@");
  }

  lemma TextOf(scheme: string, user: string, password: string)
    ensures Credential(scheme, user, password).Text() == scheme + user + ":" + password + "@"
    ensures Credential(scheme, user, password).Masked().Text() == scheme + user + ":***@"
  {
    assert scheme + user + ":" + "***" + "@" == scheme + user + ":***@";
  }

  lemma Flatten3(p: string, a: string, b: string, c: string)
    ensures p + (a + b + c) == p + a + b + c
  {
  }

  lemma Flatten5(p: string, a: string, b: string, c: string, d: string, e: string)
    ensures p + (a + b + c + d + e) == p + a + b + c + d + e
  {
    Flatten3(p, a, b, c);
    Flatten3(p, a + b + c, d, e);
  }

  /** Every match of a text has the password `***`. */
  predicate AllMasked(d: Document) {
    d.Found? ==> d.credential.password == "***" && AllMasked(d.next)
  }

  lemma {:induction false} MaskAllIff(d: Document)
    ensures AllMasked(MaskAll(d))
    ensures MaskAll(d) == d <==> AllMasked(d)
  {
    if d.Found? {
      MaskAllIff(d.next);
    }
  }

  /** Whatever the text, every credential that can still be found in the output has the password `***`. */
  lemma OutputShowsNoPassword(s: string)
    ensures AllMasked(Scan(Sanitize(s)))
  {
    OutputScan(s);
    MaskAllIff(Scan(s));
  }

  /** A text is left as it is exactly when every credential in it has the password `***` already. */
  lemma UntouchedIff(s: string)
    ensures Sanitize(s) == s <==> AllMasked(Scan(s))
  {
    SanitizeIsReference(s);
    OutputScan(s);
    MaskAllIff(Scan(s));
    hide Sanitize, MaskAll, AllMasked;
  }
}

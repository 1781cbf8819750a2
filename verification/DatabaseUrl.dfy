/**
 * buildDatabaseURL of utils/getDatabaseUrl.go, and what the masking of
 * migrate's output does to the URLs it builds.
 */
module DatabaseUrl {
  import opened Wrappers
  import opened DatabaseUrlMasking
  import opened MaskingWriter
  import opened PercentCoding

  /** The credential part of the URL. */
  function Userinfo(user: Bytes, password: Bytes): Credential {
    Credential(PLAIN_SCHEME, EscapeUserinfo(user), EscapeUserinfo(password))
  }

  /** The URL; `rest` is the host, port, path and query that follow the `@`. */
  function Build(user: Bytes, password: Bytes, rest: string): string {
    PLAIN_SCHEME + EscapeUserinfo(user) + ":" + EscapeUserinfo(password) + "@" + rest
  }

  lemma BuildText(user: Bytes, password: Bytes, rest: string)
    ensures Build(user, password, rest) == Userinfo(user, password).Text() + rest
  {
  }

  /** The URL names the user and the password: the text between its separators decodes to them. */
  lemma BuildRoundTrip(user: Bytes, password: Bytes, rest: string)
    ensures var u, p := EscapeUserinfo(user), EscapeUserinfo(password);
            && Build(user, password, rest) == "postgres://" + u + ":" + p + "@" + rest
            && Avoids(u, NOT_IN_USER) && Avoids(p, NOT_IN_USER)
            && Decode(u) == Some(user) && Decode(p) == Some(password)
  {
    EscapeRoundTrip(user);
    EscapeRoundTrip(password);
    EscapedIsMaskable(user);
    EscapedIsMaskable(password);
    HasAllIs(EscapeUserinfo(user));
    HasAllIs(EscapeUserinfo(password));
    hide EscapeUserinfo, Decode, Class.HasAll, Avoids;
  }

  /** Escaped userinfo holds no `@`, `/`, `:` or whitespace. */
  lemma EscapedIsMaskable(s: Bytes)
    ensures User.HasAll(EscapeUserinfo(s)) && Password.HasAll(EscapeUserinfo(s))
  {
    EscapedAlphabet(s);
    hide EscapeUserinfo;
  }

  lemma UserinfoIsCredential(user: Bytes, password: Bytes)
    ensures Userinfo(user, password).Valid() <==> user != ""
  {
    EscapedIsMaskable(user);
    EscapedIsMaskable(password);
    EscapedAlphabet(user);
    hide EscapeUserinfo, Class.HasAll;
  }

  /** A text with `url` between each two of its pieces. */
  function Embed(first: string, more: seq<string>, url: string): string
    decreases |more|
  {
    if more == [] then first else first + url + Embed(more[0], more[1..], url)
  }

  /** The same text masked: every piece sanitized on its own, `masked` in place of every credential. */
  function EmbedMasked(first: string, more: seq<string>, masked: string, rest: string): string
    decreases |more|
  {
    if more == [] then Sanitize(first)
    else Sanitize(first) + masked + EmbedMasked(rest + more[0], more[1..], masked, rest)
  }

  lemma EmbedPrefix(prefix: string, first: string, more: seq<string>, url: string)
    ensures prefix + Embed(first, more, url) == Embed(prefix + first, more, url)
  {
    if more != [] {
      var tail := Embed(more[0], more[1..], url);
      assert prefix + (first + url + tail) == prefix + first + url + tail;
    }
  }

  lemma {:induction false} EmbedIsMasked(first: string, more: seq<string>, c: Credential, rest: string)
    requires c.Valid()
    ensures Sanitize(Embed(first, more, c.Text() + rest)) == EmbedMasked(first, more, c.scheme + c.user + ":***@", rest)
    decreases |more|
  {
    TextOf(c.scheme, c.user, c.password);
    hide Sanitize, Credential.Text, Credential.Valid, Credential.Masked;
    if more != [] {
      var url := c.Text() + rest;
      var tail := Embed(more[0], more[1..], url);
      EmbedPrefix(rest, more[0], more[1..], url);
      EmbedIsMasked(rest + more[0], more[1..], c, rest);
      Decomposition(first, c, rest + tail);
      assert first + url + tail == first + c.Text() + (rest + tail);
    }
  }

  /**
   * End to end: text that holds the built URL any number of times, written to the masking
   * writer in any pieces, comes out the same whatever the password is.
   */
  lemma MaskedOutputIgnoresPassword(user: Bytes, p: Bytes, q: Bytes, rest: string,
                                    first: string, more: seq<string>,
                                    chunksP: seq<string>, chunksQ: seq<string>)
    requires user != ""
    requires Flatten(chunksP) == Embed(first, more, Build(user, p, rest))
    requires Flatten(chunksQ) == Embed(first, more, Build(user, q, rest))
    ensures AfterFlush(AfterWrites(Holding(""), chunksP)) == AfterFlush(AfterWrites(Holding(""), chunksQ))
    ensures AfterFlush(AfterWrites(Holding(""), chunksP)).forwarded ==
            EmbedMasked(first, more, "postgres://" + EscapeUserinfo(user) + ":***@", rest)
  {
    hide Sanitize, AfterFlush, AfterWrites, Holding, Flatten, Embed, EmbedMasked, Credential.Text, Build, EscapeUserinfo;
    ChunkingIndependence(chunksP);
    ChunkingIndependence(chunksQ);
    MaskedUrlText(user, p, rest, first, more);
    MaskedUrlText(user, q, rest, first, more);
  }

  lemma MaskedUrlText(user: Bytes, password: Bytes, rest: string, first: string, more: seq<string>)
    requires user != ""
    ensures Sanitize(Embed(first, more, Build(user, password, rest))) ==
            EmbedMasked(first, more, "postgres://" + EscapeUserinfo(user) + ":***@", rest)
  {
    BuildText(user, password, rest);
    UserinfoIsCredential(user, password);
    hide Sanitize, Credential.Text, Credential.Valid, Build, EscapeUserinfo, Embed, EmbedMasked;
    EmbedIsMasked(first, more, Userinfo(user, password), rest);
  }

  // ------------------------------------------------ the empty user name

  lemma {:induction false} NoMatchNoChange(t: string, rest: string)
    requires NoMatchBefore(|t|, t + rest)
    ensures Sanitize(t + rest) == t + Sanitize(rest)
    decreases |t|
  {
    hide MatchAt, Credential.Text, Credential.Valid;
    var s := t + rest;
    if t == "" {
      assert s == rest;
    } else {
      assert s[0..] == s && s[1..] == t[1..] + rest;
      if MatchAt(s).Some? {
        MatchIsSound(s, MatchAt(s).value);
      }
      forall i, c: Credential | 0 <= i < |t| - 1 && c.Valid()
        ensures !(c.Text() <= (t[1..] + rest)[i..])
      {
        assert (t[1..] + rest)[i..] == s[i + 1..];
      }
      NoMatchNoChange(t[1..], rest);
    }
  }

  /** With an empty user name no credential can start anywhere up to the `@`. */
  lemma EmptyUserDiffers(e: string, i: nat, c: Credential) returns (j: nat)
    requires Password.HasAll(e) && User.HasAll(e) && c.Valid()
    requires i < |PLAIN_SCHEME| + 2 + |e|
    ensures j < |c.Text()| && i + j < |PLAIN_SCHEME| + 2 + |e|
    ensures (PLAIN_SCHEME + ":" + e + "@")[i + j] != c.Text()[j]
  {
    var t := PLAIN_SCHEME + ":" + e + "@";
    var n := |PLAIN_SCHEME|;
    var m := |c.scheme| - 3;
    assert forall k | n < k < |t| - 1 :: t[k] == e[k - n - 1] != ':';
    assert c.scheme[m] == ':' && c.scheme[m + 1] == '/';
    if i == 0 {
      if c.scheme == LONG_SCHEME {
        j := 8;
      } else {
        j := n;
        assert c.Text()[n] == c.user[0];
      }
    } else if i + m >= |t| - 1 {
      j := |t| - 1 - i;
      assert c.Text()[j] == c.scheme[j] != '@';
    } else if t[i + m] != ':' {
      j := m;
    } else {
      j := m + 1;
      if e != "" {
        assert t[n + 1] == e[0];
      }
    }
  }

  /** Nothing of a URL without a user name is masked. */
  lemma EmptyUserIsUntouched(password: Bytes, rest: string)
    ensures Sanitize(Build("", password, rest)) == Build("", password, Sanitize(rest))
  {
    EscapedIsMaskable(password);
    var e := EscapeUserinfo(password);
    var t := PLAIN_SCHEME + ":" + e + "@";
    BuildEmptyUser(password, rest);
    BuildEmptyUser(password, Sanitize(rest));
    hide Sanitize, Build, EscapeUserinfo, Class.HasAll, Credential.Text, Credential.Valid;
    forall i, c: Credential | 0 <= i < |t| && c.Valid()
      ensures !(c.Text() <= (t + rest)[i..])
    {
      var j := EmptyUserDiffers(e, i, c);
      assert i + j < |t + rest| ==> (t + rest)[i..][j] == t[i + j];
    }
    NoMatchNoChange(t, rest);
  }

  lemma BuildEmptyUser(password: Bytes, rest: string)
    ensures Build("", password, rest) == PLAIN_SCHEME + ":" + EscapeUserinfo(password) + "@" + rest
  {
    assert EscapeUserinfo("") == "";
    hide EscapeUserinfo;
    assert PLAIN_SCHEME + "" == PLAIN_SCHEME;
  }

  lemma KeptIsNotEscaped(c: char)
    requires KeptInUserinfo(c)
    ensures EscapeUserinfo([c]) == [c]
  {
    assert [c][1..] == "";
  }

  /** Two passwords that stay apart in the output when the user name is empty. */
  lemma EmptyUserKeepsPassword(rest: string)
    ensures Sanitize(Build("", "a", rest)) != Sanitize(Build("", "b", rest))
  {
    EmptyUserIsUntouched("a", rest);
    EmptyUserIsUntouched("b", rest);
    BuildEmptyUser("a", Sanitize(rest));
    BuildEmptyUser("b", Sanitize(rest));
    KeptIsNotEscaped('a');
    KeptIsNotEscaped('b');
    hide Sanitize, Build, EscapeUserinfo;
    var x, y := Build("", "a", Sanitize(rest)), Build("", "b", Sanitize(rest));
    assert x[|PLAIN_SCHEME| + 1] == 'a' && y[|PLAIN_SCHEME| + 1] == 'b';
  }

  /** The built URL is masked independently of its password exactly when the user name is not empty. */
  lemma PasswordHiddenIff(user: Bytes, rest: string)
    ensures (forall p: Bytes, q: Bytes :: Sanitize(Build(user, p, rest)) == Sanitize(Build(user, q, rest))) <==> user != ""
  {
    hide Sanitize, Build;
    if user == "" {
      EmptyUserKeepsPassword(rest);
    } else {
      forall p: Bytes, q: Bytes
        ensures Sanitize(Build(user, p, rest)) == Sanitize(Build(user, q, rest))
      {
        UrlIgnoresPassword(user, p, q, rest);
      }
    }
  }

  lemma UrlIgnoresPassword(user: Bytes, p: Bytes, q: Bytes, rest: string)
    requires user != ""
    ensures Sanitize(Build(user, p, rest)) == Sanitize(Build(user, q, rest))
  {
    BuildText(user, p, rest);
    BuildText(user, q, rest);
    UserinfoIsCredential(user, p);
    UserinfoIsCredential(user, q);
    hide Sanitize, Build, Credential.Text, Credential.Valid, EscapeUserinfo;
    var c, d := Userinfo(user, p), Userinfo(user, q);
    PasswordIndependence("", c, d, rest);
    assert "" + c.Text() + rest == c.Text() + rest;
    assert "" + d.Text() + rest == d.Text() + rest;
  }
}

/** The line-buffering writer of utils/runMigrations.go that masks migrate's output. */
module MaskingWriter {
  import opened DatabaseUrlMasking

  /** bytes.IndexByte for the line feed; -1 when there is none. */
  function IndexOfNewline(s: string): (i: int)
    ensures -1 <= i < |s|
    ensures i >= 0 ==> s[i] == '\n' && '\n' !in s[..i]
    ensures i < 0 ==> '\n' !in s
  {
    if s == "" then -1
    else if s[0] == '\n' then 0
    else
      var i := IndexOfNewline(s[1..]);
      assert s == [s[0]] + s[1..];
      assert i >= 0 ==> s[..i + 1] == [s[0]] + s[1..][..i];
      if i < 0 then -1 else i + 1
  }

  /** Length of the part of a text that ends with its last line feed. */
  function CompleteLength(s: string): (n: nat)
    ensures n <= |s|
    ensures n > 0 ==> s[n - 1] == '\n'
    ensures '\n' !in s[n..]
  {
    if s == "" then 0
    else if s[|s| - 1] == '\n' then |s|
    else
      var n := CompleteLength(s[..|s| - 1]);
      assert s[n..] == s[..|s| - 1][n..] + [s[|s| - 1]];
      n
  }

  lemma {:induction false} CompleteLengthIs(s: string, n: nat)
    requires n <= |s| && (n > 0 ==> s[n - 1] == '\n') && '\n' !in s[n..]
    ensures CompleteLength(s) == n
  {
    if n < |s| {
      assert s[n..][|s| - 1 - n] == s[|s| - 1];
      assert s[..|s| - 1][n..] <= s[n..];
      CompleteLengthIs(s[..|s| - 1], n);
    }
  }

  datatype State = State(forwarded: string, pending: string)

  /** What a writer holds once `input` has been written to it in any number of pieces. */
  function Holding(input: string): State {
    var n := CompleteLength(input);
    State(Sanitize(input[..n]), input[n..])
  }

  /** The effect of one Write call. */
  function AfterWrite(s: State, p: string): State {
    var h := Holding(s.pending + p);
    State(s.forwarded + h.forwarded, h.pending)
  }

  function AfterWrites(s: State, chunks: seq<string>): State
    decreases |chunks|
  {
    if chunks == [] then s else AfterWrites(AfterWrite(s, chunks[0]), chunks[1..])
  }

  function AfterFlush(s: State): State {
    State(s.forwarded + Sanitize(s.pending), "")
  }

  function Flatten(chunks: seq<string>): string {
    if chunks == [] then "" else chunks[0] + Flatten(chunks[1..])
  }

  class MaskingWriter {
    var out: string
    var pending: string

    function View(): State
      reads this
    {
      State(out, pending)
    }

    constructor ()
      ensures View() == Holding("")
    {
      out, pending := "", "";
    }

    method Write(p: string) returns (n: nat)
      modifies this
      ensures View() == AfterWrite(old(View()), p)
      ensures n == |p|
    {
      assert Sanitize("") == "";
      hide Sanitize, CompleteLength, IndexOfNewline;
      ghost var text, before := pending + p, "";
      pending := pending + p;
      while true
        invariant text == before + pending
        invariant before != "" ==> before[|before| - 1] == '\n'
        invariant out == old(out) + Sanitize(before)
        decreases |pending|
      {
        var end := IndexOfNewline(pending);
        if end < 0 {
          HoldingIs(before, pending);
          return |p|;
        }
        LineMoves(before, pending, end + 1);
        LineSanitized(before, pending[..end + 1], old(out));
        Emit(pending[..end + 1]);
        before := before + pending[..end + 1];
        pending := pending[end + 1..];
      }
    }

    method Flush()
      modifies this
      ensures View() == AfterFlush(old(View()))
    {
      if pending == "" {
        return;
      }
      Emit(pending);
      pending := "";
    }

    method Emit(line: string)
      modifies this`out
      ensures out == old(out) + Sanitize(line)
    {
      out := out + Sanitize(line);
    }
  }

  lemma Regroup(a: string, b: string, c: string)
    ensures a + b + c == a + (b + c)
  {
  }

  lemma HoldingIs(before: string, pending: string)
    requires (before != "" ==> before[|before| - 1] == '\n') && '\n' !in pending
    ensures Holding(before + pending) == State(Sanitize(before), pending)
  {
    hide Sanitize, CompleteLength;
    assert (before + pending)[|before|..] == pending && (before + pending)[..|before|] == before;
    CompleteLengthIs(before + pending, |before|);
  }

  /** A line moves from the pending bytes to those that are done. */
  lemma LineMoves(before: string, pending: string, n: nat)
    requires 0 < n <= |pending|
    ensures before + pending[..n] + pending[n..] == before + pending
    ensures (before + pending[..n])[|before| + n - 1] == pending[n - 1]
  {
  }

  lemma LineSanitized(before: string, line: string, out: string)
    requires before != "" ==> before[|before| - 1] == '\n'
    ensures out + Sanitize(before) + Sanitize(line) == out + Sanitize(before + line)
  {
    hide *;
    NewlineSeparates(before, line);
    SanitizeSeparated(before, line);
    Regroup(out, Sanitize(before), Sanitize(line));
  }

  lemma ExtendByLine(text: string, done: nat, n: nat)
    requires done + n <= |text|
    requires done > 0 ==> text[done - 1] == '\n'
    ensures Sanitize(text[..done + n]) == Sanitize(text[..done]) + Sanitize(text[done..][..n])
  {
    hide Sanitize;
    assert text[..done + n] == text[..done] + text[done..][..n];
    NewlineSeparates(text[..done], text[done..][..n]);
    SanitizeSeparated(text[..done], text[done..][..n]);
  }

  lemma CompleteLengthOfSum(input: string, p: string)
    ensures var n := CompleteLength(input);
            CompleteLength(input + p) == n + CompleteLength(input[n..] + p)
  {
    hide CompleteLength;
    var n := CompleteLength(input);
    var rest := input[n..] + p;
    var m := CompleteLength(rest);
    assert (input + p)[n..] == rest;
    assert (input + p)[n + m..] == rest[m..];
    if m > 0 {
      assert (input + p)[n + m - 1] == rest[m - 1];
    }
    CompleteLengthIs(input + p, n + m);
  }

  /** One more Write keeps the writer in step with its input, wherever the pieces were cut. */
  lemma WriteExtendsInput(input: string, p: string)
    ensures AfterWrite(Holding(input), p) == Holding(input + p)
  {
    CompleteLengthOfSum(input, p);
    hide Sanitize, CompleteLength;
    var n := CompleteLength(input);
    var m := CompleteLength(input[n..] + p);
    var text := input + p;
    assert text[n..] == input[n..] + p;
    assert text[..n] == input[..n];
    assert text[n + m..] == text[n..][m..];
    ExtendByLine(text, n, m);
  }

  lemma {:induction false} WritesExtendInput(input: string, chunks: seq<string>)
    ensures AfterWrites(Holding(input), chunks) == Holding(input + Flatten(chunks))
    decreases |chunks|
  {
    hide Holding, AfterWrite;
    if chunks == [] {
      assert input + "" == input;
    } else {
      WriteExtendsInput(input, chunks[0]);
      WritesExtendInput(input + chunks[0], chunks[1..]);
      assert input + chunks[0] + Flatten(chunks[1..]) == input + Flatten(chunks);
    }
  }

  /**
   * Chunking independence: after any writes the sanitized complete lines are out and a
   * line-feed-free tail is held back; after the flush the whole text has been sanitized as one.
   */
  lemma ChunkingIndependence(chunks: seq<string>)
    ensures AfterWrites(Holding(""), chunks) == Holding(Flatten(chunks))
    ensures '\n' !in AfterWrites(Holding(""), chunks).pending
    ensures AfterFlush(AfterWrites(Holding(""), chunks)) == State(Sanitize(Flatten(chunks)), "")
  {
    hide Sanitize, Flatten, AfterWrites;
    var text := Flatten(chunks);
    WritesExtendInput("", chunks);
    assert "" + text == text;
    var n := CompleteLength(text);
    ExtendByLine(text, n, |text| - n);
    assert text[..n + (|text| - n)] == text && text[n..][..|text| - n] == text[n..];
  }

  // ------------------------------------------------------------ RunMigrations

  datatype Stream = Stdout | Stderr

  /** Everything the command wrote to one stream. */
  function Written(stream: Stream, writes: seq<(Stream, string)>): string {
    if writes == [] then ""
    else
      var last := writes[|writes| - 1];
      Written(stream, writes[..|writes| - 1]) + if last.0 == stream then last.1 else ""
  }

  /** One migrate run: its writes in the order they arrive, and whether it exits cleanly. */
  method RunMigrations(writes: seq<(Stream, string)>, exitsCleanly: bool) returns (ok: bool, stdout: string, stderr: string)
    ensures ok == exitsCleanly
    ensures stdout == Sanitize(Written(Stdout, writes))
    ensures stderr == Sanitize(Written(Stderr, writes))
  {
    hide Sanitize, AfterFlush, Holding, AfterWrite;
    var outWriter := new MaskingWriter();
    var errWriter := new MaskingWriter();
    for i := 0 to |writes|
      invariant outWriter != errWriter && fresh(outWriter) && fresh(errWriter)
      invariant outWriter.View() == Holding(Written(Stdout, writes[..i]))
      invariant errWriter.View() == Holding(Written(Stderr, writes[..i]))
    {
      var (stream, chunk) := writes[i];
      assert writes[..i + 1][..i] == writes[..i];
      WriteExtendsInput(Written(stream, writes[..i]), chunk);
      if stream == Stdout {
        var n := outWriter.Write(chunk);
      } else {
        var n := errWriter.Write(chunk);
      }
      assert forall s :: Written(s, writes[..i]) + "" == Written(s, writes[..i]);
    }
    assert writes[..|writes|] == writes;
    errWriter.Flush();
    outWriter.Flush();
    FlushHolding(Written(Stdout, writes));
    FlushHolding(Written(Stderr, writes));
    return exitsCleanly, outWriter.out, errWriter.out;
  }

  lemma FlushHolding(input: string)
    ensures AfterFlush(Holding(input)) == State(Sanitize(input), "")
  {
    ChunkingIndependence([input]);
    WritesExtendInput("", [input]);
    assert Flatten([input]) == input + "" == input;
  }
}

/**
 * The Export of utils/export.go: items added one by one to a ZIP archive, then one upload.
 * The archive is the sequence of its entries; what callbacks, the ZIP writer, the file and the
 * network answer are inputs.
 */
module Export {
  import opened Wrappers
  import opened PathCleaning
  import opened ZipPath

  datatype ExportEntry = ExportEntry(name: string, path: string)

  datatype Content = Data(bytes: string) | Broken | Contents(items: seq<ExportEntry>)

  datatype ArchiveEntry = ArchiveEntry(path: string, content: Content)

  datatype ExportError =
    | InvalidPath(cause: ZipPathError)
    | Collecting(name: string)
    | CreatingEntry(name: string, path: string)
    | Marshaling(name: string)
    | Writing(name: string)
    | ExportFinished

  datatype UploadError =
    | AlreadyUploaded
    | AddFailed(cause: ExportError)
    | CreatingContents
    | EncodingContents
    | ClosingZip
    | Seeking
    | Stating
    | BuildingRequest
    | Uploading
    | BadStatus(code: int)

  const CONTENTS := "contents.json"

  /** What an item's callback returns; a nil value is skipped. */
  datatype Collected = CallbackFails | NilValue | Value(bytes: string)

  datatype Kind = Json | Blob | File

  /** One Add call and what it meets: the callback's answer, and whether creating and writing the entry work. */
  datatype Add = Add(kind: Kind, name: string, path: string, collected: Collected, creates: bool, writes: bool)

  /** What an upload meets on its way; `reply` is the status, None when the transport fails. */
  datatype UploadEnv = UploadEnv(
    createsContents: bool, encodesContents: bool, closesZip: bool, seeks: bool, stats: bool, buildsRequest: bool, reply: Option<int>)

  datatype State = State(
    err: Option<ExportError>, finished: bool, itemCount: nat,
    entries: seq<ExportEntry>, archive: seq<ArchiveEntry>, zipOpen: bool)

  const NEW := State(None, false, 0, [], [], true)

  // --------------------------------------------------- an Add on its own

  /** The error an Add runs into, whatever was added before. */
  function AddError(a: Add): Option<ExportError> {
    match SanitizeZipPath(a.path)
    case Failure(cause) => Some(InvalidPath(cause))
    case Success(path) =>
      match a.collected
      case CallbackFails => Some(Collecting(a.name))
      case NilValue => None
      case Value(_) =>
        if !a.creates then Some(CreatingEntry(a.name, path))
        else if a.writes then None
        else if a.kind == Json then Some(Marshaling(a.name))
        else Some(Writing(a.name))
  }

  /** An Add puts an item into the archive. */
  predicate Stores(a: Add) {
    AddError(a).None? && a.collected.Value?
  }

  function CleanPath(a: Add): string {
    match SanitizeZipPath(a.path)
    case Success(path) => path
    case Failure(_) => ""
  }

  function EntryOf(a: Add): ExportEntry {
    ExportEntry(a.name, CleanPath(a))
  }

  function ArchiveEntryOf(a: Add): ArchiveEntry
    requires Stores(a)
  {
    ArchiveEntry(CleanPath(a), Data(a.collected.bytes))
  }

  // ------------------------------------------------------------- the steps

  /** The effect of an Add. */
  function AfterAdd(s: State, a: Add): State {
    if s.err.Some? then s
    else if s.finished then s.(err := Some(ExportFinished))
    else if Stores(a) then
      s.(itemCount := s.itemCount + 1, entries := s.entries + [EntryOf(a)], archive := s.archive + [ArchiveEntryOf(a)])
    else if AddError(a).Some? && (AddError(a).value.Marshaling? || AddError(a).value.Writing?) then
      s.(err := AddError(a), archive := s.archive + [ArchiveEntry(CleanPath(a), Broken)])
    else s.(err := AddError(a))
  }

  /** The effect of writing one entry; `failure` is the error of a write that breaks off. */
  function Written(s: State, name: string, path: string, bytes: string, creates: bool, writes: bool, failure: ExportError): State {
    if !creates then s.(err := Some(CreatingEntry(name, path)))
    else if !writes then s.(err := Some(failure), archive := s.archive + [ArchiveEntry(path, Broken)])
    else
      s.(itemCount := s.itemCount + 1,
         entries := s.entries + [ExportEntry(name, path)],
         archive := s.archive + [ArchiveEntry(path, Data(bytes))])
  }

  /** The archive as it is closed. */
  function Finalized(s: State): seq<ArchiveEntry> {
    s.archive + if s.itemCount > 0 then [ArchiveEntry(CONTENTS, Contents(s.entries))] else []
  }

  datatype Uploaded = Uploaded(state: State, err: Option<UploadError>, sent: Option<seq<ArchiveEntry>>)

  /** The effect of UploadTo, its error, and the archive it sends. */
  function AfterUpload(s: State, env: UploadEnv): Uploaded {
    if s.finished then Uploaded(s, Some(AlreadyUploaded), None)
    else if s.err.Some? then Uploaded(s, Some(AddFailed(s.err.value)), None)
    else if s.itemCount > 0 && !env.createsContents then Uploaded(s, Some(CreatingContents), None)
    else if s.itemCount > 0 && !env.encodesContents then
      Uploaded(s.(archive := s.archive + [ArchiveEntry(CONTENTS, Broken)]), Some(EncodingContents), None)
    else
      var full := s.(archive := Finalized(s));
      if s.zipOpen && !env.closesZip then Uploaded(full, Some(ClosingZip), None)
      else
        var closed := full.(zipOpen := false);
        if !env.seeks then Uploaded(closed, Some(Seeking), None)
        else if !env.stats then Uploaded(closed, Some(Stating), None)
        else if !env.buildsRequest then Uploaded(closed, Some(BuildingRequest), None)
        else
          match env.reply
          case None => Uploaded(closed, Some(Uploading), Some(closed.archive))
          case Some(code) =>
            if 200 <= code < 300 then Uploaded(closed.(finished := true), None, Some(closed.archive))
            else Uploaded(closed, Some(BadStatus(code)), Some(closed.archive))
  }

  // -------------------------------------------------------------- the object

  class Export {
    var err: Option<ExportError>
    var finished: bool
    var itemCount: nat
    var entries: seq<ExportEntry>
    var archive: seq<ArchiveEntry>
    var zipOpen: bool

    constructor ()
      ensures View() == NEW
    {
      err, finished, itemCount, entries, archive, zipOpen := None, false, 0, [], [], true;
    }

    function View(): State
      reads this
    {
      State(err, finished, itemCount, entries, archive, zipOpen)
    }

    /** An open ZIP writer, unless the call returns before it is needed. */
    predicate CanAdd()
      reads this
    {
      err.Some? || finished || zipOpen
    }

    method AddJson(name: string, path: string, collected: Collected, creates: bool, writes: bool)
      requires CanAdd()
      modifies this
      ensures View() == AfterAdd(old(View()), Add(Json, name, path, collected, creates, writes))
    {
      hide SanitizeZipPath;
      if err.Some? {
        return;
      }
      if finished {
        err := Some(ExportFinished);
        return;
      }
      var clean := SanitizeZipPath(path);
      if clean.Failure? {
        err := Some(InvalidPath(clean.error));
        return;
      }
      if collected == CallbackFails {
        err := Some(Collecting(name));
        return;
      }
      if collected == NilValue {
        return;
      }
      WriteEntry(name, clean.value, collected.bytes, creates, writes, Marshaling(name));
    }

    method AddBlob(name: string, path: string, collected: Collected, creates: bool, writes: bool)
      requires CanAdd()
      modifies this
      ensures View() == AfterAdd(old(View()), Add(Blob, name, path, collected, creates, writes))
    {
      hide SanitizeZipPath;
      if err.Some? {
        return;
      }
      if finished {
        err := Some(ExportFinished);
        return;
      }
      var clean := SanitizeZipPath(path);
      if clean.Failure? {
        err := Some(InvalidPath(clean.error));
        return;
      }
      if collected == CallbackFails {
        err := Some(Collecting(name));
        return;
      }
      if collected == NilValue {
        return;
      }
      WriteEntry(name, clean.value, collected.bytes, creates, writes, Writing(name));
    }

    /** AddFile; `closed` tells whether the reader is closed when the call returns. */
    method AddFile(name: string, path: string, collected: Collected, isCloser: bool, creates: bool, writes: bool) returns (closed: bool)
      requires CanAdd()
      modifies this
      ensures View() == AfterAdd(old(View()), Add(File, name, path, collected, creates, writes))
      ensures closed <==> isCloser && old(err).None? && !old(finished) && SanitizeZipPath(path).Success? && collected.Value?
    {
      hide SanitizeZipPath;
      closed := false;
      if err.Some? {
        return;
      }
      if finished {
        err := Some(ExportFinished);
        return;
      }
      var clean := SanitizeZipPath(path);
      if clean.Failure? {
        err := Some(InvalidPath(clean.error));
        return;
      }
      if collected == CallbackFails {
        err := Some(Collecting(name));
        return;
      }
      if collected == NilValue {
        return;
      }
      // from here on every return closes the reader
      if isCloser {
        closed := true;
      }
      WriteEntry(name, clean.value, collected.bytes, creates, writes, Writing(name));
    }

    /** The end of every Add: create the entry, write it, and record it. */
    method WriteEntry(name: string, path: string, bytes: string, creates: bool, writes: bool, failure: ExportError)
      requires zipOpen
      modifies this
      ensures View() == Written(old(View()), name, path, bytes, creates, writes, failure)
    {
      if !creates {
        err := Some(CreatingEntry(name, path));
        return;
      }
      if !writes {
        archive := archive + [ArchiveEntry(path, Broken)];
        err := Some(failure);
        return;
      }
      archive := archive + [ArchiveEntry(path, Data(bytes))];
      itemCount := itemCount + 1;
      entries := entries + [ExportEntry(name, path)];
    }

    method UploadTo(env: UploadEnv) returns (e: Option<UploadError>, sent: Option<seq<ArchiveEntry>>)
      requires finished || err.Some? || itemCount == 0 || zipOpen
      modifies this
      ensures Uploaded(View(), e, sent) == AfterUpload(old(View()), env)
    {
      if finished {
        return Some(AlreadyUploaded), None;
      }
      if err.Some? {
        return Some(AddFailed(err.value)), None;
      }
      assert archive + [] == archive;
      if itemCount > 0 {
        if !env.createsContents {
          return Some(CreatingContents), None;
        }
        if !env.encodesContents {
          archive := archive + [ArchiveEntry(CONTENTS, Broken)];
          return Some(EncodingContents), None;
        }
        archive := archive + [ArchiveEntry(CONTENTS, Contents(entries))];
      }
      if zipOpen {
        if !env.closesZip {
          return Some(ClosingZip), None;
        }
        zipOpen := false;
      }
      if !env.seeks {
        return Some(Seeking), None;
      }
      if !env.stats {
        return Some(Stating), None;
      }
      if !env.buildsRequest {
        return Some(BuildingRequest), None;
      }
      if env.reply.None? {
        return Some(Uploading), Some(archive);
      }
      if !(200 <= env.reply.value < 300) {
        return Some(BadStatus(env.reply.value)), Some(archive);
      }
      finished := true;
      return None, Some(archive);
    }
  }

  // ---------------------------------------------------------------- whole runs

  function AfterAdds(s: State, adds: seq<Add>): State
    decreases |adds|
  {
    if adds == [] then s else AfterAdds(AfterAdd(s, adds[0]), adds[1..])
  }

  /** The Adds of a run that come before its first error. */
  function Effective(adds: seq<Add>): seq<Add> {
    if adds == [] || AddError(adds[0]).Some? then [] else [adds[0]] + Effective(adds[1..])
  }

  /** The error of the first Add that fails. */
  function FirstError(adds: seq<Add>): Option<ExportError> {
    if adds == [] then None
    else if AddError(adds[0]).Some? then AddError(adds[0])
    else FirstError(adds[1..])
  }

  function Stored(adds: seq<Add>): seq<Add> {
    if adds == [] then [] else (if Stores(adds[0]) then [adds[0]] else []) + Stored(adds[1..])
  }

  function Recorded(adds: seq<Add>): seq<ExportEntry> {
    if adds == [] then [] else (if Stores(adds[0]) then [EntryOf(adds[0])] else []) + Recorded(adds[1..])
  }

  function Archived(adds: seq<Add>): seq<ArchiveEntry> {
    if adds == [] then [] else (if Stores(adds[0]) then [ArchiveEntryOf(adds[0])] else []) + Archived(adds[1..])
  }

  /** An item was added before: every entry is complete and at an accepted path, in the recorded order. */
  ghost predicate InStep(s: State) {
    && s.itemCount == |s.entries| == |s.archive|
    && (forall i | 0 <= i < |s.entries| ::
          && s.archive[i].path == s.entries[i].path
          && s.archive[i].content.Data?
          && SanitizeZipPath(s.entries[i].path) == Success(s.entries[i].path))
  }

  /** An Add that meets no error stores its item, or skips it. */
  lemma GoodAdd(s: State, a: Add)
    requires s.err.None? && !s.finished && AddError(a).None?
    ensures var next := AfterAdd(s, a);
            && next.err.None? && !next.finished && next.zipOpen == s.zipOpen
            && next.entries == s.entries + (if Stores(a) then [EntryOf(a)] else [])
            && next.archive == s.archive + (if Stores(a) then [ArchiveEntryOf(a)] else [])
            && next.itemCount == s.itemCount + (if Stores(a) then 1 else 0)
  {
    hide SanitizeZipPath;
    assert s.entries + [] == s.entries && s.archive + [] == s.archive;
  }

  /** The first of the Adds and the rest, where it meets no error. */
  lemma GoodHead(adds: seq<Add>)
    requires adds != [] && AddError(adds[0]).None?
    ensures var a, rest := adds[0], adds[1..];
            && FirstError(adds) == FirstError(rest)
            && Recorded(Effective(adds)) == (if Stores(a) then [EntryOf(a)] else []) + Recorded(Effective(rest))
            && Archived(adds) == (if Stores(a) then [ArchiveEntryOf(a)] else []) + Archived(rest)
  {
    hide SanitizeZipPath, AddError, EntryOf, ArchiveEntryOf;
    assert Effective(adds)[0] == adds[0] && Effective(adds)[1..] == Effective(adds[1..]);
  }

  lemma {:induction false} AddsFrom(s: State, adds: seq<Add>)
    requires s.err.None? && !s.finished
    ensures var t := AfterAdds(s, adds);
            && t.err == FirstError(adds)
            && t.finished == s.finished && t.zipOpen == s.zipOpen
            && t.entries == s.entries + Recorded(Effective(adds))
            && t.itemCount == s.itemCount + |Recorded(Effective(adds))|
            && (t.err.None? ==> t.archive == s.archive + Archived(adds))
    decreases |adds|
  {
    hide SanitizeZipPath;
    if adds == [] {
      assert s.entries + [] == s.entries && s.archive + [] == s.archive;
    } else if AddError(adds[0]).Some? {
      StoppedAdds(AfterAdd(s, adds[0]), adds[1..]);
      assert s.entries + [] == s.entries;
    } else {
      GoodAdd(s, adds[0]);
      GoodHead(adds);
      AddsFrom(AfterAdd(s, adds[0]), adds[1..]);
      hide AfterAdd, AddError, Stores, EntryOf, ArchiveEntryOf, Effective, Recorded, Archived, FirstError;
    }
  }

  /** After an error every Add is a no-op. */
  lemma {:induction false} StoppedAdds(s: State, adds: seq<Add>)
    requires s.err.Some?
    ensures AfterAdds(s, adds) == s
    decreases |adds|
  {
    if adds != [] {
      StoppedAdds(s, adds[1..]);
    }
  }

  lemma {:induction false} RecordedInStep(adds: seq<Add>)
    ensures |Recorded(adds)| == |Archived(adds)|
    ensures forall i | 0 <= i < |Recorded(adds)| ::
              && Archived(adds)[i].path == Recorded(adds)[i].path
              && Archived(adds)[i].content.Data?
              && SanitizeZipPath(Recorded(adds)[i].path) == Success(Recorded(adds)[i].path)
  {
    hide SanitizeZipPath;
    if adds != [] {
      RecordedInStep(adds[1..]);
      if Stores(adds[0]) {
        AcceptedIsNormal(adds[0].path, CleanPath(adds[0]));
      }
    }
  }

  lemma {:induction false} NoErrorAllEffective(adds: seq<Add>)
    requires FirstError(adds).None?
    ensures Effective(adds) == adds
  {
    hide SanitizeZipPath;
    if adds != [] {
      NoErrorAllEffective(adds[1..]);
      assert adds == [adds[0]] + adds[1..];
    }
  }

  /**
   * After any Adds the stored error is the first one; the items before it stay recorded and counted; and
   * while there is none, the archive holds exactly the recorded items, in order, at sanitized paths.
   */
  lemma AddsInvariant(adds: seq<Add>)
    ensures var s := AfterAdds(NEW, adds);
            && s.err == FirstError(adds) && !s.finished
            && s.entries == Recorded(Effective(adds)) && s.itemCount == |s.entries|
            && (s.err.None? ==> InStep(s) && s.archive == Archived(adds) && s.entries == Recorded(adds))
  {
    AddsFrom(NEW, adds);
    RecordedInStep(adds);
    var s := AfterAdds(NEW, adds);
    hide SanitizeZipPath, AfterAdds, Recorded, Archived, Effective;
    assert [] + Recorded(Effective(adds)) == Recorded(Effective(adds));
    assert [] + Archived(adds) == Archived(adds);
    if s.err.None? {
      NoErrorAllEffective(adds);
    }
  }

  /** Everything the upload needs goes well. */
  predicate Smooth(env: UploadEnv, items: bool) {
    && (items ==> env.createsContents && env.encodesContents)
    && env.closesZip && env.seeks && env.stats && env.buildsRequest
    && env.reply.Some? && 200 <= env.reply.value < 300
  }

  /**
   * The first upload after any Adds: it succeeds exactly when no Add failed and everything it needs goes
   * well, and then it has sent the added items in order and, if there are any, one manifest listing them.
   * When an Add failed it reports that error, sends nothing and changes nothing.
   */
  lemma FirstUpload(adds: seq<Add>, env: UploadEnv)
    ensures var u := AfterUpload(AfterAdds(NEW, adds), env);
            var items := Recorded(adds);
            && (u.err.None? <==> FirstError(adds).None? && Smooth(env, items != []))
            && (u.err.None? ==> u.sent == Some(Archived(adds) +
                  if items == [] then [] else [ArchiveEntry("contents.json", Contents(items))]))
            && (FirstError(adds).Some? ==> u == Uploaded(AfterAdds(NEW, adds), Some(AddFailed(FirstError(adds).value)), None))
            && (u.state.finished <==> u.err.None?)
  {
    AddsInvariant(adds);
    AddsFrom(NEW, adds);
    hide SanitizeZipPath, AfterAdds, Recorded, Archived, Effective, InStep;
  }

  /** What an upload of items needs, in this order, with the error it reports for want of it. */
  function Needs(items: bool, env: UploadEnv): seq<(bool, UploadError)> {
    [(!items || env.createsContents, CreatingContents), (!items || env.encodesContents, EncodingContents),
     (env.closesZip, ClosingZip), (env.seeks, Seeking), (env.stats, Stating), (env.buildsRequest, BuildingRequest),
     (env.reply.Some?, Uploading),
     (env.reply.Some? ==> 200 <= env.reply.value < 300, BadStatus(if env.reply.Some? then env.reply.value else 0))]
  }

  /** The first of the needs that is not met. */
  predicate FirstLack(needs: seq<(bool, UploadError)>, k: nat) {
    k < |needs| && !needs[k].0 && forall j | 0 <= j < k :: needs[j].0
  }

  /** Without a failed Add the first upload reports the first thing it lacks, and nothing is sent before the request is built. */
  lemma UploadReportsFirst(adds: seq<Add>, env: UploadEnv, k: nat)
    requires FirstError(adds).None? && FirstLack(Needs(Recorded(adds) != [], env), k)
    ensures var u := AfterUpload(AfterAdds(NEW, adds), env);
            && u.err == Some(Needs(Recorded(adds) != [], env)[k].1)
            && (u.sent.Some? <==> k >= 6)
            && (k >= 6 ==>
                  u.sent.value == Archived(adds) + if Recorded(adds) == [] then [] else [ArchiveEntry("contents.json", Contents(Recorded(adds)))])
  {
    AddsInvariant(adds);
    AddsFrom(NEW, adds);
    hide SanitizeZipPath, AfterAdds, Recorded, Archived, Effective, InStep, FirstError;
    var needs := Needs(Recorded(adds) != [], env);
    assert k > 0 ==> needs[0].0;
    assert k > 1 ==> needs[1].0;
    assert k > 2 ==> needs[2].0;
    assert k > 3 ==> needs[3].0;
    assert k > 4 ==> needs[4].0;
    assert k > 5 ==> needs[5].0;
    assert k > 6 ==> needs[6].0;
  }

  /** When an Add fails, and with which error; a skipped item is no failure. */
  lemma AddFailsIff(a: Add)
    ensures (AddError(a).None? && !Stores(a)) <==> SanitizeZipPath(a.path).Success? && a.collected == NilValue
    ensures Stores(a) <==> SanitizeZipPath(a.path).Success? && a.collected.Value? && a.creates && a.writes
    ensures Stores(a) ==> ArchiveEntryOf(a) == ArchiveEntry(SanitizeZipPath(a.path).value, Data(a.collected.bytes))
                          && EntryOf(a) == ExportEntry(a.name, SanitizeZipPath(a.path).value)
    ensures SanitizeZipPath(a.path).Failure? ==> AddError(a) == Some(InvalidPath(SanitizeZipPath(a.path).error))
    ensures SanitizeZipPath(a.path).Success? && a.collected == CallbackFails ==> AddError(a) == Some(Collecting(a.name))
    ensures SanitizeZipPath(a.path).Success? && a.collected.Value? && !a.creates ==>
              AddError(a) == Some(CreatingEntry(a.name, SanitizeZipPath(a.path).value))
    ensures SanitizeZipPath(a.path).Success? && a.collected.Value? && a.creates && !a.writes ==>
              AddError(a) == Some(if a.kind == Json then Marshaling(a.name) else Writing(a.name))
  {
    hide SanitizeZipPath;
  }

  /** After a successful upload Adds only record ErrExportFinished, and another upload sends nothing. */
  lemma AfterSuccess(adds: seq<Add>, env: UploadEnv, later: seq<Add>, again: UploadEnv)
    requires AfterUpload(AfterAdds(NEW, adds), env).err.None?
    ensures var done := AfterUpload(AfterAdds(NEW, adds), env).state;
            && AfterAdds(done, later) == (if later == [] then done else done.(err := Some(ExportFinished)))
            && AfterUpload(AfterAdds(done, later), again) == Uploaded(AfterAdds(done, later), Some(AlreadyUploaded), None)
  {
    FirstUpload(adds, env);
    AddsInvariant(adds);
    var done := AfterUpload(AfterAdds(NEW, adds), env).state;
    hide SanitizeZipPath, Recorded, Archived, Effective, InStep;
    if later != [] {
      StoppedAdds(done.(err := Some(ExportFinished)), later[1..]);
    }
  }

  // ------------------------------------------------------------ the manifest

  function CountAt(archive: seq<ArchiveEntry>, path: string): nat {
    if archive == [] then 0 else (if archive[0].path == path then 1 else 0) + CountAt(archive[1..], path)
  }

  lemma {:induction false} CountSum(a: seq<ArchiveEntry>, b: seq<ArchiveEntry>, path: string)
    ensures CountAt(a + b, path) == CountAt(a, path) + CountAt(b, path)
    decreases |a|
  {
    if a == [] {
      assert a + b == b;
    } else {
      assert (a + b)[1..] == a[1..] + b;
      CountSum(a[1..], b, path);
    }
  }

  lemma {:induction false} CountZeroIff(archive: seq<ArchiveEntry>, path: string)
    ensures CountAt(archive, path) == 0 <==> forall i | 0 <= i < |archive| :: archive[i].path != path
  {
    if archive != [] {
      CountZeroIff(archive[1..], path);
      assert forall i | 1 <= i < |archive| :: archive[i] == archive[1..][i - 1];
      assert forall i | 0 <= i < |archive| - 1 :: archive[1..][i] == archive[i + 1];
    }
  }

  /** The uploaded archive has a single entry called contents.json exactly when no item was added under that name. */
  lemma ManifestIsUniqueIff(adds: seq<Add>, env: UploadEnv)
    requires AfterUpload(AfterAdds(NEW, adds), env).err.None? && Recorded(adds) != []
    ensures CountAt(AfterUpload(AfterAdds(NEW, adds), env).sent.value, CONTENTS) == 1 <==>
            forall i | 0 <= i < |Recorded(adds)| :: Recorded(adds)[i].path != CONTENTS
  {
    FirstUpload(adds, env);
    RecordedInStep(adds);
    var items := Archived(adds);
    var manifest := [ArchiveEntry(CONTENTS, Contents(Recorded(adds)))];
    assert CountAt(manifest, CONTENTS) == 1 by {
      assert manifest[1..] == [];
    }
    CountSum(items, manifest, CONTENTS);
    CountZeroIff(items, CONTENTS);
    hide SanitizeZipPath, AfterAdds, AfterUpload, Archived, Recorded;
    assert forall i | 0 <= i < |items| :: items[i].path == Recorded(adds)[i].path;
  }

  lemma ContentsIsAccepted()
    ensures SanitizeZipPath(CONTENTS) == Success(CONTENTS)
  {
    hide SanitizeZipPath;
    assert CONTENTS[0] == 'c' && CONTENTS[1] == 'o' && |CONTENTS| == 13;
    PlainNameIsAccepted(CONTENTS);
  }

  /** Such an item is accepted, and the archive is uploaded with the name in it twice. */
  lemma ManifestCanClash(name: string, bytes: string)
    ensures var add := Add(Json, name, CONTENTS, Value(bytes), true, true);
            var env := UploadEnv(true, true, true, true, true, true, Some(200));
            var u := AfterUpload(AfterAdds(NEW, [add]), env);
            u.err.None? && u.sent.Some? && CountAt(u.sent.value, CONTENTS) == 2
  {
    var add := Add(Json, name, CONTENTS, Value(bytes), true, true);
    var env := UploadEnv(true, true, true, true, true, true, Some(200));
    ContentsIsAccepted();
    hide SanitizeZipPath;
    FirstUpload([add], env);
    assert [add][1..] == [];
    assert Recorded([add]) == [EntryOf(add)] && Archived([add]) == [ArchiveEntryOf(add)] && FirstError([add]).None?;
    var sent := [ArchiveEntryOf(add)] + [ArchiveEntry(CONTENTS, Contents([EntryOf(add)]))];
    assert sent[1..][1..] == [];
    assert CountAt(sent, CONTENTS) == 1 + CountAt(sent[1..], CONTENTS) == 2;
  }
}
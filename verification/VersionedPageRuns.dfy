// Whole runs over versioned pages: readers and the writer see what they would see if every version of
// the database were a separate copy.
module VersionedPageRuns {
  import opened Bytes
  import opened Versions
  import opened VersionedPages

  // The steps of all sessions, in the order in which they run; scopes go by their place in the list
  // of open ones. Reads, edits and appends pin one page at a time.
  datatype Op =
    | OpenReader
    | OpenWriter
    | Close(which: nat)
    | Read(which: nat, id: PageId)
    | Edit(which: nat, id: PageId, bytes: PageBytes)
    | Append(which: nat, file: nat)

  // The reference: a full copy of the database for every committed version, and the writer's copy.
  datatype Copies = Copies(versions: seq<Snapshot>, draft: Snapshot, sizes: map<nat, nat>, open: seq<VersionScope>) {
    predicate Consistent() {
      versions != [] && forall s :: s in open ==> s.startVersion < |versions|
    }

    function Seen(s: VersionScope): (r: Snapshot)
      requires s.startVersion < |versions|
    {
      if s.isEditable then draft else versions[s.startVersion]
    }

    predicate Editing(which: nat) { which < |open| && open[which].isEditable }

    predicate Legal(op: Op, pageSize: nat)
      requires Consistent()
    {
      match op
      case OpenReader => true
      case OpenWriter => forall s :: s in open ==> !s.isEditable
      case Close(which) => which < |open|
      case Read(which, id) => which < |open| && id in Seen(open[which])
      case Edit(which, id, bytes) => Editing(which) && id in draft && |bytes| == pageSize
      case Append(which, file) => Editing(which) && file in sizes
    }

    function Apply(op: Op, pageSize: nat): (r: Copies)
      requires Consistent() && Legal(op, pageSize)
      ensures r.Consistent() && versions <= r.versions
    {
      match op
      case OpenReader => this.(open := open + [VersionScope(|versions| - 1, false)])
      case OpenWriter => this.(open := open + [VersionScope(|versions| - 1, true)])
      case Close(which) =>
        this.(versions := if open[which].isEditable then versions + [draft] else versions,
              open := open[..which] + open[which + 1..])
      case Read(_, _) => this
      case Edit(_, id, bytes) => this.(draft := draft[id := bytes])
      case Append(_, file) =>
        this.(draft := draft[PageId(file, sizes[file]) := seq(pageSize, _ => 0)],
              sizes := sizes[file := sizes[file] + 1])
    }

    // What an operation reads.
    function Result(op: Op): (r: seq<PageBytes>)
      requires Consistent() && (op.Read? ==> op.which < |open| && op.id in Seen(open[op.which]))
    {
      if op.Read? then [Seen(open[op.which])[op.id]] else []
    }
  }

  predicate LegalRun(copies: Copies, script: seq<Op>, pageSize: nat)
    requires copies.Consistent()
    decreases script
  {
    script == []
    || (copies.Legal(script[0], pageSize) && LegalRun(copies.Apply(script[0], pageSize), script[1..], pageSize))
  }

  function Final(copies: Copies, script: seq<Op>, pageSize: nat): (r: Copies)
    requires copies.Consistent() && LegalRun(copies, script, pageSize)
    ensures r.Consistent()
    decreases script
  {
    if script == [] then copies else Final(copies.Apply(script[0], pageSize), script[1..], pageSize)
  }

  function Reads(copies: Copies, script: seq<Op>, pageSize: nat): (r: seq<PageBytes>)
    requires copies.Consistent() && LegalRun(copies, script, pageSize)
    decreases script
  {
    if script == [] then []
    else copies.Result(script[0]) + Reads(copies.Apply(script[0], pageSize), script[1..], pageSize)
  }

  // Whatever the other sessions do meanwhile, a reader goes on seeing what it saw when it started.
  lemma {:induction false} ReadsAreRepeatable(copies: Copies, script: seq<Op>, pageSize: nat, s: VersionScope)
    requires copies.Consistent() && LegalRun(copies, script, pageSize)
    requires s in copies.open && !s.isEditable
    ensures s.startVersion < |Final(copies, script, pageSize).versions|
    ensures Final(copies, script, pageSize).Seen(s) == copies.Seen(s)
  {
    VersionsGrow(copies, script, pageSize);
  }

  lemma {:induction false} VersionsGrow(copies: Copies, script: seq<Op>, pageSize: nat)
    requires copies.Consistent() && LegalRun(copies, script, pageSize)
    ensures copies.versions <= Final(copies, script, pageSize).versions
    decreases script
  {
    if script != [] {
      VersionsGrow(copies.Apply(script[0], pageSize), script[1..], pageSize);
    }
  }

  // The buffer holds the versions of the reference.
  ghost predicate Holds(buffer: VersionedPages, copies: Copies)
    reads buffer
  {
    && buffer.Valid() && copies.Consistent()
    && buffer.hist == copies.versions && buffer.work == copies.draft
    && buffer.active == multiset(copies.open)
    && buffer.files.Keys == copies.sizes.Keys
    && forall file :: file in buffer.files ==> |buffer.files[file]| == copies.sizes[file]
  }

  method ReadPage(buffer: VersionedPages, scope: VersionScope, id: PageId,
      ghost copies: Copies) returns (bytes: PageBytes)
    requires Holds(buffer, copies) && scope in copies.open && id in copies.Seen(scope)
    modifies buffer`frames, buffer`vpMap, buffer`chains
    ensures Holds(buffer, copies) && bytes == copies.Seen(scope)[id]
  {
    hide VersionedPages.Valid;
    assert scope in multiset(copies.open);
    var f := buffer.GetPageReadonly(scope, id);
    bytes := buffer.frames[f].bytes;
    buffer.Unpin(f);
  }

  method EditPage(buffer: VersionedPages, scope: VersionScope, id: PageId, bytes: PageBytes, ghost copies: Copies)
    requires Holds(buffer, copies) && scope in copies.open && scope.isEditable
    requires id in copies.draft && |bytes| == buffer.pageSize
    modifies buffer`frames, buffer`vpMap, buffer`chains, buffer`currentModifications, buffer`work
    ensures Holds(buffer, copies.(draft := copies.draft[id := bytes]))
  {
    hide VersionedPages.Valid;
    assert scope in multiset(copies.open);
    var f := buffer.GetPageEditable(scope, id);
    buffer.WriteBytes(scope, id, f, bytes);
    buffer.Unpin(f);
  }

  method AppendPage(buffer: VersionedPages, scope: VersionScope, file: nat, ghost copies: Copies)
    requires Holds(buffer, copies) && scope in copies.open && scope.isEditable && file in copies.sizes
    modifies buffer`frames, buffer`vpMap, buffer`chains, buffer`currentModifications, buffer`work, buffer`files
    ensures var id := PageId(file, copies.sizes[file]);
            Holds(buffer, copies.(draft := copies.draft[id := seq(buffer.pageSize, _ => 0)],
                                  sizes := copies.sizes[file := copies.sizes[file] + 1]))
  {
    hide VersionedPages.Valid;
    assert scope in multiset(copies.open);
    var f := buffer.AppendVpage(scope, file);
    buffer.Unpin(f);
  }

  method CloseScope(buffer: VersionedPages, scope: VersionScope, ghost which: nat, ghost copies: Copies)
    requires Holds(buffer, copies) && which < |copies.open| && scope == copies.open[which]
    modifies buffer`active, buffer`runningVersionCount, buffer`lastStableVersion, buffer`currentModifications,
        buffer`hist
    ensures Holds(buffer, copies.Apply(Close(which), buffer.pageSize))
  {
    hide VersionedPages.Valid;
    assert scope in multiset(copies.open);
    assert copies.open == copies.open[..which] + [scope] + copies.open[which + 1..];
    buffer.Terminate(scope);
  }

  method StartReader(buffer: VersionedPages, ghost copies: Copies) returns (scope: VersionScope)
    requires Holds(buffer, copies)
    modifies buffer`active, buffer`runningVersionCount
    ensures Holds(buffer, copies.(open := copies.open + [scope]))
    ensures scope == VersionScope(|copies.versions| - 1, false)
  {
    VersionCount(buffer);
    hide VersionedPages.Valid;
    scope := buffer.InitVersionReadonly();
    MultisetSnoc(copies.open, scope);
  }

  method StartWriter(buffer: VersionedPages, ghost copies: Copies) returns (scope: VersionScope)
    requires Holds(buffer, copies) && forall s :: s in copies.open ==> !s.isEditable
    modifies buffer`active, buffer`runningVersionCount
    ensures Holds(buffer, copies.(open := copies.open + [scope]))
    ensures scope == VersionScope(|copies.versions| - 1, true)
  {
    VersionCount(buffer);
    hide VersionedPages.Valid, VersionedPages.Writing;
    NoWriter(buffer, copies);
    scope := buffer.InitVersionEditable();
    MultisetSnoc(copies.open, scope);
  }

  lemma VersionCount(buffer: VersionedPages)
    requires buffer.Valid()
    ensures |buffer.hist| == buffer.lastStableVersion + 1
  {}

  lemma NoWriter(buffer: VersionedPages, copies: Copies)
    requires buffer.active == multiset(copies.open) && forall s :: s in copies.open ==> !s.isEditable
    ensures !buffer.Writing()
  {
    assert VersionScope(buffer.lastStableVersion, true) !in copies.open;
  }

  lemma MultisetSnoc(scopes: seq<VersionScope>, scope: VersionScope)
    ensures multiset(scopes + [scope]) == multiset(scopes) + multiset{scope}
  {}

  lemma HoldsConsistent(buffer: VersionedPages, copies: Copies)
    requires Holds(buffer, copies)
    ensures copies.Consistent()
  {}

  method Step(buffer: VersionedPages, scopes: seq<VersionScope>, op: Op, ghost copies: Copies)
    returns (scopesAfter: seq<VersionScope>, result: seq<PageBytes>)
    requires Holds(buffer, copies) && scopes == copies.open && copies.Legal(op, buffer.pageSize)
    modifies buffer
    ensures Holds(buffer, copies.Apply(op, buffer.pageSize))
    ensures scopesAfter == copies.Apply(op, buffer.pageSize).open && result == copies.Result(op)
  {
    hide Holds;
    scopesAfter, result := scopes, [];
    match op {
      case OpenReader =>
        var scope := StartReader(buffer, copies);
        scopesAfter := scopes + [scope];
      case OpenWriter =>
        var scope := StartWriter(buffer, copies);
        scopesAfter := scopes + [scope];
      case Close(which) =>
        CloseScope(buffer, scopes[which], which, copies);
        scopesAfter := scopes[..which] + scopes[which + 1..];
      case Read(which, id) =>
        var bytes := ReadPage(buffer, scopes[which], id, copies);
        result := [bytes];
      case Edit(which, id, bytes) =>
        EditPage(buffer, scopes[which], id, bytes, copies);
      case Append(which, file) =>
        AppendPage(buffer, scopes[which], file, copies);
    }
  }

  // Any interleaving of sessions reads through the buffer exactly what it would read from the copies.
  method Run(buffer: VersionedPages, scopes: seq<VersionScope>, script: seq<Op>, ghost copies: Copies)
    returns (results: seq<PageBytes>)
    requires Holds(buffer, copies) && scopes == copies.open && LegalRun(copies, script, buffer.pageSize)
    modifies buffer
    ensures Holds(buffer, Final(copies, script, buffer.pageSize))
    ensures results == Reads(copies, script, buffer.pageSize)
  {
    hide *;
    HoldsConsistent(buffer, copies);
    ghost var now := copies;
    var open := scopes;
    ghost var rest := script;
    results := [];
    for i := 0 to |script|
      invariant Holds(buffer, now) && now.Consistent() && open == now.open
      invariant rest == script[i..] && LegalRun(now, rest, buffer.pageSize)
      invariant Final(now, rest, buffer.pageSize) == Final(copies, script, buffer.pageSize)
      invariant results + Reads(now, rest, buffer.pageSize) == Reads(copies, script, buffer.pageSize)
    {
      RunStep(now, rest, buffer.pageSize);
      var result;
      open, result := Step(buffer, open, script[i], now);
      results := results + result;
      now, rest := now.Apply(script[i], buffer.pageSize), rest[1..];
    }
    RunEnd(now, rest, buffer.pageSize);
  }

  lemma RunStep(copies: Copies, script: seq<Op>, pageSize: nat)
    requires copies.Consistent() && LegalRun(copies, script, pageSize) && script != []
    ensures copies.Legal(script[0], pageSize)
    ensures LegalRun(copies.Apply(script[0], pageSize), script[1..], pageSize)
    ensures Final(copies, script, pageSize) == Final(copies.Apply(script[0], pageSize), script[1..], pageSize)
    ensures Reads(copies, script, pageSize)
            == copies.Result(script[0]) + Reads(copies.Apply(script[0], pageSize), script[1..], pageSize)
  {}

  lemma RunEnd(copies: Copies, script: seq<Op>, pageSize: nat)
    requires copies.Consistent() && LegalRun(copies, script, pageSize) && script == []
    ensures Final(copies, script, pageSize) == copies && Reads(copies, script, pageSize) == []
  {}

  // A reader can be given a frame that carries a later version than its own, with the right bytes.
  method LaterLabel(buffer: VersionedPages, id: PageId) returns (reader: VersionScope, f: nat)
    requires buffer.Valid() && buffer.active == multiset{} && id in buffer.work && id !in buffer.vpMap
    modifies buffer
    ensures buffer.Valid() && reader in buffer.active && f < |buffer.frames|
    ensures buffer.frames[f].version > reader.ResultVersion()
    ensures id in old(buffer.work) && buffer.frames[f].bytes == old(buffer.work)[id]
  {
    hide VersionedPages.Valid, VersionedPages.Writing;
    var later;
    reader, later := TwoReaders(buffer);
    var first := buffer.GetPageReadonly(later, id);
    f := buffer.GetPageReadonly(reader, id);
  }

  // An old reader and a new one, with a commit in between that changes nothing.
  method TwoReaders(buffer: VersionedPages) returns (reader: VersionScope, later: VersionScope)
    requires buffer.Valid() && buffer.active == multiset{}
    modifies buffer`active, buffer`runningVersionCount, buffer`lastStableVersion, buffer`currentModifications,
        buffer`hist
    ensures buffer.Valid() && buffer.active == multiset{reader, later} && !reader.isEditable && !later.isEditable
    ensures buffer.View(reader) == buffer.View(later) == buffer.work
    ensures later.startVersion == reader.startVersion + 1
  {
    VersionCount(buffer);
    NoScopes(buffer);
    hide VersionedPages.Valid, VersionedPages.Writing;
    reader := buffer.InitVersionReadonly();
    StillNoWriter(buffer, reader);
    var writer := buffer.InitVersionEditable();
    buffer.Terminate(writer);
    VersionCount(buffer);
    later := buffer.InitVersionReadonly();
  }

  lemma NoScopes(buffer: VersionedPages)
    requires buffer.Valid() && buffer.active == multiset{}
    ensures buffer.work == buffer.hist[buffer.lastStableVersion]
  {}

  lemma StillNoWriter(buffer: VersionedPages, reader: VersionScope)
    requires buffer.active == multiset{reader} && !reader.isEditable
    ensures !buffer.Writing()
  {}
}

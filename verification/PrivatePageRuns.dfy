// Whole runs over private pages: for any interleaving of the workers, the buffer, however small, is a set of
// plain files for each of them.
module PrivatePageRuns {
  import opened Bytes
  import opened PrivatePages

  // What a query does with its temporary files. Pages are pinned, read and written while they are pinned, in
  // any order and any number of times, and unpinned; pinned pages are named by their place among them.
  datatype Op =
    | Create
    | Pin(key: TmpPageId)
    | Read(handle: nat)
    | Write(handle: nat, bytes: PageBytes)
    | Unpin(handle: nat)
    | Remove(id: nat)
    | NewScope

  // Files without a buffer: pages that were never written hold zeros.
  datatype Files = Files(pageSize: nat, poolSize: nat, count: nat, removed: set<nat>,
                         pages: map<TmpPageId, PageBytes>, pinned: seq<TmpPageId>) {
    predicate Live(id: nat) { id < count && id !in removed }

    function Page(key: TmpPageId): (r: PageBytes) {
      if key in pages then pages[key] else seq(pageSize, _ => 0)
    }

    // A page can be pinned if it already is, or if the pinned pages leave a frame for it.
    predicate Legal(op: Op) {
      match op
      case Create => count < UNASSIGNED
      case Pin(key) => Live(key.id) && (key in pinned || |Elements(pinned)| < poolSize)
      case Read(handle) => handle < |pinned|
      case Write(handle, bytes) => handle < |pinned| && |bytes| == pageSize
      case Unpin(handle) => handle < |pinned|
      case Remove(id) => Live(id) && forall i :: 0 <= i < |pinned| ==> pinned[i].id != id
      case NewScope => forall id :: 0 <= id < count ==> id in removed
    }

    function Apply(op: Op): (r: Files)
      requires Legal(op)
    {
      match op
      case Create => this.(count := count + 1)
      case Pin(key) => this.(pinned := pinned + [key])
      case Read(_) => this
      case Write(handle, bytes) => this.(pages := pages[pinned[handle] := bytes])
      case Unpin(handle) => this.(pinned := Without(pinned, handle))
      case Remove(id) => this.(removed := removed + {id})
      case NewScope => this.(count := 0, removed := {}, pages := map[])
    }

    function Result(op: Op): (r: seq<PageBytes>)
      requires Legal(op)
    {
      if op.Read? then [Page(pinned[op.handle])] else []
    }
  }

  function Elements<T>(s: seq<T>): (r: set<T>) { set x | x in s }

  function Without<T>(s: seq<T>, i: nat): (r: seq<T>)
    requires i < |s|
  {
    s[..i] + s[i + 1..]
  }

  /* ----- one worker ----- */

  // A worker with its client: the files that the client sees and the frames that it has pinned.
  datatype Session = Session(worker: Worker, files: Files, frames: seq<nat>) {
    // The pins of a frame are those of the client.
    ghost predicate PinsMatch()
      reads worker, worker.pool
    {
      worker.Shape() && forall f: nat :: worker.Mine(f) ==> worker.pool[f].pins == multiset(frames)[f]
    }

    // The pinned frames hold the pinned pages.
    ghost predicate FramesMatch()
      reads worker, worker.pool
    {
      && worker.Shape() && |frames| == |files.pinned|
      && forall i :: 0 <= i < |frames| ==>
           && worker.Mine(frames[i]) && worker.pool[frames[i]].pageId == files.pinned[i]
           && files.Live(files.pinned[i].id)
    }

    ghost predicate SameFiles()
      reads worker, worker.pool
    {
      && |worker.tmpInfo| == files.count && worker.removed == files.removed
      && worker.pageSize == files.pageSize && worker.poolSize == files.poolSize
      && (forall id :: id in files.removed ==> id < files.count)
      && (forall key :: key in files.pages ==> key.id < files.count)
      && forall key: TmpPageId :: worker.Live(key.id) ==> worker.Content(key) == files.Page(key)
    }

    // The worker holds the plain files, and the client the frames of the pinned pages.
    ghost predicate Holds()
      reads worker, worker.pool
    {
      worker.Valid() && PinsMatch() && FramesMatch() && SameFiles()
    }

    // A pinned frame is one of the client's.
    lemma PinnedFrame(f: nat)
      requires PinsMatch() && worker.Mine(f) && worker.pool[f].pins > 0
      ensures f in frames && exists i :: 0 <= i < |frames| && frames[i] == f
    {
      assert f in multiset(frames);
    }

    lemma HandlePinned(i: nat)
      requires Holds() && i < |frames|
      ensures worker.pool[frames[i]].pins > 0
      ensures files.pinned[i] in worker.pageMap && worker.pageMap[files.pinned[i]] == frames[i]
    {
      assert frames[i] in multiset(frames);
      assert worker.FrameValid(frames[i]);
    }

    lemma NotPinned(key: TmpPageId)
      requires Holds()
      ensures key !in worker.pageMap ==> key !in files.pinned
    {
      hide Holds;
      if key in files.pinned {
        var i :| 0 <= i < |files.pinned| && files.pinned[i] == key;
        FrameCount();
        HandlePinned(i);
      }
    }

    lemma FrameCount()
      requires Holds()
      ensures |frames| == |files.pinned|
    {}

    // No two frames are pinned for one page.
    lemma FewFrames()
      requires Holds()
      ensures |Elements(frames)| <= |Elements(files.pinned)|
    {
      FrameCount();
      hide Holds;
      var keys, used := Elements(files.pinned), Elements(frames);
      forall f | f in used ensures exists k :: k in keys && k in worker.pageMap && worker.pageMap[k] == f {
        var i :| 0 <= i < |frames| && frames[i] == f;
        HandlePinned(i);
        assert files.pinned[i] in keys;
      }
      ImageSize(keys, worker.pageMap, used);
    }

    // Among the frames there is one to spare if the pinned pages are fewer.
    lemma SpareFrame(key: TmpPageId) returns (unpinned: nat)
      requires Holds() && files.Legal(Pin(key))
      ensures key !in worker.pageMap ==>
                unpinned < worker.poolSize && worker.pool[worker.base + unpinned].pins == 0
    {
      unpinned := 0;
      if key !in worker.pageMap {
        NotPinned(key);
        FewFrames();
        var used := Elements(frames);
        unpinned := Outside(used, worker.base, worker.poolSize);
        hide Holds, Elements;
        if worker.pool[worker.base + unpinned].pins > 0 {
          PinnedFrame(worker.base + unpinned);
        }
      }
    }
  }

  lemma {:induction false} ImageSize<K, V>(keys: set<K>, m: map<K, V>, image: set<V>)
    requires forall v :: v in image ==> exists k :: k in keys && k in m && m[k] == v
    ensures |image| <= |keys|
    decreases |keys|
  {
    if v :| v in image {
      var k :| k in keys && k in m && m[k] == v;
      forall u | u in image - {v} ensures exists j :: j in keys - {k} && j in m && m[j] == u {
        var j :| j in keys && j in m && m[j] == u;
        assert j != k;
      }
      ImageSize(keys - {k}, m, image - {v});
    }
  }

  // Fewer than n numbers do not fill a stretch of n.
  lemma {:induction false} Outside(used: set<nat>, base: nat, n: nat) returns (u: nat)
    requires |used| < n
    ensures u < n && base + u !in used
    decreases n
  {
    u := n - 1;
    if base + u in used {
      u := Outside(used - {base + u}, base, n - 1);
    }
  }

  lemma WithoutOne<T>(s: seq<T>, i: nat)
    requires i < |s|
    ensures multiset(Without(s, i)) == multiset(s) - multiset{s[i]}
  {
    assert s == s[..i] + [s[i]] + s[i + 1..];
  }

  /* ----- what the steps leave as it was ----- */

  lemma SessionParts(s: Session)
    requires s.Holds()
    ensures s.worker.Shape() && s.worker.Valid() && s.PinsMatch() && s.FramesMatch() && s.SameFiles()
    ensures forall id: nat :: s.files.Live(id) ==> s.worker.Live(id)
  {}

  lemma SessionFacts(s: Session)
    requires s.Holds()
    ensures s.worker.Shape() && |s.frames| == |s.files.pinned| && s.worker.Valid() && s.SameFiles()
    ensures s.PinsMatch() && s.FramesMatch()
    ensures s.worker.pageSize == s.files.pageSize && s.worker.removed == s.files.removed
    ensures |s.worker.tmpInfo| == s.files.count && forall id :: id in s.files.removed ==> id < s.files.count
    ensures forall i :: 0 <= i < |s.frames| ==>
              && s.worker.Mine(s.frames[i]) && s.worker.pool[s.frames[i]].pageId == s.files.pinned[i]
              && s.files.Live(s.files.pinned[i].id)
  {}

  lemma TogetherHold(s: Session)
    requires s.worker.Valid() && s.PinsMatch() && s.FramesMatch() && s.SameFiles()
    ensures s.Holds()
  {}

  twostate lemma PinnedStay(s: Session)
    requires old(s.PinsMatch()) && old(s.FramesMatch()) && s.worker.Shape()
    requires forall f: nat :: s.worker.Mine(f) ==> s.worker.pool[f].pins == old(s.worker.pool[f].pins)
    requires forall f: nat :: s.worker.Mine(f) && old(s.worker.pool[f].pins) > 0 ==>
               s.worker.pool[f].pageId == old(s.worker.pool[f].pageId)
    ensures s.PinsMatch() && s.FramesMatch()
  {
    assert forall i :: 0 <= i < |s.frames| ==> s.frames[i] in multiset(s.frames);
  }

  twostate lemma FilesStay(s: Session)
    requires old(s.SameFiles()) && |s.worker.tmpInfo| == old(|s.worker.tmpInfo|)
    requires s.worker.removed == old(s.worker.removed)
    requires s.worker.ContentsKept()
    ensures s.SameFiles()
  {
    hide Worker.Content;
  }

  // Neither what the files hold depends on what is pinned, nor the other way round.
  lemma OtherPins(s: Session, next: Session)
    requires s.SameFiles() && next.worker == s.worker && next.files == s.files.(pinned := next.files.pinned)
    ensures next.SameFiles()
  {
    hide Worker.Content;
  }

  lemma SamePins(s: Session, next: Session)
    requires s.PinsMatch() && next.worker == s.worker && next.frames == s.frames
    ensures next.PinsMatch()
  {}

  lemma OtherPages(s: Session, next: Session)
    requires s.PinsMatch() && s.FramesMatch() && next.worker == s.worker && next.frames == s.frames
    requires next.files.pinned == s.files.pinned
    requires forall i :: 0 <= i < |s.files.pinned| ==>
               s.files.Live(s.files.pinned[i].id) ==> next.files.Live(s.files.pinned[i].id)
    ensures next.PinsMatch() && next.FramesMatch()
  {}

  /* ----- the steps ----- */

  datatype PinStep = PinStep(s: Session, key: TmpPageId, f: nat)

  twostate lemma PinnedMore(p: PinStep)
    requires old(p.s.PinsMatch()) && old(p.s.FramesMatch()) && p.s.worker.Shape() && p.s.worker.Mine(p.f)
    requires p.s.files.Legal(Pin(p.key)) && p.s.worker.PinnedKept()
    requires p.s.worker.pool[p.f].pageId == p.key && p.s.worker.pool[p.f].pins == old(p.s.worker.pool[p.f].pins) + 1
    requires forall g: nat :: p.s.worker.Mine(g) && g != p.f ==>
               p.s.worker.pool[g].pins == old(p.s.worker.pool[g].pins)
    ensures Session(p.s.worker, p.s.files.Apply(Pin(p.key)), p.s.frames + [p.f]).PinsMatch()
    ensures Session(p.s.worker, p.s.files.Apply(Pin(p.key)), p.s.frames + [p.f]).FramesMatch()
  {
    assert forall i :: 0 <= i < |p.s.frames| ==> p.s.frames[i] in multiset(p.s.frames);
  }

  method PinPage(s: Session, key: TmpPageId) returns (next: Session)
    requires s.Holds() && s.files.Legal(Pin(key))
    modifies s.worker`clock, s.worker`pageMap, s.worker`tmpInfo, s.worker.pool
    ensures next.worker == s.worker && next.files == s.files.Apply(Pin(key)) && next.Holds()
    ensures s.worker.OthersSame()
  {
    SessionParts(s);
    ghost var unpinned := s.SpareFrame(key);
    hide *;
    var f := PinFrame(s, key, unpinned);
    next := Session(s.worker, s.files.Apply(Pin(key)), s.frames + [f]);
    OtherPins(s, next);
    TogetherHold(next);
  }

  method PinFrame(s: Session, key: TmpPageId, ghost unpinned: nat) returns (f: nat)
    requires s.worker.Shape() && s.worker.Valid() && s.PinsMatch() && s.FramesMatch() && s.SameFiles()
    requires s.files.Legal(Pin(key)) && s.worker.Live(key.id)
    requires key !in s.worker.pageMap ==>
               unpinned < s.worker.poolSize && s.worker.pool[s.worker.base + unpinned].pins == 0
    modifies s.worker`clock, s.worker`pageMap, s.worker`tmpInfo, s.worker.pool
    ensures s.worker.Valid() && s.SameFiles() && s.worker.OthersSame()
    ensures Session(s.worker, s.files.Apply(Pin(key)), s.frames + [f]).PinsMatch()
    ensures Session(s.worker, s.files.Apply(Pin(key)), s.frames + [f]).FramesMatch()
  {
    hide Worker.Valid, Worker.Content, Worker.ContentsKept, Worker.PinnedKept, Worker.OthersSame, Worker.Live,
         Session.PinsMatch, Session.FramesMatch, Session.SameFiles, Files.Legal, Files.Apply;
    f := s.worker.GetPage(key, unpinned);
    PinnedMore(PinStep(s, key, f));
    FilesStay(s);
  }

  method ReadPage(s: Session, handle: nat) returns (bytes: PageBytes)
    requires s.Holds() && s.files.Legal(Read(handle))
    ensures bytes == s.files.Page(s.files.pinned[handle])
  {
    s.HandlePinned(handle);
    bytes := s.worker.pool[s.frames[handle]].bytes;
  }

  datatype WriteStep = WriteStep(s: Session, handle: nat, bytes: PageBytes)

  twostate lemma FilesWritten(w: WriteStep)
    requires old(w.s.SameFiles()) && w.s.files.Legal(Write(w.handle, w.bytes))
    requires w.s.files.Live(w.s.files.pinned[w.handle].id)
    requires w.s.worker.tmpInfo == old(w.s.worker.tmpInfo) && w.s.worker.removed == old(w.s.worker.removed)
    requires w.s.worker.Content(w.s.files.pinned[w.handle]) == w.bytes
    requires forall key :: key != w.s.files.pinned[w.handle] ==>
               w.s.worker.Content(key) == old(w.s.worker.Content(key))
    ensures Session(w.s.worker, w.s.files.Apply(Write(w.handle, w.bytes)), w.s.frames).SameFiles()
  {
    hide Worker.Content;
  }

  method WritePage(s: Session, handle: nat, bytes: PageBytes) returns (next: Session)
    requires s.Holds() && s.files.Legal(Write(handle, bytes))
    modifies s.worker.pool
    ensures next.worker == s.worker && next.files == s.files.Apply(Write(handle, bytes)) && next.Holds()
    ensures s.worker.OthersSame()
  {
    s.HandlePinned(handle);
    SessionFacts(s);
    next := Session(s.worker, s.files.Apply(Write(handle, bytes)), s.frames);
    hide *;
    s.worker.Write(s.frames[handle], bytes);
    PinnedStay(s);
    FilesWritten(WriteStep(s, handle, bytes));
    OtherPages(s, next);
    TogetherHold(next);
  }

  datatype UnpinStep = UnpinStep(s: Session, handle: nat)

  twostate lemma PinsLess(u: UnpinStep)
    requires old(u.s.PinsMatch()) && u.handle < |u.s.frames| && u.s.worker.Shape()
    requires u.s.worker.Mine(u.s.frames[u.handle])
    requires u.s.worker.pool[u.s.frames[u.handle]].pins == old(u.s.worker.pool[u.s.frames[u.handle]].pins) - 1
    requires forall g: nat :: u.s.worker.Mine(g) && g != u.s.frames[u.handle] ==>
               u.s.worker.pool[g].pins == old(u.s.worker.pool[g].pins)
    ensures Session(u.s.worker, u.s.files, Without(u.s.frames, u.handle)).PinsMatch()
  {
    WithoutOne(u.s.frames, u.handle);
    hide Without;
  }

  twostate lemma FramesLess(u: UnpinStep)
    requires old(u.s.FramesMatch()) && u.s.files.Legal(Unpin(u.handle)) && u.s.worker.Shape()
    requires forall g: nat :: u.s.worker.Mine(g) ==> u.s.worker.pool[g].pageId == old(u.s.worker.pool[g].pageId)
    ensures |u.s.frames| == |u.s.files.pinned|
    ensures Session(u.s.worker, u.s.files.Apply(Unpin(u.handle)), Without(u.s.frames, u.handle)).FramesMatch()
  {}

  method UnpinPage(s: Session, handle: nat) returns (next: Session)
    requires s.Holds() && s.files.Legal(Unpin(handle))
    modifies s.worker.pool
    ensures next.worker == s.worker && next.files == s.files.Apply(Unpin(handle)) && next.Holds()
    ensures s.worker.OthersSame()
  {
    s.HandlePinned(handle);
    SessionFacts(s);
    next := Session(s.worker, s.files.Apply(Unpin(handle)), Without(s.frames, handle));
    hide *;
    s.worker.Unpin(s.frames[handle]);
    PinsLess(UnpinStep(s, handle));
    FramesLess(UnpinStep(s, handle));
    SamePins(Session(s.worker, s.files, Without(s.frames, handle)), next);
    FilesStay(s);
    OtherPins(s, next);
    TogetherHold(next);
  }

  twostate lemma FilesMore(s: Session)
    requires old(s.SameFiles()) && s.files.Legal(Create) && s.worker.removed == old(s.worker.removed)
    requires |s.worker.tmpInfo| == old(|s.worker.tmpInfo|) + 1
    requires forall key: TmpPageId :: old(s.worker.Live(key.id)) ==>
               s.worker.Content(key) == old(s.worker.Content(key))
    requires forall key: TmpPageId :: key.id == old(|s.worker.tmpInfo|) ==> s.worker.Content(key) == s.worker.Zeros()
    ensures Session(s.worker, s.files.Apply(Create), s.frames).SameFiles()
  {
    hide Worker.Content;
  }

  method CreateFile(s: Session) returns (next: Session)
    requires s.Holds() && s.files.Legal(Create)
    modifies s.worker`tmpInfo
    ensures next.worker == s.worker && next.files == s.files.Apply(Create) && next.Holds()
  {
    SessionFacts(s);
    next := Session(s.worker, s.files.Apply(Create), s.frames);
    hide Worker.Valid, Worker.Content, Worker.Shape, Session.Holds, Session.PinsMatch, Session.FramesMatch,
         Session.SameFiles;
    var id := s.worker.GetTmpFileId();
    FilesMore(s);
    OtherPages(s, next);
    TogetherHold(next);
  }

  datatype RemoveStep = RemoveStep(s: Session, id: nat)

  twostate lemma FilesLess(r: RemoveStep)
    requires old(r.s.SameFiles()) && r.s.files.Legal(Remove(r.id))
    requires |r.s.worker.tmpInfo| == old(|r.s.worker.tmpInfo|)
    requires r.s.worker.removed == old(r.s.worker.removed) + {r.id}
    requires forall key: TmpPageId :: r.s.worker.Live(key.id) ==>
               r.s.worker.Content(key) == old(r.s.worker.Content(key))
    ensures Session(r.s.worker, r.s.files.Apply(Remove(r.id)), r.s.frames).SameFiles()
  {
    hide Worker.Content;
  }

  lemma NonePinned(s: Session, id: nat)
    requires s.Holds() && s.files.Legal(Remove(id))
    ensures forall f: nat :: s.worker.Mine(f) && s.worker.pool[f].pageId.id == id ==> s.worker.pool[f].pins == 0
  {
    SessionFacts(s);
    hide Session.Holds, Session.SameFiles, Session.FramesMatch, Worker.Valid;
    forall f: nat | s.worker.Mine(f) && s.worker.pool[f].pageId.id == id ensures s.worker.pool[f].pins == 0 {
      if s.worker.pool[f].pins > 0 {
        s.PinnedFrame(f);
      }
    }
  }

  method RemoveFile(s: Session, id: nat) returns (next: Session)
    requires s.Holds() && s.files.Legal(Remove(id))
    modifies s.worker`pageMap, s.worker`tmpInfo, s.worker`removed, s.worker.pool
    ensures next.worker == s.worker && next.files == s.files.Apply(Remove(id)) && next.Holds()
    ensures s.worker.OthersSame()
  {
    SessionFacts(s);
    NonePinned(s, id);
    next := Session(s.worker, s.files.Apply(Remove(id)), s.frames);
    hide Worker.Valid, Worker.Content, Worker.Shape, Session.Holds, Session.PinsMatch, Session.FramesMatch,
         Session.SameFiles;
    s.worker.RemoveTmp(id);
    PinnedStay(s);
    FilesLess(RemoveStep(s, id));
    OtherPages(s, next);
    TogetherHold(next);
  }

  method NextScope(s: Session) returns (next: Session)
    requires s.Holds() && s.files.Legal(NewScope)
    modifies s.worker`tmpInfo, s.worker`removed
    ensures next.worker == s.worker && next.files == s.files.Apply(NewScope) && next.Holds()
  {
    SessionFacts(s);
    next := Session(s.worker, s.files.Apply(NewScope), s.frames);
    hide Worker.Valid, Worker.Content, Worker.Shape, Session.Holds, Session.PinsMatch, Session.FramesMatch;
    s.worker.StartScope();
    OtherPages(s, next);
    TogetherHold(next);
  }

  method Step(s: Session, op: Op) returns (next: Session, read: seq<PageBytes>)
    requires s.Holds() && s.files.Legal(op)
    modifies s.worker`clock, s.worker`pageMap, s.worker`tmpInfo, s.worker`removed, s.worker.pool
    ensures next.worker == s.worker && next.files == s.files.Apply(op) && next.Holds()
    ensures read == s.files.Result(op) && s.worker.OthersSame()
  {
    hide Session.Holds, Files.Page, Files.Apply, Files.Legal;
    read := [];
    match op {
      case Create =>
        next := CreateFile(s);
      case Pin(key) =>
        next := PinPage(s, key);
      case Read(handle) =>
        var bytes := ReadPage(s, handle);
        next, read := s, [bytes];
        ReadApplies(s.files, handle);
      case Write(handle, bytes) =>
        next := WritePage(s, handle, bytes);
      case Unpin(handle) =>
        next := UnpinPage(s, handle);
      case Remove(id) =>
        next := RemoveFile(s, id);
      case NewScope =>
        next := NextScope(s);
    }
  }

  lemma ReadApplies(files: Files, handle: nat)
    requires files.Legal(Read(handle))
    ensures files.Apply(Read(handle)) == files && handle < |files.pinned|
    ensures files.Result(Read(handle)) == [files.Page(files.pinned[handle])]
  {}

  /* ----- all workers ----- */

  // An operation of one of the workers.
  datatype Event = Event(who: nat, op: Op)

  predicate LegalEvent(files: seq<Files>, e: Event) { e.who < |files| && files[e.who].Legal(e.op) }

  function After(files: seq<Files>, e: Event): (r: seq<Files>)
    requires LegalEvent(files, e)
  {
    files[e.who := files[e.who].Apply(e.op)]
  }

  predicate LegalRun(files: seq<Files>, script: seq<Event>)
    decreases script
  {
    script == [] || (LegalEvent(files, script[0]) && LegalRun(After(files, script[0]), script[1..]))
  }

  // What the reads of a script return on plain files, a set of them for each worker.
  function Reads(files: seq<Files>, script: seq<Event>): (r: seq<PageBytes>)
    requires LegalRun(files, script)
    decreases script
  {
    if script == [] then []
    else files[script[0].who].Result(script[0].op) + Reads(After(files, script[0]), script[1..])
  }

  function FilesOf(sessions: seq<Session>): (r: seq<Files>)
    ensures |r| == |sessions| && forall i :: 0 <= i < |r| ==> r[i] == sessions[i].files
  {
    seq(|sessions|, i requires 0 <= i < |sessions| => sessions[i].files)
  }

  // The stretches of the pool that the workers use do not overlap.
  ghost predicate Apart(sessions: seq<Session>, pool: array<Frame>) {
    && (forall i :: 0 <= i < |sessions| ==> sessions[i].worker.pool == pool)
    && forall i, j :: 0 <= i < |sessions| && 0 <= j < |sessions| && i != j ==>
         && sessions[i].worker != sessions[j].worker
         && forall f :: sessions[i].worker.Mine(f) ==> !sessions[j].worker.Mine(f)
  }

  ghost predicate AllHold(sessions: seq<Session>, pool: array<Frame>)
    requires forall i :: 0 <= i < |sessions| ==> sessions[i].worker.pool == pool
    reads set s | s in sessions :: s.worker, pool
  {
    forall i :: 0 <= i < |sessions| ==> sessions[i].Holds()
  }

  // A worker is not disturbed by what happens elsewhere in the pool.
  twostate lemma Undisturbed(s: Session)
    requires old(s.Holds())
    requires s.worker.clock == old(s.worker.clock) && s.worker.pageMap == old(s.worker.pageMap)
    requires s.worker.tmpInfo == old(s.worker.tmpInfo) && s.worker.removed == old(s.worker.removed)
    requires forall f :: 0 <= f < s.worker.pool.Length && s.worker.Mine(f) ==>
               s.worker.pool[f] == old(s.worker.pool[f])
    ensures s.Holds()
  {
    forall f | s.worker.Mine(f) ensures s.worker.FrameValid(f) {
      assert old(s.worker.FrameValid(f));
    }
  }

  method StepOne(sessions: seq<Session>, pool: array<Frame>, e: Event)
    returns (after: seq<Session>, read: seq<PageBytes>)
    requires Apart(sessions, pool) && AllHold(sessions, pool) && LegalEvent(FilesOf(sessions), e)
    modifies set s | s in sessions :: s.worker, pool
    ensures SameWorkers(sessions, after) && Apart(after, pool) && AllHold(after, pool)
    ensures FilesOf(after) == After(FilesOf(sessions), e) && read == sessions[e.who].files.Result(e.op)
  {
    hide Session.Holds, Files.Legal, Files.Apply, Files.Result;
    var next;
    next, read := Step(sessions[e.who], e.op);
    forall k | 0 <= k < |sessions| && k != e.who ensures sessions[k].Holds() {
      Undisturbed(sessions[k]);
    }
    after := sessions[e.who := next];
  }

  predicate SameWorkers(a: seq<Session>, b: seq<Session>) {
    |a| == |b| && forall k :: 0 <= k < |a| ==> a[k].worker == b[k].worker
  }

  // Whatever the workers do, and in whatever order, their reads return what they would from plain files.
  method Run(start: seq<Session>, pool: array<Frame>, script: seq<Event>)
    returns (sessions: seq<Session>, reads_: seq<PageBytes>)
    requires Apart(start, pool) && AllHold(start, pool) && LegalRun(FilesOf(start), script)
    modifies set s | s in start :: s.worker, pool
    ensures reads_ == Reads(FilesOf(start), script)
    ensures SameWorkers(start, sessions) && Apart(sessions, pool) && AllHold(sessions, pool)
  {
    hide Session.Holds, LegalRun, Reads, FilesOf, After, LegalEvent, Files.Legal, Files.Result, AllHold;
    sessions := start;
    ghost var files, rest := FilesOf(start), script;
    reads_ := [];
    for i := 0 to |script|
      invariant SameWorkers(start, sessions) && Apart(sessions, pool) && AllHold(sessions, pool)
      invariant rest == script[i..] && files == FilesOf(sessions) && LegalRun(files, rest)
      invariant reads_ + Reads(files, rest) == Reads(FilesOf(start), script)
    {
      RunStep(files, rest);
      var read;
      sessions, read := StepOne(sessions, pool, script[i]);
      files := After(files, script[i]);
      reads_, rest := reads_ + read, rest[1..];
    }
    RunEnd(files, rest);
  }

  lemma RunStep(files: seq<Files>, script: seq<Event>)
    requires script != [] && LegalRun(files, script)
    ensures LegalEvent(files, script[0]) && LegalRun(After(files, script[0]), script[1..])
    ensures script[0].who < |files| && files[script[0].who].Legal(script[0].op)
    ensures Reads(files, script)
            == files[script[0].who].Result(script[0].op) + Reads(After(files, script[0]), script[1..])
  {}

  lemma RunEnd(files: seq<Files>, script: seq<Event>)
    requires script == [] && LegalRun(files, script)
    ensures Reads(files, script) == []
  {}

  // A worker whose frames are all free starts with no files.
  lemma StartHolds(w: Worker)
    requires w.Valid() && w.tmpInfo == [] && w.removed == {}
    requires forall f: nat :: w.Mine(f) ==> w.pool[f].pins == 0
    ensures Session(w, Files(w.pageSize, w.poolSize, 0, {}, map[], []), []).Holds()
  {}
}

// The versioned half of the buffer manager: scopes, reads and edits of pages, commits and flushes,
// over a pool whose versioned frames are not recycled.
module VersionedPages {
  import opened Bytes
  import opened Versions

  // How many of the active scopes keep version v in use: an editable one also uses the next version.
  ghost function Uses(active: multiset<VersionScope>, v: nat): (n: nat) {
    active[VersionScope(v, false)] + active[VersionScope(v, true)]
    + if v > 0 then active[VersionScope(v - 1, true)] else 0
  }

  // The reference count of a version; versions that are not in use have no entry.
  function Increment(counts: map<nat, nat>, v: nat): (r: map<nat, nat>) {
    counts[v := (if v in counts then counts[v] else 0) + 1]
  }

  function Decrement(counts: map<nat, nat>, v: nat): (r: map<nat, nat>)
    requires v in counts && counts[v] > 0
  {
    if counts[v] == 1 then counts - {v} else counts[v := counts[v] - 1]
  }

  // The counts are those of the active scopes, and no count is zero.
  ghost predicate CountsOk(active: multiset<VersionScope>, counts: map<nat, nat>) {
    && (forall v: nat :: v in counts <==> Uses(active, v) > 0)
    && forall v: nat :: v in counts ==> counts[v] == Uses(active, v)
  }

  // The scopes that can be open at a version: readers of it or of older versions, and one writer.
  ghost predicate ScopesOk(active: multiset<VersionScope>, version: nat) {
    && (forall s :: s in active ==> s.startVersion <= version)
    && forall s :: s in active && s.isEditable ==> s.startVersion == version && active[s] == 1
  }

  // Opening and closing a scope keep the counts right.
  function CountOpened(counts: map<nat, nat>, s: VersionScope): (r: map<nat, nat>) {
    var once := Increment(counts, s.startVersion);
    if s.isEditable then Increment(once, s.startVersion + 1) else once
  }

  lemma UsesMore(active: multiset<VersionScope>, s: VersionScope)
    ensures forall v: nat :: Uses(active + multiset{s}, v) == Uses(active, v) + UsedBy(s, v)
  {
    var more := active + multiset{s};
    assert forall t :: more[t] == active[t] + if t == s then 1 else 0;
  }

  ghost function UsedBy(s: VersionScope, v: nat): (n: nat) {
    if v == s.startVersion || (s.isEditable && v == s.startVersion + 1) then 1 else 0
  }

  lemma ScopeOpened(active: multiset<VersionScope>, counts: map<nat, nat>, s: VersionScope)
    requires CountsOk(active, counts)
    ensures CountsOk(active + multiset{s}, CountOpened(counts, s))
  {
    hide Uses;
    UsesMore(active, s);
  }

  lemma ScopeClosed(active: multiset<VersionScope>, counts: map<nat, nat>, s: VersionScope)
    requires CountsOk(active, counts) && s in active
    ensures s.startVersion in counts && counts[s.startVersion] > 0
    ensures var once := Decrement(counts, s.startVersion);
            && (s.isEditable ==> s.startVersion + 1 in once && once[s.startVersion + 1] > 0)
            && CountsOk(active - multiset{s}, if s.isEditable then Decrement(once, s.startVersion + 1) else once)
  {
    hide Uses;
    assert active - multiset{s} + multiset{s} == active;
    UsesMore(active - multiset{s}, s);
  }

  // Follows the links from the oldest version of a page to the one that version v sees.
  method Walk(frames: seq<VPage>, oldest: nat, ghost chain: seq<nat>, ghost id: PageId, v: nat) returns (f: nat)
    requires ChainOk(frames, id, chain) && chain[0] == oldest
    ensures f == Pick(frames, chain, v)
  {
    hide ChainOk, Pick, Linked;
    ChainLinked(frames, chain, id);
    f := oldest;
    ghost var rest: seq<nat> := chain;
    LinkedFront(frames, rest);
    while frames[f].next.Some? && frames[frames[f].next.value].version <= v
      invariant Linked(frames, rest) && rest != [] && f == rest[0]
      invariant Indices(frames, rest) && f < |frames|
      invariant |rest| > 1 ==> frames[f].next == Some(rest[1]) && rest[1] < |frames|
      invariant |rest| == 1 ==> frames[f].next == None
      invariant Indices(frames, chain) && Pick(frames, chain, v) == Pick(frames, rest, v)
      decreases |rest|
    {
      PickNext(frames, rest, v);
      LinkedTail(frames, rest);
      f := frames[f].next.value;
      rest := rest[1..];
      LinkedFront(frames, rest);
    }
    PickHere(frames, rest, v);
  }

  ghost predicate Indices(frames: seq<VPage>, chain: seq<nat>) {
    chain != [] && forall i :: 0 <= i < |chain| ==> chain[i] < |frames|
  }

  // Every frame of the chain names its successor.
  ghost predicate Linked(frames: seq<VPage>, chain: seq<nat>) {
    && Indices(frames, chain)
    && (forall i, j :: 0 <= i && j == i + 1 < |chain| ==> frames[chain[i]].next == Some(chain[j]))
    && frames[chain[|chain| - 1]].next == None
  }

  lemma ChainLinked(frames: seq<VPage>, chain: seq<nat>, id: PageId)
    requires ChainOk(frames, id, chain)
    ensures Linked(frames, chain) && chain != []
  {}

  lemma LinkedFront(frames: seq<VPage>, chain: seq<nat>)
    requires Linked(frames, chain)
    ensures Indices(frames, chain) && chain[0] < |frames|
    ensures |chain| > 1 ==> frames[chain[0]].next == Some(chain[1]) && chain[1] < |frames|
    ensures |chain| == 1 ==> frames[chain[0]].next == None
  {}

  lemma LinkedTail(frames: seq<VPage>, chain: seq<nat>)
    requires Linked(frames, chain) && |chain| > 1
    ensures Linked(frames, chain[1..])
  {}

  lemma PickNext(frames: seq<VPage>, chain: seq<nat>, v: nat)
    requires |chain| > 1 && Indices(frames, chain)
    requires frames[chain[1]].version <= v
    ensures Indices(frames, chain[1..]) && Pick(frames, chain, v) == Pick(frames, chain[1..], v)
  {}

  lemma PickHere(frames: seq<VPage>, chain: seq<nat>, v: nat)
    requires Indices(frames, chain)
    requires |chain| > 1 ==> frames[chain[1]].version > v
    ensures Pick(frames, chain, v) == chain[0]
  {}

  class VersionedPages {
    const pageSize: nat

    var frames: seq<VPage>
    var vpMap: map<PageId, nat>          // page -> frame of its oldest version
    var files: map<nat, seq<PageBytes>>
    var lastStableVersion: nat
    var runningVersionCount: map<nat, nat>
    var currentModifications: seq<PageId>

    ghost var active: multiset<VersionScope>
    ghost var hist: seq<Snapshot>        // the database as of every committed version
    ghost var work: Snapshot             // the database as the writer sees it
    ghost var chains: map<PageId, seq<nat>>

    function Zeros(): (r: PageBytes)
      ensures |r| == pageSize && forall i :: 0 <= i < pageSize ==> r[i] == 0
    {
      seq(pageSize, _ => 0)
    }

    ghost predicate Exists(id: PageId)
      reads `files
    {
      id.file in files && id.number < |files[id.file]|
    }

    ghost function OnDisk(id: PageId): (r: PageBytes)
      requires Exists(id)
      reads `files
    {
      files[id.file][id.number]
    }

    ghost predicate Writing()
      reads `active, `lastStableVersion
    {
      VersionScope(lastStableVersion, true) in active
    }

    ghost predicate ScopesValid()
      reads `active, `lastStableVersion, `runningVersionCount
    {
      ScopesOk(active, lastStableVersion) && CountsOk(active, runningVersionCount)
    }

    ghost predicate HistoryValid()
      reads `hist, `work, `files, `active, `lastStableVersion
    {
      && |hist| == lastStableVersion + 1 && Growing(hist, work)
      && (!Writing() ==> work == hist[lastStableVersion])
      && forall id :: id in work <==> Exists(id)
    }

    ghost function Top(): (v: nat)
      reads `active, `lastStableVersion
    {
      if Writing() then lastStableVersion + 1 else lastStableVersion
    }

    // A page in the buffer; a page that is only on disk has been the same in all versions.
    ghost predicate Cached(id: PageId)
      reads `frames, `vpMap, `chains, `hist, `work, `files, `active, `lastStableVersion
    {
      && id in vpMap && id in chains
      && PageOk(frames, chains[id], id, hist, work, Top()) && chains[id][0] == vpMap[id]
      && Exists(id) && (!frames[Last(chains[id])].dirty ==> OnDisk(id) == work[id])
    }

    ghost predicate Uncached(id: PageId)
      reads `hist, `work, `files
    {
      && id in work && Exists(id) && OnDisk(id) == work[id]
      && forall v :: 0 <= v < |hist| && id in hist[v] ==> hist[v][id] == work[id]
    }

    ghost predicate CacheValid()
      reads `frames, `vpMap, `chains, `hist, `work, `files, `active, `lastStableVersion
    {
      && chains.Keys == vpMap.Keys
      && (forall id :: id in vpMap ==> Cached(id))
      && forall id :: id in work && id !in vpMap ==> Uncached(id)
    }

    // The page has a frame of the version being written.
    ghost predicate Modified(id: PageId)
      reads `frames, `vpMap, `chains, `lastStableVersion
    {
      && id in vpMap && id in chains && Last(chains[id]) < |frames|
      && frames[Last(chains[id])].version == lastStableVersion + 1
    }

    // The writer's modifications are recorded, each page once.
    ghost predicate ModificationsValid()
      reads `frames, `vpMap, `chains, `currentModifications, `active, `lastStableVersion
    {
      && (!Writing() ==> currentModifications == [])
      && (forall i, j :: 0 <= i < j < |currentModifications| ==> currentModifications[i] != currentModifications[j])
      && (Writing() ==> forall id :: id in currentModifications <==> Modified(id))
    }

    // A frame is marked dirty when it is made for the writer; writing to it does not mark it again.
    ghost predicate WriterDirty()
      reads `frames, `lastStableVersion
    {
      forall f :: 0 <= f < |frames| && frames[f].version > lastStableVersion ==> frames[f].dirty
    }

    ghost predicate Valid()
      reads this
    {
      && ScopesValid() && HistoryValid() && CacheValid() && ModificationsValid() && TailsOk(frames, chains)
      && WriterDirty()
    }

    // What a scope is entitled to see.
    ghost function View(scope: VersionScope): (r: Snapshot)
      reads `hist, `work
    {
      if scope.isEditable then work else if scope.startVersion < |hist| then hist[scope.startVersion] else map[]
    }

    // Steps that are not commits leave every snapshot as it is, and so is the writer's view.
    twostate predicate SameViews()
      reads this
    {
      hist == old(hist) && work == old(work)
    }

    constructor (pageSize: nat, files: map<nat, seq<PageBytes>>)
      ensures Valid() && this.pageSize == pageSize && this.files == files
      ensures lastStableVersion == 0 && active == multiset{}
      ensures forall id :: Exists(id) ==> id in work && work[id] == OnDisk(id)
    {
      this.pageSize, this.files := pageSize, files;
      frames, vpMap, chains := [], map[], map[];
      lastStableVersion, runningVersionCount, currentModifications, active := 0, map[], [], multiset{};
      ghost var pages := set file, number: nat | file in files && 0 <= number < |files[file]| :: PageId(file, number);
      ghost var all := map id | id in pages :: files[id.file][id.number];
      hist, work := [all], all;
    }

    /* ----- scopes ----- */

    method InitVersionReadonly() returns (scope: VersionScope)
      requires Valid()
      modifies `runningVersionCount, `active
      ensures Valid() && SameViews() && scope == VersionScope(lastStableVersion, false)
      ensures active == old(active) + multiset{scope}
      ensures View(scope) == hist[lastStableVersion]
    {
      hide CountsOk, PageOk, Growing;
      scope := VersionScope(lastStableVersion, false);
      ScopeOpened(active, runningVersionCount, scope);
      runningVersionCount := Increment(runningVersionCount, lastStableVersion);
      active := active + multiset{scope};
      PagesUntouched();
    }

    // There may be one writer at a time.
    method InitVersionEditable() returns (scope: VersionScope)
      requires Valid() && !Writing()
      modifies `runningVersionCount, `active
      ensures Valid() && SameViews() && scope == VersionScope(lastStableVersion, true)
      ensures active == old(active) + multiset{scope}
    {
      hide CountsOk, PageOk, Growing;
      scope := VersionScope(lastStableVersion, true);
      ScopeOpened(active, runningVersionCount, scope);
      runningVersionCount := Increment(runningVersionCount, lastStableVersion);
      runningVersionCount := Increment(runningVersionCount, lastStableVersion + 1);
      active := active + multiset{scope};
      PagesUntouched();
      NothingModified();
    }

    // Opening a scope does not touch the pages; it can only raise the newest possible version.
    twostate lemma PagesUntouched()
      requires old(CacheValid())
      requires frames == old(frames) && vpMap == old(vpMap) && chains == old(chains) && files == old(files)
      requires hist == old(hist) && work == old(work) && lastStableVersion == old(lastStableVersion)
      requires old(Writing()) ==> Writing()
      ensures CacheValid()
    {
      hide ChainOk, ChainShows;
      forall id | id in vpMap ensures Cached(id) {
        assert old(Cached(id));
      }
      forall id | id in work && id !in vpMap ensures Uncached(id) {
        assert old(Uncached(id));
      }
    }

    // Before the writer's first edit no frame has its version.
    twostate lemma NothingModified()
      requires old(CacheValid()) && old(!Writing()) && Writing() && currentModifications == []
      requires frames == old(frames) && vpMap == old(vpMap) && chains == old(chains)
      requires lastStableVersion == old(lastStableVersion)
      ensures ModificationsValid()
    {
      hide ChainShows;
      forall id ensures !Modified(id) {
        assert id in vpMap ==> old(Cached(id));
      }
    }

    /* ----- pages ----- */

    // Nothing has happened to the frames but pins.
    twostate predicate OnlyPinned()
      reads `frames
    {
      && |old(frames)| <= |frames|
      && forall g :: 0 <= g < |old(frames)| ==> frames[g].WithPins(0) == old(frames)[g].WithPins(0)
    }

    // A page that changes only by pins stays what it is.
    twostate lemma CachedKept(id: PageId)
      requires old(Cached(id)) && OnlyPinned()
      requires id in vpMap && vpMap[id] == old(vpMap)[id] && id in chains && chains[id] == old(chains)[id]
      requires hist == old(hist) && work == old(work) && files == old(files)
      requires active == old(active) && lastStableVersion == old(lastStableVersion)
      ensures Cached(id) && frames[Last(chains[id])].version == old(frames[Last(chains[id])].version)
    {
      var chain := chains[id];
      ChainFrames(old(frames), chain, id);
      assert Agree(old(frames), frames, chain) by {
        forall i | 0 <= i < |chain| ensures frames[chain[i]].Essence() == old(frames)[chain[i]].Essence() {
          assert frames[chain[i]].WithPins(0) == old(frames)[chain[i]].WithPins(0);
        }
      }
      PageAgree(old(frames), frames, chain, id, hist, work, Top());
      var last := Last(chain);
      assert frames[last].WithPins(0) == old(frames)[last].WithPins(0);
    }

    lemma ChainFrames(frames: seq<VPage>, chain: seq<nat>, id: PageId)
      requires ChainOk(frames, id, chain)
      ensures chain != [] && forall i :: 0 <= i < |chain| ==> chain[i] < |frames|
    {}

    // Brings a page that is only on disk into the buffer, labelled with a version.
    method Load(id: PageId, version: nat, pins: nat) returns (f: nat)
      requires Valid() && id in work && id !in vpMap && version <= lastStableVersion
      modifies `frames, `vpMap, `chains
      ensures Valid() && OnlyPinned() && vpMap == old(vpMap)[id := f] && chains == old(chains)[id := [f]]
      ensures f == |old(frames)| && frames == old(frames) + [VPage(id, version, None, None, work[id], pins, false)]
    {
      hide PageOk, Growing, ScopesOk, CountsOk, CacheValid, ModificationsValid, TailsOk;
      assert Uncached(id) && id !in chains by {
        CacheFacts(id);
      }
      f := |frames|;
      frames := frames + [VPage(id, version, None, None, files[id.file][id.number], pins, false)];
      vpMap := vpMap[id := f];
      chains := chains[id := [f]];
      AfterLoad(id);
      TailsGrow(old(frames), frames, old(chains), id, [f]);
    }

    lemma CacheFacts(id: PageId)
      requires CacheValid() && id in work
      ensures (id in vpMap <==> id in chains)
      ensures if id in vpMap then Cached(id) else Uncached(id)
    {}

    // A page that has come from disk joins the others.
    twostate predicate LoadOf(id: PageId)
      reads this
    {
      && OnlyPinned() && id in work && id !in old(vpMap) && |frames| == |old(frames)| + 1
      && hist == old(hist) && work == old(work) && files == old(files) && active == old(active)
      && lastStableVersion == old(lastStableVersion) && currentModifications == old(currentModifications)
      && vpMap == old(vpMap)[id := |old(frames)|] && chains == old(chains)[id := [|old(frames)|]]
      && var page := frames[|old(frames)|];
         && page.pageId == id && page.prev == page.next == None
         && page.version <= lastStableVersion && page.bytes == work[id]
    }

    twostate lemma AfterLoad(id: PageId)
      requires old(Valid()) && LoadOf(id)
      ensures CacheValid() && ModificationsValid()
    {
      hide PageOk, Growing, ScopesOk, CountsOk;
      assert hist != [];
      assert old(Uncached(id));
      PageLoaded(frames, |old(frames)|, id, hist, work, Top());
      assert Cached(id);
      forall other | other in vpMap && other != id ensures Cached(other) {
        assert old(Cached(other));
        CachedKept(other);
      }
      ModificationsAfterLoad(id);
    }

    twostate lemma ModificationsAfterLoad(id: PageId)
      requires old(Valid()) && LoadOf(id)
      ensures ModificationsValid()
    {
      hide Cached;
      assert !Modified(id) && !old(Modified(id));
      forall other | other != id ensures Modified(other) <==> old(Modified(other)) {
        if other in old(vpMap) {
          LastFrame(other);
        }
      }
    }

    // The newest frame of a page that was in the buffer has kept its version.
    twostate lemma LastFrame(id: PageId)
      requires old(CacheValid()) && OnlyPinned() && id in old(vpMap)
      ensures id in old(chains) && Last(old(chains)[id]) < |old(frames)|
      ensures frames[Last(old(chains)[id])].version == old(frames)[Last(old(chains)[id])].version
    {
      hide ChainShows;
      assert old(Cached(id));
      var last := Last(old(chains)[id]);
      assert frames[last].WithPins(0) == old(frames)[last].WithPins(0);
    }

    // Pinning and unpinning frames changes nothing that matters.
    twostate lemma AfterPin()
      requires old(Valid()) && OnlyPinned() && |frames| == |old(frames)|
      requires hist == old(hist) && work == old(work) && files == old(files) && active == old(active)
      requires lastStableVersion == old(lastStableVersion) && currentModifications == old(currentModifications)
      requires vpMap == old(vpMap) && chains == old(chains)
      ensures CacheValid() && ModificationsValid()
    {
      hide PageOk, Growing, ScopesOk, CountsOk;
      forall id | id in vpMap ensures Cached(id) {
        assert old(Cached(id));
        CachedKept(id);
      }
      forall id ensures Modified(id) <==> old(Modified(id)) {
        if id in vpMap {
          LastFrame(id);
        }
      }
    }

    method Pin(f: nat)
      requires Valid() && f < |frames|
      modifies `frames
      ensures Valid() && frames == old(frames)[f := old(frames)[f].WithPins(old(frames)[f].pins + 1)]
    {
      hide CacheValid, ModificationsValid;
      frames := frames[f := frames[f].WithPins(frames[f].pins + 1)];
      AfterPin();
    }

    method Unpin(f: nat)
      requires Valid() && f < |frames| && frames[f].pins > 0
      modifies `frames
      ensures Valid() && frames == old(frames)[f := old(frames)[f].WithPins(old(frames)[f].pins - 1)]
    {
      hide CacheValid, ModificationsValid;
      frames := frames[f := frames[f].WithPins(frames[f].pins - 1)];
      AfterPin();
    }

    // One frame has got one pin more, or is new with one pin; the others have kept theirs.
    twostate predicate PinnedOnce(f: nat)
      reads `frames
    {
      && |old(frames)| <= |frames| && f < |frames|
      && frames[f].pins == 1 + (if f < |old(frames)| then old(frames)[f].pins else 0)
      && forall g :: 0 <= g < |old(frames)| && g != f ==> frames[g].pins == old(frames)[g].pins
    }

    // The page as the scope sees it: as of its start version for a reader, with its own changes for
    // the writer. The frame found carries a newer version than the scope exactly if the oldest frame of
    // the page does: it came from disk for a scope that started later. Its bytes are right all the same.
    method GetPageReadonly(scope: VersionScope, id: PageId) returns (f: nat)
      requires Valid() && scope in active && id in View(scope)
      modifies `frames, `vpMap, `chains
      ensures Valid() && SameViews() && OnlyPinned()
      ensures f < |frames| && frames[f].pageId == id
      ensures PinnedOnce(f)
      ensures frames[f].bytes == View(scope)[id]
      ensures id in vpMap && vpMap == if id in old(vpMap) then old(vpMap) else old(vpMap)[id := f]
      ensures id !in old(vpMap) ==> frames[f].version == scope.startVersion
      ensures vpMap[id] < |frames|
      ensures frames[f].version <= scope.ResultVersion() <==> frames[vpMap[id]].version <= scope.ResultVersion()
    {
      hide CacheValid, ModificationsValid, CountsOk, PageOk;
      ScopeSees(scope, id);
      if id !in vpMap {
        f := Load(id, scope.startVersion, 1);
        return;
      }
      f := Walk(frames, vpMap[id], chains[id], id, scope.ResultVersion());
      WalkSees(scope, id);
      Pin(f);
    }

    // What the scope is entitled to see of a page is what the buffer or the disk has for it.
    lemma ScopeSees(scope: VersionScope, id: PageId)
      requires Valid() && scope in active && id in View(scope)
      ensures scope.startVersion <= lastStableVersion && id in work
      ensures id in vpMap ==>
          Cached(id) && id in chains && ChainOk(frames, id, chains[id]) && chains[id][0] == vpMap[id]
      ensures id !in vpMap ==> View(scope)[id] == work[id]
    {
      hide ChainOk, ChainShows, CountsOk, ModificationsValid;
      if id !in vpMap {
        assert Uncached(id);
      } else {
        assert Cached(id);
      }
    }

    lemma WalkSees(scope: VersionScope, id: PageId)
      requires Valid() && scope in active && id in View(scope) && id in vpMap && Cached(id)
      ensures var f := Pick(frames, chains[id], scope.ResultVersion());
              && f < |frames| && frames[f].pageId == id && frames[f].bytes == View(scope)[id]
              && vpMap[id] < |frames|
              && (frames[f].version <= scope.ResultVersion() <==> frames[vpMap[id]].version <= scope.ResultVersion())
    {
      hide CountsOk, ModificationsValid, CacheValid;
      var v := scope.ResultVersion();
      PickIsLatest(frames, id, chains[id], v);
      if scope.isEditable {
        NewestIsLast(frames, id, chains[id], v);
      }
    }

    lemma NewestIsLast(frames: seq<VPage>, id: PageId, chain: seq<nat>, v: nat)
      requires ChainOk(frames, id, chain) && frames[chain[|chain| - 1]].version <= v
      ensures Pick(frames, chain, v) == chain[|chain| - 1]
    {
      forall i | 0 <= i < |chain| ensures frames[chain[i]].version <= v {
        assert i < |chain| - 1 ==> frames[chain[i]].version < frames[chain[|chain| - 1]].version;
      }
      PickLast(frames, chain, v);
    }

    // One frame joins the chain of a page, behind its newest version, and belongs to the writer.
    twostate predicate EditOf(id: PageId)
      reads this
    {
      && id in old(vpMap) && id in old(chains) && Writing()
      && hist == old(hist) && work == old(work) && files == old(files) && active == old(active)
      && lastStableVersion == old(lastStableVersion) && vpMap == old(vpMap)
      && currentModifications == old(currentModifications) + [id]
      && chains == old(chains)[id := old(chains)[id] + [|old(frames)|]]
      && NewVersion(old(frames), frames, Last(old(chains)[id]), id, lastStableVersion + 1)
      && frames[|old(frames)|].dirty
    }

    twostate lemma EditedCached(id: PageId)
      requires old(Valid()) && EditOf(id)
      ensures Cached(id)
    {
      hide ChainShows, Growing, ScopesOk, CountsOk;
      assert old(Cached(id));
      PageEdited(old(frames), frames, old(chains)[id], |old(frames)|, id, hist, work);
    }

    twostate lemma AfterEdit(id: PageId)
      requires old(Valid()) && EditOf(id)
      ensures CacheValid()
    {
      hide Cached, ScopesOk, CountsOk, PageOk;
      EditedCached(id);
      OthersCached(id);
      UncachedKept();
    }

    twostate lemma OthersCached(id: PageId)
      requires old(Valid()) && EditOf(id)
      ensures forall other :: other in vpMap && other != id ==> Cached(other)
    {
      hide ChainOk, ChainShows, ScopesValid, HistoryValid, ModificationsValid, NewVersion;
      assert old(Cached(id));
      forall other | other in vpMap && other != id ensures Cached(other) {
        assert old(Cached(other));
        OtherChain(old(frames), frames, old(chains)[id], chains[other], id, other, lastStableVersion + 1);
        PageAgree(old(frames), frames, chains[other], other, hist, work, Top());
      }
    }

    // Pages that are only on disk stay what they are.
    twostate lemma UncachedKept()
      requires old(CacheValid()) && hist == old(hist) && work == old(work) && files == old(files)
      requires vpMap.Keys >= old(vpMap).Keys
      ensures forall id :: id in work && id !in vpMap ==> Uncached(id)
    {
      forall id | id in work && id !in vpMap ensures Uncached(id) {
        assert old(Uncached(id));
      }
    }

    // The edited page, and no other, is new among the modifications.
    twostate lemma ModificationsAfterEdit(id: PageId)
      requires old(Valid()) && EditOf(id)
      ensures ModificationsValid()
    {
      hide ScopesValid, HistoryValid, ChainOk, ChainShows, NewVersion;
      assert old(Cached(id));
      assert Modified(id) && !old(Modified(id)) by {
        NewestIsNew(old(frames), frames, old(chains)[id], id, lastStableVersion + 1);
      }
      forall other | other != id ensures Modified(other) <==> old(Modified(other)) {
        if other in vpMap {
          assert old(Cached(other));
          OtherChain(old(frames), frames, old(chains)[id], chains[other], id, other, lastStableVersion + 1);
        }
      }
    }

    static lemma NewestIsNew(a: seq<VPage>, b: seq<VPage>, chain: seq<nat>, id: PageId, version: nat)
      requires NewVersion(a, b, Last(chain), id, version)
      ensures |a| < |b| && Last(chain) < |a| && a[Last(chain)].version < version == b[|a|].version
      ensures Last(chain + [|a|]) == |a|
    {}

    // Links a frame with the writer's version behind the newest frame of a page.
    method AddVersion(id: PageId, newest: nat) returns (f: nat)
      requires Valid() && Writing() && id in vpMap && id in chains && newest == Last(chains[id]) < |frames|
      requires frames[newest].version <= lastStableVersion
      modifies `frames, `chains, `currentModifications
      ensures Valid() && id in currentModifications && chains == old(chains)[id := old(chains)[id] + [f]]
      ensures f == |old(frames)|
      ensures frames == old(frames)[newest := old(frames)[newest].WithNext(f)]
                        + [VPage(id, lastStableVersion + 1, Some(newest), None, old(frames)[newest].bytes, 1, true)]
    {
      hide CacheValid, ModificationsValid, ScopesOk, CountsOk;
      NewestBytes(id);
      f := |frames|;
      var page := VPage(id, lastStableVersion + 1, Some(newest), None, frames[newest].bytes, 1, true);
      frames := frames[newest := frames[newest].WithNext(f)] + [page];
      chains := chains[id := chains[id] + [f]];
      currentModifications := currentModifications + [id];
      AfterEdit(id);
      ModificationsAfterEdit(id);
    }

    lemma NewestBytes(id: PageId)
      requires CacheValid() && id in vpMap
      ensures id in chains && chains[id] != [] && Last(chains[id]) < |frames|
          && frames[Last(chains[id])].bytes == work[id]
      ensures ChainOk(frames, id, chains[id]) && chains[id][0] == vpMap[id] && frames[Last(chains[id])].version <= Top()
    {
      assert Cached(id);
    }

    // The writer's own version of the page, made from the newest committed one if there is none yet.
    method GetPageEditable(scope: VersionScope, id: PageId) returns (f: nat)
      requires Valid() && scope in active && scope.isEditable && id in work
      modifies `frames, `vpMap, `chains, `currentModifications
      ensures Valid() && SameViews()
      ensures id in vpMap && id in chains && f == Last(chains[id]) && f < |frames| && frames[f].pageId == id
      ensures frames[f].version == scope.ResultVersion() && frames[f].bytes == work[id]
      ensures id in currentModifications
      ensures PinnedOnce(f)
      ensures forall g :: 0 <= g < |old(frames)| && g != f ==>
                frames[g].bytes == old(frames)[g].bytes && frames[g].version == old(frames)[g].version
    {
      hide CacheValid, ModificationsValid, ScopesOk, CountsOk, PageOk, Growing, TailsOk, ChainOk;
      WriterOpen(scope);
      f := NewestFrame(scope, id);
      NewestBytes(id);
      if frames[f].version != scope.ResultVersion() {
        f := AddVersion(id, f);
      } else {
        Pin(f);
      }
      NewestBytes(id);
      InModifications(id);
    }

    // The newest frame of a page, read from disk if the page is not in the buffer.
    method NewestFrame(scope: VersionScope, id: PageId) returns (f: nat)
      requires Valid() && scope in active && scope.isEditable && id in work
      modifies `frames, `vpMap, `chains
      ensures Valid() && OnlyPinned() && id in vpMap && id in chains && f == Last(chains[id])
      ensures if id in old(vpMap) then frames == old(frames)
              else frames == old(frames) + [VPage(id, scope.startVersion, None, None, work[id], 0, false)]
    {
      hide CacheValid, ModificationsValid, CountsOk, PageOk, Growing;
      WriterOpen(scope);
      if id !in vpMap {
        f := Load(id, scope.startVersion, 0);
      } else {
        NewestBytes(id);
        f := Walk(frames, vpMap[id], chains[id], id, scope.ResultVersion());
        NewestIsLast(frames, id, chains[id], scope.ResultVersion());
      }
    }

    lemma InModifications(id: PageId)
      requires ModificationsValid() && Writing() && Modified(id)
      ensures id in currentModifications
    {}

    // A new page of zeros at the end of a file; no committed version has it.
    method AppendVpage(scope: VersionScope, file: nat) returns (f: nat)
      requires Valid() && scope in active && scope.isEditable && file in files
      modifies `frames, `vpMap, `chains, `currentModifications, `files, `work
      ensures Valid() && hist == old(hist)
      ensures var id := PageId(file, old(|files[file]|));
              && id !in old(work) && work == old(work)[id := Zeros()]
              && files == old(files)[file := old(files)[file] + [Zeros()]]
              && f == |old(frames)|
              && frames == old(frames) + [VPage(id, scope.ResultVersion(), None, None, Zeros(), 1, true)]
              && id in currentModifications
      ensures var id := PageId(file, old(|files[file]|));
              && |frames[f].bytes| == |OnDisk(id)| == |work[id]| == pageSize
              && forall i :: 0 <= i < pageSize ==> frames[f].bytes[i] == OnDisk(id)[i] == work[id][i] == 0
    {
      hide CountsOk, CacheValid, ModificationsValid, TailsOk, Growing, ScopesOk;
      WriterOpen(scope);
      var id := PageId(file, |files[file]|);
      f := |frames|;
      files := files[file := files[file] + [Zeros()]];
      frames := frames + [VPage(id, scope.ResultVersion(), None, None, Zeros(), 1, true)];
      vpMap := vpMap[id := f];
      chains := chains[id := [f]];
      currentModifications := currentModifications + [id];
      work := work[id := Zeros()];
      AfterAppend(id);
      NotCached(id);
      TailsGrow(old(frames), frames, old(chains), id, [f]);
    }

    // A page beyond the end of its file is not in the buffer.
    twostate lemma NotCached(id: PageId)
      requires old(Valid()) && !old(Exists(id))
      ensures id !in old(chains)
    {
      CachedPagesExist();
    }

    twostate lemma CachedPagesExist()
      requires old(CacheValid())
      ensures forall id :: id in old(vpMap) ==> old(Exists(id))
    {
      forall id | id in old(vpMap) ensures old(Exists(id)) {
        assert old(Cached(id));
      }
    }

    lemma WriterOpen(scope: VersionScope)
      requires Valid() && scope in active && scope.isEditable
      ensures Writing() && scope.startVersion == lastStableVersion
    {}

    twostate predicate AppendOf(id: PageId)
      reads this
    {
      && !old(Exists(id)) && id.file in old(files) && Writing() && id.number == |old(files)[id.file]|
      && hist == old(hist) && active == old(active) && lastStableVersion == old(lastStableVersion)
      && files == old(files)[id.file := old(files)[id.file] + [Zeros()]]
      && frames == old(frames) + [VPage(id, lastStableVersion + 1, None, None, Zeros(), 1, true)]
      && vpMap == old(vpMap)[id := |old(frames)|] && chains == old(chains)[id := [|old(frames)|]]
      && currentModifications == old(currentModifications) + [id] && work == old(work)[id := Zeros()]
    }

    twostate lemma AfterAppend(id: PageId)
      requires old(Valid()) && AppendOf(id)
      ensures HistoryValid() && CacheValid() && ModificationsValid()
    {
      hide PageOk, ScopesOk, CountsOk, Cached;
      forall other ensures other in work <==> Exists(other) {
        assert other in old(work) <==> old(Exists(other));
      }
      AppendedCached(id);
      OthersAfterAppend(id);
      UncachedAfterAppend(id);
      ModificationsAfterAppend(id);
    }

    twostate lemma AppendedCached(id: PageId)
      requires old(Valid()) && AppendOf(id)
      ensures Cached(id)
    {
      hide PageOk, ScopesOk, CountsOk;
      assert id !in old(work);
      PageLoaded(frames, |old(frames)|, id, hist, work, Top());
    }

    twostate lemma OthersAfterAppend(id: PageId)
      requires old(Valid()) && AppendOf(id)
      ensures forall other :: other in vpMap && other != id ==> Cached(other)
    {
      hide ScopesOk, CountsOk, PageOk, ChainOk, Agree, ModificationsValid, TailsOk, Growing;
      forall other | other in vpMap && other != id ensures Cached(other) {
        assert old(Cached(other));
        PageFacts(old(frames), chains[other], other, hist, old(work), Top());
        AgreeOnPrefix(old(frames), frames, chains[other], other);
        PageUnaffected(old(frames), frames, chains[other], other, hist, old(work), work, Top());
      }
    }

    static lemma AgreeOnPrefix(a: seq<VPage>, b: seq<VPage>, chain: seq<nat>, id: PageId)
      requires ChainOk(a, id, chain) && a <= b
      ensures Agree(a, b, chain) && chain != [] && Last(chain) < |a| && b[Last(chain)] == a[Last(chain)]
    {}

    twostate lemma UncachedAfterAppend(id: PageId)
      requires old(Valid()) && AppendOf(id)
      ensures forall other :: other in work && other !in vpMap ==> Uncached(other)
    {
      hide PageOk, ScopesOk, CountsOk;
      forall other | other in work && other !in vpMap ensures Uncached(other) {
        assert old(Uncached(other));
      }
    }

    twostate lemma ModificationsAfterAppend(id: PageId)
      requires old(Valid()) && AppendOf(id)
      ensures ModificationsValid()
    {
      hide ScopesOk, CountsOk, ChainOk, ChainShows, TailsOk, Growing, Uncached;
      assert Modified(id);
      NotCached(id);
      assert !old(Modified(id));
      forall other | other != id ensures Modified(other) <==> old(Modified(other)) {
        if other in old(vpMap) {
          assert old(Cached(other));
          LastOfPage(old(frames), old(chains)[other], other);
        }
      }
    }

    // The writer changes a frame that has its version.
    method WriteBytes(scope: VersionScope, id: PageId, f: nat, content: PageBytes)
      requires Valid() && scope in active && scope.isEditable && |content| == pageSize
      requires id in vpMap && id in chains && f == Last(chains[id]) && f < |frames|
      requires frames[f].version == scope.ResultVersion()
      modifies `frames, `work
      ensures Valid() && hist == old(hist) && work == old(work)[id := content]
      ensures frames == old(frames)[f := old(frames)[f].Written(content)]
    {
      hide CountsOk, CacheValid, ModificationsValid, Growing;
      assert Writing();
      frames := frames[f := frames[f].Written(content)];
      work := work[id := content];
      AfterWrite(id);
    }

    twostate predicate WriteOf(id: PageId)
      reads this
    {
      && hist == old(hist) && active == old(active) && lastStableVersion == old(lastStableVersion)
      && files == old(files) && vpMap == old(vpMap) && chains == old(chains)
      && currentModifications == old(currentModifications) && Writing()
      && id in vpMap && id in chains && id in work && work == old(work)[id := work[id]]
      && var f := Last(chains[id]);
         && f < |old(frames)| && old(frames)[f].version == lastStableVersion + 1
         && frames == old(frames)[f := old(frames)[f].Written(work[id])]
    }

    twostate lemma AfterWrite(id: PageId)
      requires old(Valid()) && WriteOf(id)
      ensures HistoryValid() && CacheValid() && ModificationsValid()
    {
      hide PageOk, ScopesOk, CountsOk, Cached;
      assert old(Cached(id));
      WrittenCached(id);
      OthersAfterWrite(id);
      UncachedAfterWrite(id);
      HistoryAfterWrite(id);
      forall other ensures Modified(other) <==> old(Modified(other)) {}
    }

    twostate lemma HistoryAfterWrite(id: PageId)
      requires old(Valid()) && WriteOf(id)
      ensures HistoryValid()
    {
      hide PageOk, ScopesOk, CountsOk;
      assert old(Cached(id));
      forall other ensures other in work <==> Exists(other) {
        assert other in old(work) <==> old(Exists(other));
      }
    }

    twostate lemma WrittenCached(id: PageId)
      requires old(Valid()) && WriteOf(id)
      ensures Cached(id)
    {
      hide ScopesOk, CountsOk, ChainOk, ChainShows, ModificationsValid, TailsOk, Uncached;
      assert old(Cached(id));
      LastOfPage(old(frames), chains[id], id);
      PageWritten(old(frames), frames, chains[id], id, hist, old(work), work[id]);
    }

    twostate lemma OthersAfterWrite(id: PageId)
      requires old(Valid()) && WriteOf(id)
      ensures forall other :: other in vpMap && other != id ==> Cached(other)
    {
      hide ScopesOk, CountsOk, ChainOk, ChainShows, ModificationsValid, TailsOk, Growing, Agree, Uncached;
      assert old(Cached(id));
      LastOfPage(old(frames), chains[id], id);
      forall other | other in vpMap && other != id ensures Cached(other) {
        assert old(Cached(other));
        AgreeElsewhere(old(frames), frames, chains[other], other, Last(chains[id]));
        PageUnaffected(old(frames), frames, chains[other], other, hist, old(work), work, Top());
      }
    }

    static lemma LastOfPage(frames: seq<VPage>, chain: seq<nat>, id: PageId)
      requires ChainOk(frames, id, chain)
      ensures chain != [] && Last(chain) < |frames| && frames[Last(chain)].pageId == id
    {}

    // A change to a frame of another page.
    static lemma AgreeElsewhere(a: seq<VPage>, b: seq<VPage>, chain: seq<nat>, id: PageId, f: nat)
      requires ChainOk(a, id, chain) && |a| == |b| && f < |a| && a[f].pageId != id
      requires forall g :: 0 <= g < |a| && g != f ==> a[g] == b[g]
      ensures Agree(a, b, chain) && chain != [] && Last(chain) < |a| && b[Last(chain)] == a[Last(chain)]
    {}

    twostate lemma UncachedAfterWrite(id: PageId)
      requires old(Valid()) && WriteOf(id)
      ensures forall other :: other in work && other !in vpMap ==> Uncached(other)
    {
      hide PageOk, ScopesOk, CountsOk;
      forall other | other in work && other !in vpMap ensures Uncached(other) {
        assert old(Cached(id)) && old(Uncached(other));
      }
    }

    /* ----- writing back ----- */

    // Writes the newest version of a page back, if it has changed since it was read.
    method FlushFrame(f: nat)
      requires Valid() && !Writing() && f < |frames|
      modifies `frames, `files
      ensures Valid()
      ensures files.Keys == old(files).Keys && forall file :: file in files ==> |files[file]| == |old(files)[file]|
      ensures frames == if old(frames)[f].next == None
                        then old(frames)[f := old(frames)[f].(dirty := false)]
                        else old(frames)
    {
      hide CountsOk, CacheValid, ModificationsValid, Growing, ScopesOk;
      if frames[f].dirty && frames[f].next == None {
        TailFacts(f);
        var id := frames[f].pageId;
        files := files[id.file := files[id.file][id.number := frames[f].bytes]];
        frames := frames[f := frames[f].(dirty := false)];
        AfterFlush(f);
      }
    }

    lemma TailFacts(f: nat)
      requires Valid() && f < |frames| && frames[f].next == None
      ensures var id := frames[f].pageId;
              id in chains && Last(chains[id]) == f && id in work && Cached(id) && Exists(id)
                  && frames[f].bytes == work[id]
    {
      hide CountsOk, ScopesOk, Growing;
      assert Cached(frames[f].pageId);
    }

    twostate predicate FlushOf(f: nat)
      reads this
    {
      && hist == old(hist) && work == old(work) && active == old(active) && lastStableVersion == old(lastStableVersion)
      && vpMap == old(vpMap) && chains == old(chains) && currentModifications == old(currentModifications)
      && f < |old(frames)| && old(frames)[f].next == None
      && frames == old(frames)[f := old(frames)[f].(dirty := false)]
      && var id := frames[f].pageId;
         && old(Exists(id)) && id in chains && Last(chains[id]) == f && id in work && frames[f].bytes == work[id]
         && files == old(files)[id.file := old(files)[id.file][id.number := work[id]]]
    }

    twostate lemma AfterFlush(f: nat)
      requires old(Valid()) && FlushOf(f)
      ensures HistoryValid() && CacheValid() && ModificationsValid()
    {
      hide PageOk, ScopesOk, CountsOk, Growing, Cached, Uncached, TailsOk;
      forall id ensures Exists(id) <==> old(Exists(id)) {}
      forall id ensures id in work <==> Exists(id) {
        assert id in old(work) <==> old(Exists(id));
      }
      CachedAfterFlush(f);
      UncachedAfterFlush(f);
      forall id ensures Modified(id) <==> old(Modified(id)) {}
    }

    twostate lemma CachedAfterFlush(f: nat)
      requires old(Valid()) && FlushOf(f)
      ensures forall id :: id in vpMap ==> Cached(id)
    {
      hide ScopesOk, CountsOk, PageOk, ModificationsValid, TailsOk, Growing, ChainOk, Agree;
      forall id | id in vpMap ensures Cached(id) {
        assert old(Cached(id));
        PageFacts(old(frames), chains[id], id, hist, work, Top());
        SameEssence(old(frames), frames, chains[id], id);
        PageAgree(old(frames), frames, chains[id], id, hist, work, Top());
        assert id != frames[f].pageId ==> Last(chains[id]) != f;
      }
    }

    static lemma PageFacts(frames: seq<VPage>, chain: seq<nat>, id: PageId, hist: seq<Snapshot>, work: Snapshot,
        top: nat)
      requires PageOk(frames, chain, id, hist, work, top)
      ensures ChainOk(frames, id, chain)
    {}

    static lemma SameEssence(a: seq<VPage>, b: seq<VPage>, chain: seq<nat>, id: PageId)
      requires ChainOk(a, id, chain) && |a| == |b|
      requires forall f :: 0 <= f < |a| ==> a[f].Essence() == b[f].Essence()
      ensures Agree(a, b, chain) && chain != [] && Last(chain) < |a| && a[Last(chain)].pageId == id
    {}

    twostate lemma UncachedAfterFlush(f: nat)
      requires old(Valid()) && FlushOf(f)
      ensures forall id :: id in work && id !in vpMap ==> Uncached(id)
    {
      hide PageOk, ScopesOk, CountsOk, TailsOk;
      forall id | id in work && id !in vpMap ensures Uncached(id) {
        assert old(Uncached(id));
      }
    }

    // At the end all frames are written back: the current database is on disk, whatever versions have been made.
    method Flush()
      requires Valid() && !Writing() && forall f :: 0 <= f < |frames| ==> frames[f].pins == 0
      modifies `frames, `files
      ensures Valid()
      ensures forall id :: id in work <==> Exists(id)
      ensures forall id :: id in work ==> OnDisk(id) == work[id]
    {
      hide CountsOk, CacheValid, ModificationsValid, Growing, ScopesOk, TailsOk;
      var f := 0;
      while f < |frames|
        invariant Valid() && f <= |frames|
        invariant forall g :: 0 <= g < f && frames[g].next == None ==> !frames[g].dirty
      {
        FlushFrame(f);
        f := f + 1;
      }
      CleanIsCurrent();
    }

    lemma CleanIsCurrent()
      requires Valid() && forall f :: 0 <= f < |frames| && frames[f].next == None ==> !frames[f].dirty
      ensures forall id :: id in work ==> Exists(id) && OnDisk(id) == work[id]
    {
      hide CountsOk, ScopesOk, Growing, ModificationsValid, ChainShows;
      forall id | id in work ensures Exists(id) && OnDisk(id) == work[id] {
        if id in vpMap {
          assert Cached(id);
        } else {
          assert Uncached(id);
        }
      }
    }

    // Ending a scope; ending the writer's commits its version.
    method Terminate(scope: VersionScope)
      requires Valid() && scope in active
      modifies `active, `runningVersionCount, `lastStableVersion, `currentModifications, `hist
      ensures Valid() && active == old(active) - multiset{scope} && work == old(work)
      ensures !scope.isEditable ==> hist == old(hist) && lastStableVersion == old(lastStableVersion)
      ensures scope.isEditable ==> hist == old(hist) + [work] && !Writing()
      ensures scope.isEditable ==> lastStableVersion == old(lastStableVersion) + 1
    {
      hide CountsOk, PageOk, Growing, Decrement;
      ScopeClosed(active, runningVersionCount, scope);
      runningVersionCount := Decrement(runningVersionCount, scope.startVersion);
      if scope.isEditable {
        runningVersionCount := Decrement(runningVersionCount, scope.startVersion + 1);
        lastStableVersion := lastStableVersion + 1;
        currentModifications := [];
        hist := hist + [work];
      }
      active := active - multiset{scope};
      if scope.isEditable {
        AfterCommit(scope);
      } else {
        AfterClose(scope);
      }
    }

    // A reader leaves no trace.
    twostate lemma AfterClose(scope: VersionScope)
      requires old(Valid()) && scope in old(active) && !scope.isEditable && active == old(active) - multiset{scope}
      requires frames == old(frames) && vpMap == old(vpMap) && chains == old(chains) && files == old(files)
      requires hist == old(hist) && work == old(work) && lastStableVersion == old(lastStableVersion)
      requires currentModifications == old(currentModifications)
      ensures ScopesOk(active, lastStableVersion) && HistoryValid() && CacheValid() && ModificationsValid()
    {
      hide CountsOk, PageOk, Growing;
      assert Writing() <==> old(Writing());
      forall id | id in vpMap ensures Cached(id) {
        assert old(Cached(id));
      }
      UncachedKept();
    }

    twostate lemma AfterCommit(scope: VersionScope)
      requires old(Valid()) && scope in old(active) && scope.isEditable && active == old(active) - multiset{scope}
      requires frames == old(frames) && vpMap == old(vpMap) && chains == old(chains) && files == old(files)
      requires hist == old(hist) + [work] && work == old(work) && lastStableVersion == old(lastStableVersion) + 1
      requires currentModifications == []
      ensures ScopesOk(active, lastStableVersion) && HistoryValid() && CacheValid() && ModificationsValid()
      ensures !Writing()
    {
      hide CountsOk, PageOk;
      assert old(Writing());
      forall id | id in vpMap ensures Cached(id) {
        assert old(Cached(id));
        PageCommitted(frames, chains[id], id, old(hist), work);
      }
      forall id | id in work && id !in vpMap ensures Uncached(id) {
        assert old(Uncached(id));
      }
    }
  }
  // A committed database survives being closed and reopened again.
  method Reopen(closed: VersionedPages) returns (reopened: VersionedPages)
    requires closed.Valid() && !closed.Writing()
    requires forall f :: 0 <= f < |closed.frames| ==> closed.frames[f].pins == 0
    modifies closed`frames, closed`files
    ensures reopened.Valid() && fresh(reopened)
    ensures reopened.hist == [closed.hist[|closed.hist| - 1]] && reopened.work == closed.work
  {
    closed.Flush();
    reopened := new VersionedPages(closed.pageSize, closed.files);
    OpensAsClosed(closed, reopened);
  }

  lemma OpensAsClosed(closed: VersionedPages, reopened: VersionedPages)
    requires closed.Valid() && reopened.Valid() && closed.files == reopened.files
    requires !closed.Writing() && !reopened.Writing() && reopened.lastStableVersion == 0
    requires forall id :: id in closed.work ==> closed.Exists(id) && closed.OnDisk(id) == closed.work[id]
    requires forall id :: reopened.Exists(id) ==> id in reopened.work && reopened.work[id] == reopened.OnDisk(id)
    ensures reopened.work == closed.work && reopened.hist == [closed.hist[|closed.hist| - 1]]
  {
    forall id ensures id in reopened.work <==> id in closed.work {
      assert reopened.Exists(id) <==> closed.Exists(id);
    }
  }
}

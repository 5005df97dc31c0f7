// The buffer of private pages: each worker caches the pages of its temporary files in its own
// stretch of a shared pool of frames, replaced by a clock with second chances.
module PrivatePages {
  import opened Bytes

  type PageBytes = seq<byte>

  const UNASSIGNED: nat := 0xFFFF_FFFF

  datatype TmpPageId = TmpPageId(id: nat, pageNumber: nat)

  datatype Frame = Frame(pageId: TmpPageId, bytes: PageBytes, pins: nat, secondChance: bool, dirty: bool) {
    predicate Assigned() { pageId.id != UNASSIGNED }

    // PPage::reassign and PPage::reset
    function Reassign(id: TmpPageId): (r: Frame)
      requires !dirty && pins == 0 && !secondChance
    {
      this.(pageId := id, pins := 1, secondChance := true)
    }

    function Reset(): (r: Frame)
      requires pins == 0
      ensures r == Frame(TmpPageId(0xFFFF_FFFF, 0), bytes, 0, false, false)
    {
      this.(pageId := TmpPageId(UNASSIGNED, 0), secondChance := false, dirty := false)
    }
  }

  // A temporary file: `disk` has its realSize pages, and is there only if the file has been opened.
  datatype TmpFileInfo = TmpFileInfo(logicalSize: nat, realSize: nat, open: bool, disk: seq<PageBytes>)

  // ftruncate up to the page if needed, then pwrite.
  function WritePage(info: TmpFileInfo, page: nat, bytes: PageBytes, zeros: PageBytes): (r: TmpFileInfo)
    requires |info.disk| == info.realSize
    ensures |r.disk| == r.realSize && r.open == info.open && r.logicalSize == info.logicalSize
    ensures r.realSize == (if page < info.realSize then info.realSize else page + 1) && r.disk[page] == bytes
    ensures forall q: nat :: q != page && q < r.realSize ==>
        r.disk[q] == if q < info.realSize then info.disk[q] else zeros
  {
    var longer := if info.realSize <= page
      then info.(disk := info.disk + seq(page + 1 - info.realSize, _ => zeros), realSize := page + 1)
      else info;
    longer.(disk := longer.disk[page := bytes])
  }

  const NEW_FILE := TmpFileInfo(0, 0, false, [])

  // How many of the frames are unpinned with a second chance left.
  ghost function Chances(frames: seq<Frame>): (r: nat) {
    if frames == [] then 0
    else Chances(frames[1..]) + if frames[0].pins == 0 && frames[0].secondChance then 1 else 0
  }

  lemma {:induction false} ChanceTaken(frames: seq<Frame>, i: nat)
    requires i < |frames| && frames[i].pins == 0 && frames[i].secondChance
    ensures Chances(frames[i := frames[i].(secondChance := false)]) == Chances(frames) - 1
  {
    if i == 0 {
      assert frames[0 := frames[0].(secondChance := false)][1..] == frames[1..];
    } else {
      ChanceTaken(frames[1..], i - 1);
      assert frames[i := frames[i].(secondChance := false)][1..]
          == frames[1..][i - 1 := frames[i].(secondChance := false)];
    }
  }

  // Whether the hand, moving on from frame `from`, passes frame i before it comes to frame `to`.
  predicate Passes(from: nat, i: nat, to: nat) {
    if from < to then from < i < to else from < i || i < to
  }

  predicate FreeAtOnce(frame: Frame) { frame.pins == 0 && !frame.secondChance }

  // Where the hand stops: at the first frame that is unpinned and has no second chance, or, if every
  // unpinned frame has one, at the first unpinned frame after a full round.
  ghost predicate StopsAt(frames: seq<Frame>, from: nat, to: nat) {
    && to < |frames|
    && if exists i :: 0 <= i < |frames| && FreeAtOnce(frames[i])
       then FreeAtOnce(frames[to])
            && forall i: nat :: i < |frames| && Passes(from, i, to) ==> !FreeAtOnce(frames[i])
       else frames[to].pins == 0 && forall i: nat :: i < |frames| && Passes(from, i, to) ==> frames[i].pins > 0
  }

  // The unpinned frames that it has passed have lost their second chance: all of them after a full round.
  ghost predicate ChancesLost(frames: seq<Frame>, after: seq<Frame>, from: nat, to: nat) {
    && |after| == |frames|
    && forall i: nat :: i < |frames| ==>
         if frames[i].pins == 0
            && (Passes(from, i, to) || forall j :: 0 <= j < |frames| ==> !FreeAtOnce(frames[j]))
         then after[i] == frames[i].(secondChance := false)
         else after[i] == frames[i]
  }

  predicate Visited(from: nat, i: nat, to: nat) { from != to && (Passes(from, i, to) || i == to) }

  // The search is in its first round, or in another one that it has begun with no frame free at once.
  ghost predicate Progress(before: seq<Frame>, now: seq<Frame>, from: nat, at: nat, again: bool) {
    && |now| == |before|
    && forall i: nat :: i < |before| ==>
         && (before[i].pins > 0 ==> now[i] == before[i])
         && (before[i].pins == 0 && (again || Visited(from, i, at)) ==>
               before[i].secondChance && now[i] == before[i].(secondChance := false))
         && (!again && !Visited(from, i, at) ==> now[i] == before[i])
         && (again && Visited(from, i, at) ==> before[i].pins > 0)
  }

  lemma Starting(frames: seq<Frame>, from: nat)
    ensures Progress(frames, frames, from, from, false)
  {}

  predicate NextOf(at: nat, n: nat, next: nat) { next == if at + 1 < n then at + 1 else 0 }

  lemma Proceeded(before: seq<Frame>, now: seq<Frame>, next: seq<Frame>, from: nat, at: nat, to: nat, again: bool)
    requires Progress(before, now, from, at, again) && from < |before| && at < |before| && NextOf(at, |before|, to)
    requires if now[to].pins > 0 then next == now
             else now[to].secondChance && next == now[to := now[to].(secondChance := false)]
    ensures Progress(before, next, from, to, again || to == from)
  {}

  lemma Stopped(before: seq<Frame>, now: seq<Frame>, from: nat, at: nat, to: nat, again: bool)
    requires Progress(before, now, from, at, again) && from < |before| && at < |before| && NextOf(at, |before|, to)
    requires FreeAtOnce(now[to])
    ensures StopsAt(before, from, to) && ChancesLost(before, now, from, to)
  {}

  // The pages of one worker. The pool is shared: this worker's frames are base to base + poolSize.
  class Worker {
    const pool: array<Frame>
    const base: nat
    const poolSize: nat
    const pageSize: nat

    var clock: nat
    var pageMap: map<TmpPageId, nat>
    var tmpInfo: seq<TmpFileInfo>
    ghost var removed: set<nat>

    function Zeros(): (r: PageBytes)
      ensures |r| == pageSize && forall i :: 0 <= i < pageSize ==> r[i] == 0
    {
      seq(pageSize, _ => 0)
    }

    predicate Mine(f: nat) { base <= f < base + poolSize }

    ghost predicate Live(id: nat)
      reads this
    {
      id < |tmpInfo| && id !in removed
    }

    ghost predicate Shape()
      reads `clock
    {
      0 < poolSize && base + poolSize <= pool.Length && clock < poolSize
    }

    // Files on disk: the temporary file exists as soon as it has pages.
    ghost predicate FilesValid()
      reads this
    {
      && |tmpInfo| <= UNASSIGNED
      && forall id: nat :: Live(id) ==>
           && |tmpInfo[id].disk| == tmpInfo[id].realSize
           && (!tmpInfo[id].open ==> tmpInfo[id].realSize == 0)
           && forall p :: 0 <= p < tmpInfo[id].realSize ==> |tmpInfo[id].disk[p]| == pageSize
    }

    ghost function OnDisk(key: TmpPageId): (r: PageBytes)
      reads this
    {
      if key.id < |tmpInfo| && key.pageNumber < |tmpInfo[key.id].disk| then tmpInfo[key.id].disk[key.pageNumber]
      else Zeros()
    }

    // A frame that is in use is in the map; it agrees with the disk unless it is dirty.
    ghost predicate FrameValid(f: nat)
      requires f < pool.Length
      reads this, pool
    {
      && |pool[f].bytes| == pageSize
      && (pool[f].Assigned() ==> pool[f].pageId in pageMap && pageMap[pool[f].pageId] == f)
      && (pool[f].Assigned() && !pool[f].dirty ==> pool[f].bytes == OnDisk(pool[f].pageId))
      && (!pool[f].Assigned() ==> !pool[f].dirty && pool[f].pins == 0)
    }

    // The map leads to the worker's own frames, each page to the frame that holds it.
    ghost predicate MapValid()
      requires Shape()
      reads this, pool
    {
      forall key :: key in pageMap ==> Live(key.id) && Mine(pageMap[key]) && pool[pageMap[key]].pageId == key
    }

    ghost predicate Valid()
      reads this, pool
    {
      && Shape() && FilesValid() && MapValid()
      && forall f :: Mine(f) ==> FrameValid(f)
    }

    // What a page of a temporary file contains, wherever it is.
    ghost function Content(key: TmpPageId): (r: PageBytes)
      reads this, pool
    {
      if key in pageMap && pageMap[key] < pool.Length then pool[pageMap[key]].bytes else OnDisk(key)
    }

    // No page of a file that is still there has changed its content.
    twostate predicate ContentsKept()
      reads this, pool
    {
      forall key: TmpPageId :: Live(key.id) ==> Content(key) == old(Content(key))
    }

    // The only change outside this worker's frames is none.
    twostate predicate OthersSame()
      reads pool
    {
      forall f :: 0 <= f < pool.Length && !Mine(f) ==> pool[f] == old(pool[f])
    }

    // Nothing a client can see has changed but second chances.
    twostate predicate OnlyChances()
      reads pool
    {
      forall f :: 0 <= f < pool.Length ==> pool[f] == old(pool[f]).(secondChance := pool[f].secondChance)
    }

    constructor (pool: array<Frame>, base: nat, poolSize: nat, pageSize: nat)
      requires 0 < poolSize && base + poolSize <= pool.Length
      requires forall f :: base <= f < base + poolSize ==>
                 pool[f] == Frame(TmpPageId(UNASSIGNED, 0), pool[f].bytes, 0, false, false)
                     && |pool[f].bytes| == pageSize
      ensures Valid() && tmpInfo == [] && removed == {} && pageMap == map[]
      ensures this.pool == pool && this.base == base && this.poolSize == poolSize && this.pageSize == pageSize
    {
      this.pool, this.base, this.poolSize, this.pageSize := pool, base, poolSize, pageSize;
      clock, pageMap, tmpInfo, removed := 0, map[], [], {};
    }

    // Steps until the clock hand reaches u again.
    function Distance(u: nat): (d: int)
      reads `clock
    {
      if clock < u then u - clock else u - clock + poolSize
    }

    ghost function Frames(): (r: seq<Frame>)
      requires base + poolSize <= pool.Length
      reads pool
    {
      pool[base..base + poolSize]
    }

    // Advances the clock to an unpinned frame without a second chance. Other unpinned frames on the
    // way lose theirs, so the search ends within two rounds if the worker has an unpinned frame.
    method PageAvailable(ghost unpinned: nat) returns (f: nat)
      requires Shape() && unpinned < poolSize && pool[base + unpinned].pins == 0
      modifies `clock, pool
      ensures Shape() && f == base + clock && pool[f].pins == 0 && !pool[f].secondChance
      ensures StopsAt(old(Frames()), old(clock), clock)
      ensures ChancesLost(old(Frames()), Frames(), old(clock), clock)
      ensures OnlyChances() && OthersSame()
    {
      hide StopsAt, ChancesLost, Progress, Chances;
      Starting(Frames(), clock);
      ghost var before, again := Frames(), false;
      while true
        invariant Shape() && OthersSame()
        invariant pool[base + unpinned].pins == 0
        invariant Progress(before, Frames(), old(clock), clock, again)
        decreases Chances(Frames()), Distance(unpinned)
      {
        ghost var frames, from := Frames(), clock;
        clock := clock + 1;
        clock := if clock < poolSize then clock else 0;
        f := base + clock;
        assert frames[clock] == pool[f];
        if pool[f].pins == 0 {
          if !pool[f].secondChance {
            Stopped(before, frames, old(clock), from, clock, again);
            ChancesOnly();
            return;
          } else {
            TakeChance();
          }
        }
        Proceeded(before, frames, Frames(), old(clock), from, clock, again);
        again := again || clock == old(clock);
      }
    }

    // The frame at the hand loses its second chance.
    method TakeChance()
      requires Shape() && pool[base + clock].pins == 0 && pool[base + clock].secondChance
      modifies pool
      ensures OthersSame() && forall f :: 0 <= f < pool.Length ==> pool[f].pins == old(pool[f].pins)
      ensures Frames() == old(Frames())[clock := old(Frames())[clock].(secondChance := false)]
      ensures Chances(Frames()) == Chances(old(Frames())) - 1
    {
      ghost var frames := Frames();
      ChanceTaken(frames, clock);
      pool[base + clock] := pool[base + clock].(secondChance := false);
      assert Frames() == frames[clock := frames[clock].(secondChance := false)];
    }

    twostate lemma ChancesOnly()
      requires old(Shape()) && Shape() && OthersSame()
      requires ChancesLost(old(Frames()), Frames(), old(clock), clock)
      ensures OnlyChances()
    {
      forall f | 0 <= f < pool.Length ensures pool[f] == old(pool[f]).(secondChance := pool[f].secondChance) {
        if Mine(f) {
          assert Frames()[f - base] == pool[f] && old(Frames())[f - base] == old(pool[f]);
        }
      }
    }

    // Everything but frame f, which holds a page that is no longer in the map.
    ghost predicate ValidBut(f: nat)
      reads this, pool
    {
      && Shape() && FilesValid() && MapValid() && Mine(f)
      && (forall key :: key in pageMap ==> pageMap[key] != f)
      && forall g :: Mine(g) && g != f ==> FrameValid(g)
    }

    // Writes a dirty page to its file. The file is opened if it was not, dirty page or not.
    method Flush(f: nat)
      requires Valid() && Mine(f) && pool[f].Assigned()
      modifies `tmpInfo, pool
      ensures Valid() && pool[f] == old(pool[f]).(dirty := false)
      ensures forall g :: 0 <= g < pool.Length && g != f ==> pool[g] == old(pool[g])
      ensures var key, info := pool[f].pageId, old(tmpInfo[pool[f].pageId.id]).(open := true);
              tmpInfo == old(tmpInfo)[key.id := if !old(pool[f].dirty) then info
                  else WritePage(info, key.pageNumber, pool[f].bytes, Zeros())]
      ensures forall key: TmpPageId :: Live(key.id) ==> Content(key) == old(Content(key))
    {
      hide WritePage;
      assert FrameValid(f);
      var key := pool[f].pageId;
      var info := tmpInfo[key.id].(open := true);
      if pool[f].dirty {
        info := WritePage(info, key.pageNumber, pool[f].bytes, Zeros());
        pool[f] := pool[f].(dirty := false);
      }
      tmpInfo := tmpInfo[key.id := info];
      forall g: nat | Mine(g) ensures FrameValid(g) {
        assert old(FrameValid(g));
      }
    }

    // Takes a clean page, or no page, out of a frame.
    method Forget(f: nat)
      requires Valid() && Mine(f) && !pool[f].dirty
      modifies `pageMap
      ensures ValidBut(f) && pageMap == old(pageMap - {pool[f].pageId})
      ensures forall key: TmpPageId :: Live(key.id) ==> Content(key) == old(Content(key))
    {
      assert FrameValid(f);
      pageMap := pageMap - {pool[f].pageId};
      forall g: nat | Mine(g) && g != f ensures FrameValid(g) {
        assert old(FrameValid(g));
      }
    }

    // Makes an available frame free; the source erases its page from the map before it writes it.
    method Evict(f: nat)
      requires Valid() && Mine(f) && pool[f].pins == 0 && !pool[f].secondChance
      modifies `pageMap, `tmpInfo, pool
      ensures ValidBut(f) && pool[f] == old(pool[f]).(dirty := false)
      ensures forall g :: 0 <= g < pool.Length && g != f ==> pool[g] == old(pool[g])
      ensures |tmpInfo| == old(|tmpInfo|) && pageMap == old(pageMap - {pool[f].pageId})
      ensures forall key: TmpPageId :: Live(key.id) ==> Content(key) == old(Content(key))
    {
      assert FrameValid(f);
      hide FilesValid, MapValid, FrameValid, Content, ValidBut;
      if pool[f].Assigned() {
        Flush(f);
      }
      Forget(f);
    }

    // Puts a page in a free frame, reading it from its file if it is there.
    method Install(f: nat, key: TmpPageId)
      requires ValidBut(f) && pool[f].pins == 0 && !pool[f].secondChance && !pool[f].dirty
      requires Live(key.id) && key !in pageMap
      modifies `pageMap, `tmpInfo, pool
      ensures Valid() && |tmpInfo| == old(|tmpInfo|)
      ensures pool[f] == Frame(key, Content(key), 1, true, false)
      ensures tmpInfo == if key.pageNumber < old(tmpInfo)[key.id].realSize then old(tmpInfo)
          else old(tmpInfo)[key.id := old(tmpInfo)[key.id].(logicalSize := key.pageNumber + 1)]
      ensures pageMap == old(pageMap)[key := f]
      ensures forall g :: 0 <= g < pool.Length && g != f ==> pool[g] == old(pool[g])
      ensures forall other: TmpPageId :: Live(other.id) ==> Content(other) == old(Content(other))
    {
      pool[f] := pool[f].Reassign(key);
      var info := tmpInfo[key.id];
      if key.pageNumber < info.realSize {
        pool[f] := pool[f].(bytes := info.disk[key.pageNumber]);
      } else {
        pool[f] := pool[f].(bytes := Zeros());
        tmpInfo := tmpInfo[key.id := info.(logicalSize := key.pageNumber + 1)];
      }
      pageMap := pageMap[key := f];
      forall g: nat | Mine(g) ensures FrameValid(g) {
        if g != f {
          assert old(FrameValid(g));
        }
      }
    }

    // The only thing that a call leaves changed in frames that are in use is their pins.
    twostate predicate PinnedKept()
      reads pool
    {
      forall g :: 0 <= g < pool.Length && old(pool[g].pins) > 0 ==>
        pool[g].pageId == old(pool[g].pageId) && pool[g].bytes == old(pool[g].bytes)
            && pool[g].pins >= old(pool[g].pins)
    }

    // The page is in the frame at which the clock stopped, instead of the one that was there.
    twostate predicate Fetched(key: TmpPageId)
      reads this, pool
    {
      && old(Shape()) && Shape()
      && Frames()[clock] == Frame(key, Content(key), 1, true, false)
      && pageMap == (old(pageMap) - {old(Frames())[clock].pageId})[key := base + clock]
      && StopsAt(old(Frames()), old(clock), clock)
      && ChancesLost(old(Frames()), Frames()[clock := old(Frames())[clock].(secondChance := false)], old(clock), clock)
    }

    // The frame of a page, pinned once more. The worker must have a frame to spare.
    method GetPage(key: TmpPageId, ghost unpinned: nat) returns (f: nat)
      requires Valid() && Live(key.id)
      requires key !in pageMap ==> unpinned < poolSize && pool[base + unpinned].pins == 0
      modifies `clock, `pageMap, `tmpInfo, pool
      ensures Valid() && Mine(f) && |tmpInfo| == old(|tmpInfo|)
      ensures key in pageMap && pageMap[key] == f && pool[f].pageId == key
      ensures pool[f].pins == old(pool[f].pins) + 1
      ensures pool[f].bytes == Content(key)
      ensures ContentsKept()
      ensures OthersSame() && PinnedKept()
      ensures forall g :: 0 <= g < pool.Length && g != f ==> pool[g].pins == old(pool[g].pins)
      ensures key in old(pageMap) ==>
          && clock == old(clock) && pageMap == old(pageMap) && tmpInfo == old(tmpInfo)
          && pool[f] == old(pool[f]).(pins := old(pool[f].pins) + 1)
          && forall g :: 0 <= g < pool.Length && g != f ==> pool[g] == old(pool[g])
      ensures key !in old(pageMap) ==> f == base + clock && Fetched(key)
    {
      hide StopsAt, ChancesLost, FilesValid, FrameValid, Content;
      if key !in pageMap {
        f := Fetch(key, unpinned);
      } else {
        f := PinCached(key);
      }
    }

    method PinCached(key: TmpPageId) returns (f: nat)
      requires Valid() && key in pageMap
      modifies pool
      ensures Valid() && f == pageMap[key] && Mine(f) && pool[f].pageId == key
      ensures pool[f] == old(pool[f]).(pins := old(pool[f].pins) + 1) && pool[f].bytes == Content(key)
      ensures forall g :: 0 <= g < pool.Length && g != f ==> pool[g] == old(pool[g])
      ensures ContentsKept()
    {
      f := pageMap[key];
      pool[f] := pool[f].(pins := pool[f].pins + 1);
      forall g: nat | Mine(g) ensures FrameValid(g) {
        assert old(FrameValid(g));
      }
    }

    // Reads a page into the frame at which the clock stops.
    method Fetch(key: TmpPageId, ghost unpinned: nat) returns (f: nat)
      requires Valid() && Live(key.id) && key !in pageMap
      requires unpinned < poolSize && pool[base + unpinned].pins == 0
      modifies `clock, `pageMap, `tmpInfo, pool
      ensures Valid() && |tmpInfo| == old(|tmpInfo|) && f == base + clock && old(pool[f].pins) == 0 && Fetched(key)
      ensures forall g :: 0 <= g < pool.Length && g != f ==>
                pool[g] == old(pool[g]).(secondChance := pool[g].secondChance)
      ensures OthersSame() && ContentsKept()
    {
      hide StopsAt, ChancesLost, FilesValid, FrameValid, MapValid, Content;
      f := PageAvailable(unpinned);
      ghost var searched := Frames();
      ChancesDoNotMatter();
      Evict(f);
      Install(f, key);
      assert Frames()[clock] == pool[f] && old(Frames())[clock].pageId == old(pool[f]).pageId;
      assert Frames()[clock := searched[clock]] == searched;
      assert searched[clock] == old(Frames())[clock].(secondChance := false);
    }

    twostate lemma ChancesDoNotMatter()
      requires old(Valid()) && Shape() && OnlyChances()
      requires pageMap == old(pageMap) && tmpInfo == old(tmpInfo) && removed == old(removed)
      ensures Valid() && forall key :: Content(key) == old(Content(key))
    {
      forall g: nat | Mine(g) ensures FrameValid(g) {
        assert old(FrameValid(g));
      }
    }

    // What a client does with a frame it has pinned: change the bytes and mark the page dirty.
    method Write(f: nat, bytes: PageBytes)
      requires Valid() && Mine(f) && pool[f].pins > 0 && |bytes| == pageSize
      modifies pool
      ensures Valid() && pool[f] == old(pool[f]).(bytes := bytes, dirty := true)
      ensures pool[f].pageId in pageMap && Content(pool[f].pageId) == bytes
      ensures forall key :: key != pool[f].pageId ==> Content(key) == old(Content(key))
      ensures forall g :: 0 <= g < pool.Length && g != f ==> pool[g] == old(pool[g])
    {
      assert FrameValid(f);
      pool[f] := pool[f].(bytes := bytes, dirty := true);
      forall g: nat | Mine(g) ensures FrameValid(g) {
        assert old(FrameValid(g));
      }
    }

    method Unpin(f: nat)
      requires Valid() && Mine(f) && pool[f].pins > 0
      modifies pool
      ensures Valid() && pool[f] == old(pool[f]).(pins := old(pool[f].pins) - 1)
      ensures forall key :: Content(key) == old(Content(key))
      ensures forall g :: 0 <= g < pool.Length && g != f ==> pool[g] == old(pool[g])
    {
      assert FrameValid(f);
      pool[f] := pool[f].(pins := pool[f].pins - 1);
      forall g: nat | Mine(g) ensures FrameValid(g) {
        assert old(FrameValid(g));
      }
    }

    // A new temporary file is empty: every page of it reads as zeros.
    method GetTmpFileId() returns (id: nat)
      requires Valid() && |tmpInfo| < UNASSIGNED && forall r :: r in removed ==> r < |tmpInfo|
      modifies `tmpInfo
      ensures Valid() && id == |old(tmpInfo)| && Live(id)
      ensures tmpInfo == old(tmpInfo) + [TmpFileInfo(0, 0, false, [])]
      ensures forall key: TmpPageId :: old(Live(key.id)) ==> Content(key) == old(Content(key))
      ensures forall key: TmpPageId :: key.id == id ==> Content(key) == Zeros()
    {
      id := |tmpInfo|;
      assert forall key :: key in pageMap ==> old(Live(key.id));
      tmpInfo := tmpInfo + [NEW_FILE];
      forall g: nat | Mine(g) ensures FrameValid(g) {
        assert old(FrameValid(g));
      }
    }

    // The loop of remove_tmp: no frame holds a page of the file any more.
    method DropPages(id: nat)
      requires Valid() && Live(id)
      requires forall f: nat :: Mine(f) && pool[f].pageId.id == id ==> pool[f].pins == 0
      modifies `pageMap, pool
      ensures Valid()
      ensures forall f :: 0 <= f < pool.Length && !(Mine(f) && old(pool[f].pageId.id) == id) ==> pool[f] == old(pool[f])
      ensures forall f: nat :: Mine(f) && old(pool[f].pageId.id) == id ==>
                pool[f] == Frame(TmpPageId(UNASSIGNED, 0), old(pool[f].bytes), 0, false, false)
      ensures forall key :: key in pageMap <==> key in old(pageMap) && key.id != id
      ensures forall key :: key in pageMap ==> pageMap[key] == old(pageMap)[key]
    {
      for i := 0 to poolSize
        invariant Valid()
        invariant forall f :: 0 <= f < pool.Length && !(base <= f < base + i && old(pool[f].pageId.id) == id) ==>
                    pool[f] == old(pool[f])
        invariant forall f :: base <= f < base + i && old(pool[f].pageId.id) == id ==>
                    pool[f] == Frame(TmpPageId(UNASSIGNED, 0), old(pool[f].bytes), 0, false, false)
        invariant pageMap.Keys <= old(pageMap).Keys
        invariant forall key :: key in pageMap ==> pageMap[key] == old(pageMap)[key]
        invariant forall key :: key in old(pageMap) && key !in pageMap ==> key.id == id
      {
        ResetIfOf(base + i, id);
      }
      forall key | key in pageMap ensures key.id != id {
        assert pool[pageMap[key]].pageId == key;
      }
    }

    // Forgets the pages of a file none of whose pages is pinned, and closes it.
    method RemoveTmp(id: nat)
      requires Valid() && Live(id)
      requires forall f: nat :: Mine(f) && pool[f].pageId.id == id ==> pool[f].pins == 0
      modifies `pageMap, `tmpInfo, `removed, pool
      ensures Valid() && removed == old(removed) + {id} && !Live(id)
      ensures tmpInfo == old(tmpInfo)[id := old(tmpInfo)[id].(open := false)]
      ensures forall key: TmpPageId :: Live(key.id) ==> Content(key) == old(Content(key))
      ensures forall key :: key in pageMap <==> key in old(pageMap) && key.id != id
      ensures forall f :: 0 <= f < pool.Length && !(Mine(f) && old(pool[f].pageId.id) == id) ==> pool[f] == old(pool[f])
      ensures forall f: nat :: Mine(f) && old(pool[f].pageId.id) == id ==>
                pool[f] == Frame(TmpPageId(UNASSIGNED, 0), old(pool[f].bytes), 0, false, false)
    {
      hide FilesValid, FrameValid;
      DropPages(id);
      CloseFile(id);
    }

    method CloseFile(id: nat)
      requires Valid() && Live(id) && forall key :: key in pageMap ==> key.id != id
      modifies `tmpInfo, `removed
      ensures Valid() && removed == old(removed) + {id} && !Live(id)
      ensures tmpInfo == old(tmpInfo)[id := old(tmpInfo)[id].(open := false)]
      ensures forall key: TmpPageId :: Live(key.id) ==> Content(key) == old(Content(key))
    {
      tmpInfo := tmpInfo[id := tmpInfo[id].(open := false)];
      removed := removed + {id};
      forall g: nat | Mine(g) ensures FrameValid(g) {
        assert old(FrameValid(g));
        assert pool[g].Assigned() ==> pool[g].pageId in pageMap && pool[g].pageId.id != id;
      }
    }

    // One round of remove_tmp.
    method ResetIfOf(f: nat, id: nat)
      requires Valid() && Mine(f) && Live(id)
      requires pool[f].pageId.id == id ==> pool[f].pins == 0
      modifies `pageMap, pool
      ensures Valid()
      ensures pool[f] == if old(pool[f].pageId.id) == id then old(pool[f]).Reset() else old(pool[f])
      ensures forall g :: 0 <= g < pool.Length && g != f ==> pool[g] == old(pool[g])
      ensures pageMap == if old(pool[f].pageId.id) == id then old(pageMap - {pool[f].pageId}) else old(pageMap)
      ensures old(pool[f].pageId.id) == id ==> old(pool[f].pageId) in old(pageMap) && old(pageMap[pool[f].pageId]) == f
    {
      assert FrameValid(f);
      if pool[f].pageId.id == id {
        pageMap := pageMap - {pool[f].pageId};
        pool[f] := pool[f].Reset();
        forall g: nat | Mine(g) ensures FrameValid(g) {
          assert g != f ==> old(FrameValid(g));
        }
      }
    }

    // A new version scope forgets all temporary files. This is sound only if they were removed before: a page
    // still cached would be taken for a page of the next file with that number.
    method StartScope()
      requires Valid() && forall id :: 0 <= id < |tmpInfo| ==> id in removed
      modifies `tmpInfo, `removed
      ensures Valid() && tmpInfo == [] && removed == {}
    {
      assert forall key :: key in pageMap ==> Live(key.id);
      tmpInfo, removed := [], {};
      forall g: nat | Mine(g) ensures FrameValid(g) {
        assert old(FrameValid(g));
      }
    }
  }

  // Workers with disjoint stretches of the pool do not disturb each other: what one does to its own
  // frames leaves the other's pages as they were.
  twostate lemma OtherWorkerUntouched(w: Worker, other: Worker)
    requires old(other.Valid()) && w.pool == other.pool
    requires w.base + w.poolSize <= other.base || other.base + other.poolSize <= w.base
    requires w.OthersSame()
    requires other.pageMap == old(other.pageMap) && other.tmpInfo == old(other.tmpInfo)
    requires other.removed == old(other.removed) && other.clock == old(other.clock)
    ensures other.Valid()
    ensures forall key :: other.Content(key) == old(other.Content(key)) || !old(other.Live(key.id))
  {
    forall g | other.Mine(g) ensures other.FrameValid(g) {
      assert old(other.FrameValid(g));
    }
  }
}

// The buffer of versioned pages: readers see the pages as of the version at which they started, while
// at most one writer at a time prepares the next version. Each locked method is one step.
module Versions {
  import opened Bytes

  type PageBytes = seq<byte>

  datatype PageId = PageId(file: nat, number: nat)

  datatype VPage = VPage(pageId: PageId, version: nat, prev: Option<nat>, next: Option<nat>,
                         bytes: PageBytes, pins: nat, dirty: bool)
  {
    function WithPins(n: nat): (r: VPage) { this.(pins := n) }

    function WithNext(f: nat): (r: VPage) { this.(next := Some(f)) }

    function Written(b: PageBytes): (r: VPage) { this.(bytes := b) }

    // Everything but pins and the dirty mark.
    function Essence(): (r: VPage) { this.(pins := 0, dirty := false) }
  }

  datatype VersionScope = VersionScope(startVersion: nat, isEditable: bool) {
    // What the sessions put in the query context.
    function ResultVersion(): (r: nat) { if isEditable then startVersion + 1 else startVersion }
  }

  /* ----- version chains, as lists of frames from the oldest version on ----- */

  // The frames of a chain are linked both ways, and their versions ascend.
  ghost predicate ChainOk(frames: seq<VPage>, id: PageId, chain: seq<nat>) {
    && chain != []
    && (forall i :: 0 <= i < |chain| ==> chain[i] < |frames| && frames[chain[i]].pageId == id)
    && frames[chain[0]].prev == None && frames[chain[|chain| - 1]].next == None
    && (forall i, j :: 0 <= i && j == i + 1 < |chain| ==>
          frames[chain[i]].next == Some(chain[j]) && frames[chain[j]].prev == Some(chain[i]))
    && forall i, j :: 0 <= i < j < |chain| ==> frames[chain[i]].version < frames[chain[j]].version
  }

  // The frame at which the walk of the source stops: the last one whose version is at most v,
  // or the oldest one if there is none.
  ghost function Pick(frames: seq<VPage>, chain: seq<nat>, v: nat): (f: nat)
    requires chain != [] && forall i :: 0 <= i < |chain| ==> chain[i] < |frames|
    ensures f in chain
  {
    if |chain| == 1 || frames[chain[1]].version > v then chain[0] else Pick(frames, chain[1..], v)
  }

  // Where the walk stops, in terms of versions.
  lemma {:induction false} PickIsLatest(frames: seq<VPage>, id: PageId, chain: seq<nat>, v: nat)
    requires ChainOk(frames, id, chain)
    ensures Pick(frames, chain, v) == chain[0] || frames[Pick(frames, chain, v)].version <= v
    ensures forall i :: 0 <= i < |chain| && frames[chain[i]].version <= v ==>
              frames[chain[i]].version <= frames[Pick(frames, chain, v)].version
  {
    PickSuffix(frames, chain, v);
  }

  lemma {:induction false} PickSuffix(frames: seq<VPage>, chain: seq<nat>, v: nat)
    requires chain != [] && forall i :: 0 <= i < |chain| ==> chain[i] < |frames|
    requires forall i, j :: 0 <= i < j < |chain| ==> frames[chain[i]].version < frames[chain[j]].version
    ensures Pick(frames, chain, v) == chain[0] || frames[Pick(frames, chain, v)].version <= v
    ensures forall i :: 0 <= i < |chain| && frames[chain[i]].version <= v ==>
              frames[chain[i]].version <= frames[Pick(frames, chain, v)].version
  {
    if |chain| > 1 && frames[chain[1]].version <= v {
      PickSuffix(frames, chain[1..], v);
      forall i | 0 <= i < |chain| && frames[chain[i]].version <= v
        ensures frames[chain[i]].version <= frames[Pick(frames, chain, v)].version
      {
        if i > 0 {
          assert chain[1..][i - 1] == chain[i];
        } else {
          assert frames[chain[0]].version < frames[chain[1]].version && chain[1..][0] == chain[1];
        }
      }
    }
  }

  // A newer version at the end is picked by those that may see it, and by nobody else.
  lemma {:induction false} PickSnoc(frames: seq<VPage>, chain: seq<nat>, f: nat, v: nat)
    requires chain != [] && f < |frames| && forall i :: 0 <= i < |chain| ==> chain[i] < |frames|
    requires forall i, j :: 0 <= i < j < |chain| ==> frames[chain[i]].version < frames[chain[j]].version
    requires frames[chain[|chain| - 1]].version < frames[f].version
    ensures Pick(frames, chain + [f], v) == if frames[f].version <= v then f else Pick(frames, chain, v)
  {
    if |chain| > 1 {
      assert (chain + [f])[1..] == chain[1..] + [f];
      if frames[chain[1]].version <= v {
        PickSnoc(frames, chain[1..], f, v);
      } else {
        assert frames[chain[1]].version <= frames[chain[|chain| - 1]].version;
      }
    } else {
      assert (chain + [f])[1..] == [f];
    }
  }

  // The walk looks at versions only.
  lemma {:induction false} PickSameVersions(a: seq<VPage>, b: seq<VPage>, chain: seq<nat>, v: nat)
    requires chain != [] && forall i :: 0 <= i < |chain| ==> chain[i] < |a| && chain[i] < |b|
    requires forall i :: 0 <= i < |chain| ==> a[chain[i]].version == b[chain[i]].version
    ensures Pick(a, chain, v) == Pick(b, chain, v)
  {
    if |chain| > 1 {
      assert forall i :: 0 <= i < |chain[1..]| ==> chain[1..][i] == chain[i + 1];
      PickSameVersions(a, b, chain[1..], v);
    }
  }

  // From the newest version on, the walk ends at the end of the chain.
  lemma {:induction false} PickLast(frames: seq<VPage>, chain: seq<nat>, v: nat)
    requires chain != [] && forall i :: 0 <= i < |chain| ==> chain[i] < |frames| && frames[chain[i]].version <= v
    ensures Pick(frames, chain, v) == chain[|chain| - 1]
  {
    if |chain| > 1 {
      assert forall i :: 0 <= i < |chain[1..]| ==> chain[1..][i] == chain[i + 1];
      PickLast(frames, chain[1..], v);
    }
  }

  /* ----- the committed history ----- */

  type Snapshot = map<PageId, PageBytes>

  // hist[v] is the database as of version v; pages are never removed.
  ghost predicate Growing(hist: seq<Snapshot>, work: Snapshot) {
    && hist != []
    && (forall v, id :: 0 <= v < |hist| && id in hist[v] ==> id in work)
    && forall v, w, id :: 0 <= v <= w < |hist| && id in hist[v] ==> id in hist[w]
  }

  // A page with a chain: every version that has the page finds it, the current one included.
  ghost predicate ChainShows(frames: seq<VPage>, chain: seq<nat>, id: PageId, hist: seq<Snapshot>, work: Snapshot)
    requires ChainOk(frames, id, chain)
  {
    && (forall v :: 0 <= v < |hist| && id in hist[v] ==> frames[Pick(frames, chain, v)].bytes == hist[v][id])
    && id in work && frames[chain[|chain| - 1]].bytes == work[id]
  }

  // All there is to say about one cached page. Versions up to |hist| - 1 are committed, top is the
  // newest version a frame can have. The oldest frame may be labelled later than some readers: it is
  // as old as the committed versions need, except for a page the writer has just appended.
  ghost predicate PageOk(frames: seq<VPage>, chain: seq<nat>, id: PageId, hist: seq<Snapshot>, work: Snapshot,
      top: nat) {
    && hist != [] && ChainOk(frames, id, chain) && ChainShows(frames, chain, id, hist, work)
    && frames[chain[|chain| - 1]].version <= top
    && (frames[chain[0]].version < |hist| || id !in hist[|hist| - 1])
  }

  // Frames that agree on everything the chains are about.
  ghost predicate Agree(a: seq<VPage>, b: seq<VPage>, chain: seq<nat>) {
    forall i :: 0 <= i < |chain| ==>
      chain[i] < |a| && chain[i] < |b| && a[chain[i]].Essence() == b[chain[i]].Essence()
  }

  lemma PageAgree(a: seq<VPage>, b: seq<VPage>, chain: seq<nat>, id: PageId, hist: seq<Snapshot>, work: Snapshot,
      top: nat)
    requires PageOk(a, chain, id, hist, work, top) && Agree(a, b, chain)
    ensures PageOk(b, chain, id, hist, work, top)
  {
    assert forall i :: 0 <= i < |chain| ==>
        var x, y := a[chain[i]], b[chain[i]];
        x.version == y.version && x.bytes == y.bytes && x.prev == y.prev && x.next == y.next && x.pageId == y.pageId;
    assert ChainOk(b, id, chain);
    forall v | 0 <= v < |hist| && id in hist[v] ensures b[Pick(b, chain, v)].bytes == hist[v][id] {
      PickSameVersions(a, b, chain, v);
      assert a[Pick(a, chain, v)].bytes == b[Pick(b, chain, v)].bytes;
    }
  }

  // Changes to other pages, and to frames of other pages, leave a page as it is.
  lemma PageUnaffected(a: seq<VPage>, b: seq<VPage>, chain: seq<nat>, id: PageId, hist: seq<Snapshot>,
                       work: Snapshot, newWork: Snapshot, top: nat)
    requires PageOk(a, chain, id, hist, work, top) && Agree(a, b, chain)
    requires id in work && id in newWork && newWork[id] == work[id]
    ensures PageOk(b, chain, id, hist, newWork, top)
  {
    hide ChainOk;
    PageAgree(a, b, chain, id, hist, work, top);
  }

  // A page read from disk starts a chain of one frame, whatever version its reader has.
  lemma PageLoaded(frames: seq<VPage>, f: nat, id: PageId, hist: seq<Snapshot>, work: Snapshot, top: nat)
    requires f < |frames| && frames[f].pageId == id && frames[f].prev == frames[f].next == None
    requires hist != [] && frames[f].version <= top && (frames[f].version < |hist| || id !in hist[|hist| - 1])
    requires id in work && frames[f].bytes == work[id]
    requires forall v :: 0 <= v < |hist| && id in hist[v] ==> hist[v][id] == work[id]
    ensures PageOk(frames, [f], id, hist, work, top)
  {}

  ghost function Last(chain: seq<nat>): (f: nat) {
    if chain == [] then 0 else chain[|chain| - 1]
  }

  // A frame without a successor is the newest version of its page.
  ghost predicate TailsOk(frames: seq<VPage>, chains: map<PageId, seq<nat>>) {
    forall f :: 0 <= f < |frames| && frames[f].next == None ==>
      frames[f].pageId in chains && Last(chains[frames[f].pageId]) == f
  }

  // Appending a frame that is the newest of its page, the one before it getting a successor.
  lemma TailsGrow(a: seq<VPage>, b: seq<VPage>, chains: map<PageId, seq<nat>>, id: PageId, chain: seq<nat>)
    requires TailsOk(a, chains) && |b| == |a| + 1 && b[|a|].pageId == id && Last(chain) == |a|
    requires forall f :: 0 <= f < |a| ==> b[f].pageId == a[f].pageId && (b[f].next == a[f].next || b[f].next.Some?)
    requires id in chains ==> Last(chains[id]) < |a| && b[Last(chains[id])].next.Some?
    ensures TailsOk(b, chains[id := chain])
  {}

  // b is a with one more frame, linked behind frame last and holding the same bytes.
  ghost predicate NewVersion(a: seq<VPage>, b: seq<VPage>, last: nat, id: PageId, version: nat) {
    && last < |a| && |b| == |a| + 1 && a[last].version < version
    && (forall g :: 0 <= g < |a| ==> b[g] == if g == last then a[g].WithNext(|a|) else a[g])
    && b[|a|].pageId == id && b[|a|].version == version && b[|a|].prev == Some(last)
    && b[|a|].next == None && b[|a|].bytes == a[last].bytes
  }

  // Chains of different pages have no frame in common, so a new version of one leaves the others alone.
  lemma OtherChain(a: seq<VPage>, b: seq<VPage>, chain: seq<nat>, otherChain: seq<nat>, id: PageId, other: PageId,
      version: nat)
    requires ChainOk(a, id, chain) && ChainOk(a, other, otherChain) && id != other
    requires NewVersion(a, b, Last(chain), id, version)
    ensures Agree(a, b, otherChain)
    ensures Last(otherChain) < |a| < |b| && b[Last(otherChain)] == a[Last(otherChain)]
  {
    forall i | 0 <= i < |otherChain| ensures otherChain[i] < |a| && b[otherChain[i]] == a[otherChain[i]] {
      assert a[otherChain[i]].pageId == other && a[Last(chain)].pageId == id;
    }
  }

  // The writer's own version of a page goes to the end of its chain: no committed version sees it.
  lemma PageEdited(a: seq<VPage>, b: seq<VPage>, chain: seq<nat>, f: nat, id: PageId,
                   hist: seq<Snapshot>, work: Snapshot)
    requires PageOk(a, chain, id, hist, work, |hist|) && f == |a|
    requires NewVersion(a, b, Last(chain), id, |hist|)
    ensures PageOk(b, chain + [f], id, hist, work, |hist|)
  {
    hide ChainOk;
    var more := chain + [f];
    ChainExtended(a, b, chain, f, id, |hist|);
    ChainVersions(a, chain, id);
    assert forall i :: 0 <= i < |chain| ==>
        b[chain[i]].version == a[chain[i]].version && b[chain[i]].bytes == a[chain[i]].bytes;
    forall v | 0 <= v < |hist| && id in hist[v] ensures b[Pick(b, more, v)].bytes == hist[v][id] {
      PickSnoc(b, chain, f, v);
      PickSameVersions(a, b, chain, v);
    }
  }

  lemma ChainVersions(a: seq<VPage>, chain: seq<nat>, id: PageId)
    requires ChainOk(a, id, chain)
    ensures chain != [] && forall i :: 0 <= i < |chain| ==> chain[i] < |a|
    ensures forall i, j :: 0 <= i < j < |chain| ==> a[chain[i]].version < a[chain[j]].version
  {}

  // Linking a new frame behind the last one.
  lemma ChainExtended(a: seq<VPage>, b: seq<VPage>, chain: seq<nat>, f: nat, id: PageId, version: nat)
    requires ChainOk(a, id, chain) && f == |a| && NewVersion(a, b, Last(chain), id, version)
    ensures ChainOk(b, id, chain + [f])
  {
    var more, last := chain + [f], chain[|chain| - 1];
    assert forall i :: 0 <= i < |chain| - 1 ==> chain[i] != last;
    forall i, j | 0 <= i < j < |more| ensures b[more[i]].version < b[more[j]].version {
      assert i < |chain| - 1 ==> a[chain[i]].version < a[last].version;
    }
  }

  // The writer's changes to its own frame are seen by no committed version.
  lemma PageWritten(a: seq<VPage>, b: seq<VPage>, chain: seq<nat>, id: PageId,
                    hist: seq<Snapshot>, work: Snapshot, bytes: PageBytes)
    requires PageOk(a, chain, id, hist, work, |hist|) && |a| == |b| && Growing(hist, work)
    requires a[Last(chain)].version == |hist|
    requires forall g :: 0 <= g < |a| ==>
               b[g] == if g == Last(chain) then a[g].Written(bytes) else a[g]
    ensures PageOk(b, chain, id, hist, work[id := bytes], |hist|)
  {
    var last := chain[|chain| - 1];
    assert forall i :: 0 <= i < |chain| - 1 ==> chain[i] != last;
    assert forall i :: 0 <= i < |chain| ==> b[chain[i]].version == a[chain[i]].version;
    forall v | 0 <= v < |hist| && id in hist[v] ensures b[Pick(b, chain, v)].bytes == hist[v][id] {
      PickSameVersions(a, b, chain, v);
      PickSuffix(a, chain, v);
      assert id in hist[|hist| - 1];
      assert Pick(a, chain, v) != last;
    }
  }

  // Committing makes what the writer sees the newest version.
  lemma PageCommitted(frames: seq<VPage>, chain: seq<nat>, id: PageId, hist: seq<Snapshot>, work: Snapshot)
    requires PageOk(frames, chain, id, hist, work, |hist|)
    ensures PageOk(frames, chain, id, hist + [work], work, |hist|)
  {
    var more := hist + [work];
    forall v | 0 <= v < |more| && id in more[v] ensures frames[Pick(frames, chain, v)].bytes == more[v][id] {
      if v == |hist| {
        PickLast(frames, chain, v);
      }
    }
    assert frames[chain[0]].version <= frames[chain[|chain| - 1]].version;
  }
}

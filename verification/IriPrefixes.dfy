// The IRI prefixes of a database: a transition table in which every node carries the id of the longest
// prefix on the way to it, built by inserting the prefixes from the shortest to the longest.
module IriPrefixes {
  import opened Bytes
  import opened TupleOrder

  type Str = seq<byte>

  const CHAR_MIN: byte := 0x21
  const CHAR_MAX: byte := 0x7E
  const WIDTH: nat := CHAR_MAX - CHAR_MIN + 1

  predicate Allowed(c: byte) { CHAR_MIN <= c <= CHAR_MAX }

  predicate AllowedStr(s: Str) { forall i :: 0 <= i < |s| ==> Allowed(s[i]) }

  /* ----- the list of prefixes ----- */

  // Shorter strings come first, strings of one length in lexicographic order.
  function Key(s: Str): (r: Tuple) { [|s|] + s }

  function Keys(list: seq<Str>): (r: seq<Tuple>)
    ensures |r| == |list| && forall i :: 0 <= i < |list| ==> r[i] == Key(list[i])
  {
    seq(|list|, i requires 0 <= i < |list| => Key(list[i]))
  }

  ghost predicate Ordered(list: seq<Str>) { StrictlyIncreasing(Keys(list)) }

  // Putting a prefix in its place, unless it is there already.
  function InsertPrefix(x: Str, list: seq<Str>): (r: seq<Str>) {
    if list == [] || Less(Key(x), Key(list[0])) then [x] + list
    else if x == list[0] then list
    else [list[0]] + InsertPrefix(x, list[1..])
  }

  // The set of prefixes in order.
  function SortPrefixes(list: seq<Str>): (r: seq<Str>) {
    if list == [] then [] else InsertPrefix(list[0], SortPrefixes(list[1..]))
  }

  lemma {:induction false} InsertPrefixOrdered(x: Str, list: seq<Str>)
    requires Ordered(list)
    ensures Ordered(InsertPrefix(x, list))
    ensures forall s :: s in InsertPrefix(x, list) <==> s == x || s in list
  {
    if list == [] {
    } else if Less(Key(x), Key(list[0])) {
      forall i | 0 <= i < |list| ensures Less(Key(x), Key(list[i])) {
        if i > 0 {
          assert Less(Keys(list)[0], Keys(list)[i]);
          LessTransitive(Key(x), Key(list[0]), Key(list[i]));
        }
      }
      OrderedCons(x, list);
    } else if x != list[0] {
      OrderedTail(list);
      InsertPrefixOrdered(x, list[1..]);
      assert list == [list[0]] + list[1..];
      KeyInjective(x, list[0]);
      LessTotal(Key(x), Key(list[0]));
      FirstIsLeast(x, list, InsertPrefix(x, list[1..]));
      OrderedCons(list[0], InsertPrefix(x, list[1..]));
    }
  }

  lemma FirstIsLeast(x: Str, list: seq<Str>, t: seq<Str>)
    requires Ordered(list) && list != [] && Less(Key(list[0]), Key(x))
    requires forall s :: s in t ==> s == x || s in list[1..]
    ensures forall i :: 0 <= i < |t| ==> Less(Key(list[0]), Key(t[i]))
  {
    forall i | 0 <= i < |t| ensures Less(Key(list[0]), Key(t[i])) {
      if t[i] != x {
        assert t[i] in t;
        var k :| 0 <= k < |list[1..]| && list[1..][k] == t[i];
        assert Less(Keys(list)[0], Keys(list)[k + 1]);
      }
    }
  }

  lemma OrderedCons(x: Str, list: seq<Str>)
    requires Ordered(list) && forall i :: 0 <= i < |list| ==> Less(Key(x), Key(list[i]))
    ensures Ordered([x] + list)
  {
    var r := [x] + list;
    forall i, j | 0 <= i < j < |r| ensures Less(Keys(r)[i], Keys(r)[j]) {
      assert i > 0 ==> Less(Keys(list)[i - 1], Keys(list)[j - 1]);
    }
  }

  lemma OrderedTail(list: seq<Str>)
    requires Ordered(list) && list != []
    ensures Ordered(list[1..])
  {
    forall i, j | 0 <= i < j < |list[1..]| ensures Less(Keys(list[1..])[i], Keys(list[1..])[j]) {
      assert Less(Keys(list)[i + 1], Keys(list)[j + 1]);
    }
  }

  lemma KeyInjective(a: Str, b: Str)
    ensures Key(a) == Key(b) ==> a == b
  {
    assert Key(a)[1..] == a && Key(b)[1..] == b;
  }

  // The shorter of two prefixes comes first, and of two prefixes of one length the one that is smaller in the
  // first character in which they differ.
  lemma OrderOfPrefixes(list: seq<Str>, i: nat, j: nat)
    requires Ordered(list) && i < j < |list|
    ensures |list[i]| < |list[j]|
            || (|list[i]| == |list[j]| && exists k: nat :: SmallerAt(list[i], list[j], k))
  {
    var a, b := list[i], list[j];
    assert Less(Keys(list)[i], Keys(list)[j]);
    assert Key(a)[1..] == a && Key(b)[1..] == b;
    FirstDifference(a, b);
  }

  lemma {:induction false} SortPrefixesOrdered(list: seq<Str>)
    ensures Ordered(SortPrefixes(list))
    ensures forall s :: s in SortPrefixes(list) <==> s in list
  {
    if list != [] {
      SortPrefixesOrdered(list[1..]);
      InsertPrefixOrdered(list[0], SortPrefixes(list[1..]));
      assert list == [list[0]] + list[1..];
    }
  }

  // The order depends on the set of prefixes only, so saving and loading the list keeps all ids.
  lemma OrderedUnique(a: seq<Str>, b: seq<Str>)
    requires Ordered(a) && Ordered(b) && forall s :: s in a <==> s in b
    ensures a == b
  {
    KeysElements(a);
    KeysElements(b);
    IncreasingUnique(Keys(a), Keys(b));
    forall i | 0 <= i < |a| ensures a[i] == b[i] {
      assert Keys(a)[i] == Keys(b)[i];
      KeyInjective(a[i], b[i]);
    }
  }

  lemma KeysElements(a: seq<Str>)
    ensures forall t :: t in Keys(a) <==> exists s :: s in a && Key(s) == t
  {
    forall t ensures t in Keys(a) <==> exists s :: s in a && Key(s) == t {
      if t in Keys(a) {
        var i :| 0 <= i < |a| && Keys(a)[i] == t;
        assert a[i] in a;
      }
      if s :| s in a && Key(s) == t {
        var i :| 0 <= i < |a| && a[i] == s;
        assert Keys(a)[i] == t;
      }
    }
  }

  // The empty prefix is always there, in the first place.
  function PrefixList(list: seq<Str>): (r: seq<Str>) { SortPrefixes([[]] + list) }

  lemma PrefixListMeaning(list: seq<Str>)
    ensures Ordered(PrefixList(list)) && PrefixList(list) != [] && PrefixList(list)[0] == []
    ensures forall s :: s in PrefixList(list) <==> s == [] || s in list
  {
    SortPrefixesOrdered([[]] + list);
    var r := PrefixList(list);
    assert [] in r;
    assert Less(Keys(r)[0], Key([])) || r[0] == [] by {
      var k :| 0 <= k < |r| && r[k] == [];
      assert k > 0 ==> Less(Keys(r)[0], Keys(r)[k]);
    }
  }

  // Loading a saved list gives the same ids as before.
  lemma ReloadKeepsIds(list: seq<Str>)
    ensures PrefixList(PrefixList(list)) == PrefixList(list)
  {
    PrefixListMeaning(list);
    PrefixListMeaning(PrefixList(list));
    OrderedUnique(PrefixList(PrefixList(list)), PrefixList(list));
  }

  lemma OrderedLengths(list: seq<Str>)
    requires Ordered(list)
    ensures forall i, j :: 0 <= i < j < |list| ==> |list[i]| <= |list[j]| && list[i] != list[j]
  {
    forall i, j | 0 <= i < j < |list| ensures |list[i]| <= |list[j]| && list[i] != list[j] {
      assert Less(Keys(list)[i], Keys(list)[j]);
      LessTotal(Key(list[i]), Key(list[j]));
    }
  }

  /* ----- the longest prefix, by looking at all of them ----- */

  // The last of the first n prefixes that starts s, or the empty prefix.
  function Scan(list: seq<Str>, n: nat, s: Str): (id: nat)
    requires n <= |list|
    ensures id == 0 || id < n
  {
    if n == 0 then 0 else if list[n - 1] <= s then n - 1 else Scan(list, n - 1, s)
  }

  lemma SameLengthPrefixes(a: Str, b: Str, s: Str)
    requires a <= s && b <= s
    ensures |a| == |b| ==> a == b
  {}

  lemma {:induction false} ScanFindsLongest(list: seq<Str>, n: nat, s: Str)
    requires 0 < n <= |list| && Ordered(list) && list[0] == []
    ensures Scan(list, n, s) < n && list[Scan(list, n, s)] <= s
    ensures forall i :: 0 <= i < n && list[i] <= s && i != Scan(list, n, s) ==> |list[i]| < |list[Scan(list, n, s)]|
  {
    OrderedLengths(list);
    if n > 1 && !(list[n - 1] <= s) {
      ScanFindsLongest(list, n - 1, s);
    } else if n > 1 {
      forall i | 0 <= i < n - 1 && list[i] <= s ensures |list[i]| < |list[n - 1]| {
        SameLengthPrefixes(list[i], list[n - 1], s);
      }
    }
  }

  lemma {:induction false} ScanSame(list: seq<Str>, n: nat, s: Str, t: Str)
    requires n <= |list| && forall i :: 0 <= i < n ==> (list[i] <= s <==> list[i] <= t)
    ensures Scan(list, n, s) == Scan(list, n, t)
  {
    if n > 0 {
      ScanSame(list, n - 1, s, t);
    }
  }

  /* ----- the trie ----- */

  // The string one character longer, the character being given by its index in the tables.
  function Child(s: Str, c: nat): (r: Str)
    requires c < WIDTH
  {
    s + [c + CHAR_MIN]
  }

  function Parent(s: Str): (r: Str) { if s == [] then s else s[..|s| - 1] }

  lemma ChildParent(s: Str, c: nat)
    requires c < WIDTH
    ensures Parent(Child(s, c)) == s && Child(s, c) != [] && (AllowedStr(s) ==> AllowedStr(Child(s, c)))
  {}

  lemma ChildInjective(s: Str, c: nat, t: Str, d: nat)
    requires c < WIDTH && d < WIDTH && Child(s, c) == Child(t, d)
    ensures s == t && c == d
  {
    ChildParent(s, c);
    ChildParent(t, d);
    assert Child(s, c)[|s|] == c + CHAR_MIN && Child(t, d)[|t|] == d + CHAR_MIN;
  }

  // Node n stands for the string paths[n]; the nodes on the way to a node are nodes.
  ghost predicate PathsOk(paths: seq<Str>) {
    && paths != [] && paths[0] == []
    && (forall m, n :: 0 <= m < n < |paths| ==> paths[m] != paths[n])
    && (forall n :: 0 <= n < |paths| ==> AllowedStr(paths[n]))
    && forall n {:trigger Parent(paths[n])} :: 0 <= n < |paths| ==> Parent(paths[n]) in paths
  }

  // A transition to node 0 means that there is none.
  ghost predicate StepOk(transitions: seq<seq<nat>>, paths: seq<Str>, n: nat, c: nat)
    requires n < |transitions| && n < |paths| && c < WIDTH && |transitions[n]| == WIDTH
  {
    var next := transitions[n][c];
    if next == 0 then Child(paths[n], c) !in paths else next < |paths| && paths[next] == Child(paths[n], c)
  }

  ghost predicate TrieOk(transitions: seq<seq<nat>>, paths: seq<Str>) {
    && |transitions| == |paths| && PathsOk(paths)
    && (forall n :: 0 <= n < |paths| ==> |transitions[n]| == WIDTH)
    && forall n, c :: 0 <= n < |paths| && 0 <= c < WIDTH ==> StepOk(transitions, paths, n, c)
  }

  function EmptyRow(): (r: seq<nat>)
    ensures |r| == WIDTH == 94 && forall c :: 0 <= c < WIDTH ==> r[c] == 0
  {
    seq(WIDTH, _ => 0)
  }

  // A new node, reached from node n by the character with index c.
  function Linked(transitions: seq<seq<nat>>, n: nat, c: nat): (r: seq<seq<nat>>)
    requires n < |transitions| && c < |transitions[n]|
  {
    var row: seq<nat> := transitions[n][c := |transitions|];
    transitions[n := row] + [EmptyRow()]
  }

  lemma PathInjective(paths: seq<Str>, m: nat, n: nat)
    requires PathsOk(paths) && m < |paths| && n < |paths|
    ensures paths[m] == paths[n] ==> m == n
  {}

  lemma ParentKnown(paths: seq<Str>, s: Str)
    requires PathsOk(paths)
    ensures s in paths ==> Parent(s) in paths
  {
    if s in paths {
      var k :| 0 <= k < |paths| && paths[k] == s;
      assert Parent(paths[k]) in paths;
    }
  }

  lemma NewPath(paths: seq<Str>, n: nat, c: nat)
    requires PathsOk(paths) && n < |paths| && c < WIDTH && Child(paths[n], c) !in paths
    ensures PathsOk(paths + [Child(paths[n], c)])
  {
    hide Child, Parent, AllowedStr;
    ChildParent(paths[n], c);
    var all := paths + [Child(paths[n], c)];
    forall m {:trigger Parent(all[m])} | 0 <= m < |all| ensures Parent(all[m]) in all {
      assert m < |paths| ==> Parent(paths[m]) in paths;
      assert paths[n] in all;
    }
  }

  lemma NewNodeSteps(transitions: seq<seq<nat>>, paths: seq<Str>, n: nat, c: nat, d: nat)
    requires PathsOk(paths) && |transitions| == |paths| && n < |paths| && c < |transitions[n]| && c < WIDTH && d < WIDTH
    requires Child(paths[n], c) !in paths
    ensures StepOk(Linked(transitions, n, c), paths + [Child(paths[n], c)], |paths|, d)
  {
    hide Child, Parent, AllowedStr;
    var path := Child(paths[n], c);
    ChildParent(path, d);
    ParentKnown(paths, Child(path, d));
    LongerChild(path, d);
  }

  lemma LongerChild(s: Str, d: nat)
    requires d < WIDTH
    ensures Child(s, d) != s
  {}

  lemma OldNodeSteps(transitions: seq<seq<nat>>, paths: seq<Str>, n: nat, c: nat, m: nat, d: nat)
    requires PathsOk(paths) && |transitions| == |paths| && n < |paths| && m < |paths| && c < WIDTH && d < WIDTH
    requires |transitions[n]| == WIDTH == |transitions[m]| && StepOk(transitions, paths, m, d)
    requires Child(paths[n], c) !in paths && transitions[n][c] == 0
    ensures StepOk(Linked(transitions, n, c), paths + [Child(paths[n], c)], m, d)
  {
    hide Child, PathsOk;
    if Child(paths[m], d) == Child(paths[n], c) {
      ChildInjective(paths[m], d, paths[n], c);
      PathInjective(paths, m, n);
    }
  }

  lemma NewNode(transitions: seq<seq<nat>>, paths: seq<Str>, n: nat, c: nat)
    requires TrieOk(transitions, paths) && n < |paths| && c < WIDTH && |transitions[n]| == WIDTH
        && transitions[n][c] == 0
    ensures TrieOk(Linked(transitions, n, c), paths + [Child(paths[n], c)])
  {
    assert StepOk(transitions, paths, n, c);
    var all, more := paths + [Child(paths[n], c)], Linked(transitions, n, c);
    NewPath(paths, n, c);
    hide Child, PathsOk, StepOk;
    assert forall m :: 0 <= m < |all| ==> |more[m]| == WIDTH;
    forall m: nat, d: nat | m < |all| && d < WIDTH ensures StepOk(more, all, m, d) {
      if m < |paths| {
        OldNodeSteps(transitions, paths, n, c, m, d);
      } else {
        NewNodeSteps(transitions, paths, n, c, d);
      }
    }
  }

  /* ----- labels ----- */

  // All strings on the way to a prefix are nodes.
  ghost predicate Covered(paths: seq<Str>, s: Str) {
    forall k :: 0 <= k <= |s| ==> s[..k] in paths
  }

  // After n prefixes every node carries the longest of them that starts its string.
  ghost predicate LabelsOk(labels: seq<nat>, paths: seq<Str>, list: seq<Str>, n: nat)
    requires n <= |list|
  {
    |labels| == |paths| && forall m :: 0 <= m < |labels| ==> labels[m] == Scan(list, n, paths[m])
  }

  lemma PrefixOfChild(q: Str, s: Str, c: nat)
    requires c < WIDTH
    ensures q <= Child(s, c) <==> q <= s || q == Child(s, c)
  {
    if q <= Child(s, c) && |q| <= |s| {
      assert q == Child(s, c)[..|q|] == s[..|q|];
    }
  }

  lemma CoveredSelf(paths: seq<Str>, s: Str)
    requires Covered(paths, s)
    ensures s in paths
  {
    assert s[..|s|] == s;
  }

  lemma CoveredMore(paths: seq<Str>, more: seq<Str>, list: seq<Str>, n: nat)
    requires n <= |list| && paths <= more && forall i :: 0 <= i < n ==> Covered(paths, list[i])
    ensures forall i :: 0 <= i < n ==> Covered(more, list[i])
  {
    forall i | 0 <= i < n ensures Covered(more, list[i]) {
      assert Covered(paths, list[i]);
      forall k | 0 <= k <= |list[i]| ensures list[i][..k] in more {
        assert list[i][..k] in paths;
      }
    }
  }

  lemma LabelsExtended(labels: seq<nat>, paths: seq<Str>, list: seq<Str>, n: nat, path: Str, id: nat)
    requires n <= |list| && LabelsOk(labels, paths, list, n) && id == Scan(list, n, path)
    ensures LabelsOk(labels + [id], paths + [path], list, n)
  {}

  // A registered prefix that is not a node is not there, so a new node has the label of its parent.
  lemma NewLabel(paths: seq<Str>, list: seq<Str>, n: nat, s: Str, c: nat)
    requires n <= |list| && c < WIDTH && Child(s, c) !in paths && forall i :: 0 <= i < n ==> Covered(paths, list[i])
    ensures Scan(list, n, Child(s, c)) == Scan(list, n, s)
  {
    forall i | 0 <= i < n ensures list[i] <= s <==> list[i] <= Child(s, c) {
      PrefixOfChild(list[i], s, c);
      CoveredSelf(paths, list[i]);
    }
    ScanSame(list, n, Child(s, c), s);
  }

  // Longer strings have later labels.
  lemma {:induction false} ScanMonotone(list: seq<Str>, n: nat, s: Str, t: Str)
    requires n <= |list| && s <= t
    ensures Scan(list, n, s) <= Scan(list, n, t)
  {
    if n > 0 && !(list[n - 1] <= t) {
      ScanMonotone(list, n - 1, s, t);
    }
  }

  // The new prefix gets its label; no node is deeper, so no other label changes.
  lemma LabelNewest(labels: seq<nat>, paths: seq<Str>, list: seq<Str>, n: nat, node: nat)
    requires n < |list| && PathsOk(paths) && LabelsOk(labels, paths, list, n)
    requires node < |paths| && paths[node] == list[n] && forall m :: 0 <= m < |paths| ==> |paths[m]| <= |list[n]|
    ensures LabelsOk(labels[node := n], paths, list, n + 1)
  {
    forall m | 0 <= m < |paths| ensures labels[node := n][m] == Scan(list, n + 1, paths[m]) {
      if list[n] <= paths[m] {
        assert paths[m] == list[n];
        PathInjective(paths, m, node);
      }
    }
  }

  function Depth(list: seq<Str>, n: nat): (d: nat)
    requires n <= |list|
  {
    if n == 0 then 0 else |list[n - 1]|
  }

  class IriPrefixes {
    var transitions: seq<seq<nat>>
    var longestPrefix: seq<nat>
    var prefixes: seq<Str>
    ghost var paths: seq<Str>

    ghost predicate ListValid()
      reads `prefixes
    {
      && Ordered(prefixes) && |prefixes| <= 256 && prefixes != [] && prefixes[0] == []
      && forall i :: 0 <= i < |prefixes| ==> AllowedStr(prefixes[i])
    }

    // The trie of the first n prefixes, with room for strings of length d.
    ghost predicate Holds(n: nat, d: nat)
      reads this
    {
      && ListValid() && n <= |prefixes|
      && TrieOk(transitions, paths) && LabelsOk(longestPrefix, paths, prefixes, n)
      && (forall i :: 0 <= i < n ==> Covered(paths, prefixes[i]))
      && forall m :: 0 <= m < |paths| ==> |paths[m]| <= d
    }

    ghost predicate Valid()
      reads this
    {
      ListValid() && Holds(|prefixes|, Depth(prefixes, |prefixes|))
    }

    constructor (list: seq<Str>)
      requires |PrefixList(list)| <= 256
      requires forall s :: s in list ==> forall i :: 0 <= i < |s| ==> 0x21 <= s[i] <= 0x7E
      ensures Valid() && prefixes == PrefixList(list)
    {
      prefixes := PrefixList(list);
      transitions, longestPrefix, paths := [EmptyRow()], [0], [[]];
      new;
      StartHolds(list);
      hide SortPrefixes, PrefixList, Holds;
      for p := 0 to |prefixes|
        invariant prefixes == PrefixList(list) && Holds(p, Depth(prefixes, p))
      {
        Insert(p);
      }
      HoldsAll();
    }

    lemma StartHolds(list: seq<Str>)
      requires prefixes == PrefixList(list) && |prefixes| <= 256
      requires forall s :: s in list ==> forall i :: 0 <= i < |s| ==> 0x21 <= s[i] <= 0x7E
      requires transitions == [EmptyRow()] && longestPrefix == [0] && paths == [[]]
      ensures Holds(0, Depth(prefixes, 0))
    {
      PrintablePrefixes(list);
      PrefixListMeaning(list);
      EmptyTrie(prefixes);
      hide SortPrefixes, PrefixList, LabelsOk, Covered, TrieOk;
      assert forall i :: 0 <= i < |prefixes| ==> prefixes[i] in prefixes;
    }

    lemma HoldsAll()
      requires Holds(|prefixes|, Depth(prefixes, |prefixes|))
      ensures Valid()
    {}

    static lemma PrintablePrefixes(list: seq<Str>)
      requires forall s :: s in list ==> forall i :: 0 <= i < |s| ==> 0x21 <= s[i] <= 0x7E
      ensures forall s :: s in list ==> AllowedStr(s)
    {}

    static lemma EmptyTrie(list: seq<Str>)
      ensures TrieOk([EmptyRow()], [[]]) && LabelsOk([0], [[]], list, 0)
    {
      assert Parent([]) == [];
    }

    // Goes on to the node for one more character, which is made if it is not there.
    method Descend(p: nat, currentNode: nat, c: nat, ghost d: nat) returns (nextNode: nat)
      requires Holds(p, d) && currentNode < |paths| && c < WIDTH && |paths[currentNode]| < d
      modifies this
      ensures Holds(p, d) && prefixes == old(prefixes) && old(paths) <= paths
      ensures nextNode < |paths| && paths[nextNode] == Child(old(paths)[currentNode], c)
    {
      hide Child, Covered, PathsOk, Scan;
      assert StepOk(transitions, paths, currentNode, c);
      ghost var path := Child(paths[currentNode], c);
      nextNode := transitions[currentNode][c];
      ChildLonger(paths[currentNode], c);
      if nextNode == 0 {
        NewNode(transitions, paths, currentNode, c);
        NewLabel(paths, prefixes, p, paths[currentNode], c);
        CoveredMore(paths, paths + [path], prefixes, p);
        LabelsExtended(longestPrefix, paths, prefixes, p, path, longestPrefix[currentNode]);
        nextNode := |transitions|;
        longestPrefix := longestPrefix + [0];
        transitions := Linked(transitions, currentNode, c);
        paths := paths + [path];
      } else {
        ScanMonotone(prefixes, p, paths[currentNode], path);
      }
      if longestPrefix[nextNode] == 0 {
        longestPrefix := longestPrefix[nextNode := longestPrefix[currentNode]];
      }
    }

    static lemma ChildLonger(s: Str, c: nat)
      requires c < WIDTH
      ensures s <= Child(s, c) && |Child(s, c)| == |s| + 1
    {}

    method Insert(p: nat)
      requires p < |prefixes| && Holds(p, Depth(prefixes, p))
      modifies this
      ensures prefixes == old(prefixes) && Holds(p + 1, Depth(prefixes, p + 1))
    {
      var currentNode: nat := 0;
      var prefix := prefixes[p];
      for i := 0 to |prefix|
        invariant Holds(p, |prefix|) && prefixes == old(prefixes)
        invariant currentNode < |paths| && paths[currentNode] == prefix[..i]
        invariant forall k :: 0 <= k <= i ==> prefix[..k] in paths
      {
        currentNode := Descend(p, currentNode, prefix[i] - CHAR_MIN, |prefix|);
      }
      LabelNewest(longestPrefix, paths, prefixes, p, currentNode);
      longestPrefix := longestPrefix[currentNode := p];
    }

    // The longest prefix of a string, found by one walk down the trie.
    method GetPrefixId(s: Str) returns (prefixId: nat, prefixSize: nat)
      requires Valid()
      ensures prefixId < |prefixes| && prefixSize == |prefixes[prefixId]| <= |s|
      ensures prefixes[prefixId] + s[prefixSize..] == s
      ensures forall i :: 0 <= i < |prefixes| && prefixes[i] <= s && i != prefixId ==> |prefixes[i]| < prefixSize
      ensures prefixId == Scan(prefixes, |prefixes|, s)
    {
      hide Covered, Child, LabelsOk, PathsOk;
      var currentNode: nat := 0;
      RootPath();
      var i := 0;
      while i < |s|
        invariant i <= |s| && currentNode < |paths| == |transitions| && paths[currentNode] == s[..i]
      {
        var c := s[i];
        if c < CHAR_MIN || c > CHAR_MAX {
          break;
        }
        assert StepOk(transitions, paths, currentNode, c - CHAR_MIN);
        ChildIsNext(s, i);
        var nextNode := transitions[currentNode][c - CHAR_MIN];
        if nextNode == 0 {
          break;
        }
        currentNode := nextNode;
        i := i + 1;
      }
      NothingDeeper(s, i);
      ScanSame(prefixes, |prefixes|, s, s[..i]);
      ScanFindsLongest(prefixes, |prefixes|, s);
      LabelAt(currentNode);
      prefixId := longestPrefix[currentNode];
      prefixSize := |prefixes[prefixId]|;
    }

    lemma RootPath()
      requires TrieOk(transitions, paths)
      ensures paths != [] && paths[0] == []
    {}

    lemma LabelAt(node: nat)
      requires Valid() && node < |paths|
      ensures node < |longestPrefix| && longestPrefix[node] == Scan(prefixes, |prefixes|, paths[node])
    {}

    static lemma ChildIsNext(s: Str, i: nat)
      requires i < |s| && Allowed(s[i])
      ensures Child(s[..i], s[i] - CHAR_MIN) == s[..i + 1]
    {}

    // Where the walk stops, no longer prefix can follow.
    lemma NothingDeeper(s: Str, i: nat)
      requires Valid() && i <= |s|
      requires i == |s| || !Allowed(s[i]) || s[..i + 1] !in paths
      ensures forall j :: 0 <= j < |prefixes| ==> (prefixes[j] <= s <==> prefixes[j] <= s[..i])
    {
      forall j | 0 <= j < |prefixes| ensures prefixes[j] <= s <==> prefixes[j] <= s[..i] {
        var q := prefixes[j];
        assert AllowedStr(q) && Covered(paths, q);
        if q <= s {
          GoesOn(paths, q, s, i);
          assert q == s[..i][..|q|];
        }
      }
    }

    // On the way to a longer prefix there are further nodes.
    static lemma GoesOn(paths: seq<Str>, q: Str, s: Str, i: nat)
      requires AllowedStr(q) && Covered(paths, q) && q <= s
      ensures i < |q| ==> i < |s| && Allowed(s[i]) && s[..i + 1] in paths
    {
      if i < |q| {
        assert Allowed(q[i]);
        assert q[..i + 1] == s[..i + 1];
      }
    }
  }
}

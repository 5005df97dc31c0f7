// Comparing terms byte by byte: the iterators that join the prefix of an IRI with the rest of it, and the order
// of packed IRIs and of packed simple strings.
module TermComparison {
  import opened Bytes
  import opened CStrings
  import opened Inliner
  import opened PackedTerms
  import opened StringHeap
  import IriPrefixes

  // Reads a text kept inside an object id, up to its first zero byte.
  class InlineIter {
    const bytes: seq<byte>
    var current: nat

    ghost predicate Valid()
      reads this
    {
      current < |bytes| && 0 in bytes[current..]
    }

    ghost function Rest(): (r: seq<byte>)
      requires Valid()
      reads this
    {
      Text(bytes[current..])
    }

    constructor (bytes: seq<byte>)
      requires 0 in bytes
      ensures Valid() && Rest() == Text(bytes)
    {
      this.bytes, current := bytes, 0;
      new;
      assert this.bytes[0..] == this.bytes;
    }

    // After the end the iterator must not be used any more.
    method NextChar() returns (c: byte)
      requires Valid()
      modifies this
      ensures old(Rest()) == [] ==> c == 0
      ensures old(Rest()) != [] ==> Valid() && [c] + Rest() == old(Rest())
    {
      c := bytes[current];
      assert bytes[current..] == [c] + bytes[current + 1..];
      current := current + 1;
    }
  }

  // Where the text of a term is.
  datatype Source = Inlined(inlined: InlineIter) | External(external: StringExternalIter) | Temporary(tmp: BytesIter) {
    ghost function Iter(): (o: object) {
      match this
      case Inlined(i) => i
      case External(i) => i
      case Temporary(i) => i
    }

    ghost predicate Valid()
      reads Iter(), if External? then {external.manager} else {}
      reads if External? then external.manager.blocks else []
    {
      match this
      case Inlined(i) => i.Valid()
      case External(i) => i.Valid()
      case Temporary(i) => i.Valid()
    }

    ghost function Rest(): (r: seq<byte>)
      requires Valid()
      reads Iter(), if External? then {external.manager} else {}
      reads if External? then external.manager.blocks else []
    {
      match this
      case Inlined(i) => i.Rest()
      case External(i) => i.Rest()
      case Temporary(i) => i.Rest()
    }

    method NextChar() returns (c: byte)
      requires Valid()
      modifies Iter()
      ensures old(Rest()) == [] ==> c == 0
      ensures old(Rest()) != [] ==> Valid() && [c] + Rest() == old(Rest())
    {
      match this
      case Inlined(i) => c := i.NextChar();
      case External(i) => c := i.NextChar();
      case Temporary(i) => c := i.NextChar();
    }
  }

  // Goes through a prefix and then through the rest of a term. A string has no prefix.
  class TermIter {
    const prefix: BytesIter
    const rest: Source
    var inPrefix: bool

    ghost predicate Valid()
      reads this, prefix, rest.Iter(), if rest.External? then {rest.external.manager} else {}
      reads if rest.External? then rest.external.manager.blocks else []
    {
      prefix != rest.Iter() && prefix.Valid() && rest.Valid()
    }

    ghost function Rest(): (r: seq<byte>)
      requires Valid()
      reads this, prefix, rest.Iter(), if rest.External? then {rest.external.manager} else {}
      reads if rest.External? then rest.external.manager.blocks else []
    {
      (if inPrefix then Text(prefix.Rest()) else []) + rest.Rest()
    }

    ghost function Objects(): (r: set<object>) { {this, prefix, rest.Iter()} }

    constructor (prefix: BytesIter, rest: Source, inPrefix: bool)
      requires prefix != rest.Iter() && prefix.Valid() && rest.Valid()
      ensures Valid() && this.prefix == prefix && this.rest == rest
      ensures Rest() == (if inPrefix then Text(prefix.Rest()) else []) + rest.Rest()
    {
      this.prefix, this.rest, this.inPrefix := prefix, rest, inPrefix;
    }

    // The next byte of the prefix, or zero once it has come to its end.
    method NextOfPrefix() returns (c: byte)
      requires Valid() && inPrefix
      modifies prefix, `inPrefix
      ensures Valid() && (c == 0 <==> !inPrefix)
      ensures if c == 0 then Rest() == old(Rest()) else [c] + Rest() == old(Rest())
    {
      hide Source.Valid, Source.Rest;
      TextFirst(prefix.Rest());
      ghost var front := prefix.Rest();
      c := prefix.NextChar();
      if c == 0 {
        inPrefix := false;
      } else {
        assert front[1..] == prefix.Rest();
      }
    }

    method NextChar() returns (c: byte)
      requires Valid()
      modifies Objects()
      ensures old(Rest()) == [] ==> c == 0
      ensures old(Rest()) != [] ==> Valid() && [c] + Rest() == old(Rest())
    {
      hide Source.Valid, Source.Rest, BytesIter.Valid, BytesIter.Rest, Text;
      if inPrefix {
        c := NextOfPrefix();
        if c != 0 {
          return;
        }
      }
      c := rest.NextChar();
    }
  }

  ghost function AsObjects(blocks: seq<array<byte>>): (r: set<object>) {
    set i | 0 <= i < |blocks| :: blocks[i] as object
  }

  // Everything that an iterator reads.
  ghost function Footprint(iter: TermIter): (r: set<object>)
    reads if iter.rest.External? then {iter.rest.external.manager} else {}
  {
    iter.Objects() +
    if iter.rest.External? then {iter.rest.external.manager} + AsObjects(iter.rest.external.manager.blocks) else {}
  }

  // What an iterator reads is not what another one changes.
  lemma NotShared(a: TermIter, b: TermIter)
    requires a.Objects() !! b.Objects()
    ensures a.Objects() !! Footprint(b)
  {
    match a.rest
    case Inlined(i) =>
    case External(i) =>
    case Temporary(i) =>
  }

  twostate lemma Unaffected(iter: TermIter)
    requires old(iter.Valid()) && forall o :: o in old(Footprint(iter)) ==> unchanged(o)
    ensures iter.Valid() && iter.Rest() == old(iter.Rest()) && Footprint(iter) == old(Footprint(iter))
  {
    hide StringManager.MemoryValid, Text;
    assert iter in old(Footprint(iter)) && iter.prefix in old(Footprint(iter));
    match iter.rest
    case Inlined(i) => assert i in old(Footprint(iter));
    case Temporary(i) => assert i in old(Footprint(iter));
    case External(i) =>
      assert i in old(Footprint(iter)) && i.manager in old(Footprint(iter));
      forall b | b in i.manager.blocks ensures b in old(Footprint(iter)) {
        var k :| 0 <= k < |i.manager.blocks| && i.manager.blocks[k] == b;
        assert i.manager.blocks[k] as object in AsObjects(i.manager.blocks);
      }
      assert old(i.manager.MemoryValid());
  }

  // One byte of each.
  method NextPair(lhs: TermIter, rhs: TermIter, ghost a: seq<byte>, ghost b: seq<byte>)
    returns (c1: byte, c2: byte)
    requires lhs.Valid() && rhs.Valid() && lhs.Objects() !! rhs.Objects() && lhs.Rest() == a && rhs.Rest() == b
    modifies lhs.Objects(), rhs.Objects()
    ensures if a == [] then c1 == 0 else c1 == a[0]
    ensures if b == [] then c2 == 0 else c2 == b[0]
    ensures a != [] && b != [] ==> lhs.Valid() && rhs.Valid() && lhs.Rest() == a[1..] && rhs.Rest() == b[1..]
  {
    NotShared(lhs, rhs);
    NotShared(rhs, lhs);
    hide *;
    label first:
    c1 := lhs.NextChar();
    Unaffected@first(rhs);
    if a != [] {
      Tail(c1, lhs.Rest(), a);
    }
    label second:
    c2 := rhs.NextChar();
    if b != [] {
      Tail(c2, rhs.Rest(), b);
    }
    if a != [] {
      NotShared(rhs, lhs);
      Unaffected@second(lhs);
    }
  }

  lemma Tail(c: byte, rest: seq<byte>, s: seq<byte>)
    requires [c] + rest == s
    ensures s != [] && s[0] == c && s[1..] == rest
  {}

  // The loop of the source's compare.
  method CompareTerms(lhs: TermIter, rhs: TermIter) returns (r: int)
    requires lhs.Valid() && rhs.Valid() && lhs.Objects() !! rhs.Objects()
    modifies lhs.Objects(), rhs.Objects()
    ensures r == Compare(old(lhs.Rest()), old(rhs.Rest()))
  {
    ghost var a, b := lhs.Rest(), rhs.Rest();
    hide *;
    while true
      invariant lhs.Valid() && rhs.Valid()
      invariant lhs.Rest() == a && rhs.Rest() == b
      invariant Compare(a, b) == Compare(old(lhs.Rest()), old(rhs.Rest()))
      decreases |a|
    {
      var c1: int, c2: int := 0, 0;
      c1, c2 := NextPair(lhs, rhs, a, b);
      CompareStep(a, b, c1, c2);
      if c1 == 0 || c1 != c2 {
        return c1 - c2;
      }
      a, b := a[1..], b[1..];
    }
  }

  lemma CompareStep(a: seq<byte>, b: seq<byte>, c1: byte, c2: byte)
    requires if a == [] then c1 == 0 else c1 == a[0]
    requires if b == [] then c2 == 0 else c2 == b[0]
    ensures c1 == 0 || c1 != c2 ==> Compare(a, b) == c1 - c2
    ensures c1 == c2 != 0 ==> a != [] && b != [] && Compare(a, b) == Compare(a[1..], b[1..])
  {}

  /* ----- packed terms ----- */

  // The iterator for a text that is inside an object id, in the heap or among the temporary strings.
  method SourceOf(store: TermStore, mod: nat, value: nat, n: nat) returns (source: Source)
    requires store.Valid() && store.Readable(mod, value) && n <= 7
    ensures source.Valid() && fresh(source.Iter()) && source.Rest() == store.Content(mod, value, n)
  {
    hide StringManager.Valid, StringManager.IndexValid, TmpManager.Valid, Text, Padded, BigEndian;
    if mod == MOD_INLINE {
      DecodedText(value, n);
      var bytes := Decode(value, n);
      var iter := new InlineIter(bytes);
      source := Inlined(iter);
    } else if mod == MOD_EXTERNAL {
      var iter := store.heap.GetCharIter(value);
      source := External(iter);
    } else {
      var iter := new BytesIter(store.tmp.idToStr[value]);
      source := Temporary(iter);
    }
  }

  // The bytes of an IRI as its iterator delivers them: a zero byte in the prefix ends the prefix.
  ghost function IriBytes(store: TermStore, oid: ObjectId): (s: Str)
    requires store.IsIri(oid)
    reads store.heap`strings, store.tmp`idToStr, store.prefixes`prefixes
  {
    Text(store.prefixes.prefixes[ValueOf(oid) / P48]) + store.IriSuffix(oid)
  }

  method IriIter(store: TermStore, oid: ObjectId) returns (iter: TermIter)
    requires store.Valid() && store.IsIri(oid)
    ensures iter.Valid() && fresh(iter.Objects()) && iter.Rest() == IriBytes(store, oid)
  {
    hide TermStore.Valid, TermStore.Readable, TermStore.Content, Source.Valid, Source.Rest, Text;
    var mod := TypeOf(oid) - MASK_IRI;
    InlineReadable(store, mod, oid);
    var rest := SourceOf(store, mod, oid % P48, IRI_INLINE_BYTES);
    var prefix := new BytesIter(store.prefixes.prefixes[ValueOf(oid) / P48]);
    iter := new TermIter(prefix, rest, true);
  }

  lemma InlineReadable(store: TermStore, mod: nat, oid: ObjectId)
    requires store.IsIri(oid) && mod == TypeOf(oid) - MASK_IRI
    ensures store.Readable(mod, oid % P48)
  {}

  method StringIter(store: TermStore, oid: ObjectId) returns (iter: TermIter)
    requires store.Valid() && store.IsString(oid)
    ensures iter.Valid() && fresh(iter.Objects()) && iter.Rest() == store.StringOf(oid)
  {
    hide TermStore.Valid, TermStore.Content, Source.Valid, Source.Rest, Text;
    var rest := SourceOf(store, TypeOf(oid) - MASK_STRING_SIMPLE, oid % P56, STR_INLINE_BYTES);
    var prefix := new BytesIter([]);
    iter := new TermIter(prefix, rest, false);
  }

  // Making an iterator does not disturb one that is already there.
  method SecondIri(store: TermStore, oid: ObjectId, other: TermIter) returns (iter: TermIter)
    requires store.Valid() && store.IsIri(oid) && other.Valid()
    ensures iter.Valid() && fresh(iter.Objects()) && iter.Rest() == IriBytes(store, oid)
    ensures other.Valid() && other.Rest() == old(other.Rest()) && other.Objects() !! iter.Objects()
  {
    hide TermStore.Valid, TermStore.IsIri, IriBytes, TermIter.Valid, TermIter.Rest;
    iter := IriIter(store, oid);
    Unaffected(other);
  }

  method SecondString(store: TermStore, oid: ObjectId, other: TermIter) returns (iter: TermIter)
    requires store.Valid() && store.IsString(oid) && other.Valid()
    ensures iter.Valid() && fresh(iter.Objects()) && iter.Rest() == store.StringOf(oid)
    ensures other.Valid() && other.Rest() == old(other.Rest()) && other.Objects() !! iter.Objects()
  {
    hide TermStore.Valid, TermStore.IsString, TermStore.StringOf, TermIter.Valid, TermIter.Rest;
    iter := StringIter(store, oid);
    Unaffected(other);
  }

  // The case of IRIs.
  method CompareIris(store: TermStore, a: ObjectId, b: ObjectId) returns (r: int)
    requires store.Valid() && store.IsIri(a) && store.IsIri(b)
    ensures r == Compare(IriBytes(store, a), IriBytes(store, b))
  {
    hide TermStore.Valid, TermStore.IsIri, IriBytes, TermIter.Valid, TermIter.Rest, Compare;
    var lhs := IriIter(store, a);
    var rhs := SecondIri(store, b, lhs);
    hide *;
    r := CompareTerms(lhs, rhs);
  }

  // The case of simple strings.
  method CompareStrings(store: TermStore, a: ObjectId, b: ObjectId) returns (r: int)
    requires store.Valid() && store.IsString(a) && store.IsString(b)
    ensures r == Compare(store.StringOf(a), store.StringOf(b))
  {
    hide TermStore.Valid, TermStore.IsString, TermStore.StringOf, TermIter.Valid, TermIter.Rest, Compare;
    var lhs := StringIter(store, a);
    var rhs := SecondString(store, b, lhs);
    hide *;
    r := CompareTerms(lhs, rhs);
  }

  lemma WithoutZeros(store: TermStore, oid: ObjectId)
    requires store.IsIri(oid) && NulFree(store.IriOf(oid))
    ensures IriBytes(store, oid) == store.IriOf(oid)
  {
    var prefix := store.prefixes.prefixes[ValueOf(oid) / P48];
    NulFreeParts(prefix, store.IriSuffix(oid));
    TextOfNulFree(prefix);
  }

  datatype Packed = Packed(store: TermStore, oid: ObjectId)

  // A packed IRI stays what it is while other terms are packed.
  twostate lemma IriStays(p: Packed)
    requires old(p.store.IsIri(p.oid)) && old(p.store.tmp.idToStr) <= p.store.tmp.idToStr
    requires p.store.heap.strings == old(p.store.heap.strings)
    requires p.store.prefixes.prefixes == old(p.store.prefixes.prefixes)
    ensures p.store.IsIri(p.oid) && p.store.IriOf(p.oid) == old(p.store.IriOf(p.oid))
  {
    hide Text;
  }

  // Packed IRIs are ordered like the IRIs, and are equal in this order only if the IRIs are.
  method ComparePacked(store: TermStore, s: Str, t: Str) returns (r: int)
    requires store.Valid() && |store.tmp.idToStr| + 1 < P44 && NulFree(s) && NulFree(t)
    modifies store.tmp
    ensures r == Compare(s, t) && (r == 0 <==> s == t)
  {
    hide TermStore.Valid, TermStore.IsIri, TermStore.IriOf, IriBytes, Compare, Text;
    var a := store.PackIri(s);
    label first:
    var b := store.PackIri(t);
    IriStays@first(Packed(store, a));
    WithoutZeros(store, a);
    WithoutZeros(store, b);
    r := CompareIris(store, a, b);
    CompareIsEquality(s, t);
    TextOfNulFree(s);
    TextOfNulFree(t);
  }
}

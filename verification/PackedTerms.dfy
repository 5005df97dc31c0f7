// RDF terms packed into object ids: a type byte, a field for the IRI prefix or for the language or
// datatype, and the text itself if it is short, else its place in the string heap or among the
// temporary strings. Fields are combined with bitwise or; they do not overlap, so or is addition.
module PackedTerms {
  import opened Arithmetic
  import opened Bytes
  import opened CStrings
  import Inliner
  import IriPrefixes
  import opened StringHeap

  type Str = seq<byte>
  type ObjectId = nat

  const P44: nat := 0x1000_0000_0000
  const P48: nat := 0x1_0000_0000_0000
  const P56: nat := 0x100_0000_0000_0000

  const MASK_IRI: nat := 0x30
  const MASK_STRING_SIMPLE: nat := 0x40
  const MASK_STRING_LANG: nat := 0x48
  const MASK_STRING_DATATYPE: nat := 0x4C

  const MOD_INLINE: nat := 0
  const MOD_EXTERNAL: nat := 1
  const MOD_TMP: nat := 2

  const IRI_INLINE_BYTES: nat := 6
  const STR_INLINE_BYTES: nat := 7
  const TAGGED_INLINE_BYTES: nat := 5

  // The tag of a language or datatype that is not in the catalog.
  const LAST_TMP_TAG: nat := 0xFFF

  const AT: byte := 0x40
  const CARET: byte := 0x5E

  // The strings of one worker that are not in the heap, numbered in the order of their first use.
  class TmpManager {
    var strToId: map<Str, nat>
    var idToStr: seq<Str>

    ghost predicate Valid()
      reads this
    {
      && (forall id :: 0 <= id < |idToStr| ==> idToStr[id] in strToId && strToId[idToStr[id]] == id)
      && forall s :: s in strToId ==> strToId[s] < |idToStr| && idToStr[strToId[s]] == s
    }

    method GetStrId(s: Str) returns (id: nat)
      requires Valid()
      modifies this
      ensures Valid() && id < |idToStr| && idToStr[id] == s
      ensures idToStr == if s in old(idToStr) then old(idToStr) else old(idToStr) + [s]
    {
      if s in strToId {
        return strToId[s];
      }
      assert s !in idToStr;
      id := |idToStr|;
      strToId := strToId[s := id];
      idToStr := idToStr + [s];
    }
  }

  /* ----- object ids ----- */

  // The type, a field of `unit` and up, and the rest below it.
  function Compose(mask: nat, high: nat, unit: nat, low: nat): (oid: ObjectId) { mask * P56 + (high * unit + low) }

  function TypeOf(oid: ObjectId): (r: nat) { oid / P56 }

  function ValueOf(oid: ObjectId): (r: nat) { oid % P56 }

  lemma Fields(mask: nat, high: nat, unit: nat, low: nat)
    requires (unit == P44 && high < 0x1000) || (unit == P48 && high < 0x100)
    requires low < unit
    ensures var oid := Compose(mask, high, unit, low);
            && TypeOf(oid) == mask && ValueOf(oid) == high * unit + low
            && ValueOf(oid) / unit == high && oid % unit == low
  {
    var value := high * unit + low;
    assert value < P56;
    DivModUnique(mask, value, P56);
    DivModUnique(high, low, unit);
    assert mask * P56 == mask * (P56 / unit) * unit;
    DivModUnique(mask * (P56 / unit) + high, low, unit);
  }

  lemma FieldsOf(oid: ObjectId, unit: nat)
    requires unit == P44 || unit == P48
    ensures oid == Compose(TypeOf(oid), ValueOf(oid) / unit, unit, oid % unit)
  {
    DivideBack(oid, P56);
    DivideBack(ValueOf(oid), unit);
    DivModUnique(TypeOf(oid) * (P56 / unit) + ValueOf(oid) / unit, ValueOf(oid) % unit, unit);
    assert TypeOf(oid) * P56 == TypeOf(oid) * (P56 / unit) * unit;
  }

  lemma InlineSizes()
    ensures Pow256(TAGGED_INLINE_BYTES) * 16 == P44
    ensures Pow256(IRI_INLINE_BYTES) == P48 && Pow256(STR_INLINE_BYTES) == P56
  {
    assert Pow256(7) == 256 * Pow256(6) && Pow256(6) == 256 * Pow256(5)
           && Pow256(5) == 256 * Pow256(4) && Pow256(4) == 256 * Pow256(3)
           && Pow256(3) == 256 * Pow256(2) && Pow256(2) == 256 * Pow256(1)
           && Pow256(1) == 256;
  }

  /* ----- packing ----- */

  class TermStore {
    const heap: StringManager
    const tmp: TmpManager
    const prefixes: IriPrefixes.IriPrefixes
    const languages: seq<Str>
    const datatypes: seq<Str>

    ghost predicate Valid()
      reads heap, heap.blocks, tmp, prefixes
    {
      && heap.Valid() && |heap.mem| <= P44 && tmp.Valid() && |tmp.idToStr| <= P44 && prefixes.Valid()
      && Catalogued(languages) && Catalogued(datatypes)
    }

    constructor (heap: StringManager, tmp: TmpManager, prefixes: IriPrefixes.IriPrefixes, languages: seq<Str>,
        datatypes: seq<Str>)
      requires heap.Valid() && |heap.mem| <= P44 && tmp.Valid() && |tmp.idToStr| <= P44 && prefixes.Valid()
      requires Catalogued(languages) && Catalogued(datatypes)
      ensures Valid() && this.heap == heap && this.tmp == tmp && this.prefixes == prefixes
      ensures this.languages == languages && this.datatypes == datatypes
    {
      this.heap, this.tmp, this.prefixes, this.languages, this.datatypes := heap, tmp, prefixes, languages, datatypes;
    }

    // The entries of a catalog are distinct, and their numbers leave out the tag that marks the others.
    static ghost predicate Catalogued(list: seq<Str>) {
      |list| <= LAST_TMP_TAG && forall i, j :: 0 <= i < j < |list| ==> list[i] != list[j]
    }

    // The text that the mode and the low bits of an object id stand for.
    ghost function Content(mod: nat, low: nat, n: nat): (s: Str)
      reads heap`strings, tmp`idToStr
    {
      if mod == MOD_INLINE then Text(Inliner.BigEndian(low, n))
      else if mod == MOD_EXTERNAL then (if low in heap.strings then heap.strings[low] else [])
      else if low < |tmp.idToStr| then tmp.idToStr[low] else []
    }

    ghost predicate Readable(mod: nat, low: nat)
      reads heap`strings, tmp`idToStr
    {
      mod == MOD_INLINE || (mod == MOD_EXTERNAL && low in heap.strings) || (mod == MOD_TMP && low < |tmp.idToStr|)
    }

    // Where a text is kept: inside the id exactly if it has at most n bytes, else in the heap exactly if the heap
    // knows it, and else among the temporary strings.
    ghost predicate Placed(s: Str, n: nat, mod: nat, low: nat)
      reads heap`strings, tmp`idToStr
    {
      if |s| <= n then mod == 0 && |Text(s)| <= n && low == Inliner.Number(Inliner.Padded(Text(s), n))
      else if Known(heap.strings, heap.hash, s) then
        && mod == 1 && low in heap.strings && SameText(heap.strings[low], s)
        && heap.hash(heap.strings[low]) == heap.hash(s)
      else mod == 2 && low < |tmp.idToStr| && tmp.idToStr[low] == s
    }

    // Puts a text into at most n bytes, or finds it in the heap, or among the temporary strings.
    method PackText(s: Str, n: nat) returns (mod: nat, low: nat)
      requires Valid() && |tmp.idToStr| < P44
      modifies tmp
      ensures Valid()
      ensures old(tmp.idToStr) <= tmp.idToStr && |tmp.idToStr| <= |old(tmp.idToStr)| + 1
      ensures Readable(mod, low) && low < (if mod == MOD_INLINE then Pow256(n) else P44)
      ensures Placed(s, n, mod, low)
      ensures NulFree(s) ==> Content(mod, low, n) == s
    {
      hide Known, StringManager.Valid, StringManager.IndexValid, IriPrefixes.IriPrefixes.Valid, TmpManager.Valid;
      hide SameText;
      if |s| <= n {
        mod := MOD_INLINE;
        low := Inliner.InlineString(s, n);
        Inliner.InlineRoundTrip(Text(s), n);
        TextOfText(s);
      } else {
        var found := heap.GetBytesId(s);
        if found.Some? {
          mod, low := MOD_EXTERNAL, found.value;
          BelowEnd(low);
          if NulFree(s) {
            SameAsNulFree(heap.strings[low], s);
          }
        } else {
          mod := MOD_TMP;
          low := tmp.GetStrId(s);
        }
      }
    }

    // Two texts are kept in one place only if they are equal, and equal ones are.
    lemma OnePlace(s: Str, t: Str, n: nat, mod: nat, low: nat, otherMod: nat, otherLow: nat)
      requires Valid() && NulFree(s) && NulFree(t) && Placed(s, n, mod, low) && Placed(t, n, otherMod, otherLow)
      ensures (mod, low) == (otherMod, otherLow) <==> s == t
    {
      hide Known, SameText, StringManager.MemoryValid, StringManager.DiskValid, StringManager.StringsValid,
           IriPrefixes.IriPrefixes.Valid, IndexOk;
      TextOfNulFree(s);
      TextOfNulFree(t);
      if |s| <= n && |t| <= n {
        Inliner.InlineRoundTrip(s, n);
        Inliner.InlineRoundTrip(t, n);
      } else if mod == otherMod == 1 {
        SameAsNulFree(heap.strings[low], s);
        SameAsNulFree(heap.strings[otherLow], t);
        OneIdEach(heap.index, heap.strings, heap.hash, low, otherLow);
      }
    }

    lemma BelowEnd(id: nat)
      requires heap.Valid() && id in heap.strings
      ensures id < |heap.mem|
    {}

    method UnpackText(mod: nat, oid: ObjectId, externalId: nat, n: nat) returns (s: Str)
      requires Valid() && Readable(mod, externalId)
      requires Inliner.BigEndian(oid, n) == Inliner.BigEndian(externalId, n) || mod != MOD_INLINE
      ensures NulFree(Content(mod, externalId, n)) ==> s == Content(mod, externalId, n)
    {
      if mod == MOD_INLINE {
        s := Inliner.GetStringInlined(oid, n);
      } else if mod == MOD_EXTERNAL {
        s := ReadString(heap, externalId);
        TextOfNulFree(heap.strings[externalId]);
      } else {
        s := tmp.idToStr[externalId];
      }
    }

    /* ----- IRIs ----- */

    ghost predicate IsIri(oid: ObjectId)
      reads heap`strings, tmp`idToStr, prefixes`prefixes
    {
      && MASK_IRI <= TypeOf(oid) <= MASK_IRI + MOD_TMP && ValueOf(oid) / P48 < |prefixes.prefixes|
      && Readable(TypeOf(oid) - MASK_IRI, oid % P44)
      && (TypeOf(oid) != MASK_IRI ==> oid % P48 == oid % P44)
    }

    // The IRI of an object id.
    ghost function IriOf(oid: ObjectId): (s: Str)
      requires IsIri(oid)
      reads heap`strings, tmp`idToStr, prefixes`prefixes
    {
      prefixes.prefixes[ValueOf(oid) / P48] + IriSuffix(oid)
    }

    ghost function IriSuffix(oid: ObjectId): (s: Str)
      requires TypeOf(oid) >= MASK_IRI
      reads heap`strings, tmp`idToStr
    {
      var mod := TypeOf(oid) - MASK_IRI;
      Content(mod, if mod == MOD_INLINE then oid % P48 else oid % P44, IRI_INLINE_BYTES)
    }

    // The object id of an IRI: the number of the longest prefix, and the place of the rest.
    ghost predicate PacksIri(str: Str, oid: ObjectId)
      reads heap`strings, tmp`idToStr, prefixes`prefixes
    {
      var list, p := prefixes.prefixes, ValueOf(oid) / P48;
      && p < |list| && list[p] <= str
      && (forall i :: 0 <= i < |list| && list[i] <= str && i != p ==> |list[i]| < |list[p]|)
      && 0x30 <= TypeOf(oid) && Placed(str[|list[p]|..], 6, TypeOf(oid) - 0x30, oid % P48)
    }

    // One IRI has one object id, and different ones have different ids.
    lemma OneIriId(s: Str, a: ObjectId, t: Str, b: ObjectId)
      requires Valid() && NulFree(s) && NulFree(t) && PacksIri(s, a) && PacksIri(t, b)
      ensures a == b <==> s == t
    {
      hide Valid, Placed, NulFree;
      var list, p, q := prefixes.prefixes, ValueOf(a) / P48, ValueOf(b) / P48;
      FieldsOf(a, P48);
      FieldsOf(b, P48);
      assert s == list[p] + s[|list[p]|..] && t == list[q] + t[|list[q]|..];
      NulFreeParts(list[p], s[|list[p]|..]);
      NulFreeParts(list[q], t[|list[q]|..]);
      if s == t {
        assert p == q;
      }
      if p == q {
        OnePlace(s[|list[p]|..], t[|list[p]|..], 6, TypeOf(a) - 0x30, a % P48, TypeOf(b) - 0x30, b % P48);
      }
    }

    // The longest prefix goes into the object id as a number, the rest as a text.
    method PackIri(str: Str) returns (oid: ObjectId)
      requires Valid() && |tmp.idToStr| < P44
      modifies tmp
      ensures Valid() && IsIri(oid) && PacksIri(str, oid)
      ensures old(tmp.idToStr) <= tmp.idToStr && |tmp.idToStr| <= |old(tmp.idToStr)| + 1
      ensures NulFree(str) ==> IriOf(oid) == str
    {
      hide StringManager.Valid, TmpManager.Valid;
      var prefixId, prefixSize := prefixes.GetPrefixId(str);
      PrefixCount();
      hide IriPrefixes.IriPrefixes.Valid;
      var suffix := str[prefixSize..];
      var mod, low := PackText(suffix, IRI_INLINE_BYTES);
      InlineSizes();
      oid := Compose(MASK_IRI + mod, prefixId, P48, low);
      Fields(MASK_IRI + mod, prefixId, P48, low);
      LowBits(oid, low);
    }

    lemma PrefixCount()
      requires prefixes.Valid()
      ensures |prefixes.prefixes| <= 256
    {}

    method UnpackIri(oid: ObjectId) returns (str: Str)
      requires Valid() && IsIri(oid)
      ensures NulFree(IriSuffix(oid)) ==> str == IriOf(oid)
    {
      hide StringManager.Valid, TmpManager.Valid, IriPrefixes.IriPrefixes.Valid;
      var prefix := prefixes.prefixes[ValueOf(oid) / P48];
      var mod := TypeOf(oid) - MASK_IRI;
      var low := if mod == MOD_INLINE then oid % P48 else oid % P44;
      LowDigits(oid, IRI_INLINE_BYTES);
      var suffix := UnpackText(mod, oid, low, IRI_INLINE_BYTES);
      str := prefix + suffix;
    }

    // What is packed is what is unpacked.
    method IriRoundTrip(str: Str) returns (same: Str)
      requires Valid() && |tmp.idToStr| < P44 && NulFree(str)
      modifies tmp
      ensures same == str
    {
      var oid := PackIri(str);
      NulFreeParts(prefixes.prefixes[ValueOf(oid) / P48], IriSuffix(oid));
      same := UnpackIri(oid);
    }

    /* ----- strings ----- */

    ghost predicate IsString(oid: ObjectId)
      reads heap`strings, tmp`idToStr
    {
      && MASK_STRING_SIMPLE <= TypeOf(oid) <= MASK_STRING_SIMPLE + MOD_TMP
      && Readable(TypeOf(oid) - MASK_STRING_SIMPLE, oid % P44)
      && (TypeOf(oid) != MASK_STRING_SIMPLE ==> oid % P56 == oid % P44)
    }

    ghost function StringOf(oid: ObjectId): (s: Str)
      requires IsString(oid)
      reads heap`strings, tmp`idToStr
    {
      var mod := TypeOf(oid) - MASK_STRING_SIMPLE;
      Content(mod, if mod == MOD_INLINE then oid % P56 else oid % P44, STR_INLINE_BYTES)
    }

    // The object id of a simple string.
    ghost predicate PacksString(str: Str, oid: ObjectId)
      reads heap`strings, tmp`idToStr
    {
      0x40 <= TypeOf(oid) && Placed(str, 7, TypeOf(oid) - 0x40, ValueOf(oid))
    }

    lemma OneStringId(s: Str, a: ObjectId, t: Str, b: ObjectId)
      requires Valid() && NulFree(s) && NulFree(t) && PacksString(s, a) && PacksString(t, b)
      ensures a == b <==> s == t
    {
      hide Valid, Placed, NulFree;
      DivideBack(a, P56);
      DivideBack(b, P56);
      OnePlace(s, t, 7, TypeOf(a) - 0x40, ValueOf(a), TypeOf(b) - 0x40, ValueOf(b));
    }

    method PackStringSimple(str: Str) returns (oid: ObjectId)
      requires Valid() && |tmp.idToStr| < P44
      modifies tmp
      ensures Valid() && IsString(oid) && (NulFree(str) ==> StringOf(oid) == str)
      ensures PacksString(str, oid)
      ensures old(tmp.idToStr) <= tmp.idToStr && |tmp.idToStr| <= |old(tmp.idToStr)| + 1
    {
      hide StringManager.Valid, TmpManager.Valid, IriPrefixes.IriPrefixes.Valid;
      if |str| == 0 {
        EmptyInline(STR_INLINE_BYTES);
        Inliner.ZeroNumber(STR_INLINE_BYTES);
        assert Text(str) == str == [];
        WholeValue(MASK_STRING_SIMPLE, 0);
        return MASK_STRING_SIMPLE * P56;
      }
      var mod, low := PackText(str, STR_INLINE_BYTES);
      InlineSizes();
      oid := (MASK_STRING_SIMPLE + mod) * P56 + low;
      WholeValue(MASK_STRING_SIMPLE + mod, low);
    }

    method UnpackString(oid: ObjectId) returns (str: Str)
      requires Valid() && IsString(oid)
      ensures NulFree(StringOf(oid)) ==> str == StringOf(oid)
    {
      hide StringManager.Valid, TmpManager.Valid, IriPrefixes.IriPrefixes.Valid;
      var mod := TypeOf(oid) - MASK_STRING_SIMPLE;
      LowDigits(oid, STR_INLINE_BYTES);
      str := UnpackText(mod, oid, if mod == MOD_INLINE then oid % P56 else oid % P44, STR_INLINE_BYTES);
    }

    method StringRoundTrip(str: Str) returns (same: Str)
      requires Valid() && |tmp.idToStr| < P44 && NulFree(str)
      modifies tmp
      ensures same == str
    {
      var oid := PackStringSimple(str);
      same := UnpackString(oid);
    }

    /* ----- strings with a language or a datatype ----- */

    // The number of a catalogued language or datatype, or the tag of the others.
    method GetTag(list: seq<Str>, name: Str) returns (tag: nat)
      requires Catalogued(list)
      ensures if name in list then tag < |list| && list[tag] == name else tag == LAST_TMP_TAG
    {
      tag := 0;
      while tag < |list|
        invariant tag <= |list| && name !in list[..tag]
      {
        if list[tag] == name {
          return;
        }
        tag := tag + 1;
      }
      tag := LAST_TMP_TAG;
    }

    // The language or datatype of an object id, and its string.
    ghost predicate IsTagged(oid: ObjectId, mask: nat, list: seq<Str>)
      reads heap`strings, tmp`idToStr
    {
      && mask <= TypeOf(oid) <= mask + MOD_TMP && Readable(TypeOf(oid) - mask, oid % P44)
      && (ValueOf(oid) / P44 < |list| || ValueOf(oid) / P44 == LAST_TMP_TAG)
    }

    ghost function TaggedText(oid: ObjectId, mask: nat): (s: Str)
      requires TypeOf(oid) >= mask
      reads heap`strings, tmp`idToStr
    {
      Content(TypeOf(oid) - mask, oid % P44, TAGGED_INLINE_BYTES)
    }

    // The object id of a string with a tag: the number of the tag in the catalog, or 0xFFF and the tag behind the
    // string, after the separator.
    ghost predicate PacksTagged(name: Str, str: Str, list: seq<Str>, separator: byte, mask: nat, oid: ObjectId)
      reads heap`strings, tmp`idToStr
    {
      var tag := ValueOf(oid) / P44;
      && (if name in list then tag < |list| && list[tag] == name else tag == 0xFFF)
      && mask <= TypeOf(oid)
      && Placed(if name in list then str else str + [separator] + name, 5, TypeOf(oid) - mask, oid % P44)
    }

    // One string with one tag has one object id. Different ones have different ids, but for tags that are not in
    // the catalog and contain the separator, which may make up one text.
    lemma OneTaggedId(name: Str, str: Str, a: ObjectId, name': Str, str': Str, b: ObjectId, list: seq<Str>,
        separator: byte, mask: nat)
      requires Valid() && Catalogued(list) && separator != 0
      requires NulFree(name) && NulFree(str) && NulFree(name') && NulFree(str')
      requires PacksTagged(name, str, list, separator, mask, a) && PacksTagged(name', str', list, separator, mask, b)
      ensures a == b <==>
              if name in list || name' in list then (name, str) == (name', str')
              else str + [separator] + name == str' + [separator] + name'
      ensures separator !in name && separator !in name' ==> (a == b <==> (name, str) == (name', str'))
    {
      NulFreeTag(str, separator, name);
      NulFreeTag(str', separator, name');
      FieldsOf(a, P44);
      FieldsOf(b, P44);
      hide Valid, Placed, NulFree;
      var text := if name in list then str else str + [separator] + name;
      var text' := if name' in list then str' else str' + [separator] + name';
      OnePlace(text, text', 5, TypeOf(a) - mask, a % P44, TypeOf(b) - mask, b % P44);
      if separator !in name && separator !in name' {
        SplitOnce(str, name, str', name', separator);
      }
    }

    // A language or datatype that is not in the catalog is put behind the string, after a separator.
    method PackTagged(name: Str, str: Str, list: seq<Str>, separator: byte, mask: nat) returns (oid: ObjectId)
      requires Valid() && |tmp.idToStr| < P44 && Catalogued(list)
      modifies tmp
      ensures Valid() && IsTagged(oid, mask, list) && PacksTagged(name, str, list, separator, mask, oid)
      ensures old(tmp.idToStr) <= tmp.idToStr && |tmp.idToStr| <= |old(tmp.idToStr)| + 1
      ensures var text := if name in list then str else str + [separator] + name;
              NulFree(text) ==> TaggedText(oid, mask) == text
      ensures var tag := ValueOf(oid) / P44;
              if name in list then tag < |list| && list[tag] == name else tag == LAST_TMP_TAG
    {
      hide StringManager.Valid, TmpManager.Valid, IriPrefixes.IriPrefixes.Valid;
      var tag := GetTag(list, name);
      var text := if tag == LAST_TMP_TAG then str + [separator] + name else str;
      var mod, low := PackText(text, TAGGED_INLINE_BYTES);
      InlineSizes();
      oid := Compose(mask + mod, tag, P44, low);
      Fields(mask + mod, tag, P44, low);
    }

    // Both parts, the name first. The source throws if the separator of a name that is not in the catalog is
    // missing.
    method UnpackTagged(oid: ObjectId, list: seq<Str>, separator: byte, mask: nat) returns (parts: Option<(Str, Str)>)
      requires Valid() && IsTagged(oid, mask, list) && |list| <= LAST_TMP_TAG
      requires NulFree(TaggedText(oid, mask))
      ensures parts.None? <==> ValueOf(oid) / P44 == LAST_TMP_TAG && separator !in TaggedText(oid, mask)
      ensures var tag, text := ValueOf(oid) / P44, TaggedText(oid, mask);
              parts.Some? ==>
                if tag == LAST_TMP_TAG
                then parts.value.1 + [separator] + parts.value.0 == text && separator !in parts.value.0
                else parts.value.0 == list[tag] && parts.value.1 == text
    {
      hide StringManager.Valid, TmpManager.Valid, IriPrefixes.IriPrefixes.Valid;
      var mod := TypeOf(oid) - mask;
      LowDigits(oid, TAGGED_INLINE_BYTES);
      var str := UnpackText(mod, oid, oid % P44, TAGGED_INLINE_BYTES);
      var tag := ValueOf(oid) / P44;
      if tag == LAST_TMP_TAG {
        if separator !in str {
          return None;
        }
        var found := FindLastOf(str, separator);
        parts := Some((str[found + 1..], str[..found]));
      } else {
        parts := Some((list[tag], str));
      }
    }

    lemma CatalogSizes()
      requires Valid()
      ensures Catalogued(languages) && Catalogued(datatypes)
      ensures |languages| <= LAST_TMP_TAG && |datatypes| <= LAST_TMP_TAG
    {}

    // Packing and unpacking a string with a tag gives both back, exactly if the tag is in the catalog or has no
    // separator in it.
    method TagRoundTrip(name: Str, str: Str, list: seq<Str>, separator: byte, mask: nat)
      returns (parts: Option<(Str, Str)>)
      requires Valid() && |tmp.idToStr| < P44 && Catalogued(list) && |list| <= LAST_TMP_TAG
      requires NulFree(name) && NulFree(str) && separator != 0
      modifies tmp
      ensures parts.Some? && (parts.value == (name, str) <==> name in list || separator !in name)
    {
      NulFreeTag(str, separator, name);
      hide *;
      var oid := PackTagged(name, str, list, separator, mask);
      parts := UnpackTagged(oid, list, separator, mask);
      PartsOf(list, name, str, separator, ValueOf(oid) / P44, TaggedText(oid, mask), parts);
    }

    method LangRoundTrip(lang: Str, str: Str) returns (parts: Option<(Str, Str)>)
      requires Valid() && |tmp.idToStr| < P44 && NulFree(lang) && NulFree(str)
      modifies tmp
      ensures parts.Some? && (parts.value == (lang, str) <==> lang in languages || AT !in lang)
    {
      CatalogSizes();
      hide Valid, Catalogued, NulFree;
      parts := TagRoundTrip(lang, str, languages, AT, MASK_STRING_LANG);
    }

    method DatatypeRoundTrip(datatype_: Str, str: Str) returns (parts: Option<(Str, Str)>)
      requires Valid() && |tmp.idToStr| < P44 && NulFree(datatype_) && NulFree(str)
      modifies tmp
      ensures parts.Some? && (parts.value == (datatype_, str) <==> datatype_ in datatypes || CARET !in datatype_)
    {
      CatalogSizes();
      hide Valid, Catalogued, NulFree;
      parts := TagRoundTrip(datatype_, str, datatypes, CARET, MASK_STRING_DATATYPE);
    }

    method PackStringLang(lang: Str, str: Str) returns (oid: ObjectId)
      requires Valid() && |tmp.idToStr| < P44
      modifies tmp
      ensures Valid() && PacksTagged(lang, str, languages, 0x40, 0x48, oid)
      ensures old(tmp.idToStr) <= tmp.idToStr && |tmp.idToStr| <= |old(tmp.idToStr)| + 1
    {
      CatalogSizes();
      hide Valid, Catalogued;
      oid := PackTagged(lang, str, languages, AT, MASK_STRING_LANG);
    }

    method PackStringDatatype(datatype_: Str, str: Str) returns (oid: ObjectId)
      requires Valid() && |tmp.idToStr| < P44
      modifies tmp
      ensures Valid() && PacksTagged(datatype_, str, datatypes, 0x5E, 0x4C, oid)
      ensures old(tmp.idToStr) <= tmp.idToStr && |tmp.idToStr| <= |old(tmp.idToStr)| + 1
    {
      CatalogSizes();
      hide Valid, Catalogued;
      oid := PackTagged(datatype_, str, datatypes, CARET, MASK_STRING_DATATYPE);
    }

    // Object ids stay what they are while other terms are packed.
    twostate lemma IdsStay()
      requires old(tmp.idToStr) <= tmp.idToStr && heap.strings == old(heap.strings)
      requires prefixes.prefixes == old(prefixes.prefixes)
      ensures forall str, oid :: old(PacksIri(str, oid)) ==> PacksIri(str, oid)
      ensures forall str, oid :: old(PacksString(str, oid)) ==> PacksString(str, oid)
      ensures forall lang, str, oid :: old(PacksTagged(lang, str, languages, 0x40, 0x48, oid)) ==>
                PacksTagged(lang, str, languages, 0x40, 0x48, oid)
    {
      hide Known, SameText, Text;
    }

    // Two IRIs packed one after the other have one object id exactly if they are equal.
    method PackIris(s: Str, t: Str) returns (a: ObjectId, b: ObjectId)
      requires Valid() && |tmp.idToStr| + 1 < P44 && NulFree(s) && NulFree(t)
      modifies tmp
      ensures Valid() && PacksIri(s, a) && PacksIri(t, b) && (a == b <==> s == t)
    {
      hide Valid, IsIri, IriOf, PacksIri, PacksString, PacksTagged;
      a := PackIri(s);
      label first:
      b := PackIri(t);
      IdsStay@first();
      OneIriId(s, a, t, b);
    }

    method PackStrings(s: Str, t: Str) returns (a: ObjectId, b: ObjectId)
      requires Valid() && |tmp.idToStr| + 1 < P44 && NulFree(s) && NulFree(t)
      modifies tmp
      ensures Valid() && PacksString(s, a) && PacksString(t, b) && (a == b <==> s == t)
    {
      hide Valid, IsString, StringOf, PacksIri, PacksString, PacksTagged;
      a := PackStringSimple(s);
      label first:
      b := PackStringSimple(t);
      IdsStay@first();
      OneStringId(s, a, t, b);
    }
  }

  lemma NulFreeTag(str: Str, separator: byte, name: Str)
    requires NulFree(str) && NulFree(name) && separator != 0
    ensures NulFree(str + [separator] + name)
  {}

  // What splitting the text of a tagged string at its last separator finds.
  lemma PartsOf(list: seq<Str>, name: Str, str: Str, separator: byte, tag: nat, text: Str, parts: Option<(Str, Str)>)
    requires text == if name in list then str else str + [separator] + name
    requires if name in list then tag < |list| && list[tag] == name else tag == LAST_TMP_TAG
    requires |list| <= LAST_TMP_TAG
    requires parts.None? <==> tag == LAST_TMP_TAG && separator !in text
    requires parts.Some? ==>
               if tag == LAST_TMP_TAG
               then parts.value.1 + [separator] + parts.value.0 == text && separator !in parts.value.0
               else parts.value.0 == list[tag] && parts.value.1 == text
    ensures parts.Some? && (parts.value == (name, str) <==> name in list || separator !in name)
  {
    if name !in list {
      assert text[|str|] == separator;
      SplitOnce(str, name, parts.value.1, parts.value.0, separator);
    }
  }

  lemma NulFreeParts(a: Str, b: Str)
    ensures NulFree(a + b) <==> NulFree(a) && NulFree(b)
  {}

  lemma EmptyInline(n: nat)
    ensures Text(Inliner.BigEndian(0, n)) == []
  {
    Inliner.ZeroNumber(n);
    Inliner.InlineRoundTrip([], n);
  }

  lemma WholeValue(mask: nat, low: nat)
    requires low < P56
    ensures TypeOf(mask * P56 + low) == mask && (mask * P56 + low) % P56 == low
    ensures low < P44 ==> (mask * P56 + low) % P44 == low
  {
    DivModUnique(mask, low, P56);
    if low < P44 {
      DivModUnique(mask * 0x1000, low, P44);
    }
  }

  // The position of the last occurrence of a byte.
  method FindLastOf(s: Str, c: byte) returns (found: nat)
    requires c in s
    ensures found < |s| && s[found] == c && c !in s[found + 1..]
  {
    var i := |s|;
    while s[i - 1] != c
      invariant 0 < i <= |s| && c !in s[i..] && c in s[..i]
      decreases i
    {
      assert s[..i] == s[..i - 1] + [s[i - 1]];
      assert s[i - 1..] == [s[i - 1]] + s[i..];
      i := i - 1;
    }
    found := i - 1;
  }

  // A string is split at its last separator in one way only.
  lemma SplitOnce(a: Str, b: Str, c: Str, d: Str, separator: byte)
    ensures a + [separator] + b == c + [separator] + d && separator !in d ==>
              ((d, c) == (b, a) <==> separator !in b)
  {
    if a + [separator] + b == c + [separator] + d {
      OtherSplit(a, b, c, d, separator);
      OtherSplit(c, d, a, b, separator);
      if |a| == |c| {
        var s := a + [separator] + b;
        assert a == s[..|a|] == c && b == s[|a| + 1..] == d;
      }
    }
  }

  // A later separator lies in the part behind an earlier one.
  lemma OtherSplit(a: Str, b: Str, c: Str, d: Str, separator: byte)
    requires a + [separator] + b == c + [separator] + d
    ensures |a| < |c| ==> separator in b
  {
    if |a| < |c| {
      var s := a + [separator] + b;
      assert s[|c|] == (c + [separator] + d)[|c|] == separator;
      assert b[|c| - |a| - 1] == s[|c|];
    }
  }

  // An id below 2^44 is not disturbed by the bits above it.
  lemma LowBits(oid: ObjectId, low: nat)
    requires oid % P48 == low
    ensures low < P44 ==> oid % P44 == low
  {
    var q := oid / P48;
    assert oid == q * 16 * P44 + low;
    if low < P44 {
      DivModUnique(q * 16, low, P44);
    }
  }

  // The bytes of an inlined text are the low bytes of the object id.
  lemma LowDigits(oid: ObjectId, n: nat)
    ensures n == IRI_INLINE_BYTES ==> Inliner.BigEndian(oid, n) == Inliner.BigEndian(oid % P48, n)
    ensures n == STR_INLINE_BYTES ==> Inliner.BigEndian(oid, n) == Inliner.BigEndian(oid % P56, n)
    ensures n == TAGGED_INLINE_BYTES ==> Inliner.BigEndian(oid, n) == Inliner.BigEndian(oid % P44, n)
  {
    InlineSizes();
    if n == IRI_INLINE_BYTES {
      Inliner.BigEndianLow(oid % P48, oid / P48, n);
    } else if n == STR_INLINE_BYTES {
      Inliner.BigEndianLow(oid % P56, oid / P56, n);
    } else if n == TAGGED_INLINE_BYTES {
      Inliner.BigEndianLow(oid % P44, oid / P44 * 16, n);
      Regroup(oid / P44, 16, Pow256(n));
      DivideBack(oid, P44);
    }
  }

  lemma Regroup(a: nat, b: nat, c: nat)
    ensures a * b * c == a * (c * b)
  {}

  lemma {:induction false} TextOfText(s: Str)
    ensures NulFree(Text(s)) && Text(Text(s)) == Text(s)
    ensures NulFree(s) ==> Text(s) == s
  {
    TextOfNulFree(s);
    TextIsNulFree(s);
    TextOfNulFree(Text(s));
  }

  lemma {:induction false} TextIsNulFree(s: Str)
    ensures NulFree(Text(s))
  {
    if s != [] && s[0] != 0 {
      TextIsNulFree(s[1..]);
    }
  }
}

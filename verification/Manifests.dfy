/**
 Plugin manifests: loading the directory that holds them, and noticing that it changed
 (src/plugin/manifest.rs). A listing is what `read_dir` yields; nothing is known about its order.
 */
module Manifests {
  import opened Bytes
  import opened Options
  import opened Text
  import opened Sorting

  datatype Manifest = Manifest(
    pluginId: string,
    name: string,
    expectedPath: string,
    expectedSha256: Option<string>,
    expectedSigner: Option<string>,
    revoked: bool,
    autoLaunch: bool)

  type Store = map<string, Manifest>

  /** A file: its time stamp and size, if they can be had, and the manifest it holds, if it parses as one. */
  datatype FileInfo = FileInfo(stat: Option<(nat, nat)>, manifest: Option<Manifest>)

  type Entry = Named<FileInfo>

  /** `None` stands for an entry, or for a whole directory, that cannot be read. */
  type Listing = Option<seq<Option<Entry>>>

  predicate IsJson(name: string) {
    |name| > 5 && EndsWith(name, ".json")
  }

  function LoadOne(e: Entry): (m: Option<Manifest>)
    requires IsJson(e.name)
    ensures m.Some? ==> m == e.value.manifest
    ensures m.Some? <==>
      && e.value.manifest.Some? && e.name == e.value.manifest.value.pluginId + ".json"
      && (e.value.manifest.value.expectedSha256.Some? || e.value.manifest.value.expectedSigner.Some?)
  {
    var stem := e.name[..|e.name| - 5];
    if e.value.manifest.None? then None
    else if stem != e.value.manifest.value.pluginId then None
    else if e.value.manifest.value.expectedSha256.None? && e.value.manifest.value.expectedSigner.None? then None
    else e.value.manifest
  }

  predicate Enrols(e: Entry, id: string) {
    IsJson(e.name) && LoadOne(e).Some? && LoadOne(e).value.pluginId == id
  }

  /** Which files enrol a plugin, in terms of their name and what is in them. */
  lemma EnrolsExactlyWhen(e: Entry, id: string)
    ensures Enrols(e, id) <==>
      && id != "" && e.name == id + ".json"
      && e.value.manifest.Some?
      && var m := e.value.manifest.value;
      && m.pluginId == id && (m.expectedSha256.Some? || m.expectedSigner.Some?)
  {
    if e.name == id + ".json" {
      assert e.name[|e.name| - 5..] == ".json" && e.name[..|e.name| - 5] == id;
    }
  }

  predicate Readable(listing: Listing) {
    listing.Some? && None !in listing.value
  }

  function Entries(listing: Listing): (r: seq<Entry>)
    requires Readable(listing)
    ensures |r| == |listing.value|
  {
    seq(|listing.value|, i requires 0 <= i < |listing.value| => listing.value[i].value)
  }

  /** The plugins some file enrols, each with the first file that does. */
  ghost predicate FirstOfEach(entries: seq<Entry>, store: Store) {
    && (forall id | id in store :: exists i :: 0 <= i < |entries| && Enrols(entries[i], id))
    && (forall i, id | 0 <= i < |entries| && Enrols(entries[i], id) :: id in store)
    && (forall i, id | 0 <= i < |entries| && Enrols(entries[i], id) && (forall j | 0 <= j < i :: !Enrols(entries[j], id))
          :: store[id] == LoadOne(entries[i]).value)
  }

  predicate KeyedById(store: Store) {
    forall id | id in store :: store[id].pluginId == id
  }

  /** What is loaded is kept under the id it declares. */
  lemma LoadedByItsId(entries: seq<Entry>, store: Store)
    requires FirstOfEach(entries, store)
    ensures KeyedById(store)
  {
    hide LoadOne, IsJson;
    forall id | id in store
      ensures store[id].pluginId == id
    {
      var k := FirstThatEnrols(entries, store, id);
    }
  }

  lemma FirstThatEnrols(entries: seq<Entry>, store: Store, id: string) returns (k: nat)
    requires FirstOfEach(entries, store) && id in store
    ensures k < |entries| && Enrols(entries[k], id) && store[id] == LoadOne(entries[k]).value
  {
    hide Enrols, LoadOne;
    var i :| 0 <= i < |entries| && Enrols(entries[i], id);
    k := FirstAmong(entries, id, i);
  }

  lemma FirstAmong(entries: seq<Entry>, id: string, i: nat) returns (k: nat)
    requires i < |entries| && Enrols(entries[i], id)
    ensures k < |entries| && Enrols(entries[k], id) && forall j | 0 <= j < k :: !Enrols(entries[j], id)
  {
    hide Enrols;
    k := 0;
    while !Enrols(entries[k], id)
      invariant k <= i && forall j | 0 <= j < k :: !Enrols(entries[j], id)
      decreases i - k
    {
      k := k + 1;
    }
  }

  lemma SkippedFile(entries: seq<Entry>, e: Entry, store: Store)
    requires FirstOfEach(entries, store)
    requires forall id | Enrols(e, id) :: id in store
    ensures FirstOfEach(entries + [e], store)
  {
    var more := entries + [e];
    assert forall i | 0 <= i < |entries| :: more[i] == entries[i];
    forall id | id in store
      ensures exists i :: 0 <= i < |more| && Enrols(more[i], id)
    {
      var i :| 0 <= i < |entries| && Enrols(entries[i], id);
      assert Enrols(more[i], id);
    }
    forall i, id | 0 <= i < |more| && Enrols(more[i], id) && (forall j | 0 <= j < i :: !Enrols(more[j], id))
      ensures store[id] == LoadOne(more[i]).value
    {
      if i < |entries| {
        assert forall j | 0 <= j < i :: !Enrols(more[j], id) && more[j] == entries[j];
      }
    }
  }

  lemma EnrolledFile(entries: seq<Entry>, e: Entry, id: string, store: Store)
    requires FirstOfEach(entries, store) && Enrols(e, id) && id !in store
    ensures FirstOfEach(entries + [e], store[id := LoadOne(e).value])
  {
    var (more, store') := (entries + [e], store[id := LoadOne(e).value]);
    assert forall i | 0 <= i < |entries| :: more[i] == entries[i];
    assert Enrols(more[|entries|], id);
    hide Enrols, LoadOne, IsJson;
    forall id' | id' in store'
      ensures exists i :: 0 <= i < |more| && Enrols(more[i], id')
    {
      if id' in store {
        var i :| 0 <= i < |entries| && Enrols(entries[i], id');
        assert Enrols(more[i], id');
      }
    }
    forall i, id' | 0 <= i < |more| && Enrols(more[i], id')
      ensures id' in store'
      ensures (forall j | 0 <= j < i :: !Enrols(more[j], id')) ==> store'[id'] == LoadOne(more[i]).value
    {
      EnrolledAmong(entries, e, id, store, i, id');
    }
  }

  lemma EnrolledAmong(entries: seq<Entry>, e: Entry, id: string, store: Store, i: nat, id': string)
    requires FirstOfEach(entries, store) && Enrols(e, id) && id !in store
    requires i <= |entries| && Enrols((entries + [e])[i], id')
    ensures id' in store || id' == id
    ensures (forall j | 0 <= j < i :: !Enrols((entries + [e])[j], id')) ==>
      store[id := LoadOne(e).value][id'] == LoadOne((entries + [e])[i]).value
  {
    EnrolsOne(e, id);
    hide Enrols, LoadOne, IsJson;
    var more := entries + [e];
    assert forall j | 0 <= j < |entries| :: more[j] == entries[j];
    if i < |entries| {
      assert Enrols(entries[i], id') && id' != id;
    }
  }

  lemma EnrolsOne(e: Entry, id: string)
    requires Enrols(e, id)
    ensures forall id' :: Enrols(e, id') <==> id' == id
  {
  }

  /** A file enrols at most the plugin it is named after. */
  lemma FileNamesItsPlugin(e: Entry, f: Entry, id: string)
    requires Enrols(e, id) && Enrols(f, id)
    ensures e.name == f.name == id + ".json"
  {
  }

  method LoadDir(listing: Listing) returns (result: Option<Store>, duplicates: nat)
    ensures result.Some? <==> Readable(listing)
    ensures result.Some? ==> FirstOfEach(Entries(listing), result.value)
    ensures result.Some? && Distinct(Entries(listing)) ==> duplicates == 0
  {
    hide FirstOfEach, Distinct, IsJson;
    var byId: Store := map[];
    duplicates := 0;
    NothingLoaded();
    if listing.None? {
      return None, 0;
    }
    var i := 0;
    ghost var entries: seq<Entry> := [];
    while i < |listing.value|
      invariant 0 <= i <= |listing.value| && None !in listing.value[..i]
      invariant |entries| == i && forall j | 0 <= j < i :: entries[j] == listing.value[j].value
      invariant FirstOfEach(entries, byId)
      invariant Distinct(entries) ==> duplicates == 0
    {
      if listing.value[i].None? {
        return None, duplicates;
      }
      var e := listing.value[i].value;
      var m := if IsJson(e.name) then LoadOne(e) else None;
      if m.Some? && m.value.pluginId !in byId {
        EnrolledFile(entries, e, m.value.pluginId, byId);
        byId := byId[m.value.pluginId := m.value];
      } else {
        if m.Some? {
          duplicates := duplicates + 1;
          NameIsTaken(entries, e, m.value.pluginId, byId);
        }
        SkippedFile(entries, e, byId);
      }
      DistinctBefore(entries, e);
      entries := entries + [e];
      i := i + 1;
    }
    assert entries == Entries(listing);
    return Some(byId), duplicates;
  }

  lemma NothingLoaded()
    ensures FirstOfEach([], map[])
  {
  }

  lemma DistinctBefore(entries: seq<Entry>, e: Entry)
    ensures Distinct(entries + [e]) ==> Distinct(entries)
  {
    assert forall j | 0 <= j < |entries| :: (entries + [e])[j] == entries[j];
  }

  lemma NameIsTaken(entries: seq<Entry>, e: Entry, id: string, store: Store)
    requires FirstOfEach(entries, store) && Enrols(e, id) && id in store
    ensures !Distinct(entries + [e])
  {
    var i :| 0 <= i < |entries| && Enrols(entries[i], id);
    FileNamesItsPlugin(entries[i], e, id);
    assert (entries + [e])[i].name == (entries + [e])[|entries|].name;
  }

  /** In a directory, where names are distinct, the order of the listing does not matter. */
  lemma LoadingIgnoresOrder(s: seq<Entry>, t: seq<Entry>, a: Store, b: Store)
    requires Distinct(s) && multiset(s) == multiset(t) && FirstOfEach(s, a) && FirstOfEach(t, b)
    ensures a == b
  {
    DistinctByMultiset(s, t);
    SameElements(s, t);
    LoadedFromTheOther(s, t, a, b);
    LoadedFromTheOther(t, s, b, a);
  }

  lemma LoadedFromTheOther(s: seq<Entry>, t: seq<Entry>, a: Store, b: Store)
    requires Distinct(s) && Distinct(t) && (forall e :: e in s <==> e in t) && FirstOfEach(s, a) && FirstOfEach(t, b)
    ensures forall id | id in a :: id in b && a[id] == b[id]
  {
    hide Distinct, Enrols;
    forall id | id in a
      ensures id in b && a[id] == b[id]
    {
      var i :| 0 <= i < |s| && Enrols(s[i], id);
      assert s[i] in t;
      var j :| 0 <= j < |t| && t[j] == s[i];
      OnlyOneEnrols(s, i, id);
      OnlyOneEnrols(t, j, id);
    }
  }

  lemma OnlyOneEnrols(s: seq<Entry>, i: nat, id: string)
    requires Distinct(s) && i < |s| && Enrols(s[i], id)
    ensures forall j | 0 <= j < i :: !Enrols(s[j], id)
  {
    forall j | 0 <= j < i
      ensures !Enrols(s[j], id)
    {
      assert s[j].name != s[i].name;
      if Enrols(s[j], id) {
        FileNamesItsPlugin(s[i], s[j], id);
      }
    }
  }

  // The fingerprint: FNV-1a over the names, time stamps and sizes, in name order.

  type Word = bv64

  const OFFSET_BASIS: Word := 0xcbf2_9ce4_8422_2325

  function TimesPrime(x: Word): Word {
    x * 0x100_0000_01b3
  }

  function Xor(h: Word, b: Byte): Word {
    h ^ (b as Word)
  }

  function Mix(h: Word, b: Byte): Word {
    TimesPrime(Xor(h, b))
  }

  function Fnv(h: Word, bytes: seq<Byte>): Word
    decreases |bytes|
  {
    if bytes == [] then h else Fnv(Mix(h, bytes[0]), bytes[1..])
  }

  datatype Stamp = Stamp(modified: nat, size: nat)

  /** The files that go into the fingerprint. */
  function Stamps(listing: seq<Option<Entry>>): (r: seq<Named<Stamp>>) {
    if listing == [] then []
    else
      var e := listing[0];
      (if e.Some? && IsJson(e.value.name) && e.value.value.stat.Some?
       then [Named(e.value.name, Stamp(e.value.value.stat.value.0, e.value.value.stat.value.1))] else [])
      + Stamps(listing[1..])
  }

  function StampBytes(s: Named<Stamp>, utf8: string -> seq<Byte>): seq<Byte> {
    utf8(s.name) + LittleEndian(s.value.modified, 16) + LittleEndian(s.value.size, 8)
  }

  function AllBytes(stamps: seq<Named<Stamp>>, utf8: string -> seq<Byte>): seq<Byte> {
    if stamps == [] then [] else StampBytes(stamps[0], utf8) + AllBytes(stamps[1..], utf8)
  }

  lemma {:induction false} FnvConcat(h: Word, s: seq<Byte>, t: seq<Byte>)
    ensures Fnv(h, s + t) == Fnv(Fnv(h, s), t)
    decreases |s|
  {
    hide Mix;
    if s == [] {
      assert s + t == t;
    } else {
      assert (s + t)[1..] == s[1..] + t;
      FnvConcat(Mix(h, s[0]), s[1..], t);
    }
  }

  method Fold(h0: Word, bytes: seq<Byte>) returns (h: Word)
    ensures h == Fnv(h0, bytes)
  {
    hide Mix;
    h := h0;
    for i := 0 to |bytes|
      invariant Fnv(h, bytes[i..]) == Fnv(h0, bytes)
    {
      assert bytes[i..][1..] == bytes[i + 1..];
      h := Mix(h, bytes[i]);
    }
  }

  /** What is hashed together, of a directory that can be listed. */
  function Fingerprint(entries: seq<Option<Entry>>, utf8: string -> seq<Byte>): Word {
    Fnv(OFFSET_BASIS, AllBytes(SortByName(Stamps(entries)), utf8))
  }

  method DirectoryFingerprint(listing: Listing, utf8: string -> seq<Byte>) returns (h: Word)
    ensures listing.None? ==> h == 0
    ensures listing.Some? ==> h == Fingerprint(listing.value, utf8)
  {
    if listing.None? {
      return 0;
    }
    var tuples: seq<Named<Stamp>> := [];
    var i := 0;
    while i < |listing.value|
      invariant 0 <= i <= |listing.value|
      invariant tuples + Stamps(listing.value[i..]) == Stamps(listing.value)
    {
      var e := listing.value[i];
      assert listing.value[i..][1..] == listing.value[i + 1..];
      if e.Some? && IsJson(e.value.name) && e.value.value.stat.Some? {
        tuples := tuples + [Named(e.value.name, Stamp(e.value.value.stat.value.0, e.value.value.stat.value.1))];
      }
      i := i + 1;
    }
    assert tuples == Stamps(listing.value);
    tuples := SortByName(tuples);
    h := OFFSET_BASIS;
    for k := 0 to |tuples|
      invariant Fnv(h, AllBytes(tuples[k..], utf8)) == Fnv(OFFSET_BASIS, AllBytes(tuples, utf8))
    {
      hide SortByName, Mix, Stamps;
      var (s, rest) := (tuples[k], tuples[k + 1..]);
      assert tuples[k..][1..] == rest;
      FnvConcat(h, StampBytes(s, utf8), AllBytes(rest, utf8));
      FnvConcat(h, utf8(s.name) + LittleEndian(s.value.modified, 16), LittleEndian(s.value.size, 8));
      FnvConcat(h, utf8(s.name), LittleEndian(s.value.modified, 16));
      h := Fold(h, utf8(s.name));
      h := Fold(h, LittleEndian(s.value.modified, 16));
      h := Fold(h, LittleEndian(s.value.size, 8));
    }
  }

  // What the fingerprint tells apart.

  /** The inverse of the prime, which is odd, modulo 2^64. */
  function TimesInverse(x: Word): Word {
    x * 0xce96_5057_aff6_957b
  }

  lemma InverseOfPrime(x: Word)
    ensures TimesInverse(x * 0x100_0000_01b3) == x
  {
  }

  lemma PrimeIsInvertible(x: Word)
    ensures TimesInverse(TimesPrime(x)) == x
  {
    hide TimesInverse;
    InverseOfPrime(x);
  }

  lemma XorIsInjective(h: Word, g: Word, b: Byte, c: Byte)
    ensures Xor(h, b) == Xor(g, b) ==> h == g
    ensures Xor(h, b) == Xor(h, c) ==> b == c
  {
  }

  /** No two states of the hash are mixed into one, and no two bytes. */
  lemma MixIsInjective(h: Word, g: Word, b: Byte, c: Byte)
    ensures Mix(h, b) == Mix(g, b) ==> h == g
    ensures Mix(h, b) == Mix(h, c) ==> b == c
  {
    hide TimesPrime, TimesInverse, Xor;
    PrimeIsInvertible(Xor(h, b));
    PrimeIsInvertible(Xor(g, b));
    PrimeIsInvertible(Xor(h, c));
    XorIsInjective(h, g, b, c);
  }

  lemma {:induction false} SameTail(h: Word, g: Word, tail: seq<Byte>)
    ensures Fnv(h, tail) == Fnv(g, tail) <==> h == g
    decreases |tail|
  {
    if tail != [] {
      MixIsInjective(h, g, tail[0], tail[0]);
      hide Mix;
      SameTail(Mix(h, tail[0]), Mix(g, tail[0]), tail[1..]);
    }
  }

  /** An edit is noticed exactly if the hash tells the edited stretch apart where it stands. */
  lemma LocalEdit(h: Word, before: seq<Byte>, was: seq<Byte>, now: seq<Byte>, behind: seq<Byte>)
    ensures Fnv(h, before + was + behind) == Fnv(h, before + now + behind)
       <==> Fnv(Fnv(h, before), was) == Fnv(Fnv(h, before), now)
  {
    FnvConcat(h, before + was, behind);
    FnvConcat(h, before + now, behind);
    FnvConcat(h, before, was);
    FnvConcat(h, before, now);
    SameTail(Fnv(h, before + was), Fnv(h, before + now), behind);
  }

  /** A change of a single byte, of a name, a time stamp or a size, never goes unnoticed. */
  lemma OneByteIsNoticed(h: Word, s: seq<Byte>, k: nat, b: Byte)
    requires k < |s| && s[k] != b
    ensures Fnv(h, s) != Fnv(h, s[k := b])
  {
    var (front, back) := (s[..k], s[k + 1..]);
    var g := Fnv(h, front);
    assert s == front + ([s[k]] + back) && s[k := b] == front + ([b] + back);
    FnvConcat(h, front, [s[k]] + back);
    FnvConcat(h, front, [b] + back);
    FnvConcat(g, [s[k]], back);
    FnvConcat(g, [b], back);
    assert Fnv(g, [s[k]]) == Mix(g, s[k]) && Fnv(g, [b]) == Mix(g, b);
    MixIsInjective(g, g, s[k], b);
    SameTail(Mix(g, s[k]), Mix(g, b), back);
  }

  // In terms of the files of a directory.

  /** The bytes an unsigned number of this width is hashed as. */
  ghost predicate AreBytesOf(s: seq<Byte>, n: nat, width: nat) {
    |s| == width && LittleValue(s) == n
  }

  lemma BytesAreDetermined(s: seq<Byte>, n: nat, width: nat)
    requires AreBytesOf(s, n, width) && n < Pow256(width)
    ensures s == LittleEndian(n, width)
  {
    LittleEndianIsTheNumber(n, width);
    LittleValueIsInjective(s, LittleEndian(n, width));
  }

  /** A file that counts: its name, its time stamp (128 bits) and its size (64 bits). */
  predicate IsStamped(e: Option<Entry>, name: string, modified: nat, size: nat) {
    && e.Some? && e.value.name == name && IsJson(name) && e.value.value.stat == Some((modified, size))
    && modified < 0x1_0000_0000_0000_0000_0000_0000_0000_0000 && size < 0x1_0000_0000_0000_0000
  }

  /** The files of `entries` that sort before `name`, in any order. */
  ghost predicate AreEarlier(earlier: seq<Option<Entry>>, entries: seq<Option<Entry>>, name: string) {
    Distinct(Stamps(earlier))
    && forall s :: s in Stamps(earlier) <==> s in Stamps(entries) && LexLess(s.name, name)
  }

  lemma {:induction false} AllBytesConcat(s: seq<Named<Stamp>>, t: seq<Named<Stamp>>, utf8: string -> seq<Byte>)
    ensures AllBytes(s + t, utf8) == AllBytes(s, utf8) + AllBytes(t, utf8)
  {
    hide StampBytes;
    if s == [] {
      assert s + t == t;
    } else {
      assert (s + t)[1..] == s[1..] + t;
      AllBytesConcat(s[1..], t, utf8);
    }
  }

  /** One file among others, in terms of what is hashed for it. */
  lemma OneStampEdited(before: seq<Named<Stamp>>, was: Named<Stamp>, now: Named<Stamp>, behind: seq<Named<Stamp>>,
                       utf8: string -> seq<Byte>)
    ensures var h := Fnv(OFFSET_BASIS, AllBytes(before, utf8));
      Fnv(OFFSET_BASIS, AllBytes(before + [was] + behind, utf8)) == Fnv(OFFSET_BASIS, AllBytes(before + [now] + behind, utf8))
      <==> Fnv(h, StampBytes(was, utf8)) == Fnv(h, StampBytes(now, utf8))
  {
    hide StampBytes;
    AllBytesOfOne(was, utf8);
    AllBytesOfOne(now, utf8);
    AllBytesConcat(before, [was], utf8);
    AllBytesConcat(before, [now], utf8);
    AllBytesConcat(before + [was], behind, utf8);
    AllBytesConcat(before + [now], behind, utf8);
    hide AllBytes, Fnv;
    LocalEdit(OFFSET_BASIS, AllBytes(before, utf8), StampBytes(was, utf8), StampBytes(now, utf8), AllBytes(behind, utf8));
  }

  lemma AllBytesOfOne(s: Named<Stamp>, utf8: string -> seq<Byte>)
    ensures AllBytes([s], utf8) == StampBytes(s, utf8)
  {
    hide StampBytes;
    assert StampBytes(s, utf8) + [] == StampBytes(s, utf8);
  }

  lemma SameReplacement<T>(s: seq<T>, r: seq<T>, k: nat, i: nat, x: T)
    requires multiset(s) == multiset(r) && k < |s| && i < |r| && s[k] == r[i]
    ensures multiset(s[k := x]) == multiset(r[i := x])
  {
    assert multiset(s[k := x]) == multiset(s) - multiset{s[k]} + multiset{x};
    assert multiset(r[i := x]) == multiset(r) - multiset{r[i]} + multiset{x};
  }

  lemma SameNames<T>(s: seq<Named<T>>, k: nat, x: Named<T>)
    requires k < |s| && s[k].name == x.name
    ensures Distinct(s) ==> Distinct(s[k := x])
    ensures Sorted(s) ==> Sorted(s[k := x])
  {
    hide LexLess;
    var t := s[k := x];
    assert forall j | 0 <= j < |s| :: t[j].name == s[j].name;
  }

  /** Another stamp under the same name goes to the same place. */
  lemma SortedWithNew(s: seq<Named<Stamp>>, k: nat, now: Named<Stamp>) returns (i: nat)
    requires Distinct(s) && k < |s| && s[k].name == now.name
    ensures i < |SortByName(s)| && SortByName(s)[i] == s[k] && Sorted(SortByName(s))
    ensures SortByName(s[k := now]) == SortByName(s)[i := now]
  {
    hide SortByName, LexLess;
    var r := SortByName(s);
    SortSorts(s);
    assert s[k] in r;
    i :| 0 <= i < |r| && r[i] == s[k];
    SameNames(s, k, now);
    SameNames(r, i, now);
    SameReplacement(s, r, k, i, now);
    SortSorts(s[k := now]);
    hide Sorted, Distinct;
    SortedIsUnique(SortByName(s[k := now]), r[i := now]);
  }

  lemma StampAt(entries: seq<Option<Entry>>, i: nat, e: Option<Entry>, name: string, modified: nat, size: nat,
                modified': nat, size': nat) returns (k: nat)
    requires i < |entries| && IsStamped(entries[i], name, modified, size) && IsStamped(e, name, modified', size')
    ensures k < |Stamps(entries)| && Stamps(entries)[k] == Named(name, Stamp(modified, size))
    ensures Stamps(entries[i := e]) == Stamps(entries)[k := Named(name, Stamp(modified', size'))]
  {
    var (front, back) := (entries[..i], entries[i + 1..]);
    assert entries == front + ([entries[i]] + back) && entries[i := e] == front + ([e] + back);
    StampsConcat(front, [entries[i]] + back);
    StampsConcat(front, [e] + back);
    StampsConcat([entries[i]], back);
    StampsConcat([e], back);
    StampsOfOne(entries[i], name, modified, size);
    StampsOfOne(e, name, modified', size');
    k := |Stamps(front)|;
    hide Stamps;
    assert Stamps(entries[i := e]) == Stamps(entries)[k := Named(name, Stamp(modified', size'))];
  }

  lemma StampsOfOne(e: Option<Entry>, name: string, modified: nat, size: nat)
    requires IsStamped(e, name, modified, size)
    ensures Stamps([e]) == [Named(name, Stamp(modified, size))]
  {
    assert [e][1..] == [];
  }

  /** What is hashed in front of the edited file and behind it. */
  lemma EditInPlace(entries: seq<Option<Entry>>, i: nat, e: Option<Entry>, name: string, modified: nat, size: nat,
                    modified': nat, size': nat) returns (before: seq<Named<Stamp>>, behind: seq<Named<Stamp>>)
    requires Distinct(Stamps(entries))
    requires i < |entries| && IsStamped(entries[i], name, modified, size) && IsStamped(e, name, modified', size')
    ensures SortByName(Stamps(entries)) == before + [Named(name, Stamp(modified, size))] + behind
    ensures SortByName(Stamps(entries[i := e])) == before + [Named(name, Stamp(modified', size'))] + behind
    ensures Sorted(SortByName(Stamps(entries)))
  {
    var k := StampAt(entries, i, e, name, modified, size, modified', size');
    var now := Named(name, Stamp(modified', size'));
    var j := SortedWithNew(Stamps(entries), k, now);
    hide Stamps, SortByName, Sorted, Distinct, IsStamped;
    var r := SortByName(Stamps(entries));
    before, behind := r[..j], r[j + 1..];
    AroundOne(r, j, now);
  }

  lemma AroundOne<T>(r: seq<T>, j: nat, x: T)
    requires j < |r|
    ensures r == r[..j] + [r[j]] + r[j + 1..] && r[j := x] == r[..j] + [x] + r[j + 1..]
  {
  }

  /** The whole fingerprint of a directory, in terms of one of its files. */
  lemma FingerprintsDiffer(entries: seq<Option<Entry>>, now: seq<Option<Entry>>, utf8: string -> seq<Byte>,
                           before: seq<Named<Stamp>>, behind: seq<Named<Stamp>>, a: Named<Stamp>, b: Named<Stamp>,
                           x: seq<Byte>, y: seq<Byte>)
    requires SortByName(Stamps(entries)) == before + [a] + behind && SortByName(Stamps(now)) == before + [b] + behind
    requires a.name == b.name && StampBytes(a, utf8) == utf8(a.name) + x && StampBytes(b, utf8) == utf8(b.name) + y
    ensures Fingerprint(entries, utf8) == Fingerprint(now, utf8)
       <==> var h := Fnv(Fnv(OFFSET_BASIS, AllBytes(before, utf8)), utf8(a.name)); Fnv(h, x) == Fnv(h, y)
  {
    hide SortByName, Stamps, AllBytes, StampBytes, Fnv;
    OneStampEdited(before, a, b, behind, utf8);
    var h := Fnv(OFFSET_BASIS, AllBytes(before, utf8));
    FnvConcat(h, utf8(a.name), x);
    FnvConcat(h, utf8(a.name), y);
  }

  /**
   A new time stamp or size of one file goes unnoticed exactly if the hash, from where it stands after the files
   that sort before it and its name, takes the old and the new bytes to the same value.
   */
  lemma EditUnnoticedExactlyWhen(entries: seq<Option<Entry>>, i: nat, e: Option<Entry>, utf8: string -> seq<Byte>,
                                 name: string, modified: nat, size: nat, modified': nat, size': nat,
                                 m: seq<Byte>, s: seq<Byte>, m': seq<Byte>, s': seq<Byte>,
                                 earlier: seq<Option<Entry>>)
    requires Distinct(Stamps(entries))
    requires i < |entries| && IsStamped(entries[i], name, modified, size) && IsStamped(e, name, modified', size')
    requires AreBytesOf(m, modified, 16) && AreBytesOf(s, size, 8) && AreBytesOf(m', modified', 16) && AreBytesOf(s', size', 8)
    requires AreEarlier(earlier, entries, name)
    ensures Fingerprint(entries, utf8) == Fingerprint(entries[i := e], utf8)
       <==> var h := Fnv(Fingerprint(earlier, utf8), utf8(name)); Fnv(h, m + s) == Fnv(h, m' + s')
  {
    hide StampBytes, AllBytes, Stamps, SortByName, AreEarlier, Fnv, AreBytesOf, Distinct, Sorted;
    var (was, now) := (Named(name, Stamp(modified, size)), Named(name, Stamp(modified', size')));
    var before, behind := EditInPlace(entries, i, e, name, modified, size, modified', size');
    assert (before + [was] + behind)[..|before|] == before && (before + [was] + behind)[|before|] == was;
    EarlierAreInFront(earlier, entries, name, |before|);
    BytesOfStamp(was, m, s, utf8);
    BytesOfStamp(now, m', s', utf8);
    FingerprintsDiffer(entries, entries[i := e], utf8, before, behind, was, now, m + s, m' + s');
  }

  lemma BytesOfStamp(stamp: Named<Stamp>, m: seq<Byte>, s: seq<Byte>, utf8: string -> seq<Byte>)
    requires AreBytesOf(m, stamp.value.modified, 16) && AreBytesOf(s, stamp.value.size, 8)
    requires stamp.value.modified < 0x1_0000_0000_0000_0000_0000_0000_0000_0000 && stamp.value.size < 0x1_0000_0000_0000_0000
    ensures StampBytes(stamp, utf8) == utf8(stamp.name) + (m + s)
  {
    Pow256Is();
    hide Pow256;
    BytesAreDetermined(m, stamp.value.modified, 16);
    BytesAreDetermined(s, stamp.value.size, 8);
    hide LittleEndian;
  }

  lemma EarlierAreInFront(earlier: seq<Option<Entry>>, entries: seq<Option<Entry>>, name: string, j: nat)
    requires Distinct(Stamps(entries)) && AreEarlier(earlier, entries, name)
    requires var r := SortByName(Stamps(entries)); j < |r| && r[j].name == name && Sorted(r)
    ensures SortByName(Stamps(earlier)) == SortByName(Stamps(entries))[..j]
  {
    hide SortByName, Stamps, LexLess;
    var (r, front) := (SortByName(Stamps(entries)), SortByName(Stamps(entries))[..j]);
    var t := SortByName(Stamps(earlier));
    SortSorts(Stamps(earlier));
    forall e
      ensures e in t <==> e in front
    {
      assert e in t <==> e in r && LexLess(e.name, name);
      if e in r {
        var a :| 0 <= a < |r| && r[a] == e;
        assert a < j <==> LexLess(e.name, name) by {
          LexTotal(e.name, name);
        }
        assert e in front <==> exists b :: 0 <= b < j && r[b] == e;
      }
    }
    SortedByElements(t, front);
  }

  /**
   Two listings that differ in one file's time stamp or size, and there in a single byte of its representation,
   have different fingerprints.
   */
  lemma OneByteOfStampIsNoticed(entries: seq<Option<Entry>>, i: nat, e: Option<Entry>, utf8: string -> seq<Byte>,
                                name: string, modified: nat, size: nat, modified': nat, size': nat,
                                m: seq<Byte>, s: seq<Byte>, m': seq<Byte>, s': seq<Byte>, k: nat)
    requires Distinct(Stamps(entries))
    requires i < |entries| && IsStamped(entries[i], name, modified, size) && IsStamped(e, name, modified', size')
    requires AreBytesOf(m, modified, 16) && AreBytesOf(s, size, 8) && AreBytesOf(m', modified', 16) && AreBytesOf(s', size', 8)
    requires k < 24 && (m + s)[k] != (m' + s')[k] && m' + s' == (m + s)[k := (m' + s')[k]]
    ensures Fingerprint(entries, utf8) != Fingerprint(entries[i := e], utf8)
  {
    hide StampBytes, AllBytes, Stamps, SortByName, Fnv, LittleValue, Distinct, Sorted;
    var (was, now) := (Named(name, Stamp(modified, size)), Named(name, Stamp(modified', size')));
    var before, behind := EditInPlace(entries, i, e, name, modified, size, modified', size');
    BytesOfStamp(was, m, s, utf8);
    BytesOfStamp(now, m', s', utf8);
    FingerprintsDiffer(entries, entries[i := e], utf8, before, behind, was, now, m + s, m' + s');
    OneByteIsNoticed(Fnv(Fnv(OFFSET_BASIS, AllBytes(before, utf8)), utf8(name)), m + s, k, (m' + s')[k]);
  }

  /** The published test vectors of 64-bit FNV-1a for "a" and "foobar". */
  lemma TestVectors()
    ensures Fnv(OFFSET_BASIS, [0x61]) == 0xaf63_dc4c_8601_ec8c
    ensures Fnv(OFFSET_BASIS, [0x66, 0x6f, 0x6f, 0x62, 0x61, 0x72]) == 0x8594_4171_f739_67e8
  {
    var s: seq<Byte> := [0x66, 0x6f, 0x6f, 0x62, 0x61, 0x72];
    assert s[1..][1..][1..][1..][1..] == [0x72];
  }

  /** A fingerprint belongs to the directory, not to the order in which it is listed. */
  lemma FingerprintIgnoresOrder(s: seq<Option<Entry>>, t: seq<Option<Entry>>)
    requires Distinct(Stamps(s)) && multiset(s) == multiset(t)
    ensures SortByName(Stamps(s)) == SortByName(Stamps(t))
  {
    StampsOfPermutation(s, t);
    ListingOrderIsIrrelevant(Stamps(s), Stamps(t));
  }

  lemma {:induction false} StampsConcat(s: seq<Option<Entry>>, t: seq<Option<Entry>>)
    ensures Stamps(s + t) == Stamps(s) + Stamps(t)
  {
    if s == [] {
      assert s + t == t;
    } else {
      assert (s + t)[1..] == s[1..] + t;
      StampsConcat(s[1..], t);
    }
  }

  lemma {:induction false} StampsOfPermutation(s: seq<Option<Entry>>, t: seq<Option<Entry>>)
    requires multiset(s) == multiset(t)
    ensures multiset(Stamps(s)) == multiset(Stamps(t))
  {
    assert |multiset(s)| == |s| && |multiset(t)| == |t|;
    if s != [] {
      assert s[0] in multiset(t);
      var j :| 0 <= j < |t| && t[j] == s[0];
      var (t1, t2) := (t[..j], t[j + 1..]);
      WithoutFirst(s, t, j);
      hide Stamps;
      StampsOfPermutation(s[1..], t1 + t2);
      StampsConcat([s[0]], s[1..]);
      StampsConcat(t1, t2);
      StampsConcat(t1, [t[j]] + t2);
      StampsConcat([t[j]], t2);
    }
  }

  lemma WithoutFirst<T>(s: seq<T>, t: seq<T>, j: nat)
    requires multiset(s) == multiset(t) && s != [] && j < |t| && t[j] == s[0]
    ensures s == [s[0]] + s[1..] && t == t[..j] + ([t[j]] + t[j + 1..])
    ensures multiset(s[1..]) == multiset(t[..j] + t[j + 1..])
  {
    AroundOneOfMany(s, 0);
    AroundOneOfMany(t, j);
    assert s[..0] + s[1..] == s[1..];
  }

  lemma AroundOneOfMany<T>(t: seq<T>, j: nat)
    requires j < |t|
    ensures t == t[..j] + ([t[j]] + t[j + 1..])
    ensures multiset(t[..j] + t[j + 1..]) == multiset(t) - multiset{t[j]}
  {
    var (front, back) := (t[..j], t[j + 1..]);
    assert t == front + ([t[j]] + back);
    assert multiset(t) == multiset(front) + (multiset{t[j]} + multiset(back));
    assert multiset(front + back) == multiset(front) + multiset(back);
  }
}

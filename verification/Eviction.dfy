/**
 The size cap of the spool directory: `enforce_total_size_cap` of src/spool/writer.rs.
 */
module Eviction {
  import opened Text
  import opened Sorting

  type Line = seq<bv8>

  /** A file of the spool directory: the lines that went into it and its size on disk. */
  datatype File = File(lines: seq<Line>, size: nat)

  type Directory = seq<Named<File>>

  predicate IsBatchName(name: string) {
    StartsWith(name, "batch-") && EndsWith(name, ".zst")
  }

  /** What is taken for a batch: a name that begins with `batch-` and goes on to end with `.zst`. */
  lemma BatchNameShape(name: string)
    ensures IsBatchName(name) <==> exists middle :: name == "batch-" + middle + ".zst"
  {
    if IsBatchName(name) {
      assert name[4] == 'h' && name[5] == '-' && name[|name| - 4] == '.' && name[|name| - 3] == 'z';
      assert |name| >= 10;
      var middle := name[6..|name| - 4];
      assert name == name[..6] + middle + name[|name| - 4..];
      assert name == "batch-" + middle + ".zst";
    }
    if middle :| name == "batch-" + middle + ".zst" {
      assert name == "batch-" + (middle + ".zst");
    }
  }

  function TotalSize(s: Directory): nat {
    if s == [] then 0 else s[0].value.size + TotalSize(s[1..])
  }

  function Batches(listing: Directory): (r: Directory)
    ensures forall e :: e in r <==> e in listing && IsBatchName(e.name)
  {
    if listing == [] then []
    else if IsBatchName(listing[0].name) then [listing[0]] + Batches(listing[1..])
    else Batches(listing[1..])
  }

  /** The batches that are left, given those in name order, their total size and the names whose removal succeeds. */
  function Survivors(batches: Directory, total: int, maxTotal: nat, removable: set<string>): (r: Directory)
    ensures |r| <= |batches| && forall e :: e in r ==> e in batches
  {
    if batches == [] || total <= maxTotal then batches
    else if batches[0].name in removable then
      Survivors(batches[1..], total - batches[0].value.size, maxTotal, removable)
    else
      [batches[0]] + Survivors(batches[1..], total, maxTotal, removable)
  }

  function AfterCap(batches: Directory, maxTotal: nat, removable: set<string>): Directory {
    Survivors(batches, TotalSize(batches), maxTotal, removable)
  }

  lemma {:induction false} TotalSizeOfSum(a: Directory, b: Directory)
    ensures TotalSize(a + b) == TotalSize(a) + TotalSize(b)
  {
    if a == [] {
      assert a + b == b;
    } else {
      assert (a + b)[1..] == a[1..] + b;
      TotalSizeOfSum(a[1..], b);
    }
  }

  lemma {:induction false} BatchesAppend(a: Directory, e: Named<File>)
    ensures Batches(a + [e]) == Batches(a) + (if IsBatchName(e.name) then [e] else [])
  {
    if a == [] {
      assert a + [e] == [e] && [e][1..] == [];
    } else {
      assert (a + [e])[1..] == a[1..] + [e];
      BatchesAppend(a[1..], e);
    }
  }

  lemma {:induction false} TotalOfInsert(e: Named<File>, s: Directory)
    ensures TotalSize(Insert(e, s)) == e.value.size + TotalSize(s)
  {
    if s != [] && LexLess(s[0].name, e.name) {
      TotalOfInsert(e, s[1..]);
      assert ([s[0]] + Insert(e, s[1..]))[1..] == Insert(e, s[1..]);
    } else {
      assert ([e] + s)[1..] == s;
    }
  }

  lemma {:induction false} TotalOfSorted(s: Directory)
    ensures TotalSize(SortByName(s)) == TotalSize(s)
  {
    if s != [] {
      TotalOfSorted(s[1..]);
      TotalOfInsert(s[0], SortByName(s[1..]));
    }
  }

  /** The first loop: the batches of a listing and their total size. */
  method CollectBatches(listing: Directory) returns (batches: Directory, total: nat)
    ensures batches == Batches(listing) && total == TotalSize(batches)
  {
    batches, total := [], 0;
    for i := 0 to |listing|
      invariant batches == Batches(listing[..i]) && total == TotalSize(batches)
    {
      var e := listing[i];
      BatchesAppend(listing[..i], e);
      assert listing[..i + 1] == listing[..i] + [e];
      if IsBatchName(e.name) {
        TotalSizeOfSum(batches, [e]);
        total := total + e.value.size;
        batches := batches + [e];
      }
    }
    assert listing[..|listing|] == listing;
  }

  function SaturatingSub(a: nat, b: nat): nat {
    if b <= a then a - b else 0
  }

  /** The last loop: batches go in name order until the rest fits. The saturating subtraction is never clipped. */
  method EvictInOrder(batches: Directory, size: nat, maxTotal: nat, removable: set<string>)
    returns (kept: Directory, total: nat, evicted: nat)
    requires size == TotalSize(batches)
    ensures kept == AfterCap(batches, maxTotal, removable)
    ensures total == TotalSize(kept)
    ensures evicted == |batches| - |kept|
  {
    hide Survivors, TotalSize;
    kept, total, evicted := [], size, 0;
    var i := 0;
    assert batches[0..] == batches;
    TotalSizeOfSum([], batches);
    assert [] + batches == batches;
    while i < |batches| && total > maxTotal
      invariant 0 <= i <= |batches|
      invariant total == TotalSize(kept) + TotalSize(batches[i..])
      invariant AfterCap(batches, maxTotal, removable) == kept + Survivors(batches[i..], total, maxTotal, removable)
      invariant evicted == i - |kept|
    {
      var e := batches[i];
      SurvivorsStep(batches, i, total, maxTotal, removable);
      if e.name in removable {
        total := SaturatingSub(total, e.value.size);
        evicted := evicted + 1;
      } else {
        TotalOfAppend(kept, e);
        KeepFirst(kept, e, Survivors(batches[i + 1..], total, maxTotal, removable));
        kept := kept + [e];
      }
      i := i + 1;
    }
    SurvivorsDone(batches[i..], total, maxTotal, removable);
    TotalSizeOfSum(kept, batches[i..]);
    kept := kept + batches[i..];
  }

  lemma SurvivorsStep(batches: Directory, i: nat, total: int, maxTotal: nat, removable: set<string>)
    requires i < |batches| && total > maxTotal
    ensures TotalSize(batches[i..]) == batches[i].value.size + TotalSize(batches[i + 1..])
    ensures Survivors(batches[i..], total, maxTotal, removable) ==
            if batches[i].name in removable then
              Survivors(batches[i + 1..], total - batches[i].value.size, maxTotal, removable)
            else
              [batches[i]] + Survivors(batches[i + 1..], total, maxTotal, removable)
  {
    assert batches[i..][1..] == batches[i + 1..];
  }

  lemma SurvivorsDone(batches: Directory, total: int, maxTotal: nat, removable: set<string>)
    requires batches == [] || total <= maxTotal
    ensures Survivors(batches, total, maxTotal, removable) == batches
  {
  }

  lemma TotalOfAppend(kept: Directory, e: Named<File>)
    ensures TotalSize(kept + [e]) == TotalSize(kept) + e.value.size
  {
    TotalSizeOfSum(kept, [e]);
    assert TotalSize([e]) == e.value.size + TotalSize([]);
  }

  lemma KeepFirst(kept: Directory, e: Named<File>, rest: Directory)
    ensures kept + ([e] + rest) == (kept + [e]) + rest
  {
  }

  /**
   The code over a directory listing in any order. `removable` are the names whose removal succeeds, so
   every pattern of removal failures is covered.
   */
  method EnforceTotalSizeCap(listing: Directory, maxTotal: nat, removable: set<string>)
    returns (kept: Directory, total: nat, evicted: nat)
    ensures kept == AfterCap(SortByName(Batches(listing)), maxTotal, removable)
    ensures total == TotalSize(kept)
    ensures evicted == |Batches(listing)| - |kept|
  {
    var batches, size := CollectBatches(listing);
    var sorted := SortByName(batches);
    TotalOfSorted(batches);
    assert |multiset(sorted)| == |multiset(batches)|;
    if size <= maxTotal {
      return sorted, size, 0;
    }
    kept, total, evicted := EvictInOrder(sorted, size, maxTotal, removable);
  }

  /** With every removal succeeding, exactly the shortest prefix of the name order goes that makes the rest fit. */
  lemma {:induction false} EvictsShortestPrefix(batches: Directory, maxTotal: nat, removable: set<string>) returns (k: nat)
    requires forall e | e in batches :: e.name in removable
    ensures k <= |batches| && AfterCap(batches, maxTotal, removable) == batches[k..]
    ensures TotalSize(batches[k..]) <= maxTotal
    ensures forall j | 0 <= j < k :: TotalSize(batches[j..]) > maxTotal
  {
    assert batches[0..] == batches;
    if batches == [] || TotalSize(batches) <= maxTotal {
      k := 0;
    } else {
      hide TotalSize;
      var rest := batches[1..];
      SurvivorsStep(batches, 0, TotalSize(batches), maxTotal, removable);
      var l := EvictsShortestPrefix(rest, maxTotal, removable);
      k := l + 1;
      assert forall j | 1 <= j <= |batches| :: rest[j - 1..] == batches[j..];
    }
  }

  /** Whatever removals fail, what is still over the cap could not be removed. */
  lemma {:induction false} OverTheCapIsStuck(batches: Directory, total: nat, maxTotal: nat, removable: set<string>)
    requires total >= TotalSize(batches)
    ensures var kept := Survivors(batches, total, maxTotal, removable);
            total - TotalSize(batches) + TotalSize(kept) > maxTotal ==> forall e | e in kept :: e.name !in removable
    decreases |batches|
  {
    if batches != [] && total > maxTotal {
      var (e, rest) := (batches[0], batches[1..]);
      if e.name in removable {
        OverTheCapIsStuck(rest, total - e.value.size, maxTotal, removable);
      } else {
        OverTheCapIsStuck(rest, total, maxTotal, removable);
        TotalSizeOfSum([e], Survivors(rest, total, maxTotal, removable));
      }
    }
  }

  /** What goes could be removed. */
  lemma {:induction false} EvictedWereRemovable(batches: Directory, total: int, maxTotal: nat, removable: set<string>)
    ensures forall e | e in batches && e !in Survivors(batches, total, maxTotal, removable) :: e.name in removable
    decreases |batches|
  {
    if batches != [] && total > maxTotal {
      var (e, rest) := (batches[0], batches[1..]);
      assert batches == [e] + rest;
      EvictedWereRemovable(rest, if e.name in removable then total - e.value.size else total, maxTotal, removable);
    }
  }

  /** What stays stays in name order. */
  lemma {:induction false} SurvivorsKeepOrder(batches: Directory, total: int, maxTotal: nat, removable: set<string>)
    requires Sorted(batches)
    ensures Sorted(Survivors(batches, total, maxTotal, removable))
    decreases |batches|
  {
    if batches != [] && total > maxTotal {
      var (e, rest) := (batches[0], batches[1..]);
      assert batches == [e] + rest;
      SurvivorsKeepOrder(rest, if e.name in removable then total - e.value.size else total, maxTotal, removable);
      if e.name !in removable {
        FirstStaysFirst(e, rest, Survivors(rest, total, maxTotal, removable));
      }
    }
  }

  lemma FirstStaysFirst(e: Named<File>, rest: Directory, kept: Directory)
    requires Sorted([e] + rest) && Sorted(kept)
    requires forall x | x in kept :: x in rest
    ensures Sorted([e] + kept)
  {
    forall j | 0 <= j < |kept|
      ensures LexLess(e.name, kept[j].name)
    {
      assert kept[j] in kept;
      var i :| 0 <= i < |rest| && rest[i] == kept[j];
      assert LexLess(([e] + rest)[0].name, ([e] + rest)[i + 1].name);
    }
  }

  lemma FirstSortsFirst(batches: Directory)
    requires Sorted(batches) && batches != []
    ensures forall k | k in batches[1..] :: LexLess(batches[0].name, k.name)
    ensures Sorted(batches[1..])
    ensures forall g :: g in batches <==> g == batches[0] || g in batches[1..]
  {
    hide LexLess;
    var (e, rest) := (batches[0], batches[1..]);
    assert batches == [e] + rest;
    forall k | k in rest
      ensures LexLess(e.name, k.name)
    {
      var i :| 0 <= i < |rest| && rest[i] == k;
      assert k == batches[i + 1];
    }
  }

  /** What goes sorts before everything that stays and could have gone. */
  lemma {:induction false} EvictedSortFirst(batches: Directory, total: int, maxTotal: nat, removable: set<string>)
    requires Sorted(batches)
    ensures var kept := Survivors(batches, total, maxTotal, removable);
      forall g, k | g in batches && g !in kept && k in kept && k.name in removable :: LexLess(g.name, k.name)
    decreases |batches|
  {
    if batches != [] && total > maxTotal {
      FirstSortsFirst(batches);
      hide LexLess, Sorted;
      var (e, rest) := (batches[0], batches[1..]);
      var left := if e.name in removable then total - e.value.size else total;
      EvictedSortFirst(rest, left, maxTotal, removable);
      var (kept, later) := (Survivors(batches, total, maxTotal, removable), Survivors(rest, left, maxTotal, removable));
      assert kept == if e.name in removable then later else [e] + later;
      assert forall k | k in later :: k in rest;
      hide Survivors;
      forall g, k | g in batches && g !in kept && k in kept && k.name in removable
        ensures LexLess(g.name, k.name)
      {
        assert k in later && (g == e || (g in rest && g !in later));
      }
    }
  }
}

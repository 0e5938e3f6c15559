/** Objects with ordered keys, filters, and arrays cut into chunks. */
module Collections {
  import opened Division

  // ---------- chunk ----------

  /** `arr.slice(from, to)`, whose end may lie past the end of the array. */
  function Slice<T>(arr: seq<T>, from: nat, to: nat): seq<T>
    requires from <= |arr|
  {
    if to <= from then []
    else if to <= |arr| then arr[from..to]
    else arr[from..]
  }

  /** The reduction of `chunk`, from index i on: a slice starts at every multiple of the size. With
      size zero the test `!(i % 0)` is true of every index. */
  function ChunkFrom<T>(arr: seq<T>, size: nat, i: nat): seq<seq<T>>
    requires i <= |arr|
    decreases |arr| - i
  {
    if i == |arr| then []
    else if size == 0 || i % size == 0 then [Slice(arr, i, i + size)] + ChunkFrom(arr, size, i + 1)
    else ChunkFrom(arr, size, i + 1)
  }

  function Chunk<T>(arr: seq<T>, size: nat): seq<seq<T>> {
    ChunkFrom(arr, size, 0)
  }

  function Concat<T>(chunks: seq<seq<T>>): seq<T> {
    if chunks == [] then [] else chunks[0] + Concat(chunks[1..])
  }

  /** The array cut from the front, the intended meaning of `chunk`. */
  function Cut<T>(arr: seq<T>, size: nat): (chunks: seq<seq<T>>)
    requires size > 0
  {
    if arr == [] then []
    else [Slice(arr, 0, size)] + if size < |arr| then Cut(arr[size..], size) else []
  }

  lemma ModuloAfter(i: nat, size: nat, j: nat)
    requires 0 < j <= size && i % size == 0
    ensures (i + j) % size == if j < size then j else 0
  {
    var q, r := Euclid(i, size);
    if j < size {
      QuotientIs(i + j, size, q, j);
    } else {
      QuotientIs(i + j, size, q + 1, 0);
    }
  }

  /** Inside a chunk nothing starts. */
  lemma {:induction false} ChunkFromSkips<T>(arr: seq<T>, size: nat, i: nat, next: nat)
    requires size > 0 && i <= next <= |arr|
    requires forall j | i <= j < next :: j % size != 0
    ensures ChunkFrom(arr, size, i) == ChunkFrom(arr, size, next)
    decreases next - i
  {
    if i == next {
    } else {
      assert i % size != 0;
      ChunkFromSkips(arr, size, i + 1, next);
    }
  }

  lemma {:induction false} ChunkFromIsCut<T>(arr: seq<T>, size: nat, i: nat)
    requires size > 0 && i <= |arr| && i % size == 0
    ensures ChunkFrom(arr, size, i) == Cut(arr[i..], size)
    decreases |arr| - i
  {
    if i == |arr| {
    } else {
      var next := if i + size <= |arr| then i + size else |arr|;
      forall j | i + 1 <= j < next ensures j % size != 0 { ModuloAfter(i, size, j - i); }
      ChunkFromSkips(arr, size, i + 1, next);
      assert Slice(arr, i, i + size) == Slice(arr[i..], 0, size);
      if i + size < |arr| {
        ModuloAfter(i, size, size);
        ChunkFromIsCut(arr, size, i + size);
        assert arr[i..][size..] == arr[i + size..];
      }
    }
  }

  /** `chunk` cuts the array from the front. */
  lemma ChunkIsCut<T>(arr: seq<T>, size: nat)
    requires size > 0
    ensures Chunk(arr, size) == Cut(arr, size)
  {
    assert 0 % size == 0 by { QuotientIs(0, size, 0, 0); }
    ChunkFromIsCut(arr, size, 0);
    assert arr[0..] == arr;
  }

  /** The first chunk, and the chunks of the rest. */
  lemma CutSteps<T>(arr: seq<T>, size: nat) returns (tail: seq<T>)
    requires 0 < size < |arr|
    ensures tail == arr[size..] && tail != [] && arr == arr[..size] + tail
    ensures Cut(arr, size) == [arr[..size]] + Cut(tail, size)
    ensures |Cut(tail, size)| > 0
  {
    tail := arr[size..];
    assert Slice(arr, 0, size) == arr[..size];
  }

  lemma {:induction false} CutIsPartition<T>(arr: seq<T>, size: nat)
    requires size > 0
    ensures Concat(Cut(arr, size)) == arr
    ensures forall k | 0 <= k < |Cut(arr, size)| ::
              1 <= |Cut(arr, size)[k]| <= size
              && (k + 1 < |Cut(arr, size)| ==> |Cut(arr, size)[k]| == size)
  {
    if arr == [] {
    } else if size < |arr| {
      var tail := CutSteps(arr, size);
      CutIsPartition(tail, size);
      var chunks := Cut(arr, size);
      assert chunks[1..] == Cut(tail, size);
      forall k | 0 <= k < |chunks|
        ensures 1 <= |chunks[k]| <= size && (k + 1 < |chunks| ==> |chunks[k]| == size)
      {
        if k > 0 { assert chunks[k] == Cut(tail, size)[k - 1]; }
      }
    } else {
      assert Concat(Cut(arr, size)) == arr + Concat([]);
    }
  }

  lemma {:induction false} CutElement<T>(arr: seq<T>, size: nat, k: nat, j: nat, start: nat)
    requires size > 0 && start == k * size
    requires k < |Cut(arr, size)| && j < |Cut(arr, size)[k]|
    ensures start + j < |arr| && Cut(arr, size)[k][j] == arr[start + j]
  {
    if k > 0 {
      var tail := arr[size..];
      assert Cut(arr, size)[k] == Cut(tail, size)[k - 1];
      MulPredecessor(k, size);
      MulSign(k, size);
      CutElement(tail, size, k - 1, j, start - size);
    } else {
      assert start == 0;
    }
  }

  /** The chunks put together are the array, none is empty or too large, and all but the last are
      full: this leaves only one way to cut. */
  lemma ChunkIsPartition<T>(arr: seq<T>, size: nat)
    requires size > 0
    ensures Concat(Chunk(arr, size)) == arr
    ensures forall k | 0 <= k < |Chunk(arr, size)| ::
              1 <= |Chunk(arr, size)[k]| <= size
              && (k + 1 < |Chunk(arr, size)| ==> |Chunk(arr, size)[k]| == size)
  {
    ChunkIsCut(arr, size);
    CutIsPartition(arr, size);
  }

  /** Element j of chunk k is element k * size + j of the array. */
  lemma ChunkElement<T>(arr: seq<T>, size: nat, k: nat, j: nat)
    requires size > 0 && k < |Chunk(arr, size)| && j < |Chunk(arr, size)[k]|
    ensures k * size + j < |arr| && Chunk(arr, size)[k][j] == arr[k * size + j]
  {
    ChunkIsCut(arr, size);
    CutElement(arr, size, k, j, k * size);
  }

  lemma {:induction false} CutEnd<T>(arr: seq<T>, size: nat, k: nat, start: nat)
    requires size > 0 && start == k * size && k < |Cut(arr, size)|
    ensures start + |Cut(arr, size)[k]| == if k + 1 < |Cut(arr, size)| then start + size else |arr|
  {
    if size < |arr| {
      var tail := CutSteps(arr, size);
      if k == 0 {
        assert start == 0;
      } else {
        MulPredecessor(k, size);
        MulSign(k, size);
        CutEnd(tail, size, k - 1, start - size);
        assert Cut(arr, size)[k] == Cut(tail, size)[k - 1];
      }
    } else {
      assert k == 0 && start == 0;
    }
  }

  /** Chunk k ends where the next one starts, and the last one with the array. */
  lemma ChunkEnd<T>(arr: seq<T>, size: nat, k: nat)
    requires size > 0 && k < |Chunk(arr, size)|
    ensures k * size + |Chunk(arr, size)[k]| == if k + 1 < |Chunk(arr, size)| then k * size + size else |arr|
  {
    ChunkIsCut(arr, size);
    CutEnd(arr, size, k, k * size);
  }

  lemma NoChunks<T>(arr: seq<T>, size: nat)
    requires size > 0
    ensures |Chunk(arr, size)| == 0 <==> arr == []
  {
    ChunkIsCut(arr, size);
  }

  /** Chunks of two arrays of one length match in number and in size. */
  lemma {:induction false} ChunksMatch<T, U>(arr: seq<T>, brr: seq<U>, size: nat)
    requires size > 0 && |arr| == |brr|
    ensures |Chunk(arr, size)| == |Chunk(brr, size)|
    ensures forall k | 0 <= k < |Chunk(arr, size)| :: |Chunk(arr, size)[k]| == |Chunk(brr, size)[k]|
  {
    ChunkIsCut(arr, size);
    ChunkIsCut(brr, size);
    CutsMatch(arr, brr, size);
  }

  lemma {:induction false} CutsMatch<T, U>(arr: seq<T>, brr: seq<U>, size: nat)
    requires size > 0 && |arr| == |brr|
    ensures |Cut(arr, size)| == |Cut(brr, size)|
    ensures forall k | 0 <= k < |Cut(arr, size)| :: |Cut(arr, size)[k]| == |Cut(brr, size)[k]|
  {
    if size < |arr| {
      CutsMatch(arr[size..], brr[size..], size);
    }
  }

  /** With size zero, `chunk` gives an empty slice for every element and loses them all. */
  lemma {:induction false} ChunkOfSizeZero<T>(arr: seq<T>, i: nat)
    requires i <= |arr|
    ensures |ChunkFrom(arr, 0, i)| == |arr| - i
    ensures Concat(ChunkFrom(arr, 0, i)) == []
    decreases |arr| - i
  {
    if i == |arr| {
    } else {
      ChunkOfSizeZero(arr, i + 1);
    }
  }

  // ---------- filters ----------

  function Filter<T>(s: seq<T>, keep: T -> bool): (r: seq<T>) {
    if s == [] then []
    else if keep(s[0]) then [s[0]] + Filter(s[1..], keep)
    else Filter(s[1..], keep)
  }

  function Map<T, U>(s: seq<T>, f: T -> U): (r: seq<U>)
    ensures |r| == |s|
    ensures forall i | 0 <= i < |s| :: r[i] == f(s[i])
  {
    if s == [] then [] else [f(s[0])] + Map(s[1..], f)
  }

  lemma {:induction false} FilterSnoc<T>(s: seq<T>, x: T, keep: T -> bool)
    ensures Filter(s + [x], keep) == Filter(s, keep) + if keep(x) then [x] else []
  {
    if s == [] {
      assert s + [x] == [x] && [x][1..] == [];
    } else {
      assert (s + [x])[0] == s[0] && (s + [x])[1..] == s[1..] + [x];
      FilterSnoc(s[1..], x, keep);
    }
  }

  lemma PrefixIsWhole<T>(s: seq<T>)
    ensures s[..|s|] == s
  {
  }

  lemma PrefixGrows<T>(s: seq<T>, i: nat)
    requires i < |s|
    ensures s[..i + 1] == s[..i] + [s[i]]
  {
  }

  lemma FilterOfPrefix<T>(s: seq<T>, i: nat, keep: T -> bool)
    requires i < |s|
    ensures Filter(s[..i + 1], keep) == Filter(s[..i], keep) + if keep(s[i]) then [s[i]] else []
  {
    assert s[..i + 1] == s[..i] + [s[i]];
    FilterSnoc(s[..i], s[i], keep);
  }

  lemma {:induction false} FilterMembers<T>(s: seq<T>, keep: T -> bool)
    ensures forall x :: x in Filter(s, keep) <==> x in s && keep(x)
  {
    if s == [] {
    } else {
      FilterMembers(s[1..], keep);
    }
  }

  lemma {:induction false} FilterTwice<T>(s: seq<T>, p: T -> bool, q: T -> bool, both: T -> bool)
    requires forall x <- s :: both(x) <==> p(x) && q(x)
    ensures Filter(Filter(s, p), q) == Filter(s, both)
  {
    if s == [] {
    } else {
      FilterTwice(s[1..], p, q, both);
      var rest := Filter(s[1..], p);
      if p(s[0]) {
        assert Filter(s, p) == [s[0]] + rest && Filter(s, p)[1..] == rest;
      } else {
        assert Filter(s, p) == rest;
      }
    }
  }

  ghost predicate Increasing(positions: seq<nat>) {
    forall i, j | 0 <= i < j < |positions| :: positions[i] < positions[j]
  }

  /** `part` lists, in order and once each, the elements of s at the positions that are kept. */
  ghost predicate IsSubsequence<T>(s: seq<T>, keep: T -> bool, part: seq<T>, positions: seq<nat>) {
    && |positions| == |part| && Increasing(positions)
    && (forall k | 0 <= k < |part| :: positions[k] < |s| && part[k] == s[positions[k]])
    && (forall i: nat | i < |s| :: keep(s[i]) <==> i in positions)
  }

  function Shifted(positions: seq<nat>): (r: seq<nat>)
    ensures |r| == |positions|
    ensures forall k | 0 <= k < |r| :: r[k] == positions[k] + 1
  {
    seq(|positions|, k requires 0 <= k < |positions| => positions[k] + 1)
  }

  /** Positions in the tail of s are positions in s, one further on. */
  lemma ShiftedPositions<T>(s: seq<T>, keep: T -> bool, part: seq<T>, tail: seq<nat>, i: nat)
    requires s != [] && IsSubsequence(s[1..], keep, part, tail) && 0 < i < |s|
    ensures keep(s[i]) <==> i in Shifted(tail)
  {
    assert s[1..][i - 1] == s[i];
    if i - 1 in tail {
      var k :| 0 <= k < |tail| && tail[k] == i - 1;
      assert Shifted(tail)[k] == i;
    }
    if i in Shifted(tail) {
      var k :| 0 <= k < |tail| && Shifted(tail)[k] == i;
      assert tail[k] == i - 1;
    }
  }

  lemma IncreasingInFront(tail: seq<nat>)
    requires Increasing(tail)
    ensures Increasing([0] + Shifted(tail))
  {
    var positions := [0] + Shifted(tail);
    forall i, j | 0 <= i < j < |positions| ensures positions[i] < positions[j] {
      assert positions[j] == Shifted(tail)[j - 1];
      if i > 0 { assert positions[i] == Shifted(tail)[i - 1]; }
    }
  }

  lemma MemberOfCons(x: nat, rest: seq<nat>, i: nat)
    ensures i in [x] + rest <==> i == x || i in rest
  {
  }

  lemma ElementsInFront<T>(s: seq<T>, part: seq<T>, tail: seq<nat>)
    requires s != [] && |tail| == |part|
    requires forall k | 0 <= k < |part| :: tail[k] < |s[1..]| && part[k] == s[1..][tail[k]]
    ensures var whole, positions := [s[0]] + part, [0] + Shifted(tail);
      forall k | 0 <= k < |whole| :: positions[k] < |s| && whole[k] == s[positions[k]]
  {
    var whole, positions := [s[0]] + part, [0] + Shifted(tail);
    forall k | 0 <= k < |whole| ensures positions[k] < |s| && whole[k] == s[positions[k]] {
      if k > 0 { assert whole[k] == part[k - 1] && positions[k] == Shifted(tail)[k - 1]; }
    }
  }

  /** Putting an element in front that is kept. */
  lemma KeptInFront<T>(s: seq<T>, keep: T -> bool, part: seq<T>, tail: seq<nat>)
    requires s != [] && IsSubsequence(s[1..], keep, part, tail) && keep(s[0])
    ensures IsSubsequence(s, keep, [s[0]] + part, [0] + Shifted(tail))
  {
    IncreasingInFront(tail);
    ElementsInFront(s, part, tail);
    forall i: nat | i < |s| ensures keep(s[i]) <==> i in [0] + Shifted(tail) {
      MemberOfCons(0, Shifted(tail), i);
      if i > 0 { ShiftedPositions(s, keep, part, tail, i); }
    }
  }

  /** Putting an element in front that is dropped. */
  lemma DroppedInFront<T>(s: seq<T>, keep: T -> bool, part: seq<T>, tail: seq<nat>)
    requires s != [] && IsSubsequence(s[1..], keep, part, tail) && !keep(s[0])
    ensures IsSubsequence(s, keep, part, Shifted(tail))
  {
    var positions := Shifted(tail);
    forall k | 0 <= k < |part| ensures positions[k] < |s| && part[k] == s[positions[k]] {
      assert part[k] == s[1..][tail[k]];
    }
    forall i: nat | i < |s| ensures keep(s[i]) <==> i in positions {
      if i > 0 { ShiftedPositions(s, keep, part, tail, i); }
    }
  }

  lemma {:induction false} FilterIsSubsequence<T>(s: seq<T>, keep: T -> bool) returns (positions: seq<nat>)
    ensures IsSubsequence(s, keep, Filter(s, keep), positions)
  {
    if s == [] {
      positions := [];
    } else {
      var tail := FilterIsSubsequence(s[1..], keep);
      if keep(s[0]) {
        KeptInFront(s, keep, Filter(s[1..], keep), tail);
        positions := [0] + Shifted(tail);
      } else {
        DroppedInFront(s, keep, Filter(s[1..], keep), tail);
        positions := Shifted(tail);
      }
    }
  }

  // ---------- objects ----------

  /** The entries of an object in key order. */
  type Entries<V> = seq<(string, V)>

  ghost predicate UniqueKeys<V>(entries: Entries<V>) {
    forall i, j | 0 <= i < j < |entries| :: entries[i].0 != entries[j].0
  }

  lemma {:induction false} FilterKeepsKeysUnique<V>(entries: Entries<V>, keep: ((string, V)) -> bool)
    requires UniqueKeys(entries)
    ensures UniqueKeys(Filter(entries, keep))
  {
    var positions := FilterIsSubsequence(entries, keep);
  }

  predicate HasKey<V>(entries: Entries<V>, key: string) {
    exists i | 0 <= i < |entries| :: entries[i].0 == key
  }

  /** `Object.keys(entries).findIndex((value) => value === key)`. */
  function FindIndex<V>(entries: Entries<V>, key: string): (i: int)
    ensures -1 <= i < |entries|
    ensures i >= 0 ==> entries[i].0 == key
    ensures i == -1 <==> !HasKey(entries, key)
  {
    if entries == [] then -1
    else if entries[0].0 == key then 0
    else
      var i := FindIndex(entries[1..], key);
      assert forall j | 0 <= j < |entries[1..]| :: entries[1..][j] == entries[j + 1];
      if i == -1 then -1 else i + 1
  }

  /** `entries[key]` of strings, where a missing entry is as falsy as an empty one. */
  function Get(entries: Entries<string>, key: string): string {
    var i := FindIndex(entries, key);
    if i == -1 then "" else entries[i].1
  }

  /** The first entry under the key holds the value. */
  ghost predicate Lists<V>(entries: Entries<V>, key: string, value: V) {
    exists i | 0 <= i < |entries| :: entries[i] == (key, value) && forall j | 0 <= j < i :: entries[j].0 != key
  }

  lemma {:induction false} FindIndexIsFirst<V>(entries: Entries<V>, key: string)
    ensures forall j | 0 <= j < FindIndex(entries, key) :: entries[j].0 != key
  {
    if entries == [] || entries[0].0 == key {
    } else {
      FindIndexIsFirst(entries[1..], key);
      forall j | 0 <= j < FindIndex(entries, key) ensures entries[j].0 != key {
        if j > 0 { assert entries[j] == entries[1..][j - 1]; }
      }
    }
  }

  lemma LookedUpIsListed(entries: Entries<string>, key: string)
    ensures HasKey(entries, key) ==> Lists(entries, key, Get(entries, key))
  {
    FindIndexIsFirst(entries, key);
    if HasKey(entries, key) {
      assert entries[FindIndex(entries, key)] == (key, Get(entries, key));
    }
  }

  /** Looking a key up gives the value listed under it, and nothing exactly where none is listed. */
  lemma GetIsListed(entries: Entries<string>, key: string)
    ensures forall value :: value != "" ==> (Lists(entries, key, value) <==> Get(entries, key) == value)
    ensures Get(entries, key) != "" <==> exists value :: value != "" && Lists(entries, key, value)
  {
    var i := FindIndex(entries, key);
    FindIndexIsFirst(entries, key);
    if i != -1 {
      assert entries[i] == (key, Get(entries, key));
      assert Lists(entries, key, Get(entries, key));
    }
    forall value | Lists(entries, key, value) ensures Get(entries, key) == value {
      var k :| 0 <= k < |entries| && entries[k] == (key, value) && forall j | 0 <= j < k :: entries[j].0 != key;
      assert HasKey(entries, key);
      assert k == i;
    }
  }

  /** `{ ...entries, [key]: value }`, and `entries[key] = value`: a known key keeps its place. */
  function SetKey<V>(entries: Entries<V>, key: string, value: V): Entries<V> {
    var i := FindIndex(entries, key);
    if i == -1 then entries + [(key, value)] else entries[i := (key, value)]
  }

  /** The reduction of `omit`. */
  function OmitInto<V>(acc: Entries<V>, entries: Entries<V>, keys: seq<string>): Entries<V>
    decreases |entries|
  {
    if entries == [] then acc
    else OmitInto(if entries[0].0 in keys then acc else SetKey(acc, entries[0].0, entries[0].1),
                  entries[1..], keys)
  }

  function Omit<V>(entries: Entries<V>, keys: seq<string>): Entries<V> {
    OmitInto([], entries, keys)
  }

  lemma UniqueWithout<V>(acc: Entries<V>, entries: Entries<V>)
    requires entries != [] && UniqueKeys(acc + entries)
    ensures UniqueKeys(acc + entries[1..])
  {
    var all, less := acc + entries, acc + entries[1..];
    forall i, j | 0 <= i < j < |less| ensures less[i].0 != less[j].0 {
      var i', j' := if i < |acc| then i else i + 1, if j < |acc| then j else j + 1;
      assert all[i'] == less[i] && all[j'] == less[j];
    }
  }

  lemma NewKey<V>(acc: Entries<V>, entries: Entries<V>)
    requires entries != [] && UniqueKeys(acc + entries)
    ensures !HasKey(acc, entries[0].0)
    ensures acc + [entries[0]] + entries[1..] == acc + entries
  {
    var all := acc + entries;
    assert all[|acc|] == entries[0];
    forall i | 0 <= i < |acc| ensures acc[i].0 != entries[0].0 {
      assert all[i] == acc[i];
    }
  }

  lemma {:induction false} OmitIntoIsFilter<V>(acc: Entries<V>, entries: Entries<V>, keys: seq<string>)
    requires UniqueKeys(acc + entries)
    ensures OmitInto(acc, entries, keys) == acc + Filter(entries, (e: (string, V)) => e.0 !in keys)
    decreases |entries|
  {
    if entries == [] {
    } else {
      var e, rest := entries[0], entries[1..];
      if e.0 in keys {
        UniqueWithout(acc, entries);
        OmitIntoIsFilter(acc, rest, keys);
      } else {
        NewKey(acc, entries);
        OmitIntoIsFilter(acc + [e], rest, keys);
      }
    }
  }

  /** `omit` keeps, in order, the entries under the other keys. */
  lemma OmitIsFilter<V>(entries: Entries<V>, keys: seq<string>)
    requires UniqueKeys(entries)
    ensures Omit(entries, keys) == Filter(entries, (e: (string, V)) => e.0 !in keys)
  {
    var none: Entries<V> := [];
    assert none + entries == entries;
    OmitIntoIsFilter(none, entries, keys);
  }

  /** `filterMapBy`, which grows its result in place. */
  method FilterMapBy<V>(raw: Entries<V>, fn: string -> bool) returns (obj: Entries<V>)
    requires UniqueKeys(raw)
    ensures obj == Filter(raw, (e: (string, V)) => fn(e.0))
  {
    obj := [];
    ghost var keep := (e: (string, V)) => fn(e.0);
    for i := 0 to |raw|
      invariant obj == Filter(raw[..i], keep)
    {
      FilterOfPrefix(raw, i, keep);
      FilterMembers(raw[..i], keep);
      if fn(raw[i].0) {
        assert !HasKey(obj, raw[i].0) by {
          forall j | 0 <= j < |obj| ensures obj[j].0 != raw[i].0 { assert obj[j] in raw[..i]; }
        }
        obj := SetKey(obj, raw[i].0, raw[i].1);
      }
    }
    assert raw[..|raw|] == raw;
  }
}

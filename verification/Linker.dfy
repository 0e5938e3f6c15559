/** Splicing library addresses into compiled bytecode. */
module Linker {

  /** A hole in the bytecode, in bytes. */
  datatype Fixup = Fixup(start: nat, length: nat)

  datatype LibraryReferences = LibraryReferences(name: string, fixups: seq<Fixup>)

  datatype FileReferences = FileReferences(file: string, libraries: seq<LibraryReferences>)

  /** Compiled bytecode as "0x" and two hex digits a byte, with the holes of every file and library
      in the order in which the artifact lists them. */
  datatype Artifact = Artifact(bytecode: string, linkReferences: seq<FileReferences>)

  /** `s.substr(from)`, which yields nothing past the end. */
  function SubstrFrom(s: string, from: nat): string {
    if from <= |s| then s[from..] else ""
  }

  /** `s.substr(0, count)`, which stops at the end. */
  function SubstrTo(s: string, count: nat): string {
    if count <= |s| then s[..count] else s
  }

  function Splice(bytecode: string, fixup: Fixup, addr: string): string {
    SubstrTo(bytecode, 2 + fixup.start * 2) + SubstrFrom(addr, 2)
    + SubstrFrom(bytecode, 2 + (fixup.start + fixup.length) * 2)
  }

  /** Whatever the hole and the address, a splice keeps what is before the hole and what is after it,
      as far as the bytecode reaches. */
  lemma SpliceKeepsBothEnds(bytecode: string, fixup: Fixup, addr: string) returns (head: string, tail: string)
    ensures head <= bytecode && (|head| == 2 + 2 * fixup.start || |head| == |bytecode| < 2 + 2 * fixup.start)
    ensures |tail| <= |bytecode| && tail == bytecode[|bytecode| - |tail|..]
    ensures |bytecode| - |tail| == 2 + 2 * (fixup.start + fixup.length)
            || (tail == "" && |bytecode| < 2 + 2 * (fixup.start + fixup.length))
    ensures |addr| >= 2 ==> Splice(bytecode, fixup, addr) == head + addr[2..] + tail
    ensures |addr| < 2 ==> Splice(bytecode, fixup, addr) == head + tail
  {
    head := SubstrTo(bytecode, 2 + fixup.start * 2);
    tail := SubstrFrom(bytecode, 2 + (fixup.start + fixup.length) * 2);
  }

  // ---------- the visits of the three loops as one list ----------

  datatype Edit = Edit(name: string, fixup: Fixup)

  type Libraries = map<string, string>

  function FixupEdits(name: string, fixups: seq<Fixup>): seq<Edit> {
    if fixups == [] then [] else [Edit(name, fixups[0])] + FixupEdits(name, fixups[1..])
  }

  function LibraryEdits(references: seq<LibraryReferences>): seq<Edit> {
    if references == [] then []
    else FixupEdits(references[0].name, references[0].fixups) + LibraryEdits(references[1..])
  }

  function FileEdits(references: seq<FileReferences>): seq<Edit> {
    if references == [] then []
    else LibraryEdits(references[0].libraries) + FileEdits(references[1..])
  }

  function Apply(bytecode: string, edit: Edit, libraries: Libraries): string {
    if edit.name in libraries then Splice(bytecode, edit.fixup, libraries[edit.name]) else bytecode
  }

  function ApplyAll(bytecode: string, edits: seq<Edit>, libraries: Libraries): string
    decreases |edits|
  {
    if edits == [] then bytecode
    else ApplyAll(Apply(bytecode, edits[0], libraries), edits[1..], libraries)
  }

  function Link(artifact: Artifact, libraries: Libraries): string {
    ApplyAll(artifact.bytecode, FileEdits(artifact.linkReferences), libraries)
  }

  lemma {:induction false} ApplyAllConcat(bytecode: string, edits: seq<Edit>, more: seq<Edit>, libraries: Libraries)
    ensures ApplyAll(bytecode, edits + more, libraries)
            == ApplyAll(ApplyAll(bytecode, edits, libraries), more, libraries)
    decreases |edits|
  {
    if edits == [] {
      assert edits + more == more;
    } else {
      assert (edits + more)[1..] == edits[1..] + more;
      ApplyAllConcat(Apply(bytecode, edits[0], libraries), edits[1..], more, libraries);
    }
  }

  lemma {:induction false} UnresolvedIsSkipped(bytecode: string, name: string, fixups: seq<Fixup>, libraries: Libraries)
    requires name !in libraries
    ensures ApplyAll(bytecode, FixupEdits(name, fixups), libraries) == bytecode
  {
    if fixups == [] {
    } else {
      UnresolvedIsSkipped(bytecode, name, fixups[1..], libraries);
    }
  }

  /** The three nested loops over files, libraries and fixups. */
  method LinkBytecode(artifact: Artifact, libraries: Libraries) returns (bytecode: string)
    ensures bytecode == Link(artifact, libraries)
    ensures HolesFit(artifact, libraries) && HolesAgree(artifact, libraries) ==> IsFilled(artifact, libraries, bytecode)
  {
    bytecode := artifact.bytecode;
    var files := artifact.linkReferences;
    for i := 0 to |files|
      invariant ApplyAll(bytecode, FileEdits(files[i..]), libraries) == Link(artifact, libraries)
    {
      ghost var before := bytecode;
      var fileReferences := files[i].libraries;
      for j := 0 to |fileReferences|
        invariant ApplyAll(bytecode, LibraryEdits(fileReferences[j..]), libraries)
                  == ApplyAll(before, LibraryEdits(fileReferences), libraries)
      {
        var name, fixups := fileReferences[j].name, fileReferences[j].fixups;
        ghost var here := bytecode;
        ApplyAllConcat(here, FixupEdits(name, fixups), LibraryEdits(fileReferences[j + 1..]), libraries);
        assert fileReferences[j..][1..] == fileReferences[j + 1..];
        if name !in libraries {
          UnresolvedIsSkipped(here, name, fixups, libraries);
          continue;
        }
        var addr := libraries[name];
        for k := 0 to |fixups|
          invariant ApplyAll(bytecode, FixupEdits(name, fixups[k..]), libraries)
                    == ApplyAll(here, FixupEdits(name, fixups), libraries)
        {
          assert fixups[k..][1..] == fixups[k + 1..];
          bytecode := Splice(bytecode, fixups[k], addr);
        }
      }
      ApplyAllConcat(before, LibraryEdits(fileReferences), FileEdits(files[i + 1..]), libraries);
      assert files[i..][1..] == files[i + 1..];
    }
    if HolesFit(artifact, libraries) && HolesAgree(artifact, libraries) {
      LinkFillsEveryHole(artifact, libraries);
    }
  }

  // ---------- what linking means, position by position ----------

  /** The edit replaces character i. */
  predicate Covers(edit: Edit, i: int) {
    2 + edit.fixup.start * 2 <= i < 2 + (edit.fixup.start + edit.fixup.length) * 2
  }

  /** The edit lies inside the bytecode and its address has two digits for every byte of the hole. */
  predicate Fits(size: nat, edit: Edit, libraries: Libraries) {
    edit.name in libraries ==>
      && 2 + (edit.fixup.start + edit.fixup.length) * 2 <= size
      && |libraries[edit.name]| == 2 + edit.fixup.length * 2
  }

  /** Wherever both edits cover a character, they put the same digit there. */
  ghost predicate SameDigits(e: Edit, f: Edit, libraries: Libraries)
    requires HasDigits(e, libraries) && HasDigits(f, libraries)
  {
    forall i | Covers(e, i) && Covers(f, i) :: Digit(e, libraries, i) == Digit(f, libraries, i)
  }

  predicate HasDigits(edit: Edit, libraries: Libraries) {
    edit.name in libraries && |libraries[edit.name]| == 2 + edit.fixup.length * 2
  }

  /** What the edit puts at character i. */
  function Digit(edit: Edit, libraries: Libraries, i: int): char
    requires HasDigits(edit, libraries) && Covers(edit, i)
  {
    libraries[edit.name][i - edit.fixup.start * 2]
  }

  ghost predicate AllFit(size: nat, edits: seq<Edit>, libraries: Libraries) {
    forall e <- edits :: Fits(size, e, libraries)
  }

  /** Every resolved edit fits, and resolved edits put the same digits where they overlap, as they
      do when their holes are apart. */
  ghost predicate WellFormed(size: nat, edits: seq<Edit>, libraries: Libraries) {
    && AllFit(size, edits, libraries)
    && (forall e <- edits, f <- edits | e.name in libraries && f.name in libraries :: SameDigits(e, f, libraries))
  }

  /** `linked` holds the digit of the library's address wherever a resolved edit covers it, and the
      original character everywhere else. No order of edits appears here. */
  ghost predicate IsLinked(original: string, edits: seq<Edit>, libraries: Libraries, linked: string) {
    && |linked| == |original|
    && (forall e, i | e in edits && e.name in libraries && Fits(|original|, e, libraries) && Covers(e, i) ::
          linked[i] == Digit(e, libraries, i))
    && (forall i | 0 <= i < |original| && !Touched(edits, libraries, i) :: linked[i] == original[i])
  }

  ghost predicate Touched(edits: seq<Edit>, libraries: Libraries, i: int) {
    exists e <- edits :: e.name in libraries && Covers(e, i)
  }

  lemma LinkedIsUnique(original: string, edits: seq<Edit>, libraries: Libraries, r: string, s: string)
    requires WellFormed(|original|, edits, libraries)
    requires IsLinked(original, edits, libraries, r) && IsLinked(original, edits, libraries, s)
    ensures r == s
  {
    forall i | 0 <= i < |original| ensures r[i] == s[i] {
      if Touched(edits, libraries, i) {
        var e :| e in edits && e.name in libraries && Covers(e, i);
        assert Fits(|original|, e, libraries);
      }
    }
  }

  lemma TouchedByPart(some: seq<Edit>, part: Libraries, edits: seq<Edit>, whole: Libraries, i: int)
    requires part.Keys <= whole.Keys && forall e <- some :: e in edits
    ensures Touched(some, part, i) ==> Touched(edits, whole, i)
  {
    if Touched(some, part, i) {
      var e :| e in some && e.name in part && Covers(e, i);
      assert e.name in whole;
    }
  }

  lemma SpliceAt(bytecode: string, edit: Edit, libraries: Libraries)
    requires edit.name in libraries && Fits(|bytecode|, edit, libraries)
    ensures var r := Apply(bytecode, edit, libraries);
      && |r| == |bytecode|
      && (forall i | 0 <= i < |r| ::
            r[i] == if Covers(edit, i) then Digit(edit, libraries, i) else bytecode[i])
  {
  }

  /** The first edit and the linked rest: every covered position holds its digit. */
  lemma CoveredByFirstOrRest(original: string, edits: seq<Edit>, libraries: Libraries, next: string, linked: string,
                             e: Edit, i: int)
    requires edits != [] && WellFormed(|original|, edits, libraries)
    requires next == Apply(original, edits[0], libraries) && |next| == |original|
    requires IsLinked(next, edits[1..], libraries, linked)
    requires e in edits && e.name in libraries && Fits(|original|, e, libraries) && Covers(e, i)
    ensures linked[i] == Digit(e, libraries, i)
  {
    if Touched(edits[1..], libraries, i) {
      var f :| f in edits[1..] && f.name in libraries && Covers(f, i);
      assert f in edits && Fits(|original|, f, libraries);
      assert SameDigits(e, f, libraries);
    } else {
      assert e == edits[0];
      SpliceAt(original, e, libraries);
    }
  }

  /** Every other position keeps its character. */
  lemma UncoveredByFirstAndRest(original: string, edits: seq<Edit>, libraries: Libraries, next: string, linked: string,
                                i: int)
    requires edits != [] && Fits(|original|, edits[0], libraries)
    requires next == Apply(original, edits[0], libraries) && |next| == |original|
    requires IsLinked(next, edits[1..], libraries, linked)
    requires 0 <= i < |original| && !Touched(edits, libraries, i)
    ensures linked[i] == original[i]
  {
    TouchedByPart(edits[1..], libraries, edits, libraries, i);
    if edits[0].name in libraries {
      assert edits[0] in edits;
      SpliceAt(original, edits[0], libraries);
    }
  }

  /** Linking replaces exactly the resolved holes. */
  lemma {:induction false} ApplyAllIsLinked(original: string, edits: seq<Edit>, libraries: Libraries)
    requires WellFormed(|original|, edits, libraries)
    ensures IsLinked(original, edits, libraries, ApplyAll(original, edits, libraries))
    decreases |edits|
  {
    if edits == [] {
    } else {
      var next, linked := Apply(original, edits[0], libraries), ApplyAll(original, edits, libraries);
      assert Fits(|original|, edits[0], libraries);
      if edits[0].name in libraries { SpliceAt(original, edits[0], libraries); }
      ApplyAllIsLinked(next, edits[1..], libraries);
      forall e, i | e in edits && e.name in libraries && Fits(|original|, e, libraries) && Covers(e, i)
        ensures linked[i] == Digit(e, libraries, i)
      {
        CoveredByFirstOrRest(original, edits, libraries, next, linked, e, i);
      }
      forall i | 0 <= i < |original| && !Touched(edits, libraries, i) ensures linked[i] == original[i] {
        UncoveredByFirstAndRest(original, edits, libraries, next, linked, i);
      }
    }
  }

  /** The order of visits does not matter: any two lists of the same edits link alike. */
  lemma OrderDoesNotMatter(original: string, edits: seq<Edit>, reordered: seq<Edit>, libraries: Libraries)
    requires WellFormed(|original|, edits, libraries)
    requires multiset(edits) == multiset(reordered)
    ensures ApplyAll(original, edits, libraries) == ApplyAll(original, reordered, libraries)
  {
    forall e ensures e in edits <==> e in reordered {
      assert e in multiset(edits) <==> e in multiset(reordered);
    }
    ApplyAllIsLinked(original, edits, libraries);
    ApplyAllIsLinked(original, reordered, libraries);
    forall i ensures Touched(edits, libraries, i) <==> Touched(reordered, libraries, i) {
      if Touched(edits, libraries, i) {
        var e :| e in edits && e.name in libraries && Covers(e, i);
        assert e in reordered;
      }
    }
    LinkedIsUnique(original, edits, libraries, ApplyAll(original, edits, libraries),
                   ApplyAll(original, reordered, libraries));
  }

  lemma {:induction false} LengthIsKept(original: string, edits: seq<Edit>, libraries: Libraries)
    requires AllFit(|original|, edits, libraries)
    ensures |ApplyAll(original, edits, libraries)| == |original|
    decreases |edits|
  {
    if edits == [] {
    } else {
      assert Fits(|original|, edits[0], libraries);
      LengthIsKept(Apply(original, edits[0], libraries), edits[1..], libraries);
    }
  }

  /** Some order of the visits ends with a given edit, whose digits then stand in its hole. */
  lemma LastDecides(original: string, edits: seq<Edit>, libraries: Libraries, e: Edit, i: int)
    returns (reordered: seq<Edit>)
    requires AllFit(|original|, edits, libraries) && e in edits && e.name in libraries && Covers(e, i)
    ensures multiset(reordered) == multiset(edits)
    ensures |ApplyAll(original, reordered, libraries)| == |original|
    ensures ApplyAll(original, reordered, libraries)[i] == Digit(e, libraries, i)
  {
    var k :| 0 <= k < |edits| && edits[k] == e;
    var others := edits[..k] + edits[k + 1..];
    reordered := others + [e];
    assert edits == edits[..k] + [e] + edits[k + 1..];
    ApplyAllConcat(original, others, [e], libraries);
    LengthIsKept(original, others, libraries);
    var before := ApplyAll(original, others, libraries);
    SpliceAt(before, e, libraries);
    assert ApplyAll(before, [e], libraries) == ApplyAll(Apply(before, e, libraries), [], libraries);
  }

  /** And only for those: edits that fit link alike in every order exactly when they put the same
      digits where they overlap. */
  lemma OrderDoesNotMatterIff(original: string, edits: seq<Edit>, libraries: Libraries)
    requires AllFit(|original|, edits, libraries)
    ensures (forall reordered: seq<Edit> | multiset(reordered) == multiset(edits) ::
               ApplyAll(original, reordered, libraries) == ApplyAll(original, edits, libraries))
            <==> WellFormed(|original|, edits, libraries)
  {
    if WellFormed(|original|, edits, libraries) {
      forall reordered: seq<Edit> | multiset(reordered) == multiset(edits)
        ensures ApplyAll(original, reordered, libraries) == ApplyAll(original, edits, libraries)
      {
        OrderDoesNotMatter(original, edits, reordered, libraries);
      }
    } else {
      var e, f :| e in edits && f in edits && e.name in libraries && f.name in libraries
                  && !SameDigits(e, f, libraries);
      var i :| Covers(e, i) && Covers(f, i) && Digit(e, libraries, i) != Digit(f, libraries, i);
      var one := LastDecides(original, edits, libraries, e, i);
      var other := LastDecides(original, edits, libraries, f, i);
    }
  }

  lemma SubmapIsWellFormed(size: nat, edits: seq<Edit>, part: Libraries, whole: Libraries)
    requires forall name <- part :: name in whole && whole[name] == part[name]
    requires WellFormed(size, edits, whole)
    ensures WellFormed(size, edits, part)
  {
    forall e | e in edits ensures Fits(size, e, part) { assert Fits(size, e, whole); }
    forall e, f | e in edits && f in edits && e.name in part && f.name in part ensures SameDigits(e, f, part) {
      assert SameDigits(e, f, whole);
      forall i | Covers(e, i) && Covers(f, i) ensures Digit(e, part, i) == Digit(f, part, i) {
        assert Digit(e, whole, i) == Digit(f, whole, i);
      }
    }
  }

  /** Linking in two stages is linking once with both sets of libraries, the later one winning. */
  lemma StagedLinking(original: string, edits: seq<Edit>, first: Libraries, second: Libraries)
    requires WellFormed(|original|, edits, first) && WellFormed(|original|, edits, first + second)
    ensures ApplyAll(ApplyAll(original, edits, first), edits, second)
            == ApplyAll(original, edits, first + second)
  {
    var both, once := first + second, ApplyAll(original, edits, first);
    var twice := ApplyAll(once, edits, second);
    ApplyAllIsLinked(original, edits, first);
    SubmapIsWellFormed(|original|, edits, second, both);
    ApplyAllIsLinked(once, edits, second);
    ApplyAllIsLinked(original, edits, both);
    forall e, i | e in edits && e.name in both && Fits(|original|, e, both) && Covers(e, i)
      ensures twice[i] == Digit(e, both, i)
    {
      StagedDigit(original, once, twice, edits, first, second, e, i);
    }
    forall i | 0 <= i < |original| && !Touched(edits, both, i) ensures twice[i] == original[i] {
      TouchedByPart(edits, first, edits, both, i);
      TouchedByPart(edits, second, edits, both, i);
    }
    LinkedIsUnique(original, edits, both, twice, ApplyAll(original, edits, both));
  }

  lemma StagedDigit(original: string, once: string, twice: string, edits: seq<Edit>,
                    first: Libraries, second: Libraries, e: Edit, i: int)
    requires WellFormed(|original|, edits, first + second)
    requires IsLinked(original, edits, first, once) && IsLinked(once, edits, second, twice)
    requires e in edits && e.name in first + second && Covers(e, i)
    ensures HasDigits(e, first + second) && 0 <= i < |twice| && twice[i] == Digit(e, first + second, i)
  {
    var both := first + second;
    assert Fits(|original|, e, both);
    if Touched(edits, second, i) {
      var f :| f in edits && f.name in second && Covers(f, i);
      assert Fits(|original|, f, both);
      assert Fits(|once|, f, second);
      assert SameDigits(e, f, both);
      assert twice[i] == Digit(f, second, i) == Digit(f, both, i);
    } else {
      assert e.name !in second;
      assert Fits(|original|, e, first);
      assert once[i] == Digit(e, first, i);
    }
  }

  // ---------- the same by position in the artifact ----------

  /** The artifact lists, as fixup k of library j of file i, a hole of a library that has an address. */
  predicate IsHole(artifact: Artifact, libraries: Libraries, i: int, j: int, k: int) {
    var files := artifact.linkReferences;
    && 0 <= i < |files| && 0 <= j < |files[i].libraries|
    && files[i].libraries[j].name in libraries
    && 0 <= k < |files[i].libraries[j].fixups|
  }

  function HoleAt(artifact: Artifact, libraries: Libraries, i: int, j: int, k: int): Fixup
    requires IsHole(artifact, libraries, i, j, k)
  {
    artifact.linkReferences[i].libraries[j].fixups[k]
  }

  function AddressAt(artifact: Artifact, libraries: Libraries, i: int, j: int, k: int): string
    requires IsHole(artifact, libraries, i, j, k)
  {
    libraries[artifact.linkReferences[i].libraries[j].name]
  }

  /** The hole spans character c: two digits a byte, after the "0x". */
  predicate Spans(hole: Fixup, c: int) {
    2 + 2 * hole.start <= c < 2 + 2 * hole.start + 2 * hole.length
  }

  /** Every hole lies inside the bytecode and has the length of its address. */
  ghost predicate HolesFit(artifact: Artifact, libraries: Libraries) {
    forall i, j, k | IsHole(artifact, libraries, i, j, k) ::
      var hole := HoleAt(artifact, libraries, i, j, k);
      && 2 + 2 * hole.start + 2 * hole.length <= |artifact.bytecode|
      && |AddressAt(artifact, libraries, i, j, k)| == 2 + 2 * hole.length
  }

  /** Holes that overlap are filled with the same digits there. */
  ghost predicate HolesAgree(artifact: Artifact, libraries: Libraries)
    requires HolesFit(artifact, libraries)
  {
    forall i, j, k, i', j', k' | IsHole(artifact, libraries, i, j, k) && IsHole(artifact, libraries, i', j', k') ::
      AgreeOnOverlap(HoleAt(artifact, libraries, i, j, k), AddressAt(artifact, libraries, i, j, k),
                     HoleAt(artifact, libraries, i', j', k'), AddressAt(artifact, libraries, i', j', k'))
  }

  ghost predicate AgreeOnOverlap(hole: Fixup, addr: string, hole': Fixup, addr': string)
    requires |addr| == 2 + 2 * hole.length && |addr'| == 2 + 2 * hole'.length
  {
    forall c | Spans(hole, c) && Spans(hole', c) :: addr[c - 2 * hole.start] == addr'[c - 2 * hole'.start]
  }

  /** Every hole holds its address without the "0x", and every character outside all holes is kept. */
  ghost predicate IsFilled(artifact: Artifact, libraries: Libraries, linked: string)
    requires HolesFit(artifact, libraries)
  {
    && |linked| == |artifact.bytecode|
    && (forall i, j, k | IsHole(artifact, libraries, i, j, k) ::
          Filled(linked, HoleAt(artifact, libraries, i, j, k), AddressAt(artifact, libraries, i, j, k)))
    && (forall c | 0 <= c < |linked| && !InSomeHole(artifact, libraries, c) :: linked[c] == artifact.bytecode[c])
  }

  predicate Filled(linked: string, hole: Fixup, addr: string)
    requires |addr| == 2 + 2 * hole.length && 2 + 2 * hole.start + 2 * hole.length <= |linked|
  {
    linked[2 + 2 * hole.start..2 + 2 * hole.start + 2 * hole.length] == addr[2..]
  }

  ghost predicate InSomeHole(artifact: Artifact, libraries: Libraries, c: int) {
    exists i, j, k :: IsHole(artifact, libraries, i, j, k) && Spans(HoleAt(artifact, libraries, i, j, k), c)
  }

  lemma {:induction false} FixupEditsList(name: string, fixups: seq<Fixup>, e: Edit)
    ensures e in FixupEdits(name, fixups) <==> e.name == name && e.fixup in fixups
  {
    if fixups == [] {
    } else {
      FixupEditsList(name, fixups[1..], e);
      assert fixups == [fixups[0]] + fixups[1..];
    }
  }

  lemma {:induction false} LibraryEditsList(references: seq<LibraryReferences>, e: Edit)
    ensures e in LibraryEdits(references)
            <==> exists j | 0 <= j < |references| :: references[j].name == e.name && e.fixup in references[j].fixups
  {
    if references == [] {
    } else {
      FixupEditsList(references[0].name, references[0].fixups, e);
      LibraryEditsList(references[1..], e);
      assert references == [references[0]] + references[1..];
      forall j | 0 <= j < |references| - 1 ensures references[1..][j] == references[j + 1] {}
    }
  }

  lemma {:induction false} FileEditsList(references: seq<FileReferences>, e: Edit)
    ensures e in FileEdits(references)
            <==> exists i | 0 <= i < |references| :: e in LibraryEdits(references[i].libraries)
  {
    if references == [] {
    } else {
      FileEditsList(references[1..], e);
      assert references == [references[0]] + references[1..];
      forall i | 0 <= i < |references| - 1 ensures references[1..][i] == references[i + 1] {}
    }
  }

  /** The resolved edits are exactly the holes. */
  lemma EditIsHole(artifact: Artifact, libraries: Libraries, e: Edit) returns (i: int, j: int, k: int)
    requires e in FileEdits(artifact.linkReferences) && e.name in libraries
    ensures IsHole(artifact, libraries, i, j, k)
    ensures e.fixup == HoleAt(artifact, libraries, i, j, k)
    ensures libraries[e.name] == AddressAt(artifact, libraries, i, j, k)
  {
    var files := artifact.linkReferences;
    FileEditsList(files, e);
    i :| 0 <= i < |files| && e in LibraryEdits(files[i].libraries);
    LibraryEditsList(files[i].libraries, e);
    j :| 0 <= j < |files[i].libraries| && files[i].libraries[j].name == e.name && e.fixup in files[i].libraries[j].fixups;
    k :| 0 <= k < |files[i].libraries[j].fixups| && files[i].libraries[j].fixups[k] == e.fixup;
  }

  lemma HoleIsEdit(artifact: Artifact, libraries: Libraries, i: int, j: int, k: int) returns (e: Edit)
    requires IsHole(artifact, libraries, i, j, k)
    ensures e in FileEdits(artifact.linkReferences) && e.name in libraries
    ensures e.fixup == HoleAt(artifact, libraries, i, j, k)
    ensures libraries[e.name] == AddressAt(artifact, libraries, i, j, k)
  {
    var files := artifact.linkReferences;
    var library := files[i].libraries[j];
    e := Edit(library.name, library.fixups[k]);
    LibraryEditsList(files[i].libraries, e);
    FileEditsList(files, e);
  }

  lemma TouchedIsInHole(artifact: Artifact, libraries: Libraries, c: int)
    ensures Touched(FileEdits(artifact.linkReferences), libraries, c) ==> InSomeHole(artifact, libraries, c)
  {
    if Touched(FileEdits(artifact.linkReferences), libraries, c) {
      var e :| e in FileEdits(artifact.linkReferences) && e.name in libraries && Covers(e, c);
      var i, j, k := EditIsHole(artifact, libraries, e);
      assert Spans(HoleAt(artifact, libraries, i, j, k), c);
    }
  }

  lemma HolesFitAsEdits(artifact: Artifact, libraries: Libraries)
    requires HolesFit(artifact, libraries)
    ensures AllFit(|artifact.bytecode|, FileEdits(artifact.linkReferences), libraries)
  {
    var edits, size := FileEdits(artifact.linkReferences), |artifact.bytecode|;
    forall e | e in edits ensures Fits(size, e, libraries) {
      if e.name in libraries {
        var i, j, k := EditIsHole(artifact, libraries, e);
      }
    }
  }

  lemma HolesAgreeAsEdits(artifact: Artifact, libraries: Libraries, e: Edit, f: Edit)
    requires HolesFit(artifact, libraries) && HolesAgree(artifact, libraries)
    requires e in FileEdits(artifact.linkReferences) && f in FileEdits(artifact.linkReferences)
    requires HasDigits(e, libraries) && HasDigits(f, libraries)
    ensures SameDigits(e, f, libraries)
  {
    var i, j, k := EditIsHole(artifact, libraries, e);
    var i', j', k' := EditIsHole(artifact, libraries, f);
    assert AgreeOnOverlap(e.fixup, libraries[e.name], f.fixup, libraries[f.name]);
    forall c | Covers(e, c) && Covers(f, c) ensures Digit(e, libraries, c) == Digit(f, libraries, c) {
      assert Spans(e.fixup, c) && Spans(f.fixup, c);
    }
  }

  lemma HolesAreWellFormed(artifact: Artifact, libraries: Libraries)
    requires HolesFit(artifact, libraries) && HolesAgree(artifact, libraries)
    ensures WellFormed(|artifact.bytecode|, FileEdits(artifact.linkReferences), libraries)
  {
    var edits, size := FileEdits(artifact.linkReferences), |artifact.bytecode|;
    HolesFitAsEdits(artifact, libraries);
    forall e, f | e in edits && f in edits && e.name in libraries && f.name in libraries
      ensures SameDigits(e, f, libraries)
    {
      assert Fits(size, e, libraries) && Fits(size, f, libraries);
      HolesAgreeAsEdits(artifact, libraries, e, f);
    }
  }

  lemma HoleIsFilled(artifact: Artifact, libraries: Libraries, i: int, j: int, k: int)
    requires WellFormed(|artifact.bytecode|, FileEdits(artifact.linkReferences), libraries)
    requires IsHole(artifact, libraries, i, j, k)
    ensures var hole, linked := HoleAt(artifact, libraries, i, j, k), Link(artifact, libraries);
      && |AddressAt(artifact, libraries, i, j, k)| == 2 + 2 * hole.length
      && |linked| == |artifact.bytecode| && 2 + 2 * hole.start + 2 * hole.length <= |linked|
      && Filled(linked, hole, AddressAt(artifact, libraries, i, j, k))
  {
    var e := HoleIsEdit(artifact, libraries, i, j, k);
    assert Fits(|artifact.bytecode|, e, libraries);
    LinkedHoleHoldsAddress(artifact, libraries, e);
  }

  lemma OutsideIsKept(artifact: Artifact, libraries: Libraries, c: int)
    requires WellFormed(|artifact.bytecode|, FileEdits(artifact.linkReferences), libraries)
    requires 0 <= c < |artifact.bytecode| && !InSomeHole(artifact, libraries, c)
    ensures |Link(artifact, libraries)| == |artifact.bytecode|
    ensures Link(artifact, libraries)[c] == artifact.bytecode[c]
  {
    ApplyAllIsLinked(artifact.bytecode, FileEdits(artifact.linkReferences), libraries);
    TouchedIsInHole(artifact, libraries, c);
  }

  /** Linking fills every hole of every library that has an address, and changes nothing else. */
  lemma LinkFillsEveryHole(artifact: Artifact, libraries: Libraries)
    requires HolesFit(artifact, libraries) && HolesAgree(artifact, libraries)
    ensures IsFilled(artifact, libraries, Link(artifact, libraries))
  {
    var linked := Link(artifact, libraries);
    HolesAreWellFormed(artifact, libraries);
    LengthIsKept(artifact.bytecode, FileEdits(artifact.linkReferences), libraries);
    forall i, j, k | IsHole(artifact, libraries, i, j, k)
      ensures Filled(linked, HoleAt(artifact, libraries, i, j, k), AddressAt(artifact, libraries, i, j, k))
    {
      HoleIsFilled(artifact, libraries, i, j, k);
    }
    forall c | 0 <= c < |linked| && !InSomeHole(artifact, libraries, c) ensures linked[c] == artifact.bytecode[c] {
      OutsideIsKept(artifact, libraries, c);
    }
  }

  /** An artifact whose bytecode has been linked already. */
  function Relinked(artifact: Artifact, libraries: Libraries): Artifact {
    artifact.(bytecode := Link(artifact, libraries))
  }

  predicate Agree(first: Libraries, second: Libraries) {
    forall name <- first | name in second :: first[name] == second[name]
  }

  /** Stages that agree commute, and linking twice with the same libraries is linking once. */
  lemma StagesCommute(artifact: Artifact, first: Libraries, second: Libraries)
    requires Agree(first, second)
    requires WellFormed(|artifact.bytecode|, FileEdits(artifact.linkReferences), first + second)
    ensures Link(Relinked(artifact, first), second) == Link(artifact, first + second)
    ensures Link(Relinked(artifact, second), first) == Link(artifact, first + second)
    ensures Link(Relinked(artifact, first), first) == Link(artifact, first)
  {
    var edits, size := FileEdits(artifact.linkReferences), |artifact.bytecode|;
    assert second + first == first + second;
    assert first + first == first;
    SubmapIsWellFormed(size, edits, first, first + second);
    SubmapIsWellFormed(size, edits, second, first + second);
    StagedLinking(artifact.bytecode, edits, first, second);
    StagedLinking(artifact.bytecode, edits, second, first);
    StagedLinking(artifact.bytecode, edits, first, first);
  }

  /** The address occupies its hole in the linked bytecode. */
  lemma LinkedHoleHoldsAddress(artifact: Artifact, libraries: Libraries, edit: Edit)
    requires WellFormed(|artifact.bytecode|, FileEdits(artifact.linkReferences), libraries)
    requires edit in FileEdits(artifact.linkReferences) && edit.name in libraries
    ensures |Link(artifact, libraries)| == |artifact.bytecode|
    ensures HoleContents(Link(artifact, libraries), edit.fixup) == SubstrFrom(libraries[edit.name], 2)
  {
    var linked := Link(artifact, libraries);
    ApplyAllIsLinked(artifact.bytecode, FileEdits(artifact.linkReferences), libraries);
    assert Fits(|artifact.bytecode|, edit, libraries);
    HoleIs(linked, edit, libraries[edit.name]);
  }

  lemma HoleIs(linked: string, edit: Edit, addr: string)
    requires |addr| == 2 + edit.fixup.length * 2 && 2 + (edit.fixup.start + edit.fixup.length) * 2 <= |linked|
    requires forall i | Covers(edit, i) :: linked[i] == addr[i - edit.fixup.start * 2]
    ensures HoleContents(linked, edit.fixup) == addr[2..]
  {
    var from := 2 + edit.fixup.start * 2;
    var hole := linked[from..][..edit.fixup.length * 2];
    forall i | 0 <= i < |hole| ensures hole[i] == addr[2..][i] {
      assert Covers(edit, from + i);
    }
  }

  function HoleContents(bytecode: string, fixup: Fixup): string {
    SubstrTo(SubstrFrom(bytecode, 2 + fixup.start * 2), fixup.length * 2)
  }
}

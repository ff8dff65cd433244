/** `MVTecAD._find_classes`: the class list and the class-name to label map
    built from the sub-directories of a split folder. */
module ClassIndex {
  import opened Text
  import opened Outcomes

  /** The folder of defect-free samples; its label is meant to be 0. */
  const Good: string := "good"

  /** One entry returned by a directory scan: its name and whether it is a directory. */
  datatype DirEntry = DirEntry(name: string, isDir: bool)

  /** The pair `_find_classes` returns: `(classes, class_to_idx)`. */
  datatype Classes = Classes(classes: seq<string>, classToIdx: map<string, int>)

  /** A directory never lists the same name twice. */
  ghost predicate UniqueNames(scan: seq<DirEntry>)
  {
    forall i, j :: 0 <= i < j < |scan| ==> scan[i].name != scan[j].name
  }

  // ---------------------------------------------------------------------------
  // The list operations `_find_classes` is made of.
  // ---------------------------------------------------------------------------

  /** `[d.name for d in scan if d.is_dir()]`: the sub-directory names, in scan order. */
  function SubdirNames(scan: seq<DirEntry>): (names: seq<string>)
    ensures |names| <= |scan|
    ensures forall n :: n in names <==> DirEntry(n, true) in scan
  {
    if scan == [] then []
    else
      assert scan == [scan[0]] + scan[1..];
      if scan[0].isDir then [scan[0].name] + SubdirNames(scan[1..])
      else SubdirNames(scan[1..])
  }

  /** A single entry contributes its name exactly when it is a directory. */
  lemma SubdirNamesSingle(e: DirEntry)
    ensures SubdirNames([e]) == if e.isDir then [e.name] else []
  {
    assert [e][1..] == [];
  }

  /** The scan is filtered piece by piece: the names of a concatenated scan are the names of
      the first part followed by the names of the second, so order and repeats are kept. */
  lemma {:induction false} SubdirNamesAppend(a: seq<DirEntry>, b: seq<DirEntry>)
    ensures SubdirNames(a + b) == SubdirNames(a) + SubdirNames(b)
  {
    if a != [] {
      assert (a + b)[0] == a[0];
      assert (a + b)[1..] == a[1..] + b;
      SubdirNamesAppend(a[1..], b);
    } else {
      assert a + b == b;
    }
  }

  /** The position of the first occurrence of `x`. */
  function IndexOf(s: seq<string>, x: string): (k: nat)
    requires x in s
    ensures k < |s| && s[k] == x
    ensures forall j :: 0 <= j < k ==> s[j] != x
  {
    if s[0] == x then 0 else 1 + IndexOf(s[1..], x)
  }

  /** `list.remove(x)`: drops the first occurrence of `x`, keeping the order of the rest. */
  function RemoveFirst(s: seq<string>, x: string): (r: seq<string>)
    requires x in s
    ensures |r| == |s| - 1
    ensures forall j :: 0 <= j < |r| ==> r[j] == s[if j < IndexOf(s, x) then j else j + 1]
  {
    var k := IndexOf(s, x);
    assert s == s[..k] + [x] + s[k + 1..];
    s[..k] + s[k + 1..]
  }

  lemma {:induction false} RemoveFirstPermutes(s: seq<string>, x: string)
    requires x in s
    ensures multiset(RemoveFirst(s, x)) + multiset{x} == multiset(s)
    ensures multiset(RemoveFirst(s, x)) == multiset(s) - multiset{x}
  {
    var k := IndexOf(s, x);
    var before, after := s[..k], s[k + 1..];
    assert s == before + [x] + after;
    assert RemoveFirst(s, x) == before + after;
    assert multiset(s) == multiset(before) + multiset{x} + multiset(after);
  }

  /** `{c: i for i, c in enumerate(s)}`: a later occurrence of a name overwrites an earlier one. */
  function IndexMap(s: seq<string>): (m: map<string, int>)
    ensures m.Keys == set c | c in s
    ensures forall c :: c in m ==> 0 <= m[c] < |s| && s[m[c]] == c
    ensures forall c, j :: c in m && m[c] < j < |s| ==> s[j] != c
  {
    if s == [] then map[]
    else
      var init := s[..|s| - 1];
      assert s == init + [s[|s| - 1]];
      IndexMap(init)[s[|s| - 1] := |s| - 1]
  }

  /** `['good'] + classes` after `classes.remove('good')`. */
  function GoodFirst(names: seq<string>): (ordered: seq<string>)
    requires Good in names
    ensures |ordered| == |names| && ordered[0] == Good
  {
    [Good] + RemoveFirst(names, Good)
  }

  lemma {:induction false} GoodFirstPermutes(names: seq<string>)
    requires Good in names
    ensures multiset(GoodFirst(names)) == multiset(names)
  {
    RemoveFirstPermutes(names, Good);
  }

  // ---------------------------------------------------------------------------
  // _find_classes as written.
  // ---------------------------------------------------------------------------

  /** The class list is `sorted` over all sub-directory names, `'good'` included;
      the label of each name is its position once `'good'` is moved to the front. */
  function FindClasses(scan: seq<DirEntry>): (r: Result<Classes>)
    ensures r.Failure? <==> DirEntry(Good, true) !in scan
    ensures r.Failure? ==> r.error == MissingGoodClass
    ensures r.Success? ==> Sorted(r.value.classes)
    ensures r.Success? ==> multiset(r.value.classes) == multiset(SubdirNames(scan))
    ensures r.Success? ==> r.value.classToIdx.Keys == set n | n in SubdirNames(scan)
    ensures r.Success? ==> forall c :: c in r.value.classToIdx ==> 0 <= r.value.classToIdx[c] < |r.value.classes|
  {
    var names := SubdirNames(scan);
    if Good !in names then Failure(MissingGoodClass)
    else
      var ordered := GoodFirst(names);
      GoodFirstPermutes(names);
      assert forall c :: c in ordered <==> c in multiset(names);
      Success(Classes(Sort(ordered), IndexMap(ordered)))
  }

  // ---------------------------------------------------------------------------
  // Helper facts.
  // ---------------------------------------------------------------------------

  lemma {:induction false} SubdirNamesDistinct(scan: seq<DirEntry>)
    requires UniqueNames(scan)
    ensures Distinct(SubdirNames(scan))
  {
    if scan != [] {
      SubdirNamesDistinct(scan[1..]);
      var rest := SubdirNames(scan[1..]);
      forall k | 0 <= k < |rest| ensures rest[k] != scan[0].name {
        assert DirEntry(rest[k], true) in scan[1..];
        var j :| 0 <= j < |scan[1..]| && scan[1..][j] == DirEntry(rest[k], true);
        assert scan[j + 1].name == rest[k];
      }
    }
  }

  lemma {:induction false} DistinctCountAtMostOne(s: seq<string>, x: string)
    requires Distinct(s)
    ensures multiset(s)[x] <= 1
  {
    if s != [] {
      assert s == [s[0]] + s[1..];
      DistinctCountAtMostOne(s[1..], x);
      if s[0] == x {
        assert x !in s[1..];
      }
    }
  }

  /** A rearrangement of a list without repeats has no repeats. */
  lemma {:induction false} DistinctPermutation(a: seq<string>, b: seq<string>)
    requires Distinct(a) && multiset(a) == multiset(b)
    ensures Distinct(b)
  {
    forall i, j | 0 <= i < j < |b| ensures b[i] != b[j] {
      if b[i] == b[j] {
        assert b == b[..j] + b[j..];
        assert b[i] in multiset(b[..j]);
        assert b[j] in multiset(b[j..]);
        assert multiset(b)[b[i]] >= 2;
        DistinctCountAtMostOne(a, b[i]);
        assert false;
      }
    }
  }

  lemma {:induction false} DistinctCardinality(s: seq<string>)
    requires Distinct(s)
    ensures |set c | c in s| == |s|
  {
    if s != [] {
      var init := s[..|s| - 1];
      DistinctCardinality(init);
      assert (set c | c in s) == (set c | c in init) + {s[|s| - 1]};
      assert s[|s| - 1] !in (set c | c in init);
    }
  }

  /** Without repeats, the enumerate-map sends each name to its position. */
  lemma {:induction false} IndexMapOfDistinct(s: seq<string>)
    requires Distinct(s)
    ensures forall i :: 0 <= i < |s| ==> s[i] in IndexMap(s) && IndexMap(s)[s[i]] == i
  {
  }

  /** Without repeats, the enumerate-map is a bijection from the names onto their positions. */
  lemma {:induction false} IndexMapBijection(s: seq<string>)
    requires Distinct(s)
    ensures var m := IndexMap(s);
            && |m| == |s|
            && (forall v :: v in m.Values <==> 0 <= v < |s|)
            && forall a, b :: a in m && b in m && m[a] == m[b] ==> a == b
  {
    var m := IndexMap(s);
    DistinctCardinality(s);
    assert |m| == |m.Keys|;
    IndexMapOfDistinct(s);
    forall v | 0 <= v < |s| ensures v in m.Values {
      assert m[s[v]] == v;
    }
  }

  /** Where the name at scan position `i` lands once `'good'`, at position `g`, is moved to the front. */
  function ShiftedPosition(i: nat, g: nat): (p: nat)
    ensures p <= i || p <= g
    ensures p == 0 <==> i == g
  {
    if i == g then 0 else if i < g then i + 1 else i
  }

  /** A list whose head is `names[g]` followed by the other names in order holds each name at its ShiftedPosition. */
  lemma {:induction false} MoveToFrontLayout(names: seq<string>, ordered: seq<string>, g: nat)
    requires g < |names| && |ordered| == |names| && ordered[0] == names[g]
    requires forall j :: 1 <= j < |ordered| ==> ordered[j] == names[if j - 1 < g then j - 1 else j]
    ensures forall i :: 0 <= i < |names| ==> ordered[ShiftedPosition(i, g)] == names[i]
  {
    forall i | 0 <= i < |names| ensures ordered[ShiftedPosition(i, g)] == names[i] {
      if i < g {
        assert ordered[i + 1] == names[i];
      } else if i > g {
        assert ordered[i] == names[i];
      }
    }
  }

  lemma {:induction false} GoodFirstLayout(names: seq<string>)
    requires Good in names
    ensures var g := IndexOf(names, Good);
            forall i :: 0 <= i < |names| ==> GoodFirst(names)[ShiftedPosition(i, g)] == names[i]
  {
    var g := IndexOf(names, Good);
    var ordered := GoodFirst(names);
    var rest := RemoveFirst(names, Good);
    assert ordered == [Good] + rest;
    forall j | 1 <= j < |ordered| ensures ordered[j] == names[if j - 1 < g then j - 1 else j] {
      assert ordered[j] == rest[j - 1];
    }
    MoveToFrontLayout(names, ordered, g);
  }

  /** Moving `'good'` to the front of unique names keeps them unique. */
  lemma {:induction false} GoodFirstDistinct(names: seq<string>)
    requires Distinct(names) && Good in names
    ensures Distinct(GoodFirst(names))
  {
    GoodFirstPermutes(names);
    DistinctPermutation(names, GoodFirst(names));
  }

  lemma {:induction false} GoodFirstIndices(names: seq<string>)
    requires Distinct(names) && Good in names
    ensures forall i :: 0 <= i < |names| ==>
      names[i] in IndexMap(GoodFirst(names)) &&
      IndexMap(GoodFirst(names))[names[i]] == ShiftedPosition(i, IndexOf(names, Good))
  {
    var g := IndexOf(names, Good);
    var ordered := GoodFirst(names);
    GoodFirstLayout(names);
    GoodFirstDistinct(names);
    IndexMapOfDistinct(ordered);
    var m := IndexMap(ordered);
    forall i | 0 <= i < |names| ensures names[i] in m && m[names[i]] == ShiftedPosition(i, g) {
      var p := ShiftedPosition(i, g);
      assert ordered[p] == names[i];
      assert m[ordered[p]] == p;
    }
  }

  // ---------------------------------------------------------------------------
  // What _find_classes promises, and what it does not.
  // ---------------------------------------------------------------------------

  /** With `'good'` present, `'good'` gets label 0. */
  lemma {:induction false} GoodIndexIsZero(scan: seq<DirEntry>)
    requires UniqueNames(scan) && DirEntry(Good, true) in scan
    ensures FindClasses(scan).Success?
    ensures Good in FindClasses(scan).value.classToIdx
    ensures FindClasses(scan).value.classToIdx[Good] == 0
  {
    var names := SubdirNames(scan);
    SubdirNamesDistinct(scan);
    GoodFirstIndices(names);
    assert names[IndexOf(names, Good)] == Good;
  }

  /** Every other name keeps its scan position, moved up by one when it was scanned before `'good'`. */
  lemma {:induction false} IndexIsShiftedScanPosition(scan: seq<DirEntry>)
    requires UniqueNames(scan) && DirEntry(Good, true) in scan
    ensures FindClasses(scan).Success?
    ensures var names := SubdirNames(scan);
            var g := IndexOf(names, Good);
            var m := FindClasses(scan).value.classToIdx;
            forall i :: 0 <= i < |names| ==>
              names[i] in m && m[names[i]] == (if i == g then 0 else if i < g then i + 1 else i)
  {
    SubdirNamesDistinct(scan);
    GoodFirstIndices(SubdirNames(scan));
  }

  /** The labels are a bijection from the scanned sub-directory names onto `0 .. n-1`. */
  lemma {:induction false} IndicesAreBijection(scan: seq<DirEntry>)
    requires UniqueNames(scan) && DirEntry(Good, true) in scan
    ensures FindClasses(scan).Success?
    ensures var n := |SubdirNames(scan)|;
            var m := FindClasses(scan).value.classToIdx;
            && |m| == n
            && (forall v :: v in m.Values <==> 0 <= v < n)
            && forall a, b :: a in m && b in m && m[a] == m[b] ==> a == b
  {
    var names := SubdirNames(scan);
    var ordered := GoodFirst(names);
    assert FindClasses(scan).value.classToIdx == IndexMap(ordered);
    SubdirNamesDistinct(scan);
    GoodFirstPermutes(names);
    DistinctPermutation(names, ordered);
    IndexMapBijection(ordered);
  }

  /** `classes` is the one sorted arrangement of the scanned names, `'good'` included. */
  lemma {:induction false} ClassesAreSortedScan(scan: seq<DirEntry>, s: seq<string>)
    requires FindClasses(scan).Success?
    requires Sorted(s) && multiset(s) == multiset(SubdirNames(scan))
    ensures FindClasses(scan).value.classes == s
  {
    SortedPermutationUnique(FindClasses(scan).value.classes, s);
  }

  lemma {:induction false} SortedNamesGiveAlphabeticalIndices(names: seq<string>, a: string, b: string)
    requires Distinct(names) && Sorted(names) && Good in names
    requires a in names && b in names && a != Good && b != Good
    ensures var m := IndexMap(GoodFirst(names)); m[a] < m[b] <==> LexLt(a, b)
  {
    var g := IndexOf(names, Good);
    var i := IndexOf(names, a);
    var j := IndexOf(names, b);
    GoodFirstIndices(names);
    assert i != g && j != g;
    SortedDistinctOrder(names, i, j);
  }

  /** When the scan already lists the names alphabetically, the defect labels follow
      alphabetical order, as the class documentation says they always do. */
  lemma {:induction false} SortedScanGivesAlphabeticalIndices(scan: seq<DirEntry>)
    requires UniqueNames(scan) && DirEntry(Good, true) in scan
    requires Sorted(SubdirNames(scan))
    ensures FindClasses(scan).Success?
    ensures var m := FindClasses(scan).value.classToIdx;
            forall a, b :: a in m && b in m && a != Good && b != Good ==> (m[a] < m[b] <==> LexLt(a, b))
  {
    var names := SubdirNames(scan);
    var m := FindClasses(scan).value.classToIdx;
    SubdirNamesDistinct(scan);
    assert m == IndexMap(GoodFirst(names));
    forall a, b | a in m && b in m && a != Good && b != Good ensures m[a] < m[b] <==> LexLt(a, b) {
      SortedNamesGiveAlphabeticalIndices(names, a, b);
    }
  }

  /** Alphabetical enumerate-labels after a leading `'good'` force the other names to be sorted. */
  lemma {:induction false} AlphabeticalLabelsForceSorted(ordered: seq<string>)
    requires Distinct(ordered) && ordered != [] && ordered[0] == Good
    requires var m := IndexMap(ordered);
             forall a, b :: a in m && b in m && a != Good && b != Good ==> (m[a] < m[b] <==> LexLt(a, b))
    ensures Sorted(ordered[1..])
  {
    var m := IndexMap(ordered);
    var rest := ordered[1..];
    IndexMapOfDistinct(ordered);
    forall k, l | 0 <= k < l < |rest| ensures LexLe(rest[k], rest[l]) {
      var a, b := ordered[k + 1], ordered[l + 1];
      assert rest[k] == a && rest[l] == b;
      assert ordered[0] != a && ordered[0] != b;
      assert a in m && b in m && m[a] == k + 1 && m[b] == l + 1;
      assert LexLt(a, b);
    }
  }

  /** In a list of unique names that starts with `'good'`, the enumerate-labels of the other
      names follow alphabetical order exactly when those names are themselves sorted. */
  lemma {:induction false} GoodThenAlphabeticalIffSorted(ordered: seq<string>)
    requires Distinct(ordered) && ordered != [] && ordered[0] == Good
    ensures var m := IndexMap(ordered);
            (forall a, b :: a in m && b in m && a != Good && b != Good ==> (m[a] < m[b] <==> LexLt(a, b)))
            <==> Sorted(ordered[1..])
  {
    var m := IndexMap(ordered);
    if Sorted(ordered[1..]) {
      GoodThenSortedIndices(ordered);
    }
    if forall a, b :: a in m && b in m && a != Good && b != Good ==> (m[a] < m[b] <==> LexLt(a, b)) {
      AlphabeticalLabelsForceSorted(ordered);
    }
  }

  /** The defect labels `_find_classes` hands out follow alphabetical order exactly when the
      scan lists the defect directories, `'good'` aside, alphabetically. */
  lemma {:induction false} DefectLabelsAlphabeticalIff(scan: seq<DirEntry>)
    requires UniqueNames(scan) && DirEntry(Good, true) in scan
    ensures FindClasses(scan).Success?
    ensures var m := FindClasses(scan).value.classToIdx;
            (forall a, b :: a in m && b in m && a != Good && b != Good ==> (m[a] < m[b] <==> LexLt(a, b)))
            <==> Sorted(RemoveFirst(SubdirNames(scan), Good))
  {
    var names := SubdirNames(scan);
    var ordered := GoodFirst(names);
    assert FindClasses(scan).value.classToIdx == IndexMap(ordered);
    assert ordered[1..] == RemoveFirst(names, Good);
    SubdirNamesDistinct(scan);
    GoodFirstPermutes(names);
    DistinctPermutation(names, ordered);
    GoodThenAlphabeticalIffSorted(ordered);
  }

  /** The scan `good, crack, dent` is not alphabetical as a whole, since `'crack'` sorts before
      `'good'`, yet its defect labels are: sortedness of the whole scan is sufficient, not necessary. */
  lemma UnsortedScanWithAlphabeticalLabels()
    ensures var scan := [DirEntry(Good, true), DirEntry("crack", true), DirEntry("dent", true)];
            var r := FindClasses(scan);
            && !Sorted(SubdirNames(scan))
            && r.Success? && "crack" in r.value.classToIdx && "dent" in r.value.classToIdx
            && r.value.classToIdx["crack"] == 1 && r.value.classToIdx["dent"] == 2
  {
    var scan := [DirEntry(Good, true), DirEntry("crack", true), DirEntry("dent", true)];
    ThreeSubdirs(Good, "crack", "dent");
    IndexIsShiftedScanPosition(scan);
    var names := SubdirNames(scan);
    assert names[0] == Good && names[1] == "crack";
    assert !LexLe(names[0], names[1]);
  }

  lemma ThreeSubdirs(a: string, b: string, c: string)
    requires a != b && b != c && a != c
    ensures var scan := [DirEntry(a, true), DirEntry(b, true), DirEntry(c, true)];
            SubdirNames(scan) == [a, b, c] && UniqueNames(scan)
  {
    var scan := [DirEntry(a, true), DirEntry(b, true), DirEntry(c, true)];
    assert SubdirNames(scan[2..]) == [c];
    assert SubdirNames(scan[1..]) == [b, c];
  }

  /** The labels follow the scan, not the alphabet: whenever `x` sorts before `y`,
      a scan that lists `y` before `x` gives `y` the smaller label. */
  lemma {:induction false} ScanOrderDecidesIndices(x: string, y: string)
    requires LexLt(x, y) && x != Good && y != Good
    ensures var r := FindClasses([DirEntry(Good, true), DirEntry(y, true), DirEntry(x, true)]);
            && r.Success? && x in r.value.classToIdx && y in r.value.classToIdx
            && r.value.classToIdx[y] == 1 && r.value.classToIdx[x] == 2
  {
    var scan := [DirEntry(Good, true), DirEntry(y, true), DirEntry(x, true)];
    ThreeSubdirs(Good, y, x);
    IndexIsShiftedScanPosition(scan);
  }

  /** In a sorted list, a member comes first exactly when it is at most every element. */
  lemma {:induction false} SortedFirstIsLeast(cs: seq<string>, g: string)
    requires Sorted(cs) && g in cs
    ensures cs[0] == g <==> forall n :: n in cs ==> LexLe(g, n)
  {
    if cs[0] == g {
      forall n | n in cs ensures LexLe(g, n) {
        var k :| 0 <= k < |cs| && cs[k] == n;
        if k == 0 { LexLeRefl(n); }
      }
    }
    if forall n :: n in cs ==> LexLe(g, n) {
      var k :| 0 <= k < |cs| && cs[k] == g;
      assert LexLe(g, cs[0]);
      if k != 0 {
        assert LexLe(cs[0], cs[k]);
        LexLeAntisymmetric(g, cs[0]);
      }
    }
  }

  /** The position `class_to_idx['good']` of the class list holds `'good'` exactly when
      no scanned name sorts before `'good'`. */
  lemma {:induction false} GoodLabelNamesGoodIffFirst(scan: seq<DirEntry>)
    requires UniqueNames(scan) && DirEntry(Good, true) in scan
    ensures FindClasses(scan).Success?
    ensures var r := FindClasses(scan).value;
            Good in r.classToIdx && 0 <= r.classToIdx[Good] < |r.classes| &&
            (r.classes[r.classToIdx[Good]] == Good <==> forall n :: n in SubdirNames(scan) ==> LexLe(Good, n))
  {
    var names := SubdirNames(scan);
    var cs := FindClasses(scan).value.classes;
    GoodIndexIsZero(scan);
    assert forall c :: c in cs <==> c in names by {
      assert forall c :: c in cs <==> c in multiset(cs);
      assert forall c :: c in names <==> c in multiset(names);
    }
    assert (forall n :: n in names ==> LexLe(Good, n)) <==> (forall n :: n in cs ==> LexLe(Good, n));
    SortedFirstIsLeast(cs, Good);
  }

  /** The class documentation's own layout, `good`, `crack` and `dent`: the scan
      `good, dent, crack` numbers `dent` before `crack`, and `classes[class_to_idx['good']]`
      is `crack`. */
  lemma DocumentedNumberingFails()
    ensures var r := FindClasses([DirEntry(Good, true), DirEntry("dent", true), DirEntry("crack", true)]);
            && r.Success? && LexLt("crack", "dent")
            && "crack" in r.value.classToIdx && "dent" in r.value.classToIdx && Good in r.value.classToIdx
            && r.value.classToIdx["crack"] > r.value.classToIdx["dent"]
            && 0 <= r.value.classToIdx[Good] < |r.value.classes|
            && r.value.classes[r.value.classToIdx[Good]] != Good
  {
    var scan := [DirEntry(Good, true), DirEntry("dent", true), DirEntry("crack", true)];
    assert LexLt("crack", "dent");
    assert !LexLe(Good, "crack");
    ScanOrderDecidesIndices("crack", "dent");
    ThreeSubdirs(Good, "dent", "crack");
    GoodLabelNamesGoodIffFirst(scan);
  }

  // ---------------------------------------------------------------------------
  // The numbering the class documentation describes: `'good'` first, then the
  // remaining names in alphabetical order, with the class list in label order.
  // ---------------------------------------------------------------------------

  function FindClassesAlphabetical(scan: seq<DirEntry>): (r: Result<Classes>)
    ensures r.Failure? <==> DirEntry(Good, true) !in scan
    ensures r.Failure? ==> r.error == MissingGoodClass
    ensures r.Success? ==> r.value.classes != [] && r.value.classes[0] == Good
    ensures r.Success? ==> Sorted(r.value.classes[1..])
    ensures r.Success? ==> multiset(r.value.classes) == multiset(SubdirNames(scan))
  {
    var names := SubdirNames(scan);
    if Good !in names then Failure(MissingGoodClass)
    else
      var rest := RemoveFirst(names, Good);
      var ordered := [Good] + Sort(rest);
      assert ordered[1..] == Sort(rest);
      RemoveFirstPermutes(names, Good);
      Success(Classes(ordered, IndexMap(ordered)))
  }

  lemma {:induction false} SameElements(a: seq<string>, b: seq<string>)
    requires multiset(a) == multiset(b)
    ensures (set c | c in a) == (set c | c in b)
  {
    assert forall c :: c in a <==> c in multiset(a);
    assert forall c :: c in b <==> c in multiset(b);
  }

  /** Dropping the head of a list without repeats leaves a list without repeats. */
  lemma DistinctTail(s: seq<string>)
    requires Distinct(s) && s != []
    ensures Distinct(s[1..])
  {
    forall p, q | 0 <= p < q < |s| - 1 ensures s[1..][p] != s[1..][q] {
      assert s[1..][p] == s[p + 1] && s[1..][q] == s[q + 1];
    }
  }

  lemma {:induction false} GoodThenSortedPair(ordered: seq<string>, a: string, b: string)
    requires Distinct(ordered) && ordered != [] && ordered[0] == Good && Sorted(ordered[1..])
    requires a in IndexMap(ordered) && b in IndexMap(ordered) && a != Good && b != Good
    ensures var m := IndexMap(ordered); m[a] < m[b] <==> LexLt(a, b)
  {
    var m := IndexMap(ordered);
    var rest := ordered[1..];
    var i, j := m[a], m[b];
    assert 0 <= i < |ordered| && ordered[i] == a;
    assert 0 <= j < |ordered| && ordered[j] == b;
    assert i != 0 && j != 0;
    assert rest[i - 1] == a && rest[j - 1] == b;
    DistinctTail(ordered);
    SortedDistinctOrder(rest, i - 1, j - 1);
  }

  /** Enumerating a list of unique names that starts with `'good'`, followed by the rest
      in alphabetical order, gives `'good'` 0 and orders the defect labels alphabetically. */
  lemma {:induction false} GoodThenSortedIndices(ordered: seq<string>)
    requires Distinct(ordered) && ordered != [] && ordered[0] == Good && Sorted(ordered[1..])
    ensures var m := IndexMap(ordered);
            && Good in m && m[Good] == 0
            && forall a, b :: a in m && b in m && a != Good && b != Good ==> (m[a] < m[b] <==> LexLt(a, b))
  {
    var m := IndexMap(ordered);
    IndexMapOfDistinct(ordered);
    assert m[ordered[0]] == 0;
    forall a, b | a in m && b in m && a != Good && b != Good ensures m[a] < m[b] <==> LexLt(a, b) {
      GoodThenSortedPair(ordered, a, b);
    }
  }

  lemma {:induction false} AlphabeticalKeys(scan: seq<DirEntry>)
    requires FindClassesAlphabetical(scan).Success?
    ensures FindClassesAlphabetical(scan).value.classToIdx.Keys == set n | n in SubdirNames(scan)
  {
    var r := FindClassesAlphabetical(scan).value;
    assert r.classToIdx == IndexMap(r.classes);
    SameElements(r.classes, SubdirNames(scan));
  }

  lemma {:induction false} AlphabeticalDistinct(scan: seq<DirEntry>)
    requires UniqueNames(scan) && FindClassesAlphabetical(scan).Success?
    ensures Distinct(FindClassesAlphabetical(scan).value.classes)
  {
    SubdirNamesDistinct(scan);
    DistinctPermutation(SubdirNames(scan), FindClassesAlphabetical(scan).value.classes);
  }

  /** `'good'` gets 0, defect labels follow alphabetical order, and each label indexes its own name in the class list. */
  lemma {:induction false} AlphabeticalIndices(scan: seq<DirEntry>)
    requires UniqueNames(scan) && DirEntry(Good, true) in scan
    ensures FindClassesAlphabetical(scan).Success?
    ensures var m := FindClassesAlphabetical(scan).value.classToIdx;
            Good in m && m[Good] == 0
    ensures FindClassesAlphabetical(scan).value.classToIdx.Keys == set n | n in SubdirNames(scan)
    ensures var r := FindClassesAlphabetical(scan).value;
            forall c :: c in r.classToIdx ==> 0 <= r.classToIdx[c] < |r.classes| && r.classes[r.classToIdx[c]] == c
    ensures var m := FindClassesAlphabetical(scan).value.classToIdx;
            forall a, b :: a in m && b in m && a != Good && b != Good ==> (m[a] < m[b] <==> LexLt(a, b))
  {
    var r := FindClassesAlphabetical(scan).value;
    var m := r.classToIdx;
    assert m == IndexMap(r.classes);
    AlphabeticalDistinct(scan);
    AlphabeticalKeys(scan);
    GoodThenSortedIndices(r.classes);
  }

  lemma {:induction false} AlphabeticalIgnoresScanOrder(scan1: seq<DirEntry>, scan2: seq<DirEntry>)
    requires multiset(SubdirNames(scan1)) == multiset(SubdirNames(scan2))
    ensures FindClassesAlphabetical(scan1) == FindClassesAlphabetical(scan2)
  {
    var n1, n2 := SubdirNames(scan1), SubdirNames(scan2);
    assert Good in n1 <==> Good in n2 by {
      assert Good in n1 <==> Good in multiset(n1);
      assert Good in n2 <==> Good in multiset(n2);
    }
    if Good in n1 {
      var r1, r2 := RemoveFirst(n1, Good), RemoveFirst(n2, Good);
      RemoveFirstPermutes(n1, Good);
      RemoveFirstPermutes(n2, Good);
      assert multiset(r1) == multiset(r2);
      SortedPermutationUnique(Sort(r1), Sort(r2));
    }
  }
}

/**
 * The dataset directory as a value: the root lists entries (in the order
 * `os.listdir` returns them), each a plain file or a class directory that lists
 * file names. Also `sorted(os.listdir(root))` and `os.walk(root)` over it.
 */
module FileSystem {
  import opened Strings

  /** An entry of the root listing. */
  datatype Entry = File(name: string) | Dir(name: string, files: seq<string>)

  /** The folder a file sits in: the dataset root itself or one of its directories. */
  datatype Folder = Top | Sub(name: string)

  /** A file below the dataset root, standing for `os.path.join(root[, dir], file)`. */
  datatype Path = Path(folder: Folder, file: string)

  /** A real directory never lists two entries under one name. */
  ghost predicate DistinctNames(s: seq<Entry>)
  {
    forall i, j :: 0 <= i < j < |s| ==> s[i].name != s[j].name
  }

  /** The names of a listing, in its order. */
  function Names(s: seq<Entry>): (r: seq<string>)
    ensures |r| == |s| && forall i :: 0 <= i < |s| ==> r[i] == s[i].name
  {
    seq(|s|, i requires 0 <= i < |s| => s[i].name)
  }

  predicate SortedByName(s: seq<Entry>)
  {
    forall i, j :: 0 <= i < j < |s| ==> LexLe(s[i].name, s[j].name)
  }

  /** Inserts `e` into a sorted listing before the first entry it does not follow. */
  function Insert(e: Entry, s: seq<Entry>): (r: seq<Entry>)
    requires SortedByName(s)
    ensures SortedByName(r)
    ensures multiset(r) == multiset(s) + multiset{e}
    decreases |s|
  {
    if s == [] then [e]
    else if LexLe(e.name, s[0].name) then
      InsertFront(e, s);
      [e] + s
    else
      SortedTail(s);
      var rest := Insert(e, s[1..]);
      InsertBehind(e, s, rest);
      [s[0]] + rest
  }

  /** The tail of a sorted, distinctly named listing is sorted and distinctly named too. */
  lemma SortedTail(s: seq<Entry>)
    requires s != []
    ensures SortedByName(s) ==> SortedByName(s[1..])
    ensures DistinctNames(s) ==> DistinctNames(s[1..])
    ensures multiset(s[1..]) == multiset(s) - multiset{s[0]}
  {
    assert s == [s[0]] + s[1..];
    assert forall i :: 0 <= i < |s| - 1 ==> s[1..][i] == s[i + 1];
  }

  /** An entry that comes no later than the head of a sorted listing can go in front of it. */
  lemma InsertFront(e: Entry, s: seq<Entry>)
    requires SortedByName(s) && s != [] && LexLe(e.name, s[0].name)
    ensures SortedByName([e] + s)
  {
    forall j | 0 <= j < |s| ensures LexLe(e.name, s[j].name) {
      if j > 0 { LexLeTransitive(e.name, s[0].name, s[j].name); }
    }
    assert forall j :: 0 < j < |s| + 1 ==> ([e] + s)[j] == s[j - 1];
  }

  /** An entry that comes after the head goes into the tail, behind the head. */
  lemma InsertBehind(e: Entry, s: seq<Entry>, rest: seq<Entry>)
    requires SortedByName(s) && s != [] && !LexLe(e.name, s[0].name)
    requires SortedByName(rest) && multiset(rest) == multiset(s[1..]) + multiset{e}
    ensures SortedByName([s[0]] + rest)
    ensures multiset([s[0]] + rest) == multiset(s) + multiset{e}
  {
    assert s == [s[0]] + s[1..];
    forall j | 0 <= j < |rest| ensures LexLe(s[0].name, rest[j].name) {
      assert rest[j] in multiset(rest);
      if rest[j] == e {
        LexLeTotal(e.name, s[0].name);
      } else {
        assert rest[j] in multiset(s[1..]);
        var k :| 0 <= k < |s[1..]| && s[1..][k] == rest[j];
        assert s[k + 1] == rest[j];
      }
    }
    assert forall j :: 0 < j < |rest| + 1 ==> ([s[0]] + rest)[j] == rest[j - 1];
  }

  /** `sorted(os.listdir(root))`, keeping each name's entry. */
  function SortByName(s: seq<Entry>): (r: seq<Entry>)
    ensures SortedByName(r)
    ensures multiset(r) == multiset(s)
    ensures |r| == |s|
  {
    if s == [] then []
    else
      assert s == [s[0]] + s[1..];
      Insert(s[0], SortByName(s[1..]))
  }

  lemma {:induction false} DistinctCount(s: seq<Entry>, x: Entry)
    requires DistinctNames(s)
    ensures multiset(s)[x] <= 1
  {
    if s != [] {
      assert s == [s[0]] + s[1..];
      DistinctCount(s[1..], x);
      if x == s[0] {
        assert x !in s[1..];
      }
    }
  }

  /** Reordering a listing keeps its names distinct. */
  lemma DistinctNamesPermutation(a: seq<Entry>, b: seq<Entry>)
    requires DistinctNames(a) && multiset(a) == multiset(b)
    ensures DistinctNames(b)
  {
    forall i, j | 0 <= i < j < |b| ensures b[i].name != b[j].name {
      assert b[i] in multiset(a) && b[j] in multiset(a);
      var p :| 0 <= p < |a| && a[p] == b[i];
      var q :| 0 <= q < |a| && a[q] == b[j];
      if b[i] == b[j] {
        var x := b[i];
        assert b == b[..j] + b[j..];
        assert x in b[..j] && x in b[j..];
        assert multiset(b)[x] == multiset(b[..j])[x] + multiset(b[j..])[x];
        DistinctCount(a, x);
      }
    }
  }

  lemma SortedHeads(a: seq<Entry>, b: seq<Entry>)
    requires SortedByName(a) && SortedByName(b) && DistinctNames(a)
    requires multiset(a) == multiset(b) && a != []
    ensures b != [] && a[0] == b[0]
  {
    assert a[0] in multiset(b);
    var j :| 0 <= j < |b| && b[j] == a[0];
    assert b[0] in multiset(a);
    var i :| 0 <= i < |a| && a[i] == b[0];
    LexLeReflexive(a[0].name);
    assert LexLe(b[0].name, a[0].name);
    assert LexLe(a[0].name, b[0].name);
    LexLeAntisymmetric(a[0].name, b[0].name);
  }

  /** Two sorted listings of one set of distinctly named entries are the same listing. */
  lemma {:induction false} SortedUnique(a: seq<Entry>, b: seq<Entry>)
    requires SortedByName(a) && SortedByName(b) && DistinctNames(a)
    requires multiset(a) == multiset(b)
    ensures a == b
  {
    if a == [] {
      assert |b| == |multiset(b)| == 0;
    } else {
      SortedHeads(a, b);
      SortedTail(a);
      SortedTail(b);
      SortedUnique(a[1..], b[1..]);
      assert a == [a[0]] + a[1..] && b == [b[0]] + b[1..];
    }
  }

  /**
   * The sorted listing does not depend on the order `os.listdir` returned the
   * entries in, so class positions are the same on every run over the same tree.
   */
  lemma SortedListingIgnoresListingOrder(a: seq<Entry>, b: seq<Entry>)
    requires DistinctNames(a) && multiset(a) == multiset(b)
    ensures SortByName(a) == SortByName(b)
  {
    DistinctNamesPermutation(a, SortByName(a));
    SortedUnique(SortByName(a), SortByName(b));
  }

  /** One step of `os.walk(root)`: a folder and the plain files it lists. */
  datatype WalkStep = WalkStep(folder: Folder, files: seq<string>)

  /** The names of the plain files listed at the root, in listing order. */
  function RootFileNames(root: seq<Entry>): seq<string>
  {
    if root == [] then []
    else
      var last := root[|root| - 1];
      RootFileNames(root[..|root| - 1]) + (if last.File? then [last.name] else [])
  }

  /** One walk step per directory of the root, in listing order. */
  function DirSteps(root: seq<Entry>): seq<WalkStep>
  {
    if root == [] then []
    else
      var last := root[|root| - 1];
      DirSteps(root[..|root| - 1]) + (if last.Dir? then [WalkStep(Sub(last.name), last.files)] else [])
  }

  /** `os.walk(root)`, top-down: the root first, then each directory in listing order. */
  function Walk(root: seq<Entry>): seq<WalkStep>
  {
    [WalkStep(Top, RootFileNames(root))] + DirSteps(root)
  }

  function StepPaths(step: WalkStep): (r: seq<Path>)
    ensures |r| == |step.files|
    ensures forall i :: 0 <= i < |r| ==> r[i] == Path(step.folder, step.files[i])
  {
    seq(|step.files|, i requires 0 <= i < |step.files| => Path(step.folder, step.files[i]))
  }

  /** Every file the walk visits, in visiting order. */
  function WalkPaths(steps: seq<WalkStep>): seq<Path>
  {
    if steps == [] then [] else WalkPaths(steps[..|steps| - 1]) + StepPaths(steps[|steps| - 1])
  }

  lemma {:induction false} WalkPathsAppend(a: seq<WalkStep>, b: seq<WalkStep>)
    ensures WalkPaths(a + b) == WalkPaths(a) + WalkPaths(b)
    decreases |b|
  {
    if b == [] {
      assert a + b == a;
    } else {
      var ab, init, last := a + b, b[..|b| - 1], b[|b| - 1];
      assert ab[..|ab| - 1] == a + init && ab[|ab| - 1] == last;
      WalkPathsAppend(a, init);
      var x, y, z := WalkPaths(a), WalkPaths(init), StepPaths(last);
      assert WalkPaths(ab) == (x + y) + z;
      assert WalkPaths(b) == y + z;
      assert (x + y) + z == x + (y + z);
    }
  }

  /** Walking one more step visits that step's files after the ones visited so far. */
  lemma WalkPathsSnoc(steps: seq<WalkStep>, i: nat)
    requires i < |steps|
    ensures WalkPaths(steps[..i + 1]) == WalkPaths(steps[..i]) + StepPaths(steps[i])
  {
    assert steps[..i + 1][..i] == steps[..i];
  }

  /** A plain file at the root, or a file listed by a directory of the root. */
  ghost predicate IsListedFile(root: seq<Entry>, p: Path)
  {
    match p.folder
    case Top => File(p.file) in root
    case Sub(d) => exists i :: 0 <= i < |root| && root[i].Dir? && root[i].name == d && p.file in root[i].files
  }

  lemma {:induction false} RootFileNamesSpec(root: seq<Entry>)
    ensures forall f :: f in RootFileNames(root) <==> File(f) in root
  {
    if root != [] {
      RootFileNamesSpec(root[..|root| - 1]);
      assert root == root[..|root| - 1] + [root[|root| - 1]];
    }
  }

  lemma DirStepsSpec(root: seq<Entry>)
    ensures forall p :: p in WalkPaths(DirSteps(root)) <==> p.folder.Sub? && IsListedFile(root, p)
  {
    forall p ensures p in WalkPaths(DirSteps(root)) <==> p.folder.Sub? && IsListedFile(root, p) {
      DirStepsVisit(root, p);
    }
  }

  /** The directory steps visit `p` exactly when `p` is a file listed by a directory of the root. */
  lemma {:induction false} DirStepsVisit(root: seq<Entry>, p: Path)
    ensures p in WalkPaths(DirSteps(root)) <==> p.folder.Sub? && IsListedFile(root, p)
  {
    if root != [] {
      var n := |root|;
      var init, last := root[..n - 1], root[n - 1];
      DirStepsVisit(init, p);
      var tail := if last.Dir? then [WalkStep(Sub(last.name), last.files)] else [];
      assert DirSteps(root) == DirSteps(init) + tail;
      WalkPathsAppend(DirSteps(init), tail);
      assert p in WalkPaths(tail) <==> last.Dir? && p.folder == Sub(last.name) && p.file in last.files by {
        if last.Dir? {
          assert WalkPaths(tail) == StepPaths(tail[0]) by {
            assert tail[..0] == [];
          }
          StepPathsSpec(tail[0]);
        }
      }
      if p.folder.Sub? {
        ListedSnoc(root, p);
      }
    }
  }

  /** A file listed by a directory of the root: listed by one of the first entries, or by the last. */
  lemma ListedSnoc(root: seq<Entry>, p: Path)
    requires root != [] && p.folder.Sub?
    ensures IsListedFile(root, p) <==>
      IsListedFile(root[..|root| - 1], p) ||
      (root[|root| - 1].Dir? && root[|root| - 1].name == p.folder.name && p.file in root[|root| - 1].files)
  {
    var init := root[..|root| - 1];
    if IsListedFile(init, p) {
      var i :| 0 <= i < |init| && init[i].Dir? && init[i].name == p.folder.name && p.file in init[i].files;
      assert root[i] == init[i];
    }
    if IsListedFile(root, p) {
      var i :| 0 <= i < |root| && root[i].Dir? && root[i].name == p.folder.name && p.file in root[i].files;
      if i < |init| {
        assert init[i] == root[i];
      }
    }
  }

  lemma StepPathsSpec(step: WalkStep)
    ensures forall p :: p in StepPaths(step) <==> p.folder == step.folder && p.file in step.files
  {
    forall p: Path | p.folder == step.folder && p.file in step.files ensures p in StepPaths(step) {
      var k :| 0 <= k < |step.files| && step.files[k] == p.file;
      assert StepPaths(step)[k] == p;
    }
  }

  /**
   * The walk visits exactly the plain files of the root and the files listed by
   * its directories; a directory's own name is never a visited file.
   */
  lemma WalkVisitsListedFiles(root: seq<Entry>)
    ensures forall p :: p in WalkPaths(Walk(root)) <==> IsListedFile(root, p)
  {
    var top := WalkStep(Top, RootFileNames(root));
    WalkPathsAppend([top], DirSteps(root));
    assert WalkPaths([top]) == StepPaths(top) by {
      assert [top][..0] == [];
    }
    assert WalkPaths(Walk(root)) == StepPaths(top) + WalkPaths(DirSteps(root));
    RootFileNamesSpec(root);
    DirStepsSpec(root);
    StepPathsSpec(top);
  }
}

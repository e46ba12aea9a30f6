/**
 * `train_model.py`, the parts that decide which files the training sees and
 * how they are counted and split: the file filter handed to the image folder,
 * the walk that logs every valid file, `log_class_distribution`, and the sizes
 * of the training/validation split.
 */
module TrainModel {
  import opened Wrappers
  import opened PathNames
  import opened FileSystem
  import opened Dicts
  import opened Permutations
  import DataPreprocessing

  /** `VALID_EXTENSIONS`, a set here, with the same six members as in data_preprocessing.py. */
  const ValidExtensions: set<string> := {".jpg", ".jpeg", ".png", ".JPG", ".JPEG", ".PNG"}

  /** `CustomImageFolder.is_valid_file`: the extension of the path is one of the valid ones. */
  predicate IsValidFile(filePath: string)
  {
    Ext(filePath) in ValidExtensions
  }

  /**
   * The image folder hands `is_valid_file` a joined path; its verdict is that of
   * the preprocessing filter on the bare file name.
   */
  lemma IsValidFileOfJoin(dir: string, sep: char, name: string)
    requires IsSep(sep)
    requires forall i :: 0 <= i < |name| ==> !IsSep(name[i])
    ensures IsValidFile(dir + [sep] + name) <==> DataPreprocessing.IsValidImage(name)
  {
    ExtOfJoin(dir, sep, name);
  }

  /**
   * The comparison is case-sensitive and only the last suffix counts:
   * `leaf.jpg` is accepted, `leaf.Jpg` and `leaf.jpg.bak` are not.
   */
  lemma CaseAndLastSuffixMatter(stem: string)
    requires PlainStem(stem)
    ensures IsValidFile(stem + ".jpg")
    ensures !IsValidFile(stem + ".Jpg")
    ensures !IsValidFile(stem + ".jpg" + ".bak")
  {
    SameExtensions(stem + ".jpg");
    SameExtensions(stem + ".Jpg");
    SameExtensions(stem + ".jpg" + ".bak");
    DataPreprocessing.AcceptedImageNames(stem);
    DataPreprocessing.RejectsOtherCase(stem);
    DataPreprocessing.RejectsOtherLastSuffix(stem);
  }

  /** The set here and the list in data_preprocessing.py hold the same extensions. */
  lemma SameExtensions(name: string)
    ensures IsValidFile(name) <==> DataPreprocessing.IsValidImage(name)
  {
    assert forall e :: e in ValidExtensions <==> e in DataPreprocessing.ValidExtensions;
  }

  /** The walked files whose names pass the filter, in visiting order. */
  function ValidWalked(paths: seq<Path>): (r: seq<Path>)
    ensures |r| <= |paths|
  {
    if paths == [] then []
    else
      var last := paths[|paths| - 1];
      ValidWalked(paths[..|paths| - 1]) + if IsValidFile(last.file) then [last] else []
  }

  /** The reported paths are exactly the visited paths with a valid extension. */
  lemma {:induction false} ValidWalkedSpec(paths: seq<Path>)
    ensures forall p :: p in ValidWalked(paths) <==> p in paths && IsValidFile(p.file)
  {
    if paths != [] {
      var init, last := paths[..|paths| - 1], paths[|paths| - 1];
      ValidWalkedSpec(init);
      assert paths == init + [last];
    }
  }

  /** Filtering a walk that is walked in two parts reports the files of each part in turn. */
  lemma {:induction false} ValidWalkedAppend(a: seq<Path>, b: seq<Path>)
    ensures ValidWalked(a + b) == ValidWalked(a) + ValidWalked(b)
    decreases |b|
  {
    if b == [] {
      assert a + b == a;
    } else {
      var init, last := b[..|b| - 1], b[|b| - 1];
      assert b == init + [last];
      assert a + b == (a + init) + [last];
      ValidWalkedAppend(a, init);
      ValidWalkedSnoc(a + init, last);
      ValidWalkedSnoc(init, last);
      AppendAssoc(ValidWalked(a), ValidWalked(init), if IsValidFile(last.file) then [last] else []);
    }
  }

  lemma AppendAssoc<T>(x: seq<T>, y: seq<T>, z: seq<T>)
    ensures (x + y) + z == x + (y + z)
  {
  }

  /** One more visited path is reported after the others exactly when it passes the filter. */
  lemma ValidWalkedSnoc(s: seq<Path>, p: Path)
    ensures ValidWalked(s + [p]) == ValidWalked(s) + if IsValidFile(p.file) then [p] else []
  {
    assert (s + [p])[..|s|] == s;
  }

  /**
   * The loop that logs `Found valid file: ...`: it reports, in walking order,
   * the files of the walk whose names pass the filter, and so exactly the
   * listed files with a valid extension.
   */
  method LogValidFiles(root: seq<Entry>) returns (found: seq<Path>)
    ensures found == ValidWalked(WalkPaths(Walk(root)))
    ensures forall p :: p in found <==> IsListedFile(root, p) && IsValidFile(p.file)
  {
    var steps := Walk(root);
    found := [];
    var i := 0;
    while i < |steps|
      invariant 0 <= i <= |steps|
      invariant found == ValidWalked(WalkPaths(steps[..i]))
    {
      found := LogStepFiles(steps[i], found);
      ValidWalkedAppend(WalkPaths(steps[..i]), StepPaths(steps[i]));
      WalkPathsSnoc(steps, i);
      i := i + 1;
    }
    assert steps[..i] == steps;
    ValidWalkedListed(root);
  }

  /** The inner loop over the files of one walk step; its test on the extension is the filter's own. */
  method LogStepFiles(step: WalkStep, found: seq<Path>) returns (found': seq<Path>)
    ensures found' == found + ValidWalked(StepPaths(step))
  {
    ghost var paths := StepPaths(step);
    found' := found;
    var j := 0;
    assert paths[..0] == [] && found + [] == found;
    while j < |step.files|
      invariant 0 <= j <= |step.files|
      invariant found' == found + ValidWalked(paths[..j])
    {
      var file := step.files[j];
      StepFileFound(found, found', paths, step.folder, file, j);
      if IsValidFile(file) {
        found' := found' + [Path(step.folder, file)];
      }
      j := j + 1;
    }
    assert paths[..j] == paths;
  }

  /** One more file of a walk step keeps the inner loop's invariant. */
  lemma StepFileFound(found: seq<Path>, found': seq<Path>, paths: seq<Path>, folder: Folder, file: string, j: nat)
    requires j < |paths| && paths[j] == Path(folder, file)
    requires found' == found + ValidWalked(paths[..j])
    ensures IsValidFile(file) ==> found' + [Path(folder, file)] == found + ValidWalked(paths[..j + 1])
    ensures !IsValidFile(file) ==> found' == found + ValidWalked(paths[..j + 1])
  {
    assert paths[..j + 1][..j] == paths[..j];
    AppendAssoc(found, ValidWalked(paths[..j]), [Path(folder, file)]);
  }

  /** The files the walk reports are the listed files with a valid extension. */
  lemma ValidWalkedListed(root: seq<Entry>)
    ensures forall p :: p in ValidWalked(WalkPaths(Walk(root))) <==> IsListedFile(root, p) && IsValidFile(p.file)
  {
    ValidWalkedSpec(WalkPaths(Walk(root)));
    WalkVisitsListedFiles(root);
  }

  /**
   * Where `xs[i]` lands in a list of length `n`: a negative index counts from
   * the end, and one outside `-n .. n - 1` raises `IndexError`.
   */
  function PyIndex(n: nat, i: int): (r: Option<nat>)
    ensures r.Some? <==> 0 <= n + i && i < n
    ensures r.Some? ==> r.value < n && (r.value == i || r.value == n + i)
  {
    if 0 <= i < n then Some(i)
    else if 0 <= n + i && i < 0 then Some(n + i)
    else None
  }

  /** The class name `dataset.classes[label]` names, if the label indexes the list. */
  function ClassOf(classes: seq<string>, target: int): Option<string>
  {
    var idx := PyIndex(|classes|, target);
    if idx.Some? then Some(classes[idx.value]) else None
  }

  /** The number of samples whose label indexes class name `c` in `classes`. */
  function CountOf(classes: seq<string>, samples: seq<(Path, int)>, c: string): (r: nat)
    ensures r <= |samples|
  {
    if samples == [] then 0
    else
      var n := |samples|;
      CountOf(classes, samples[..n - 1], c) + if ClassOf(classes, samples[n - 1].1) == Some(c) then 1 else 0
  }

  /** One more sample raises the count of its own class by one and leaves the others. */
  lemma CountOfSnoc(classes: seq<string>, samples: seq<(Path, int)>, k: nat, c: string)
    requires k < |samples|
    ensures CountOf(classes, samples[..k + 1], c)
         == CountOf(classes, samples[..k], c) + if ClassOf(classes, samples[k].1) == Some(c) then 1 else 0
  {
    assert samples[..k + 1][..k] == samples[..k];
  }

  /** `{class_name: 0 for class_name in dataset.classes}`, before the comprehension builds the dict. */
  function ZeroItems(classes: seq<string>): (r: seq<(string, nat)>)
    ensures |r| == |classes| && forall i :: 0 <= i < |r| ==> r[i] == (classes[i], 0)
  {
    seq(|classes|, i requires 0 <= i < |classes| => (classes[i], 0))
  }

  /** The zeroed counts have one key per class, every value 0, and sum 0. */
  lemma {:induction false} ZeroCounts(classes: seq<string>)
    ensures forall c :: c in Keys(FromItems(ZeroItems(classes))) <==> c in classes
    ensures forall c :: c in classes ==> Get(FromItems(ZeroItems(classes)), c) == Some(0)
    ensures SumValues(FromItems(ZeroItems(classes))) == 0
    decreases |classes|
  {
    var items := ZeroItems(classes);
    FromItemsKeys(items);
    forall c ensures c in Keys(FromItems(items)) <==> c in classes {
      if c in classes {
        var i :| 0 <= i < |classes| && classes[i] == c;
        assert items[i].0 == c;
      }
    }
    forall c | c in classes ensures Get(FromItems(items), c) == Some(0) {
      GetSpec(FromItems(items), c);
      var i :| 0 <= i < |FromItems(items)| && FromItems(items)[i].0 == c;
      ZeroValues(items, FromItems(items)[i]);
    }
    if classes != [] {
      var n := |classes|;
      ZeroCounts(classes[..n - 1]);
      assert items[..n - 1] == ZeroItems(classes[..n - 1]);
      SumValuesPut(FromItems(items[..n - 1]), classes[n - 1], 0);
    }
  }

  /** A dict built from items whose values are all 0 holds only 0s. */
  lemma {:induction false} ZeroValues(items: seq<(string, nat)>, kv: (string, nat))
    requires forall i :: 0 <= i < |items| ==> items[i].1 == 0
    requires kv in FromItems(items)
    ensures kv.1 == 0
    decreases |items|
  {
    var n := |items|;
    var before := FromItems(items[..n - 1]);
    var last := items[n - 1];
    assert FromItems(items) == Put(before, last.0, last.1);
    PutSpec(before, last.0, last.1);
    GetSpec(FromItems(items), kv.0);
    assert Get(FromItems(items), kv.0) == Some(kv.1);
    if kv.0 != last.0 {
      GetSpec(before, kv.0);
      var j :| 0 <= j < |before| && before[j].0 == kv.0;
      ZeroValues(items[..n - 1], before[j]);
    }
  }

  /**
   * `class_counts` once `samples` are counted: the zeroed dict, in its own key
   * order, with each class name mapped to the number of samples of that class.
   */
  function Counted(classes: seq<string>, samples: seq<(Path, int)>): (d: Dict<string, nat>)
    ensures UniqueKeys(d) && Keys(d) == Keys(FromItems(ZeroItems(classes)))
  {
    var zero := FromItems(ZeroItems(classes));
    var d := seq(|zero|, i requires 0 <= i < |zero| => (zero[i].0, CountOf(classes, samples, zero[i].0)));
    assert Keys(d) == Keys(zero);
    d
  }

  /** The counted dict has one key per class name, whatever the samples. */
  lemma CountedKey(classes: seq<string>, samples: seq<(Path, int)>, c: string)
    ensures c in Keys(Counted(classes, samples)) <==> c in classes
  {
    ZeroCounts(classes);
  }

  /** Each class is mapped to the number of samples whose label indexes it. */
  lemma CountedValue(classes: seq<string>, samples: seq<(Path, int)>, c: string)
    requires c in classes
    ensures Get(Counted(classes, samples), c) == Some(CountOf(classes, samples, c))
  {
    var d: Dict<string, nat> := Counted(classes, samples);
    CountedKey(classes, samples, c);
    GetSpec(d, c);
    var i :| 0 <= i < |d| && Keys(d)[i] == c;
    assert d[i].0 == c;
  }

  /**
   * Counting sample `k`, of class `c`, after the first `k` is one more
   * `class_counts[c] += 1`: the entry of `c` is there, and it goes up by one.
   */
  lemma CountedSnoc(classes: seq<string>, samples: seq<(Path, int)>, k: nat, c: string)
    requires k < |samples| && ClassOf(classes, samples[k].1) == Some(c)
    ensures Get(Counted(classes, samples[..k]), c).Some?
    ensures Counted(classes, samples[..k + 1])
         == Put(Counted(classes, samples[..k]), c, Get(Counted(classes, samples[..k]), c).value + 1)
  {
    var d: Dict<string, nat> := Counted(classes, samples[..k]);
    assert c in classes;
    CountedKey(classes, samples[..k], c);
    GetSpec(d, c);
    var i :| 0 <= i < |d| && Keys(d)[i] == c;
    assert d[i].0 == c && Get(d, c) == Some(d[i].1);
    CountedBump(classes, samples, k, i);
    PutExisting(d, i, d[i].1 + 1);
  }

  /** The same step, item by item: only the item of the sample's class changes. */
  lemma CountedBump(classes: seq<string>, samples: seq<(Path, int)>, k: nat, i: nat)
    requires k < |samples| && i < |Counted(classes, samples[..k])|
    requires ClassOf(classes, samples[k].1) == Some(Counted(classes, samples[..k])[i].0)
    ensures Counted(classes, samples[..k + 1])
         == Counted(classes, samples[..k])[i := (Counted(classes, samples[..k])[i].0, Counted(classes, samples[..k])[i].1 + 1)]
  {
    var d: Dict<string, nat> := Counted(classes, samples[..k]);
    var d': Dict<string, nat> := Counted(classes, samples[..k + 1]);
    var c := d[i].0;
    var bumped: Dict<string, nat> := d[i := (c, d[i].1 + 1)];
    forall j | 0 <= j < |d'|
      ensures d'[j] == bumped[j]
    {
      CountOfSnoc(classes, samples, k, d[j].0);
      assert j != i ==> d[j].0 != c;
    }
  }

  /** Before any sample is counted the dict is the zeroed one. */
  lemma CountedStart(classes: seq<string>, samples: seq<(Path, int)>)
    ensures Counted(classes, samples[..0]) == FromItems(ZeroItems(classes))
  {
    var zero := FromItems(ZeroItems(classes));
    var d := Counted(classes, samples[..0]);
    forall j | 0 <= j < |d| ensures d[j] == zero[j] {
      ZeroValues(ZeroItems(classes), zero[j]);
    }
  }

  /** Counting one more sample that names a class raises the total by one. */
  lemma CountedSumSnoc(classes: seq<string>, samples: seq<(Path, int)>, k: nat)
    requires k < |samples| && ClassOf(classes, samples[k].1).Some?
    ensures SumValues(Counted(classes, samples[..k + 1])) == SumValues(Counted(classes, samples[..k])) + 1
  {
    var c := ClassOf(classes, samples[k].1).value;
    CountedSnoc(classes, samples, k, c);
    var d: Dict<string, nat> := Counted(classes, samples[..k]);
    SumValuesPut(d, c, Get(d, c).value + 1);
  }

  /** When each of the first `k` labels indexes a class, their counts add up to `k`. */
  lemma {:induction false} CountedTotal(classes: seq<string>, samples: seq<(Path, int)>, k: nat)
    requires k <= |samples|
    requires forall j :: 0 <= j < k ==> ClassOf(classes, samples[j].1).Some?
    ensures SumValues(Counted(classes, samples[..k])) == k
  {
    if k == 0 {
      CountedStart(classes, samples);
      ZeroCounts(classes);
    } else {
      CountedTotal(classes, samples, k - 1);
      CountedSumSnoc(classes, samples, k - 1);
    }
  }

  /**
   * `log_class_distribution`: one count per class name, starting at 0, raised by
   * one for every sample through `class_counts[dataset.classes[label]] += 1`.
   * A label that does not index `dataset.classes` raises `IndexError`.
   */
  method LogClassDistribution(classes: seq<string>, samples: seq<(Path, int)>)
    returns (r: Result<Dict<string, nat>>)
    ensures r.Failure? <==> exists k :: 0 <= k < |samples| && ClassOf(classes, samples[k].1).None?
    ensures r.Failure? ==> r.error == IndexError
    ensures r.Success? ==> r.value == Counted(classes, samples)
    ensures r.Success? ==> UniqueKeys(r.value) && forall c :: c in Keys(r.value) <==> c in classes
    ensures r.Success? ==> forall c :: c in classes ==> Get(r.value, c) == Some(CountOf(classes, samples, c))
    ensures r.Success? ==> SumValues(r.value) == |samples|
  {
    var classCounts := FromItems(ZeroItems(classes));
    CountedStart(classes, samples);
    var k := 0;
    while k < |samples|
      invariant 0 <= k <= |samples|
      invariant forall j :: 0 <= j < k ==> ClassOf(classes, samples[j].1).Some?
      invariant classCounts == Counted(classes, samples[..k])
    {
      var target := samples[k].1;
      var idx := PyIndex(|classes|, target);
      if idx.None? {
        assert ClassOf(classes, samples[k].1).None?;
        return Failure(IndexError);
      }
      var className := classes[idx.value];
      assert ClassOf(classes, samples[k].1) == Some(className);
      CountedSnoc(classes, samples, k, className);
      classCounts := Put(classCounts, className, Get(classCounts, className).value + 1);
      k := k + 1;
    }
    CountedTotal(classes, samples, k);
    assert samples[..k] == samples;
    forall c
      ensures c in Keys(classCounts) <==> c in classes
      ensures c in classes ==> Get(classCounts, c) == Some(CountOf(classes, samples, c))
    {
      CountedKey(classes, samples, c);
      if c in classes {
        CountedValue(classes, samples, c);
      }
    }
    return Success(classCounts);
  }

  /** `train_size = int(0.8 * len(dataset))`, written as the integer quotient `4 * n / 5`. */
  function TrainSize(n: nat): (t: nat)
    ensures 5 * t <= 4 * n < 5 * t + 5
  {
    4 * n / 5
  }

  /** `val_size = len(dataset) - train_size`. */
  function ValSize(n: nat): (v: nat)
    ensures TrainSize(n) + v == n
  {
    n - TrainSize(n)
  }

  /**
   * The split covers the dataset, the validation part gets the rounded-up fifth,
   * so it is never empty for a non-empty dataset, and from five samples on the
   * training part is not empty either.
   */
  lemma SplitSizes(n: nat)
    ensures TrainSize(n) + ValSize(n) == n
    ensures n <= 5 * ValSize(n) < n + 5
    ensures 0 < n ==> 0 < ValSize(n)
    ensures 5 <= n ==> 0 < TrainSize(n)
  {
  }

  /**
   * `random_split(dataset, [train_size, val_size])`, with `perm` standing for the
   * library's random order: the first `train_size` samples of that order train,
   * the rest validate.
   */
  function RandomSplit<T>(samples: seq<T>, perm: seq<nat>): (r: (seq<T>, seq<T>))
    requires IsPermutationOf(perm, |samples|)
    ensures |r.0| == TrainSize(|samples|) && |r.1| == ValSize(|samples|)
    ensures multiset(r.0) + multiset(r.1) == multiset(samples)
  {
    PermutationLength(perm, |samples|);
    var t := TrainSize(|samples|);
    var train, val := Gather(samples, perm[..t]), Gather(samples, perm[t..]);
    assert Gather(samples, perm) == train + val;
    GatherPermutation(samples, perm);
    (train, val)
  }
}

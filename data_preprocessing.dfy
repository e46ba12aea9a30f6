/**
 * `data_preprocessing.py`: the per-class image statistics, the labelled index
 * of image paths, the shuffle, the slicing into batches, and the script's
 * closing check that every counted image was delivered in some batch.
 *
 * The dataset directory is a `seq<Entry>` in listing order; a class directory
 * lists plain file names. Decoding and normalising the images is not modelled:
 * a batch carries the paths the images would be read from.
 */
module DataPreprocessing {
  import opened Wrappers
  import opened PathNames
  import opened FileSystem
  import opened Sums
  import opened Permutations

  /** `BATCH_SIZE`: the number of images per batch. */
  const BatchSize: int := 32

  /** `VALID_EXTENSIONS`, compared case-sensitively. */
  const ValidExtensions: seq<string> := [".jpg", ".jpeg", ".png", ".JPG", ".JPEG", ".PNG"]

  /** A file is an image when its `splitext` extension is one of the valid ones. */
  predicate IsValidImage(name: string)
  {
    Ext(name) in ValidExtensions
  }

  /** After a plain stem, every listed extension is accepted. */
  lemma AcceptedImageNames(stem: string)
    requires PlainStem(stem)
    ensures forall e :: e in ValidExtensions ==> IsValidImage(stem + e)
  {
    forall e | e in ValidExtensions ensures IsValidImage(stem + e) {
      assert ExtShape(e) && e != [] by {
        assert e == ".jpg" || e == ".jpeg" || e == ".png" || e == ".JPG" || e == ".JPEG" || e == ".PNG";
      }
      ExtAfterStem(stem, e);
    }
  }

  /** The filter is case-sensitive: `leaf.Jpg` is rejected. */
  lemma RejectsOtherCase(stem: string)
    requires PlainStem(stem)
    ensures !IsValidImage(stem + ".Jpg")
  {
    assert ExtShape(".Jpg");
    ExtAfterStem(stem, ".Jpg");
    assert ".Jpg" !in ValidExtensions;
  }

  /** Only the last suffix counts: `leaf.jpg.bak` is rejected. */
  lemma RejectsOtherLastSuffix(stem: string)
    requires PlainStem(stem)
    ensures !IsValidImage(stem + ".jpg" + ".bak")
  {
    assert ExtShape(".bak");
    assert PlainStem(stem + ".jpg");
    ExtAfterStem(stem + ".jpg", ".bak");
    assert ".bak" !in ValidExtensions;
  }

  /** A hidden file with no other dot, such as `.gitignore`, has an empty extension and is rejected. */
  lemma RejectsHiddenFile(rest: string)
    requires forall i :: 0 <= i < |rest| ==> rest[i] != '.'
    ensures !IsValidImage("." + rest)
  {
    ExtOfLeadingDots(".", rest);
  }

  /** The image names of a class directory listing, in listing order. */
  function ValidFiles(files: seq<string>): (r: seq<string>)
    ensures |r| <= |files|
    ensures forall f :: f in r <==> f in files && IsValidImage(f)
  {
    if files == [] then []
    else
      var last := files[|files| - 1];
      ValidFiles(files[..|files| - 1]) + if IsValidImage(last) then [last] else []
  }

  /** Extending a listing by one name extends its images by that name when it is one. */
  lemma ValidFilesSnoc(files: seq<string>, j: nat)
    requires j < |files|
    ensures ValidFiles(files[..j + 1])
         == ValidFiles(files[..j]) + if IsValidImage(files[j]) then [files[j]] else []
  {
    assert files[..j + 1][..j] == files[..j];
  }

  /** The count `log_dataset_stats` gives an entry: its images for a directory, nothing for a file. */
  function DirCount(e: Entry): nat
  {
    if e.Dir? then |ValidFiles(e.files)| else 0
  }

  /** The number of images in the class directories of a listing. */
  function TotalValid(listing: seq<Entry>): nat
  {
    SumBy(listing, DirCount)
  }

  /** The directories of a listing, in order: the entries that pass `os.path.isdir`. */
  function ClassDirs(s: seq<Entry>): (r: seq<Entry>)
    ensures forall e :: e in r <==> e in s && e.Dir?
  {
    if s == [] then []
    else ClassDirs(s[..|s| - 1]) + if s[|s| - 1].Dir? then [s[|s| - 1]] else []
  }

  /** One `"{class_name}: {count}"` line of the statistics. */
  datatype ClassCount = ClassCount(name: string, count: nat)

  function LineCount(line: ClassCount): nat
  {
    line.count
  }

  /** The statistics lines of a sequence of class directories, one per directory. */
  function Lines(dirs: seq<Entry>): (r: seq<ClassCount>)
    ensures |r| == |dirs| && forall k :: 0 <= k < |dirs| ==> r[k] == ClassCount(dirs[k].name, DirCount(dirs[k]))
  {
    seq(|dirs|, k requires 0 <= k < |dirs| => ClassCount(dirs[k].name, DirCount(dirs[k])))
  }

  /** One more entry of the listing: one more line if it is a directory, and its images in the total. */
  lemma StatsStep(s: seq<Entry>, i: nat)
    requires i < |s|
    ensures ClassDirs(s[..i + 1]) == ClassDirs(s[..i]) + if s[i].Dir? then [s[i]] else []
    ensures Lines(ClassDirs(s[..i + 1]))
         == Lines(ClassDirs(s[..i])) + if s[i].Dir? then [ClassCount(s[i].name, DirCount(s[i]))] else []
    ensures TotalValid(s[..i + 1]) == TotalValid(s[..i]) + DirCount(s[i])
  {
    assert s[..i + 1][..i] == s[..i];
  }

  /**
   * `log_dataset_stats`: one line per class directory of the sorted listing,
   * and the total, which is the number of images in the dataset whatever
   * order the directory is listed in.
   */
  method LogDatasetStats(root: seq<Entry>) returns (lines: seq<ClassCount>, total: nat)
    ensures total == TotalValid(root)
    ensures lines == Lines(ClassDirs(SortByName(root)))
    ensures SumBy(lines, LineCount) == total
  {
    var classNames := SortByName(root);
    total := 0;
    lines := [];
    var i := 0;
    assert classNames[..0] == [];
    while i < |classNames|
      invariant 0 <= i <= |classNames|
      invariant total == TotalValid(classNames[..i])
      invariant lines == Lines(ClassDirs(classNames[..i]))
      invariant SumBy(lines, LineCount) == total
    {
      var entry := classNames[i];
      StatsStep(classNames, i);
      if entry.Dir? {
        var count := |ValidFiles(entry.files)|;
        var line := ClassCount(entry.name, count);
        assert (lines + [line])[..|lines|] == lines;
        lines := lines + [line];
        total := total + count;
      }
      i := i + 1;
    }
    assert classNames[..i] == classNames;
    SumByPermutation(classNames, root, DirCount);
  }

  /** One `(image_paths[k], labels[k])` pair; `classId` is the label. */
  datatype Sample = Sample(path: Path, classId: nat)

  /** `image_paths` and `labels` read as one sequence of pairs. */
  function Pairs(paths: seq<Path>, labels: seq<nat>): (r: seq<Sample>)
    requires |paths| == |labels|
    ensures |r| == |paths| && forall k :: 0 <= k < |r| ==> r[k].path == paths[k] && r[k].classId == labels[k]
  {
    seq(|paths|, k requires 0 <= k < |paths| => Sample(paths[k], labels[k]))
  }

  function PathsOf(samples: seq<Sample>): (r: seq<Path>)
    ensures |r| == |samples| && forall k :: 0 <= k < |r| ==> r[k] == samples[k].path
  {
    seq(|samples|, k requires 0 <= k < |samples| => samples[k].path)
  }

  function LabelsOf(samples: seq<Sample>): (r: seq<nat>)
    ensures |r| == |samples| && forall k :: 0 <= k < |r| ==> r[k] == samples[k].classId
  {
    seq(|samples|, k requires 0 <= k < |samples| => samples[k].classId)
  }

  /** The images `imgs` of directory `dir`, all with label `classId`. */
  function Labelled(dir: string, imgs: seq<string>, classId: nat): (r: seq<Sample>)
    ensures |r| == |imgs|
    ensures forall k :: 0 <= k < |r| ==> r[k] == Sample(Path(Sub(dir), imgs[k]), classId)
  {
    seq(|imgs|, k requires 0 <= k < |imgs| => Sample(Path(Sub(dir), imgs[k]), classId))
  }

  /** Appending one path and one label appends one sample. */
  lemma PairsSnoc(paths: seq<Path>, labels: seq<nat>, p: Path, l: nat)
    requires |paths| == |labels|
    ensures Pairs(paths + [p], labels + [l]) == Pairs(paths, labels) + [Sample(p, l)]
  {
  }

  /** One more image name gives one more sample. */
  lemma LabelledSnoc(dir: string, imgs: seq<string>, img: string, classId: nat)
    ensures Labelled(dir, imgs + [img], classId) == Labelled(dir, imgs, classId) + [Sample(Path(Sub(dir), img), classId)]
  {
  }

  /** The samples one entry contributes under `classId`: its images in listing order, none for a file. */
  function EntrySamples(e: Entry, classId: nat): seq<Sample>
  {
    if e.Dir? then Labelled(e.name, ValidFiles(e.files), classId) else []
  }

  /**
   * The samples the collection loop of `image_data_generator` gathers from a
   * sorted listing: every entry is labelled with its position in the listing,
   * directories or not, so a plain file leaves its label unused.
   */
  function Samples(listing: seq<Entry>): seq<Sample>
  {
    if listing == [] then []
    else Samples(listing[..|listing| - 1]) + EntrySamples(listing[|listing| - 1], |listing| - 1)
  }

  /**
   * A pair is collected exactly when its label is the position of a directory
   * of the listing, its path is in that directory, and its file is an image
   * listed there.
   */
  ghost predicate IsCollected(listing: seq<Entry>, s: Sample)
  {
    s.classId < |listing| && listing[s.classId].Dir?
    && s.path == Path(Sub(listing[s.classId].name), s.path.file)
    && s.path.file in listing[s.classId].files && IsValidImage(s.path.file)
  }

  /** The pairs one entry contributes: its listed images, under its label. */
  lemma EntrySamplesSpec(e: Entry, classId: nat)
    ensures forall s :: s in EntrySamples(e, classId) <==>
              s.classId == classId && e.Dir? && s.path == Path(Sub(e.name), s.path.file)
              && s.path.file in e.files && IsValidImage(s.path.file)
  {
    if e.Dir? {
      var imgs := ValidFiles(e.files);
      forall s: Sample | s.classId == classId && s.path == Path(Sub(e.name), s.path.file) && s.path.file in imgs
        ensures s in EntrySamples(e, classId)
      {
        var k :| 0 <= k < |imgs| && imgs[k] == s.path.file;
        assert EntrySamples(e, classId)[k] == s;
      }
    }
  }

  lemma {:induction false} SamplesSpec(listing: seq<Entry>)
    ensures forall s :: s in Samples(listing) <==> IsCollected(listing, s)
    decreases |listing|
  {
    if listing != [] {
      var n := |listing|;
      var init, last := listing[..n - 1], listing[n - 1];
      SamplesSpec(init);
      EntrySamplesSpec(last, n - 1);
      assert Samples(listing) == Samples(init) + EntrySamples(last, n - 1);
      forall s: Sample ensures s in Samples(listing) <==> IsCollected(listing, s) {
        if s.classId < n - 1 {
          assert listing[s.classId] == init[s.classId];
        }
      }
    }
  }

  /** The collection loop gathers as many pairs as the statistics count images. */
  lemma {:induction false} SamplesCount(listing: seq<Entry>)
    ensures |Samples(listing)| == TotalValid(listing)
    decreases |listing|
  {
    if listing != [] {
      SamplesCount(listing[..|listing| - 1]);
    }
  }

  /**
   * The inner loop of the collection: appends the images of one class
   * directory, in listing order, under its label.
   */
  method CollectClass(entry: Entry, classId: nat, paths: seq<Path>, labels: seq<nat>)
    returns (paths': seq<Path>, labels': seq<nat>)
    requires entry.Dir? && |paths| == |labels|
    ensures |paths'| == |labels'|
    ensures Pairs(paths', labels') == Pairs(paths, labels) + EntrySamples(entry, classId)
  {
    paths', labels' := paths, labels;
    var j := 0;
    while j < |entry.files|
      invariant 0 <= j <= |entry.files|
      invariant |paths'| == |labels'|
      invariant Pairs(paths', labels') == Pairs(paths, labels) + Labelled(entry.name, ValidFiles(entry.files[..j]), classId)
    {
      var imgName := entry.files[j];
      ValidFilesSnoc(entry.files, j);
      if IsValidImage(imgName) {
        var sample := Sample(Path(Sub(entry.name), imgName), classId);
        PairsSnoc(paths', labels', sample.path, classId);
        LabelledSnoc(entry.name, ValidFiles(entry.files[..j]), imgName, classId);
        assert Pairs(paths', labels') + [sample]
            == Pairs(paths, labels) + (Labelled(entry.name, ValidFiles(entry.files[..j]), classId) + [sample]);
        paths' := paths' + [Path(Sub(entry.name), imgName)];
        labels' := labels' + [classId];
      }
      j := j + 1;
    }
    assert entry.files[..j] == entry.files;
  }

  /**
   * The collection loop of `image_data_generator`: the sorted listing as the
   * class names, and the image paths with their labels, pair by pair the
   * samples of the sorted listing; every label names the class directory
   * holding its image.
   */
  method IndexSamples(root: seq<Entry>) returns (classNames: seq<string>, paths: seq<Path>, labels: seq<nat>)
    ensures classNames == Names(SortByName(root))
    ensures |paths| == |labels| == TotalValid(root)
    ensures Pairs(paths, labels) == Samples(SortByName(root))
    ensures forall k :: 0 <= k < |paths| ==>
              labels[k] < |classNames| && paths[k] == Path(Sub(classNames[labels[k]]), paths[k].file)
              && IsValidImage(paths[k].file)
  {
    var listing := SortByName(root);
    classNames := Names(listing);
    paths, labels := [], [];
    var classId := 0;
    while classId < |listing|
      invariant 0 <= classId <= |listing|
      invariant |paths| == |labels|
      invariant Pairs(paths, labels) == Samples(listing[..classId])
    {
      var entry := listing[classId];
      SamplesSnoc(listing, classId);
      if entry.Dir? {
        paths, labels := CollectClass(entry, classId, paths, labels);
      }
      classId := classId + 1;
    }
    assert listing[..classId] == listing;
    IndexMatchesStats(root);
    CollectedLabels(listing, paths, labels);
  }

  /** One more entry of the listing contributes its samples under its own position. */
  lemma SamplesSnoc(listing: seq<Entry>, i: nat)
    requires i < |listing|
    ensures Samples(listing[..i + 1]) == Samples(listing[..i]) + EntrySamples(listing[i], i)
  {
    assert listing[..i + 1][..i] == listing[..i];
  }

  /** Every collected label names the directory its image sits in, and every collected file is an image. */
  lemma CollectedLabels(listing: seq<Entry>, paths: seq<Path>, labels: seq<nat>)
    requires |paths| == |labels| && Pairs(paths, labels) == Samples(listing)
    ensures forall k :: 0 <= k < |paths| ==>
              labels[k] < |Names(listing)| && paths[k] == Path(Sub(Names(listing)[labels[k]]), paths[k].file)
              && IsValidImage(paths[k].file)
  {
    SamplesSpec(listing);
    forall k | 0 <= k < |paths|
      ensures labels[k] < |Names(listing)| && paths[k] == Path(Sub(Names(listing)[labels[k]]), paths[k].file)
      ensures IsValidImage(paths[k].file)
    {
      assert IsCollected(listing, Pairs(paths, labels)[k]);
    }
  }

  /** The listed images and the collected pairs agree in number, as the script's final assert expects. */
  lemma IndexMatchesStats(root: seq<Entry>)
    ensures |Samples(SortByName(root))| == TotalValid(root)
  {
    SamplesCount(SortByName(root));
    SumByPermutation(SortByName(root), root, DirCount);
  }

  /**
   * `image_paths[indices]`, `labels[indices]`: the same permutation applied to
   * both arrays keeps every path with its own label, and loses, duplicates or
   * invents no pair.
   */
  lemma ShuffleKeepsPairs(paths: seq<Path>, labels: seq<nat>, perm: seq<nat>)
    requires |paths| == |labels| && IsPermutationOf(perm, |paths|)
    ensures Pairs(Gather(paths, perm), Gather(labels, perm)) == Gather(Pairs(paths, labels), perm)
    ensures multiset(Pairs(Gather(paths, perm), Gather(labels, perm))) == multiset(Pairs(paths, labels))
  {
    GatherPermutation(Pairs(paths, labels), perm);
  }

  /** The collected pairs of the sorted listing, in the order the shuffled `indices` give. */
  function Shuffled(root: seq<Entry>, perm: seq<nat>): seq<Sample>
    requires IsPermutationOf(perm, TotalValid(root))
  {
    IndexMatchesStats(root);
    Gather(Samples(SortByName(root)), perm)
  }

  /** The shuffle delivers every collected pair exactly once. */
  lemma ShuffledSamples(root: seq<Entry>, perm: seq<nat>)
    requires IsPermutationOf(perm, TotalValid(root))
    ensures |Shuffled(root, perm)| == TotalValid(root)
    ensures multiset(Shuffled(root, perm)) == multiset(Samples(SortByName(root)))
  {
    IndexMatchesStats(root);
    PermutationLength(perm, TotalValid(root));
    GatherPermutation(Samples(SortByName(root)), perm);
  }

  /** One yielded batch: `batch_paths` and `batch_labels`; the images are read from the paths. */
  datatype Batch = Batch(paths: seq<Path>, labels: seq<nat>)

  function Min(a: int, b: int): int
  {
    if a < b then a else b
  }

  /**
   * The batches of `range(0, len(paths), size)`: consecutive slices of `size`
   * pairs taken from the front, the last one shorter when `size` does not
   * divide the length.
   */
  function Batches(paths: seq<Path>, labels: seq<nat>, size: nat): seq<Batch>
    requires |paths| == |labels| && 0 < size
    decreases |paths|
  {
    if paths == [] then []
    else
      var end := Min(size, |paths|);
      [Batch(paths[..end], labels[..end])] + Batches(paths[end..], labels[end..], size)
  }

  /** All paths of a sequence of batches, batch after batch. */
  function FlattenPaths(bs: seq<Batch>): seq<Path>
  {
    if bs == [] then [] else bs[0].paths + FlattenPaths(bs[1..])
  }

  /** All labels of a sequence of batches, batch after batch. */
  function FlattenLabels(bs: seq<Batch>): seq<nat>
  {
    if bs == [] then [] else bs[0].labels + FlattenLabels(bs[1..])
  }

  /** Concatenating the batches gives back both arrays: nothing is dropped, repeated or reordered. */
  lemma {:induction false} BatchesFlatten(paths: seq<Path>, labels: seq<nat>, size: nat)
    requires |paths| == |labels| && 0 < size
    ensures FlattenPaths(Batches(paths, labels, size)) == paths
    ensures FlattenLabels(Batches(paths, labels, size)) == labels
    decreases |paths|
  {
    if paths != [] {
      var end := Min(size, |paths|);
      BatchesFlatten(paths[end..], labels[end..], size);
      var bs := Batches(paths, labels, size);
      assert bs[1..] == Batches(paths[end..], labels[end..], size);
      assert paths == paths[..end] + paths[end..];
      assert labels == labels[..end] + labels[end..];
    }
  }

  /** Every batch holds between one and `size` pairs, and every batch but the last exactly `size`. */
  lemma {:induction false} BatchSizes(paths: seq<Path>, labels: seq<nat>, size: nat)
    requires |paths| == |labels| && 0 < size
    ensures forall i :: 0 <= i < |Batches(paths, labels, size)| ==>
              var b := Batches(paths, labels, size)[i];
              |b.paths| == |b.labels| && 0 < |b.paths| <= size
    ensures forall i :: 0 <= i < |Batches(paths, labels, size)| - 1 ==>
              |Batches(paths, labels, size)[i].paths| == size
    decreases |paths|
  {
    if paths != [] {
      var end := Min(size, |paths|);
      BatchSizes(paths[end..], labels[end..], size);
      var bs, rest := Batches(paths, labels, size), Batches(paths[end..], labels[end..], size);
      assert bs == [bs[0]] + rest;
      assert |bs| > 1 ==> end == size;
    }
  }

  /** Slicing a suffix is slicing the whole sequence further along. */
  lemma SliceOfSuffix<T>(s: seq<T>, a: nat, j: nat, k: nat)
    requires a <= |s| && j <= k <= |s| - a
    ensures s[a..][j..k] == s[a + j..a + k]
  {
  }

  /** The batches from position `start` on: one slice of at most `size`, then the batches after it. */
  lemma BatchesFrom(paths: seq<Path>, labels: seq<nat>, size: nat, start: nat)
    requires |paths| == |labels| && 0 < size && start < |paths|
    ensures Batches(paths[start..], labels[start..], size)
         == [Batch(paths[start..Min(start + size, |paths|)], labels[start..Min(start + size, |paths|)])]
          + Batches(paths[Min(start + size, |paths|)..], labels[Min(start + size, |paths|)..], size)
  {
    var end := Min(start + size, |paths|);
    assert paths[start..][..end - start] == paths[start..end];
    assert labels[start..][..end - start] == labels[start..end];
    assert paths[start..][end - start..] == paths[end..];
    assert labels[start..][end - start..] == labels[end..];
  }

  /** The whole batches are `size` apart: batch `i` is the slice `[i * size:min(i * size + size, len)]`. */
  lemma {:induction false} BatchAt(paths: seq<Path>, labels: seq<nat>, size: nat, i: nat)
    requires |paths| == |labels| && 0 < size && i < |Batches(paths, labels, size)|
    ensures i * size < |paths|
    ensures Batches(paths, labels, size)[i]
         == Batch(paths[i * size..Min(i * size + size, |paths|)], labels[i * size..Min(i * size + size, |paths|)])
    decreases i
  {
    if i == 0 {
      MulSucc(0, size);
    } else {
      assert size < |paths|;
      var rest := Batches(paths[size..], labels[size..], size);
      assert Batches(paths, labels, size)[i] == rest[i - 1];
      BatchAt(paths[size..], labels[size..], size, i - 1);
      ShiftedSlices(paths, size, i);
      ShiftedSlices(labels, size, i);
    }
  }

  /** Slice `i - 1` of size `size` after the first `size` elements is slice `i` of the whole. */
  lemma ShiftedSlices<T>(s: seq<T>, size: nat, i: nat)
    requires 0 < i && 0 < size < |s| && (i - 1) * size < |s| - size
    ensures i * size < |s|
    ensures s[size..][(i - 1) * size..Min((i - 1) * size + size, |s| - size)] == s[i * size..Min(i * size + size, |s|)]
  {
    var j := (i - 1) * size;
    MulSucc(i - 1, size);
    SliceOfSuffix(s, size, j, Min(j + size, |s| - size));
  }

  /** There are `ceil(len / size)` batches: just enough to hold every pair. */
  lemma {:induction false} BatchesCount(paths: seq<Path>, labels: seq<nat>, size: nat)
    requires |paths| == |labels| && 0 < size
    ensures |paths| <= |Batches(paths, labels, size)| * size < |paths| + size
    decreases |paths|
  {
    if paths != [] {
      var end := Min(size, |paths|);
      var rest := Batches(paths[end..], labels[end..], size);
      BatchesCount(paths[end..], labels[end..], size);
      assert |Batches(paths, labels, size)| == |rest| + 1;
      MulSucc(|rest|, size);
      if |paths| <= size {
        assert rest == [];
      }
    }
  }

  lemma MulSucc(k: nat, size: nat)
    ensures (k + 1) * size == k * size + size
    ensures k == 0 ==> k * size == 0
  {
  }

  /**
   * The yielding loop of `image_data_generator`: `range(0, len, batch_size)`
   * raises `ValueError` for a zero batch size and yields nothing for a
   * negative one; otherwise batch `start // batch_size` is the slice
   * `[start:min(start + batch_size, len)]` of both arrays.
   */
  method SliceBatches(paths: seq<Path>, labels: seq<nat>, batchSize: int) returns (r: Result<seq<Batch>>)
    requires |paths| == |labels|
    ensures r.Failure? <==> batchSize == 0
    ensures r.Failure? ==> r.error == ValueError
    ensures batchSize < 0 ==> r == Success([])
    ensures 0 < batchSize ==> r == Success(Batches(paths, labels, batchSize))
  {
    if batchSize == 0 {
      return Failure(ValueError);
    }
    if batchSize < 0 {
      return Success([]);
    }
    var out: seq<Batch> := [];
    var start := 0;
    while start < |paths|
      invariant 0 <= start
      invariant out + Batches(paths[Min(start, |paths|)..], labels[Min(start, |paths|)..], batchSize)
             == Batches(paths, labels, batchSize)
      decreases |paths| - start
    {
      var end := Min(start + batchSize, |paths|);
      var batch := Batch(paths[start..end], labels[start..end]);
      BatchesFrom(paths, labels, batchSize, start);
      out := out + [batch];
      start := start + batchSize;
    }
    assert Batches(paths[Min(start, |paths|)..], labels[Min(start, |paths|)..], batchSize) == [];
    assert out + [] == out;
    return Success(out);
  }

  /** What `image_data_generator` yields: the class names, and the batches in order. */
  datatype Generated = Generated(classNames: seq<string>, batches: seq<Batch>)

  /**
   * `image_data_generator(dataset_dir, batch_size)`, with `perm` standing for
   * the shuffled `indices`: the class names are the sorted listing, and the
   * batches slice the collected pairs in shuffled order.
   */
  method ImageDataGenerator(root: seq<Entry>, batchSize: int, perm: seq<nat>) returns (r: Result<Generated>)
    requires IsPermutationOf(perm, TotalValid(root))
    ensures r.Failure? <==> batchSize == 0
    ensures r.Failure? ==> r.error == ValueError
    ensures r.Success? ==> r.value.classNames == Names(SortByName(root))
    ensures batchSize < 0 ==> r.Success? && r.value.batches == []
    ensures 0 < batchSize ==>
              r.Success? && r.value.batches == Batches(PathsOf(Shuffled(root, perm)), LabelsOf(Shuffled(root, perm)), batchSize)
  {
    var classNames, paths, labels := IndexSamples(root);
    var imagePaths := Gather(paths, perm);
    var imageLabels := Gather(labels, perm);
    ShuffleKeepsPairs(paths, labels, perm);
    assert imagePaths == PathsOf(Shuffled(root, perm));
    assert imageLabels == LabelsOf(Shuffled(root, perm));
    var batches := SliceBatches(imagePaths, imageLabels, batchSize);
    if batches.Failure? {
      return Failure(batches.error);
    }
    return Success(Generated(classNames, batches.value));
  }

  /**
   * The `__main__` block with `BATCH_SIZE`: logs the statistics, runs the
   * generator to the end adding up the images of every batch, then prints the
   * `class_names` the last batch bound, which raises `NameError` when no batch
   * was yielded. Whenever the final assert is reached it holds: the result
   * holds `total_images` and `total_processed`, and they are equal.
   */
  method RunScript(root: seq<Entry>, perm: seq<nat>) returns (r: Result<(nat, nat)>)
    requires IsPermutationOf(perm, TotalValid(root))
    ensures r.Failure? <==> TotalValid(root) == 0
    ensures r.Failure? ==> r.error == NameError
    ensures r.Success? ==> r.value.0 == TotalValid(root) && r.value.1 == r.value.0
  {
    var lines, totalImages := LogDatasetStats(root);
    var generated := ImageDataGenerator(root, BatchSize, perm);
    var batches := generated.value.batches;
    var totalProcessed := 0;
    var classNames: Option<seq<string>> := None;
    var i := 0;
    while i < |batches|
      invariant 0 <= i <= |batches|
      invariant totalProcessed + |FlattenPaths(batches[i..])| == |FlattenPaths(batches)|
      invariant classNames.Some? <==> 0 < i
    {
      assert batches[i..][1..] == batches[i + 1..];
      totalProcessed := totalProcessed + |batches[i].paths|;
      classNames := Some(generated.value.classNames);
      i := i + 1;
    }
    ghost var shuffled := Shuffled(root, perm);
    BatchesFlatten(PathsOf(shuffled), LabelsOf(shuffled), BatchSize);
    ShuffledSamples(root, perm);
    if classNames.None? {
      return Failure(NameError);
    }
    return Success((totalImages, totalProcessed));
  }
}

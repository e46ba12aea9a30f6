# Dr. Plantastic dataset scripts — a Dafny model

Dr. Plantastic classifies plant-leaf diseases from photographs. Its training
scripts share a small, deterministic core, which this project models and
reasons about. The core turns a labelled dataset directory into image samples,
per-class counts and batches. A class is a sub-directory of the dataset root,
and its images are the files inside it. Five scripts make up the core:

- `data_preprocessing.py` computes per-class statistics. Its generator indexes
  the images, shuffles them and yields fixed-size batches. The script checks
  that the generator's total matches the statistics.
- `train_model.py` has an extension filter for `ImageFolder` and a debug walk
  that reports the valid files. It counts the class distribution and computes
  the 80/20 train/validation split sizes.
- `checkNumbersOfClassesAndDataset.py` counts images per class with a
  different, suffix-based filter.
- `classIndices.py` inverts `class_to_idx` into `idx_to_class`.
- `checkExtentionOfDataset.py` collects the set of file extensions found in
  the dataset.

## How the model represents the environment

- **Filesystem.** The dataset root is a value, `seq<Entry>`, in `os.listdir`
  order. An entry is either `File(name)` or `Dir(name, files)`, and a class
  directory lists its file names. The model assumes the dataset layout the
  scripts are written for: class directories directly under the root, each
  holding only files.
- **Sorting.** `sorted(os.listdir(...))` is `FileSystem.SortByName`. It is an
  insertion sort under Python's string order, which compares code points
  lexicographically (`Strings.LexLe`).
- **Walking.** `os.walk` is `FileSystem.Walk`. It yields the root first, with
  its plain files, and then each sub-directory in listing order.
- **Paths.** A path is the pair `Path(folder, file)`, not a joined string.
  `PathNames.ExtOfJoin` shows that the extension of `dir + sep + name` is the
  extension of `name`. Because of that, nothing about the filters is lost.
- **`os.path.splitext`.** This is `PathNames.SplitExt`. It follows CPython's
  generic `_splitext` with the separators of Windows paths, `\` and `/`. The extension runs from
  the last dot of the final component, and leading dots do not count.
- **Python dicts.** A dict is `Dicts.Dict`, an insertion-ordered list of
  pairs. `Put` overwrites a key in place or appends a new one, as Python does.
- **Randomness.** `np.random.shuffle` and `random_split` become a permutation
  argument `perm`, required to be some permutation of `0..n-1`.
- **Python errors.** Errors become `Wrappers.Result` values: `range` with step 0
  raises `ValueError`, a bad class index raises `IndexError`, and an unbound
  name raises `NameError`.

Three behaviours of the code are easy to miss, and the model follows them:

- **Labels.** A label is the position of the class directory in the sorted
  listing of *all* root entries, because `enumerate` runs before the
  directory check (`data_preprocessing.py:33-36`). Labels therefore have gaps
  when plain files sort between class directories. `class_names[label]` is
  still the sample's own directory (`DataPreprocessing.IndexSamples`).
- **No images.** When the dataset holds no images, the generator yields no
  batch. The `for` target `class_names` is then never bound, so line 73 of
  `data_preprocessing.py` raises `NameError` before the final `assert` runs.
  `DataPreprocessing.RunScript` models this.
- **The two filters disagree.** The extension filter accepts six extensions.
  `checkNumbersOfClassesAndDataset.py` uses `endswith` over four suffixes
  instead. It misses `.JPEG` and `.PNG`, and it counts a file named just
  `.jpg`, whose `splitext` extension is empty. `CheckClassCounts` proves both
  directions of where the two rules agree, and exhibits where they differ.

## Model

| member | source | states |
|---|---|---|
| PathNames.SplitExt | Training_Scripts/data_preprocessing.py:19 | the root and extension concatenate back to the name, and the extension is empty or a dot followed by no dot and no separator |
| PathNames.ExtIffHasExt | Training_Scripts/data_preprocessing.py:19 | the extension is non-empty exactly when the final component has a dot preceded by a non-dot character |
| PathNames.ExtOfJoin | Training_Scripts/train_model.py:27-28 | the extension of a joined path `dir + sep + name` is the extension of `name` |
| PathNames.ExtAfterStem | Training_Scripts/data_preprocessing.py:19 | after a plain stem, the extension is exactly the last dot-suffix, with its case kept |
| PathNames.ExtOfLeadingDots | Training_Scripts/checkExtentionOfDataset.py:9 | a name whose dots all lead it, or that has no dot, has the empty extension |
| FileSystem.SortByName | Training_Scripts/data_preprocessing.py:12 | `sorted(os.listdir())` yields a listing in name order that is a permutation of the original |
| FileSystem.SortedListingIgnoresListingOrder | Training_Scripts/data_preprocessing.py:28 | with distinct names, the sorted listing is the same whatever order `listdir` returned |
| FileSystem.WalkVisitsListedFiles | Training_Scripts/train_model.py:33-34 | the walk visits exactly the root's plain files and the files inside its directories |
| DataPreprocessing.AcceptedImageNames | Training_Scripts/data_preprocessing.py:8 | after a plain stem, each of the six listed extensions is accepted |
| DataPreprocessing.RejectsOtherCase | Training_Scripts/data_preprocessing.py:38 | the filter is case-sensitive: `leaf.Jpg` is rejected |
| DataPreprocessing.RejectsOtherLastSuffix | Training_Scripts/data_preprocessing.py:38 | only the last suffix counts: `leaf.jpg.bak` is rejected |
| DataPreprocessing.RejectsHiddenFile | Training_Scripts/data_preprocessing.py:38 | a hidden name with no other dot, such as `.gitignore`, has the empty extension and is rejected |
| DataPreprocessing.ValidFiles | Training_Scripts/data_preprocessing.py:19 | the filtered listing holds exactly the listed names whose extension is valid, and is no longer than the listing |
| DataPreprocessing.ClassDirs | Training_Scripts/data_preprocessing.py:17-18 | the entries kept are exactly the directory entries |
| DataPreprocessing.LogDatasetStats | Training_Scripts/data_preprocessing.py:10-23 | one line per class directory in sorted order with its valid-image count; the returned total is the sum over directories and equals the sum of the lines |
| DataPreprocessing.EntrySamplesSpec | Training_Scripts/data_preprocessing.py:34-40 | a directory contributes exactly its valid files, each paired with the directory's label; a plain file contributes nothing |
| DataPreprocessing.SamplesSpec | Training_Scripts/data_preprocessing.py:33-40 | a sample is collected iff its label is the position of a directory in the listing and its file is a valid image listed there |
| DataPreprocessing.SamplesCount | Training_Scripts/data_preprocessing.py:19-38 | the number of collected samples equals the statistics total over the same listing |
| DataPreprocessing.CollectClass | Training_Scripts/data_preprocessing.py:37-40 | the inner loop appends one path and one label per valid file of the class, in listing order |
| DataPreprocessing.IndexSamples | Training_Scripts/data_preprocessing.py:26-40 | class names are the sorted listing; paths and labels have equal length, equal to the total; pairs are the collected samples; `class_names[label]` is the directory holding each path |
| DataPreprocessing.CollectedLabels | Training_Scripts/data_preprocessing.py:33-40 | every collected label is a position in the sorted listing whose name is the folder of the path, and every file is a valid image |
| DataPreprocessing.IndexMatchesStats | Training_Scripts/data_preprocessing.py:76 | the number of indexed samples equals `log_dataset_stats`'s total |
| DataPreprocessing.ShuffleKeepsPairs | Training_Scripts/data_preprocessing.py:43-48 | one permutation applied to both arrays permutes the (path, label) pairs and keeps their multiset |
| DataPreprocessing.ShuffledSamples | Training_Scripts/data_preprocessing.py:43-48 | the shuffled samples have the total's length and the multiset of the collected samples |
| DataPreprocessing.BatchesFlatten | Training_Scripts/data_preprocessing.py:51-54 | concatenating the path slices and the label slices gives back the two arrays |
| DataPreprocessing.BatchSizes | Training_Scripts/data_preprocessing.py:51-54 | each batch is non-empty, no larger than the batch size, with equal path and label counts; all but the last are full |
| DataPreprocessing.BatchAt | Training_Scripts/data_preprocessing.py:51-54 | batch i is the slice `[i*size, min(i*size+size, N))` of both arrays |
| DataPreprocessing.BatchesCount | Training_Scripts/data_preprocessing.py:51 | the batch count is ceil(N / size): `N <= count*size < N + size`, so N = 0 gives no batches |
| DataPreprocessing.SliceBatches | Training_Scripts/data_preprocessing.py:51-54 | step 0 raises `ValueError`, a negative step yields nothing, a positive one yields the batches |
| DataPreprocessing.ImageDataGenerator | Training_Scripts/data_preprocessing.py:26-57 | `ValueError` iff the batch size is 0; otherwise the sorted class names, and the batches of the shuffled paths and labels |
| DataPreprocessing.RunScript | Training_Scripts/data_preprocessing.py:60-76 | assuming every image decodes, `NameError` iff there is no image; otherwise processed count equals the statistics total, so the assert holds |
| TrainModel.IsValidFileOfJoin | Training_Scripts/train_model.py:11-28 | `is_valid_file` on a joined path agrees with the preprocessing filter on the file name |
| TrainModel.SameExtensions | Training_Scripts/train_model.py:11 | the filter's set of extensions accepts the same names as the list in `data_preprocessing.py` |
| TrainModel.CaseAndLastSuffixMatter | Training_Scripts/train_model.py:27-28 | `.jpg` is accepted; `.Jpg` and `.jpg.bak` are rejected |
| TrainModel.ValidWalkedSpec | Training_Scripts/train_model.py:35 | the reported paths are exactly the visited paths with a valid extension |
| TrainModel.ValidWalkedAppend | Training_Scripts/train_model.py:33-36 | filtering a walk taken in two parts reports the first part's files, then the second's |
| TrainModel.LogStepFiles | Training_Scripts/train_model.py:34-36 | the inner loop appends to what was reported the valid files of one walk step, in listing order |
| TrainModel.LogValidFiles | Training_Scripts/train_model.py:33-36 | the loop reports the filtered walk, i.e. exactly the listed files whose extension is valid |
| TrainModel.ValidWalkedListed | Training_Scripts/train_model.py:33-36 | a path is reported iff it names a listed file with a valid extension |
| TrainModel.PyIndex | Training_Scripts/train_model.py:53 | Python list indexing succeeds iff `-n <= i < n`, and then picks position `i` or, for a negative `i`, `n + i` |
| TrainModel.CountOf | Training_Scripts/train_model.py:52-54 | a class's count never exceeds the number of samples |
| TrainModel.ZeroCounts | Training_Scripts/train_model.py:51 | the initial dict has exactly the classes as keys, each mapped to 0, with sum 0 |
| TrainModel.CountedKey | Training_Scripts/train_model.py:51 | the counted dict has exactly the class names as keys |
| TrainModel.CountedValue | Training_Scripts/train_model.py:51-54 | each class maps to the number of samples whose label indexes it |
| TrainModel.CountedSnoc | Training_Scripts/train_model.py:52-54 | counting one more sample is the `+= 1` on its class's entry, which already exists |
| TrainModel.CountedTotal | Training_Scripts/train_model.py:51-54 | when every label indexes a class, the counts add up to the number of samples |
| TrainModel.LogClassDistribution | Training_Scripts/train_model.py:50-54 | `IndexError` iff some label is out of range; otherwise keys are exactly the classes, each count is the number of samples whose label indexes that class, and the counts sum to the number of samples |
| TrainModel.TrainSize | Training_Scripts/train_model.py:72 | the train size is the floor of 4/5 of N |
| TrainModel.SplitSizes | Training_Scripts/train_model.py:72-73 | train plus validation is N; the validation size is the ceiling of N/5, positive for N > 0; the train size is positive for N >= 5 |
| TrainModel.RandomSplit | Training_Scripts/train_model.py:74 | the two parts have the computed sizes and together hold exactly the samples |
| CheckClassCounts.ImageFiles | Training_Scripts/checkNumbersOfClassesAndDataset.py:17 | the counted files are exactly the listed names ending in one of the four suffixes |
| CheckClassCounts.CountImagesInClasses | Training_Scripts/checkNumbersOfClassesAndDataset.py:7-20 | the loop builds the dict of directory counts, inserted in sorted order |
| CheckClassCounts.ClassCountsKeys | Training_Scripts/checkNumbersOfClassesAndDataset.py:11-18 | the keys are exactly the names of directory entries; plain files are skipped |
| CheckClassCounts.ClassCountsSorted | Training_Scripts/checkNumbersOfClassesAndDataset.py:11-18 | keys appear in strictly increasing name order |
| CheckClassCounts.ClassCountsValues | Training_Scripts/checkNumbersOfClassesAndDataset.py:17-18 | each directory maps to its count of suffix-matching files, which is at most its number of entries |
| CheckClassCounts.TotalImages | Training_Scripts/checkNumbersOfClassesAndDataset.py:25 | the total of the dict's values is the sum of the per-directory counts |
| CheckClassCounts.ExtensionRuleImpliesSuffixRule | Training_Scripts/checkNumbersOfClassesAndDataset.py:17 | a name accepted by the extension filter, other than `.JPEG` and `.PNG`, is counted |
| CheckClassCounts.SuffixRuleImpliesExtensionRule | Training_Scripts/checkNumbersOfClassesAndDataset.py:17 | a counted name that has a real extension is accepted by the extension filter |
| CheckClassCounts.UpperCaseFormsNotCounted | Training_Scripts/checkNumbersOfClassesAndDataset.py:17 | `leaf.PNG` and `leaf.JPEG` are valid images but are not counted |
| CheckClassCounts.DotOnlyNameCounted | Training_Scripts/checkNumbersOfClassesAndDataset.py:17 | a file named `.jpg` is counted although its extension is empty |
| ClassIndices.InvertKeys | Training_Scripts/classIndices.py:15 | the keys of `idx_to_class` are exactly the values of `class_to_idx` |
| ClassIndices.InvertLaterWins | Training_Scripts/classIndices.py:15 | `idx_to_class[v]` is the last name in iteration order whose index is v |
| ClassIndices.InvertInjective | Training_Scripts/classIndices.py:15 | with distinct indices, every index maps back to its own class name |
| ClassIndices.InvertTwice | Training_Scripts/classIndices.py:15 | for an injective mapping, inverting twice gives it back, and both have the same size |
| ExtensionCensus.Census | Training_Scripts/checkExtentionOfDataset.py:5-9 | an extension is in the set iff some visited file has it; the set is no larger than the number of files |
| ExtensionCensus.CollectExtensions | Training_Scripts/checkExtentionOfDataset.py:5-9 | the loop's set holds exactly the extensions of the listed files |
| ExtensionCensus.CensusOrderFree | Training_Scripts/checkExtentionOfDataset.py:5-9 | the set depends only on which files are visited, not on their order or repeats |
| ExtensionCensus.CensusDuplicateCollapses | Training_Scripts/checkExtentionOfDataset.py:9 | a file whose extension is already present leaves the set unchanged |
| ExtensionCensus.CensusOfFileNames | Training_Scripts/checkExtentionOfDataset.py:7-8 | the set is the extensions of listed file names; directory names play no part |
| ExtensionCensus.RenamedDirSameCensus | Training_Scripts/checkExtentionOfDataset.py:7-8 | renaming a directory does not change the set |
| ExtensionCensus.LeadingDotsGiveEmpty | Training_Scripts/checkExtentionOfDataset.py:9 | a listed file with no dot, or only leading dots such as `.DS_Store`, puts `""` in the set |
| Dicts.PutSpec | Training_Scripts/checkNumbersOfClassesAndDataset.py:18 | a dict assignment sets the key, keeps keys in insertion order (a new key goes last), and leaves other keys unchanged |
| Dicts.PutExisting | Training_Scripts/train_model.py:54 | assigning to a key already present replaces its value where it stands |
| Dicts.FromItemsKeys | Training_Scripts/classIndices.py:15 | the keys of a dict built from items are the keys the items carry |
| Dicts.FromItemsLaterWins | Training_Scripts/classIndices.py:15 | a dict built from items maps a key to the last value given for it |
| Permutations.GatherPermutation | Training_Scripts/data_preprocessing.py:47-48 | fancy indexing by a permutation keeps the multiset of elements |

## Left out

- Image decoding and normalisation are library code working on floats. This covers `cv2.imread` and `/255.0` in `data_preprocessing.py:55-56`, and the torchvision `Resize`, `ToTensor` and `Normalize` transforms. A batch is therefore modelled as its paths and labels, not pixel arrays.
- Model construction, the training and validation loops, the optimizer, the loss and the sklearn metrics are left out. They are foreign calls on floating-point tensors.
- Printing, the log-file writes, `torch.save`, device selection and the hard-coded dataset path are left out. They are output or environment, not logic.
- The internals of torchvision's `ImageFolder` are not visible. `classes`, `samples` and `class_to_idx` are inputs to `TrainModel.LogClassDistribution` and `ClassIndices.Invert`. As a result, the model cannot relate the training labels to the mapping used at inference.
- DataPreprocessing.ImageDataGenerator: assumes every accepted path decodes to an image of one shape. `cv2.imread` returns `None` for an unreadable file such as a zero-byte or corrupt `x.jpg`, and `np.array(images) / 255.0` then raises. The model does not have this failure: its batches are paths and labels.
- DataPreprocessing.RunScript: assumes every image decodes, for the same reason. A file that fails to decode makes the script raise before line 73, so "`NameError` iff there is no image" describes the program only when every accepted file is a readable image of the common shape.
- The order of `DataLoader` shuffling is library randomness and is left out.
- `testScript.py` and `convert_to_tfile.py` are not part of this model. They contain no logic beyond inference and export glue, and the inversion in `testScript.py` is the same as the one in `classIndices.py`.
- `np.random.shuffle` is replaced by an arbitrary permutation argument. The model proves properties for every permutation, not for a particular random one.
- Walks deeper than one directory level are left out. `os.walk` and `ImageFolder` visit every depth, but the model's dataset has class directories directly under the root, and `FileSystem.Walk` covers those two levels only.
- Sub-directories inside a class directory are left out. `os.listdir(class_dir)` would return their names too, and a sub-directory named like an image (`x.jpg`) would be counted by `log_dataset_stats` and `count_images_in_classes` and indexed by the generator. A class directory in the model lists file names only.
- POSIX separators are left out. `PathNames.SplitExt` treats both `\` and `/` as separators, as Python's Windows path module does. On POSIX, `\` is an ordinary character, so `x\.jpg` has extension `.jpg` there but `""` in the model.
- TrainModel.TrainSize: `int(0.8 * N)` is computed in binary floating point and truncated. The model uses the exact integer `4*N/5`. The two agree for every N below 2^50, which covers every dataset that can occur, but not for arbitrarily large N.
- TrainModel.RandomSplit: `random_split` draws its permutation from torch's generator, which is not modelled. The permutation is an argument. Its first `train_size` indices pick the training samples and the rest pick the validation samples. The contract states the sizes and that no sample is lost or duplicated, not which sample lands where.
- CheckClassCounts.ClassCountsValues: assumes the root listing has distinct names, as every real directory listing does. Without that, a later duplicate key would overwrite an earlier one.
- CheckClassCounts.TotalImages: assumes distinct names for the same reason.
- CheckClassCounts.ClassCountsSorted: assumes distinct names for the same reason.

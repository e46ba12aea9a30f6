/**
 * `checkNumbersOfClassesAndDataset.py`: counts the image files of every class
 * directory, recognising images by the raw end of their names, and totals the
 * counts.
 */
module CheckClassCounts {
  import opened Wrappers
  import opened Strings
  import opened PathNames
  import opened FileSystem
  import opened Dicts
  import opened Sums
  import DataPreprocessing

  /** The suffixes `f.endswith((...))` tries: only four, and matched on the raw name. */
  const ImageSuffixes: seq<string> := [".png", ".jpg", ".jpeg", ".JPG"]

  predicate CountsAsImage(f: string)
  {
    EndsWithAny(f, ImageSuffixes)
  }

  /** The names of a class directory listing that end like an image, in listing order. */
  function ImageFiles(files: seq<string>): (r: seq<string>)
    ensures |r| <= |files|
    ensures forall f :: f in r <==> f in files && CountsAsImage(f)
  {
    if files == [] then []
    else
      var last := files[|files| - 1];
      ImageFiles(files[..|files| - 1]) + if CountsAsImage(last) then [last] else []
  }

  /** `num_images` for a directory; a plain file gets no entry and counts nothing. */
  function DirImages(e: Entry): nat
  {
    if e.Dir? then |ImageFiles(e.files)| else 0
  }

  /** The `class_counts[class_name] = num_images` assignments a listing makes, in order. */
  function CountItems(listing: seq<Entry>): seq<(string, nat)>
  {
    if listing == [] then []
    else
      var last := listing[|listing| - 1];
      CountItems(listing[..|listing| - 1]) + if last.Dir? then [(last.name, DirImages(last))] else []
  }

  /** There is one item for every directory of the listing, and no other. */
  lemma {:induction false} CountItemsMembers(listing: seq<Entry>)
    ensures forall x :: x in CountItems(listing) <==> exists e :: e in listing && e.Dir? && x == (e.name, DirImages(e))
    decreases |listing|
  {
    if listing != [] {
      var init := listing[..|listing| - 1];
      CountItemsMembers(init);
      assert forall e :: e in listing <==> e in init || e == listing[|listing| - 1];
    }
  }

  /** The dict `count_images_in_classes` returns. */
  function ClassCounts(root: seq<Entry>): Dict<string, nat>
  {
    FromItems(CountItems(SortByName(root)))
  }

  lemma CountItemsStep(listing: seq<Entry>, i: nat)
    requires i < |listing|
    ensures listing[i].Dir? ==>
              FromItems(CountItems(listing[..i + 1]))
              == Put(FromItems(CountItems(listing[..i])), listing[i].name, DirImages(listing[i]))
    ensures listing[i].File? ==> CountItems(listing[..i + 1]) == CountItems(listing[..i])
  {
    assert listing[..i + 1][..i] == listing[..i];
    var items := CountItems(listing[..i + 1]);
    if listing[i].Dir? {
      assert items[..|items| - 1] == CountItems(listing[..i]);
    }
  }

  /**
   * `count_images_in_classes`: walks the sorted listing, skips plain files and
   * stores the number of image names of every directory under its name.
   */
  method CountImagesInClasses(root: seq<Entry>) returns (classCounts: Dict<string, nat>)
    ensures classCounts == ClassCounts(root)
  {
    var listing := SortByName(root);
    classCounts := [];
    var i := 0;
    assert CountItems(listing[..i]) == [];
    while i < |listing|
      invariant 0 <= i <= |listing|
      invariant classCounts == FromItems(CountItems(listing[..i]))
      invariant UniqueKeys(classCounts)
    {
      var entry := listing[i];
      CountItemsStep(listing, i);
      if entry.Dir? {
        var numImages := DirImages(entry);
        classCounts := Put(classCounts, entry.name, numImages);
      }
      i := i + 1;
    }
    assert listing[..i] == listing;
  }

  /** The keys are exactly the names of the directories of the root; plain files get none. */
  lemma ClassCountsKeys(root: seq<Entry>)
    ensures forall c :: c in Keys(ClassCounts(root)) <==> exists e :: e in root && e.Dir? && e.name == c
  {
    var sorted := SortByName(root);
    var items := CountItems(sorted);
    CountItemsMembers(sorted);
    FromItemsKeys(items);
    assert forall e :: e in sorted <==> e in root by {
      assert forall e :: e in sorted <==> e in multiset(sorted);
    }
    forall c ensures c in Keys(ClassCounts(root)) <==> exists e :: e in root && e.Dir? && e.name == c {
      if exists e :: e in root && e.Dir? && e.name == c {
        var e :| e in root && e.Dir? && e.name == c;
        assert (e.name, DirImages(e)) in items;
        var i :| 0 <= i < |items| && items[i] == (e.name, DirImages(e));
      }
      if c in Keys(ClassCounts(root)) {
        var i :| 0 <= i < |items| && items[i].0 == c;
        assert items[i] in items;
      }
    }
  }

  /** With distinct names the items of a sorted listing come in strictly increasing key order. */
  lemma {:induction false} CountItemsSorted(listing: seq<Entry>)
    requires SortedByName(listing) && DistinctNames(listing)
    ensures forall i, j :: 0 <= i < j < |CountItems(listing)| ==>
              LexLt(CountItems(listing)[i].0, CountItems(listing)[j].0)
    decreases |listing|
  {
    if listing != [] {
      var n := |listing|;
      var init := listing[..n - 1];
      CountItemsSorted(init);
      CountItemsMembers(init);
      var items := CountItems(listing);
      forall i, j | 0 <= i < j < |items| ensures LexLt(items[i].0, items[j].0) {
        if j == |CountItems(init)| {
          assert items[i] in CountItems(init);
          var e :| e in init && e.Dir? && items[i] == (e.name, DirImages(e));
          var m :| 0 <= m < n - 1 && init[m] == e;
          assert listing[m] == e;
        }
      }
    }
  }

  /**
   * The keys are inserted in sorted order, once each: the dict holds one item
   * per directory, in increasing order of the names.
   */
  lemma ClassCountsSorted(root: seq<Entry>)
    requires DistinctNames(root)
    ensures ClassCounts(root) == CountItems(SortByName(root))
    ensures forall i, j :: 0 <= i < j < |ClassCounts(root)| ==> LexLt(ClassCounts(root)[i].0, ClassCounts(root)[j].0)
  {
    var sorted := SortByName(root);
    DistinctNamesPermutation(root, sorted);
    CountItemsSorted(sorted);
    FromDistinctItems(CountItems(sorted));
  }

  /** A directory of a listing with distinct names has its own item in the listing's items. */
  lemma ItemOfDir(listing: seq<Entry>, e: Entry)
    requires UniqueKeys(CountItems(listing))
    requires e in listing && e.Dir?
    ensures Get(CountItems(listing), e.name) == Some(DirImages(e))
  {
    var items := CountItems(listing);
    CountItemsMembers(listing);
    assert (e.name, DirImages(e)) in items;
    var i :| 0 <= i < |items| && items[i] == (e.name, DirImages(e));
    GetSpec(items, e.name);
  }

  /**
   * Every directory of the root is mapped to the number of its image names,
   * which lies between 0 and the number of its entries.
   */
  lemma ClassCountsValues(root: seq<Entry>)
    requires DistinctNames(root)
    ensures forall e :: e in root && e.Dir? ==>
              Get(ClassCounts(root), e.name) == Some(DirImages(e)) && DirImages(e) <= |e.files|
  {
    var sorted := SortByName(root);
    ClassCountsSorted(root);
    assert UniqueKeys(CountItems(sorted));
    forall e | e in root && e.Dir? ensures Get(ClassCounts(root), e.name) == Some(DirImages(e)) {
      assert e in multiset(sorted);
      ItemOfDir(sorted, e);
    }
  }

  /** A total over a listing, by the same rule as the dict's values. */
  lemma {:induction false} CountItemsTotal(listing: seq<Entry>)
    ensures SumValues(CountItems(listing)) == SumBy(listing, DirImages)
    decreases |listing|
  {
    if listing != [] {
      var n := |listing|;
      CountItemsTotal(listing[..n - 1]);
      if listing[n - 1].Dir? {
        SumValuesSnoc(CountItems(listing[..n - 1]), (listing[n - 1].name, DirImages(listing[n - 1])));
      } else {
        assert CountItems(listing) == CountItems(listing[..n - 1]);
      }
    }
  }

  /** `total_images = sum(class_counts.values())` is the number of image names over all directories. */
  lemma TotalImages(root: seq<Entry>)
    requires DistinctNames(root)
    ensures SumValues(ClassCounts(root)) == SumBy(root, DirImages)
  {
    ClassCountsSorted(root);
    CountItemsTotal(SortByName(root));
    SumByPermutation(SortByName(root), root, DirImages);
  }

  /**
   * The two image rules compared, one way: a name whose extension is one of
   * `.png`, `.jpg`, `.jpeg`, `.JPG` ends with it, so it is counted here too.
   */
  lemma ExtensionRuleImpliesSuffixRule(name: string)
    requires DataPreprocessing.IsValidImage(name) && Ext(name) != ".JPEG" && Ext(name) != ".PNG"
    ensures CountsAsImage(name)
  {
    var ext := Ext(name);
    assert SplitExt(name).0 + ext == name;
    assert name[|name| - |ext|..] == ext;
    assert ext in ImageSuffixes;
    var i :| 0 <= i < |ImageSuffixes| && ImageSuffixes[i] == ext;
    assert EndsWith(name, ImageSuffixes[i]);
  }

  /**
   * The other way: a counted name that has an extension at all has one of the
   * four, so it is a valid image for the other scripts as well.
   */
  lemma SuffixRuleImpliesExtensionRule(name: string)
    requires CountsAsImage(name) && HasExt(name)
    ensures DataPreprocessing.IsValidImage(name) && Ext(name) != ".JPEG" && Ext(name) != ".PNG"
  {
    var i :| 0 <= i < |ImageSuffixes| && EndsWith(name, ImageSuffixes[i]);
    var suffix := ImageSuffixes[i];
    SuffixIsExtension(i);
    ExtUnique(name, suffix);
  }

  /** Each of the four suffixes is a well-formed extension listed by the other scripts. */
  lemma SuffixIsExtension(i: nat)
    requires i < |ImageSuffixes|
    ensures ExtShape(ImageSuffixes[i]) && ImageSuffixes[i] != []
    ensures ImageSuffixes[i] in DataPreprocessing.ValidExtensions
    ensures ImageSuffixes[i] != ".JPEG" && ImageSuffixes[i] != ".PNG"
  {
  }

  /** A string that ends with `suffix` ends with its last two characters. */
  lemma EndsWithLastTwo(s: string, suffix: string)
    requires 2 <= |suffix|
    ensures EndsWith(s, suffix) ==> s[|s| - 2..] == suffix[|suffix| - 2..]
  {
    if EndsWith(s, suffix) {
      assert s[|s| - 2..] == s[|s| - |suffix|..][|suffix| - 2..];
    }
  }

  /** `leaf.PNG` and `leaf.JPEG` are valid images for the other scripts but are not counted here. */
  lemma UpperCaseFormsNotCounted(stem: string)
    requires PlainStem(stem)
    ensures DataPreprocessing.IsValidImage(stem + ".PNG") && !CountsAsImage(stem + ".PNG")
    ensures DataPreprocessing.IsValidImage(stem + ".JPEG") && !CountsAsImage(stem + ".JPEG")
  {
    ExtAfterStem(stem, ".PNG");
    ExtAfterStem(stem, ".JPEG");
    var png, jpeg := stem + ".PNG", stem + ".JPEG";
    assert png[|png| - 1] == 'G' && png[|png| - 2] == 'N';
    assert jpeg[|jpeg| - 1] == 'G' && jpeg[|jpeg| - 2] == 'E';
    forall suffix | suffix in ImageSuffixes ensures !EndsWith(png, suffix) && !EndsWith(jpeg, suffix) {
      assert suffix == ".png" || suffix == ".jpg" || suffix == ".jpeg" || suffix == ".JPG";
      EndsWithLastTwo(png, suffix);
      EndsWithLastTwo(jpeg, suffix);
    }
  }

  /** A file called just `.jpg` is counted here, although its extension is empty and no other script takes it. */
  lemma DotOnlyNameCounted()
    ensures CountsAsImage(".jpg") && !DataPreprocessing.IsValidImage(".jpg")
  {
    ExtOfLeadingDots(".", "jpg");
    assert "." + "jpg" == ".jpg";
    assert EndsWith(".jpg", ImageSuffixes[1]);
  }
}

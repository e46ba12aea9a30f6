/**
 * `checkExtentionOfDataset.py`: the set of `splitext` extensions of every file
 * the walk of the dataset directory visits.
 */
module ExtensionCensus {
  import opened PathNames
  import opened FileSystem

  /** The set `extensions.add(...)` leaves after visiting `paths` in order. */
  function Census(paths: seq<Path>): (r: set<string>)
    ensures forall e :: e in r <==> exists p :: p in paths && Ext(p.file) == e
    ensures |r| <= |paths|
  {
    if paths == [] then {}
    else
      var init := paths[..|paths| - 1];
      var last := paths[|paths| - 1];
      assert forall p :: p in paths <==> p in init || p == last;
      Census(init) + {Ext(last.file)}
  }

  lemma CensusStep(visited: seq<Path>, paths: seq<Path>, j: nat)
    requires j < |paths|
    ensures Census(visited + paths[..j + 1]) == Census(visited + paths[..j]) + {Ext(paths[j].file)}
  {
    assert (visited + paths[..j + 1])[..|visited| + j] == visited + paths[..j];
  }

  /**
   * The script's nested loop over `os.walk`: adds the extension of every
   * visited file, so the set holds exactly the extensions of the listed files.
   */
  method CollectExtensions(root: seq<Entry>) returns (extensions: set<string>)
    ensures extensions == Census(WalkPaths(Walk(root)))
    ensures forall e :: e in extensions <==> exists p :: IsListedFile(root, p) && Ext(p.file) == e
  {
    var steps := Walk(root);
    extensions := {};
    var i := 0;
    while i < |steps|
      invariant 0 <= i <= |steps|
      invariant extensions == Census(WalkPaths(steps[..i]))
    {
      var step := steps[i];
      ghost var visited := WalkPaths(steps[..i]);
      var j := 0;
      assert visited + StepPaths(step)[..j] == visited;
      while j < |step.files|
        invariant 0 <= j <= |step.files|
        invariant extensions == Census(visited + StepPaths(step)[..j])
      {
        var file := step.files[j];
        CensusStep(visited, StepPaths(step), j);
        extensions := extensions + {Ext(file)};
        j := j + 1;
      }
      assert StepPaths(step)[..j] == StepPaths(step);
      WalkPathsSnoc(steps, i);
      i := i + 1;
    }
    assert steps[..i] == steps;
    WalkVisitsListedFiles(root);
  }

  /** The result depends only on which files are visited, not on the order or on repeats. */
  lemma CensusOrderFree(a: seq<Path>, b: seq<Path>)
    requires forall p :: p in a <==> p in b
    ensures Census(a) == Census(b)
  {
    assert forall e :: e in Census(a) <==> e in Census(b);
  }

  /** A second file with an extension already seen leaves the set as it was. */
  lemma CensusDuplicateCollapses(paths: seq<Path>, q: Path)
    requires exists p :: p in paths && Ext(p.file) == Ext(q.file)
    ensures Census(paths + [q]) == Census(paths)
  {
    assert (paths + [q])[..|paths|] == paths;
  }

  /** `f` is the name of a plain file at the root or of a file inside one of its directories. */
  ghost predicate FileNameListed(root: seq<Entry>, f: string)
  {
    File(f) in root || exists i :: 0 <= i < |root| && root[i].Dir? && f in root[i].files
  }

  /**
   * Only file entries contribute: the set is the extensions of the listed file
   * names, and a directory's own name plays no part.
   */
  lemma CensusOfFileNames(root: seq<Entry>)
    ensures forall e :: e in Census(WalkPaths(Walk(root))) <==> exists f :: FileNameListed(root, f) && Ext(f) == e
  {
    WalkVisitsListedFiles(root);
    forall e ensures e in Census(WalkPaths(Walk(root))) <==> exists f :: FileNameListed(root, f) && Ext(f) == e {
      if exists f :: FileNameListed(root, f) && Ext(f) == e {
        var f :| FileNameListed(root, f) && Ext(f) == e;
        if File(f) in root {
          assert IsListedFile(root, Path(Top, f));
        } else {
          var i :| 0 <= i < |root| && root[i].Dir? && f in root[i].files;
          assert IsListedFile(root, Path(Sub(root[i].name), f));
        }
      }
      if e in Census(WalkPaths(Walk(root))) {
        var p :| p in WalkPaths(Walk(root)) && Ext(p.file) == e;
        assert FileNameListed(root, p.file);
      }
    }
  }

  /** Renaming a directory does not change the set. */
  lemma RenamedDirSameCensus(root: seq<Entry>, i: nat, name: string)
    requires i < |root| && root[i].Dir?
    ensures Census(WalkPaths(Walk(root[i := Dir(name, root[i].files)]))) == Census(WalkPaths(Walk(root)))
  {
    var root' := root[i := Dir(name, root[i].files)];
    CensusOfFileNames(root);
    CensusOfFileNames(root');
    forall f ensures FileNameListed(root, f) <==> FileNameListed(root', f) {
      RenamedDirSameNames(root, i, name, f);
    }
  }

  /** Renaming a directory lists the same file names. */
  lemma RenamedDirSameNames(root: seq<Entry>, i: nat, name: string, f: string)
    requires i < |root| && root[i].Dir?
    ensures FileNameListed(root, f) <==> FileNameListed(root[i := Dir(name, root[i].files)], f)
  {
    var root' := root[i := Dir(name, root[i].files)];
    assert forall k :: 0 <= k < |root| ==> root'[k].Dir? == root[k].Dir? && (root[k].Dir? ==> root'[k].files == root[k].files);
    assert File(f) in root <==> File(f) in root' by {
      if File(f) in root {
        var k :| 0 <= k < |root| && root[k] == File(f);
        assert root'[k] == File(f);
      }
      if File(f) in root' {
        var k :| 0 <= k < |root'| && root'[k] == File(f);
        assert root[k] == File(f);
      }
    }
  }

  /**
   * A listed file whose dots all lead its name, such as `.DS_Store`, or that has
   * no dot at all, puts `""` into the set.
   */
  lemma LeadingDotsGiveEmpty(root: seq<Entry>, p: Path, dots: string, rest: string)
    requires IsListedFile(root, p) && p.file == dots + rest
    requires forall i :: 0 <= i < |dots| ==> dots[i] == '.'
    requires forall i :: 0 <= i < |rest| ==> rest[i] != '.'
    ensures "" in Census(WalkPaths(Walk(root)))
  {
    ExtOfLeadingDots(dots, rest);
    WalkVisitsListedFiles(root);
  }
}

/** The asset check: the image names the catalog declares against the image
    files found in the asset directory (gen.js:7-21). */
module Assets {
  import opened Catalog

  /** What one record contributes to `comics_all.map(x => x.files).flat()`:
      its `files` in order, or a single `undefined` when it has none. */
  function Entries(c: Comic): seq<Option<string>> {
    match c.files
    case None => [None]
    case Some(fs) => seq(|fs|, i requires 0 <= i < |fs| => Some(fs[i]))
  }

  /** The expected image names, flattened in catalog order. */
  function ExpectedFiles(catalog: seq<Comic>): seq<Option<string>> {
    if catalog == [] then []
    else ExpectedFiles(catalog[..|catalog| - 1]) + Entries(catalog[|catalog| - 1])
  }

  /** The record declares entry `e`: `undefined` for a record without `files`,
      otherwise one of its names. */
  predicate Declares(c: Comic, e: Option<string>) {
    match c.files
    case None => e == None
    case Some(fs) => e.Some? && e.value in fs
  }

  lemma EntriesMembers(c: Comic, e: Option<string>)
    ensures e in Entries(c) <==> Declares(c, e)
  {
    if c.files.Some? && Declares(c, e) {
      var j :| 0 <= j < |c.files.value| && c.files.value[j] == e.value;
      assert Entries(c)[j] == e;
    }
  }

  /** An entry is expected exactly when some record of the catalog declares it:
      `undefined` when some record has no `files`, a name when some record lists it. */
  lemma {:induction false} ExpectedFilesMembers(catalog: seq<Comic>, e: Option<string>)
    ensures e in ExpectedFiles(catalog) <==> exists i :: 0 <= i < |catalog| && Declares(catalog[i], e)
  {
    if catalog != [] {
      var init, c := catalog[..|catalog| - 1], catalog[|catalog| - 1];
      ExpectedFilesMembers(init, e);
      EntriesMembers(c, e);
      assert ExpectedFiles(catalog) == ExpectedFiles(init) + Entries(c);
      if e in ExpectedFiles(catalog) {
        if e in ExpectedFiles(init) {
          var i :| 0 <= i < |init| && Declares(init[i], e);
          assert catalog[i] == init[i];
        } else {
          assert Declares(catalog[|catalog| - 1], e);
        }
      }
      if exists i :: 0 <= i < |catalog| && Declares(catalog[i], e) {
        var i :| 0 <= i < |catalog| && Declares(catalog[i], e);
        if i < |init| {
          assert init[i] == catalog[i];
          assert e in ExpectedFiles(init);
        } else {
          assert e in Entries(c);
        }
      }
    }
  }

  /** Flattening follows the catalog: the names of a longer catalog extend those of its prefix. */
  lemma {:induction false} ExpectedFilesAppend(a: seq<Comic>, b: seq<Comic>)
    ensures ExpectedFiles(a + b) == ExpectedFiles(a) + ExpectedFiles(b)
  {
    if b == [] {
      assert a + b == a;
    } else {
      assert (a + b)[..|a + b| - 1] == a + b[..|b| - 1];
      ExpectedFilesAppend(a, b[..|b| - 1]);
    }
  }

  /** `real_check.has(name)`: the name is the name of a file on disk (never true of `undefined`). */
  predicate Found(name: Option<string>, onDisk: seq<string>) {
    name.Some? && name.value in onDisk
  }

  /** Index of the first expected name that is not the name of a file on disk, or |expected|. */
  function FirstMissing(expected: seq<Option<string>>, onDisk: seq<string>, from: nat): (k: nat)
    requires from <= |expected|
    ensures from <= k <= |expected|
    ensures forall j :: from <= j < k ==> Found(expected[j], onDisk)
    ensures k < |expected| ==> !Found(expected[k], onDisk)
    decreases |expected| - from
  {
    if from == |expected| || !Found(expected[from], onDisk) then from
    else FirstMissing(expected, onDisk, from + 1)
  }

  /** Index of the first file on disk that is not an expected name, or |onDisk|. */
  function FirstUnexpected(expected: seq<Option<string>>, onDisk: seq<string>, from: nat): (k: nat)
    requires from <= |onDisk|
    ensures from <= k <= |onDisk|
    ensures forall j :: from <= j < k ==> Some(onDisk[j]) in expected
    ensures k < |onDisk| ==> Some(onDisk[k]) !in expected
    decreases |onDisk| - from
  {
    if from == |onDisk| || Some(onDisk[from]) !in expected then from
    else FirstUnexpected(expected, onDisk, from + 1)
  }

  /** What the check throws, if anything: the first missing name in the order of
      `expected`, else the first unexpected file in the order of `onDisk`. */
  function AssetVerdict(expected: seq<Option<string>>, onDisk: seq<string>): Outcome<BuildError> {
    var k := FirstMissing(expected, onDisk, 0);
    if k < |expected| then Fail(MissingImage(expected[k]))
    else
      var u := FirstUnexpected(expected, onDisk, 0);
      if u < |onDisk| then Fail(UnexpectedImage(onDisk[u])) else Pass
  }

  /** The set of expected names, and the set of names on disk seen as expected names. */
  function ExpectedSet(expected: seq<Option<string>>): set<Option<string>> {
    set e | e in expected
  }

  function RealSet(onDisk: seq<string>): set<Option<string>> {
    set n | n in onDisk :: Some(n)
  }

  /** The check passes exactly when both name sets are equal; duplicates and
      order make no difference. */
  lemma AssetVerdictPassIff(expected: seq<Option<string>>, onDisk: seq<string>)
    ensures AssetVerdict(expected, onDisk).Pass? <==> ExpectedSet(expected) == RealSet(onDisk)
  {
    var k := FirstMissing(expected, onDisk, 0);
    var u := FirstUnexpected(expected, onDisk, 0);
    if k < |expected| {
      assert expected[k] in ExpectedSet(expected) && expected[k] !in RealSet(onDisk);
    } else if u < |onDisk| {
      assert Some(onDisk[u]) in RealSet(onDisk) && Some(onDisk[u]) !in ExpectedSet(expected);
    } else {
      forall e | e in ExpectedSet(expected) ensures e in RealSet(onDisk) {
        var j :| 0 <= j < |expected| && expected[j] == e;
        assert Found(expected[j], onDisk);
      }
      forall e | e in RealSet(onDisk) ensures e in ExpectedSet(expected) {
        var j :| 0 <= j < |onDisk| && e == Some(onDisk[j]);
      }
    }
  }

  /** A record without `files` always makes the check throw: its `undefined`
      entry, or an earlier missing name, is reported. */
  lemma UndefinedEntryFails(catalog: seq<Comic>, onDisk: seq<string>, c: Comic)
    requires c in catalog && c.files.None?
    ensures AssetVerdict(ExpectedFiles(catalog), onDisk).Fail?
    ensures AssetVerdict(ExpectedFiles(catalog), onDisk).error.MissingImage?
  {
    var expected := ExpectedFiles(catalog);
    var i :| 0 <= i < |catalog| && catalog[i] == c;
    ExpectedFilesMembers(catalog, None);
    var j :| 0 <= j < |expected| && expected[j] == None;
    assert !Found(expected[j], onDisk);
  }

  /** Once the check passes, every record of the catalog has `files`. */
  lemma PassedRecordsHaveFiles(catalog: seq<Comic>, onDisk: seq<string>)
    requires AssetVerdict(ExpectedFiles(catalog), onDisk).Pass?
    ensures forall i :: 0 <= i < |catalog| ==> catalog[i].files.Some?
  {
    forall i | 0 <= i < |catalog| ensures catalog[i].files.Some? {
      if catalog[i].files.None? {
        UndefinedEntryFails(catalog, onDisk, catalog[i]);
      }
    }
  }

  /** The two validation loops (gen.js:10-21): throw on the first expected name
      that is not a file on disk, then on the first file on disk that is not expected. */
  method CheckAssets(expected: seq<Option<string>>, onDisk: seq<string>) returns (r: Outcome<BuildError>)
    ensures r == AssetVerdict(expected, onDisk)
    ensures r.Pass? <==> ExpectedSet(expected) == RealSet(onDisk)
  {
    AssetVerdictPassIff(expected, onDisk);
    var expectedCheck := set e | e in expected;
    var onDiskCheck := set n | n in onDisk;
    var i := 0;
    while i < |expected|
      invariant 0 <= i <= |expected|
      invariant FirstMissing(expected, onDisk, 0) == FirstMissing(expected, onDisk, i)
    {
      var name := expected[i];
      if !(name.Some? && name.value in onDiskCheck) {
        return Fail(MissingImage(name));
      }
      i := i + 1;
    }
    var j := 0;
    while j < |onDisk|
      invariant 0 <= j <= |onDisk|
      invariant FirstUnexpected(expected, onDisk, 0) == FirstUnexpected(expected, onDisk, j)
    {
      if Some(onDisk[j]) !in expectedCheck {
        return Fail(UnexpectedImage(onDisk[j]));
      }
      j := j + 1;
    }
    r := Pass;
  }
}

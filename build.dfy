/** The whole build: check the images, choose and order the published records,
    link and parse them, and list the files to write (gen.js:5-105). */
module Build {
  import opened Catalog
  import opened Assets
  import opened Sequencer
  import opened Render

  /** `comics_all.filter(...).sort(...)` (gen.js:25-26): a fresh array of the
      visible records, sorted in place by descending id; the catalog itself is
      left as it was. */
  method Publish(catalog: seq<Comic>) returns (comics: seq<Comic>)
    ensures comics == Published(catalog)
  {
    var visible := Visible(catalog);
    var a := new Comic[|visible|](i requires 0 <= i < |visible| => visible[i]);
    assert a[..] == visible;
    SortByIdDescending(a);
    comics := a[..];
  }

  /** After a passing asset check the published records are separate objects,
      each a visible record of the catalog with `files`. */
  lemma PublishedAfterCheck(catalog: seq<Comic>, onDisk: seq<string>)
    requires Distinct(catalog)
    requires AssetVerdict(ExpectedFiles(catalog), onDisk).Pass?
    ensures Distinct(Published(catalog))
    ensures forall c :: c in Published(catalog) ==> c in catalog && IsVisible(c)
    ensures forall j :: 0 <= j < |Published(catalog)| ==> Published(catalog)[j].files.Some?
  {
    var s := Published(catalog);
    PassedRecordsHaveFiles(catalog, onDisk);
    VisibleDistinct(catalog);
    SortDescDistinct(Visible(catalog));
    forall c | c in s ensures c in catalog && IsVisible(c) {
      PublishedMembers(catalog, c);
    }
    forall j | 0 <= j < |s| ensures s[j].files.Some? {
      assert s[j] in s;
      var i :| 0 <= i < |catalog| && catalog[i] == s[j];
    }
  }

  /** Runs the build on the parsed catalog and the names of the image files on
      disk, with the template text `L` (`SiteLayout()` in the script). It throws
      the message of the asset check's error; otherwise the first id the link
      loop cannot parse; otherwise it returns the files to write. Hidden records are never touched. */
  method Generate(catalog: seq<Comic>, onDisk: seq<string>, L: Layout) returns (r: Result<seq<(string, string)>, string>)
    requires Distinct(catalog)
    modifies set c | c in catalog
    ensures var check := AssetVerdict(ExpectedFiles(catalog), onDisk);
      check.Fail? ==> r == Failure(Message(check.error)) && forall i :: 0 <= i < |catalog| ==> unchanged(catalog[i])
    ensures var s := Published(catalog);
      AssetVerdict(ExpectedFiles(catalog), onDisk).Pass? ==>
        && (FirstInvalid(s, 0) < |s| ==> r == Failure(Message(InvalidId(s[FirstInvalid(s, 0)].id))))
        && (FirstInvalid(s, 0) == |s| ==>
              && Linked(s)
              && (forall j :: 0 <= j < |s| ==> s[j].files.Some?)
              && r == Success(ToWrite(L, s)))
    ensures forall i :: 0 <= i < |catalog| && !IsVisible(catalog[i]) ==> unchanged(catalog[i])
  {
    var expected := ExpectedFiles(catalog);
    var check := CheckAssets(expected, onDisk);
    if check.Fail? {
      return Failure(Message(check.error));
    }
    var comics := Publish(catalog);
    PublishedAfterCheck(catalog, onDisk);
    var linked := LinkAndParse(comics);
    if linked.Fail? {
      return Failure(Message(linked.error));
    }
    r := Success(ToWrite(L, comics));
  }
}

/** The pages the build script writes: URLs, the display string of an id, links
    to neighbours, the image list, and the ordered list of files to write
    (gen.js:42-105). */
module Render {
  import opened Text
  import opened Catalog
  import opened Sequencer

  // ---------------------------------------------------------------------------
  // to_url
  // ---------------------------------------------------------------------------

  /** `to_url`: `.` names the index page, anything else names `<x>.html`. */
  function ToUrl(x: string): (r: string)
    ensures |r| >= 5 && r[|r| - 5..] == ".html"
    ensures x == "." ==> r == "index.html"
    ensures x != "." ==> r[..|r| - 5] == x
  {
    if x == "." then "index.html"
    else
      var r := x + ".html";
      assert r[..|r| - 5] == x && r[|r| - 5..] == ".html";
      r
  }

  /** Apart from `.`, different names give different URLs. */
  lemma ToUrlInjective(x: string, y: string)
    requires x != "." && y != "."
    ensures ToUrl(x) == ToUrl(y) <==> x == y
  {
    if ToUrl(x) == ToUrl(y) {
      assert x == ToUrl(x)[..|ToUrl(x)| - 5];
    }
  }

  /** `.` and `index` share a URL, the one collision `to_url` has. */
  lemma ToUrlIndexShared()
    ensures ToUrl(".") == ToUrl("index")
  {
  }

  /** An id that parses holds eight digits: it is neither `index` nor `about`,
      and its URL is neither the index nor the about page. */
  lemma ParsedIdUrl(id: string)
    requires ParseId(id).Some?
    ensures id != "index" && id != "about"
    ensures ToUrl(id) != ToUrl(".") && ToUrl(id) != ToUrl("about")
  {
    ParseIdSucceedsIff(id);
    var p :| DateRunAt(id, p);
    assert |id| >= 8;
  }

  // ---------------------------------------------------------------------------
  // comic_to_pretty and comic_to_link
  // ---------------------------------------------------------------------------

  /** `x ? x : ''`: an absent suffix prints as nothing. */
  function OrEmpty(x: Option<string>): string {
    match x
    case Some(t) => t
    case None => ""
  }

  /** `${y}.${m}.${d}${x ? x : ''}`: the date parts as numbers, then the suffix if any. */
  function Pretty(p: Parts): string {
    NatToString(p.y) + "." + NatToString(p.m) + "." + NatToString(p.d) + OrEmpty(p.x)
  }

  /** A group of digits of a match prints as the group without its leading zeros. */
  lemma GroupText(id: string, i: nat, j: nat, n: nat)
    requires i < j <= |id| && forall k :: i <= k < j ==> IsDigit(id[k])
    requires n == DigitsValue(id[i..j])
    ensures AllDigits(id[i..j])
    ensures NatToString(n) == StripLeadingZeros(id[i..j])
  {
    var g := id[i..j];
    assert AllDigits(g) by {
      forall k | 0 <= k < |g| ensures IsDigit(g[k]) {
        assert g[k] == id[i + k];
      }
    }
    RenderedValueStripsZeros(g);
  }

  /** The suffix of a match prints as the run of word characters after the digits. */
  lemma SuffixText(id: string, p: nat)
    requires DateRunAt(id, p)
    ensures OrEmpty(PartsAt(id, p).x) == id[p + 8..WordRunEnd(id, p + 8)]
  {
  }

  /** The display string of a parsed id is its date digits without leading zeros,
      separated by dots, followed by the suffix exactly as the id spells it:
      `20230107b` shows as `2023.1.7b`. */
  lemma PrettyOfId(id: string, p: nat)
    requires DateRunAt(id, p)
    requires forall q :: 0 <= q < p ==> !DateRunAt(id, q)
    ensures ParseId(id).Some?
    ensures Pretty(ParseId(id).value) ==
      StripLeadingZeros(id[p..p + 4]) + "." + StripLeadingZeros(id[p + 4..p + 6]) + "."
        + StripLeadingZeros(id[p + 6..p + 8]) + id[p + 8..WordRunEnd(id, p + 8)]
  {
    ParseFromLeftmost(id, 0, p);
    var r := PartsAt(id, p);
    GroupText(id, p, p + 4, r.y);
    GroupText(id, p + 4, p + 6, r.m);
    GroupText(id, p + 6, p + 8, r.d);
    SuffixText(id, p);
  }

  /** `comic_to_link`: an anchor to the record's page showing its display string. */
  function ComicLink(c: Comic): (r: string)
    requires c.parts.Some?
    reads c
    ensures |r| >= 2 && r[0] == '<' && r[1] == 'a'
  {
    var open := "<a href='";
    assert open[0] == '<' && open[1] == 'a';
    open + ToUrl(c.id) + "'>" + Pretty(c.parts.value) + "</a>"
  }

  /** `c.prev ? comic_to_link(c.prev) : '<b></b>'`, and the same for `c.next`. */
  function NavSlot(n: Comic?): (r: string)
    requires n != null ==> n.parts.Some?
    reads n
    ensures r == "<b></b>" <==> n == null
  {
    if n == null then "<b></b>"
    else
      var r := ComicLink(n);
      assert r[1] != "<b></b>"[1];
      r
  }

  /** In a linked sequence, the first page has no previous link, the last page no
      next link, and every other slot links to the neighbouring record. */
  lemma NavSlotsOfLinked(s: seq<Comic>, i: nat)
    requires Linked(s) && i < |s|
    ensures s[i].prev != null ==> s[i].prev.parts.Some?
    ensures s[i].next != null ==> s[i].next.parts.Some?
    ensures i > 0 ==> s[i - 1].parts.Some?
    ensures i < |s| - 1 ==> s[i + 1].parts.Some?
    ensures NavSlot(s[i].prev) == "<b></b>" <==> i == 0
    ensures NavSlot(s[i].next) == "<b></b>" <==> i == |s| - 1
    ensures i > 0 ==> NavSlot(s[i].prev) == ComicLink(s[i - 1])
    ensures i < |s| - 1 ==> NavSlot(s[i].next) == ComicLink(s[i + 1])
  {
    assert LinkedAt(s, i);
    if i > 0 {
      assert LinkedAt(s, i - 1);
    }
    if i < |s| - 1 {
      assert LinkedAt(s, i + 1);
    }
  }

  // ---------------------------------------------------------------------------
  // c.files.map(x => `<img src='img/comic/${x}'>`).join('')
  // ---------------------------------------------------------------------------

  function ImgTag(f: string): string {
    "<img src='img/comic/" + f + "'>"
  }

  function ImgTags(files: seq<string>): seq<string> {
    seq(|files|, i requires 0 <= i < |files| => ImgTag(files[i]))
  }

  /** The images of a comic page. */
  function Images(files: seq<string>): string {
    Concat(ImgTags(files))
  }

  /** One image per file, in the order of the list: the images of a list are the
      images of its parts, one after the other, and a single file gives one tag. */
  lemma ImagesAppend(a: seq<string>, b: seq<string>)
    ensures Images(a + b) == Images(a) + Images(b)
  {
    assert ImgTags(a + b) == ImgTags(a) + ImgTags(b);
    ConcatAppend(ImgTags(a), ImgTags(b));
  }

  lemma ImagesSingle(f: string)
    ensures Images([f]) == ImgTag(f)
  {
    assert ImgTags([f]) == [ImgTag(f)];
    assert ImgTags([f])[..0] == [];
    assert Concat([ImgTag(f)]) == Concat([]) + ImgTag(f);
  }

  lemma ImagesEmpty()
    ensures Images([]) == ""
  {
  }

  // ---------------------------------------------------------------------------
  // header, index, about and comic_to_page
  // ---------------------------------------------------------------------------

  /** The fixed text of the templates: everything the three pages print that
      does not depend on the catalog, in the order it appears. */
  datatype Layout = Layout(
    header: string,
    listHead: string,
    tableOpen: string,
    tableClose: string,
    aboutBody: string,
    titleOpen: string,
    ogTitleOpen: string,
    ogDescriptionOpen: string,
    bodyOpen: string,
    navOpen: string,
    navClose: string,
    bodyClose: string)

  /** The text of the site's templates; `header` is the shared navigation header,
      whose links are `to_url('.')` and `to_url('about')`. */
  function SiteLayout(): Layout {
    Layout(
      header := "\n\t<div id=header><a href=" + ToUrl(".") + "><img src=img/bird.png></a><p>free bird comics</p></div>\n"
        + "\t<nav class=header-nav><a href='" + ToUrl(".") + "'>index</a><a href='" + ToUrl("about") + "'>about</a></nav>\n"
        + "\t<hr>\n",
      listHead := "\n<!DOCTYPE html>\n<title>index</title>\n"
        + "<meta name=\"viewport\" content=\"width=device-width, initial-scale=1.0\">\n"
        + "<link rel=stylesheet href=img/style.css>\n\t",
      tableOpen := "\n\t<table>\n\t<tr><th>id<th>title\n\t",
      tableClose := "\n\t</table>\n",
      aboutBody := "\n\t<p>A Tasteful Commentary On Nothing In Particular</p>\n",
      titleOpen := "\n<!DOCTYPE html>\n<title>",
      ogTitleOpen := "</title>\n<meta property='og:title' content='",
      ogDescriptionOpen := " - free bird comic'>\n"
        + "<meta property='og:type' content='bird comic'>\n"
        + "<meta property='og:image' content='https://todnjs.github.io/img/bird.png'>\n"
        + "<meta property='og:description' content='an amusing bird comic entitled „",
      bodyOpen := "\"'>\n<meta name=\"viewport\" content=\"width=device-width, initial-scale=1.0\">\n"
        + "<link rel=stylesheet href=img/style.css>\n\n<body>\n\t",
      navOpen := "\n\n\t<nav class=comic-nav>\n\t\t",
      navClose := "\n\t\t</nav>\n\t<h1>",
      bodyClose := "\n</body>\n")
  }

  /** One row of the index table: the link to the record's page, then its title. */
  function IndexRow(c: Comic): string
    requires c.parts.Some?
    reads c
  {
    "<tr><td>" + ComicLink(c) + "<td>" + Interpolate(c.title)
  }

  /** The rows of the index table: one row per record, in sequence order. */
  function IndexRows(s: seq<Comic>): (r: seq<string>)
    requires forall j :: 0 <= j < |s| ==> s[j].parts.Some?
    reads s
    ensures |r| == |s|
    ensures forall i :: 0 <= i < |s| ==> r[i] == IndexRow(s[i])
  {
    seq(|s|, i requires 0 <= i < |s| && s[i].parts.Some? reads s => IndexRow(s[i]))
  }

  /** The rows of the index table joined, built one record at a time. */
  function IndexTable(s: seq<Comic>): string
    requires forall j :: 0 <= j < |s| ==> s[j].parts.Some?
    reads s
  {
    if s == [] then "" else IndexTable(s[..|s| - 1]) + IndexRow(s[|s| - 1])
  }

  /** The table is `.map(...).join('')` of the records: one row per record, in order. */
  lemma {:induction false} IndexTableIsJoin(s: seq<Comic>)
    requires forall j :: 0 <= j < |s| ==> s[j].parts.Some?
    ensures IndexTable(s) == Concat(IndexRows(s))
  {
    if s != [] {
      var init := s[..|s| - 1];
      IndexTableIsJoin(init);
      assert IndexRows(s)[..|s| - 1] == IndexRows(init);
    }
  }

  /** The index page: a table with one row per record. */
  function IndexPage(L: Layout, s: seq<Comic>): string
    requires forall j :: 0 <= j < |s| ==> s[j].parts.Some?
    reads s
  {
    L.listHead + L.header + L.tableOpen + IndexTable(s) + L.tableClose
  }

  /** The about page. */
  function AboutPage(L: Layout): string {
    L.listHead + L.header + L.aboutBody
  }

  /** What a record needs before its page can be rendered: its parts, its files,
      and the parts of the neighbours it links to. */
  predicate Renderable(c: Comic)
    reads c, c.prev, c.next
  {
    && c.parts.Some?
    && c.files.Some?
    && (c.prev != null ==> c.prev.parts.Some?)
    && (c.next != null ==> c.next.parts.Some?)
  }

  /** `comic_to_page`: title, navigation between neighbours, heading and images. */
  function ComicPage(L: Layout, c: Comic): string
    requires Renderable(c)
    reads c, c.prev, c.next
  {
    var t := Interpolate(c.title);
    L.titleOpen + t + L.ogTitleOpen + t + L.ogDescriptionOpen + t + L.bodyOpen + L.header
      + L.navOpen + NavSlot(c.prev) + "\n\t\t←<b>" + Pretty(c.parts.value) + "</b>\n\t\t←" + NavSlot(c.next)
      + L.navClose + t + "</h1>\n\t" + Images(c.files.value) + L.bodyClose
  }

  // ---------------------------------------------------------------------------
  // to_write
  // ---------------------------------------------------------------------------

  /** `docs/${c.id}.html`. */
  function PagePath(id: string): string {
    "docs/" + id + ".html"
  }

  /** A record of a linked sequence whose files are present can be rendered, and
      its neighbours belong to the sequence. */
  lemma LinkedRenderable(s: seq<Comic>, i: nat)
    requires Linked(s) && i < |s| && s[i].files.Some?
    ensures Renderable(s[i])
    ensures s[i].prev != null ==> s[i].prev in s
    ensures s[i].next != null ==> s[i].next in s
  {
    assert LinkedAt(s, i);
    if i > 0 {
      assert LinkedAt(s, i - 1);
    }
    if i + 1 < |s| {
      assert LinkedAt(s, i + 1);
    }
  }

  /** The file written for the record at `i`: its path and its page. */
  function PageEntry(L: Layout, s: seq<Comic>, i: nat): (e: (string, string))
    requires i < |s| && Linked(s) && s[i].files.Some?
    reads s
    ensures e.0 == PagePath(s[i].id)
  {
    LinkedRenderable(s, i);
    (PagePath(s[i].id), ComicPage(L, s[i]))
  }

  /** One page per record of a linked sequence, in sequence order. */
  function Pages(L: Layout, s: seq<Comic>): (r: seq<(string, string)>)
    requires Linked(s) && forall j :: 0 <= j < |s| ==> s[j].files.Some?
    reads s
    ensures |r| == |s|
    ensures forall i :: 0 <= i < |s| ==> r[i] == PageEntry(L, s, i)
  {
    seq(|s|, i requires 0 <= i < |s| && Linked(s) && s[i].files.Some? reads s => PageEntry(L, s, i))
  }

  /** Each entry of `Pages` is the page of the record at the same position. */
  lemma PagesAt(L: Layout, s: seq<Comic>, i: nat)
    requires Linked(s) && forall j :: 0 <= j < |s| ==> s[j].files.Some?
    requires i < |s|
    ensures Renderable(s[i])
    ensures Pages(L, s)[i] == (PagePath(s[i].id), ComicPage(L, s[i]))
  {
    LinkedRenderable(s, i);
  }

  /** `to_write`: the index page, the about page, then one page per record in order. */
  function ToWrite(L: Layout, s: seq<Comic>): (r: seq<(string, string)>)
    requires Linked(s) && forall j :: 0 <= j < |s| ==> s[j].files.Some?
    reads s
    ensures |r| == 2 + |s|
  {
    [("docs/index.html", IndexPage(L, s)), ("docs/about.html", AboutPage(L))] + Pages(L, s)
  }

  /** The first two entries write the index page and the about page. */
  lemma ToWriteHead(L: Layout, s: seq<Comic>)
    requires Linked(s) && forall j :: 0 <= j < |s| ==> s[j].files.Some?
    ensures ToWrite(L, s)[0] == ("docs/index.html", IndexPage(L, s))
    ensures ToWrite(L, s)[1] == ("docs/about.html", AboutPage(L))
  {
    var head := [("docs/index.html", IndexPage(L, s)), ("docs/about.html", AboutPage(L))];
    HeadOf(head, Pages(L, s));
  }

  /** An appended sequence starts with its head. */
  lemma HeadOf<T>(head: seq<T>, tail: seq<T>)
    requires |head| == 2
    ensures (head + tail)[0] == head[0] && (head + tail)[1] == head[1]
  {
  }

  /** The entry for the record at `i` is its own page. */
  lemma ToWriteAt(L: Layout, s: seq<Comic>, i: nat)
    requires Linked(s) && forall j :: 0 <= j < |s| ==> s[j].files.Some?
    requires i < |s|
    ensures Renderable(s[i])
    ensures ToWrite(L, s)[i + 2] == (PagePath(s[i].id), ComicPage(L, s[i]))
  {
    PagesAt(L, s, i);
    ToWriteTail(L, s, i + 2);
  }

  /** The ids of a sequence of records. */
  function Ids(s: seq<Comic>): (r: seq<string>)
    ensures |r| == |s| && forall i :: 0 <= i < |s| ==> r[i] == s[i].id
  {
    seq(|s|, i requires 0 <= i < |s| => s[i].id)
  }

  /** The files `to_write` names, for records with the given ids. */
  function OutputPaths(ids: seq<string>): (r: seq<string>)
    ensures |r| == 2 + |ids|
    ensures r[0] == "docs/index.html" && r[1] == "docs/about.html"
    ensures forall i :: 2 <= i < |r| ==> r[i] == PagePath(ids[i - 2])
  {
    ["docs/index.html", "docs/about.html"] + seq(|ids|, i requires 0 <= i < |ids| => PagePath(ids[i]))
  }

  /** Past the first two, the entries of `to_write` are the pages in order. */
  lemma ToWriteTail(L: Layout, s: seq<Comic>, i: nat)
    requires Linked(s) && forall j :: 0 <= j < |s| ==> s[j].files.Some?
    requires 2 <= i < 2 + |s|
    ensures ToWrite(L, s)[i] == Pages(L, s)[i - 2]
  {
    var head := [("docs/index.html", IndexPage(L, s)), ("docs/about.html", AboutPage(L))];
    AfterHead(head, Pages(L, s), i);
  }

  /** Past a head of two, an appended sequence continues with the tail. */
  lemma AfterHead<T>(head: seq<T>, tail: seq<T>, i: nat)
    requires |head| == 2 && 2 <= i < 2 + |tail|
    ensures (head + tail)[i] == tail[i - 2]
  {
  }

  /** The entry at `i` past the first two is written to `docs/<id>.html` for the
      record at `i - 2`, the file `OutputPaths` names at the same place. */
  lemma ToWritePath(L: Layout, s: seq<Comic>, i: nat)
    requires Linked(s) && forall j :: 0 <= j < |s| ==> s[j].files.Some?
    requires 2 <= i < 2 + |s|
    ensures ToWrite(L, s)[i].0 == PagePath(s[i - 2].id) == OutputPaths(Ids(s))[i]
  {
    ToWriteTail(L, s, i);
    PagesPath(L, s, i - 2);
    OutputPathAt(s, i);
  }

  lemma PagesPath(L: Layout, s: seq<Comic>, k: nat)
    requires Linked(s) && forall j :: 0 <= j < |s| ==> s[j].files.Some?
    requires k < |s|
    ensures Pages(L, s)[k].0 == PagePath(s[k].id)
  {
  }

  lemma OutputPathAt(s: seq<Comic>, i: nat)
    requires 2 <= i < 2 + |s|
    ensures OutputPaths(Ids(s))[i] == PagePath(s[i - 2].id)
  {
  }

  /** The first two entries are written to `docs/index.html` and `docs/about.html`. */
  lemma ToWriteHeadPaths(L: Layout, s: seq<Comic>)
    requires Linked(s) && forall j :: 0 <= j < |s| ==> s[j].files.Some?
    ensures ToWrite(L, s)[0].0 == "docs/index.html" && ToWrite(L, s)[1].0 == "docs/about.html"
  {
    ToWriteHead(L, s);
  }

  /** `to_write` writes its entries to the files `OutputPaths` names. */
  lemma ToWritePaths(L: Layout, s: seq<Comic>)
    requires Linked(s) && forall j :: 0 <= j < |s| ==> s[j].files.Some?
    ensures var r := ToWrite(L, s);
      |r| == |OutputPaths(Ids(s))| && forall i :: 0 <= i < |r| ==> r[i].0 == OutputPaths(Ids(s))[i]
  {
    ToWriteHeadPaths(L, s);
    forall i | 2 <= i < 2 + |s| ensures ToWrite(L, s)[i].0 == OutputPaths(Ids(s))[i] {
      ToWritePath(L, s, i);
    }
  }

  /** A page lands on the index or about file only for the ids `index` and `about`. */
  lemma PagePathFixed(id: string)
    ensures PagePath(id) == "docs/index.html" <==> id == "index"
    ensures PagePath(id) == "docs/about.html" <==> id == "about"
  {
    PagePathInjective(id, "index");
    PagePathInjective(id, "about");
  }

  /** No string occurs twice. */
  predicate AllDifferent(r: seq<string>) {
    forall i, j :: 0 <= i < j < |r| ==> r[i] != r[j]
  }

  /** No id names the index or about page. */
  predicate NoReservedId(ids: seq<string>) {
    forall k :: 0 <= k < |ids| ==> ids[k] != "index" && ids[k] != "about"
  }

  /** The paths at `i` and `j` differ when the ids are distinct and none is `index` or `about`. */
  lemma OutputPathPair(ids: seq<string>, i: nat, j: nat)
    requires AllDifferent(ids) && NoReservedId(ids)
    requires i < j < 2 + |ids|
    ensures OutputPaths(ids)[i] != OutputPaths(ids)[j]
  {
    var r := OutputPaths(ids);
    if j == 1 {
      assert r[0][5] != r[1][5];
    } else {
      PagePathFixed(ids[j - 2]);
      if i >= 2 {
        PagePathInjective(ids[i - 2], ids[j - 2]);
      }
    }
  }

  lemma DistinctIdsDistinctPaths(ids: seq<string>)
    requires AllDifferent(ids) && NoReservedId(ids)
    ensures AllDifferent(OutputPaths(ids))
  {
    var r := OutputPaths(ids);
    forall i, j | 0 <= i < j < |r| ensures r[i] != r[j] {
      OutputPathPair(ids, i, j);
    }
  }

  lemma DistinctPathsDistinctIds(ids: seq<string>)
    requires AllDifferent(OutputPaths(ids))
    ensures AllDifferent(ids) && NoReservedId(ids)
  {
    var r := OutputPaths(ids);
    forall i, j | 0 <= i < j < |ids| ensures ids[i] != ids[j] {
      assert r[i + 2] != r[j + 2];
      PagePathInjective(ids[i], ids[j]);
    }
    forall k | 0 <= k < |ids| ensures ids[k] != "index" && ids[k] != "about" {
      assert r[k + 2] != r[0] && r[k + 2] != r[1];
      PagePathFixed(ids[k]);
    }
  }

  /** The files written are all different exactly when the ids are distinct and
      none of them is `index` or `about`, whose pages would land on the index and
      about files. */
  lemma OutputPathsDistinct(ids: seq<string>)
    ensures AllDifferent(OutputPaths(ids)) <==> AllDifferent(ids) && NoReservedId(ids)
  {
    if AllDifferent(ids) && NoReservedId(ids) {
      DistinctIdsDistinctPaths(ids);
    }
    if AllDifferent(OutputPaths(ids)) {
      DistinctPathsDistinctIds(ids);
    }
  }

  /** For linked records, whose ids all parse, the files written are all different
      exactly when the ids are: nothing rejects a duplicate id, and two records
      with the same id write the same file. */
  lemma LinkedPathsDistinct(s: seq<Comic>)
    requires Linked(s)
    ensures AllDifferent(OutputPaths(Ids(s))) <==> AllDifferent(Ids(s))
  {
    var ids := Ids(s);
    forall k | 0 <= k < |ids| ensures ids[k] != "index" && ids[k] != "about" {
      assert LinkedAt(s, k);
      ParsedIdUrl(s[k].id);
    }
    OutputPathsDistinct(ids);
  }

  /** Different ids give different page files. */
  lemma PagePathInjective(a: string, b: string)
    ensures PagePath(a) == PagePath(b) <==> a == b
  {
    if PagePath(a) == PagePath(b) {
      assert a == PagePath(a)[5..|PagePath(a)| - 5];
    }
  }

  // ---------------------------------------------------------------------------
  // Where the links lead
  // ---------------------------------------------------------------------------

  /** A link to `c` points at `to_url(c.id)`: it is what follows `<a href='`. */
  lemma ComicLinkHref(c: Comic)
    requires c.parts.Some?
    ensures var u := ToUrl(c.id);
      9 + |u| <= |ComicLink(c)| && ComicLink(c)[..9] == "<a href='" && ComicLink(c)[9..9 + |u|] == u
  {
    var open, u := "<a href='", ToUrl(c.id);
    var rest := "'>" + Pretty(c.parts.value) + "</a>";
    assert ComicLink(c) == open + u + rest;
    assert |open| == 9;
  }

  /** The pages are written under `docs/` and their links are relative to it:
      the header's links reach the index and about files that `to_write` writes. */
  lemma HeaderLinkTargets(ids: seq<string>)
    ensures "docs/" + ToUrl(".") == OutputPaths(ids)[0]
    ensures "docs/" + ToUrl("about") == OutputPaths(ids)[1]
  {
  }

  /** The URL of any name other than `.` reaches that name's page file. */
  lemma PageUrlTarget(id: string)
    requires id != "."
    ensures "docs/" + ToUrl(id) == PagePath(id)
  {
    var u := ToUrl(id);
    assert u == id + ".html";
    assert "docs/" + (id + ".html") == "docs/" + id + ".html";
  }

  /** In linked records, a link to a record (its index row, the previous link and
      the next link of its neighbours) reaches the file `to_write` writes for it. */
  lemma LinkTargets(s: seq<Comic>, i: nat)
    requires Linked(s) && i < |s|
    ensures "docs/" + ToUrl(s[i].id) == OutputPaths(Ids(s))[i + 2]
    ensures 0 < i ==> s[i].prev != null && "docs/" + ToUrl(s[i].prev.id) == OutputPaths(Ids(s))[i + 1]
    ensures i < |s| - 1 ==> s[i].next != null && "docs/" + ToUrl(s[i].next.id) == OutputPaths(Ids(s))[i + 3]
  {
    forall k | 0 <= k < |s| ensures "docs/" + ToUrl(s[k].id) == OutputPaths(Ids(s))[k + 2] {
      assert LinkedAt(s, k);
      ParsedIdUrl(s[k].id);
      PageUrlTarget(s[k].id);
    }
    assert LinkedAt(s, i);
  }
}

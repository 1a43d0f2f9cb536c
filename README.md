# Bird comic site builder, modelled in Dafny

`gen.js` builds a webcomic site in one pass:
1. It reads the catalog of comic records (`comics.json`).
2. It checks that the image names the records declare are exactly the base names of the files found by walking the image directory recursively.
3. It keeps the records whose rating is not negative and sorts them by descending id.
4. It links each record to its neighbours and parses the date out of each id.
5. It renders the index page, the about page and one page per record, and writes them under `docs/`.

This project models steps 2–5 and proves what each one promises.

- `Text` (text.dfy) holds the character classes of the id pattern (`\d`, `\w`) and decimal numerals. `+y` reads a numeral; `${y}` prints it without leading zeros. It also holds the string order the sort uses and `.join('')`.
- `Catalog` (catalog.dfy) holds:
  - the record, as a class. The JSON fields are constants; `prev`, `next` and `parts` are the fields the build attaches in place.
  - the three errors the script throws;
  - the id pattern `/(\d{4})(\d{2})(\d{2})(\w+)?/`, as an unanchored leftmost search.
- `Assets` (assets.dfy) holds the asset check: the flattened expected names (`undefined` for a record without `files`), the two loops that throw, and the set equality they decide.
- `Sequencer` (sequencer.dfy) holds:
  - the rating filter;
  - the descending sort, as an in-place stable insertion sort on an array proved equal to a stable sort function;
  - the loop that sets `prev`, `next` and `parts` and throws the first id that does not parse.
- `Render` (render.dfy) holds:
  - `to_url`;
  - the display string of an id;
  - links and navigation slots;
  - the image list;
  - the index, about and comic pages;
  - the `to_write` list and the paths it writes.

  The fixed template text is a `Layout` value. `SiteLayout()` is the script's text.
- `Build` (build.dfy) runs everything in order. `Generate` returns what the script throws or the list of files it writes.

The model follows the script as written:
- The id pattern is not anchored. The first run of eight digits anywhere in the id is used, and the suffix is the word characters right after it.
- Records have only `files`. There is no singular `file`, no `id-` prefix on image names and no title derived from a file name.
- Duplicate ids are not rejected. `Render.LinkedPathsDistinct` shows that two records with the same id write the same file.

## Model

| member | source | states |
|---|---|---|
| Assets.ExpectedFilesMembers | gen.js:7 | a name is expected iff some record lists it; `undefined` is expected iff some record has no `files` |
| Assets.ExpectedFilesAppend | gen.js:7 | flattening follows catalog order: the names of `a + b` are the names of `a` then those of `b` |
| Assets.FirstMissing | gen.js:13-16 | the first expected name not found on disk: every earlier name is found, and this one is not |
| Assets.FirstUnexpected | gen.js:18-21 | the first file on disk that is not expected: every earlier file is expected, and this one is not |
| Assets.AssetVerdictPassIff | gen.js:10-21 | the check passes iff the set of expected names equals the set of names on disk |
| Assets.UndefinedEntryFails | gen.js:7-16 | a record without `files` always makes the check throw a missing-image error |
| Assets.PassedRecordsHaveFiles | gen.js:7-16 | once the check passes, every record has `files` |
| Assets.CheckAssets | gen.js:10-21 | the two loops return the verdict: the first missing name, else the first unexpected file, else pass; pass iff the sets are equal |
| Catalog.AssetMessageDetermines | gen.js:13-21 | two asset errors throw the same text iff they are the same error, except that a record without `files` and an image named `undefined` both throw `could not find image file: undefined` |
| Catalog.WordRunEnd | gen.js:33 | the greedy `\w+` run: all word characters, stopping at the end or at a non-word character |
| Catalog.ParseFromNone | gen.js:33-34 | from a position, the search fails iff no run of eight digits starts at or after it |
| Catalog.ParseFromLeftmost | gen.js:33 | the search returns the groups of the leftmost run of eight digits |
| Catalog.ParseIdSucceedsIff | gen.js:33-34 | `id.match(...)` succeeds iff the id holds eight consecutive digits |
| Catalog.ParseIdAt | gen.js:33-39 | for the leftmost run at `p`: y, m, d are the values of its 4, 2 and 2 digits; the suffix is present iff a word character follows, and is then the whole word run |
| Text.NatToString | gen.js:74 | a number prints as digits, with no leading zero, whose value is the number |
| Text.StripLeadingZeros | gen.js:74 | a suffix of the numeral obtained by dropping only zeros, with no leading zero unless it is a single digit |
| Text.RenderedValueStripsZeros | gen.js:36-38 | printing the value of a digit run gives the run without its leading zeros |
| Text.CanonicalNumeralUnique | gen.js:36-38 | two numerals without leading zeros that have the same value are equal |
| Text.DigitsValueLeadingZero | gen.js:36-38 | a leading zero does not change a numeral's value |
| Text.LexLessIrreflexive | gen.js:26 | no id sorts before itself |
| Text.LexLessTransitive | gen.js:26 | the id order is transitive |
| Text.LexLessTotal | gen.js:26 | any two different ids are ordered one way or the other |
| Text.NotLessTransitive | gen.js:26 | "not before" is transitive |
| Text.ConcatAppend | gen.js:97 | `.join('')` distributes over concatenation of the fragment lists |
| Sequencer.VisibleMultiset | gen.js:25 | the filter keeps exactly the records with `(rating ?? 0) >= 0`, each as often as the catalog holds it |
| Sequencer.VisibleAppend | gen.js:25 | the filter keeps catalog order |
| Sequencer.VisibleDistinct | gen.js:25 | filtering separate records gives separate records |
| Sequencer.InsertSorted | gen.js:26 | inserting into a descending sequence keeps it descending |
| Sequencer.InsertMultiset | gen.js:26 | insertion adds the record and keeps everything else |
| Sequencer.SortDescSorted | gen.js:26 | the sort's result is in non-increasing id order and is a permutation of its input |
| Sequencer.SortDescIdempotent | gen.js:26 | sorting a sorted sequence changes nothing |
| Sequencer.SortDescDistinct | gen.js:26 | sorting separate records gives separate records |
| Sequencer.InsertAt | gen.js:26 | the insertion puts a record right after the last element whose id is not below its own |
| Sequencer.InsertInPlace | gen.js:26 | one insertion step on the array: the prefix becomes the stable insertion of the next element, and the rest is untouched |
| Sequencer.SortByIdDescending | gen.js:26 | the in-place sort leaves the array equal to the stable descending sort of its old contents |
| Sequencer.PublishedMembers | gen.js:25-26 | a record is published iff it is in the catalog and visible, so hidden records are never linked or parsed |
| Sequencer.FirstInvalid | gen.js:28-34 | the first record whose id does not parse: every earlier id parses, and this one does not |
| Sequencer.FirstInvalidIs | gen.js:28-34 | that record is the unique one with those two properties |
| Sequencer.LinkOne | gen.js:29-39 | one loop pass: `prev` is `comics[i-1]` or undefined, `next` is `comics[i+1]` or undefined, and `parts` is the parse of the id |
| Sequencer.LinkAndParse | gen.js:28-40 | throws the first id that does not parse, else passes; every record up to and including that one gets its neighbours and parse; later records are untouched; pass iff every record is linked with parsed parts |
| Render.ToUrl | gen.js:42-44 | `.` gives `index.html`, any other name gives itself followed by `.html` |
| Render.ToUrlInjective | gen.js:42-44 | apart from `.`, different names give different URLs |
| Render.ToUrlIndexShared | gen.js:42-44 | `.` and `index` share a URL |
| Render.ParsedIdUrl | gen.js:42-48 | an id that parses is neither `index` nor `about`, and its URL is neither the index nor the about URL |
| Render.PrettyOfId | gen.js:74 | the display string of a parsed id is its year, month and day digits without leading zeros, joined by dots, then the suffix exactly as the id spells it |
| Render.SuffixText | gen.js:39 | the optional suffix prints as the id's word run after the date, or as nothing |
| Render.GroupText | gen.js:36-38 | a group of date digits prints as the group without its leading zeros |
| Render.ComicLink | gen.js:75-76 | a link starts with `<a`, so it is never the empty placeholder |
| Render.ComicLinkHref | gen.js:75-76 | a link to a record begins `<a href='` followed by `to_url` of the record's id |
| Render.NavSlot | gen.js:92-94 | a navigation slot is the placeholder `<b></b>` iff there is no neighbour |
| Render.NavSlotsOfLinked | gen.js:92-94 | after linking, the first page has no previous link and the last no next link; every other slot links to the adjacent record |
| Render.ImagesAppend | gen.js:97 | one image tag per file, in list order: the images of `a + b` are those of `a` then those of `b` |
| Render.ImagesSingle | gen.js:97 | a single file gives exactly one `<img src='img/comic/<file>'>` |
| Render.IndexRows | gen.js:60-61 | one index row per published record, in order |
| Render.IndexTableIsJoin | gen.js:60-61 | the index table is the rows joined with no separator |
| Render.PagesAt | gen.js:104 | the page entry at `i` is `docs/<id>.html` with the comic page of the record at `i` |
| Render.ToWrite | gen.js:101-105 | the list has two entries more than there are published records |
| Render.ToWriteHead | gen.js:101-103 | its first entries are the index page at `docs/index.html` and the about page at `docs/about.html` |
| Render.ToWriteAt | gen.js:104 | entry `i + 2` is the page of the record at `i`, written to `docs/<id>.html` |
| Render.ToWritePaths | gen.js:101-105 | the paths of the list are `docs/index.html`, `docs/about.html`, then `docs/<id>.html` per record in order |
| Render.OutputPaths | gen.js:101-105 | the path list: index, about, then one page path per id |
| Render.PagePathFixed | gen.js:102-104 | a page lands on the index or about file only for the ids `index` and `about` |
| Render.PagePathInjective | gen.js:104 | different ids give different page files |
| Render.OutputPathsDistinct | gen.js:101-105 | the written paths are all different iff the ids are distinct and none is `index` or `about` |
| Render.LinkedPathsDistinct | gen.js:101-105 | for linked records, the written paths are all different iff the ids are distinct |
| Render.HeaderLinkTargets | gen.js:42-48 | below `docs/`, the header's links `to_url('.')` and `to_url('about')` are the first two files written, the index and about pages |
| Render.PageUrlTarget | gen.js:42-44 | below `docs/`, `to_url` of any name but `.` is that name's page file `docs/<name>.html` |
| Render.LinkTargets | gen.js:60-105 | for linked records, the link to a record, in its index row and in its neighbours' previous and next slots, reaches the file written for it: the previous link of record `i` reaches file `i + 1` of `to_write`, the next link file `i + 3` |
| Build.Publish | gen.js:25-26 | filtering into a fresh array and sorting it gives the published sequence |
| Build.PublishedAfterCheck | gen.js:7-26 | after a passing check, the published records are distinct visible records of the catalog, each with `files` |
| Build.Generate | gen.js:5-105 | a failing asset check throws its error's text and touches nothing; otherwise the first unparsable published id is thrown as is; otherwise the published records are linked and the result is the `to_write` list; hidden records are never touched |

## Left out

- Reading and parsing `comics.json`: `Generate` takes the parsed records as a sequence of distinct objects.
- Walking the image directory: the base names it finds, recursively and in walk order, are the parameter `onDisk`.
- Writing the files with `Promise.all`: `Generate` returns the list of path and content pairs instead.
- The progress messages on the console: they carry no data.
- `localeCompare`: modelled as lexicographic order on characters (Unicode code points). This agrees with locale collation on ids made only of digits. Once any character other than a digit appears anywhere in an id, the two orders can differ: locale collation puts punctuation before the digits, code-point order puts `:`, `?`, `@` and `[` to `~` after them, so `20230101?` and `202301010` sort in opposite orders.
- `rating` is an integer. A JavaScript number could be fractional or `NaN`; the comparison `>= 0` is kept as is.
- `title` is an optional string. Any other JSON value would interpolate through its own `toString`.
- `files` is either absent or a list of strings. A record with `"files": null` keeps `null` through `.flat()` and the script throws `could not find image file: null`; the model has no such record, and an absent `files` prints `undefined`. A string or other non-array value would be flattened as one entry.
- `c.parts = {}` on the record whose id fails to parse is modelled as no parts. The run throws right after, so the empty object is never read.
- Build.Generate: takes the template text as a parameter `L`; the script's own text is `SiteLayout()`. The contract holds for every template text, and so for the script's.
- Render.ComicLink: states only that a link starts with `<a`; `ComicLinkHref` states its URL. The full text of a link is its definition, and pages use it through `NavSlot` and `IndexRow`.
- Render.ToWrite: states only the length. Its entries are stated by `ToWriteHead`, `ToWriteAt` and `ToWritePaths`.
- `LinkAndParse` receives the sorted array's elements as a sequence. The loop reads the array but writes only the records.

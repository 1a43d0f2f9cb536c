/** The comic catalog: the records of `comics.json`, the date parts parsed from
    an id, and the errors the build script throws. */
module Catalog {
  import opened Text

  datatype Option<T> = None | Some(value: T)

  /** What a step that only checks returns: it passes or throws. */
  datatype Outcome<E> = Pass | Fail(error: E)

  /** What a step that computes returns: its value or what it throws. */
  datatype Result<T, E> = Success(value: T) | Failure(error: E)

  /** The three things the build script throws. A missing image name can be
      `undefined` (None): the entry a record without `files` contributes. */
  datatype BuildError =
    | MissingImage(name: Option<string>)
    | UnexpectedImage(file: string)
    | InvalidId(id: string)

  /** How a value is spelled when a template literal interpolates it. */
  function Interpolate(s: Option<string>): string {
    match s
    case Some(t) => t
    case None => "undefined"
  }

  /** The value each `throw` of the build script throws. */
  function Message(e: BuildError): string {
    match e
    case MissingImage(n) => "could not find image file: " + Interpolate(n)
    case UnexpectedImage(n) => "unexpected image file: " + n
    case InvalidId(id) => id
  }

  /** The text of an asset error tells which error it is, except that a record
      without `files` and an image literally named `undefined` print alike. */
  lemma AssetMessageDetermines(e1: BuildError, e2: BuildError)
    requires !e1.InvalidId? && !e2.InvalidId?
    ensures Message(e1) == Message(e2) <==>
      e1 == e2 || {e1, e2} == {MissingImage(None), MissingImage(Some("undefined"))}
  {
    var m1, m2 := Message(e1), Message(e2);
    if e1.MissingImage? != e2.MissingImage? {
      assert m1[0] != m2[0];
    } else if m1 == m2 && e1.MissingImage? {
      var k := |"could not find image file: "|;
      assert Interpolate(e1.name) == m1[k..] == m2[k..] == Interpolate(e2.name);
      if e1.name.Some? && e2.name.None? {
        assert e1.name.value == "undefined";
      } else if e1.name.None? && e2.name.Some? {
        assert e2.name.value == "undefined";
      }
    } else if m1 == m2 {
      var k := |"unexpected image file: "|;
      assert e1.file == m1[k..] == m2[k..] == e2.file;
    }
  }

  /** The numeric date parts of an id and its optional suffix (`c.parts`). */
  datatype Parts = Parts(y: nat, m: nat, d: nat, x: Option<string>)

  /** One catalog record. The fields read from the catalog file never change;
      the build script attaches `prev`, `next` and `parts` to the same object. */
  class Comic {
    const id: string
    const title: Option<string>
    const files: Option<seq<string>>
    const rating: Option<int>
    var prev: Comic?
    var next: Comic?
    var parts: Option<Parts>

    /** A record as the catalog file declares it, before anything is attached. */
    constructor (id: string, title: Option<string>, files: Option<seq<string>>, rating: Option<int>)
      ensures this.id == id && this.title == title && this.files == files && this.rating == rating
      ensures prev == null && next == null && parts == None
    {
      this.id, this.title, this.files, this.rating := id, title, files, rating;
      prev, next, parts := null, null, None;
    }

  }

  /** No object occurs twice: the records of a parsed catalog are separate objects. */
  predicate Distinct(s: seq<Comic>) {
    forall i, j :: 0 <= i < j < |s| ==> s[i] != s[j]
  }

  // ---------------------------------------------------------------------------
  // The id pattern /(\d{4})(\d{2})(\d{2})(\w+)?/, unanchored
  // ---------------------------------------------------------------------------

  /** Eight digits start at position `p` of `s`. */
  predicate DateRunAt(s: string, p: nat) {
    p + 8 <= |s| && forall k :: p <= k < p + 8 ==> IsDigit(s[k])
  }

  /** Where the greedy `\w+` starting at `i` stops. */
  function WordRunEnd(s: string, i: nat): (e: nat)
    requires i <= |s|
    ensures i <= e <= |s| && AllWordChars(s[i..e])
    ensures e == |s| || !IsWordChar(s[e])
    decreases |s| - i
  {
    if i < |s| && IsWordChar(s[i]) then
      var e := WordRunEnd(s, i + 1);
      assert s[i..e] == [s[i]] + s[i + 1..e];
      e
    else i
  }

  /** The groups of a match whose eight digits start at `p`: the values of the
      4, 2 and 2 digits, and the greedy `(\w+)?` after them. */
  function PartsAt(id: string, p: nat): Parts
    requires DateRunAt(id, p)
  {
    var e := WordRunEnd(id, p + 8);
    Parts(DigitsValue(id[p..p + 4]), DigitsValue(id[p + 4..p + 6]), DigitsValue(id[p + 6..p + 8]),
          if e > p + 8 then Some(id[p + 8..e]) else None)
  }

  /** The unanchored search: try the pattern at `p`, then at each later position. */
  function ParseFrom(id: string, p: nat): Option<Parts>
    requires p <= |id|
    decreases |id| - p
  {
    if p + 8 > |id| then None
    else if DateRunAt(id, p) then Some(PartsAt(id, p))
    else ParseFrom(id, p + 1)
  }

  /** `id.match(...)`: the groups of the leftmost match, or None when there is no match. */
  function ParseId(id: string): Option<Parts> {
    ParseFrom(id, 0)
  }

  /** From `p` on, the search finds the first run of eight digits at or after `p`. */
  lemma {:induction false} ParseFromLeftmost(id: string, p: nat, q: nat)
    requires p <= q && DateRunAt(id, q)
    requires forall r :: p <= r < q ==> !DateRunAt(id, r)
    ensures ParseFrom(id, p) == Some(PartsAt(id, q))
    decreases q - p
  {
    if p < q {
      ParseFromLeftmost(id, p + 1, q);
    }
  }

  /** From `p` on, the search fails exactly when no run of eight digits starts at or after `p`. */
  lemma {:induction false} ParseFromNone(id: string, p: nat)
    requires p <= |id|
    ensures ParseFrom(id, p).None? <==> forall q :: p <= q ==> !DateRunAt(id, q)
    decreases |id| - p
  {
    if p + 8 <= |id| && !DateRunAt(id, p) {
      ParseFromNone(id, p + 1);
    }
  }

  /** The match succeeds exactly when the id holds eight consecutive digits. */
  lemma ParseIdSucceedsIff(id: string)
    ensures ParseId(id).Some? <==> exists p :: DateRunAt(id, p)
  {
    ParseFromNone(id, 0);
  }

  /** When the leftmost run of eight digits starts at `p`, the year, month and
      day are the values of its 4, 2 and 2 digits, and the suffix is the longest
      non-empty run of word characters after them, if there is one. */
  lemma ParseIdAt(id: string, p: nat)
    requires DateRunAt(id, p)
    requires forall q :: 0 <= q < p ==> !DateRunAt(id, q)
    ensures ParseId(id).Some?
    ensures var r := ParseId(id).value;
      && r.y == DigitsValue(id[p..p + 4])
      && r.m == DigitsValue(id[p + 4..p + 6])
      && r.d == DigitsValue(id[p + 6..p + 8])
      && (r.x.Some? <==> p + 8 < |id| && IsWordChar(id[p + 8]))
      && (r.x.Some? ==> SuffixRun(id, p + 8, r.x.value))
  {
    ParseFromLeftmost(id, 0, p);
  }

  /** `w` is the whole run of word characters that starts at `i` of `s`. */
  predicate SuffixRun(s: string, i: nat, w: string) {
    && i + |w| <= |s|
    && |w| > 0
    && w == s[i..i + |w|]
    && AllWordChars(w)
    && (i + |w| == |s| || !IsWordChar(s[i + |w|]))
  }
}

/** Publishing order: the rating filter, the descending sort by id and the loop
    that links neighbours and parses ids (gen.js:25-40). */
module Sequencer {
  import opened Text
  import opened Catalog

  /** `(c.rating ?? 0) >= 0`: an absent rating counts as 0. */
  predicate IsVisible(c: Comic) {
    match c.rating
    case None => true
    case Some(r) => r >= 0
  }

  /** `comics_all.filter(...)`. */
  function Visible(catalog: seq<Comic>): seq<Comic> {
    if catalog == [] then []
    else
      var c := catalog[|catalog| - 1];
      Visible(catalog[..|catalog| - 1]) + (if IsVisible(c) then [c] else [])
  }

  /** The filter keeps exactly the visible records, and each as often as the catalog holds it. */
  lemma {:induction false} VisibleMultiset(catalog: seq<Comic>)
    ensures forall c :: multiset(Visible(catalog))[c] == if IsVisible(c) then multiset(catalog)[c] else 0
  {
    if catalog != [] {
      var init := catalog[..|catalog| - 1];
      VisibleMultiset(init);
      assert catalog == init + [catalog[|catalog| - 1]];
    }
  }

  /** The filter keeps the catalog order: filtering a concatenation concatenates the filtered parts. */
  lemma {:induction false} VisibleAppend(a: seq<Comic>, b: seq<Comic>)
    ensures Visible(a + b) == Visible(a) + Visible(b)
  {
    if b == [] {
      assert a + b == a;
    } else {
      assert (a + b)[..|a + b| - 1] == a + b[..|b| - 1];
      VisibleAppend(a, b[..|b| - 1]);
    }
  }

  /** Filtering a catalog of separate objects gives separate objects. */
  lemma {:induction false} VisibleDistinct(catalog: seq<Comic>)
    requires Distinct(catalog)
    ensures Distinct(Visible(catalog))
  {
    if catalog != [] {
      var init, c := catalog[..|catalog| - 1], catalog[|catalog| - 1];
      VisibleDistinct(init);
      VisibleMultiset(init);
      assert multiset(init)[c] == 0;
    }
  }

  // ---------------------------------------------------------------------------
  // comics.sort((b, a) => a.id.localeCompare(b.id))
  // ---------------------------------------------------------------------------

  /** Ids do not increase along the sequence. */
  predicate SortedDesc(s: seq<Comic>) {
    forall i, j :: 0 <= i < j < |s| ==> !LexLess(s[i].id, s[j].id)
  }

  /** Inserts `x` into `t` after the last element whose id is not below `x.id`. */
  function Insert(t: seq<Comic>, x: Comic): seq<Comic> {
    if t == [] || !LexLess(t[|t| - 1].id, x.id) then t + [x]
    else Insert(t[..|t| - 1], x) + [t[|t| - 1]]
  }

  /** Insertion adds `x` and keeps everything else. */
  lemma {:induction false} InsertMultiset(t: seq<Comic>, x: Comic)
    ensures multiset(Insert(t, x)) == multiset(t) + multiset{x}
  {
    if t != [] && LexLess(t[|t| - 1].id, x.id) {
      InsertMultiset(t[..|t| - 1], x);
      assert t == t[..|t| - 1] + [t[|t| - 1]];
    }
  }

  /** The order the stable sort produces: each record in turn inserted after
      every earlier record whose id is not below its own. */
  function SortDesc(s: seq<Comic>): seq<Comic> {
    if s == [] then [] else Insert(SortDesc(s[..|s| - 1]), s[|s| - 1])
  }

  lemma {:induction false} InsertSorted(t: seq<Comic>, x: Comic)
    requires SortedDesc(t)
    ensures SortedDesc(Insert(t, x))
  {
    if t == [] || !LexLess(t[|t| - 1].id, x.id) {
      forall i | 0 <= i < |t| ensures !LexLess(t[i].id, x.id) {
        if i < |t| - 1 {
          NotLessTransitive(t[i].id, t[|t| - 1].id, x.id);
        }
      }
    } else {
      var init, last := t[..|t| - 1], t[|t| - 1];
      InsertSorted(init, x);
      InsertMultiset(init, x);
      var u := Insert(init, x);
      forall i | 0 <= i < |u| ensures !LexLess(u[i].id, last.id) {
        assert u[i] in multiset(u);
        if u[i] != x {
          var k :| 0 <= k < |init| && init[k] == u[i];
          assert t[k] == u[i];
        } else {
          LexLessIrreflexive(x.id);
          if LexLess(x.id, last.id) {
            LexLessTransitive(x.id, last.id, x.id);
          }
        }
      }
    }
  }

  /** The sort's result is ordered by descending id and is a permutation of its input. */
  lemma {:induction false} SortDescSorted(s: seq<Comic>)
    ensures SortedDesc(SortDesc(s))
    ensures multiset(SortDesc(s)) == multiset(s)
  {
    if s != [] {
      SortDescSorted(s[..|s| - 1]);
      InsertSorted(SortDesc(s[..|s| - 1]), s[|s| - 1]);
      InsertMultiset(SortDesc(s[..|s| - 1]), s[|s| - 1]);
      assert s == s[..|s| - 1] + [s[|s| - 1]];
    }
  }

  /** Sorting an already sorted sequence changes nothing. */
  lemma {:induction false} SortDescIdempotent(s: seq<Comic>)
    requires SortedDesc(s)
    ensures SortDesc(s) == s
  {
    if s != [] {
      var init := s[..|s| - 1];
      assert SortedDesc(init);
      SortDescIdempotent(init);
      if |init| > 0 {
        assert !LexLess(init[|init| - 1].id, s[|s| - 1].id);
      }
      assert init + [s[|s| - 1]] == s;
    }
  }

  /** A permutation of separate objects holds separate objects. */
  lemma {:induction false} SortDescDistinct(s: seq<Comic>)
    requires Distinct(s)
    ensures Distinct(SortDesc(s))
  {
    if s != [] {
      var init, x := s[..|s| - 1], s[|s| - 1];
      SortDescDistinct(init);
      SortDescSorted(init);
      assert x !in multiset(init);
      InsertDistinct(SortDesc(init), x);
    }
  }

  lemma {:induction false} InsertDistinct(t: seq<Comic>, x: Comic)
    requires Distinct(t) && x !in t
    ensures Distinct(Insert(t, x))
  {
    if t != [] && LexLess(t[|t| - 1].id, x.id) {
      var init, last := t[..|t| - 1], t[|t| - 1];
      InsertDistinct(init, x);
      InsertMultiset(init, x);
      var u := Insert(init, x);
      assert last !in multiset(init) + multiset{x};
      assert last !in u;
    }
  }

  /** Where the insertion puts `x`: after the last element whose id is not below
      its own, when every later element's id is below it. */
  lemma {:induction false} InsertAt(p: seq<Comic>, x: Comic, j: nat)
    requires j <= |p|
    requires j == 0 || !LexLess(p[j - 1].id, x.id)
    requires forall k :: j <= k < |p| ==> LexLess(p[k].id, x.id)
    ensures Insert(p, x) == p[..j] + [x] + p[j..]
  {
    if j < |p| {
      var init := p[..|p| - 1];
      InsertAt(init, x, j);
      assert init[..j] == p[..j] && init[j..] + [p[|p| - 1]] == p[j..];
    }
  }

  lemma SortDescSnoc(s: seq<Comic>, i: nat)
    requires i < |s|
    ensures SortDesc(s[..i + 1]) == Insert(SortDesc(s[..i]), s[i])
  {
    assert s[..i + 1][..i] == s[..i];
  }

  /** An array prefix that holds `p` with `x` placed at `j` and the rest shifted up by one. */
  lemma ShiftedIs(b: seq<Comic>, p: seq<Comic>, x: Comic, j: nat)
    requires j <= |p| < |b|
    requires forall k :: 0 <= k < j ==> b[k] == p[k]
    requires b[j] == x
    requires forall k :: j < k <= |p| ==> b[k] == p[k - 1]
    ensures b[..|p| + 1] == p[..j] + [x] + p[j..]
  {
  }

  /** Moves `a[i]` down past the elements of the sorted prefix `a[..i]` whose ids are below its own. */
  method InsertInPlace(a: array<Comic>, i: nat)
    requires i < a.Length
    modifies a
    ensures a[..i + 1] == Insert(old(a[..i]), old(a[i]))
    ensures a[i + 1..] == old(a[i + 1..])
  {
    ghost var p := a[..i];
    var x := a[i];
    var j := i;
    while j > 0 && LexLess(a[j - 1].id, x.id)
      invariant 0 <= j <= i
      invariant forall k :: 0 <= k < j ==> a[k] == p[k]
      invariant forall k :: j < k <= i ==> a[k] == p[k - 1]
      invariant forall k :: j <= k < i ==> LexLess(p[k].id, x.id)
      invariant a[i + 1..] == old(a[i + 1..])
    {
      a[j] := a[j - 1];
      j := j - 1;
    }
    a[j] := x;
    InsertAt(p, x, j);
    ShiftedIs(a[..], p, x, j);
  }

  /** `comics.sort(...)` in place: a stable insertion sort by descending id. */
  method SortByIdDescending(a: array<Comic>)
    modifies a
    ensures a[..] == SortDesc(old(a[..]))
  {
    ghost var orig := a[..];
    var i := 0;
    while i < a.Length
      invariant 0 <= i <= a.Length
      invariant a[..i] == SortDesc(orig[..i])
      invariant a[i..] == orig[i..]
    {
      SortDescSnoc(orig, i);
      InsertInPlace(a, i);
      assert a[i + 1..] == orig[i + 1..] by {
        assert orig[i..] == [orig[i]] + orig[i + 1..];
      }
      i := i + 1;
    }
    assert orig[..a.Length] == orig;
  }

  /** The records published, in publishing order: the visible records sorted by descending id. */
  function Published(catalog: seq<Comic>): seq<Comic> {
    SortDesc(Visible(catalog))
  }

  /** A record is published exactly when it is in the catalog and visible: hidden
      records are never published, and so never parsed. */
  lemma PublishedMembers(catalog: seq<Comic>, c: Comic)
    ensures c in Published(catalog) <==> c in catalog && IsVisible(c)
  {
    SortDescSorted(Visible(catalog));
    VisibleMultiset(catalog);
    assert c in Published(catalog) <==> multiset(Published(catalog))[c] > 0;
    assert c in catalog <==> multiset(catalog)[c] > 0;
  }

  // ---------------------------------------------------------------------------
  // for (let i=0; i<comics.length; i+=1) { ... }
  // ---------------------------------------------------------------------------

  /** `comics[i-1]` and `comics[i+1]`: undefined beyond either end. */
  function Before(s: seq<Comic>, i: int): Comic? {
    if 0 < i <= |s| then s[i - 1] else null
  }

  function After(s: seq<Comic>, i: int): Comic? {
    if -1 <= i < |s| - 1 then s[i + 1] else null
  }

  /** Index of the first record from `from` on whose id does not parse, or |s|:
      the record on which the loop throws. */
  function FirstInvalid(s: seq<Comic>, from: nat): (k: nat)
    requires from <= |s|
    ensures from <= k <= |s|
    ensures forall j :: from <= j < k ==> ParseId(s[j].id).Some?
    ensures k < |s| ==> ParseId(s[k].id).None?
    decreases |s| - from
  {
    if from == |s| || ParseId(s[from].id).None? then from
    else FirstInvalid(s, from + 1)
  }

  /** The first record whose id does not parse is the one at `k`. */
  lemma {:induction false} FirstInvalidIs(s: seq<Comic>, from: nat, k: nat)
    requires from <= k <= |s|
    requires forall j :: from <= j < k ==> ParseId(s[j].id).Some?
    requires k < |s| ==> ParseId(s[k].id).None?
    ensures FirstInvalid(s, from) == k
    decreases k - from
  {
    if from < k {
      FirstInvalidIs(s, from + 1, k);
    }
  }

  /** The record at `j` points at its neighbours in `s` and holds the parse result of its id. */
  predicate LinkedAt(s: seq<Comic>, j: nat)
    requires j < |s|
    reads s
  {
    s[j].prev == Before(s, j) && s[j].next == After(s, j) && s[j].parts == ParseId(s[j].id)
  }

  /** Every record of `s` is linked and its id parsed. */
  predicate Linked(s: seq<Comic>)
    reads s
  {
    && (forall j :: 0 <= j < |s| ==> LinkedAt(s, j))
    && (forall j :: 0 <= j < |s| ==> s[j].parts.Some?)
  }

  /** One pass of the loop body: `c.prev`, `c.next` and `c.parts` of the record at `i`. */
  method LinkOne(s: seq<Comic>, i: nat) returns (parsed: Option<Parts>)
    requires i < |s|
    modifies s[i]
    ensures s[i].prev == Before(s, i) && s[i].next == After(s, i)
    ensures s[i].parts == parsed && parsed == ParseId(s[i].id)
  {
    var c := s[i];
    parsed := ParseId(c.id);
    c.prev, c.next, c.parts :=
      if i > 0 then s[i - 1] else null,
      if i + 1 < |s| then s[i + 1] else null,
      parsed;
  }

  /** The loop of gen.js:28-40 over the sorted records. Up to the first id that does
      not parse, each record gets its neighbours and its parsed parts; that record
      gets its neighbours and empty parts and its id is thrown; the records after it
      are not touched. The loop changes only the records, never the array holding
      them, so the array is passed as the sequence of its elements. */
  method LinkAndParse(comics: seq<Comic>) returns (r: Outcome<BuildError>)
    requires Distinct(comics)
    modifies set c | c in comics
    ensures var k := FirstInvalid(comics, 0);
      r == if k < |comics| then Fail(InvalidId(comics[k].id)) else Pass
    ensures forall j :: 0 <= j < |comics| && j <= FirstInvalid(comics, 0) ==>
      && comics[j].prev == Before(comics, j)
      && comics[j].next == After(comics, j)
      && comics[j].parts == ParseId(comics[j].id)
    ensures forall j :: FirstInvalid(comics, 0) < j < |comics| ==> unchanged(comics[j])
    ensures r.Pass? <==> Linked(comics)
  {
    var i := 0;
    while i < |comics|
      invariant 0 <= i <= |comics|
      invariant forall j :: 0 <= j < i ==>
        && comics[j].prev == Before(comics, j)
        && comics[j].next == After(comics, j)
        && comics[j].parts == ParseId(comics[j].id)
        && comics[j].parts.Some?
      invariant forall j :: i <= j < |comics| ==> unchanged(comics[j])
    {
      assert forall j :: 0 <= j < |comics| && j != i ==> comics[j] != comics[i];
      var parsed := LinkOne(comics, i);
      if parsed.None? {
        FirstInvalidIs(comics, 0, i);
        return Fail(InvalidId(comics[i].id));
      }
      i := i + 1;
    }
    FirstInvalidIs(comics, 0, |comics|);
    assert forall j :: 0 <= j < |comics| ==> LinkedAt(comics, j);
    r := Pass;
  }
}

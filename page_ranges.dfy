/** The page-range resolver of the PDF service: an expression such as
    "1-3,5,7-9" and a page count become the ascending list of distinct
    1-based page numbers it selects. Invalid tokens are dropped, never
    clamped and never reported. */
module PageRanges {
  import opened JsString
  import opened JsParseInt

  /** What one trimmed token selects. */
  datatype TokenSelection = Skip | Single(page: int) | Span(first: int, last: int)

  /** Strictly increasing, hence free of duplicates. */
  predicate StrictlyAscending(s: seq<int>) {
    forall i, j :: 0 <= i < j < |s| ==> s[i] < s[j]
  }

  /** Non-decreasing: the order `sort((a, b) => a - b)` leaves. */
  predicate Ascending(s: seq<int>) {
    forall i, j :: 0 <= i < j < |s| ==> s[i] <= s[j]
  }

  predicate Distinct(s: seq<int>) {
    forall i, j :: 0 <= i < j < |s| ==> s[i] != s[j]
  }

  /** The decision made about one trimmed token. A token with a `-` is split
      on every `-` and only the first two fields count; a field that is NaN,
      a start below 1, an end past the page count or a start past the end
      drop the token. A token without `-` must be a page in [1, maxPages]. */
  function ClassifyToken(trimmed: string, maxPages: nat): (sel: TokenSelection)
    ensures sel.Single? ==> 1 <= sel.page <= maxPages
    ensures sel.Span? ==> 1 <= sel.first <= sel.last <= maxPages
  {
    if '-' in trimmed then
      var fields := Split(trimmed, '-');
      SplitCount(trimmed, '-');
      var start := ParseInt(Trim(fields[0]));
      var end := ParseInt(Trim(fields[1]));
      if start.NaN? || end.NaN? then Skip
      else if start.value < 1 || end.value > maxPages then Skip
      else if start.value > end.value then Skip
      else Span(start.value, end.value)
    else
      var page := ParseInt(trimmed);
      if page.NaN? then Skip
      else if page.value < 1 || page.value > maxPages then Skip
      else Single(page.value)
  }

  /** The pages a selection stands for; a span is inclusive at both ends. */
  function Selected(sel: TokenSelection): set<int> {
    match sel
    case Skip => {}
    case Single(p) => {p}
    case Span(a, b) => Interval(a, b)
  }

  /** The integers from `a` to `b` inclusive. */
  function Interval(a: int, b: int): (r: set<int>)
    ensures forall x :: x in r <==> a <= x <= b
    decreases b + 1 - a
  {
    if a > b then {} else {a} + Interval(a + 1, b)
  }

  /** The pages one (untrimmed) token of the expression contributes. */
  function TokenPages(token: string, maxPages: nat): set<int> {
    Selected(ClassifyToken(Trim(token), maxPages))
  }

  /** The union of the contributions of `tokens`, taken left to right. */
  function PagesOf(tokens: seq<string>, maxPages: nat): set<int> {
    if tokens == [] then {}
    else PagesOf(tokens[..|tokens| - 1], maxPages) + TokenPages(tokens[|tokens| - 1], maxPages)
  }

  /** Every page the expression selects, as a set. */
  function PageSet(rangesStr: string, maxPages: nat): set<int> {
    PagesOf(Split(rangesStr, ','), maxPages)
  }

  /** The members of `pages` between `lo` and `hi`, in increasing order. */
  function InOrder(pages: set<int>, lo: int, hi: int): (r: seq<int>)
    ensures StrictlyAscending(r)
    ensures forall x :: x in r <==> x in pages && lo <= x <= hi
    ensures forall k :: 0 <= k < |r| ==> lo <= r[k] <= hi
    decreases hi + 1 - lo
  {
    if lo > hi then [] else (if lo in pages then [lo] else []) + InOrder(pages, lo + 1, hi)
  }

  /** Reference definition of the resolver's answer: the selected pages,
      counted off from 1 to the page count. */
  function ResolvedPages(rangesStr: string, maxPages: nat): (r: seq<int>)
    ensures StrictlyAscending(r)
    ensures forall p :: p in r <==> p in PageSet(rangesStr, maxPages)
    ensures forall k :: 0 <= k < |r| ==> 1 <= r[k] <= maxPages
  {
    PageSetBounds(rangesStr, maxPages);
    InOrder(PageSet(rangesStr, maxPages), 1, maxPages)
  }

  /** JavaScript `Set.prototype.add` on a set kept in insertion order. */
  function SetAdd(members: seq<int>, x: int): (r: seq<int>)
    requires Distinct(members)
    ensures Distinct(r)
    ensures forall y :: y in r <==> y in members || y == x
  {
    if x in members then members else members + [x]
  }

  /** Places `x` into an ascending sequence. */
  function Insert(x: int, s: seq<int>): (r: seq<int>)
    requires Ascending(s)
    ensures Ascending(r)
    ensures multiset(r) == multiset(s) + multiset{x}
    ensures forall y :: y in r <==> y == x || y in s
  {
    if s == [] || x <= s[0] then
      PrependAscending(x, s);
      [x] + s
    else
      var tail := Insert(x, s[1..]);
      InsertAfterHead(x, s, tail);
      [s[0]] + tail
  }

  lemma PrependAscending(x: int, s: seq<int>)
    requires Ascending(s) && (s == [] || x <= s[0])
    ensures Ascending([x] + s)
  {
  }

  lemma InsertAfterHead(x: int, s: seq<int>, tail: seq<int>)
    requires Ascending(s) && s != [] && s[0] < x
    requires Ascending(tail)
    requires multiset(tail) == multiset(s[1..]) + multiset{x}
    requires forall y :: y in tail <==> y == x || y in s[1..]
    ensures Ascending([s[0]] + tail)
    ensures multiset([s[0]] + tail) == multiset(s) + multiset{x}
    ensures forall y :: y in [s[0]] + tail <==> y == x || y in s
  {
    assert s == [s[0]] + s[1..];
    forall k | 0 <= k < |tail| ensures s[0] <= tail[k] {
      assert tail[k] in tail;
    }
  }

  /** `array.sort((a, b) => a - b)`: the same numbers, in ascending order. */
  function SortNumeric(xs: seq<int>): (r: seq<int>)
    ensures Ascending(r)
    ensures multiset(r) == multiset(xs)
  {
    if xs == [] then []
    else
      assert xs == xs[..|xs| - 1] + [xs[|xs| - 1]];
      Insert(xs[|xs| - 1], SortNumeric(xs[..|xs| - 1]))
  }

  /** `parsePageRanges(rangesStr, maxPages)`: split on `,`, trim each
      token, add what it selects to a Set (a range one page at a time),
      then sort the Set's elements numerically. */
  method ParsePageRanges(rangesStr: string, maxPages: nat) returns (pageNumbers: seq<int>)
    ensures StrictlyAscending(pageNumbers)
    ensures forall p :: p in pageNumbers <==> p in PageSet(rangesStr, maxPages)
    ensures pageNumbers == ResolvedPages(rangesStr, maxPages)
  {
    // the Set, as its elements in insertion order
    var members: seq<int> := [];
    var ranges := Split(rangesStr, ',');
    for t := 0 to |ranges|
      invariant Distinct(members)
      invariant forall p :: p in members <==> p in PagesOf(ranges[..t], maxPages)
    {
      var trimmed := Trim(ranges[t]);
      var sel := ClassifyToken(trimmed, maxPages);
      PagesOfStep(ranges, t, maxPages);
      ghost var before := members;
      match sel
      case Skip =>
      case Single(page) =>
        members := SetAdd(members, page);
      case Span(start, end) =>
        members := AddSpan(members, start, end);
      assert forall p :: p in members <==> p in before || p in Selected(sel);
    }
    assert ranges[..|ranges|] == ranges;
    pageNumbers := SortNumeric(members);
    SortedDistinctIsStrict(pageNumbers, members);
    AscendingUnique(pageNumbers, ResolvedPages(rangesStr, maxPages));
  }

  /** The pages of one more token. */
  lemma PagesOfStep(ranges: seq<string>, t: nat, maxPages: nat)
    requires t < |ranges|
    ensures PagesOf(ranges[..t + 1], maxPages)
         == PagesOf(ranges[..t], maxPages) + Selected(ClassifyToken(Trim(ranges[t]), maxPages))
  {
    assert ranges[..t + 1][..t] == ranges[..t];
  }

  /** Adds the pages `start` to `end` to the Set, one at a time. */
  method AddSpan(members: seq<int>, start: int, end: int) returns (r: seq<int>)
    requires Distinct(members)
    ensures Distinct(r)
    ensures forall p :: p in r <==> p in members || start <= p <= end
  {
    r := members;
    var i := start;
    while i <= end
      invariant start <= i && (i == start || i <= end + 1)
      invariant Distinct(r)
      invariant forall p :: p in r <==> p in members || start <= p < i
      decreases end + 1 - i
    {
      r := SetAdd(r, i);
      i := i + 1;
    }
  }

  /** Every page any token selects lies in [1, maxPages]. */
  lemma {:induction false} PagesOfBounds(tokens: seq<string>, maxPages: nat)
    ensures forall p :: p in PagesOf(tokens, maxPages) ==> 1 <= p <= maxPages
  {
    if tokens != [] {
      PagesOfBounds(tokens[..|tokens| - 1], maxPages);
    }
  }

  lemma PageSetBounds(rangesStr: string, maxPages: nat)
    ensures forall p :: p in PageSet(rangesStr, maxPages) ==> 1 <= p <= maxPages
  {
    PagesOfBounds(Split(rangesStr, ','), maxPages);
  }

  /** Against a document with no pages nothing is ever selected. */
  lemma NoPagesNothingResolved(rangesStr: string)
    ensures ResolvedPages(rangesStr, 0) == []
  {
  }

  /** Two strictly ascending sequences with the same elements are equal:
      the resolver's answer is fixed by the set of pages selected. */
  lemma {:induction false} AscendingUnique(a: seq<int>, b: seq<int>)
    requires StrictlyAscending(a) && StrictlyAscending(b)
    requires forall x :: x in a <==> x in b
    ensures a == b
  {
    SameElementsNonEmpty(a, b);
    SameElementsNonEmpty(b, a);
    if a != [] {
      assert a[0] in b && b[0] in a;
      assert a[0] == b[0];
      forall x ensures x in a[1..] <==> x in b[1..] {
        if x in a[1..] {
          assert x in a && x != a[0];
        }
        if x in b[1..] {
          assert x in b && x != b[0];
        }
      }
      AscendingUnique(a[1..], b[1..]);
      assert a == [a[0]] + a[1..] && b == [b[0]] + b[1..];
    }
  }

  lemma SameElementsNonEmpty(a: seq<int>, b: seq<int>)
    requires forall x :: x in a <==> x in b
    ensures a != [] ==> b != []
  {
    if a != [] {
      var first := a[0];
      assert first in a;
      assert first in b;
    }
  }

  /** Taking one element of a sequence with no duplicates leaves it
      with no copy of that element. */
  lemma {:induction false} DistinctMultiplicity(xs: seq<int>, x: int)
    requires Distinct(xs)
    ensures multiset(xs)[x] <= 1
  {
    if xs != [] {
      var init := xs[..|xs| - 1];
      assert xs == init + [xs[|xs| - 1]];
      DistinctMultiplicity(init, x);
      if x == xs[|xs| - 1] {
        assert x !in init;
      }
    }
  }

  lemma TwoOccurrences(r: seq<int>, i: nat, j: nat)
    requires i < j < |r| && r[i] == r[j]
    ensures multiset(r)[r[i]] >= 2
  {
    assert r == r[..j] + r[j..];
    assert r[i] in r[..j];
    assert r[j] in r[j..];
  }

  /** Sorting the elements of a Set gives a strictly ascending sequence
      with the same elements. */
  lemma SortedDistinctIsStrict(r: seq<int>, xs: seq<int>)
    requires Ascending(r) && multiset(r) == multiset(xs) && Distinct(xs)
    ensures StrictlyAscending(r)
    ensures forall x :: x in r <==> x in xs
  {
    forall i, j | 0 <= i < j < |r| ensures r[i] < r[j] {
      if r[i] == r[j] {
        TwoOccurrences(r, i, j);
        DistinctMultiplicity(xs, r[i]);
      }
    }
    forall x ensures x in r <==> x in xs {
      assert x in r <==> x in multiset(r);
      assert x in xs <==> x in multiset(xs);
    }
  }

  /** The pages of a concatenation of token lists are the union of theirs. */
  lemma {:induction false} PagesOfConcat(a: seq<string>, b: seq<string>, maxPages: nat)
    ensures PagesOf(a + b, maxPages) == PagesOf(a, maxPages) + PagesOf(b, maxPages)
  {
    if b != [] {
      var init := b[..|b| - 1];
      assert (a + b)[..|a + b| - 1] == a + init;
      PagesOfConcat(a, init, maxPages);
    } else {
      assert a + b == a;
    }
  }

  /** A token that selects nothing (a NaN field, a reversed range, a range
      past the page count) is skipped and the tokens around it still count. */
  lemma DroppedTokenIgnored(before: seq<string>, token: string, after: seq<string>, maxPages: nat)
    requires TokenPages(token, maxPages) == {}
    ensures PagesOf(before + [token] + after, maxPages) == PagesOf(before + after, maxPages)
  {
    PagesOfConcat(before + [token], after, maxPages);
    PagesOfConcat(before, [token], maxPages);
    PagesOfConcat(before, after, maxPages);
    assert PagesOf([token], maxPages) == PagesOf([], maxPages) + TokenPages(token, maxPages);
  }

  /** The union of `f` over `tokens`, taken left to right. */
  function UnionOf(tokens: seq<string>, f: string -> set<int>): set<int> {
    if tokens == [] then {}
    else UnionOf(tokens[..|tokens| - 1], f) + f(tokens[|tokens| - 1])
  }

  /** What one token selects, as a function of the token. */
  function TokenPagesFn(maxPages: nat): (f: string -> set<int>)
    ensures forall t :: f(t) == TokenPages(t, maxPages)
  {
    t => TokenPages(t, maxPages)
  }

  /** `PagesOf` is the union of what each token selects. */
  lemma {:induction false} PagesOfIsUnion(tokens: seq<string>, maxPages: nat)
    ensures PagesOf(tokens, maxPages) == UnionOf(tokens, TokenPagesFn(maxPages))
  {
    if tokens != [] {
      PagesOfIsUnion(tokens[..|tokens| - 1], maxPages);
    }
  }

  lemma {:induction false} UnionIncludes(tokens: seq<string>, f: string -> set<int>, k: nat, p: int)
    requires k < |tokens| && p in f(tokens[k])
    ensures p in UnionOf(tokens, f)
  {
    var init := tokens[..|tokens| - 1];
    if k < |init| {
      assert init[k] == tokens[k];
      UnionIncludes(init, f, k, p);
    }
  }

  lemma {:induction false} UnionMember(tokens: seq<string>, f: string -> set<int>, p: int) returns (k: nat)
    requires p in UnionOf(tokens, f)
    ensures k < |tokens| && p in f(tokens[k])
  {
    var init := tokens[..|tokens| - 1];
    if p in f(tokens[|tokens| - 1]) {
      k := |tokens| - 1;
    } else {
      k := UnionMember(init, f, p);
      assert init[k] == tokens[k];
    }
  }

  /** A page one token selects is selected by the whole list. */
  lemma TokenPagesIncluded(tokens: seq<string>, k: nat, p: int, maxPages: nat)
    requires k < |tokens| && p in TokenPages(tokens[k], maxPages)
    ensures p in PagesOf(tokens, maxPages)
  {
    PagesOfIsUnion(tokens, maxPages);
    UnionIncludes(tokens, TokenPagesFn(maxPages), k, p);
  }

  /** Every selected page is selected by some token of the list. */
  lemma SelectingToken(tokens: seq<string>, p: int, maxPages: nat) returns (k: nat)
    requires p in PagesOf(tokens, maxPages)
    ensures k < |tokens| && p in TokenPages(tokens[k], maxPages)
  {
    PagesOfIsUnion(tokens, maxPages);
    k := UnionMember(tokens, TokenPagesFn(maxPages), p);
  }

  /** Reordering or repeating the tokens of an expression changes nothing:
      the answer depends only on which tokens occur. */
  lemma SameTokensSamePages(e1: string, e2: string, maxPages: nat)
    requires forall t :: t in Split(e1, ',') <==> t in Split(e2, ',')
    ensures ResolvedPages(e1, maxPages) == ResolvedPages(e2, maxPages)
  {
    forall p | p in PageSet(e1, maxPages) ensures p in PageSet(e2, maxPages) {
      SelectedElsewhere(Split(e1, ','), Split(e2, ','), p, maxPages);
    }
    forall p | p in PageSet(e2, maxPages) ensures p in PageSet(e1, maxPages) {
      SelectedElsewhere(Split(e2, ','), Split(e1, ','), p, maxPages);
    }
    AscendingUnique(ResolvedPages(e1, maxPages), ResolvedPages(e2, maxPages));
  }

  lemma SelectedElsewhere(t1: seq<string>, t2: seq<string>, p: int, maxPages: nat)
    requires forall t :: t in t1 ==> t in t2
    requires p in PagesOf(t1, maxPages)
    ensures p in PagesOf(t2, maxPages)
  {
    var k := SelectingToken(t1, p, maxPages);
    var token := t1[k];
    assert token in t2;
    var k2 :| 0 <= k2 < |t2| && t2[k2] == token;
    TokenPagesIncluded(t2, k2, p, maxPages);
  }

  lemma NumeralEnds(n: nat)
    ensures var d := DecimalString(n);
      d != [] && !IsWhiteSpace(d[0]) && !IsWhiteSpace(d[|d| - 1]) && '-' !in d && ',' !in d
  {
    var d := DecimalString(n);
    assert forall k :: 0 <= k < |d| ==> d[k] != '-' && d[k] != ',';
  }

  lemma NumeralIsTrimmed(n: nat)
    ensures Trim(DecimalString(n)) == DecimalString(n)
    ensures '-' !in DecimalString(n) && ',' !in DecimalString(n)
  {
    NumeralEnds(n);
    TrimNoOp(DecimalString(n));
  }

  /** A range token `a-b` selects exactly the pages a..b when
      1 <= a <= b <= maxPages, and nothing otherwise: a range is dropped,
      never clamped (so "1-1000" against 10 pages selects nothing). */
  lemma RangeToken(a: nat, b: nat, maxPages: nat)
    ensures TokenPages(DecimalString(a) + "-" + DecimalString(b), maxPages)
         == if 1 <= a <= b <= maxPages then Interval(a, b) else {}
  {
    var token := DecimalString(a) + "-" + DecimalString(b);
    RangeClassified(a, b, maxPages);
    NumeralEnds(a);
    NumeralEnds(b);
    TrimmedAround(DecimalString(a), DecimalString(b), '-');
    TokenPagesTrimmed(token, maxPages);
  }

  lemma RangeClassified(a: nat, b: nat, maxPages: nat)
    ensures ClassifyToken(DecimalString(a) + "-" + DecimalString(b), maxPages)
         == if 1 <= a <= b <= maxPages then Span(a, b) else Skip
  {
    var da, db := DecimalString(a), DecimalString(b);
    NumeralIsTrimmed(a);
    NumeralIsTrimmed(b);
    SplitAround(da, db, '-');
    ParseIntDecimal(a);
    ParseIntDecimal(b);
    ClassifyRange(da + "-" + db, da, db, a, b, maxPages);
  }

  /** What a token without surrounding white space selects. */
  lemma TokenPagesTrimmed(token: string, maxPages: nat)
    requires Trim(token) == token
    ensures TokenPages(token, maxPages) == Selected(ClassifyToken(token, maxPages))
  {
  }

  /** Two strings with no white space at the outer ends, joined by one
      character, have nothing to trim. */
  lemma TrimmedAround(da: string, db: string, c: char)
    requires da != [] && db != [] && !IsWhiteSpace(da[0]) && !IsWhiteSpace(db[|db| - 1])
    ensures Trim(da + [c] + db) == da + [c] + db
  {
    var token := da + [c] + db;
    assert token[0] == da[0] && token[|token| - 1] == db[|db| - 1];
    TrimNoOp(token);
  }

  /** Two strings free of `c`, joined by `c`, split on `c` into the two. */
  lemma SplitAround(da: string, db: string, c: char)
    requires c !in da && c !in db
    ensures c in da + [c] + db && Split(da + [c] + db, c) == [da, db]
  {
    var token := da + [c] + db;
    assert token[|da|] == c;
    assert Join([da, db], c) == token;
    SplitJoin([da, db], c);
  }

  /** A token with a `-` whose two fields read as `a` and `b`. */
  lemma ClassifyRange(trimmed: string, da: string, db: string, a: int, b: int, maxPages: nat)
    requires '-' in trimmed && Split(trimmed, '-') == [da, db]
    requires ParseInt(Trim(da)) == Num(a) && ParseInt(Trim(db)) == Num(b)
    ensures ClassifyToken(trimmed, maxPages) == if 1 <= a <= b <= maxPages then Span(a, b) else Skip
  {
    var fields := Split(trimmed, '-');
    assert fields[0] == da && fields[1] == db;
  }

  /** A single-page token selects its page when it lies in [1, maxPages]. */
  lemma SinglePageToken(n: nat, maxPages: nat)
    ensures TokenPages(DecimalString(n), maxPages) == if 1 <= n <= maxPages then {n} else {}
  {
    NumeralIsTrimmed(n);
    ParseIntDecimal(n);
  }

  /** A token without `-` whose text has no leading number selects nothing. */
  lemma NaNTokenSelectsNothing(token: string, maxPages: nat)
    requires '-' !in Trim(token) && ParseInt(Trim(token)).NaN?
    ensures TokenPages(token, maxPages) == {}
  {
  }

  /** A token with a `-` whose first or second field has no leading number
      selects nothing ("abc-3", "1-x", "1-"). */
  lemma RangeNaNSelectsNothing(token: string, maxPages: nat)
    requires '-' in Trim(token)
    requires var f := Split(Trim(token), '-');
      ParseInt(Trim(f[0])).NaN? || (|f| >= 2 && ParseInt(Trim(f[1])).NaN?)
    ensures TokenPages(token, maxPages) == {}
  {
    SplitCount(Trim(token), '-');
  }

  /** A token that starts with `-` ("-3") selects nothing: its first field is
      empty, which `parseInt` reads as NaN. */
  lemma LeadingDashSelectsNothing(token: string, maxPages: nat)
    requires Trim(token) != [] && Trim(token)[0] == '-'
    ensures TokenPages(token, maxPages) == {}
  {
    var t := Trim(token);
    SplitFirst(t, '-');
    assert IndexOf(t, '-') == 0;
    var first := Split(t, '-')[0];
    assert first == [];
    TrimNoOp(first);
    ParseIntNaN();
    RangeNaNSelectsNothing(token, maxPages);
  }

  lemma RangeLiteral(token: string, a: nat, b: nat, maxPages: nat)
    requires a < 10 && b < 10 && token == [DigitChar(a), '-', DigitChar(b)]
    ensures TokenPages(token, maxPages) == if 1 <= a <= b <= maxPages then Interval(a, b) else {}
  {
    assert token == DecimalString(a) + "-" + DecimalString(b);
    RangeToken(a, b, maxPages);
  }

  lemma ExampleTokens()
    ensures Split("1-3,5,7-9", ',') == ["1-3", "5", "7-9"]
  {
    var tokens := ["1-3", "5", "7-9"];
    assert Join(tokens, ',') == "1-3,5,7-9";
    SplitJoin(tokens, ',');
  }

  lemma PagesOfThree(t1: string, t2: string, t3: string, maxPages: nat)
    ensures PagesOf([t1, t2, t3], maxPages)
         == TokenPages(t1, maxPages) + TokenPages(t2, maxPages) + TokenPages(t3, maxPages)
  {
    assert [t1, t2, t3] == [t1] + [t2] + [t3];
    PagesOfConcat([t1] + [t2], [t3], maxPages);
    PagesOfConcat([t1], [t2], maxPages);
    PagesOfOne(t1, maxPages);
    PagesOfOne(t2, maxPages);
    PagesOfOne(t3, maxPages);
  }

  lemma PagesOfOne(t: string, maxPages: nat)
    ensures PagesOf([t], maxPages) == TokenPages(t, maxPages)
  {
    assert [t][..0] == [];
  }

  lemma ExamplePageSet()
    ensures PageSet("1-3,5,7-9", 10) == Interval(1, 3) + {5} + Interval(7, 9)
  {
    ExampleTokens();
    RangeLiteral("1-3", 1, 3, 10);
    assert "5" == DecimalString(5);
    SinglePageToken(5, 10);
    RangeLiteral("7-9", 7, 9, 10);
    PagesOfThree("1-3", "5", "7-9", 10);
  }

  /** The resolver's answer is the one ascending list holding exactly the
      selected pages. */
  lemma ResolvedIs(rangesStr: string, maxPages: nat, pages: set<int>, want: seq<int>)
    requires PageSet(rangesStr, maxPages) == pages
    requires StrictlyAscending(want)
    requires forall p :: p in want <==> p in pages
    ensures ResolvedPages(rangesStr, maxPages) == want
  {
    AscendingUnique(ResolvedPages(rangesStr, maxPages), want);
  }

  /** The documented example: "1-3,5,7-9" against a 10-page document. */
  lemma DocumentedExample()
    ensures ResolvedPages("1-3,5,7-9", 10) == [1, 2, 3, 5, 7, 8, 9]
  {
    ExamplePageSet();
    var pages := Interval(1, 3) + {5} + Interval(7, 9);
    var want := [1, 2, 3, 5, 7, 8, 9];
    ExampleMembers(pages, want);
    ResolvedIs("1-3,5,7-9", 10, pages, want);
  }

  lemma ExampleMembers(pages: set<int>, want: seq<int>)
    requires pages == Interval(1, 3) + {5} + Interval(7, 9)
    requires want == [1, 2, 3, 5, 7, 8, 9]
    ensures StrictlyAscending(want)
    ensures forall p :: p in want <==> p in pages
  {
  }

  lemma OneToken(token: string)
    requires ',' !in token
    ensures Split(token, ',') == [token]
  {
  }

  /** A range reaching past the last page is dropped, not clamped. */
  lemma UnclampedExample()
    ensures ResolvedPages("1-1000", 10) == []
  {
    OneToken("1-1000");
    assert DecimalString(1000) == "1000";
    assert "1-1000" == DecimalString(1) + "-" + DecimalString(1000);
    RangeToken(1, 1000, 10);
    PagesOfOne("1-1000", 10);
    ResolvedIs("1-1000", 10, {}, []);
  }

  /** A reversed range is dropped. */
  lemma ReversedExample()
    ensures ResolvedPages("5-3", 10) == []
  {
    OneToken("5-3");
    RangeLiteral("5-3", 5, 3, 10);
    PagesOfOne("5-3", 10);
    ResolvedIs("5-3", 10, {}, []);
  }
}

/**
 * `create_sources_string` (main.py): the set of source URLs behind an answer
 * rendered as a numbered list. No sources give the empty string; otherwise a
 * "sources:" header line is followed by one line `"<n>. <url>"` per source,
 * in ascending string order, numbered from 1.
 */
module Sources {
  import opened Seqs
  import opened LexOrder
  import Decimal

  const Header: string := "sources:\n"

  /** Strictly increasing under Python's string order. */
  ghost predicate StrictlyAscending(q: seq<string>)
  {
    forall i, j :: 0 <= i < j < |q| ==> Less(q[i], q[j])
  }

  /** No element is smaller than one before it: the order `list.sort()` leaves. */
  ghost predicate Ascending(q: seq<string>)
  {
    forall i, j :: 0 <= i < j < |q| ==> !Less(q[j], q[i])
  }

  /** m belongs to s and is smaller than every other member. */
  predicate IsLeast(m: string, s: set<string>)
  {
    m in s && forall y :: y in s && y != m ==> Less(m, y)
  }

  lemma {:induction false} LeastExists(s: set<string>)
    requires s != {}
    ensures exists m :: IsLeast(m, s)
    decreases |s|
  {
    var x :| x in s;
    if s == {x} {
      assert IsLeast(x, s);
    } else {
      var rest := s - {x};
      LeastExists(rest);
      var m :| IsLeast(m, rest);
      StrictTotalOrder();
      if Less(x, m) {
        assert IsLeast(x, s);
      } else {
        assert IsLeast(m, s);
      }
    }
  }

  /** The smallest source of a non-empty set. */
  function Least(s: set<string>): (m: string)
    requires s != {}
    ensures m in s
    ensures forall y :: y in s && y != m ==> Less(m, y)
  {
    LeastExists(s);
    StrictTotalOrder();
    var m :| IsLeast(m, s);
    m
  }

  /** The sources in ascending order, each once. */
  function SortedSources(s: set<string>): (q: seq<string>)
    ensures |q| == |s|
    ensures forall x :: x in q <==> x in s
    ensures StrictlyAscending(q)
    decreases |s|
  {
    if s == {} then []
    else
      var m := Least(s);
      var rest := SortedSources(s - {m});
      assert forall j :: 0 <= j < |rest| ==> rest[j] in s - {m};
      [m] + rest
  }

  /** The list built at main.py:16: the set's members, each once, in whatever order iteration yields them. */
  method ListOf(s: set<string>) returns (q: seq<string>)
    ensures Distinct(q)
    ensures forall x :: x in q <==> x in s
  {
    q := [];
    var rest := s;
    while rest != {}
      invariant rest <= s
      invariant Distinct(q)
      invariant forall x :: x in q <==> x in s && x !in rest
      decreases |rest|
    {
      var x :| x in rest;
      q := q + [x];
      rest := rest - {x};
    }
  }

  /** Not-smaller-than is transitive: a <= b and b <= c give a <= c. */
  lemma NotLessTransitive(a: string, b: string, c: string)
    requires !Less(b, a) && !Less(c, b)
    ensures !Less(c, a)
  {
    Connected(a, b);
    Connected(b, c);
    if a != b && b != c {
      Transitive(a, b, c);
      Asymmetric(a, c);
    }
  }

  /** An ascending list stays ascending under a new head no larger than any member. */
  lemma PrependAscending(h: string, q: seq<string>)
    requires Ascending(q)
    requires forall y :: y in q ==> !Less(y, h)
    ensures Ascending([h] + q)
  {
    assert forall j :: 0 <= j < |q| ==> q[j] in q;
  }

  /** x placed into an ascending list before the first element not smaller than x. */
  function Insert(x: string, q: seq<string>): (r: seq<string>)
    requires Ascending(q)
    ensures Ascending(r)
    ensures multiset(r) == multiset(q) + multiset{x}
  {
    if |q| == 0 then [x]
    else if !Less(q[0], x) then
      InsertFront(x, q);
      [x] + q
    else
      var rest := Insert(x, q[1..]);
      assert q == [q[0]] + q[1..];
      InsertBehind(q[0], x, q[1..], rest);
      [q[0]] + rest
  }

  lemma InsertFront(x: string, q: seq<string>)
    requires Ascending(q) && |q| > 0 && !Less(q[0], x)
    ensures Ascending([x] + q)
  {
    forall y | y in q
      ensures !Less(y, x)
    {
      var j :| 0 <= j < |q| && q[j] == y;
      if j > 0 {
        NotLessTransitive(x, q[0], q[j]);
      }
    }
    PrependAscending(x, q);
  }

  lemma InsertBehind(h: string, x: string, tail: seq<string>, rest: seq<string>)
    requires Ascending([h] + tail) && Less(h, x)
    requires Ascending(rest)
    requires multiset(rest) == multiset(tail) + multiset{x}
    ensures Ascending([h] + rest)
  {
    forall y | y in rest
      ensures !Less(y, h)
    {
      assert y in multiset(rest);
      if y == x {
        Asymmetric(h, x);
      } else {
        assert y in multiset(tail);
        var k :| 0 <= k < |tail| && tail[k] == y;
        assert ([h] + tail)[k + 1] == y && ([h] + tail)[0] == h;
      }
    }
    PrependAscending(h, rest);
  }

  /** `list.sort()`: an ascending permutation of the list (here by insertion). */
  function Sort(q: seq<string>): (r: seq<string>)
    ensures Ascending(r)
    ensures multiset(r) == multiset(q)
  {
    if |q| == 0 then []
    else
      assert q == q[..|q| - 1] + [q[|q| - 1]];
      Insert(q[|q| - 1], Sort(q[..|q| - 1]))
  }

  lemma EmptyIfNoMember(q: seq<string>)
    ensures (forall x :: x !in q) ==> |q| == 0
  {
    if |q| > 0 {
      assert q[0] in q;
    }
  }

  /** Two strictly ascending lists with the same members are the same list. */
  lemma {:induction false} AscendingUnique(p: seq<string>, q: seq<string>)
    requires StrictlyAscending(p) && StrictlyAscending(q)
    requires forall x :: x in p <==> x in q
    ensures p == q
    decreases |p|
  {
    if |p| > 0 && |q| > 0 {
      StrictTotalOrder();
      var s := set x | x in p;
      assert IsLeast(p[0], s);
      assert IsLeast(q[0], s);
      Asymmetric(p[0], q[0]);
      assert p[0] == q[0];
      assert forall x :: x in p[1..] <==> x in p && x != p[0];
      assert forall x :: x in q[1..] <==> x in q && x != q[0];
      AscendingUnique(p[1..], q[1..]);
      assert p == [p[0]] + p[1..] && q == [q[0]] + q[1..];
    } else {
      EmptyIfNoMember(p);
      EmptyIfNoMember(q);
    }
  }

  /**
   * Whatever order `list(source_urls)` yields, any ascending permutation of it
   * (the result of `sort()`) is the canonical ascending list of the set.
   */
  lemma SortIsCanonical(listing: seq<string>, sorted: seq<string>, s: set<string>)
    requires Distinct(listing)
    requires forall x :: x in listing <==> x in s
    requires Ascending(sorted)
    requires multiset(sorted) == multiset(listing)
    ensures sorted == SortedSources(s)
  {
    PermutationKeepsDistinct(listing, sorted);
    StrictTotalOrder();
    assert StrictlyAscending(sorted);
    assert forall x :: x in sorted <==> x in multiset(sorted);
    assert forall x :: x in listing <==> x in multiset(listing);
    AscendingUnique(sorted, SortedSources(s));
  }

  /** The sources that sort before x. */
  ghost function SmallerThan(urls: set<string>, x: string): set<string>
  {
    set y | y in urls && Less(y, x)
  }

  /** Entry i + 1 names the source with exactly i smaller sources: the numbering is the rank in the set. */
  lemma EntryNumberIsRank(urls: set<string>, i: nat)
    requires i < |urls|
    ensures var q := SortedSources(urls);
      |SmallerThan(urls, q[i])| == i
  {
    var q := SortedSources(urls);
    forall j | i <= j < |q|
      ensures !Less(q[j], q[i])
    {
      if j == i {
        Irreflexive(q[i]);
      } else {
        Asymmetric(q[i], q[j]);
      }
    }
    forall j, k | 0 <= j < k < |q|
      ensures q[j] != q[k]
    {
      Irreflexive(q[j]);
    }
    var smaller := SmallerThan(urls, q[i]);
    var prefix := set j | 0 <= j < i :: q[j];
    assert smaller == prefix;
    PrefixSetSize(q, i);
    assert |smaller| == i;
  }

  /** One entry line of main.py:20: the number in decimal, a dot and a space, the source, a line break. */
  function EntryLine(number: nat, source: string): string
  {
    Decimal.FromNat(number) + ". " + source + "\n"
  }

  /** The entries for an ordered list: the i-th carries number i + 1 and the i-th source. */
  function EntryLines(sources: seq<string>): seq<string>
  {
    seq(|sources|, i requires 0 <= i < |sources| => EntryLine(i + 1, sources[i]))
  }

  /** The text `create_sources_string` is meant to produce for a set of sources. */
  function Listing(urls: set<string>): string
  {
    if urls == {} then "" else Header + Concat(EntryLines(SortedSources(urls)))
  }

  /** The loop of main.py:19-20: one entry appended per source, in list order, numbered from 1. */
  method AppendEntries(text: string, sources: seq<string>) returns (out: string)
    ensures out == text + Concat(EntryLines(sources))
  {
    out := text;
    var lines := EntryLines(sources);
    var i := 0;
    while i < |sources|
      invariant 0 <= i <= |sources| == |lines|
      invariant out == text + Concat(lines[..i])
    {
      var line := EntryLine(i + 1, sources[i]);
      assert lines[..i + 1] == lines[..i] + [line];
      ConcatSnoc(lines[..i], line);
      out := out + line;
      i := i + 1;
    }
    assert lines[..|sources|] == lines;
  }

  /**
   * `create_sources_string(source_urls)`: list the set, sort the list, and
   * append one numbered line per source after the header.
   */
  method CreateSourcesString(sourceUrls: set<string>) returns (out: string)
    ensures out == "" <==> sourceUrls == {}
    ensures out == Listing(sourceUrls)
  {
    if sourceUrls == {} {
      return "";
    }
    var listing := ListOf(sourceUrls);
    var sources := Sort(listing);
    SortIsCanonical(listing, sources, sourceUrls);
    out := AppendEntries(Header, sources);
    assert |out| >= |Header|;
  }

  /** No sources give the empty string; otherwise the text starts with the header line. */
  lemma ListingShape(urls: set<string>)
    ensures Listing(urls) == "" <==> urls == {}
    ensures urls != {} ==> Listing(urls)[..|Header|] == Header
  {
  }

  /** Equal sets give identical text, whatever order their members were enumerated in. */
  lemma ListingIndependentOfOrder(listing: seq<string>, urls: set<string>)
    requires Distinct(listing)
    requires forall x :: x in listing <==> x in urls
    requires urls != {}
    ensures Header + Concat(EntryLines(Sort(listing))) == Listing(urls)
  {
    SortIsCanonical(listing, Sort(listing), urls);
  }

  /** An entry for a URL without a line break holds exactly one line break, its last character. */
  lemma EntryLineBreak(number: nat, source: string)
    requires '\n' !in source
    ensures multiset(EntryLine(number, source))['\n'] == 1
  {
    var digits := Decimal.FromNat(number);
    assert forall k :: 0 <= k < |digits| ==> Decimal.IsDigit(digits[k]);
    assert '\n' !in digits;
    assert multiset(EntryLine(number, source)) == multiset(digits) + multiset(". ") + multiset(source) + multiset("\n");
  }

  /** Entries for URLs without line breaks hold one line break each. */
  lemma {:induction false} EntryLinesBreaks(sources: seq<string>)
    requires forall i :: 0 <= i < |sources| ==> '\n' !in sources[i]
    ensures multiset(Concat(EntryLines(sources)))['\n'] == |sources|
  {
    var lines := EntryLines(sources);
    forall i | 0 <= i < |lines|
      ensures multiset(lines[i])['\n'] == 1
    {
      EntryLineBreak(i + 1, sources[i]);
    }
    ConcatOneEach(lines, '\n');
  }

  /**
   * When no URL contains a line break, the text has one line per source plus
   * the header line: it holds exactly |urls| + 1 line breaks, one closing each line.
   */
  lemma ListingLineCount(urls: set<string>)
    requires forall x :: x in urls ==> '\n' !in x
    ensures multiset(Listing(urls))['\n'] == if urls == {} then 0 else |urls| + 1
  {
    if urls != {} {
      var sources := SortedSources(urls);
      assert forall i :: 0 <= i < |sources| ==> sources[i] in urls;
      HeaderAndEntriesBreaks(sources);
    }
  }

  lemma HeaderBreak()
    ensures multiset(Header)['\n'] == 1
  {
    assert Header == "sources:" + "\n";
    assert '\n' !in "sources:";
  }

  lemma HeaderAndEntriesBreaks(sources: seq<string>)
    requires forall i :: 0 <= i < |sources| ==> '\n' !in sources[i]
    ensures multiset(Header + Concat(EntryLines(sources)))['\n'] == |sources| + 1
  {
    var body := Concat(EntryLines(sources));
    EntryLinesBreaks(sources);
    HeaderBreak();
    assert multiset(Header + body) == multiset(Header) + multiset(body);
  }
}

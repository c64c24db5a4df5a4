/** Text extraction from uploaded documents (src/utils/fileParser.ts).

    `parsePptx` keeps the zip entries named "ppt/slides/slide*.xml", orders
    them by the number in their name, pulls the text of every `<a:t>` run
    out of each slide and writes one "--- Slide N ---" block per slide that
    has any. `parsePdf` writes one "--- Page i ---" block per page.

    The zip archive is given as its entries (name and content as a string,
    in the archive's order) and the PDF as the item strings of each page:
    unzipping and PDF decoding belong to JSZip and pdf.js and are not part
    of this model. */
module FileParser {
  import opened Wrappers
  import opened Text

  const SLIDE_PREFIX := "ppt/slides/slide"
  const SLIDE_SUFFIX := ".xml"
  /** The opening and closing tags of a DrawingML text run. */
  const OPEN := "<a:t>"
  const CLOSE := "</a:t>"

  /** One file of the archive: its name (a key of `zip.files`) and its
      content as `async("string")` returns it. */
  datatype Entry = Entry(name: string, content: string)

  // ---------------------------------------------------------------------------
  // Selecting and ordering the slides

  predicate IsSlideName(name: string) {
    StartsWith(name, SLIDE_PREFIX) && EndsWith(name, SLIDE_SUFFIX)
  }

  /** The `filter` step: the slide entries, in archive order. */
  function SlideEntries(entries: seq<Entry>): (r: seq<Entry>)
    ensures forall e :: e in r <==> e in entries && IsSlideName(e.name)
    ensures multiset(r) <= multiset(entries)
    ensures forall e :: multiset(r)[e] == if IsSlideName(e.name) then multiset(entries)[e] else 0
  {
    if entries == [] then []
    else
      assert entries == [entries[0]] + entries[1..];
      (if IsSlideName(entries[0].name) then [entries[0]] else []) + SlideEntries(entries[1..])
  }

  /** The filter keeps the archive order: it works entry by entry. */
  lemma {:induction false} SlideEntriesAppend(a: seq<Entry>, b: seq<Entry>)
    ensures SlideEntries(a + b) == SlideEntries(a) + SlideEntries(b)
  {
    if a == [] {
      assert a + b == b;
    } else {
      var head := if IsSlideName(a[0].name) then [a[0]] else [];
      assert (a + b)[0] == a[0] && (a + b)[1..] == a[1..] + b;
      calc {
        SlideEntries(a + b);
        head + SlideEntries(a[1..] + b);
        { SlideEntriesAppend(a[1..], b); }
        head + (SlideEntries(a[1..]) + SlideEntries(b));
        (head + SlideEntries(a[1..])) + SlideEntries(b);
        SlideEntries(a) + SlideEntries(b);
      }
    }
  }

  /** One entry is kept exactly when its name is a slide's. */
  lemma SlideEntriesOne(e: Entry)
    ensures SlideEntries([e]) == if IsSlideName(e.name) then [e] else []
  {
    assert [e][1..] == [];
  }

  /** `parseInt(name.match(/\d+/)?.[0] || "0")`: the value of the first run
      of digits in the name, 0 for a name without digits. */
  function SlideNumber(name: string): (r: nat)
    ensures (forall i :: 0 <= i < |name| ==> !IsDigit(name[i])) ==> r == 0
  {
    match FirstDigitRun(name)
    case Some(d) => DigitsValue(d)
    case None => 0
  }

  /** The key the comparator `numA - numB` orders by. */
  function Key(e: Entry): nat {
    SlideNumber(e.name)
  }

  predicate SortedBy<T>(s: seq<T>, key: T -> nat) {
    forall i, j :: 0 <= i < j < |s| ==> key(s[i]) <= key(s[j])
  }

  /** The elements of `s` whose key is `k`, in their order in `s`. */
  function WithKey<T>(s: seq<T>, key: T -> nat, k: nat): seq<T> {
    if s == [] then [] else (if key(s[0]) == k then [s[0]] else []) + WithKey(s[1..], key, k)
  }

  /** Puts `e` into the sorted `sorted` after every element whose key is
      not larger than its own. */
  function InsertBy<T>(sorted: seq<T>, e: T, key: T -> nat): (r: seq<T>)
    ensures |r| == |sorted| + 1
  {
    if sorted == [] then [e]
    else if key(e) < key(sorted[0]) then [e] + sorted
    else [sorted[0]] + InsertBy(sorted[1..], e, key)
  }

  /** `Array.prototype.sort` with a comparator `key(a) - key(b)`, which is
      stable: an insertion sort that inserts each element after the equal
      ones already placed. */
  function SortBy<T>(s: seq<T>, key: T -> nat): (r: seq<T>)
    ensures |r| == |s|
  {
    if s == [] then [] else InsertBy(SortBy(s[..|s| - 1], key), s[|s| - 1], key)
  }

  lemma SplitLast<T>(s: seq<T>)
    requires s != []
    ensures s == s[..|s| - 1] + [s[|s| - 1]]
  {
  }

  lemma SplitFirst<T>(s: seq<T>)
    requires s != []
    ensures s == [s[0]] + s[1..]
  {
  }

  lemma TailOfAppend<T>(a: seq<T>, b: seq<T>)
    requires a != []
    ensures (a + b)[0] == a[0] && (a + b)[1..] == a[1..] + b
  {
  }

  lemma SeqAssoc<T>(a: seq<T>, b: seq<T>, c: seq<T>)
    ensures a + (b + c) == a + b + c
  {
  }

  /** In a sorted sequence an element with a smaller key comes first. */
  lemma SortedOrder<T>(s: seq<T>, key: T -> nat, i: nat, j: nat)
    requires SortedBy(s, key) && i < |s| && j < |s|
    requires key(s[i]) < key(s[j])
    ensures i < j
  {
  }

  /** Inserting adds exactly the new element. */
  lemma {:induction false} InsertAddsOne<T>(sorted: seq<T>, e: T, key: T -> nat)
    ensures multiset(InsertBy(sorted, e, key)) == multiset(sorted) + multiset{e}
  {
    if sorted != [] && key(e) >= key(sorted[0]) {
      SplitFirst(sorted);
      InsertAddsOne(sorted[1..], e, key);
    }
  }

  /** The sort is a permutation. */
  lemma {:induction false} SortPermutes<T>(s: seq<T>, key: T -> nat)
    ensures multiset(SortBy(s, key)) == multiset(s)
  {
    if s != [] {
      SplitLast(s);
      SortPermutes(s[..|s| - 1], key);
      InsertAddsOne(SortBy(s[..|s| - 1], key), s[|s| - 1], key);
    }
  }

  /** Inserting an element no smaller than a bound into elements no smaller
      than it gives elements no smaller than it. */
  lemma {:induction false} InsertLowerBound<T>(sorted: seq<T>, e: T, key: T -> nat, b: nat)
    requires forall i :: 0 <= i < |sorted| ==> b <= key(sorted[i])
    requires b <= key(e)
    ensures forall i :: 0 <= i < |InsertBy(sorted, e, key)| ==> b <= key(InsertBy(sorted, e, key)[i])
  {
    if sorted != [] && key(e) >= key(sorted[0]) {
      var rest := sorted[1..];
      assert forall i :: 0 <= i < |rest| ==> rest[i] == sorted[i + 1];
      InsertLowerBound(rest, e, key, b);
    }
  }

  lemma {:induction false} InsertKeepsSorted<T>(sorted: seq<T>, e: T, key: T -> nat)
    requires SortedBy(sorted, key)
    ensures SortedBy(InsertBy(sorted, e, key), key)
  {
    if sorted != [] && key(e) >= key(sorted[0]) {
      var rest := sorted[1..];
      assert SortedBy(rest, key) by {
        assert forall i :: 0 <= i < |rest| ==> rest[i] == sorted[i + 1];
      }
      InsertKeepsSorted(rest, e, key);
      var tail := InsertBy(rest, e, key);
      assert forall i :: 0 <= i < |rest| ==> key(sorted[0]) <= key(rest[i]) by {
        assert forall i :: 0 <= i < |rest| ==> rest[i] == sorted[i + 1];
      }
      InsertLowerBound(rest, e, key, key(sorted[0]));
      var r := [sorted[0]] + tail;
      forall i, j | 0 <= i < j < |r| ensures key(r[i]) <= key(r[j]) {
        assert r[j] == tail[j - 1];
        if i > 0 { assert r[i] == tail[i - 1]; }
      }
    }
  }

  /** The sort orders by key. */
  lemma {:induction false} SortSorts<T>(s: seq<T>, key: T -> nat)
    ensures SortedBy(SortBy(s, key), key)
  {
    if s != [] {
      SortSorts(s[..|s| - 1], key);
      InsertKeepsSorted(SortBy(s[..|s| - 1], key), s[|s| - 1], key);
    }
  }

  lemma {:induction false} WithKeyAppend<T>(a: seq<T>, b: seq<T>, key: T -> nat, k: nat)
    ensures WithKey(a + b, key, k) == WithKey(a, key, k) + WithKey(b, key, k)
  {
    if a == [] {
      assert a + b == b;
    } else {
      var head := if key(a[0]) == k then [a[0]] else [];
      TailOfAppend(a, b);
      WithKeyAppend(a[1..], b, key, k);
      assert WithKey(a + b, key, k) == head + (WithKey(a[1..], key, k) + WithKey(b, key, k));
      SeqAssoc(head, WithKey(a[1..], key, k), WithKey(b, key, k));
    }
  }

  lemma {:induction false} WithKeyNone<T>(s: seq<T>, key: T -> nat, k: nat)
    requires forall i :: 0 <= i < |s| ==> key(s[i]) != k
    ensures WithKey(s, key, k) == []
  {
    if s != [] {
      WithKeyNone(s[1..], key, k);
    }
  }

  lemma WithKeySingle<T>(x: T, key: T -> nat, k: nat)
    ensures WithKey([x], key, k) == if key(x) == k then [x] else []
  {
    assert [x][1..] == [];
  }

  /** Inserting keeps the elements of each key in their order and puts the
      new element after the ones with its own key. */
  lemma {:induction false} InsertIsStable<T>(sorted: seq<T>, e: T, key: T -> nat, k: nat)
    requires SortedBy(sorted, key)
    ensures WithKey(InsertBy(sorted, e, key), key, k)
         == WithKey(sorted, key, k) + (if key(e) == k then [e] else [])
  {
    if sorted == [] {
    } else if key(e) < key(sorted[0]) {
      var r := [e] + sorted;
      assert r[0] == e && r[1..] == sorted;
      if key(e) == k {
        WithKeyNone(sorted, key, k);
      }
    } else {
      var rest := sorted[1..];
      InsertIsStable(rest, e, key, k);
      var r := [sorted[0]] + InsertBy(rest, e, key);
      assert r[0] == sorted[0] && r[1..] == InsertBy(rest, e, key);
    }
  }

  /** The sort is stable: for every key, the elements carrying it keep
      their original order. */
  lemma {:induction false} SortIsStable<T>(s: seq<T>, key: T -> nat, k: nat)
    ensures WithKey(SortBy(s, key), key, k) == WithKey(s, key, k)
  {
    if s != [] {
      var init, last := s[..|s| - 1], s[|s| - 1];
      var sorted := SortBy(init, key);
      SplitLast(s);
      SortIsStable(init, key, k);
      SortSorts(init, key);
      InsertIsStable(sorted, last, key, k);
      WithKeyAppend(init, [last], key, k);
      WithKeySingle(last, key, k);
    }
  }

  /** The slide files in the order they are read. */
  function SlideOrder(entries: seq<Entry>): seq<Entry> {
    SortBy(SlideEntries(entries), Key)
  }

  /** What the filter and the sort promise: only slides, every slide, each
      once, ascending by number, and ties in archive order. */
  lemma SlideOrderSpec(entries: seq<Entry>)
    ensures var r := SlideOrder(entries);
      && SortedBy(r, Key)
      && multiset(r) == multiset(SlideEntries(entries))
      && (forall e :: e in r <==> e in entries && IsSlideName(e.name))
      && (forall k: nat :: WithKey(r, Key, k) == WithKey(SlideEntries(entries), Key, k))
  {
    var r := SlideOrder(entries);
    SortSorts(SlideEntries(entries), Key);
    SortPermutes(SlideEntries(entries), Key);
    forall e ensures e in r <==> e in SlideEntries(entries) {
      assert e in r <==> e in multiset(r);
    }
    forall k: nat ensures WithKey(r, Key, k) == WithKey(SlideEntries(entries), Key, k) {
      SortIsStable(SlideEntries(entries), Key, k);
    }
  }

  /** No two entries share a name, as no two keys of `zip.files` do. */
  predicate DistinctNames(entries: seq<Entry>) {
    forall i, j :: 0 <= i < j < |entries| ==> entries[i].name != entries[j].name
  }

  /** Under distinct names every entry occurs once. */
  lemma {:induction false} OccursOnce(entries: seq<Entry>, x: Entry)
    requires DistinctNames(entries)
    ensures multiset(entries)[x] <= 1
  {
    if entries != [] {
      var tail := entries[1..];
      assert entries == [entries[0]] + tail;
      assert DistinctNames(tail) by {
        forall i, j | 0 <= i < j < |tail| ensures tail[i].name != tail[j].name {
          assert tail[i] == entries[i + 1] && tail[j] == entries[j + 1];
        }
      }
      OccursOnce(tail, x);
      if entries[0] == x {
        forall k | 0 <= k < |tail| ensures tail[k] != x {
          assert entries[k + 1].name != entries[0].name;
        }
        assert x !in tail;
      }
    }
  }

  lemma TwoCopies<T>(s: seq<T>, i: int, j: int)
    requires 0 <= i < j < |s| && s[i] == s[j]
    ensures multiset(s)[s[i]] >= 2
  {
    assert s == s[..j] + [s[j]] + s[j + 1..];
    assert s[i] in s[..j];
  }

  /** With distinct names in the archive, every slide is listed once. */
  lemma SlideOrderDistinct(entries: seq<Entry>)
    requires DistinctNames(entries)
    ensures DistinctNames(SlideOrder(entries))
  {
    var r := SlideOrder(entries);
    SlideOrderSpec(entries);
    forall i, j | 0 <= i < j < |r| ensures r[i].name != r[j].name {
      if r[i].name == r[j].name {
        var a :| 0 <= a < |entries| && entries[a] == r[i];
        var b :| 0 <= b < |entries| && entries[b] == r[j];
        assert r[i] == r[j] by {
          assert a == b;
        }
        TwoCopies(r, i, j);
        OccursOnce(entries, r[i]);
        assert false;
      }
    }
  }

  /** The name PowerPoint gives slide `n`. */
  function SlideName(n: nat): string {
    SLIDE_PREFIX + NatToString(n) + SLIDE_SUFFIX
  }

  lemma SlidePrefixHasNoDigit()
    ensures forall i :: 0 <= i < |SLIDE_PREFIX| ==> !IsDigit(SLIDE_PREFIX[i])
  {
  }

  /** "ppt/slides/slide<n>.xml" is selected, and sorts and is labelled as `n`. */
  lemma SlideNameNumber(n: nat)
    ensures IsSlideName(SlideName(n))
    ensures SlideNumber(SlideName(n)) == n
    ensures FirstDigitRun(SlideName(n)) == Some(NatToString(n))
  {
    var name := SlideName(n);
    assert name[..|SLIDE_PREFIX|] == SLIDE_PREFIX;
    assert name[|name| - |SLIDE_SUFFIX|..] == SLIDE_SUFFIX;
    SlidePrefixHasNoDigit();
    FirstDigitRunAfter(SLIDE_PREFIX, n, SLIDE_SUFFIX);
    DigitsValueOfNatToString(n);
  }

  /** Slides are read in numeric, not textual, order: "slide2" before "slide10". */
  lemma SlidesInNumericOrder(entries: seq<Entry>, i: nat, j: nat, m: nat, n: nat)
    requires i < |SlideOrder(entries)| && j < |SlideOrder(entries)|
    requires SlideOrder(entries)[i].name == SlideName(m)
    requires SlideOrder(entries)[j].name == SlideName(n)
    requires m < n
    ensures i < j
  {
    var r := SlideOrder(entries);
    SortSorts(SlideEntries(entries), Key);
    SlideNameNumber(m);
    SlideNameNumber(n);
    assert Key(r[i]) == m && Key(r[j]) == n;
    SortedOrder(r, Key, i, j);
  }

  // ---------------------------------------------------------------------------
  // Text runs

  predicate NoLt(s: string) {
    forall i :: 0 <= i < |s| ==> s[i] != '<'
  }

  /** The longest prefix of `s` without '<': what `[^<]*` takes. */
  function UpToLt(s: string): (r: string)
    ensures |r| <= |s| && r == s[..|r|] && NoLt(r)
    ensures |r| == |s| || s[|r|] == '<'
  {
    if s != [] && s[0] != '<' then [s[0]] + UpToLt(s[1..]) else []
  }

  /** The regular expression `<a:t>([^<]*)<\/a:t>` tried at the start of `s`:
      the captured text, if it matches. */
  function RunAt(s: string): (r: Option<string>)
    ensures r.Some? ==> NoLt(r.value) && StartsWith(s, OPEN + r.value + CLOSE)
  {
    if !StartsWith(s, OPEN) then None
    else
      var inner := UpToLt(s[|OPEN|..]);
      var after := s[|OPEN| + |inner|..];
      if StartsWith(after, CLOSE) then
        assert s[..|OPEN + inner + CLOSE|] == OPEN + inner + CLOSE by {
          assert s[..|OPEN|] == OPEN;
          assert s[|OPEN|..|OPEN| + |inner|] == inner;
          assert s[|OPEN| + |inner|..|OPEN| + |inner| + |CLOSE|] == CLOSE;
        }
        Some(inner)
      else None
  }

  /** A run written out in full is matched, and its text is captured whole. */
  lemma RunAtWrapped(t: string, rest: string)
    requires NoLt(t)
    ensures RunAt(OPEN + t + CLOSE + rest) == Some(t)
  {
    var s := OPEN + t + CLOSE + rest;
    assert s[..|OPEN|] == OPEN;
    assert s[|OPEN|..] == t + (CLOSE + rest);
    UpToLtStops(t, CLOSE + rest);
    assert s[|OPEN| + |t|..] == CLOSE + rest;
    assert (CLOSE + rest)[..|CLOSE|] == CLOSE;
  }

  lemma {:induction false} UpToLtStops(t: string, u: string)
    requires NoLt(t) && u != [] && u[0] == '<'
    ensures UpToLt(t + u) == t
  {
    if t == [] {
      assert t + u == u;
    } else {
      assert (t + u)[0] == t[0] && (t + u)[1..] == t[1..] + u;
      UpToLtStops(t[1..], u);
    }
  }

  /** A whole match of the run pattern. */
  predicate IsRunMatch(m: string) {
    |OPEN| + |CLOSE| <= |m| && StartsWith(m, OPEN) && EndsWith(m, CLOSE)
    && NoLt(m[|OPEN|..|m| - |CLOSE|])
  }

  /** `xml.match(/<a:t>([^<]*)<\/a:t>/g)`: every match, left to right, each
      search resuming after the previous match (the empty sequence stands
      for `null`). */
  function RunMatches(xml: string): (r: seq<string>)
    ensures forall i :: 0 <= i < |r| ==> IsRunMatch(r[i])
    decreases |xml|
  {
    if xml == [] then []
    else match RunAt(xml)
      case Some(t) =>
        var m := OPEN + t + CLOSE;
        assert m[|OPEN|..|m| - |CLOSE|] == t;
        assert m[..|OPEN|] == OPEN && m[|m| - |CLOSE|..] == CLOSE;
        [m] + RunMatches(xml[|m|..])
      case None => RunMatches(xml[1..])
  }

  /** `match.replace(/<\/?a:t>/g, "")`: every opening and closing run tag
      deleted in one left-to-right pass. */
  function StripRunTags(s: string): (r: string)
    ensures |r| <= |s|
    decreases |s|
  {
    if s == [] then []
    else if StartsWith(s, OPEN) then StripRunTags(s[|OPEN|..])
    else if StartsWith(s, CLOSE) then StripRunTags(s[|CLOSE|..])
    else [s[0]] + StripRunTags(s[1..])
  }

  lemma {:induction false} StripKeepsPlainText(t: string, u: string)
    requires NoLt(t)
    ensures StripRunTags(t + u) == t + StripRunTags(u)
  {
    if t == [] {
      assert t + u == u;
    } else {
      var c, t' := t[0], t[1..];
      assert t == [c] + t';
      Assoc([c], t', u);
      StripKeepsFirst(c, t' + u);
      StripKeepsPlainText(t', u);
      Assoc([c], t', StripRunTags(u));
    }
  }

  lemma StripOpen(u: string)
    ensures StripRunTags(OPEN + u) == StripRunTags(u)
  {
    assert (OPEN + u)[..|OPEN|] == OPEN;
    assert (OPEN + u)[|OPEN|..] == u;
  }

  lemma StripClose(u: string)
    ensures StripRunTags(CLOSE + u) == StripRunTags(u)
  {
    var s := CLOSE + u;
    assert s[1] == '/' != OPEN[1];
    assert s[..|CLOSE|] == CLOSE;
    assert s[|CLOSE|..] == u;
  }

  lemma RunMatchParts(m: string)
    requires IsRunMatch(m)
    ensures m == OPEN + (m[|OPEN|..|m| - |CLOSE|] + CLOSE)
  {
    assert m[..|OPEN|] == OPEN && m[|m| - |CLOSE|..] == CLOSE;
  }

  /** A character other than '<' is kept. */
  lemma StripKeepsFirst(c: char, t: string)
    requires c != '<'
    ensures StripRunTags([c] + t) == [c] + StripRunTags(t)
  {
    var s := [c] + t;
    assert s[0] == c;
    assert s[1..] == t;
  }

  /** Stripping the tags of a match leaves exactly the captured text:
      entities such as "&amp;" are not decoded. */
  lemma StripRunMatch(m: string)
    requires IsRunMatch(m)
    ensures StripRunTags(m) == m[|OPEN|..|m| - |CLOSE|]
  {
    var t := m[|OPEN|..|m| - |CLOSE|];
    RunMatchParts(m);
    StripOpen(t + CLOSE);
    StripKeepsPlainText(t, CLOSE);
    StripClose([]);
    assert CLOSE + [] == CLOSE;
    assert t + [] == t;
  }

  /** The text pieces of a slide: each match with its tags stripped. */
  function Pieces(matches: seq<string>): (r: seq<string>)
    ensures |r| == |matches|
  {
    seq(|matches|, i requires 0 <= i < |matches| => StripRunTags(matches[i]))
  }

  /** A slide written as a sequence of runs. */
  function Runs(texts: seq<string>): string {
    if texts == [] then "" else OPEN + texts[0] + CLOSE + Runs(texts[1..])
  }

  /** Text outside the runs is skipped. */
  lemma {:induction false} RunMatchesSkipsText(p: string, rest: string)
    requires NoLt(p)
    ensures RunMatches(p + rest) == RunMatches(rest)
  {
    if p != [] {
      var s := p + rest;
      assert !StartsWith(s, OPEN) by { assert s[0] == p[0]; }
      assert s[1..] == p[1..] + rest;
      RunMatchesSkipsText(p[1..], rest);
    } else {
      assert p + rest == rest;
    }
  }

  /** A run written out in full is the next match. */
  lemma RunMatchesOfRun(t: string, rest: string)
    requires NoLt(t)
    ensures RunMatches(OPEN + t + CLOSE + rest) == [OPEN + t + CLOSE] + RunMatches(rest)
  {
    var m := OPEN + t + CLOSE;
    RunAtWrapped(t, rest);
    assert (m + rest)[|m|..] == rest;
  }

  /** A run written out in full is a match, and its captured text is `t`. */
  lemma WrappedRun(t: string)
    requires NoLt(t)
    ensures IsRunMatch(OPEN + t + CLOSE)
    ensures StripRunTags(OPEN + t + CLOSE) == t
  {
    var m := OPEN + t + CLOSE;
    assert m[|OPEN|..|m| - |CLOSE|] == t;
    assert m[..|OPEN|] == OPEN && m[|m| - |CLOSE|..] == CLOSE;
    StripRunMatch(m);
  }

  lemma PiecesCons(m: string, ms: seq<string>)
    ensures Pieces([m] + ms) == [StripRunTags(m)] + Pieces(ms)
  {
  }

  /** The pieces recovered from a slide written as runs are the runs' texts,
      verbatim and in order. */
  lemma {:induction false} PiecesOfRuns(texts: seq<string>)
    requires forall i :: 0 <= i < |texts| ==> NoLt(texts[i])
    ensures Pieces(RunMatches(Runs(texts))) == texts
  {
    if texts != [] {
      var t, rest := texts[0], Runs(texts[1..]);
      var m := OPEN + t + CLOSE;
      assert Runs(texts) == m + rest;
      RunMatchesOfRun(t, rest);
      PiecesCons(m, RunMatches(rest));
      WrappedRun(t);
      PiecesOfRuns(texts[1..]);
      SplitFirst(texts);
    }
  }

  /** Markup in which the run pattern cannot start anywhere is skipped: the
      search moves on one character at a time without a match. */
  lemma {:induction false} RunMatchesSkipsMarkup(p: string, rest: string)
    requires forall i :: 0 <= i < |p| ==> !StartsWith(p[i..] + rest, OPEN)
    ensures RunMatches(p + rest) == RunMatches(rest)
  {
    if p != [] {
      var s := p + rest;
      assert p[0..] == p;
      assert !StartsWith(s, OPEN);
      assert s[1..] == p[1..] + rest;
      forall i | 0 <= i < |p[1..]|
        ensures !StartsWith(p[1..][i..] + rest, OPEN)
      {
        assert p[1..][i..] == p[i + 1..];
      }
      RunMatchesSkipsMarkup(p[1..], rest);
    } else {
      assert p + rest == rest;
    }
  }

  /** `<a:t>` does not occur anywhere in `g`. */
  predicate NoOpenTag(g: string) {
    forall i :: 0 <= i < |g| ==> !StartsWith(g[i..], OPEN)
  }

  /** A tag-free stretch of markup followed by nothing or by a tag cannot
      hold the start of a run: no proper suffix of `<a:t>` begins with '<'. */
  lemma NoOpenAcross(g: string, rest: string, i: int)
    requires NoOpenTag(g) && (rest == [] || rest[0] == '<')
    requires 0 <= i < |g|
    ensures !StartsWith(g[i..] + rest, OPEN)
  {
    var s := g[i..] + rest;
    if |OPEN| <= |g| - i {
      assert s[..|OPEN|] == g[i..][..|OPEN|];
    } else if rest != [] && |OPEN| <= |s| {
      var k := |g| - i;
      assert s[k] == rest[0] == '<';
      assert OPEN[k] != '<';
    }
  }

  /** Markup without `<a:t>`, before nothing or before a tag, is skipped. */
  lemma RunMatchesSkipsGap(g: string, rest: string)
    requires NoOpenTag(g) && (rest == [] || rest[0] == '<')
    ensures RunMatches(g + rest) == RunMatches(rest)
  {
    forall i | 0 <= i < |g|
      ensures !StartsWith(g[i..] + rest, OPEN)
    {
      NoOpenAcross(g, rest, i);
    }
    RunMatchesSkipsMarkup(g, rest);
  }

  /** A slide's XML as the archive holds it: stretches of other markup
      (paragraphs, run properties, shapes) with a text run after each but
      the last. */
  function Layout(gaps: seq<string>, texts: seq<string>): string
    requires |gaps| == |texts| + 1
  {
    if texts == [] then gaps[0]
    else gaps[0] + (OPEN + texts[0] + CLOSE + Layout(gaps[1..], texts[1..]))
  }

  /** The pieces recovered from a slide whose runs are interleaved with
      other markup are the runs' texts, verbatim and in order. */
  lemma {:induction false} PiecesOfLayout(gaps: seq<string>, texts: seq<string>)
    requires |gaps| == |texts| + 1
    requires forall i :: 0 <= i < |gaps| ==> NoOpenTag(gaps[i])
    requires forall i :: 0 <= i < |texts| ==> NoLt(texts[i])
    ensures Pieces(RunMatches(Layout(gaps, texts))) == texts
  {
    if texts == [] {
      RunMatchesSkipsGap(gaps[0], []);
      assert gaps[0] + [] == gaps[0];
    } else {
      var t, rest := texts[0], Layout(gaps[1..], texts[1..]);
      var m := OPEN + t + CLOSE;
      assert (m + rest)[0] == '<';
      RunMatchesSkipsGap(gaps[0], m + rest);
      RunMatchesOfRun(t, rest);
      PiecesCons(m, RunMatches(rest));
      WrappedRun(t);
      PiecesOfLayout(gaps[1..], texts[1..]);
      SplitFirst(texts);
    }
  }

  // ---------------------------------------------------------------------------
  // Slide blocks

  /** `fileName.match(/\d+/)?.[0] || "?"`: the digits the slide is sorted
      by, or "?" for a name without digits. */
  function SlideLabel(name: string): (r: string)
    ensures r != ""
    ensures r == "?" <==> forall i :: 0 <= i < |name| ==> !IsDigit(name[i])
    ensures r != "?" ==> AllDigits(r) && DigitsValue(r) == SlideNumber(name)
  {
    match FirstDigitRun(name)
    case Some(d) => d
    case None => "?"
  }

  /** The block a slide contributes, or nothing when it has no text run. */
  function SlideBlock(e: Entry): (r: Option<string>)
    ensures r.None? <==> RunMatches(e.content) == []
    ensures r.Some? ==> StartsWith(r.value, "--- Slide " + SlideLabel(e.name) + " ---\n")
  {
    var matches := RunMatches(e.content);
    if matches == [] then None
    else
      var header := "--- Slide " + SlideLabel(e.name) + " ---\n";
      StartsWithAppend(header, Trim(Join(Pieces(matches), " ")));
      Some(header + Trim(Join(Pieces(matches), " ")))
  }

  /** The defined results of `f` over `s`, in order: a loop that pushes
      `f(x)` whenever there is one. */
  function Collect<T, U>(s: seq<T>, f: T -> Option<U>): (r: seq<U>)
    ensures |r| <= |s|
  {
    if s == [] then []
    else
      var init := Collect(s[..|s| - 1], f);
      match f(s[|s| - 1])
      case Some(b) => init + [b]
      case None => init
  }

  lemma {:induction false} CollectAppend<T, U>(a: seq<T>, b: seq<T>, f: T -> Option<U>)
    ensures Collect(a + b, f) == Collect(a, f) + Collect(b, f)
    decreases |b|
  {
    if b == [] {
      assert a + b == a;
    } else {
      var b' := b[..|b| - 1];
      assert (a + b)[..|a + b| - 1] == a + b';
      assert (a + b)[|a + b| - 1] == b[|b| - 1];
      CollectAppend(a, b', f);
    }
  }

  /** Every collected result comes from an element of `s`. */
  lemma {:induction false} CollectOrigin<T, U>(s: seq<T>, f: T -> Option<U>, j: nat) returns (i: nat)
    requires j < |Collect(s, f)|
    ensures i < |s| && f(s[i]) == Some(Collect(s, f)[j])
  {
    var init := s[..|s| - 1];
    if j < |Collect(init, f)| {
      i := CollectOrigin(init, f, j);
    } else {
      i := |s| - 1;
    }
  }

  /** The loop step: element `i` adds its result, if any, at the end. */
  lemma CollectStep<T, U>(s: seq<T>, i: nat, f: T -> Option<U>)
    requires i < |s|
    ensures Collect(s[..i + 1], f) == Collect(s[..i], f) + if f(s[i]).Some? then [f(s[i]).value] else []
  {
    assert s[..i + 1][..i] == s[..i];
    assert s[..i + 1][i] == s[i];
  }

  lemma CollectOne<T, U>(x: T, f: T -> Option<U>)
    ensures Collect([x], f) == if f(x).Some? then [f(x).value] else []
  {
    assert [x][..0] == [] && [x][0] == x;
  }

  /** An element without a result leaves no trace. */
  lemma CollectSkips<T, U>(s: seq<T>, k: nat, f: T -> Option<U>)
    requires k < |s| && f(s[k]).None?
    ensures Collect(s, f) == Collect(s[..k], f) + Collect(s[k + 1..], f)
  {
    var before, x, after := s[..k], s[k], s[k + 1..];
    assert s == before + ([x] + after);
    CollectAppend(before, [x] + after, f);
    CollectAppend([x], after, f);
    CollectOne(x, f);
    assert [] + Collect(after, f) == Collect(after, f);
  }

  /** A slide without any text run leaves no trace in the output. */
  lemma SlideWithoutRunsIsOmitted(slides: seq<Entry>, k: nat)
    requires k < |slides| && RunMatches(slides[k].content) == []
    ensures Collect(slides, SlideBlock) == Collect(slides[..k], SlideBlock) + Collect(slides[k + 1..], SlideBlock)
  {
    assert SlideBlock(slides[k]).None?;
    CollectSkips(slides, k, SlideBlock);
  }

  /** `parsePptx`'s result. */
  function PptxText(entries: seq<Entry>): string {
    Join(Collect(SlideOrder(entries), SlideBlock), "\n\n")
  }

  /** `parsePptx`, after the archive has been read. */
  method ParsePptx(entries: seq<Entry>) returns (text: string)
    ensures text == PptxText(entries)
  {
    var slideFiles := SlideOrder(entries);
    var slideTexts: seq<string> := [];
    for i := 0 to |slideFiles|
      invariant slideTexts == Collect(slideFiles[..i], SlideBlock)
    {
      var entry := slideFiles[i];
      var textMatches := RunMatches(entry.content);
      CollectStep(slideFiles, i, SlideBlock);
      if textMatches != [] {
        var slideText := Join(Pieces(textMatches), " ");
        var slideNumber := SlideLabel(entry.name);
        slideTexts := slideTexts + ["--- Slide " + slideNumber + " ---\n" + Trim(slideText)];
      }
    }
    assert slideFiles[..|slideFiles|] == slideFiles;
    text := Join(slideTexts, "\n\n");
  }

  /** An archive without slide files gives the empty text. */
  lemma NoSlidesGiveEmptyText(entries: seq<Entry>)
    requires forall e :: e in entries ==> !IsSlideName(e.name)
    ensures PptxText(entries) == ""
  {
    SlideOrderSpec(entries);
  }

  /** A one-slide deck written as runs reads back as its slide number and
      the runs' texts joined by spaces and trimmed. */
  lemma SingleSlideText(n: nat, texts: seq<string>)
    requires texts != [] && forall i :: 0 <= i < |texts| ==> NoLt(texts[i])
    ensures PptxText([Entry(SlideName(n), Runs(texts))])
         == "--- Slide " + NatToString(n) + " ---\n" + Trim(Join(texts, " "))
  {
    var e := Entry(SlideName(n), Runs(texts));
    SlideNameNumber(n);
    assert SlideEntries([e]) == [e] by {
      assert [e][1..] == [];
    }
    assert SlideOrder([e]) == [e] by {
      assert [e][..0] == [];
    }
    PiecesOfRuns(texts);
    assert RunMatches(e.content) != [];
    CollectOne(e, SlideBlock);
  }

  // ---------------------------------------------------------------------------
  // PDF

  /** The block of page `i` (counted from 1): `\n--- Page ${i} ---\n${pageText}\n`,
      the page text being its items' strings joined by single spaces. */
  function PageBlock(i: nat, items: seq<string>): (r: string)
    ensures StartsWith(r, "\n--- Page " + NatToString(i) + " ---\n") && EndsWith(r, "\n")
  {
    var header := "\n--- Page " + NatToString(i) + " ---\n";
    StartsWithAppend(header, Join(items, " ") + "\n");
    assert header + Join(items, " ") + "\n" == header + (Join(items, " ") + "\n");
    header + Join(items, " ") + "\n"
  }

  /** `parsePdf`'s result for a document whose page `i` holds the items
      `pages[i - 1]`. */
  function PdfText(pages: seq<seq<string>>): (r: string)
    ensures r == "" <==> pages == []
  {
    if pages == [] then ""
    else PdfText(pages[..|pages| - 1]) + PageBlock(|pages|, pages[|pages| - 1])
  }

  /** `parsePdf`, after the document has been loaded. */
  method ParsePdf(pages: seq<seq<string>>) returns (fullText: string)
    ensures fullText == PdfText(pages)
  {
    fullText := "";
    var i := 1;
    while i <= |pages|
      invariant 1 <= i <= |pages| + 1
      invariant fullText == PdfText(pages[..i - 1])
    {
      var pageText := Join(pages[i - 1], " ");
      var block := "\n--- Page " + NatToString(i) + " ---\n" + pageText + "\n";
      assert pages[..i][..i - 1] == pages[..i - 1];
      fullText := fullText + block;
      i := i + 1;
    }
    assert pages[..|pages|] == pages;
  }

  lemma PdfTextStep(pages: seq<seq<string>>, k: nat)
    requires k < |pages|
    ensures PdfText(pages[..k + 1]) == PdfText(pages[..k]) + PageBlock(k + 1, pages[k])
  {
    assert pages[..k + 1][..k] == pages[..k];
    assert pages[..k + 1][k] == pages[k];
  }

  lemma StartsWithAppend(a: string, x: string)
    ensures StartsWith(a + x, a)
  {
    assert (a + x)[..|a|] == a;
  }

  lemma StartsWithTrans(a: string, b: string, c: string)
    requires StartsWith(c, b) && StartsWith(b, a)
    ensures StartsWith(c, a)
  {
    assert c[..|a|] == c[..|b|][..|a|];
  }

  /** The text of the first `k` pages is the beginning of the whole text, and
      page `k + 1` follows it directly: pages appear in increasing order. */
  lemma {:induction false} PdfPagesInOrder(pages: seq<seq<string>>, k: nat)
    requires k < |pages|
    ensures PdfText(pages[..k + 1]) == PdfText(pages[..k]) + PageBlock(k + 1, pages[k])
    ensures StartsWith(PdfText(pages), PdfText(pages[..k + 1]))
    decreases |pages| - k
  {
    PdfTextStep(pages, k);
    if k + 1 == |pages| {
      assert pages[..k + 1] == pages;
      StartsWithAppend(PdfText(pages), []);
      assert PdfText(pages) + [] == PdfText(pages);
    } else {
      PdfPagesInOrder(pages, k + 1);
      PdfTextStep(pages, k + 1);
      StartsWithAppend(PdfText(pages[..k + 1]), PageBlock(k + 2, pages[k + 1]));
      StartsWithTrans(PdfText(pages[..k + 1]), PdfText(pages[..k + 2]), PdfText(pages));
    }
  }
}

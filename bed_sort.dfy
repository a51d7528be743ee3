/**
 * The per-sample sort (epic_to_bed.py:50-58):
 * `sorted(lines, key=lambda x: (x.split('\t')[0], int(x.split('\t')[1])))`.
 *
 * Python's `sorted` first computes the key of every line, front to back, so
 * the first line whose key fails raises and nothing is sorted. It then sorts
 * stably by the keys. The sort itself is modelled as a stable insertion sort;
 * `StableSortIsUnique` shows that every stable sort gives the same output.
 */
module BedSort {
  import opened Wrappers
  import opened Text

  /** The key tuple: the first field as text, the second as an integer. */
  datatype SortKey = SortKey(chrom: string, start: int)

  /** The key of one line, or the exception computing it raises. */
  function KeyOf(line: string): (r: Result<SortKey, Failure>)
  {
    var fields := Split(line, '\t');
    if |fields| < 2 then Err(IndexOutOfRange)
    else match ParseInt(fields[1])
      case None => Err(NotAnInteger)
      case Some(n) => Ok(SortKey(fields[0], n))
  }

  /**
   * A line without a tab has no second field (IndexError); otherwise the
   * chromosome is the text before the first tab.
   */
  lemma KeyOfSound(line: string)
    ensures KeyOf(line) == Err(IndexOutOfRange) <==> '\t' !in line
    ensures KeyOf(line).Ok? ==> var chrom := KeyOf(line).value.chrom;
      chrom <= line && '\t' !in chrom && line[|chrom|] == '\t'
  {
    SplitSound(line, '\t');
  }

  /** Python's `a <= b` on two key tuples. */
  predicate KeyLeq(a: SortKey, b: SortKey)
  {
    Less(a.chrom, b.chrom) || (a.chrom == b.chrom && a.start <= b.start)
  }

  lemma KeyLeqReflexive(a: SortKey)
    ensures KeyLeq(a, a)
  {
  }

  lemma KeyLeqTotal(a: SortKey, b: SortKey)
    ensures KeyLeq(a, b) || KeyLeq(b, a)
  {
    LessTotal(a.chrom, b.chrom);
  }

  lemma KeyLeqAntisymmetric(a: SortKey, b: SortKey)
    requires KeyLeq(a, b) && KeyLeq(b, a)
    ensures a == b
  {
    LessTotal(a.chrom, b.chrom);
  }

  lemma KeyLeqTransitive(a: SortKey, b: SortKey, c: SortKey)
    requires KeyLeq(a, b) && KeyLeq(b, c)
    ensures KeyLeq(a, c)
  {
    if Less(a.chrom, b.chrom) && Less(b.chrom, c.chrom) {
      LessTransitive(a.chrom, b.chrom, c.chrom);
    }
  }

  /**
   * Chromosomes order as text, not by number: "chr10" comes before "chr2"
   * whatever the positions; within one chromosome positions order as integers.
   */
  lemma ChromosomesOrderAsText(p: int, q: int)
    ensures KeyLeq(SortKey("chr10", p), SortKey("chr2", q))
    ensures !KeyLeq(SortKey("chr2", q), SortKey("chr10", p))
    ensures KeyLeq(SortKey("chr1", p), SortKey("chr1", q)) <==> p <= q
  {
    assert "chr10"[1..][1..][1..] == "10";
    assert "chr2"[1..][1..][1..] == "2";
  }

  /** Every line has a key. */
  predicate AllKeyed(lines: seq<string>)
  {
    forall line :: line in lines ==> KeyOf(line).Ok?
  }

  function Key(line: string): (r: SortKey)
    requires KeyOf(line).Ok?
  {
    KeyOf(line).value
  }

  /** The keys of `lines` never decrease. */
  ghost predicate LinesSorted(lines: seq<string>)
    requires AllKeyed(lines)
  {
    forall i, j :: 0 <= i < j < |lines| ==> KeyLeq(Key(lines[i]), Key(lines[j]))
  }

  /** The lines whose key is `k`, in their order in `lines`. */
  function LinesWithKey(lines: seq<string>, k: SortKey): (r: seq<string>)
    requires AllKeyed(lines)
  {
    if lines == [] then []
    else
      assert lines == [lines[0]] + lines[1..];
      (if Key(lines[0]) == k then [lines[0]] else []) + LinesWithKey(lines[1..], k)
  }

  // ---------------------------------------------------------------------------
  // The sort proper, on lines paired with their precomputed keys
  // ---------------------------------------------------------------------------

  datatype Entry = Entry(key: SortKey, line: string)

  /** Each entry carries its line's key. */
  ghost predicate Consistent(entries: seq<Entry>)
  {
    forall e :: e in entries ==> KeyOf(e.line) == Ok(e.key)
  }

  function LinesOf(entries: seq<Entry>): (lines: seq<string>)
    ensures |lines| == |entries|
    ensures forall i :: 0 <= i < |entries| ==> lines[i] == entries[i].line
  {
    if entries == [] then [] else [entries[0].line] + LinesOf(entries[1..])
  }

  /**
   * The keys of all lines, computed front to back; the first line whose key
   * fails stops the computation with its exception.
   */
  function Decorate(lines: seq<string>): (r: Result<seq<Entry>, Failure>)
  {
    if lines == [] then Ok([])
    else
      match KeyOf(lines[0])
      case Err(e) => Err(e)
      case Ok(key) =>
        match Decorate(lines[1..])
        case Err(e) => Err(e)
        case Ok(rest) => Ok([Entry(key, lines[0])] + rest)
  }

  /**
   * Decoration succeeds exactly when every line has a key, and then pairs
   * each line, in order, with its own key.
   */
  lemma {:induction false} DecorateSound(lines: seq<string>)
    ensures Decorate(lines).Ok? ==> LinesOf(Decorate(lines).value) == lines && Consistent(Decorate(lines).value)
    ensures Decorate(lines).Ok? <==> AllKeyed(lines)
  {
    DecorateKeyed(lines);
    if Decorate(lines).Ok? {
      DecorateKeeps(lines);
    }
  }

  lemma {:induction false} DecorateKeyed(lines: seq<string>)
    ensures Decorate(lines).Ok? <==> AllKeyed(lines)
  {
    if lines != [] {
      DecorateKeyed(lines[1..]);
      assert forall x :: x in lines ==> x == lines[0] || x in lines[1..];
      assert forall x :: x in lines[1..] ==> x in lines;
    }
  }

  lemma {:induction false} DecorateKeeps(lines: seq<string>)
    requires Decorate(lines).Ok?
    ensures LinesOf(Decorate(lines).value) == lines && Consistent(Decorate(lines).value)
  {
    if lines != [] {
      DecorateKeeps(lines[1..]);
      var rest := Decorate(lines[1..]).value;
      var first := Entry(KeyOf(lines[0]).value, lines[0]);
      assert Decorate(lines).value == [first] + rest;
      assert ([first] + rest)[0] == first && ([first] + rest)[1..] == rest;
      assert LinesOf([first] + rest) == [lines[0]] + LinesOf(rest);
      assert lines == [lines[0]] + lines[1..];
      assert forall x :: x in [first] + rest ==> x == first || x in rest;
    }
  }

  /** A failed decoration reports the exception of the first line whose key fails. */
  lemma {:induction false} DecorateFailure(lines: seq<string>)
    requires Decorate(lines).Err?
    ensures exists i :: (0 <= i < |lines| && KeyOf(lines[i]) == Err(Decorate(lines).error) &&
      forall j :: 0 <= j < i ==> KeyOf(lines[j]).Ok?)
  {
    if KeyOf(lines[0]).Ok? {
      DecorateFailure(lines[1..]);
      var i :| 0 <= i < |lines[1..]| && KeyOf(lines[1..][i]) == Err(Decorate(lines[1..]).error) &&
        forall j :: 0 <= j < i ==> KeyOf(lines[1..][j]).Ok?;
      assert KeyOf(lines[i + 1]) == Err(Decorate(lines).error);
      assert forall j :: 1 <= j < i + 1 ==> lines[j] == lines[1..][j - 1];
    } else {
      assert KeyOf(lines[0]) == Err(Decorate(lines).error);
    }
  }

  /** The keys of `entries` never decrease. */
  ghost predicate Sorted(entries: seq<Entry>)
  {
    forall i, j :: 0 <= i < j < |entries| ==> KeyLeq(entries[i].key, entries[j].key)
  }

  /** The entries whose key is `k`, in their order in `entries`. */
  function WithKey(entries: seq<Entry>, k: SortKey): (r: seq<Entry>)
  {
    if entries == [] then []
    else (if entries[0].key == k then [entries[0]] else []) + WithKey(entries[1..], k)
  }

  /** `e` goes before the first entry whose key is not below its own. */
  function Insert(e: Entry, sorted: seq<Entry>): (r: seq<Entry>)
  {
    if sorted == [] then [e]
    else if KeyLeq(e.key, sorted[0].key) then [e] + sorted
    else [sorted[0]] + Insert(e, sorted[1..])
  }

  function InsertionSort(entries: seq<Entry>): (r: seq<Entry>)
  {
    if entries == [] then []
    else Insert(entries[0], InsertionSort(entries[1..]))
  }

  lemma {:induction false} InsertPermutes(e: Entry, sorted: seq<Entry>)
    ensures multiset(Insert(e, sorted)) == multiset(sorted) + multiset{e}
  {
    if sorted != [] && !KeyLeq(e.key, sorted[0].key) {
      InsertPermutes(e, sorted[1..]);
      assert sorted == [sorted[0]] + sorted[1..];
    }
  }

  /** The sort only reorders the entries. */
  lemma {:induction false} InsertionSortPermutes(entries: seq<Entry>)
    ensures multiset(InsertionSort(entries)) == multiset(entries)
  {
    if entries != [] {
      InsertionSortPermutes(entries[1..]);
      InsertPermutes(entries[0], InsertionSort(entries[1..]));
      assert entries == [entries[0]] + entries[1..];
    }
  }

  lemma SortedTail(sorted: seq<Entry>)
    requires Sorted(sorted) && sorted != []
    ensures Sorted(sorted[1..])
  {
    forall i, j | 0 <= i < j < |sorted| - 1
      ensures KeyLeq(sorted[1..][i].key, sorted[1..][j].key)
    {
      assert sorted[1..][i] == sorted[i + 1] && sorted[1..][j] == sorted[j + 1];
    }
  }

  /** An entry no greater than any of a sorted sequence can go in front of it. */
  lemma SortedCons(e: Entry, sorted: seq<Entry>)
    requires Sorted(sorted)
    requires forall x :: x in sorted ==> KeyLeq(e.key, x.key)
    ensures Sorted([e] + sorted)
  {
    forall i, j | 0 <= i < j < |sorted| + 1
      ensures KeyLeq(([e] + sorted)[i].key, ([e] + sorted)[j].key)
    {
      assert ([e] + sorted)[j] == sorted[j - 1];
      if i > 0 {
        assert ([e] + sorted)[i] == sorted[i - 1];
      } else {
        assert sorted[j - 1] in sorted;
      }
    }
  }

  lemma {:induction false} InsertKeepsSorted(e: Entry, sorted: seq<Entry>)
    requires Sorted(sorted)
    ensures Sorted(Insert(e, sorted))
  {
    if sorted != [] && !KeyLeq(e.key, sorted[0].key) {
      var rest := Insert(e, sorted[1..]);
      InsertKeepsSorted(e, sorted[1..]);
      InsertPermutes(e, sorted[1..]);
      KeyLeqTotal(e.key, sorted[0].key);
      forall x | x in rest
        ensures KeyLeq(sorted[0].key, x.key)
      {
        assert x in multiset(rest);
        if x != e {
          assert x in sorted[1..];
        }
      }
      SortedTail(sorted);
      SortedCons(sorted[0], rest);
    } else if sorted != [] {
      forall x | x in sorted
        ensures KeyLeq(e.key, x.key)
      {
        var j :| 0 <= j < |sorted| && sorted[j] == x;
        KeyLeqTransitive(e.key, sorted[0].key, sorted[j].key);
      }
      SortedCons(e, sorted);
    }
  }

  lemma {:induction false} InsertionSortSorts(entries: seq<Entry>)
    ensures Sorted(InsertionSort(entries))
  {
    if entries != [] {
      InsertionSortSorts(entries[1..]);
      InsertKeepsSorted(entries[0], InsertionSort(entries[1..]));
    }
  }

  /** Inserting an entry puts it before every entry of its own key. */
  lemma {:induction false} InsertWithKey(e: Entry, sorted: seq<Entry>, k: SortKey)
    ensures WithKey(Insert(e, sorted), k) == (if e.key == k then [e] else []) + WithKey(sorted, k)
    decreases |sorted|, 1
  {
    if sorted != [] && !KeyLeq(e.key, sorted[0].key) {
      InsertWithKeyLater(e, sorted, k);
    } else {
      var ins := [e] + sorted;
      assert Insert(e, sorted) == ins;
      assert ins[0] == e && ins[1..] == sorted;
    }
  }

  /** The case where `e` goes after the first entry, whose key is then not `e`'s. */
  lemma {:induction false} InsertWithKeyLater(e: Entry, sorted: seq<Entry>, k: SortKey)
    requires sorted != [] && !KeyLeq(e.key, sorted[0].key)
    ensures WithKey(Insert(e, sorted), k) == (if e.key == k then [e] else []) + WithKey(sorted, k)
    decreases |sorted|, 0
  {
    var first, tail := sorted[0], sorted[1..];
    var rest := Insert(e, tail);
    InsertWithKey(e, tail, k);
    var ins := [first] + rest;
    assert Insert(e, sorted) == ins;
    assert ins[0] == first && ins[1..] == rest;
    KeyLeqReflexive(e.key);
    assert e.key != first.key;
    if first.key == k {
      assert WithKey(ins, k) == [first] + WithKey(rest, k);
      assert WithKey(sorted, k) == [first] + WithKey(tail, k);
    } else {
      assert WithKey(ins, k) == WithKey(rest, k);
      assert WithKey(sorted, k) == WithKey(tail, k);
    }
  }

  /** Entries with equal keys keep their order. */
  lemma {:induction false} InsertionSortStable(entries: seq<Entry>, k: SortKey)
    ensures WithKey(InsertionSort(entries), k) == WithKey(entries, k)
  {
    if entries != [] {
      InsertionSortStable(entries[1..], k);
      InsertWithKey(entries[0], InsertionSort(entries[1..]), k);
    }
  }

  /** Sorting entries that are already in key order leaves them as they are. */
  lemma {:induction false} InsertionSortOfSorted(entries: seq<Entry>)
    requires Sorted(entries)
    ensures InsertionSort(entries) == entries
  {
    if entries != [] {
      InsertionSortOfSorted(entries[1..]);
      if |entries| > 1 {
        assert KeyLeq(entries[0].key, entries[1..][0].key);
      }
      assert entries == [entries[0]] + entries[1..];
    }
  }

  // ---------------------------------------------------------------------------
  // sorted(lines, key=...)
  // ---------------------------------------------------------------------------

  /**
   * The sorted lines, or the exception the first bad key raises: a line
   * without a tab (IndexError) or whose second field is not an integer
   * (ValueError). The result is a permutation of the lines in key order.
   */
  function SortLines(lines: seq<string>): (r: Result<seq<string>, Failure>)
  {
    match Decorate(lines)
    case Err(e) => Err(e)
    case Ok(entries) => Ok(LinesOf(InsertionSort(entries)))
  }

  /**
   * The sort succeeds exactly when every line has a key. It then returns the
   * same lines, as a multiset, in key order; otherwise it raises the
   * exception of the first line whose key fails.
   */
  lemma SortLinesSound(lines: seq<string>)
    ensures SortLines(lines).Ok? <==> AllKeyed(lines)
    ensures SortLines(lines).Err? ==> exists i :: (0 <= i < |lines| &&
      KeyOf(lines[i]) == Err(SortLines(lines).error) &&
      forall j :: 0 <= j < i ==> KeyOf(lines[j]).Ok?)
    ensures SortLines(lines).Ok? ==> var out := SortLines(lines).value;
      multiset(out) == multiset(lines) && AllKeyed(out) && LinesSorted(out)
  {
    DecorateSound(lines);
    match Decorate(lines)
    case Err(e) =>
      DecorateFailure(lines);
    case Ok(entries) =>
      var sorted := InsertionSort(entries);
      InsertionSortSorts(entries);
      InsertionSortConsistent(entries);
      InsertionSortLines(entries);
      SortedEntriesGiveSortedLines(sorted);
  }

  lemma {:induction false} InsertLines(e: Entry, sorted: seq<Entry>)
    ensures multiset(LinesOf(Insert(e, sorted))) == multiset(LinesOf(sorted)) + multiset{e.line}
  {
    if sorted == [] {
      assert LinesOf([e]) == [e.line];
    } else if KeyLeq(e.key, sorted[0].key) {
      var ins := [e] + sorted;
      assert ins[0] == e && ins[1..] == sorted;
      assert LinesOf(ins) == [e.line] + LinesOf(sorted);
      assert multiset([e.line] + LinesOf(sorted)) == multiset{e.line} + multiset(LinesOf(sorted));
    } else {
      var first, tail := sorted[0], sorted[1..];
      var rest := Insert(e, tail);
      InsertLines(e, tail);
      var ins := [first] + rest;
      assert Insert(e, sorted) == ins;
      assert ins[0] == first && ins[1..] == rest;
      assert LinesOf(ins) == [first.line] + LinesOf(rest);
      assert multiset([first.line] + LinesOf(rest)) == multiset{first.line} + multiset(LinesOf(rest));
      assert sorted[0] == first && sorted[1..] == tail;
      assert LinesOf(sorted) == [first.line] + LinesOf(tail);
      assert multiset([first.line] + LinesOf(tail)) == multiset{first.line} + multiset(LinesOf(tail));
    }
  }

  lemma {:induction false} InsertionSortLines(entries: seq<Entry>)
    ensures multiset(LinesOf(InsertionSort(entries))) == multiset(LinesOf(entries))
  {
    if entries != [] {
      InsertionSortLines(entries[1..]);
      InsertLines(entries[0], InsertionSort(entries[1..]));
      assert LinesOf(entries) == [entries[0].line] + LinesOf(entries[1..]);
    }
  }

  /** The lines of consistent entries all have keys: the entries' own. */
  lemma ConsistentLinesKeyed(entries: seq<Entry>)
    requires Consistent(entries)
    ensures AllKeyed(LinesOf(entries))
    ensures forall i :: 0 <= i < |entries| ==> Key(LinesOf(entries)[i]) == entries[i].key
  {
    var lines := LinesOf(entries);
    forall line | line in lines ensures KeyOf(line).Ok? {
      var i :| 0 <= i < |lines| && lines[i] == line;
      assert entries[i] in entries;
    }
    forall i | 0 <= i < |lines| ensures Key(lines[i]) == entries[i].key {
      assert entries[i] in entries;
    }
  }

  lemma ConsistentTail(entries: seq<Entry>)
    requires Consistent(entries) && entries != []
    ensures Consistent(entries[1..])
    ensures KeyOf(entries[0].line) == Ok(entries[0].key)
  {
    assert entries[0] in entries;
    forall e | e in entries[1..] ensures KeyOf(e.line) == Ok(e.key) {
      assert e in entries;
    }
  }

  lemma LinesOfAppend(a: seq<Entry>, b: seq<Entry>)
    ensures LinesOf(a + b) == LinesOf(a) + LinesOf(b)
  {
    var joined, parts := LinesOf(a + b), LinesOf(a) + LinesOf(b);
    forall i | 0 <= i < |joined| ensures joined[i] == parts[i] {
      if i < |a| {
        assert (a + b)[i] == a[i];
      } else {
        assert (a + b)[i] == b[i - |a|];
      }
    }
  }

  /** Lines carried by consistent entries in key order are lines in key order. */
  lemma SortedEntriesGiveSortedLines(entries: seq<Entry>)
    requires Consistent(entries) && Sorted(entries)
    ensures AllKeyed(LinesOf(entries)) && LinesSorted(LinesOf(entries))
  {
    ConsistentLinesKeyed(entries);
  }

  /** Filtering lines by key is filtering their entries by key. */
  lemma {:induction false} LinesWithKeyOf(entries: seq<Entry>, k: SortKey)
    requires Consistent(entries)
    ensures AllKeyed(LinesOf(entries))
    ensures LinesWithKey(LinesOf(entries), k) == LinesOf(WithKey(entries, k))
  {
    ConsistentLinesKeyed(entries);
    if entries != [] {
      var first, tail := entries[0], entries[1..];
      ConsistentTail(entries);
      LinesWithKeyOf(tail, k);
      var lines := LinesOf(entries);
      assert lines[0] == first.line && lines[1..] == LinesOf(tail);
      var mine := if first.key == k then [first] else [];
      assert WithKey(entries, k) == mine + WithKey(tail, k);
      LinesOfAppend(mine, WithKey(tail, k));
      assert LinesOf(mine) == if Key(lines[0]) == k then [lines[0]] else [];
    }
  }

  /** Decorating the lines of consistent entries gives back those entries. */
  lemma {:induction false} DecorateLinesOf(entries: seq<Entry>)
    requires Consistent(entries)
    ensures Decorate(LinesOf(entries)) == Ok(entries)
  {
    if entries != [] {
      var e, tail := entries[0], entries[1..];
      ConsistentTail(entries);
      DecorateLinesOf(tail);
      var lines := LinesOf(entries);
      assert lines[0] == e.line && lines[1..] == LinesOf(tail);
      assert Decorate(lines) == Ok([Entry(e.key, e.line)] + tail);
      assert [Entry(e.key, e.line)] + tail == entries;
    }
  }

  /** Sorting keeps entries consistent, as it only reorders them. */
  lemma InsertionSortConsistent(entries: seq<Entry>)
    requires Consistent(entries)
    ensures Consistent(InsertionSort(entries))
  {
    InsertionSortPermutes(entries);
    forall e | e in InsertionSort(entries) ensures KeyOf(e.line) == Ok(e.key) {
      assert e in multiset(InsertionSort(entries));
      assert e in entries;
    }
  }

  /** Lines with equal keys keep their accumulation order. */
  lemma SortLinesStable(lines: seq<string>, k: SortKey)
    requires AllKeyed(lines)
    ensures SortLines(lines).Ok? && AllKeyed(SortLines(lines).value)
    ensures LinesWithKey(SortLines(lines).value, k) == LinesWithKey(lines, k)
  {
    SortLinesSound(lines);
    DecorateSound(lines);
    var entries := Decorate(lines).value;
    InsertionSortConsistent(entries);
    InsertionSortStable(entries, k);
    LinesWithKeyOf(entries, k);
    LinesWithKeyOf(InsertionSort(entries), k);
  }

  /** Sorting the sorted output again gives the same output. */
  lemma SortLinesIdempotent(lines: seq<string>)
    requires SortLines(lines).Ok?
    ensures SortLines(SortLines(lines).value) == SortLines(lines)
  {
    DecorateSound(lines);
    var entries := Decorate(lines).value;
    var sorted := InsertionSort(entries);
    InsertionSortConsistent(entries);
    InsertionSortSorts(entries);
    DecorateLinesOf(sorted);
    InsertionSortOfSorted(sorted);
  }

  // ---------------------------------------------------------------------------
  // Any stable sort gives the same output
  // ---------------------------------------------------------------------------

  lemma {:induction false} WithKeyMembers(entries: seq<Entry>, k: SortKey, x: Entry)
    requires x in WithKey(entries, k)
    ensures x in entries && x.key == k
  {
    if entries != [] && !(entries[0].key == k && x == entries[0]) {
      WithKeyMembers(entries[1..], k, x);
    }
  }

  lemma FirstIsLeast(entries: seq<Entry>, x: Entry)
    requires Sorted(entries) && x in entries
    ensures KeyLeq(entries[0].key, x.key)
  {
    KeyLeqReflexive(x.key);
  }

  /** Two key-ordered sequences with the same entries of each key, in the same order, are equal. */
  lemma {:induction false} SortedByKeyIsUnique(a: seq<Entry>, b: seq<Entry>)
    requires Sorted(a) && Sorted(b)
    requires forall k :: WithKey(a, k) == WithKey(b, k)
    ensures a == b
  {
    if a == [] || b == [] {
      if a != [] {
        assert WithKey(a, a[0].key) != WithKey(b, a[0].key);
      } else if b != [] {
        assert WithKey(a, b[0].key) != WithKey(b, b[0].key);
      }
    } else {
      var ka, kb := a[0].key, b[0].key;
      assert a[0] in WithKey(b, ka);
      WithKeyMembers(b, ka, a[0]);
      FirstIsLeast(b, a[0]);
      assert b[0] in WithKey(a, kb);
      WithKeyMembers(a, kb, b[0]);
      FirstIsLeast(a, b[0]);
      KeyLeqAntisymmetric(ka, kb);
      assert a[0] == WithKey(a, ka)[0] == WithKey(b, ka)[0] == b[0];
      forall k ensures WithKey(a[1..], k) == WithKey(b[1..], k) {
        var head := if ka == k then [a[0]] else [];
        assert WithKey(a, k) == head + WithKey(a[1..], k);
        assert WithKey(b, k) == head + WithKey(b[1..], k);
        assert WithKey(a, k)[|head|..] == WithKey(a[1..], k);
        assert WithKey(b, k)[|head|..] == WithKey(b[1..], k);
      }
      SortedByKeyIsUnique(a[1..], b[1..]);
      assert a == [a[0]] + a[1..];
      assert b == [b[0]] + b[1..];
    }
  }

  lemma {:induction false} LinesOfInjective(a: seq<Entry>, b: seq<Entry>)
    requires Consistent(a) && Consistent(b) && LinesOf(a) == LinesOf(b)
    ensures a == b
  {
    forall i | 0 <= i < |a| ensures a[i] == b[i] {
      assert a[i] in a && b[i] in b;
      assert a[i].line == LinesOf(a)[i] == b[i].line;
    }
  }

  lemma WithKeyConsistent(entries: seq<Entry>, k: SortKey)
    requires Consistent(entries)
    ensures Consistent(WithKey(entries, k))
  {
    forall x | x in WithKey(entries, k) ensures KeyOf(x.line) == Ok(x.key) {
      WithKeyMembers(entries, k, x);
    }
  }

  /**
   * Whatever stable sort orders the lines, it gives the output of `SortLines`:
   * a key-ordered sequence whose lines of each key are those of the input, in
   * input order, is that output.
   */
  lemma StableSortIsUnique(lines: seq<string>, out: seq<string>)
    requires AllKeyed(lines) && AllKeyed(out) && LinesSorted(out)
    requires forall k :: LinesWithKey(out, k) == LinesWithKey(lines, k)
    ensures SortLines(lines) == Ok(out)
  {
    DecorateSound(out);
    DecorateSound(lines);
    var outEntries := Decorate(out).value;
    var entries := Decorate(lines).value;
    var sorted := InsertionSort(entries);
    InsertionSortConsistent(entries);
    InsertionSortSorts(entries);
    forall i, j | 0 <= i < j < |outEntries| ensures KeyLeq(outEntries[i].key, outEntries[j].key) {
      assert outEntries[i] in outEntries && outEntries[j] in outEntries;
      assert LinesOf(outEntries)[i] == out[i] && LinesOf(outEntries)[j] == out[j];
    }
    forall k ensures WithKey(outEntries, k) == WithKey(sorted, k) {
      LinesWithKeyOf(outEntries, k);
      LinesWithKeyOf(entries, k);
      InsertionSortStable(entries, k);
      WithKeyConsistent(outEntries, k);
      WithKeyConsistent(sorted, k);
      LinesOfInjective(WithKey(outEntries, k), WithKey(sorted, k));
    }
    SortedByKeyIsUnique(outEntries, sorted);
  }
}

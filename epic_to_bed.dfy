/**
 * The script epic_to_bed.py as a whole: scan the header, append one line per
 * (row, sample) to the sample's unsorted file, then write each sample's lines
 * sorted to its sorted file.
 *
 * The output directory is a `BedFiles` object: the unsorted and the sorted file
 * of every sample, as lines, a sample without a key having no such file. What
 * the files held before the run is the object's state when `Convert` starts.
 */
module EpicToBed {
  import opened Wrappers
  import opened Text
  import opened Columns
  import opened Fanout
  import opened BedSort

  /** The number of rows whose sample loop completes before the first row that raises. */
  ghost function FittingRows(index: ColumnIndex, rows: seq<seq<string>>): (r: nat)
    ensures r <= |rows|
    ensures forall i :: 0 <= i < r ==> RowFits(index, rows[i])
    ensures r < |rows| ==> !RowFits(index, rows[r])
  {
    if rows == [] || !RowFits(index, rows[0]) then 0
    else 1 + FittingRows(index, rows[1..])
  }

  /** The count of rows that fit is the first position of a row that does not. */
  lemma {:induction false} FittingRowsAt(index: ColumnIndex, rows: seq<seq<string>>, r: nat)
    requires r <= |rows|
    requires forall i :: 0 <= i < r ==> RowFits(index, rows[i])
    requires r < |rows| ==> !RowFits(index, rows[r])
    ensures FittingRows(index, rows) == r
  {
    if r > 0 {
      assert forall i :: 0 <= i < r - 1 ==> rows[1..][i] == rows[i + 1];
      FittingRowsAt(index, rows[1..], r - 1);
    }
  }

  /** One more turn of the row loop runs the sample loop for one more row. */
  lemma FanOutRowsStep(files: Files, index: ColumnIndex, rows: seq<seq<string>>, r: nat)
    requires index.Valid() && r < |rows|
    requires forall i :: 0 <= i <= r ==> RowFits(index, rows[i])
    ensures Fits(index, rows[r], |index.samples|)
    ensures FanOutRows(files, index, rows[..r + 1]) ==
      FanOut(FanOutRows(files, index, rows[..r]), index, rows[r], |index.samples|)
  {
    PrefixRowsFit(index, rows, r + 1);
    PrefixRowsFit(index, rows, r);
    assert rows[..r + 1][..r] == rows[..r];
    RowFitsAllSamples(index, rows[r]);
  }

  /**
   * The files after the loop for `row` raised IndexError: nothing was written
   * when a fixed column is missing; otherwise the samples before the first
   * out-of-range beta column got their line.
   */
  ghost function PartialRow(files: Files, index: ColumnIndex, row: seq<string>): (r: Files)
    requires index.Valid()
  {
    if !HasFixedColumns(row) then files
    else FanOut(files, index, row, Reach(index.samples, index.column, |row|))
  }

  /**
   * The unsorted files after the row loop over `rows`: every row written in
   * full up to the first one that is too short, which is written in part.
   */
  ghost function WrittenRows(files: Files, index: ColumnIndex, rows: seq<seq<string>>): (r: Files)
    requires index.Valid()
  {
    var n := FittingRows(index, rows);
    if n == |rows| then FanOutRows(files, index, rows)
    else PartialRow(FanOutRows(files, index, rows[..n]), index, rows[n])
  }

  /** A line written for a row keys on its chromosome and on `int` of its MAPINFO. */
  lemma KeyOfRowText(row: seq<string>, betaColumn: nat)
    requires HasFixedColumns(row) && betaColumn < |row|
    requires '\t' !in row[ChrColumn] && '\t' !in row[MapInfoColumn]
    ensures KeyOf(RowText(row, betaColumn)) ==
      match ParseInt(row[MapInfoColumn])
      case Some(start) => Ok(SortKey(row[ChrColumn], start))
      case None => Err(NotAnInteger)
  {
    var chr, pos := row[ChrColumn], row[MapInfoColumn];
    var afterPos := pos + "\t" + row[TargetIdColumn] + "\t" + row[betaColumn] + "\n";
    var afterChr := pos + "\t" + afterPos;
    assert RowText(row, betaColumn) == chr + ['\t'] + afterChr;
    SplitAfterPiece(chr, '\t', afterChr);
    assert afterChr == pos + ['\t'] + afterPos;
    SplitAfterPiece(pos, '\t', afterPos);
  }

  /**
   * What the sort loop makes of one sample's unsorted file: its lines sorted,
   * or the exception raised (FileNotFoundError when there is no file).
   */
  function SortOutcome(files: Files, sample: string): (r: Result<seq<string>, Failure>)
  {
    if sample !in files then Err(MissingFile(sample)) else SortLines(files[sample])
  }

  /** The number of samples, in key order, before the first whose sort raises. */
  ghost function SortableSamples(samples: seq<string>, files: Files): (k: nat)
    ensures k <= |samples|
    ensures forall i :: 0 <= i < k ==> SortOutcome(files, samples[i]).Ok?
    ensures k < |samples| ==> SortOutcome(files, samples[k]).Err?
  {
    if samples == [] || SortOutcome(files, samples[0]).Err? then 0
    else 1 + SortableSamples(samples[1..], files)
  }

  /** The count of samples that sort is the first position whose sort raises. */
  lemma {:induction false} SortableSamplesAt(samples: seq<string>, files: Files, k: nat)
    requires k <= |samples|
    requires forall i :: 0 <= i < k ==> SortOutcome(files, samples[i]).Ok?
    requires k < |samples| ==> SortOutcome(files, samples[k]).Err?
    ensures SortableSamples(samples, files) == k
  {
    if k > 0 {
      assert forall i :: 0 <= i < k - 1 ==> samples[1..][i] == samples[i + 1];
      SortableSamplesAt(samples[1..], files, k - 1);
    }
  }

  /** The sorted files after writing, in turn, the sorted lines of each of `samples`. */
  ghost function WriteSorted(out: Files, files: Files, samples: seq<string>): (r: Files)
    requires forall s :: s in samples ==> SortOutcome(files, s).Ok?
  {
    if samples == [] then out
    else
      var last := samples[|samples| - 1];
      WriteSorted(out, files, samples[..|samples| - 1])[last := SortOutcome(files, last).value]
  }

  /** One more turn of the sort loop writes one more sorted file. */
  lemma WriteSortedStep(out: Files, files: Files, samples: seq<string>, i: nat)
    requires i < |samples|
    requires forall j :: 0 <= j <= i ==> SortOutcome(files, samples[j]).Ok?
    ensures forall x :: x in samples[..i] ==> SortOutcome(files, x).Ok?
    ensures forall x :: x in samples[..i + 1] ==> SortOutcome(files, x).Ok?
    ensures WriteSorted(out, files, samples[..i + 1]) ==
      WriteSorted(out, files, samples[..i])[samples[i] := SortOutcome(files, samples[i]).value]
  {
    assert samples[..i + 1][..i] == samples[..i];
  }

  /** After the sort loop, each of `samples` has a sorted file holding its sorted lines. */
  lemma {:induction false} WriteSortedWrites(out: Files, files: Files, samples: seq<string>, s: string)
    requires forall x :: x in samples ==> SortOutcome(files, x).Ok?
    requires s in samples
    ensures s in WriteSorted(out, files, samples)
    ensures WriteSorted(out, files, samples)[s] == SortOutcome(files, s).value
  {
    var init, last := samples[..|samples| - 1], samples[|samples| - 1];
    if s != last {
      assert samples == init + [last];
      assert forall x :: x in init ==> x in samples;
      WriteSortedWrites(out, files, init, s);
    }
  }

  /** The sort loop leaves the sorted files of other names as they were. */
  lemma {:induction false} WriteSortedKeeps(out: Files, files: Files, samples: seq<string>, s: string)
    requires forall x :: x in samples ==> SortOutcome(files, x).Ok?
    requires s !in samples
    ensures s in WriteSorted(out, files, samples) <==> s in out
    ensures Lines(WriteSorted(out, files, samples), s) == Lines(out, s)
  {
    if samples != [] {
      var init := samples[..|samples| - 1];
      assert samples == init + [samples[|samples| - 1]];
      assert forall x :: x in init ==> x in samples;
      WriteSortedKeeps(out, files, init, s);
    }
  }

  /**
   * What the sort loop reports: the samples before the first whose sort
   * raises have their sorted files written, in key order, and the error is that
   * sample's, or there is none when every sample sorts.
   */
  ghost predicate SortReport(out0: Files, out: Files, files: Files, samples: seq<string>, err: Option<Failure>)
  {
    var k := SortableSamples(samples, files);
    (err.None? <==> k == |samples|) &&
    (k < |samples| ==> err == Some(SortOutcome(files, samples[k]).error)) &&
    (forall x :: x in samples[..k] ==> SortOutcome(files, x).Ok?) &&
    out == WriteSorted(out0, files, samples[..k])
  }

  /** The loop stops at `k`, the first sample whose sort raises, or after all of them. */
  lemma SortReportAt(out0: Files, out: Files, files: Files, samples: seq<string>, k: nat, err: Option<Failure>)
    requires k <= |samples|
    requires forall x :: x in samples[..k] ==> SortOutcome(files, x).Ok?
    requires k < |samples| ==> SortOutcome(files, samples[k]).Err? && err == Some(SortOutcome(files, samples[k]).error)
    requires k == |samples| ==> err.None?
    requires out == WriteSorted(out0, files, samples[..k])
    ensures SortReport(out0, out, files, samples, err)
  {
    assert forall j :: 0 <= j < k ==> samples[j] in samples[..k];
    SortableSamplesAt(samples, files, k);
  }

  class BedFiles {
    /** `OUT_DIR/<sample>.unsorted.bed`, by sample. */
    var unsorted: Files
    /** `OUT_DIR/<sample>.sorted.bed`, by sample. */
    var sorted: Files

    constructor (unsorted: Files, sorted: Files)
      ensures this.unsorted == unsorted && this.sorted == sorted
    {
      this.unsorted := unsorted;
      this.sorted := sorted;
    }

    /** `with open(bed_file, 'a') as file: file.write(text)`. */
    method AppendText(sample: string, text: string)
      modifies this
      ensures unsorted == Append(old(unsorted), sample, text)
      ensures sorted == old(sorted)
    {
      unsorted := unsorted[sample := Lines(unsorted, sample) + [text]];
    }

    /**
     * The body of the row loop: read the fixed columns, then append the row's
     * line to each sample's file in key order. A missing column raises
     * IndexError, after the samples before it have been written.
     */
    method WriteRow(index: ColumnIndex, row: seq<string>) returns (err: Option<Failure>)
      requires index.Valid()
      modifies this
      ensures err.None? <==> RowFits(index, row)
      ensures err.Some? ==> err.value == IndexOutOfRange
      ensures unsorted ==
        if err.None? then FanOut(old(unsorted), index, row, |index.samples|)
        else PartialRow(old(unsorted), index, row)
      ensures sorted == old(sorted)
    {
      if |row| <= MapInfoColumn {
        return Some(IndexOutOfRange);
      }
      var k := WriteSamples(index, row);
      if k < |index.samples| {
        return Some(IndexOutOfRange);
      }
      assert RowFits(index, row) by {
        forall s | s in index.column ensures index.column[s] < |row| {
          var j :| 0 <= j < |index.samples| && index.samples[j] == s;
        }
      }
      return None;
    }

    /**
     * The sample loop for a row whose fixed columns exist: it stops at the
     * first sample whose beta column is out of range.
     */
    method WriteSamples(index: ColumnIndex, row: seq<string>) returns (k: nat)
      requires index.Valid() && HasFixedColumns(row)
      modifies this
      ensures k == Reach(index.samples, index.column, |row|)
      ensures unsorted == FanOut(old(unsorted), index, row, k)
      ensures sorted == old(sorted)
    {
      var id, chr, pos := row[TargetIdColumn], row[ChrColumn], row[MapInfoColumn];
      for i := 0 to |index.samples|
        invariant Fits(index, row, i)
        invariant unsorted == FanOut(old(unsorted), index, row, i)
        invariant sorted == old(sorted)
      {
        var sample := index.samples[i];
        var betaColumn := index.column[sample];
        if betaColumn >= |row| {
          ReachAt(index.samples, index.column, |row|, i);
          return i;
        }
        var line := BedLine(chr, pos, id, row[betaColumn]);
        FanOutStep(old(unsorted), index, row, i);
        AppendText(sample, line + "\n");
      }
      ReachAt(index.samples, index.column, |row|, |index.samples|);
      return |index.samples|;
    }

    /** The row loop over all data rows; the first row that raises ends it. */
    method WriteRows(index: ColumnIndex, rows: seq<seq<string>>) returns (err: Option<Failure>)
      requires index.Valid()
      modifies this
      ensures err.None? <==> FittingRows(index, rows) == |rows|
      ensures err.Some? ==> err.value == IndexOutOfRange
      ensures unsorted == WrittenRows(old(unsorted), index, rows)
      ensures sorted == old(sorted)
    {
      for r := 0 to |rows|
        invariant forall i :: 0 <= i < r ==> RowFits(index, rows[i])
        invariant unsorted == FanOutRows(old(unsorted), index, rows[..r])
        invariant sorted == old(sorted)
      {
        err := WriteRow(index, rows[r]);
        if err.Some? {
          FittingRowsAt(index, rows, r);
          return;
        }
        FanOutRowsStep(old(unsorted), index, rows, r);
      }
      FittingRowsAt(index, rows, |rows|);
      assert rows[..|rows|] == rows;
      return None;
    }

    /**
     * The sort loop: for each sample in key order, read its unsorted file,
     * sort the lines and write them to its sorted file. A missing unsorted
     * file or a line without a usable key ends the loop.
     */
    method SortAll(index: ColumnIndex) returns (err: Option<Failure>)
      requires index.Valid()
      modifies this
      ensures SortReport(old(sorted), sorted, unsorted, index.samples, err)
      ensures unsorted == old(unsorted)
    {
      for i := 0 to |index.samples|
        invariant forall x :: x in index.samples[..i] ==> SortOutcome(unsorted, x).Ok?
        invariant sorted == WriteSorted(old(sorted), unsorted, index.samples[..i])
        invariant unsorted == old(unsorted)
      {
        var r := SortSample(index.samples[i]);
        if r.Err? {
          SortReportAt(old(sorted), sorted, unsorted, index.samples, i, Some(r.error));
          return Some(r.error);
        }
        WriteSortedStep(old(sorted), unsorted, index.samples, i);
      }
      SortReportAt(old(sorted), sorted, unsorted, index.samples, |index.samples|, None);
      return None;
    }

    /** Sorts one sample's file and, when every line has a key, writes the result. */
    method SortSample(sample: string) returns (r: Result<seq<string>, Failure>)
      modifies this
      ensures r == SortOutcome(unsorted, sample)
      ensures sorted == if r.Ok? then old(sorted)[sample := r.value] else old(sorted)
      ensures unsorted == old(unsorted)
    {
      r := SortOutcome(unsorted, sample);
      if r.Ok? {
        sorted := sorted[sample := r.value];
      }
    }

    /**
     * The whole script on a table of already-split rows: the first row is the
     * header, the rest are data rows.
     */
    method Convert(table: seq<seq<string>>) returns (index: ColumnIndex, err: Option<Failure>)
      modifies this
      ensures table == [] ==> err == Some(EmptyInput) && unsorted == old(unsorted) && sorted == old(sorted)
      ensures index.Valid()
      ensures table != [] ==> index.samples == FirstOccurrences(BetaNames(table[0]))
      ensures table != [] ==> forall name :: name in index.column ==>
        LastRegistered(table[0], |table[0]|, name, index.column[name])
      ensures table != [] ==> unsorted == WrittenRows(old(unsorted), index, table[1..])
      ensures table != [] && FittingRows(index, table[1..]) < |table| - 1 ==>
        err == Some(IndexOutOfRange) && sorted == old(sorted)
      ensures table != [] && FittingRows(index, table[1..]) == |table| - 1 ==>
        SortReport(old(sorted), sorted, unsorted, index.samples, err)
      ensures err.None? ==> table != [] && forall i :: 1 <= i < |table| ==> RowFits(index, table[i])
      ensures err.None? ==> forall s :: s in index.column ==>
        (forall row :: row in table[1..] ==> HasFixedColumns(row) && index.column[s] < |row|) &&
        s in unsorted && s in sorted &&
        unsorted[s] == Lines(old(unsorted), s) + SampleLines(table[1..], index.column[s]) &&
        SortLines(unsorted[s]) == Ok(sorted[s])
    {
      if table == [] {
        return ColumnIndex([], map[]), Some(EmptyInput);
      }
      var header := table[0];
      index := ScanHeader(header);
      var rows := table[1..];
      err := WriteRows(index, rows);
      if err.Some? {
        return;
      }
      err := SortAll(index);
      if err.None? {
        RunEffect(old(unsorted), old(sorted), index, rows, sorted);
      }
    }
  }

  /**
   * When neither loop raised, each sample's unsorted file is its earlier
   * content followed by one line per row, and its sorted file holds those
   * lines sorted.
   */
  lemma RunEffect(unsorted: Files, sorted: Files, index: ColumnIndex, rows: seq<seq<string>>, out: Files)
    requires index.Valid()
    requires forall i :: 0 <= i < |rows| ==> RowFits(index, rows[i])
    requires SortReport(sorted, out, FanOutRows(unsorted, index, rows), index.samples, None)
    ensures forall s :: s in index.column ==>
      s in FanOutRows(unsorted, index, rows) && s in out &&
      FanOutRows(unsorted, index, rows)[s] == Lines(unsorted, s) + SampleLines(rows, index.column[s]) &&
      SortLines(FanOutRows(unsorted, index, rows)[s]) == Ok(out[s])
  {
    forall s | s in index.column
      ensures s in FanOutRows(unsorted, index, rows) && s in out
      ensures FanOutRows(unsorted, index, rows)[s] == Lines(unsorted, s) + SampleLines(rows, index.column[s])
      ensures SortLines(FanOutRows(unsorted, index, rows)[s]) == Ok(out[s])
    {
      RunEffectAt(unsorted, sorted, index, rows, out, s);
    }
  }

  /** `RunEffect` for one registered sample. */
  lemma RunEffectAt(unsorted: Files, sorted: Files, index: ColumnIndex, rows: seq<seq<string>>, out: Files, s: string)
    requires index.Valid() && s in index.column
    requires forall i :: 0 <= i < |rows| ==> RowFits(index, rows[i])
    requires SortReport(sorted, out, FanOutRows(unsorted, index, rows), index.samples, None)
    ensures s in FanOutRows(unsorted, index, rows) && s in out
    ensures FanOutRows(unsorted, index, rows)[s] == Lines(unsorted, s) + SampleLines(rows, index.column[s])
    ensures SortLines(FanOutRows(unsorted, index, rows)[s]) == Ok(out[s])
  {
    var written := FanOutRows(unsorted, index, rows);
    assert index.samples[..|index.samples|] == index.samples;
    var j :| 0 <= j < |index.samples| && index.samples[j] == s;
    FanOutRowsAppends(unsorted, index, rows, j);
    WriteSortedWrites(sorted, written, index.samples, s);
  }

  /**
   * After a run that raised nothing, each sample's sorted file is a
   * permutation of its unsorted file (the earlier content followed by one line
   * per data row) in key order, lines of equal key keeping their order.
   */
  lemma SortedFileContents(unsorted: seq<string>, sorted: seq<string>, k: SortKey)
    requires SortLines(unsorted) == Ok(sorted)
    ensures multiset(sorted) == multiset(unsorted)
    ensures AllKeyed(unsorted) && AllKeyed(sorted) && LinesSorted(sorted)
    ensures LinesWithKey(sorted, k) == LinesWithKey(unsorted, k)
  {
    SortLinesSound(unsorted);
    SortLinesStable(unsorted, k);
  }
}

/**
 * Per-row fan-out (epic_to_bed.py:34-46): every data row gives one BED line to
 * every registered sample, appended to that sample's unsorted file.
 *
 * The files are a map from sample name to the lines the file holds; a sample
 * that is not a key has no file yet. Each line keeps its "\n", as
 * `readlines()` returns it.
 */
module Fanout {
  import opened Text
  import opened Columns

  /** Fixed column offsets of the methylation profile: TargetID, CHR, MAPINFO. */
  const TargetIdColumn: nat := 1
  const ChrColumn: nat := 163
  const MapInfoColumn: nat := 164
  // The island column (174) is read nowhere: its use is commented out.

  type Files = map<string, seq<string>>

  /** `'\t'.join([chr, pos, pos, id, beta])`: start and end are both `pos`. */
  function BedLine(chr: string, pos: string, id: string, beta: string): (r: string)
  {
    chr + "\t" + pos + "\t" + pos + "\t" + id + "\t" + beta
  }

  /** The concatenation above is the join of the five fields. */
  lemma BedLineIsJoin(chr: string, pos: string, id: string, beta: string)
    ensures BedLine(chr, pos, id, beta) == Join([chr, pos, pos, id, beta], '\t')
  {
    var fields := [chr, pos, pos, id, beta];
    assert Join(fields[3..], '\t') == id + "\t" + beta;
    assert Join(fields[2..], '\t') == pos + "\t" + (id + "\t" + beta);
  }

  /** `row[1]`, `row[163]` and `row[164]` exist. */
  predicate HasFixedColumns(row: seq<string>)
  {
    |row| > MapInfoColumn
  }

  /** What `file.write(line + '\n')` adds for one row and one beta column. */
  function RowText(row: seq<string>, betaColumn: nat): (r: string)
    requires HasFixedColumns(row) && betaColumn < |row|
  {
    BedLine(row[ChrColumn], row[MapInfoColumn], row[TargetIdColumn], row[betaColumn]) + "\n"
  }

  /**
   * When the copied fields hold no tab, the written text splits back into
   * chr, MAPINFO, MAPINFO, TargetID and the beta text (with its "\n"), unparsed.
   */
  lemma RowTextFields(row: seq<string>, betaColumn: nat)
    requires HasFixedColumns(row) && betaColumn < |row|
    requires '\t' !in row[ChrColumn] && '\t' !in row[MapInfoColumn]
    requires '\t' !in row[TargetIdColumn] && '\t' !in row[betaColumn]
    ensures Split(RowText(row, betaColumn), '\t') ==
      [row[ChrColumn], row[MapInfoColumn], row[MapInfoColumn], row[TargetIdColumn], row[betaColumn] + "\n"]
  {
    var chr, pos, id, beta := row[ChrColumn], row[MapInfoColumn], row[TargetIdColumn], row[betaColumn];
    var fields := [chr, pos, pos, id, beta + "\n"];
    assert Join(fields[4..], '\t') == beta + "\n";
    assert Join(fields[3..], '\t') == id + "\t" + (beta + "\n");
    assert Join(fields[2..], '\t') == pos + "\t" + (id + "\t" + (beta + "\n"));
    assert Join(fields[1..], '\t') == pos + "\t" + (pos + "\t" + (id + "\t" + (beta + "\n")));
    assert Join(fields, '\t') == RowText(row, betaColumn);
    SplitJoin(fields, '\t');
  }

  /** The lines a sample's file holds; none when it does not exist. */
  function Lines(files: Files, sample: string): (r: seq<string>)
  {
    if sample in files then files[sample] else []
  }

  /** The files after opening `sample`'s file in append mode and writing `text`. */
  function Append(files: Files, sample: string, text: string): (r: Files)
  {
    files[sample := Lines(files, sample) + [text]]
  }

  /**
   * Appending creates the sample's file if needed and adds `text` as its last
   * line; every other file is left as it was.
   */
  lemma AppendEffect(files: Files, sample: string, text: string, s: string)
    ensures s in Append(files, sample, text) <==> s in files || s == sample
    ensures Lines(Append(files, sample, text), s) ==
      if s == sample then Lines(files, s) + [text] else Lines(files, s)
  {
  }

  /** The first `k` samples' columns exist in `row`, and so do the fixed ones. */
  ghost predicate Fits(index: ColumnIndex, row: seq<string>, k: nat)
  {
    HasFixedColumns(row) && k <= |index.samples| &&
    forall i :: 0 <= i < k ==> index.samples[i] in index.column && index.column[index.samples[i]] < |row|
  }

  /** How many samples, in key order, get their line before `row[beta_col]` fails. */
  function Reach(samples: seq<string>, column: map<string, nat>, width: nat): (k: nat)
    requires forall s :: s in samples ==> s in column
    ensures k <= |samples|
    ensures forall i :: 0 <= i < k ==> column[samples[i]] < width
    ensures k < |samples| ==> column[samples[k]] >= width
  {
    if samples == [] || column[samples[0]] >= width then 0
    else 1 + Reach(samples[1..], column, width)
  }

  /** The reach is the first position whose column is out of range. */
  lemma {:induction false} ReachAt(samples: seq<string>, column: map<string, nat>, width: nat, k: nat)
    requires forall s :: s in samples ==> s in column
    requires k <= |samples|
    requires forall i :: 0 <= i < k ==> column[samples[i]] < width
    requires k < |samples| ==> column[samples[k]] >= width
    ensures Reach(samples, column, width) == k
  {
    if k > 0 {
      assert forall i :: 0 <= i < k - 1 ==> samples[1..][i] == samples[i + 1];
      ReachAt(samples[1..], column, width, k - 1);
    }
  }

  /** The files after the first `k` iterations of the sample loop for `row`. */
  function FanOut(files: Files, index: ColumnIndex, row: seq<string>, k: nat): (r: Files)
    requires Fits(index, row, k)
  {
    if k == 0 then files
    else
      var sample := index.samples[k - 1];
      Append(FanOut(files, index, row, k - 1), sample, RowText(row, index.column[sample]))
  }

  /** One more turn of the sample loop appends the next sample's line. */
  lemma FanOutStep(files: Files, index: ColumnIndex, row: seq<string>, i: nat)
    requires index.Valid() && Fits(index, row, i) && i < |index.samples|
    requires index.column[index.samples[i]] < |row|
    ensures Fits(index, row, i + 1)
    ensures FanOut(files, index, row, i + 1) ==
      Append(FanOut(files, index, row, i), index.samples[i], RowText(row, index.column[index.samples[i]]))
  {
  }

  /** Each of the first `k` samples gained exactly the row's line, at the end. */
  lemma {:induction false} FanOutAppends(files: Files, index: ColumnIndex, row: seq<string>, k: nat, j: nat)
    requires Distinct(index.samples) && Fits(index, row, k) && j < k
    ensures index.samples[j] in FanOut(files, index, row, k)
    ensures Lines(FanOut(files, index, row, k), index.samples[j]) ==
      Lines(files, index.samples[j]) + [RowText(row, index.column[index.samples[j]])]
  {
    var prev := FanOut(files, index, row, k - 1);
    var sample := index.samples[k - 1];
    var text := RowText(row, index.column[sample]);
    assert FanOut(files, index, row, k) == Append(prev, sample, text);
    AppendEffect(prev, sample, text, index.samples[j]);
    if j < k - 1 {
      FanOutAppends(files, index, row, k - 1, j);
      assert index.samples[j] != sample;
    } else {
      FanOutKeeps(files, index, row, k - 1, sample);
    }
  }

  /** Every file but those of the first `k` samples is as it was; none was created. */
  lemma {:induction false} FanOutKeeps(files: Files, index: ColumnIndex, row: seq<string>, k: nat, s: string)
    requires Fits(index, row, k)
    requires forall i :: 0 <= i < k ==> index.samples[i] != s
    ensures s in FanOut(files, index, row, k) <==> s in files
    ensures Lines(FanOut(files, index, row, k), s) == Lines(files, s)
  {
    if k > 0 {
      var prev := FanOut(files, index, row, k - 1);
      var sample := index.samples[k - 1];
      var text := RowText(row, index.column[sample]);
      FanOutKeeps(files, index, row, k - 1, s);
      assert FanOut(files, index, row, k) == Append(prev, sample, text);
      AppendEffect(prev, sample, text, s);
    }
  }

  /** Every registered column exists in `row`, and so do the fixed ones. */
  ghost predicate RowFits(index: ColumnIndex, row: seq<string>)
  {
    HasFixedColumns(row) && forall s :: s in index.column ==> index.column[s] < |row|
  }

  lemma RowFitsAllSamples(index: ColumnIndex, row: seq<string>)
    requires index.Valid() && RowFits(index, row)
    ensures Fits(index, row, |index.samples|)
  {
  }

  /** The files after the whole sample loop has run for each of `rows` in turn. */
  function FanOutRows(files: Files, index: ColumnIndex, rows: seq<seq<string>>): (r: Files)
    requires index.Valid()
    requires forall i :: 0 <= i < |rows| ==> RowFits(index, rows[i])
  {
    if rows == [] then files
    else
      var last := |rows| - 1;
      PrefixRowsFit(index, rows, last);
      RowFitsAllSamples(index, rows[last]);
      FanOut(FanOutRows(files, index, rows[..last]), index, rows[last], |index.samples|)
  }

  lemma PrefixRowsFit(index: ColumnIndex, rows: seq<seq<string>>, n: nat)
    requires n <= |rows|
    requires forall i :: 0 <= i < n ==> RowFits(index, rows[i])
    ensures forall i :: 0 <= i < n ==> RowFits(index, rows[..n][i])
  {
    assert forall i :: 0 <= i < n ==> rows[..n][i] == rows[i];
  }

  /** Rows that fit every registered column fit the column of any one sample. */
  lemma RowsReachColumn(index: ColumnIndex, rows: seq<seq<string>>, s: string)
    requires s in index.column
    requires forall i :: 0 <= i < |rows| ==> RowFits(index, rows[i])
    ensures forall i :: 0 <= i < |rows| ==> HasFixedColumns(rows[i]) && index.column[s] < |rows[i]|
  {
  }

  /** The lines one beta column contributes, one per row in row order. */
  function SampleLines(rows: seq<seq<string>>, betaColumn: nat): (lines: seq<string>)
    requires forall i :: 0 <= i < |rows| ==> HasFixedColumns(rows[i]) && betaColumn < |rows[i]|
    ensures |lines| == |rows|
    ensures forall i :: 0 <= i < |rows| ==> lines[i] == RowText(rows[i], betaColumn)
  {
    if rows == [] then []
    else SampleLines(rows[..|rows| - 1], betaColumn) + [RowText(rows[|rows| - 1], betaColumn)]
  }

  /**
   * After all rows, a registered sample's file holds what it held before
   * followed by one line per row, in row order, and it exists if any row was read.
   */
  lemma {:induction false} FanOutRowsAppends(files: Files, index: ColumnIndex, rows: seq<seq<string>>, j: nat)
    requires index.Valid() && j < |index.samples|
    requires forall i :: 0 <= i < |rows| ==> RowFits(index, rows[i])
    ensures var s := index.samples[j];
      (s in FanOutRows(files, index, rows) <==> s in files || |rows| > 0) &&
      Lines(FanOutRows(files, index, rows), s) == Lines(files, s) + SampleLines(rows, index.column[s])
  {
    if rows != [] {
      var s := index.samples[j];
      var last := |rows| - 1;
      var init := rows[..last];
      PrefixRowsFit(index, rows, last);
      FanOutRowsAppends(files, index, init, j);
      RowFitsAllSamples(index, rows[last]);
      var before := FanOutRows(files, index, init);
      FanOutAppends(before, index, rows[last], |index.samples|, j);
      RowsReachColumn(index, rows, s);
      RowsReachColumn(index, init, s);
      var c := index.column[s];
      var text := RowText(rows[last], c);
      assert SampleLines(rows, c) == SampleLines(init, c) + [text];
      assert Lines(files, s) + SampleLines(init, c) + [text] ==
        Lines(files, s) + (SampleLines(init, c) + [text]);
    }
  }

  /** After all rows, the file of a name that is not a registered sample is untouched. */
  lemma {:induction false} FanOutRowsKeeps(files: Files, index: ColumnIndex, rows: seq<seq<string>>, s: string)
    requires index.Valid() && s !in index.column
    requires forall i :: 0 <= i < |rows| ==> RowFits(index, rows[i])
    ensures s in FanOutRows(files, index, rows) <==> s in files
    ensures Lines(FanOutRows(files, index, rows), s) == Lines(files, s)
  {
    if rows != [] {
      var last := |rows| - 1;
      PrefixRowsFit(index, rows, last);
      FanOutRowsKeeps(files, index, rows[..last], s);
      RowFitsAllSamples(index, rows[last]);
      FanOutKeeps(FanOutRows(files, index, rows[..last]), index, rows[last], |index.samples|, s);
    }
  }
}

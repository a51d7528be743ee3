/**
 * Sample-column discovery (epic_to_bed.py:14-20): one pass over the header row
 * registers every column whose header holds "AVG_Beta" under the sample name
 * in front of the first ".", later columns overwriting earlier ones.
 */
module Columns {
  import opened Text

  /** The marker that tells a per-sample beta column. */
  const BetaMarker: string := "AVG_Beta"

  predicate IsBetaHeader(header: string)
  {
    Contains(header, BetaMarker)
  }

  /**
   * `value.split(".")[0]`: the header text up to, not including, the first
   * "."; the whole header when it has no ".".
   */
  function SampleName(header: string): (name: string)
    ensures name <= header && '.' !in name
    ensures |name| < |header| ==> header[|name|] == '.'
    ensures |name| == |header| <==> '.' !in header
  {
    SplitSound(header, '.');
    Split(header, '.')[0]
  }

  /** A header holding the marker is a beta column wherever the marker sits. */
  lemma MarkerAnywhere(before: string, after: string)
    ensures IsBetaHeader(before + BetaMarker + after)
  {
    assert OccursAt(before + BetaMarker + after, BetaMarker, |before|);
  }

  /** Beta and non-beta headers as they appear in a methylation profile. */
  lemma BetaHeaderExamples()
    ensures IsBetaHeader("R01C01.AVG_Beta")
    ensures IsBetaHeader("AVG_Beta")
    ensures !IsBetaHeader("R01C01.Detection Pval")
    ensures !IsBetaHeader("AVG_Bet")
  {
    assert OccursAt("R01C01.AVG_Beta", BetaMarker, 7);
    assert OccursAt("AVG_Beta", BetaMarker, 0);
    MissingFirstCharacter("R01C01.Detection Pval", BetaMarker);
  }

  /** No name occurs twice. */
  predicate Distinct(names: seq<string>)
  {
    forall i, j :: 0 <= i < j < |names| ==> names[i] != names[j]
  }

  /**
   * The dictionary `beta_columns`: its keys in insertion order (the order in
   * which `.items()` visits them) and the column index stored for each key.
   */
  datatype ColumnIndex = ColumnIndex(samples: seq<string>, column: map<string, nat>)
  {
    ghost predicate Valid()
    {
      Distinct(samples) && forall s :: s in column <==> s in samples
    }
  }

  /** Column `i` of the header registers the sample `name`. */
  ghost predicate Registers(header: seq<string>, i: int, name: string)
  {
    0 <= i < |header| && IsBetaHeader(header[i]) && SampleName(header[i]) == name
  }

  lemma RegistersInPrefix(header: seq<string>, n: nat)
    requires n <= |header|
    ensures forall i, name :: Registers(header[..n], i, name) <==> i < n && Registers(header, i, name)
  {
  }

  /** The sample names of the beta columns, in header order, repeats kept. */
  function BetaNames(header: seq<string>): (names: seq<string>)
  {
    if header == [] then []
    else
      var init := BetaNames(header[..|header| - 1]);
      var last := header[|header| - 1];
      if IsBetaHeader(last) then init + [SampleName(last)] else init
  }

  /** A name is among `BetaNames(header)` exactly when some column registers it. */
  lemma {:induction false} BetaNamesRegistered(header: seq<string>, name: string)
    ensures name in BetaNames(header) <==> exists i :: Registers(header, i, name)
  {
    if header != [] {
      var n := |header| - 1;
      BetaNamesRegistered(header[..n], name);
      RegistersInPrefix(header, n);
      if Registers(header, n, name) {
        assert name in BetaNames(header);
      }
      if i :| Registers(header, i, name) {
        if i < n {
          assert Registers(header[..n], i, name);
        }
      }
    }
  }

  /**
   * The distinct elements of `names`, each where it first occurs: the key
   * order of a Python dict that has been assigned `names` in turn.
   */
  function FirstOccurrences(names: seq<string>): (keys: seq<string>)
    ensures forall x :: x in keys <==> x in names
    ensures Distinct(keys)
  {
    if names == [] then []
    else
      var keys := FirstOccurrences(names[..|names| - 1]);
      var last := names[|names| - 1];
      if last in keys then keys else keys + [last]
  }

  /**
   * Of two keys, the earlier one in `FirstOccurrences(names)` occurs in
   * `names` before any occurrence of the later one.
   */
  lemma {:induction false} FirstOccurrencesOrder(names: seq<string>, i: int, j: int, q: int)
    requires 0 <= i < j < |FirstOccurrences(names)|
    requires 0 <= q < |names| && names[q] == FirstOccurrences(names)[j]
    ensures FirstOccurrences(names)[i] in names[..q]
  {
    var init := names[..|names| - 1];
    var keys := FirstOccurrences(init);
    var last := names[|names| - 1];
    if j < |keys| {
      if q < |names| - 1 {
        FirstOccurrencesOrder(init, i, j, q);
        assert init[..q] == names[..q];
      } else {
        assert last == keys[j];
        assert keys[j] in init;
        var q' :| 0 <= q' < |init| && init[q'] == keys[j];
        FirstOccurrencesOrder(init, i, j, q');
        assert init[..q'] <= names[..q];
      }
    } else {
      assert FirstOccurrences(names) == keys + [last];
      assert FirstOccurrences(names)[i] == keys[i];
      assert keys[i] in init;
      if q < |names| - 1 {
        assert false;
      }
      assert names[..q] == init;
    }
  }

  /** Of the first `n` columns, `c` is the last one to register `name`. */
  ghost predicate LastRegistered(header: seq<string>, n: int, name: string, c: int)
  {
    c < n && Registers(header, c, name) && forall j :: c < j < n ==> !Registers(header, j, name)
  }

  /** Extending the scanned prefix by column `i` keeps or replaces each name's last column. */
  lemma LastRegisteredStep(header: seq<string>, i: nat, name: string, c: int)
    requires i < |header|
    ensures Registers(header, i, name) ==> LastRegistered(header, i + 1, name, i)
    ensures !Registers(header, i, name) && LastRegistered(header, i, name, c) ==>
      LastRegistered(header, i + 1, name, c)
  {
  }

  /**
   * The header scan: for each column, in order, a header holding "AVG_Beta"
   * sets `beta_columns[SampleName(header)]` to the column index.
   */
  method ScanHeader(header: seq<string>) returns (index: ColumnIndex)
    ensures index.Valid()
    ensures index.samples == FirstOccurrences(BetaNames(header))
    ensures forall name :: name in index.column <==> exists i :: Registers(header, i, name)
    ensures forall name :: name in index.column ==> LastRegistered(header, |header|, name, index.column[name])
  {
    var samples: seq<string> := [];
    var column: map<string, nat> := map[];
    for i := 0 to |header|
      invariant samples == FirstOccurrences(BetaNames(header[..i]))
      invariant forall name :: name in column <==> name in samples
      invariant forall name :: name in column ==> LastRegistered(header, i, name, column[name])
    {
      assert header[..i + 1][..i] == header[..i];
      ghost var prev := column;
      if IsBetaHeader(header[i]) {
        var name := SampleName(header[i]);
        assert BetaNames(header[..i + 1]) == BetaNames(header[..i]) + [name];
        if name !in column {
          samples := samples + [name];
        }
        column := column[name := i];
      }
      forall name | name in column ensures LastRegistered(header, i + 1, name, column[name]) {
        LastRegisteredStep(header, i, name, if name in prev then prev[name] else i);
      }
    }
    assert header[..|header|] == header;
    forall name ensures name in column <==> exists i :: Registers(header, i, name) {
      BetaNamesRegistered(header, name);
    }
    index := ColumnIndex(samples, column);
  }
}

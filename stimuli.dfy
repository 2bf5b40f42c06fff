/** `load_trials_from_csv`: the rows of the stimulus manifest are filtered down to those whose
    emotion, after `strip().lower()`, is `happy` or `sad`; the emotion cell of each kept row is
    rewritten to that normalised value, and an empty result is an error. Reading the CSV file is
    not modelled: the rows `data.importConditions` would give, and whether the file exists, are
    parameters. */
module Stimuli {
  import opened Text
  import opened Wrappers

  /** One manifest row as a dictionary from column name to cell text. */
  type Row = map<string, string>

  /** `row.get(key, "")`. */
  function Get(row: Row, key: string): string {
    if key in row then row[key] else ""
  }

  /** `str(row.get("emotion", "")).strip().lower()`. */
  function NormEmotion(row: Row): string {
    Lower(Strip(Get(row, "emotion")))
  }

  predicate IsTaskEmotion(e: string) {
    e == "happy" || e == "sad"
  }

  predicate IsUsable(row: Row) {
    IsTaskEmotion(NormEmotion(row))
  }

  /** `row["emotion"] = emo`: a kept row keeps every column and every other cell. */
  function Normalized(row: Row): (r: Row)
    requires IsUsable(row)
    ensures r.Keys == row.Keys
    ensures Get(r, "emotion") == NormEmotion(row)
    ensures forall k :: k in row && k != "emotion" ==> r[k] == row[k]
  {
    row["emotion" := NormEmotion(row)]
  }

  /** The rows the loop keeps from `table`, normalised, in input order. */
  function Usable(table: seq<Row>): (r: seq<Row>)
    ensures |r| <= |table|
  {
    if table == [] then []
    else
      var last := table[|table| - 1];
      Usable(table[..|table| - 1]) + (if IsUsable(last) then [Normalized(last)] else [])
  }

  datatype LoadError = CsvNotFound(path: string) | NoUsableRows

  method LoadTrials(csvPath: string, csvExists: bool, table: seq<Row>) returns (r: Result<seq<Row>, LoadError>)
    ensures !csvExists ==> r == Err(CsvNotFound(csvPath))
    ensures csvExists && Usable(table) == [] ==> r == Err(NoUsableRows)
    ensures csvExists && Usable(table) != [] ==> r == Ok(Usable(table))
  {
    if !csvExists {
      return Err(CsvNotFound(csvPath));
    }
    var rows: seq<Row> := [];
    var i := 0;
    while i < |table|
      invariant 0 <= i <= |table|
      invariant rows == Usable(table[..i])
    {
      var row := table[i];
      var emo := NormEmotion(row);
      UsableStep(table, i);
      if IsTaskEmotion(emo) {
        row := row["emotion" := emo];
        rows := rows + [row];
      }
      i := i + 1;
    }
    assert table[..|table|] == table;
    if rows == [] {
      return Err(NoUsableRows);
    }
    return Ok(rows);
  }

  lemma UsableStep(table: seq<Row>, i: nat)
    requires i < |table|
    ensures Usable(table[..i + 1]) ==
            Usable(table[..i]) + (if IsUsable(table[i]) then [table[i]["emotion" := NormEmotion(table[i])]] else [])
  {
    assert table[..i + 1][..i] == table[..i];
  }

  // ---------------------------------------------------------------------------
  // Properties of the filter.

  lemma NormalizedIsNormal(row: Row)
    requires IsUsable(row)
    ensures IsUsable(Normalized(row))
    ensures NormEmotion(Normalized(row)) == NormEmotion(row)
    ensures Normalized(Normalized(row)) == Normalized(row)
  {
    var e := NormEmotion(row);
    assert Get(Normalized(row), "emotion") == e;
    if e == "happy" {
      NormalFormFixed("happy");
    } else {
      NormalFormFixed("sad");
    }
  }

  /** Loading distributes over concatenation: rows are kept in input order. */
  lemma {:induction false} UsableAppend(a: seq<Row>, b: seq<Row>)
    ensures Usable(a + b) == Usable(a) + Usable(b)
    decreases |b|
  {
    if b == [] {
      assert a + b == a;
    } else {
      var init := b[..|b| - 1];
      assert (a + b)[..|a + b| - 1] == a + init;
      assert (a + b)[|a + b| - 1] == b[|b| - 1];
      UsableAppend(a, init);
    }
  }

  /** Every usable input row reaches the result, normalised. */
  lemma {:induction false} UsableKeeps(table: seq<Row>, i: nat)
    requires i < |table| && IsUsable(table[i])
    ensures Normalized(table[i]) in Usable(table)
  {
    var init := table[..|table| - 1];
    if i < |table| - 1 {
      assert init[i] == table[i];
      UsableKeeps(init, i);
    }
  }

  /** Every row of the result is the normalised form of a usable input row. */
  lemma {:induction false} UsableOrigin(table: seq<Row>, row: Row) returns (i: nat)
    requires row in Usable(table)
    ensures i < |table| && IsUsable(table[i]) && row == Normalized(table[i])
  {
    var init, last := table[..|table| - 1], table[|table| - 1];
    var tail := if IsUsable(last) then [Normalized(last)] else [];
    assert Usable(table) == Usable(init) + tail;
    if row in Usable(init) {
      i := UsableOrigin(init, row);
      assert init[i] == table[i];
    } else {
      assert row in tail;
      i := |table| - 1;
    }
  }

  /** A row is in the result exactly when it is the normalised form of a usable input row. */
  lemma UsableMembers(table: seq<Row>, row: Row)
    ensures row in Usable(table) <==>
            exists i :: 0 <= i < |table| && IsUsable(table[i]) && row == Normalized(table[i])
  {
    if row in Usable(table) {
      var i := UsableOrigin(table, row);
    }
    forall i | 0 <= i < |table| && IsUsable(table[i]) && row == Normalized(table[i])
      ensures row in Usable(table)
    {
      UsableKeeps(table, i);
    }
  }

  /** Every kept row carries a normalised task emotion. */
  lemma {:induction false} UsableEmotions(table: seq<Row>)
    ensures forall i :: 0 <= i < |Usable(table)| ==>
              IsTaskEmotion(Get(Usable(table)[i], "emotion")) && NormEmotion(Usable(table)[i]) == Get(Usable(table)[i], "emotion")
  {
    if table != [] {
      var init := table[..|table| - 1];
      var last := table[|table| - 1];
      UsableEmotions(init);
      if IsUsable(last) {
        NormalizedIsNormal(last);
        var r := Usable(table);
        assert r == Usable(init) + [Normalized(last)];
        forall i | 0 <= i < |r|
          ensures IsTaskEmotion(Get(r[i], "emotion")) && NormEmotion(r[i]) == Get(r[i], "emotion")
        {
          if i < |Usable(init)| {
            assert r[i] == Usable(init)[i];
          } else {
            assert r[i] == Normalized(last);
          }
        }
      }
    }
  }

  /** Loading an already loaded table changes nothing. */
  lemma {:induction false} UsableIdempotent(table: seq<Row>)
    ensures Usable(Usable(table)) == Usable(table)
  {
    if table != [] {
      var init := table[..|table| - 1];
      var last := table[|table| - 1];
      UsableIdempotent(init);
      var tail := if IsUsable(last) then [Normalized(last)] else [];
      UsableAppend(Usable(init), tail);
      if IsUsable(last) {
        NormalizedIsNormal(last);
        assert Usable(tail) == Usable([]) + [Normalized(Normalized(last))];
      }
    }
  }
}

/**
 * The frequency tables of make-lingo, as `loadData` builds them (index.js:7-27).
 *
 * Each spreadsheet range yields rows with a `Frequency` column and one value column
 * (`Syllable` in range A:B, `SyllablesPerWord` in range D:E). Rows missing either cell,
 * or whose cell holds the falsy value of its type, are dropped; the survivors are split
 * into two parallel lists, the values and their weights.
 */
module Tables {

  datatype Option<+T> = None | Some(value: T)

  /** One spreadsheet row: the `Frequency` cell and the value cell, each possibly absent. */
  datatype Row<V> = Row(frequency: Option<nat>, value: Option<V>)

  /**
   * The row filter: both cells present and neither holding its type's falsy value
   * (`blank` is "" for the text column and 0 for the numeric one; a frequency of 0 is falsy).
   */
  predicate Usable<V(==)>(row: Row<V>, blank: V): (ok: bool)
    ensures row.frequency.None? || row.value.None? ==> !ok
    ensures row.frequency == Some(0) || row.value == Some(blank) ==> !ok
    ensures ok ==> row.frequency.Some? && row.frequency.value > 0
    ensures row.frequency.Some? && row.frequency.value > 0 && row.value.Some? && row.value.value != blank ==> ok
  {
    && row.frequency.Some? && row.frequency.value != 0
    && row.value.Some? && row.value.value != blank
  }

  /** The rows that pass the filter, in their original order. */
  function KeepUsable<V(==)>(rows: seq<Row<V>>, blank: V): (kept: seq<Row<V>>)
    ensures |kept| <= |rows|
    ensures forall k :: 0 <= k < |kept| ==> kept[k] in rows && Usable(kept[k], blank)
    ensures forall i :: 0 <= i < |rows| && Usable(rows[i], blank) ==> rows[i] in kept
  {
    if rows == [] then []
    else
      var last := rows[|rows| - 1];
      assert rows == rows[..|rows| - 1] + [last];
      KeepUsable(rows[..|rows| - 1], blank) + (if Usable(last, blank) then [last] else [])
  }

  /** The positions of the rows that pass the filter, in increasing order. */
  function KeptIndices<V(==)>(rows: seq<Row<V>>, blank: V): seq<nat>
  {
    if rows == [] then []
    else
      KeptIndices(rows[..|rows| - 1], blank)
      + (if Usable(rows[|rows| - 1], blank) then [|rows| - 1] else [])
  }

  /** Every kept position is a position of `rows`, and the positions strictly increase. */
  lemma {:induction false} KeptIndicesIncrease<V>(rows: seq<Row<V>>, blank: V)
    ensures forall k :: 0 <= k < |KeptIndices(rows, blank)| ==> KeptIndices(rows, blank)[k] < |rows|
    ensures forall k, l :: 0 <= k < l < |KeptIndices(rows, blank)| ==>
              KeptIndices(rows, blank)[k] < KeptIndices(rows, blank)[l]
  {
    if rows != [] {
      var n := |rows|;
      KeptIndicesIncrease(rows[..n - 1], blank);
      var idx0, idx := KeptIndices(rows[..n - 1], blank), KeptIndices(rows, blank);
      assert forall k :: 0 <= k < |idx0| ==> idx0[k] < n - 1;
      assert idx == idx0 + (if Usable(rows[n - 1], blank) then [n - 1] else []);
      assert forall k :: 0 <= k < |idx0| ==> idx[k] == idx0[k];
      forall k, l | 0 <= k < l < |idx|
        ensures idx[k] < idx[l]
      {
        if l == |idx0| {
          assert idx[k] == idx0[k] < n - 1 == idx[l];
        }
      }
    }
  }

  /** The k-th kept row is the row at the k-th kept position. */
  lemma {:induction false} KeptRowsAtKeptIndices<V>(rows: seq<Row<V>>, blank: V)
    ensures |KeptIndices(rows, blank)| == |KeepUsable(rows, blank)|
    ensures forall k :: 0 <= k < |KeptIndices(rows, blank)| ==>
              KeptIndices(rows, blank)[k] < |rows| && KeepUsable(rows, blank)[k] == rows[KeptIndices(rows, blank)[k]]
  {
    if rows != [] {
      var n := |rows|;
      var init := rows[..n - 1];
      KeptRowsAtKeptIndices(init, blank);
      KeptIndicesIncrease(init, blank);
      var kept0, idx0 := KeepUsable(init, blank), KeptIndices(init, blank);
      assert forall k :: 0 <= k < |idx0| ==> rows[idx0[k]] == init[idx0[k]];
    }
  }

  /** A position is kept iff the row there is usable. */
  lemma {:induction false} KeptIndicesExact<V>(rows: seq<Row<V>>, blank: V)
    ensures forall i :: 0 <= i < |rows| ==> (i in KeptIndices(rows, blank) <==> Usable(rows[i], blank))
  {
    if rows != [] {
      var n := |rows|;
      var init := rows[..n - 1];
      KeptIndicesExact(init, blank);
      KeptIndicesIncrease(init, blank);
      var idx0 := KeptIndices(init, blank);
      assert n - 1 !in idx0;
      forall i | 0 <= i < n - 1
        ensures i in KeptIndices(rows, blank) <==> Usable(rows[i], blank)
      {
        assert rows[i] == init[i];
      }
    }
  }

  /**
   * The filter keeps exactly the usable rows, in order: the k-th kept row is the row at the
   * k-th kept position, the positions strictly increase, and a position is kept iff its row is usable.
   */
  lemma {:induction false} KeepUsableIsSubsequence<V>(rows: seq<Row<V>>, blank: V)
    ensures var kept, idx := KeepUsable(rows, blank), KeptIndices(rows, blank);
      && |idx| == |kept|
      && (forall k :: 0 <= k < |idx| ==> idx[k] < |rows| && kept[k] == rows[idx[k]])
      && (forall k, l :: 0 <= k < l < |idx| ==> idx[k] < idx[l])
      && (forall i :: 0 <= i < |rows| ==> (i in idx <==> Usable(rows[i], blank)))
  {
    KeptIndicesIncrease(rows, blank);
    KeptRowsAtKeptIndices(rows, blank);
    KeptIndicesExact(rows, blank);
  }

  /** The two parallel lists of `_.map(data, column)`: the values and the weights. */
  function Clean<V(==)>(rows: seq<Row<V>>, blank: V): (columns: (seq<V>, seq<nat>))
    ensures |columns.0| == |columns.1|
    ensures forall k :: 0 <= k < |columns.0| ==> columns.0[k] != blank && columns.1[k] > 0
  {
    var kept := KeepUsable(rows, blank);
    (seq(|kept|, k requires 0 <= k < |kept| => kept[k].value.value),
     seq(|kept|, k requires 0 <= k < |kept| => kept[k].frequency.value))
  }

  /**
   * Entry k of both lists comes from the same row, the k-th usable one, so the lists are aligned
   * index by index; their length is the number of usable rows and no usable row is lost.
   */
  lemma {:induction false} CleanKeepsExactlyUsableRows<V>(rows: seq<Row<V>>, blank: V)
    ensures var columns, idx := Clean(rows, blank), KeptIndices(rows, blank);
      && |columns.0| == |columns.1| == |idx|
      && (forall k :: 0 <= k < |idx| ==>
            && idx[k] < |rows|
            && rows[idx[k]].value == Some(columns.0[k])
            && rows[idx[k]].frequency == Some(columns.1[k]))
      && (forall k, l :: 0 <= k < l < |idx| ==> idx[k] < idx[l])
      && (forall i :: 0 <= i < |rows| ==> (i in idx <==> Usable(rows[i], blank)))
  {
    KeepUsableIsSubsequence(rows, blank);
  }

  /** What `loadData` resolves to: four lists, two parallel pairs (index.js:26). */
  datatype LingoData = LingoData(
    syllables: seq<string>,
    frequencies: seq<nat>,
    syllableCounts: seq<nat>,
    syllableCountFrequencies: seq<nat>)
  {
    /** Each value list is as long as its weight list. */
    predicate Valid() {
      |syllables| == |frequencies| && |syllableCounts| == |syllableCountFrequencies|
    }
  }

  /** Builds the data from the rows of the two ranges, A:B (syllables) and D:E (syllables per word). */
  function LoadData(syllableRows: seq<Row<string>>, countRows: seq<Row<nat>>): (data: LingoData)
    ensures data.Valid()
    ensures forall k :: 0 <= k < |data.syllables| ==> data.syllables[k] != "" && data.frequencies[k] > 0
    ensures forall k :: 0 <= k < |data.syllableCounts| ==>
              data.syllableCounts[k] > 0 && data.syllableCountFrequencies[k] > 0
  {
    var (syllables, frequencies) := Clean(syllableRows, "");
    var (syllableCounts, syllableCountFrequencies) := Clean(countRows, 0);
    LingoData(syllables, frequencies, syllableCounts, syllableCountFrequencies)
  }
}

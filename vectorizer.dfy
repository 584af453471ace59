/**
 * The feature vectorizer: turns a sparse, unordered map from feature name to
 * value into the dense row the model expects, laid out by the ordered schema.
 */
module Vectorizer {

  /** One entry of a feature row: a value, or the missing sentinel (NaN in the source). */
  datatype Cell = Missing | Value(v: real)

  /** The entry the vectorizer writes for feature `name`. */
  function Lookup(features: map<string, real>, name: string): Cell {
    if name in features then Value(features[name]) else Missing
  }

  /** The dense row for `features`, one entry per schema position. */
  function Vectorized(schema: seq<string>, features: map<string, real>): (row: seq<Cell>)
    ensures |row| == |schema|
  {
    if schema == [] then [] else [Lookup(features, schema[0])] + Vectorized(schema[1..], features)
  }

  /** Position `i` of the row is governed by `schema[i]` alone. */
  lemma {:induction false} VectorizedAt(schema: seq<string>, features: map<string, real>, i: int)
    requires 0 <= i < |schema|
    ensures Vectorized(schema, features)[i] == Lookup(features, schema[i])
    ensures schema[i] in features ==> Vectorized(schema, features)[i] == Value(features[schema[i]])
    ensures schema[i] !in features ==> Vectorized(schema, features)[i] == Missing
  {
    if i > 0 {
      VectorizedAt(schema[1..], features, i - 1);
    }
  }

  /** Names outside the schema never affect the row. */
  lemma {:induction false} UnknownNamesIgnored(schema: seq<string>, features: map<string, real>, extra: map<string, real>)
    requires forall k :: k in extra ==> k !in schema
    ensures Vectorized(schema, features + extra) == Vectorized(schema, features)
  {
    if schema != [] {
      assert schema[0] !in extra;
      UnknownNamesIgnored(schema[1..], features, extra);
    }
  }

  /** An empty map is accepted and yields an all-missing row. */
  lemma {:induction false} EmptyMapAllMissing(schema: seq<string>)
    ensures forall i :: 0 <= i < |schema| ==> Vectorized(schema, map[])[i] == Missing
  {
    forall i | 0 <= i < |schema| ensures Vectorized(schema, map[])[i] == Missing {
      VectorizedAt(schema, map[], i);
    }
  }

  /** Schema [a, b, c] and map {c: 3, a: 1} give [1, missing, 3]: layout follows the schema. */
  lemma SchemaOrderExample()
    ensures Vectorized(["a", "b", "c"], map["c" := 3.0, "a" := 1.0]) == [Value(1.0), Missing, Value(3.0)]
  {
  }

  /**
   * `_prepare_features`: fill a fresh array of schema length position by
   * position, then hand it back reshaped as a matrix with a single row.
   */
  method PrepareFeatures(schema: seq<string>, features: map<string, real>) returns (x: seq<seq<Cell>>)
    ensures |x| == 1 && |x[0]| == |schema|
    ensures forall i :: 0 <= i < |schema| && schema[i] in features ==> x[0][i] == Value(features[schema[i]])
    ensures forall i :: 0 <= i < |schema| && schema[i] !in features ==> x[0][i] == Missing
    ensures x == [Vectorized(schema, features)]
  {
    var row := new Cell[|schema|](_ => Value(0.0));
    for i := 0 to |schema|
      invariant forall k :: 0 <= k < i ==> row[k] == Lookup(features, schema[k])
    {
      if schema[i] in features {
        row[i] := Value(features[schema[i]]);
      } else {
        row[i] := Missing;
      }
    }
    forall k | 0 <= k < |schema| ensures row[k] == Vectorized(schema, features)[k] {
      VectorizedAt(schema, features, k);
    }
    assert row[..] == Vectorized(schema, features);
    x := [row[..]];
  }
}

/** The preprocessing block of the `/predict` handler: the posted JSON object
    of clinical fields becomes one feature row whose columns are exactly the
    model's columns, in the model's order. */
module RequestEncoding {
  import opened JsonValues

  /** The categorical request fields that are one-hot encoded, in the order
      the handler processes them. */
  const CategoricalFields: seq<string> :=
    ["Sex", "ChestPainType", "RestingECG", "ExerciseAngina", "ST_Slope"]

  /** The value a model column starts with, and the value a one-hot column is set to. */
  const Zero: Value := Num(0.0)
  const One: Value := Num(1.0)

  /** Raised when a categorical field holds something other than a string:
      `'<field>_' + value` fails, and the handler answers 400. */
  datatype EncodeError = CategoryNotText(field: string)

  /** The column named `<field>_<category>`. */
  function OneHotName(field: string, category: string): string {
    field + "_" + category
  }

  /** The one-hot columns the request switches on: one per categorical field
      present with a string value. */
  function OneHotColumns(data: map<string, Value>): set<string> {
    set f | f in CategoricalFields && f in data && data[f].Str? :: OneHotName(f, data[f].s)
  }

  /** Some field among `fields` is present with a non-string value. */
  predicate HasNonTextCategory(fields: seq<string>, data: map<string, Value>) {
    exists k :: 0 <= k < |fields| && fields[k] in data && !data[fields[k]].Str?
  }

  /** The one-row input frame after the one-hot assignments: each field of
      `fields` present in `data` adds (or overwrites) its `<field>_<value>`
      column with 1, in the order of `fields`; the first non-string value
      aborts. */
  function AddOneHots(fields: seq<string>, data: map<string, Value>, frame: map<string, Value>)
    : Result<map<string, Value>, EncodeError>
    decreases |fields|
  {
    if fields == [] then Ok(frame)
    else if fields[0] !in data then AddOneHots(fields[1..], data, frame)
    else match data[fields[0]]
      case Str(category) => AddOneHots(fields[1..], data, frame[OneHotName(fields[0], category) := One])
      case _ => Err(CategoryNotText(fields[0]))
  }

  /** The zero-filled row over `columns` with every column the frame holds copied in. */
  function ModelRow(columns: seq<string>, frame: map<string, Value>): seq<Value> {
    seq(|columns|, j requires 0 <= j < |columns| =>
      if columns[j] in frame then frame[columns[j]] else Zero)
  }

  /** The feature row the handler passes to the model, or the error it reports. */
  function Encode(columns: seq<string>, data: map<string, Value>): Result<seq<Value>, EncodeError> {
    match AddOneHots(CategoricalFields, data, data)
    case Ok(frame) => Ok(ModelRow(columns, frame))
    case Err(e) => Err(e)
  }

  /** What the one-hot pass does to the frame: it succeeds exactly when no
      processed field holds a non-string, and then each one-hot column of a
      processed field is 1 while every other column keeps its value. */
  lemma {:induction false} AddOneHotsEffect(fields: seq<string>, data: map<string, Value>, frame: map<string, Value>)
    ensures AddOneHots(fields, data, frame).Err? <==> HasNonTextCategory(fields, data)
    ensures AddOneHots(fields, data, frame).Ok? ==>
      var out := AddOneHots(fields, data, frame).value;
      var hot := set f | f in fields && f in data && data[f].Str? :: OneHotName(f, data[f].s);
      out.Keys == frame.Keys + hot &&
      (forall c :: c in hot ==> out[c] == One) &&
      (forall c :: c in frame && c !in hot ==> out[c] == frame[c])
    decreases |fields|
  {
    if fields == [] {
    } else {
      var rest := fields[1..];
      AddOneHotsEffect(rest, data, frame);
      if fields[0] in data && data[fields[0]].Str? {
        var category := data[fields[0]].s;
        AddOneHotsEffect(rest, data, frame[OneHotName(fields[0], category) := One]);
      }
      if HasNonTextCategory(fields, data) {
        var k :| 0 <= k < |fields| && fields[k] in data && !data[fields[k]].Str?;
        if k > 0 {
          assert rest[k - 1] == fields[k];
        }
      }
      if HasNonTextCategory(rest, data) {
        var k :| 0 <= k < |rest| && rest[k] in data && !data[rest[k]].Str?;
        assert fields[k + 1] == rest[k];
      }
      var hot := set f | f in fields && f in data && data[f].Str? :: OneHotName(f, data[f].s);
      var hotRest := set f | f in rest && f in data && data[f].Str? :: OneHotName(f, data[f].s);
      assert forall f :: f in fields <==> f == fields[0] || f in rest;
      if fields[0] in data && data[fields[0]].Str? {
        assert hot == hotRest + {OneHotName(fields[0], data[fields[0]].s)};
      } else {
        assert hot == hotRest;
      }
    }
  }

  /** Encoding fails exactly when a categorical field is present with a
      non-string value, and then it names the first such field in
      processing order. */
  lemma EncodeFailsOnNonTextCategory(columns: seq<string>, data: map<string, Value>)
    ensures Encode(columns, data).Err? <==> HasNonTextCategory(CategoricalFields, data)
    ensures Encode(columns, data).Err? ==>
      (exists k :: 0 <= k < |CategoricalFields| &&
        Encode(columns, data).error == CategoryNotText(CategoricalFields[k]) &&
        CategoricalFields[k] in data && !data[CategoricalFields[k]].Str? &&
        !HasNonTextCategory(CategoricalFields[..k], data))
  {
    AddOneHotsEffect(CategoricalFields, data, data);
    if Encode(columns, data).Err? {
      FirstNonTextCategory(CategoricalFields, data, data);
    }
  }

  /** When the one-hot pass fails, it fails at the first non-string field. */
  lemma {:induction false} FirstNonTextCategory(fields: seq<string>, data: map<string, Value>, frame: map<string, Value>)
    requires AddOneHots(fields, data, frame).Err?
    ensures exists k :: (0 <= k < |fields| &&
      AddOneHots(fields, data, frame).error == CategoryNotText(fields[k]) &&
      fields[k] in data && !data[fields[k]].Str? &&
      !HasNonTextCategory(fields[..k], data))
    decreases |fields|
  {
    var rest := fields[1..];
    if fields[0] in data && !data[fields[0]].Str? {
      assert fields[..0] == [];
    } else {
      var next := if fields[0] in data then frame[OneHotName(fields[0], data[fields[0]].s) := One] else frame;
      assert AddOneHots(fields, data, frame) == AddOneHots(rest, data, next);
      FirstNonTextCategory(rest, data, next);
      var k :| 0 <= k < |rest| &&
        AddOneHots(rest, data, next).error == CategoryNotText(rest[k]) &&
        rest[k] in data && !data[rest[k]].Str? &&
        !HasNonTextCategory(rest[..k], data);
      assert fields[k + 1] == rest[k];
      assert fields[..k + 1] == [fields[0]] + rest[..k];
    }
  }

  /** The encoded row: one cell per model column, in the model's column
      order; a column switched on by a categorical field is 1 (even when the
      request also sends that column directly); any other column the request
      sends is copied unchanged; every remaining column is 0. */
  lemma EncodeCell(columns: seq<string>, data: map<string, Value>, j: int)
    requires Encode(columns, data).Ok?
    requires 0 <= j < |columns|
    ensures |Encode(columns, data).value| == |columns|
    ensures columns[j] in OneHotColumns(data) ==> Encode(columns, data).value[j] == One
    ensures columns[j] !in OneHotColumns(data) && columns[j] in data ==>
      Encode(columns, data).value[j] == data[columns[j]]
    ensures columns[j] !in OneHotColumns(data) && columns[j] !in data ==>
      Encode(columns, data).value[j] == Zero
  {
    AddOneHotsEffect(CategoricalFields, data, data);
  }

  /** Two maps hold the same entries for every key of `keys`. */
  predicate AgreeOn(m1: map<string, Value>, m2: map<string, Value>, keys: set<string>) {
    forall c :: c in keys ==> (c in m1 <==> c in m2) && (c in m1 ==> m1[c] == m2[c])
  }

  /** The one-hot pass reads only the processed fields of the request, and
      what it leaves in the frame at a key depends only on what the frame
      held there. */
  lemma {:induction false} AddOneHotsLocal(fields: seq<string>, data1: map<string, Value>, data2: map<string, Value>,
                                           frame1: map<string, Value>, frame2: map<string, Value>, keys: set<string>)
    requires AgreeOn(data1, data2, set f | f in fields)
    requires AgreeOn(frame1, frame2, keys)
    ensures AddOneHots(fields, data1, frame1).Err? ==> AddOneHots(fields, data1, frame1) == AddOneHots(fields, data2, frame2)
    ensures AddOneHots(fields, data1, frame1).Ok? ==>
      AddOneHots(fields, data2, frame2).Ok? &&
      AgreeOn(AddOneHots(fields, data1, frame1).value, AddOneHots(fields, data2, frame2).value, keys)
    decreases |fields|
  {
    if fields != [] {
      var f := fields[0];
      assert f in set g | g in fields;
      assert (set g | g in fields[1..]) <= (set g | g in fields);
      if f in data1 && data1[f].Str? {
        var name := OneHotName(f, data1[f].s);
        AddOneHotsLocal(fields[1..], data1, data2, frame1[name := One], frame2[name := One], keys);
      } else {
        AddOneHotsLocal(fields[1..], data1, data2, frame1, frame2, keys);
      }
    }
  }

  /** Request keys that are not model columns never reach the row, and a
      raw categorical value reaches it only through its one-hot column: two
      requests encode alike when they agree on the model columns, on which
      categorical fields hold non-strings, and on which one-hot columns they
      switch on among the model columns. */
  lemma EncodeIgnoresUnknownKeys(columns: seq<string>, data1: map<string, Value>, data2: map<string, Value>)
    requires forall c :: c in columns ==>
      (c in data1 <==> c in data2) && (c in data1 ==> data1[c] == data2[c])
    requires forall k :: 0 <= k < |CategoricalFields| ==>
      (CategoricalFields[k] in data1 && !data1[CategoricalFields[k]].Str? <==>
       CategoricalFields[k] in data2 && !data2[CategoricalFields[k]].Str?)
    requires OneHotColumns(data1) * (set c | c in columns) == OneHotColumns(data2) * (set c | c in columns)
    ensures Encode(columns, data1) == Encode(columns, data2)
  {
    AddOneHotsErrorLocal(CategoricalFields, data1, data2, data1, data2);
    AddOneHotsErrorLocal(CategoricalFields, data2, data1, data2, data1);
    if Encode(columns, data1).Ok? && Encode(columns, data2).Ok? {
      var r1, r2 := Encode(columns, data1).value, Encode(columns, data2).value;
      assert |r1| == |columns| == |r2|;
      forall j | 0 <= j < |columns| ensures r1[j] == r2[j] {
        EncodeCell(columns, data1, j);
        EncodeCell(columns, data2, j);
        var inColumns := set c | c in columns;
        assert columns[j] in inColumns;
        assert columns[j] in OneHotColumns(data1) <==> columns[j] in OneHotColumns(data1) * inColumns;
        assert columns[j] in OneHotColumns(data2) <==> columns[j] in OneHotColumns(data2) * inColumns;
      }
      assert r1 == r2;
    }
  }

  /** Which error the one-hot pass reports depends only on which processed
      fields hold non-strings. */
  lemma {:induction false} AddOneHotsErrorLocal(fields: seq<string>, data1: map<string, Value>, data2: map<string, Value>,
                                                frame1: map<string, Value>, frame2: map<string, Value>)
    requires forall k :: 0 <= k < |fields| ==>
      (fields[k] in data1 && !data1[fields[k]].Str? <==> fields[k] in data2 && !data2[fields[k]].Str?)
    ensures AddOneHots(fields, data1, frame1).Err? ==> AddOneHots(fields, data1, frame1) == AddOneHots(fields, data2, frame2)
    decreases |fields|
  {
    if fields != [] {
      var f := fields[0];
      assert forall k :: 0 <= k < |fields| - 1 ==> fields[1..][k] == fields[k + 1];
      var next1 := if f in data1 && data1[f].Str? then frame1[OneHotName(f, data1[f].s) := One] else frame1;
      var next2 := if f in data2 && data2[f].Str? then frame2[OneHotName(f, data2[f].s) := One] else frame2;
      AddOneHotsErrorLocal(fields[1..], data1, data2, next1, next2);
    }
  }

  /** Categories are not checked against a list of known values: a
      category whose one-hot column is not a model column is silently
      dropped, and the row is the one the request would give without that
      field at all. */
  lemma EncodeDropsUnknownCategory(columns: seq<string>, data: map<string, Value>, field: string)
    requires field in CategoricalFields && field !in columns
    requires field in data && data[field].Str?
    requires OneHotName(field, data[field].s) !in columns
    ensures Encode(columns, data) == Encode(columns, data - {field})
  {
    var without := data - {field};
    EncodeFailsOnNonTextCategory(columns, data);
    EncodeFailsOnNonTextCategory(columns, without);
    AddOneHotsErrorLocal(CategoricalFields, data, without, data, without);
    AddOneHotsErrorLocal(CategoricalFields, without, data, without, data);
    if Encode(columns, data).Ok? && Encode(columns, without).Ok? {
      var r1, r2 := Encode(columns, data).value, Encode(columns, without).value;
      assert OneHotColumns(data) <= OneHotColumns(without) + {OneHotName(field, data[field].s)};
      assert OneHotColumns(without) <= OneHotColumns(data);
      assert |r1| == |columns| == |r2|;
      forall j | 0 <= j < |columns| ensures r1[j] == r2[j] {
        EncodeCell(columns, data, j);
        EncodeCell(columns, without, j);
        assert columns[j] in OneHotColumns(data) <==> columns[j] in OneHotColumns(without);
      }
      assert r1 == r2;
    }
  }

  /** The preprocessing as the handler runs it: one-hot columns are assigned
      into the input frame field by field, a zero-filled row over the model
      columns is created, and every input column that is a model column is
      copied into it. The input columns are visited in an arbitrary order,
      so the row does not depend on the order of the request's keys. */
  method EncodeRequest(columns: seq<string>, data: map<string, Value>)
    returns (r: Result<seq<Value>, EncodeError>)
    ensures r == Encode(columns, data)
  {
    // input_df with the one-hot columns assigned
    var frame := data;
    var k := 0;
    while k < |CategoricalFields|
      invariant 0 <= k <= |CategoricalFields|
      invariant AddOneHots(CategoricalFields[k..], data, frame) == AddOneHots(CategoricalFields, data, data)
    {
      var field := CategoricalFields[k];
      assert CategoricalFields[k..][1..] == CategoricalFields[k + 1..];
      if field in data {
        match data[field] {
          case Str(category) =>
            frame := frame[OneHotName(field, category) := One];
          case _ =>
            return Err(CategoryNotText(field));
        }
      }
      k := k + 1;
    }
    // final_input_df: every model column starts at 0
    var row := new Value[|columns|](_ => Zero);
    // copy each input column that is a model column
    var pending := frame.Keys;
    while pending != {}
      invariant pending <= frame.Keys
      invariant row.Length == |columns|
      invariant forall j :: 0 <= j < row.Length ==>
        row[j] == if columns[j] in frame && columns[j] !in pending then frame[columns[j]] else Zero
      decreases pending
    {
      var col :| col in pending;
      if col in columns {
        var j := 0;
        while j < row.Length
          invariant 0 <= j <= row.Length
          invariant forall i :: 0 <= i < row.Length ==>
            row[i] == if columns[i] in frame && (columns[i] !in pending || (columns[i] == col && i < j))
              then frame[columns[i]] else Zero
        {
          if columns[j] == col {
            row[j] := frame[col];
          }
          j := j + 1;
        }
      }
      pending := pending - {col};
    }
    assert CategoricalFields[|CategoricalFields|..] == [];
    assert row[..] == ModelRow(columns, frame);
    r := Ok(row[..]);
  }
}

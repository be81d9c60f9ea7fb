/** How a table earns points against a question: its name, its columns and its known
    values, with caps on the last two. Stemming a text into words is a parameter. */
module TableScore {
  import opened SchemaGraph

  type Stems = string -> set<string>

  const TABLE_NAME := 3.0
  const KEY_COLUMN := 1.5
  const PLAIN_COLUMN := 1.0
  const VALUE := 2.0
  const MAX_COLUMN_POINTS := 4.0
  const MAX_VALUE_POINTS := 4.0

  function Min(a: real, b: real): real {
    if a <= b then a else b
  }

  /** Its words that the question also uses. */
  function Overlap(question: set<string>, text: string, stems: Stems): nat {
    |question * stems(text)|
  }

  predicate Unrelated(question: set<string>, text: string, stems: Stems) {
    question * stems(text) == {}
  }

  function KeyColumns(info: Table): set<string> {
    set fk | fk in info.foreignKeys && fk.column != "" :: fk.column
  }

  /** A column's points: key columns weigh more. */
  function ColumnScore(column: Column, keys: set<string>, overlap: nat): real {
    if column.primaryKey || column.name in keys then KEY_COLUMN * overlap as real else PLAIN_COLUMN * overlap as real
  }

  function ColumnPoints(columns: seq<Column>, keys: set<string>, question: set<string>, stems: Stems): real {
    if columns == [] then 0.0
    else
      var last := columns[|columns| - 1];
      ColumnPoints(columns[..|columns| - 1], keys, question, stems)
        + ColumnScore(last, keys, Overlap(question, last.name, stems))
  }

  function ValuePoints(values: seq<string>, question: set<string>, stems: Stems): real {
    if values == [] then 0.0
    else
      ValuePoints(values[..|values| - 1], question, stems)
        + if Unrelated(question, values[|values| - 1], stems) then 0.0 else VALUE
  }

  function Points(name: string, info: Table, question: set<string>, stems: Stems): real {
    TABLE_NAME * Overlap(question, name, stems) as real
      + Min(ColumnPoints(info.columns, KeyColumns(info), question, stems), MAX_COLUMN_POINTS)
      + Min(ValuePoints(info.values, question, stems), MAX_VALUE_POINTS)
  }

  /** _score_table. */
  method ScoreTable(name: string, info: Table, question: set<string>, stems: Stems) returns (score: real)
    ensures score == Points(name, info, question, stems)
  {
    score := TABLE_NAME * |question * stems(name)| as real;
    var keys := KeyColumns(info);
    var columnPoints := 0.0;
    for i := 0 to |info.columns|
      invariant columnPoints == ColumnPoints(info.columns[..i], keys, question, stems)
    {
      var column := info.columns[i];
      var overlap := |question * stems(column.name)|;
      assert info.columns[..i + 1][..i] == info.columns[..i];
      if overlap == 0 {
        continue;
      }
      columnPoints := columnPoints + ColumnScore(column, keys, overlap);
    }
    assert info.columns[..|info.columns|] == info.columns;
    score := score + Min(columnPoints, MAX_COLUMN_POINTS);
    var valuePoints := 0.0;
    for i := 0 to |info.values|
      invariant valuePoints == ValuePoints(info.values[..i], question, stems)
    {
      assert info.values[..i + 1][..i] == info.values[..i];
      if !Unrelated(question, info.values[i], stems) {
        valuePoints := valuePoints + VALUE;
      }
    }
    assert info.values[..|info.values|] == info.values;
    score := score + Min(valuePoints, MAX_VALUE_POINTS);
  }

  lemma {:induction false} SubsetSize<T>(a: set<T>, b: set<T>)
    requires a <= b
    ensures |a| <= |b|
    decreases a
  {
    if a != {} {
      var x :| x in a;
      SubsetSize(a - {x}, b - {x});
    }
  }

  lemma OverlapGrows(less: set<string>, more: set<string>, text: string, stems: Stems)
    requires less <= more
    ensures Overlap(less, text, stems) <= Overlap(more, text, stems)
  {
    SubsetSize(less * stems(text), more * stems(text));
  }

  lemma {:induction false} ColumnPointsGrow(columns: seq<Column>, keys: set<string>, less: set<string>,
    more: set<string>, stems: Stems)
    requires less <= more
    ensures 0.0 <= ColumnPoints(columns, keys, less, stems) <= ColumnPoints(columns, keys, more, stems)
    decreases |columns|
  {
    if columns != [] {
      ColumnPointsGrow(columns[..|columns| - 1], keys, less, more, stems);
      OverlapGrows(less, more, columns[|columns| - 1].name, stems);
    }
  }

  lemma {:induction false} ValuePointsGrow(values: seq<string>, less: set<string>, more: set<string>, stems: Stems)
    requires less <= more
    ensures 0.0 <= ValuePoints(values, less, stems) <= ValuePoints(values, more, stems)
    decreases |values|
  {
    if values != [] {
      ValuePointsGrow(values[..|values| - 1], less, more, stems);
    }
  }

  /** More question words never cost a table points. */
  lemma PointsGrow(name: string, info: Table, less: set<string>, more: set<string>, stems: Stems)
    requires less <= more
    ensures 0.0 <= Points(name, info, less, stems) <= Points(name, info, more, stems)
  {
    OverlapGrows(less, more, name, stems);
    ColumnPointsGrow(info.columns, KeyColumns(info), less, more, stems);
    ValuePointsGrow(info.values, less, more, stems);
  }

  /** A table cannot win on width: three more name matches outweigh any columns and values. */
  lemma NameOutweighsWidth(wide: string, wideInfo: Table, named: string, namedInfo: Table,
    question: set<string>, stems: Stems)
    requires Overlap(question, named, stems) >= Overlap(question, wide, stems) + 3
    ensures Points(named, namedInfo, question, stems) > Points(wide, wideInfo, question, stems)
  {
    ColumnPointsGrow(namedInfo.columns, KeyColumns(namedInfo), question, question, stems);
    ValuePointsGrow(namedInfo.values, question, question, stems);
  }

  /** A table scores nothing exactly when the question shares no word with it. */
  lemma PointsZero(name: string, info: Table, question: set<string>, stems: Stems)
    ensures Points(name, info, question, stems) == 0.0 <==>
      && Unrelated(question, name, stems)
      && (forall c :: c in info.columns ==> Unrelated(question, c.name, stems))
      && (forall v :: v in info.values ==> Unrelated(question, v, stems))
  {
    ColumnPointsGrow(info.columns, KeyColumns(info), question, question, stems);
    ValuePointsGrow(info.values, question, question, stems);
    ColumnPointsZero(info.columns, KeyColumns(info), question, stems);
    ValuePointsZero(info.values, question, stems);
  }

  lemma {:induction false} ColumnPointsZero(columns: seq<Column>, keys: set<string>, question: set<string>,
    stems: Stems)
    ensures ColumnPoints(columns, keys, question, stems) == 0.0 <==> forall c :: c in columns ==> Unrelated(question, c.name, stems)
    decreases |columns|
  {
    if columns != [] {
      var front, last := columns[..|columns| - 1], columns[|columns| - 1];
      ColumnPointsZero(front, keys, question, stems);
      ColumnPointsGrow(front, keys, question, question, stems);
      assert columns == front + [last] && last in columns;
    }
  }

  lemma {:induction false} ValuePointsZero(values: seq<string>, question: set<string>, stems: Stems)
    ensures ValuePoints(values, question, stems) == 0.0 <==> forall v :: v in values ==> Unrelated(question, v, stems)
    decreases |values|
  {
    if values != [] {
      var front, last := values[..|values| - 1], values[|values| - 1];
      ValuePointsZero(front, question, stems);
      ValuePointsGrow(front, question, question, stems);
      assert values == front + [last] && last in values;
    }
  }

  // ── The points in closed form ──────────────────────────────────────

  /** The primary key, or the column of a foreign key. */
  predicate IsKey(column: Column, info: Table) {
    column.primaryKey || (column.name != "" && exists fk :: fk in info.foreignKeys && fk.column == column.name)
  }

  /** The words the columns share with the question, column by column. */
  function SharedWords(columns: seq<Column>, question: set<string>, stems: Stems): nat {
    if columns == [] then 0 else |question * stems(columns[0].name)| + SharedWords(columns[1..], question, stems)
  }

  function KeysOnly(columns: seq<Column>, info: Table): seq<Column> {
    if columns == [] then []
    else (if IsKey(columns[0], info) then [columns[0]] else []) + KeysOnly(columns[1..], info)
  }

  /** Some word of the text is a word of the question. */
  predicate Shares(question: set<string>, text: string, stems: Stems) {
    exists word :: word in question && word in stems(text)
  }

  lemma SharesExactly(question: set<string>, text: string, stems: Stems)
    ensures Shares(question, text, stems) <==> !Unrelated(question, text, stems)
  {
    if Shares(question, text, stems) {
      var word :| word in question && word in stems(text);
      assert word in question * stems(text);
    }
  }

  function Matching(values: seq<string>, question: set<string>, stems: Stems): nat {
    if values == [] then 0
    else (if Shares(question, values[0], stems) then 1 else 0) + Matching(values[1..], question, stems)
  }

  lemma {:induction false} ColumnPointsAdd(first: Column, rest: seq<Column>, keys: set<string>, question: set<string>,
    stems: Stems)
    ensures ColumnPoints([first] + rest, keys, question, stems) ==
      ColumnScore(first, keys, Overlap(question, first.name, stems)) + ColumnPoints(rest, keys, question, stems)
    decreases |rest|
  {
    var all := [first] + rest;
    if rest == [] {
      assert all[..0] == [];
    } else {
      assert all[..|all| - 1] == [first] + rest[..|rest| - 1];
      ColumnPointsAdd(first, rest[..|rest| - 1], keys, question, stems);
    }
  }

  lemma {:induction false} ValuePointsAdd(first: string, rest: seq<string>, question: set<string>, stems: Stems)
    ensures ValuePoints([first] + rest, question, stems) ==
      (if Shares(question, first, stems) then VALUE else 0.0) + ValuePoints(rest, question, stems)
    decreases |rest|
  {
    var all := [first] + rest;
    SharesExactly(question, first, stems);
    if rest == [] {
      assert all[..0] == [] && all[0] == first;
    } else {
      assert all[..|all| - 1] == [first] + rest[..|rest| - 1];
      ValuePointsAdd(first, rest[..|rest| - 1], question, stems);
    }
  }

  lemma {:induction false} ColumnsInWords(columns: seq<Column>, info: Table, question: set<string>, stems: Stems)
    ensures ColumnPoints(columns, KeyColumns(info), question, stems) ==
      SharedWords(columns, question, stems) as real + 0.5 * SharedWords(KeysOnly(columns, info), question, stems) as real
    decreases |columns|
  {
    if columns != [] {
      var first, rest := columns[0], columns[1..];
      assert columns == [first] + rest;
      ColumnPointsAdd(first, rest, KeyColumns(info), question, stems);
      ColumnsInWords(rest, info, question, stems);
      assert KeysOnly(columns, info) == if IsKey(first, info) then [first] + KeysOnly(rest, info) else KeysOnly(rest, info);
    }
  }

  lemma {:induction false} ValuesInMatches(values: seq<string>, question: set<string>, stems: Stems)
    ensures ValuePoints(values, question, stems) == 2.0 * Matching(values, question, stems) as real
    decreases |values|
  {
    if values != [] {
      assert values == [values[0]] + values[1..];
      ValuePointsAdd(values[0], values[1..], question, stems);
      ValuesInMatches(values[1..], question, stems);
    }
  }

  /** Three points for a word of the name; one for a word of a column and half a point more
      if the column is a key; two for a value; columns and values count four at most each. */
  lemma PointsInWords(name: string, info: Table, question: set<string>, stems: Stems)
    ensures var words, keyWords := SharedWords(info.columns, question, stems), SharedWords(KeysOnly(info.columns, info), question, stems);
      var columns, values := words as real + 0.5 * keyWords as real, 2.0 * Matching(info.values, question, stems) as real;
      Points(name, info, question, stems) ==
        3.0 * |question * stems(name)| as real + (if columns <= 4.0 then columns else 4.0) + (if values <= 4.0 then values else 4.0)
  {
    ColumnsInWords(info.columns, info, question, stems);
    ValuesInMatches(info.values, question, stems);
  }
}

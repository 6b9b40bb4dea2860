/**
 The SQL text the BigQuery service builds by string concatenation: the INSERT
 and UPDATE statements, the WHERE text of `updateOrCreate` and its COUNT query.
 Builders follow the source's loops (append `item` plus a separator, then cut
 a fixed number of characters off the end: one for the comma-terminated INSERT
 and SET lists, five for the WHERE text whatever its last separator was);
 lemmas relate each to the `implode` of one item per record entry.
 */
module BigQuerySql {
  import opened Wrappers
  import opened PhpStrings
  import opened PhpValues

  /** The one column whose numeric or boolean values are passed through `intval`. */
  const FlagColumn := "inserted_to_datawarehouse"

  /** The unquoted text for a boolean, integer or float under `key`: the flag
      column is coerced with `intval` first, every other column interpolates
      the value as it is. */
  function NumberText(key: string, v: Value): (r: string)
    requires IsNumeric(v)
    ensures key == FlagColumn ==> ParseInt(r) == Some(IntVal(v))
    ensures v.Int? ==> ParseInt(r) == Some(v.i)
    ensures key != FlagColumn && v.Bool? ==> r == (if v.b then "1" else "")
    ensures key != FlagColumn && v.Double? ==> r == v.text
  {
    if key == FlagColumn then
      IntDecimalRoundTrip(IntVal(v));
      IntToDecimal(IntVal(v))
    else if v.Int? then
      IntDecimalRoundTrip(v.i);
      ToPhpString(v)
    else
      ToPhpString(v)
  }

  // ---------------------------------------------------------------------------
  // INSERT
  // ---------------------------------------------------------------------------

  /** The text `insert` emits for one value. */
  function InsertLiteral(key: string, v: Value): (r: string)
    ensures v.Null? ==> r == "NULL"
    ensures v.Str? ==> ReadLiteral(r) == Some((v.s, ""))
    ensures v.Str? ==> r == Quote(v.s)
    ensures v.Int? ==> ParseInt(r) == Some(v.i)
    ensures IsNumeric(v) && key == FlagColumn ==> ParseInt(r) == Some(IntVal(v))
    ensures v.Bool? && key != FlagColumn ==> r == (if v.b then "1" else "")
    ensures v.Double? && key != FlagColumn ==> r == v.text
  {
    match v
    case Null => "NULL"
    case Str(s) =>
      QuoteReadsBack(s, "");
      assert Quote(s) + "" == Quote(s);
      Quote(s)
    case _ => NumberText(key, v)
  }

  function InsertLiterals(r: Record): seq<string>
  {
    seq(|r|, i requires 0 <= i < |r| => InsertLiteral(r[i].key, r[i].value))
  }

  /** The statement `insert` submits for `record` in `dataset`.`table`. */
  function InsertSql(dataset: string, table: string, record: Record): string
  {
    "INSERT INTO " + dataset + "." + table
      + " (" + Implode(",", Keys(record)) + ")"
      + " VALUES(" + DropTail(Terminated(InsertLiterals(record), ","), 1) + ")"
  }

  /** The INSERT statement lists the record's keys in order, and exactly one
      value per key in the same order, each list joined by single commas. */
  lemma InsertLayout(dataset: string, table: string, record: Record)
    ensures var vals := InsertLiterals(record);
      && |vals| == |Keys(record)|
      && (forall i :: 0 <= i < |vals| ==> vals[i] == InsertLiteral(record[i].key, record[i].value))
      && InsertSql(dataset, table, record)
         == "INSERT INTO " + dataset + "." + table
            + " (" + Implode(",", Keys(record)) + ")"
            + " VALUES(" + Implode(",", vals) + ")"
  {
    DropTerminator(InsertLiterals(record), ",");
  }

  // ---------------------------------------------------------------------------
  // UPDATE
  // ---------------------------------------------------------------------------

  /** The text `update` emits for one value: no flag coercion, and the empty
      string becomes `NULL`. */
  function UpdateLiteral(v: Value): (r: string)
    ensures v.Null? || v == Str("") ==> r == "NULL"
    ensures v.Str? && v.s != "" ==> ReadLiteral(r) == Some((v.s, ""))
    ensures v.Str? && v.s != "" ==> r == Quote(v.s)
    ensures v.Int? ==> ParseInt(r) == Some(v.i)
    ensures v.Bool? ==> r == (if v.b then "1" else "")
    ensures v.Double? ==> r == v.text
  {
    match v
    case Null => "NULL"
    case Str(s) =>
      if s == "" then "NULL"
      else
        QuoteReadsBack(s, "");
        assert Quote(s) + "" == Quote(s);
        Quote(s)
    case Int(i) =>
      IntDecimalRoundTrip(i);
      ToPhpString(v)
    case _ => ToPhpString(v)
  }

  function SetItem(e: Entry): string
  {
    e.key + " = " + UpdateLiteral(e.value)
  }

  function SetItems(r: Record): seq<string>
  {
    seq(|r|, i requires 0 <= i < |r| => SetItem(r[i]))
  }

  /** The statement `update` submits; `condition` is spliced in unchanged. */
  function UpdateSql(dataset: string, table: string, condition: string, record: Record): string
  {
    "UPDATE " + dataset + "." + table
      + " SET " + DropTail(Terminated(SetItems(record), ","), 1)
      + " WHERE " + condition
  }

  /** The SET list has one `key = value` item per entry in order, joined by single
      commas, and the condition text follows `WHERE` verbatim. */
  lemma UpdateLayout(dataset: string, table: string, condition: string, record: Record)
    ensures var items := SetItems(record);
      && |items| == |record|
      && (forall i :: 0 <= i < |items| ==> items[i] == record[i].key + " = " + UpdateLiteral(record[i].value))
      && UpdateSql(dataset, table, condition, record)
         == "UPDATE " + dataset + "." + table + " SET " + Implode(",", items) + " WHERE " + condition
  {
    DropTerminator(SetItems(record), ",");
  }

  /** The flag column turns booleans into `1`/`0`; any other column interpolates
      `false` as the empty string, and UPDATE writes an empty string as `NULL`. */
  lemma FlagCoercionExamples()
    ensures InsertLiteral(FlagColumn, Bool(true)) == "1"
    ensures InsertLiteral(FlagColumn, Bool(false)) == "0"
    ensures InsertLiteral("active", Bool(false)) == ""
    ensures UpdateLiteral(Bool(false)) == ""
    ensures SetItem(Entry("note", Str(""))) == "note = NULL"
  {
    assert NatToDecimal(1) == "1";
    assert NatToDecimal(0) == "0";
  }

  // ---------------------------------------------------------------------------
  // WHERE text and COUNT query of updateOrCreate
  // ---------------------------------------------------------------------------

  /** The equality `updateOrCreate` writes for one condition entry: numbers bare
      (flag column coerced), everything else quoted after string conversion, so
      a null condition value compares with the empty string. */
  function WhereItem(e: Entry): string
  {
    e.key + " = " + (if IsNumeric(e.value) then NumberText(e.key, e.value) else Quote(ToPhpString(e.value)))
  }

  function WhereItems(cond: Record): seq<string>
  {
    seq(|cond|, i requires 0 <= i < |cond| => WhereItem(cond[i]))
  }

  /** The separator the loop appends after an entry: a comma after a number,
      ` AND ` after anything else. */
  function WhereSeparator(v: Value): string
  {
    if IsNumeric(v) then "," else " AND "
  }

  /** The text the WHERE loop accumulates before the final cut. */
  function WhereText(cond: Record): string
  {
    if |cond| == 0 then ""
    else
      var last := cond[|cond| - 1];
      WhereText(cond[..|cond| - 1]) + WhereItem(last) + WhereSeparator(last.value)
  }

  /** The WHERE text `updateOrCreate` builds, as written: five characters are cut
      off the end whatever the last separator was. */
  function WhereAsWritten(cond: Record): string
  {
    DropTail(WhereText(cond), 5)
  }

  /** The WHERE text the loop evidently means: every equality joined by ` AND `. */
  function WhereCorrected(cond: Record): string
  {
    Implode(" AND ", WhereItems(cond))
  }

  lemma {:induction false} WhereTextOfStrings(cond: Record)
    requires forall i :: 0 <= i < |cond| ==> !IsNumeric(cond[i].value)
    ensures WhereText(cond) == Terminated(WhereItems(cond), " AND ")
  {
    if |cond| > 0 {
      var init := cond[..|cond| - 1];
      WhereTextOfStrings(init);
      assert WhereItems(cond)[..|cond| - 1] == WhereItems(init);
    }
  }

  /** When no condition value is a boolean or number, the as-written WHERE text
      is the ` AND `-join of one `key = 'escaped'` equality per entry. */
  lemma WhereAgreesOnStrings(cond: Record)
    requires forall i :: 0 <= i < |cond| ==> !IsNumeric(cond[i].value)
    ensures WhereAsWritten(cond) == WhereCorrected(cond)
  {
    WhereTextOfStrings(cond);
    DropTerminator(WhereItems(cond), " AND ");
  }

  /** A numeric condition loses its value to the five-character cut:
      `['id' => 5]` gives the WHERE text `id`, where `id = 5` was meant. */
  lemma WhereNumericTruncated()
    ensures WhereAsWritten([Entry("id", Int(5))]) == "id"
    ensures WhereCorrected([Entry("id", Int(5))]) == "id = 5"
  {
    var cond := [Entry("id", Int(5))];
    assert NatToDecimal(5) == "5";
    assert WhereItem(cond[0]) == "id = 5";
    assert cond[..0] == [];
    assert WhereText(cond) == "id = 5,";
    assert WhereItems(cond) == ["id = 5"];
  }

  /** Whatever precedes it, a trailing boolean or number under a non-empty
      column name loses the last four characters of its equality together with
      its comma. */
  lemma WhereNumericLastCut(cond: Record, e: Entry)
    requires IsNumeric(e.value) && e.key != ""
    ensures |WhereItem(e)| >= 4
    ensures WhereAsWritten(cond + [e]) == WhereText(cond) + WhereItem(e)[..|WhereItem(e)| - 4]
  {
    WhereTextSnoc(cond, e);
    var item := WhereItem(e);
    var t := WhereText(cond) + item + ",";
    assert t[..|t| - 5] == WhereText(cond) + item[..|item| - 4];
  }

  /** A number followed by a non-number is joined with a comma instead of ` AND `. */
  lemma WhereNumberThenOther(e0: Entry, e1: Entry)
    requires IsNumeric(e0.value) && !IsNumeric(e1.value)
    ensures WhereAsWritten([e0, e1]) == WhereItem(e0) + "," + WhereItem(e1)
  {
    WhereTextSingle(e0);
    WhereTextPair(e0, e1);
    var u := WhereItem(e0) + "," + WhereItem(e1);
    var t := WhereText([e0, e1]);
    assert t == u + " AND ";
    assert t[..|t| - 5] == u;
  }

  lemma WhereTextSingle(e: Entry)
    ensures WhereText([e]) == WhereItem(e) + WhereSeparator(e.value)
  {
    WhereTextSnoc([], e);
    assert [] + [e] == [e];
  }

  lemma WhereTextPair(e0: Entry, e1: Entry)
    ensures WhereText([e0, e1]) == WhereText([e0]) + WhereItem(e1) + WhereSeparator(e1.value)
  {
    WhereTextSnoc([e0], e1);
    assert [e0] + [e1] == [e0, e1];
  }

  /** The corrected text of two entries conjoins both equalities, whatever their kinds. */
  lemma WhereCorrectedPair(e0: Entry, e1: Entry)
    ensures WhereCorrected([e0, e1]) == WhereItem(e0) + " AND " + WhereItem(e1)
  {
    WhereCorrectedSnoc([e0], e1);
    WhereCorrectedSnoc([], e0);
    assert [e0] + [e1] == [e0, e1];
  }

  lemma WhereTextSnoc(cond: Record, e: Entry)
    ensures WhereText(cond + [e]) == WhereText(cond) + WhereItem(e) + WhereSeparator(e.value)
  {
    assert (cond + [e])[..|cond|] == cond;
  }

  /** The corrected WHERE text keeps every entry's full equality: adding an
      entry conjoins its equality at the end. */
  lemma WhereCorrectedSnoc(cond: Record, e: Entry)
    ensures WhereCorrected([e]) == WhereItem(e)
    ensures |cond| > 0 ==> WhereCorrected(cond + [e]) == WhereCorrected(cond) + " AND " + WhereItem(e)
  {
    assert WhereItems([e]) == [WhereItem(e)];
    if |cond| > 0 {
      assert WhereItems(cond + [e]) == WhereItems(cond) + [WhereItem(e)];
      ImplodeSnoc(" AND ", WhereItems(cond), WhereItem(e));
    }
  }

  /** The existence query of `updateOrCreate`, over the fully qualified table. */
  function CountSql(project: string, dataset: string, table: string, where: string): string
  {
    "SELECT COUNT(*) as total FROM " + project + "." + dataset + "." + table + " WHERE " + where
  }
}

/** Console table styling: colours and styles bound to (column, value) pairs, the per-column style
  * dicts, the markup a cell gets, and the pairing of each row's cells with the columns. */
module Table {
  import opened Wrappers
  import Output
  import Model
  import CardFilter

  /** A value of a column's style dict: a style name or a switch such as `no_wrap`. */
  datatype StyleValue = Text(text: string) | Switch(on: bool)

  datatype ColumnStyles = ColumnStyles(
    colorByValue: map<string, map<string, string>>,
    styleByValue: map<string, map<string, string>>,
    styleDictPerColumn: map<string, map<string, StyleValue>>)

  const NewStyles := ColumnStyles(map[], map[], map[])

  /** `m[col][val]`, with a missing column or value read as "". */
  function Lookup(m: map<string, map<string, string>>, col: string, val: string): (r: string)
    ensures (col in m && val in m[col]) ==> r == m[col][val]
    ensures !(col in m && val in m[col]) ==> r == ""
  {
    if col in m && val in m[col] then m[col][val] else ""
  }

  function StyleByValue(s: ColumnStyles, col: string, val: string): string {
    Lookup(s.styleByValue, col, val)
  }

  function ColorByValue(s: ColumnStyles, col: string, val: string): string {
    Lookup(s.colorByValue, col, val)
  }

  /** The style dict of a column; a column nothing was bound to has an empty one. */
  function ColumnStyleDict(s: ColumnStyles, col: string): map<string, StyleValue> {
    if col in s.styleDictPerColumn then s.styleDictPerColumn[col] else map[]
  }

  /** Binds `color` to (col, value) and, for a non-empty style dict, merges it into the column's
    * dict, later keys winning. An empty dict stands for both `None` and `{}`. */
  function BindStyle(s: ColumnStyles, col: string, value: string, color: string, styleDict: map<string, StyleValue>)
    : (r: ColumnStyles)
    ensures ColorByValue(r, col, value) == color
    ensures forall c, v :: (c != col || v != value) ==> ColorByValue(r, c, v) == ColorByValue(s, c, v)
    ensures r.styleByValue == s.styleByValue
    ensures forall c :: c != col ==> ColumnStyleDict(r, c) == ColumnStyleDict(s, c)
    ensures forall k :: k in ColumnStyleDict(r, col) <==> k in ColumnStyleDict(s, col) || k in styleDict
    ensures forall k :: k in ColumnStyleDict(r, col) ==>
      ColumnStyleDict(r, col)[k] == if k in styleDict then styleDict[k] else ColumnStyleDict(s, col)[k]
  {
    var colors := if col in s.colorByValue then s.colorByValue[col] else map[];
    var r := s.(colorByValue := s.colorByValue[col := colors[value := color]]);
    if |styleDict| == 0 then r
    else if col in s.styleDictPerColumn then
      r.(styleDictPerColumn := s.styleDictPerColumn[col := s.styleDictPerColumn[col] + styleDict])
    else
      r.(styleDictPerColumn := s.styleDictPerColumn[col := styleDict])
  }

  /** Sets the column's `no_wrap` switch; no other binding changes. */
  function AddFormatToColumn(s: ColumnStyles, col: string, noWrap: bool): (r: ColumnStyles)
    ensures "no_wrap" in ColumnStyleDict(r, col) && ColumnStyleDict(r, col)["no_wrap"] == Switch(noWrap)
    ensures forall k :: k != "no_wrap" ==> (k in ColumnStyleDict(r, col) <==> k in ColumnStyleDict(s, col))
    ensures forall k :: k != "no_wrap" && k in ColumnStyleDict(s, col) ==>
      k in ColumnStyleDict(r, col) && ColumnStyleDict(r, col)[k] == ColumnStyleDict(s, col)[k]
    ensures forall c :: c != col ==> ColumnStyleDict(r, c) == ColumnStyleDict(s, c)
    ensures r.colorByValue == s.colorByValue && r.styleByValue == s.styleByValue
  {
    s.(styleDictPerColumn := s.styleDictPerColumn[col := ColumnStyleDict(s, col)["no_wrap" := Switch(noWrap)]])
  }

  /** The calls that can change a `ColumnStyles`. */
  datatype StyleCall =
    | Bind(col: string, value: string, color: string, styleDict: map<string, StyleValue>)
    | AddFormat(col: string, noWrap: bool)

  function Apply(s: ColumnStyles, calls: seq<StyleCall>): ColumnStyles
    decreases |calls|
  {
    if |calls| == 0 then s
    else
      var s' := match calls[0]
        case Bind(c, v, color, d) => BindStyle(s, c, v, color, d)
        case AddFormat(c, w) => AddFormatToColumn(s, c, w);
      Apply(s', calls[1..])
  }

  /** No call writes the style-by-value map, so it stays empty whatever is bound. */
  lemma {:induction false} StylesNeverBound(s: ColumnStyles, calls: seq<StyleCall>)
    ensures Apply(s, calls).styleByValue == s.styleByValue
    decreases |calls|
  {
    if |calls| > 0 {
      var s' := match calls[0]
        case Bind(c, v, color, d) => BindStyle(s, c, v, color, d)
        case AddFormat(c, w) => AddFormatToColumn(s, c, w);
      StylesNeverBound(s', calls[1..]);
    }
  }

  datatype RenderSettings = RenderSettings(colStyles: ColumnStyles, widePrint: bool, showLines: bool)

  /** Settings need column styles: a missing one is a ValueError. */
  function NewRenderSettings(colStyles: Option<ColumnStyles>, widePrint: bool, showLines: bool): (r: Result<RenderSettings, Exc>)
    ensures r.Err? <==> colStyles.None?
    ensures r.Err? ==> r.error == ValueError("col_styles cannot be None!")
    ensures r.Ok? ==> r.value.colStyles == colStyles.value
  {
    match colStyles
    case None => Err(ValueError("col_styles cannot be None!"))
    case Some(s) => Ok(RenderSettings(s, widePrint, showLines))
  }

  /** The cell text with the markup of its (column, value) binding in front: style and colour when a
    * style is bound, else the colour when one is bound, else nothing. */
  function FormatValue(settings: RenderSettings, col: string, val: string): (r: string)
    ensures |r| >= |val| && r[|r| - |val|..] == val
    ensures r == val <==> StyleByValue(settings.colStyles, col, val) == "" && ColorByValue(settings.colStyles, col, val) == ""
    ensures StyleByValue(settings.colStyles, col, val) == "" && ColorByValue(settings.colStyles, col, val) != "" ==>
      r[..|r| - |val|] == "[" + ColorByValue(settings.colStyles, col, val) + "]"
  {
    var style := StyleByValue(settings.colStyles, col, val);
    var color := ColorByValue(settings.colStyles, col, val);
    var markup := if style != "" then "[" + style + " " + color + "]" else if color != "" then "[" + color + "]" else "";
    assert (markup + val)[|markup|..] == val;
    markup + val
  }

  /** Starting from fresh styles, whatever was bound, a cell is either plain or carries only its colour. */
  lemma OnlyColorMarkup(calls: seq<StyleCall>, widePrint: bool, showLines: bool, col: string, val: string)
    ensures var s := Apply(NewStyles, calls);
      var r := FormatValue(RenderSettings(s, widePrint, showLines), col, val);
      r == val || r == "[" + ColorByValue(s, col, val) + "]" + val
  {
    StylesNeverBound(NewStyles, calls);
  }

  /** A colour bound to a (column, value) pair marks exactly the cells of that column with that value. */
  lemma BoundColorMarksCell(s: ColumnStyles, col: string, value: string, color: string, widePrint: bool, showLines: bool)
    requires s.styleByValue == map[] && color != ""
    ensures var b := BindStyle(s, col, value, color, map[]);
      FormatValue(RenderSettings(b, widePrint, showLines), col, value) == "[" + color + "]" + value
  {
  }

  /** Each row's cells, formatted with the column at the same position; a row longer than the columns
    * is an IndexError at the first position without a column. */
  function Render(settings: RenderSettings, cols: seq<string>, rows: seq<seq<string>>): (r: Result<seq<seq<string>>, Exc>)
    ensures r.Ok? <==> forall k :: 0 <= k < |rows| ==> |rows[k]| <= |cols|
    ensures r.Err? ==> r.error == IndexError(|cols|)
    ensures r.Ok? ==> |r.value| == |rows|
    ensures r.Ok? ==> forall k :: 0 <= k < |rows| ==> |r.value[k]| == |rows[k]|
    ensures r.Ok? ==> forall k, i :: 0 <= k < |rows| && 0 <= i < |rows[k]| ==>
      i < |cols| && r.value[k][i] == FormatValue(settings, cols[i], rows[k][i])
  {
    if |rows| == 0 then Ok([])
    else if |rows[0]| > |cols| then Err(IndexError(|cols|))
    else
      var row := rows[0];
      var vals := seq(|row|, i requires 0 <= i < |row| => FormatValue(settings, cols[i], row[i]));
      match Render(settings, cols, rows[1..])
      case Err(e) => Err(e)
      case Ok(rest) =>
        assert forall k :: 1 <= k < |rows| ==> rows[k] == rows[1..][k - 1];
        Ok([vals] + rest)
  }

  /** The board table renders without error under its own header, each cell next to its column. */
  lemma BoardTableRenders(settings: RenderSettings, board: Model.Board, flags: CardFilter.Flags, md: string -> string)
    ensures Output.ConvertToTableRows(board, flags, md).Ok?
    ensures var t := Output.ConvertToTableRows(board, flags, md).value;
      Render(settings, t.1, t.0).Ok?
  {
    Output.ConvertToTableRowsNeverFails(board, flags, md);
    var t := Output.ConvertToTableRows(board, flags, md).value;
    forall k | 0 <= k < |t.0| ensures |t.0[k]| <= |t.1| {
      assert t.0[k] in t.0;
    }
  }
}

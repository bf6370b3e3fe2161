/** Printing a value as nested HTML tables, for mails and reports. */
module Tables {
  import opened HtmlEscape

  /** Text without a character that HTML gives a meaning, like the digits of a number. */
  type Plain = s: string | forall c :: c in s ==> c !in SPECIALS

  /** A value as the printer sees it. Numbers, truth values and a missing value are `Other`. */
  datatype Value =
    | Null
    | Other(shown: Plain)
    | Text(text: string)
    | Array(items: seq<Value>)
    | Object(entries: seq<(string, Value)>)

  /** `deep` is the number of levels that are left: the maximal depth less the depth. */
  function Tablify(obj: Value, deep: nat): string
    decreases deep, 0
  {
    if deep == 0 then "max depth reached"
    else match obj
      case Null => "null"
      case Other(shown) => shown
      case Text(text) => EscapeHtml(text)
      case Array(items) => "<table>" + TablifyItems(items, deep - 1) + "</table>"
      case Object(entries) => "<table>" + TablifyEntries(entries, deep - 1) + "</table>"
  }

  function TablifyItems(items: seq<Value>, deep: nat): string
    decreases deep, |items| + 1
  {
    if items == [] then ""
    else "<tr><td>" + Tablify(items[0], deep) + "</td></tr>" + TablifyItems(items[1..], deep)
  }

  function TablifyEntries(entries: seq<(string, Value)>, deep: nat): string
    decreases deep, |entries| + 1
  {
    if entries == [] then ""
    else
      "<tr><td>" + Tablify(Text(entries[0].0), deep) + "</td><td>" + Tablify(entries[0].1, deep) + "</td></tr>"
      + TablifyEntries(entries[1..], deep)
  }

  /** What the reader of the page sees: texts, and tables of rows of cells. */
  datatype Grid = Cell(text: string) | Table(rows: seq<Row>)

  datatype Row = Row(cells: seq<Grid>)

  function GridOf(obj: Value, deep: nat): Grid
    decreases deep, 0
  {
    if deep == 0 then Cell("max depth reached")
    else match obj
      case Null => Cell("null")
      case Other(shown) => Cell(shown)
      case Text(text) => Cell(text)
      case Array(items) => Table(ItemGrids(items, deep - 1))
      case Object(entries) => Table(EntryGrids(entries, deep - 1))
  }

  function ItemGrids(items: seq<Value>, deep: nat): seq<Row>
    decreases deep, |items| + 1
  {
    if items == [] then [] else [Row([GridOf(items[0], deep)])] + ItemGrids(items[1..], deep)
  }

  function EntryGrids(entries: seq<(string, Value)>, deep: nat): seq<Row>
    decreases deep, |entries| + 1
  {
    if entries == [] then []
    else [Row([GridOf(Text(entries[0].0), deep), GridOf(entries[0].1, deep)])] + EntryGrids(entries[1..], deep)
  }

  /** What is shown of a value while the depth allows: an array as a column, an object as two, with
      the key in front of its value. */
  lemma {:induction false} ItemsShown(items: seq<Value>, deep: nat)
    ensures |ItemGrids(items, deep)| == |items|
    ensures forall i :: 0 <= i < |items| ==> ItemGrids(items, deep)[i] == Row([GridOf(items[i], deep)])
  {
    if items != [] {
      ItemsShown(items[1..], deep);
      hide GridOf;
    }
  }

  lemma {:induction false} EntriesShown(entries: seq<(string, Value)>, deep: nat)
    requires deep > 0
    ensures |EntryGrids(entries, deep)| == |entries|
    ensures forall i :: 0 <= i < |entries| ==>
      EntryGrids(entries, deep)[i] == Row([Cell(entries[i].0), GridOf(entries[i].1, deep)])
  {
    if entries != [] {
      assert GridOf(Text(entries[0].0), deep) == Cell(entries[0].0);
      EntriesShown(entries[1..], deep);
      hide GridOf;
    }
  }

  lemma ShownExactly(v: Value, deep: nat)
    ensures GridOf(v, 0) == Cell("max depth reached")
    ensures deep > 0 ==> match v
      case Null => GridOf(v, deep) == Cell("null")
      case Other(shown) => GridOf(v, deep) == Cell(shown)
      case Text(text) => GridOf(v, deep) == Cell(text)
      case Array(items) =>
        && GridOf(v, deep).Table? && |GridOf(v, deep).rows| == |items|
        && forall i :: 0 <= i < |items| ==> GridOf(v, deep).rows[i] == Row([GridOf(items[i], deep - 1)])
      case Object(entries) =>
        deep > 1 ==>
          && GridOf(v, deep).Table? && |GridOf(v, deep).rows| == |entries|
          && forall i :: 0 <= i < |entries| ==>
               GridOf(v, deep).rows[i] == Row([Cell(entries[i].0), GridOf(entries[i].1, deep - 1)])
  {
    match v
    case Array(items) =>
      if deep > 0 {
        ItemsShown(items, deep - 1);
      }
    case Object(entries) =>
      if deep > 1 {
        EntriesShown(entries, deep - 1);
      }
    case _ =>
  }

  function Html(g: Grid): string {
    match g
    case Cell(text) => EscapeHtml(text)
    case Table(rows) => "<table>" + HtmlRows(rows) + "</table>"
  }

  function HtmlRows(rows: seq<Row>): string {
    if rows == [] then "" else "<tr>" + HtmlCells(rows[0].cells) + "</tr>" + HtmlRows(rows[1..])
  }

  function HtmlCells(cells: seq<Grid>): string {
    if cells == [] then "" else "<td>" + Html(cells[0]) + "</td>" + HtmlCells(cells[1..])
  }

  lemma PlainIsKept(s: string)
    requires forall c :: c in s ==> c !in SPECIALS
    ensures EscapeHtml(s) == s
  {
    ChainAbsent(SPECIALS, s);
  }

  lemma {:induction false} TablifyIsHtml(obj: Value, deep: nat)
    ensures Tablify(obj, deep) == Html(GridOf(obj, deep))
    decreases deep, 0
  {
    hide EscapeHtml, HtmlRows, ItemGrids, EntryGrids, TablifyItems, TablifyEntries;
    if deep == 0 {
      PlainIsKept("max depth reached");
    } else {
      match obj
      case Null => PlainIsKept("null");
      case Other(shown) => PlainIsKept(shown);
      case Text(_) =>
      case Array(items) => ItemsAreHtml(items, deep - 1);
      case Object(entries) => EntriesAreHtml(entries, deep - 1);
    }
  }

  lemma {:induction false} ItemsAreHtml(items: seq<Value>, deep: nat)
    ensures TablifyItems(items, deep) == HtmlRows(ItemGrids(items, deep))
    decreases deep, |items| + 1
  {
    hide EscapeHtml, Tablify, GridOf, Html;
    if items != [] {
      TablifyIsHtml(items[0], deep);
      ItemsAreHtml(items[1..], deep);
      var g := GridOf(items[0], deep);
      OneCell(g);
      var more := ItemGrids(items[1..], deep);
      assert ItemGrids(items, deep)[1..] == more;
      TagsOfCell(Html(g), HtmlRows(more));
    }
  }

  lemma TagsOfCell(g: string, more: string)
    ensures "<tr>" + ("<td>" + g + "</td>") + "</tr>" + more == "<tr><td>" + g + "</td></tr>" + more
  {
    var open, close := "<tr>" + "<td>", "</td>" + "</tr>";
    assert open == "<tr><td>" && close == "</td></tr>";
  }

  lemma TagsOfRow(g: string, h: string, more: string)
    ensures "<tr>" + ("<td>" + g + "</td>" + "<td>" + h + "</td>") + "</tr>" + more
         == "<tr><td>" + g + "</td><td>" + h + "</td></tr>" + more
  {
    var s := "</td>" + "<td>";
    assert s == "</td><td>";
  }

  lemma {:induction false} EntriesAreHtml(entries: seq<(string, Value)>, deep: nat)
    ensures TablifyEntries(entries, deep) == HtmlRows(EntryGrids(entries, deep))
    decreases deep, |entries| + 1
  {
    hide EscapeHtml, Tablify, GridOf, Html;
    if entries != [] {
      TablifyIsHtml(Text(entries[0].0), deep);
      TablifyIsHtml(entries[0].1, deep);
      EntriesAreHtml(entries[1..], deep);
      var g, h := GridOf(Text(entries[0].0), deep), GridOf(entries[0].1, deep);
      TwoCells(g, h);
      var more := EntryGrids(entries[1..], deep);
      assert EntryGrids(entries, deep)[1..] == more;
      TagsOfRow(Html(g), Html(h), HtmlRows(more));
    }
  }

  lemma OneCell(g: Grid)
    ensures HtmlCells([g]) == "<td>" + Html(g) + "</td>"
  {
    hide Html;
    assert HtmlCells([g][1..]) == "";
  }

  lemma TwoCells(g: Grid, h: Grid)
    ensures HtmlCells([g, h]) == "<td>" + Html(g) + "</td>" + "<td>" + Html(h) + "</td>"
  {
    hide Html;
    assert [g, h][1..] == [h];
    OneCell(h);
  }

  lemma Peel(tag: string, a: string, b: string)
    requires tag + a == tag + b
    ensures a == b
  {
    assert (tag + a)[|tag|..] == a && (tag + b)[|tag|..] == b;
  }

  /** What may follow a grid: the end of the text or an end tag. */
  predicate Follows(r: string) {
    r == "" || StartsWith(r, "</")
  }

  lemma TextsApart(s: string, t: string, r: string, q: string)
    requires EscapeHtml(s) + r == EscapeHtml(t) + q && Follows(r) && Follows(q)
    ensures s == t && r == q
  {
    hide EscapeHtml;
    EscapedIsInert(s);
    EscapedIsInert(t);
    EscapeReadsBack(s);
    EscapeReadsBack(t);
    var e, f := EscapeHtml(s), EscapeHtml(t);
    NoLonger(e, f, r, q);
    NoLonger(f, e, q, r);
    assert (e + r)[..|e|] == e && (f + q)[..|f|] == f;
    Peel(e, r, q);
  }

  lemma NoLonger(e: string, f: string, r: string, q: string)
    requires e + r == f + q && Follows(r) && '<' !in f
    ensures |f| <= |e|
  {
    EndTagAfter(e, r);
    assert forall k :: 0 <= k < |f| ==> (f + q)[k] in f;
    assert |e + r| == |f + q|;
  }

  lemma EndTagAfter(e: string, r: string)
    requires Follows(r)
    ensures r != "" ==> |r| >= 2 && (e + r)[|e|] == '<' && (e + r)[|e| + 1] == '/'
  {
    if r != "" {
      assert r[0] == r[..2][0] && r[1] == r[..2][1];
    }
  }

  lemma TextIsNoTable(s: string, r: string, t: string)
    requires Follows(r)
    ensures EscapeHtml(s) + r != "<t" + t
  {
    hide EscapeHtml;
    EscapedIsInert(s);
    var e := EscapeHtml(s);
    EndTagAfter(e, r);
    assert e != "" ==> (e + r)[0] in e;
    assert ("<t" + t)[0] == '<' && ("<t" + t)[1] == 't';
  }

  /** The markup can be read in one way only: the same text comes from the same grid. */
  lemma {:induction false} HtmlApart(g: Grid, h: Grid, r: string, q: string)
    requires Html(g) + r == Html(h) + q && Follows(r) && Follows(q)
    ensures g == h && r == q
    decreases g, 0
  {
    hide EscapeHtml, HtmlRows;
    match (g, h)
    case (Cell(s), Cell(t)) => TextsApart(s, t, r, q);
    case (Table(rows), Table(others)) =>
      var end := "</table>";
      assert Html(g) + r == "<table>" + (HtmlRows(rows) + (end + r));
      assert Html(h) + q == "<table>" + (HtmlRows(others) + (end + q));
      Peel("<table>", HtmlRows(rows) + (end + r), HtmlRows(others) + (end + q));
      RowsApart(rows, others, r, q);
    case (Cell(s), Table(others)) =>
      var t := "able>" + HtmlRows(others) + "</table>" + q;
      assert Html(h) + q == "<t" + t;
      TextIsNoTable(s, r, t);
    case (Table(rows), Cell(s)) =>
      var t := "able>" + HtmlRows(rows) + "</table>" + r;
      assert Html(g) + r == "<t" + t;
      TextIsNoTable(s, q, t);
  }

  /** One more piece of markup cannot be taken for the end tag that closes the list. */
  lemma TagsApart(tag: string, a: string, end: string, b: string)
    requires |tag| >= 2 && |end| >= 2 && tag[1] != end[1]
    ensures tag + a != end + b
  {
    assert (tag + a)[1] == tag[1] && (end + b)[1] == end[1];
  }

  lemma RowsStep(rows: seq<Row>, t: string)
    ensures HtmlRows(rows) + t ==
            if rows == [] then t
            else "<tr>" + (HtmlCells(rows[0].cells) + ("</tr>" + (HtmlRows(rows[1..]) + t)))
  {
    hide HtmlCells;
  }

  lemma CellsStep(cells: seq<Grid>, t: string)
    ensures HtmlCells(cells) + t ==
            if cells == [] then t
            else "<td>" + (Html(cells[0]) + ("</td>" + (HtmlCells(cells[1..]) + t)))
  {
    hide Html;
  }

  lemma {:induction false} RowsApart(rows: seq<Row>, others: seq<Row>, r: string, q: string)
    requires HtmlRows(rows) + ("</table>" + r) == HtmlRows(others) + ("</table>" + q)
    ensures rows == others && r == q
    decreases rows, 2
  {
    hide HtmlRows, HtmlCells;
    RowsStep(rows, "</table>" + r);
    RowsStep(others, "</table>" + q);
    if rows == [] && others == [] {
      Peel("</table>", r, q);
    } else if rows == [] {
      TagsApart("<tr>", HtmlCells(others[0].cells) + ("</tr>" + (HtmlRows(others[1..]) + ("</table>" + q))), "</table>", r);
    } else if others == [] {
      TagsApart("<tr>", HtmlCells(rows[0].cells) + ("</tr>" + (HtmlRows(rows[1..]) + ("</table>" + r))), "</table>", q);
    } else {
      var a, b := HtmlRows(rows[1..]) + ("</table>" + r), HtmlRows(others[1..]) + ("</table>" + q);
      Peel("<tr>", HtmlCells(rows[0].cells) + ("</tr>" + a), HtmlCells(others[0].cells) + ("</tr>" + b));
      CellsApart(rows[0].cells, others[0].cells, a, b);
      RowsApart(rows[1..], others[1..], r, q);
      assert rows == [rows[0]] + rows[1..] && others == [others[0]] + others[1..];
    }
  }

  lemma {:induction false} CellsApart(cells: seq<Grid>, others: seq<Grid>, r: string, q: string)
    requires HtmlCells(cells) + ("</tr>" + r) == HtmlCells(others) + ("</tr>" + q)
    ensures cells == others && r == q
    decreases cells, 1
  {
    hide HtmlCells, Html;
    CellsStep(cells, "</tr>" + r);
    CellsStep(others, "</tr>" + q);
    if cells == [] && others == [] {
      Peel("</tr>", r, q);
    } else if cells == [] {
      TagsApart("<td>", Html(others[0]) + ("</td>" + (HtmlCells(others[1..]) + ("</tr>" + q))), "</tr>", r);
    } else if others == [] {
      TagsApart("<td>", Html(cells[0]) + ("</td>" + (HtmlCells(cells[1..]) + ("</tr>" + r))), "</tr>", q);
    } else {
      var a, b := HtmlCells(cells[1..]) + ("</tr>" + r), HtmlCells(others[1..]) + ("</tr>" + q);
      Peel("<td>", Html(cells[0]) + ("</td>" + a), Html(others[0]) + ("</td>" + b));
      HtmlApart(cells[0], others[0], "</td>" + a, "</td>" + b);
      Peel("</td>", a, b);
      CellsApart(cells[1..], others[1..], r, q);
      assert cells == [cells[0]] + cells[1..] && others == [others[0]] + others[1..];
    }
  }

  /** Two values are printed alike exactly when they show the same grid of texts: nothing in
      a text can add, end or move a cell, and no character of a text is lost. */
  lemma PrintedAlike(v: Value, deep: nat, w: Value, deep': nat)
    ensures Tablify(v, deep) == Tablify(w, deep') <==> GridOf(v, deep) == GridOf(w, deep')
  {
    TablifyIsHtml(v, deep);
    TablifyIsHtml(w, deep');
    if Tablify(v, deep) == Tablify(w, deep') {
      var g, h := GridOf(v, deep), GridOf(w, deep');
      assert Html(g) + "" == Html(g) && Html(h) + "" == Html(h);
      HtmlApart(g, h, "", "");
    }
  }
}

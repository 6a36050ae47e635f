/** `DocxTextExtractor`: the plain text of a word-processing document, read
    from its body elements in document order. */
module DocxTextExtractor {
  import opened KotlinStd

  /** A table cell: the texts of its paragraphs (a paragraph's text may be null). */
  type Cell = seq<Option<string>>

  /** A body element as the document library hands it over: a paragraph
      with its (nullable) text, a table as rows of cells, or any other
      element kind. */
  datatype BodyElement =
    | Paragraph(text: Option<string>)
    | Table(rows: seq<seq<Cell>>)
    | Other

  // ------------------------------------------------------------- paragraphs

  /** `p.text?.trimEnd().orEmpty()`. */
  function ParagraphText(text: Option<string>): string
  {
    TrimEnd(text.GetOr(""))
  }

  /** What a paragraph adds to the text: its right-trimmed text and a
      newline, or nothing when that text is blank. */
  function ParagraphLine(text: Option<string>): string
  {
    var t := ParagraphText(text);
    if IsBlank(t) then [] else t + "\n"
  }

  /** A paragraph contributes exactly when its text is not blank, and then
      without trailing whitespace before the one newline. */
  lemma ParagraphLineSpec(text: Option<string>)
    ensures ParagraphLine(text) == [] <==> IsBlank(text.GetOr(""))
    ensures ParagraphLine(text) != [] ==>
      ParagraphLine(text) == ParagraphText(text) + "\n" && !IsWs(ParagraphText(text)[|ParagraphText(text)| - 1])
  {
    BlankIffTrimEndEmpty(text.GetOr(""));
    TrimEndSpec(text.GetOr(""));
  }

  // ------------------------------------------------------------------ cells

  /** The paragraph texts of a cell, each `orEmpty().trim()`ed. */
  function TrimmedTexts(paragraphs: Cell): (r: seq<string>)
    ensures |r| == |paragraphs|
  {
    seq(|paragraphs|, k requires 0 <= k < |paragraphs| => Trim(paragraphs[k].GetOr("")))
  }

  /** `filter { it.isNotEmpty() }`. */
  function KeepNonEmpty(parts: seq<string>): seq<string>
  {
    if parts == [] then []
    else if parts[0] == [] then KeepNonEmpty(parts[1..])
    else [parts[0]] + KeepNonEmpty(parts[1..])
  }

  /** The filter keeps only non-empty parts, all taken from the input, and
      keeps none exactly when every part is empty. */
  lemma {:induction false} KeepNonEmptySpec(parts: seq<string>)
    ensures forall k | 0 <= k < |KeepNonEmpty(parts)| :: KeepNonEmpty(parts)[k] != []
    ensures forall k | 0 <= k < |KeepNonEmpty(parts)| :: KeepNonEmpty(parts)[k] in parts
    ensures KeepNonEmpty(parts) == [] <==> forall k | 0 <= k < |parts| :: parts[k] == []
  {
    if parts != [] {
      var tail := parts[1..];
      KeepNonEmptySpec(tail);
      assert forall k | 1 <= k < |parts| :: parts[k] == tail[k - 1];
      var r := KeepNonEmpty(parts);
      if parts[0] != [] {
        assert forall k | 1 <= k < |r| :: r[k] == KeepNonEmpty(tail)[k - 1];
      }
    }
  }

  /** The filter works part by part and keeps order: a single part is kept
      exactly when it is non-empty, and filtering a concatenation
      concatenates the filtered halves. */
  lemma {:induction false} KeepNonEmptyAppend(a: seq<string>, b: seq<string>)
    ensures KeepNonEmpty(a + b) == KeepNonEmpty(a) + KeepNonEmpty(b)
    ensures |a| == 1 ==> KeepNonEmpty(a) == if a[0] == [] then [] else a
  {
    if a != [] {
      assert (a + b)[0] == a[0];
      assert (a + b)[1..] == a[1..] + b;
      KeepNonEmptyAppend(a[1..], b);
      if |a| == 1 {
        assert a[1..] == [];
        assert [a[0]] == a;
      }
    } else {
      assert a + b == b;
    }
  }

  /** A cell's text: its non-empty trimmed paragraph texts joined by a space. */
  function CellText(paragraphs: Cell): string
  {
    JoinToString(KeepNonEmpty(TrimmedTexts(paragraphs)), " ")
  }

  /** Each trimmed paragraph text is empty exactly when the paragraph is
      blank, and otherwise neither starts nor ends with whitespace. */
  lemma TrimmedTextsSpec(paragraphs: Cell)
    ensures forall k | 0 <= k < |paragraphs| ::
      TrimmedTexts(paragraphs)[k] == [] <==> IsBlank(paragraphs[k].GetOr(""))
    ensures forall k | 0 <= k < |paragraphs| :: TrimmedTexts(paragraphs)[k] == [] || Solid(TrimmedTexts(paragraphs)[k])
  {
    var texts := TrimmedTexts(paragraphs);
    forall k | 0 <= k < |texts|
      ensures texts[k] == [] <==> IsBlank(paragraphs[k].GetOr(""))
      ensures texts[k] == [] || Solid(texts[k])
    {
      TrimSpec(paragraphs[k].GetOr(""));
    }
  }

  /** A non-empty text with no whitespace at either end. */
  predicate Solid(t: string)
  {
    t != [] && !IsWs(t[0]) && !IsWs(t[|t| - 1])
  }

  /** A cell's text is empty exactly when every paragraph of the cell is
      blank. */
  lemma CellTextEmptyIff(paragraphs: Cell)
    ensures CellText(paragraphs) == [] <==> forall k | 0 <= k < |paragraphs| :: IsBlank(paragraphs[k].GetOr(""))
  {
    var texts := TrimmedTexts(paragraphs);
    var parts := KeepNonEmpty(texts);
    KeepNonEmptySpec(texts);
    JoinEnds(parts, " ");
    TrimmedTextsSpec(paragraphs);
  }

  /** What a cell's text holds: one more paragraph adds nothing when it is
      blank, and otherwise its trimmed text, after a space unless the text
      so far is empty. */
  lemma CellTextSnoc(paragraphs: Cell, p: Option<string>)
    ensures CellText(paragraphs + [p]) ==
      if IsBlank(p.GetOr("")) then CellText(paragraphs)
      else if CellText(paragraphs) == [] then Trim(p.GetOr(""))
      else CellText(paragraphs) + " " + Trim(p.GetOr(""))
  {
    var texts := TrimmedTexts(paragraphs);
    var t := Trim(p.GetOr(""));
    assert TrimmedTexts(paragraphs + [p]) == texts + [t];
    KeepNonEmptyAppend(texts, [t]);
    KeepNonEmptyAppend([t], []);
    TrimSpec(p.GetOr(""));
    var kept := KeepNonEmpty(texts);
    if t != [] {
      if kept == [] {
        assert kept + [t] == [t];
      } else {
        JoinSnoc(kept, t, " ");
      }
    } else {
      assert kept + [] == kept;
    }
    KeepNonEmptySpec(texts);
    JoinEnds(kept, " ");
  }

  /** A cell's text neither starts nor ends with whitespace. */
  lemma CellTextSolid(paragraphs: Cell)
    ensures CellText(paragraphs) == [] || Solid(CellText(paragraphs))
  {
    var texts := TrimmedTexts(paragraphs);
    var parts := KeepNonEmpty(texts);
    KeepNonEmptySpec(texts);
    JoinEnds(parts, " ");
    TrimmedTextsSpec(paragraphs);
    if parts != [] {
      var first, last := parts[0], parts[|parts| - 1];
      assert first in texts && last in texts;
      var i :| 0 <= i < |texts| && texts[i] == first;
      var j :| 0 <= j < |texts| && texts[j] == last;
      assert Solid(first) && Solid(last);
    }
  }

  /** No character missing from every paragraph of a cell appears in the
      cell's text, except the joining space. */
  lemma CellTextExcludes(paragraphs: Cell, c: char)
    requires c != ' '
    requires forall k | 0 <= k < |paragraphs| :: c !in paragraphs[k].GetOr("")
    ensures c !in CellText(paragraphs)
  {
    var texts := TrimmedTexts(paragraphs);
    forall k | 0 <= k < |texts| ensures c !in texts[k] {
      TrimExcludes(paragraphs[k].GetOr(""), c);
    }
    KeepNonEmptySpec(texts);
    JoinExcludes(KeepNonEmpty(texts), " ", c);
  }

  // ----------------------------------------------------------------- tables

  /** The `cellTexts` of a row. */
  function CellTexts(row: seq<Cell>): (r: seq<string>)
    ensures |r| == |row|
  {
    seq(|row|, j requires 0 <= j < |row| => CellText(row[j]))
  }

  /** One table row as a line: the cell texts joined by tabs, then a newline. */
  function RowLine(row: seq<Cell>): string
  {
    JoinToString(CellTexts(row), "\t") + "\n"
  }

  lemma TableTextSnoc(rows: seq<seq<Cell>>, i: nat)
    requires i < |rows|
    ensures TableText(rows[..i + 1]) == TableText(rows[..i]) + RowLine(rows[i])
  {
    assert rows[..i + 1] == rows[..i] + [rows[i]];
    ConcatMapPush(RowLine, rows[..i], rows[i]);
  }

  /** What `appendTable` appends: one line per row. */
  function TableText(rows: seq<seq<Cell>>): string
  {
    ConcatMap(RowLine, rows)
  }

  /** `appendTable`: appends each row's line to the builder. */
  method AppendTable(rows: seq<seq<Cell>>, sb: StringBuilder)
    modifies sb
    ensures sb.contents == old(sb.contents) + TableText(rows)
  {
    ghost var start := sb.contents;
    for i := 0 to |rows|
      invariant sb.contents == start + TableText(rows[..i])
    {
      var cellTexts := CellTexts(rows[i]);
      ghost var done := sb.contents;
      sb.Append(JoinToString(cellTexts, "\t"));
      sb.Append("\n");
      assert sb.contents == done + RowLine(rows[i]);
      TableTextSnoc(rows, i);
    }
    assert rows[..|rows|] == rows;
  }

  /** When no paragraph text holds a newline, a table adds exactly one
      newline per row. */
  lemma {:induction false} TableTextNewlines(rows: seq<seq<Cell>>)
    requires forall i, j, k | 0 <= i < |rows| && 0 <= j < |rows[i]| && 0 <= k < |rows[i][j]| :: '\n' !in rows[i][j][k].GetOr("")
    ensures CountChar('\n', TableText(rows)) == |rows|
  {
    if rows != [] {
      var init := rows[..|rows| - 1];
      var row := rows[|rows| - 1];
      TableTextNewlines(init);
      var texts := CellTexts(row);
      forall j | 0 <= j < |texts| ensures '\n' !in texts[j] {
        CellTextExcludes(row[j], '\n');
      }
      JoinExcludes(texts, "\t", '\n');
      var joined := JoinToString(texts, "\t");
      assert CountChar('\n', joined) == 0;
      CountCharAppend('\n', joined, "\n");
      CountCharAppend('\n', TableText(init), RowLine(row));
    }
  }

  // --------------------------------------------------------------- document

  /** What one body element adds to the text. */
  function Contribution(el: BodyElement): string
  {
    match el
    case Paragraph(text) => ParagraphLine(text)
    case Table(rows) => TableText(rows) + "\n"
    case Other => []
  }

  /** The builder's contents after the element loop. */
  function Contributions(els: seq<BodyElement>): string
  {
    ConcatMap(Contribution, els)
  }

  /** The extracted text: the contributions with trailing whitespace removed. */
  function ExtractedText(els: seq<BodyElement>): string
  {
    TrimEnd(Contributions(els))
  }

  /** The extracted text is the contributions up to a blank tail, and never
      ends in whitespace (no trailing empty lines). */
  lemma ExtractedTextSpec(els: seq<BodyElement>)
    ensures ExtractedText(els) <= Contributions(els)
    ensures ExtractedText(els) == [] || !IsWs(ExtractedText(els)[|ExtractedText(els)| - 1])
    ensures IsBlank(Contributions(els)[|ExtractedText(els)|..])
  {
    TrimEndSpec(Contributions(els));
  }

  lemma ContributionsPush(els: seq<BodyElement>, x: BodyElement)
    ensures Contributions(els + [x]) == Contributions(els) + Contribution(x)
  {
    ConcatMapPush(Contribution, els, x);
  }

  lemma ContributionsSnoc(els: seq<BodyElement>, i: nat)
    requires i < |els|
    ensures Contributions(els[..i + 1]) == Contributions(els[..i]) + Contribution(els[i])
  {
    assert els[..i + 1] == els[..i] + [els[i]];
    ContributionsPush(els[..i], els[i]);
  }

  /** `extract`: a document the library cannot open throws; otherwise the
      body elements are visited in document order. */
  method Extract(doc: Outcome<seq<BodyElement>>) returns (result: Outcome<string>)
    ensures doc.Thrown? <==> result.Thrown?
    ensures doc.Ok? ==> result.value == ExtractedText(doc.value)
  {
    if doc.Thrown? {
      return Thrown;
    }
    var els := doc.value;
    var sb := new StringBuilder();
    for i := 0 to |els|
      invariant sb.contents == Contributions(els[..i])
    {
      match els[i] {
        case Paragraph(t) =>
          var text := TrimEnd(t.GetOr(""));
          if !IsBlank(text) {
            sb.Append(text);
            sb.Append("\n");
          }
        case Table(rows) =>
          AppendTable(rows, sb);
          sb.Append("\n");
        case Other =>
      }
      ContributionsSnoc(els, i);
    }
    assert els[..|els|] == els;
    result := Ok(TrimEnd(sb.contents));
  }

  // ------------------------------------------------------------- properties

  /** Elements contribute in document order. */
  lemma ContributionsAppend(a: seq<BodyElement>, b: seq<BodyElement>)
    ensures Contributions(a + b) == Contributions(a) + Contributions(b)
  {
    ConcatMapAppend(Contribution, a, b);
  }

  /** Elements that are neither paragraphs nor tables, and blank paragraphs,
      leave no trace in the text. */
  lemma Silent(a: seq<BodyElement>, el: BodyElement, b: seq<BodyElement>)
    requires el.Other? || (el.Paragraph? && IsBlank(el.text.GetOr("")))
    ensures Contributions(a + [el] + b) == Contributions(a + b)
  {
    if el.Paragraph? {
      ParagraphLineSpec(el.text);
    }
    assert Contribution(el) == [];
    ContributionsAppend(a + [el], b);
    ContributionsPush(a, el);
    ContributionsAppend(a, b);
  }

  /** A table always contributes, even when every cell is empty: when no cell
      paragraph holds a line break, one line per row and a blank line after
      the table. */
  lemma TableContribution(rows: seq<seq<Cell>>)
    requires forall i, j, k | 0 <= i < |rows| && 0 <= j < |rows[i]| && 0 <= k < |rows[i][j]| :: '\n' !in rows[i][j][k].GetOr("")
    ensures CountChar('\n', Contribution(Table(rows))) == |rows| + 1
  {
    TableTextNewlines(rows);
    CountCharAppend('\n', TableText(rows), "\n");
  }

  /** The texts of the non-blank paragraphs, right-trimmed, in order. */
  function ParagraphTexts(els: seq<BodyElement>): seq<string>
  {
    if els == [] then []
    else
      var init := ParagraphTexts(els[..|els| - 1]);
      var last := els[|els| - 1];
      if last.Paragraph? && !IsBlank(ParagraphText(last.text)) then init + [ParagraphText(last.text)] else init
  }

  lemma {:induction false} ParagraphsContributions(els: seq<BodyElement>)
    requires forall i | 0 <= i < |els| :: els[i].Paragraph?
    ensures ParagraphTexts(els) == [] ==> Contributions(els) == []
    ensures ParagraphTexts(els) != [] ==> Contributions(els) == JoinToString(ParagraphTexts(els), "\n") + "\n"
  {
    if els != [] {
      var init := els[..|els| - 1];
      var last := els[|els| - 1];
      assert forall i | 0 <= i < |init| :: init[i] == els[i];
      ParagraphsContributions(init);
      var t := ParagraphText(last.text);
      var prev := ParagraphTexts(init);
      assert els == init + [last];
      ContributionsPush(init, last);
      if IsBlank(t) {
        assert ParagraphTexts(els) == prev;
      } else {
        assert ParagraphTexts(els) == prev + [t];
        if prev != [] {
          JoinSnoc(prev, t, "\n");
        } else {
          assert prev + [t] == [t];
        }
      }
    }
  }

  /** Not empty and not ending in whitespace. */
  predicate EndsSolid(t: string)
  {
    t != [] && !IsWs(t[|t| - 1])
  }

  lemma {:induction false} ParagraphTextsNonEmpty(els: seq<BodyElement>)
    ensures forall k | 0 <= k < |ParagraphTexts(els)| :: EndsSolid(ParagraphTexts(els)[k])
  {
    if els != [] {
      var init := els[..|els| - 1];
      ParagraphTextsNonEmpty(init);
      var last := els[|els| - 1];
      if last.Paragraph? && !IsBlank(ParagraphText(last.text)) {
        var t := ParagraphText(last.text);
        TrimEndSpec(last.text.GetOr(""));
        assert EndsSolid(t);
        var prev := ParagraphTexts(init);
        assert ParagraphTexts(els) == prev + [t];
      }
    }
  }

  /** A document made of paragraphs only yields the non-blank paragraphs'
      right-trimmed texts, one per line, with no newline after the last. */
  lemma ParagraphsOnly(els: seq<BodyElement>)
    requires forall i | 0 <= i < |els| :: els[i].Paragraph?
    ensures ExtractedText(els) == JoinToString(ParagraphTexts(els), "\n")
  {
    ParagraphsContributions(els);
    var lines := ParagraphTexts(els);
    if lines != [] {
      ParagraphTextsNonEmpty(els);
      JoinEnds(lines, "\n");
      var j := JoinToString(lines, "\n");
      assert j[|j| - 1] == lines[|lines| - 1][|lines[|lines| - 1]| - 1];
      assert IsBlank("\n") by { assert IsWs('\n'); }
      TrimEndBlankSuffix(j, "\n");
    }
  }
}

/** The selection rules of `MainActivity`: which MIME type a picked document
    has, which loader handles it, which sheet of a workbook is shown, which
    dialog entry is pre-selected, and how the find-in-page query is kept. */
module MainActivity {
  import opened KotlinStd
  import XlsxReader

  type Uri = string

  const MimeDocx: string := "application/vnd.openxmlformats-officedocument.wordprocessingml.document"
  const MimeXlsx: string := "application/vnd.openxmlformats-officedocument.spreadsheetml.sheet"
  const MimePdf: string := "application/pdf"
  const FileTypeDocx: string := "docx"
  const FileTypeXlsx: string := "xlsx"
  const FileTypePdf: string := "pdf"
  const DefaultFontIndex: nat := 1
  const ZoomValues: seq<int> := [80, 100, 120, 140]
  const LanguageDe: string := "de"
  const LanguageEn: string := "en"
  const LanguageNl: string := "nl"

  // ------------------------------------------------------- MIME type guessing

  /** Upper case for ASCII letters; every other character is kept. */
  function AsciiUpper(c: char): char
  {
    if 'a' <= c <= 'z' then (c as int - 32) as char else c
  }

  /** Kotlin's `Char.equals(other, ignoreCase = true)`, restricted to ASCII
      case mapping. */
  predicate CharEqualsIgnoreCase(a: char, b: char)
  {
    a == b || AsciiUpper(a) == AsciiUpper(b)
  }

  /** Kotlin's `endsWith(suffix, ignoreCase = true)`. */
  predicate EndsWithIgnoreCase(s: string, suffix: string)
  {
    |suffix| <= |s| && forall i | 0 <= i < |suffix| :: CharEqualsIgnoreCase(s[|s| - |suffix| + i], suffix[i])
  }

  /** `guessMimeType`: no last path segment gives no type; otherwise the
      type belonging to the segment's suffix, ignoring case, if any. */
  function GuessMimeType(lastPathSegment: Option<string>): Option<string>
  {
    match lastPathSegment
    case None => None
    case Some(name) =>
      if EndsWithIgnoreCase(name, ".docx") then Some(MimeDocx)
      else if EndsWithIgnoreCase(name, ".xlsx") then Some(MimeXlsx)
      else if EndsWithIgnoreCase(name, ".pdf") then Some(MimePdf)
      else None
  }

  /** No name ends with two of the three suffixes: they differ, ignoring
      case, in their fourth-last character. */
  lemma SuffixesExclusive(name: string)
    ensures !(EndsWithIgnoreCase(name, ".docx") && EndsWithIgnoreCase(name, ".xlsx"))
    ensures !(EndsWithIgnoreCase(name, ".docx") && EndsWithIgnoreCase(name, ".pdf"))
    ensures !(EndsWithIgnoreCase(name, ".xlsx") && EndsWithIgnoreCase(name, ".pdf"))
  {
    var docx, xlsx, pdf := ".docx", ".xlsx", ".pdf";
    if |name| >= 4 {
      var c := name[|name| - 4];
      if EndsWithIgnoreCase(name, docx) {
        assert CharEqualsIgnoreCase(name[|name| - |docx| + 1], docx[1]);
        assert !CharEqualsIgnoreCase(c, xlsx[1]) && !CharEqualsIgnoreCase(c, pdf[0]);
      }
      if EndsWithIgnoreCase(name, xlsx) {
        assert CharEqualsIgnoreCase(name[|name| - |xlsx| + 1], xlsx[1]);
        assert !CharEqualsIgnoreCase(c, pdf[0]);
      }
    }
  }

  /** The three suffixes exclude each other, so each type is guessed exactly
      for names with its suffix, whatever the order of the tests. */
  lemma GuessMimeTypeSpec(name: string)
    ensures GuessMimeType(Some(name)) == Some(MimeDocx) <==> EndsWithIgnoreCase(name, ".docx")
    ensures GuessMimeType(Some(name)) == Some(MimeXlsx) <==> EndsWithIgnoreCase(name, ".xlsx")
    ensures GuessMimeType(Some(name)) == Some(MimePdf) <==> EndsWithIgnoreCase(name, ".pdf")
    ensures GuessMimeType(Some(name)) == None <==>
      !EndsWithIgnoreCase(name, ".docx") && !EndsWithIgnoreCase(name, ".xlsx") && !EndsWithIgnoreCase(name, ".pdf")
  {
    SuffixesExclusive(name);
    assert |MimePdf| < |MimeXlsx| < |MimeDocx|;
  }

  /** Upper-casing a name does not change which suffixes it ends with. */
  lemma EndsWithIgnoresCase(name: string, upper: string, suffix: string)
    requires |upper| == |name| && forall i | 0 <= i < |name| :: upper[i] == AsciiUpper(name[i])
    ensures EndsWithIgnoreCase(upper, suffix) <==> EndsWithIgnoreCase(name, suffix)
  {
    if |suffix| <= |name| {
      forall i | 0 <= i < |suffix|
        ensures CharEqualsIgnoreCase(upper[|upper| - |suffix| + i], suffix[i]) <==>
          CharEqualsIgnoreCase(name[|name| - |suffix| + i], suffix[i])
      {
        var c := name[|name| - |suffix| + i];
        assert AsciiUpper(AsciiUpper(c)) == AsciiUpper(c);
      }
    }
  }

  /** Upper-casing the segment does not change the guess. */
  lemma GuessIgnoresCase(name: string, upper: string)
    requires |upper| == |name| && forall i | 0 <= i < |name| :: upper[i] == AsciiUpper(name[i])
    ensures GuessMimeType(Some(upper)) == GuessMimeType(Some(name))
  {
    EndsWithIgnoresCase(name, upper, ".docx");
    EndsWithIgnoresCase(name, upper, ".xlsx");
    EndsWithIgnoresCase(name, upper, ".pdf");
  }

  /** `contentResolver.getType(uri) ?: guessMimeType(uri)`. */
  function EffectiveMimeType(resolverType: Option<string>, lastPathSegment: Option<string>): Option<string>
  {
    if resolverType.Some? then resolverType else GuessMimeType(lastPathSegment)
  }

  /** Which loader `handleUri` starts, if any. */
  datatype Loader = LoadDocx | LoadXlsx | LoadPdf | WrongFormat

  /** The `when (mimeType)` of `handleUri`. */
  function LoaderFor(mimeType: Option<string>): Loader
  {
    if mimeType == Some(MimeDocx) then LoadDocx
    else if mimeType == Some(MimeXlsx) then LoadXlsx
    else if mimeType == Some(MimePdf) then LoadPdf
    else WrongFormat
  }

  /** The file type `handleUri` records for a loader. */
  function FileTypeOf(loader: Loader): string
    requires loader != WrongFormat
  {
    match loader
    case LoadDocx => FileTypeDocx
    case LoadXlsx => FileTypeXlsx
    case LoadPdf => FileTypePdf
  }

  /** A resolver type, when there is one, decides alone; without one, a
      document whose name has a known suffix gets that suffix's loader. */
  lemma LoaderForSpec(resolverType: Option<string>, lastPathSegment: Option<string>)
    ensures resolverType.Some? ==> LoaderFor(EffectiveMimeType(resolverType, lastPathSegment)) == LoaderFor(resolverType)
    ensures resolverType.None? && lastPathSegment.None? ==> LoaderFor(EffectiveMimeType(resolverType, lastPathSegment)) == WrongFormat
    ensures resolverType.None? && lastPathSegment.Some? ==>
      (LoaderFor(EffectiveMimeType(resolverType, lastPathSegment)) == LoadDocx <==> EndsWithIgnoreCase(lastPathSegment.value, ".docx"))
    ensures resolverType.None? && lastPathSegment.Some? ==>
      (LoaderFor(EffectiveMimeType(resolverType, lastPathSegment)) == LoadXlsx <==> EndsWithIgnoreCase(lastPathSegment.value, ".xlsx"))
    ensures resolverType.None? && lastPathSegment.Some? ==>
      (LoaderFor(EffectiveMimeType(resolverType, lastPathSegment)) == LoadPdf <==> EndsWithIgnoreCase(lastPathSegment.value, ".pdf"))
  {
    assert |MimePdf| < |MimeXlsx| < |MimeDocx|;
    if resolverType.None? && lastPathSegment.Some? {
      GuessMimeTypeSpec(lastPathSegment.value);
    }
  }

  // ----------------------------------------------------------- sheet choice

  /** `sheets.firstOrNull { it.name == name }`. */
  function FirstNamed(sheets: seq<XlsxReader.XlsxSheet>, name: string): (r: Option<XlsxReader.XlsxSheet>)
    ensures r.None? <==> forall i | 0 <= i < |sheets| :: sheets[i].name != name
    ensures r.Some? ==> exists i | 0 <= i < |sheets| ::
      sheets[i] == r.value && sheets[i].name == name && forall j | 0 <= j < i :: sheets[j].name != name
  {
    if sheets == [] then None
    else if sheets[0].name == name then
      Some(sheets[0])
    else
      var r := FirstNamed(sheets[1..], name);
      assert forall i | 1 <= i < |sheets| :: sheets[i] == sheets[1..][i - 1];
      if r.Some? then
        var i :| 0 <= i < |sheets| - 1 && sheets[1..][i] == r.value && sheets[1..][i].name == name
                 && forall j | 0 <= j < i :: sheets[1..][j].name != name;
        assert sheets[i + 1] == r.value;
        r
      else r
  }

  /** The sheet `loadXlsx` shows: the first one named like the remembered
      sheet, otherwise the first sheet. */
  function SelectSheet(sheets: seq<XlsxReader.XlsxSheet>, remembered: Option<string>): XlsxReader.XlsxSheet
    requires sheets != []
  {
    match remembered
    case None => sheets[0]
    case Some(name) => FirstNamed(sheets, name).GetOr(sheets[0])
  }

  /** The shown sheet is one of the workbook's sheets; it carries the
      remembered name when some sheet does, and is the first sheet
      otherwise. */
  lemma SelectSheetSpec(sheets: seq<XlsxReader.XlsxSheet>, remembered: Option<string>)
    requires sheets != []
    ensures SelectSheet(sheets, remembered) in sheets
    ensures remembered.Some? && (exists i | 0 <= i < |sheets| :: sheets[i].name == remembered.value) ==>
      SelectSheet(sheets, remembered).name == remembered.value
    ensures remembered.None? || (forall i | 0 <= i < |sheets| :: sheets[i].name != remembered.value) ==>
      SelectSheet(sheets, remembered) == sheets[0]
  {
  }

  // -------------------------------------------------------- dialog entries

  /** Kotlin's `indexOf`: the first position holding `x`, or -1. */
  function IndexOf<T(==)>(xs: seq<T>, x: T): (r: int)
    ensures -1 <= r < |xs|
    ensures r == -1 <==> x !in xs
    ensures r >= 0 ==> xs[r] == x && forall j | 0 <= j < r :: xs[j] != x
  {
    if xs == [] then -1
    else if xs[0] == x then 0
    else
      var r := IndexOf(xs[1..], x);
      assert x in xs <==> x in xs[1..] by {
        assert xs == [xs[0]] + xs[1..];
      }
      if r == -1 then -1 else r + 1
  }

  /** The font-size dialog's pre-selected entry:
      `zoomValues.indexOf(currentZoom).takeIf { it >= 0 } ?: DEFAULT_FONT_INDEX`. */
  function FontSizeCheckedItem(currentZoom: int): nat
  {
    var i := IndexOf(ZoomValues, currentZoom);
    if i >= 0 then i else DefaultFontIndex
  }

  /** The entry holds the saved zoom when that zoom is offered, and is the
      normal size (100) otherwise. */
  lemma FontSizeCheckedItemSpec(currentZoom: int)
    ensures FontSizeCheckedItem(currentZoom) < |ZoomValues|
    ensures currentZoom in ZoomValues ==> ZoomValues[FontSizeCheckedItem(currentZoom)] == currentZoom
    ensures currentZoom !in ZoomValues ==> ZoomValues[FontSizeCheckedItem(currentZoom)] == 100
  {
  }

  /** The language dialog's pre-selected entry: the saved language (German
      when none is saved) among `[de, en, nl]`, else the first entry. */
  function LanguageCheckedItem(saved: Option<string>): nat
  {
    var current := saved.GetOr(LanguageDe);
    var i := IndexOf([LanguageDe, LanguageEn, LanguageNl], current);
    if i >= 0 then i else 0
  }

  lemma LanguageCheckedItemSpec(saved: Option<string>)
    ensures LanguageCheckedItem(saved) < 3
    ensures saved.None? ==> LanguageCheckedItem(saved) == 0
    ensures saved.Some? && saved.value in [LanguageDe, LanguageEn, LanguageNl] ==>
      [LanguageDe, LanguageEn, LanguageNl][LanguageCheckedItem(saved)] == saved.value
    ensures saved.Some? && saved.value !in [LanguageDe, LanguageEn, LanguageNl] ==> LanguageCheckedItem(saved) == 0
  {
  }

  // ----------------------------------------------------------------- search

  /** What `performSearch` asks of the page: clear the highlights, or move
      to the next or previous match, first starting a new search for
      `findAll` when that is present. */
  datatype SearchEffect = ClearMatches | FindNext(findAll: Option<string>, forward: bool)

  /** The query `performSearch` reads: the trimmed input, `""` for none. */
  function SearchQuery(input: Option<string>): string
  {
    if input.Some? then Trim(input.value) else []
  }

  /** The new `currentSearchQuery` and the effect of one `performSearch`. */
  function SearchStep(current: Option<string>, input: Option<string>, forward: bool): (Option<string>, SearchEffect)
  {
    var query := SearchQuery(input);
    if IsBlank(query) then (None, ClearMatches)
    else if current != Some(query) then (Some(query), FindNext(Some(query), forward))
    else (current, FindNext(None, forward))
  }

  /** A blank query resets the stored query; any other query is stored, a new
      search starts exactly when it differs from the stored one, and
      searching again with the same input starts none. */
  lemma SearchStepSpec(current: Option<string>, input: Option<string>, forward: bool, again: bool)
    ensures SearchQuery(input) == [] <==> SearchStep(current, input, forward) == (None, ClearMatches)
    ensures SearchQuery(input) != [] ==>
      SearchStep(current, input, forward).0 == Some(SearchQuery(input)) &&
      (SearchStep(current, input, forward).1.findAll.Some? <==> current != Some(SearchQuery(input)))
    ensures SearchStep(SearchStep(current, input, forward).0, input, again).1.FindNext? ==>
      SearchStep(SearchStep(current, input, forward).0, input, again).1 == FindNext(None, again)
  {
    if input.Some? {
      TrimSpec(input.value);
      var q := Trim(input.value);
      if q != [] {
        assert !IsBlank(q);
      }
    }
  }

  // ------------------------------------------------------------ the activity

  /** The activity fields the selection rules read and write. */
  class ViewerState {
    var currentUri: Option<Uri>
    var currentFileType: Option<string>
    var currentSheetName: Option<string>
    var currentShareText: Option<string>
    var currentXlsxContent: Option<XlsxReader.XlsxContent>
    var currentSearchQuery: Option<string>

    constructor ()
      ensures currentUri == None && currentFileType == None && currentSheetName == None
      ensures currentShareText == None && currentXlsxContent == None && currentSearchQuery == None
    {
      currentUri := None;
      currentFileType := None;
      currentSheetName := None;
      currentShareText := None;
      currentXlsxContent := None;
      currentSearchQuery := None;
    }

    /** The dispatch of `handleUri`: a known type records the document and
        its file type and names the loader to start; any other type changes
        nothing. */
    method HandleUri(uri: Uri, resolverType: Option<string>, lastPathSegment: Option<string>) returns (loader: Loader)
      modifies this`currentUri, this`currentFileType
      ensures loader == LoaderFor(EffectiveMimeType(resolverType, lastPathSegment))
      ensures loader != WrongFormat ==> currentUri == Some(uri) && currentFileType == Some(FileTypeOf(loader))
      ensures loader == WrongFormat ==> currentUri == old(currentUri) && currentFileType == old(currentFileType)
    {
      var mimeType := if resolverType.Some? then resolverType else GuessMimeType(lastPathSegment);
      if mimeType == Some(MimeDocx) {
        currentUri := Some(uri);
        currentFileType := Some(FileTypeDocx);
        loader := LoadDocx;
      } else if mimeType == Some(MimeXlsx) {
        currentUri := Some(uri);
        currentFileType := Some(FileTypeXlsx);
        loader := LoadXlsx;
      } else if mimeType == Some(MimePdf) {
        currentUri := Some(uri);
        currentFileType := Some(FileTypePdf);
        loader := LoadPdf;
      } else {
        loader := WrongFormat;
      }
    }

    /** The end of `loadXlsx`: a failed, missing or empty workbook changes no
        sheet state; otherwise the workbook is kept and the selected sheet's
        name and TSV are recorded, and its page is the one shown. */
    method ShowWorkbook(result: Outcome<Option<XlsxReader.XlsxContent>>) returns (shown: Option<string>)
      modifies this`currentXlsxContent, this`currentSheetName, this`currentShareText
      ensures (result.Thrown? || result.value.None? || result.value.value.sheets == []) ==>
        shown.None? && currentXlsxContent == old(currentXlsxContent) &&
        currentSheetName == old(currentSheetName) && currentShareText == old(currentShareText)
      ensures result.Ok? && result.value.Some? && result.value.value.sheets != [] ==>
        var sheet := SelectSheet(result.value.value.sheets, old(currentSheetName));
        currentXlsxContent == result.value && currentSheetName == Some(sheet.name) &&
        currentShareText == Some(sheet.tsv) && shown == Some(sheet.html)
    {
      if result.Thrown? || result.value.None? || result.value.value.sheets == [] {
        return None;
      }
      var content := result.value.value;
      currentXlsxContent := Some(content);
      var selectedSheet := if currentSheetName.Some? then FirstNamed(content.sheets, currentSheetName.value).GetOr(content.sheets[0])
                           else content.sheets[0];
      currentSheetName := Some(selectedSheet.name);
      currentShareText := Some(selectedSheet.tsv);
      shown := Some(selectedSheet.html);
    }

    /** The sheet picker: a position inside the loaded workbook records that
        sheet's TSV and name and shows its page; any other position, or no
        workbook, changes nothing. */
    method PickSheet(position: int) returns (shown: Option<string>)
      modifies this`currentShareText, this`currentSheetName
      ensures currentXlsxContent.Some? && 0 <= position < |currentXlsxContent.value.sheets| ==>
        var sheet := currentXlsxContent.value.sheets[position];
        shown == Some(sheet.html) && currentShareText == Some(sheet.tsv) && currentSheetName == Some(sheet.name)
      ensures !(currentXlsxContent.Some? && 0 <= position < |currentXlsxContent.value.sheets|) ==>
        shown.None? && currentShareText == old(currentShareText) && currentSheetName == old(currentSheetName)
    {
      shown := None;
      if currentXlsxContent.Some? {
        var sheets := currentXlsxContent.value.sheets;
        if 0 <= position < |sheets| {
          var sheet := sheets[position];
          shown := Some(sheet.html);
          currentShareText := Some(sheet.tsv);
          currentSheetName := Some(sheet.name);
        }
      }
    }

    /** `performSearch`: updates the stored query as `SearchStep` says and
        reports what is asked of the page. */
    method PerformSearch(input: Option<string>, forward: bool) returns (effect: SearchEffect)
      modifies this`currentSearchQuery
      ensures (currentSearchQuery, effect) == SearchStep(old(currentSearchQuery), input, forward)
    {
      var query := if input.Some? then Trim(input.value) else [];
      if IsBlank(query) {
        currentSearchQuery := None;
        return ClearMatches;
      }
      var findAll: Option<string> := None;
      if currentSearchQuery != Some(query) {
        currentSearchQuery := Some(query);
        findAll := Some(query);
      }
      effect := FindNext(findAll, forward);
    }
  }
}

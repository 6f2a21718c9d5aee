/**
 * The duplicate index of `PaperProcessor` (lib/paper-processor.js): the
 * arXiv ids and normalised titles recovered from the README's table rows
 * (`parseExistingPapers` with `extractArxivUrl`, `extractArxivId`,
 * `extractTitleText`), and the ordered duplicate test `isDuplicate`.
 */
module CatalogIndex {
  import opened Wrappers
  import opened Text
  import opened TitleNormal
  import opened EditDistance
  import opened OrderedSets

  /**
   * `existingPapers` and `existingTitles`. The titles keep the insertion
   * order of the JavaScript `Set`, which is the order `isDuplicate` scans.
   */
  datatype PaperIndex = PaperIndex(ids: set<string>, titles: seq<string>)

  const EmptyIndex := PaperIndex({}, [])

  // ---------------------------------------------------------------- regex searches

  /** The longest prefix of `s` whose characters all satisfy `ok` (a greedy `[...]+` run). */
  function Span(s: string, ok: char -> bool): (r: string)
    ensures r <= s
    ensures forall i :: 0 <= i < |r| ==> ok(r[i])
    ensures |r| < |s| ==> !ok(s[|r|])
  {
    if |s| > 0 && ok(s[0]) then [s[0]] + Span(s[1..], ok) else ""
  }

  /** A greedy run over `t` stops at the first character after it that fails `ok`. */
  lemma {:induction false} SpanUpTo(t: string, rest: string, ok: char -> bool)
    requires forall i :: 0 <= i < |t| ==> ok(t[i])
    requires |rest| > 0 && !ok(rest[0])
    ensures Span(t + rest, ok) == t
    decreases |t|
  {
    if |t| > 0 {
      assert (t + rest)[1..] == t[1..] + rest;
      SpanUpTo(t[1..], rest, ok);
    }
  }

  /** `at` matches `text` at `k` with result `r` and at no earlier position. */
  predicate LeftmostAt(text: string, at: string -> Option<string>, k: int, r: Option<string>) {
    0 <= k <= |text| && at(text[k..]) == r && forall j :: 0 <= j < k ==> at(text[j..]).None?
  }

  /** A regex search without the `g` flag: the match starting at the leftmost position where one exists. */
  function Search(text: string, at: string -> Option<string>): (r: Option<string>)
    ensures r.Some? ==> exists k :: LeftmostAt(text, at, k, r)
    ensures r.None? ==> forall k :: 0 <= k <= |text| ==> at(text[k..]).None?
  {
    assert text[0..] == text;
    if at(text).Some? then
      assert LeftmostAt(text, at, 0, at(text));
      at(text)
    else if |text| == 0 then None
    else
      assert forall k :: 1 <= k <= |text| ==> text[k..] == text[1..][k - 1..];
      LeftmostShift(text, at, Search(text[1..], at));
      Search(text[1..], at)
  }

  /** A match that is leftmost in `text[1..]` is leftmost in `text` when `text` itself does not match. */
  lemma LeftmostShift(text: string, at: string -> Option<string>, r: Option<string>)
    requires |text| > 0 && at(text).None?
    requires r.Some? ==> exists k :: LeftmostAt(text[1..], at, k, r)
    ensures r.Some? ==> exists k :: LeftmostAt(text, at, k, r)
  {
    if r.Some? {
      var k :| LeftmostAt(text[1..], at, k, r);
      assert text[k + 1..] == text[1..][k..];
      forall j | 0 <= j < k + 1
        ensures at(text[j..]).None?
      {
        if j > 0 {
          assert text[j..] == text[1..][j - 1..];
        }
      }
      assert LeftmostAt(text, at, k + 1, r);
    }
  }

  const ArxivHttps := "https://arxiv.org/"
  const ArxivHttp := "http://arxiv.org/"

  predicate IsUrlChar(c: char) {
    c != ')' && c != ']'
  }

  /** `t` starts with `scheme` followed by at least one URL character. */
  predicate OpensUrl(t: string, scheme: string) {
    scheme <= t && |t| > |scheme| && IsUrlChar(t[|scheme|])
  }

  /** `/https?:\/\/arxiv\.org\/[^\)\]]+/` anchored at the start of `t`: the greedy run up to a `)`, a `]` or the end. */
  function ArxivUrlAt(t: string): (r: Option<string>)
    ensures r.Some? <==> OpensUrl(t, ArxivHttps) || OpensUrl(t, ArxivHttp)
    ensures r.Some? ==> (ArxivHttps <= r.value || ArxivHttp <= r.value) && r.value <= t && |r.value| > |ArxivHttp|
    ensures r.Some? ==> forall i :: 0 <= i < |r.value| ==> IsUrlChar(r.value[i])
    ensures r.Some? ==> |r.value| == |t| || !IsUrlChar(t[|r.value|])
  {
    if ArxivHttps <= t && |Span(t[|ArxivHttps|..], IsUrlChar)| > 0 then
      Some(ArxivHttps + Span(t[|ArxivHttps|..], IsUrlChar))
    else if ArxivHttp <= t && |Span(t[|ArxivHttp|..], IsUrlChar)| > 0 then
      assert ArxivHttp[4] == ':' && ArxivHttps[4] == 's';
      Some(ArxivHttp + Span(t[|ArxivHttp|..], IsUrlChar))
    else None
  }

  /** `extractArxivUrl`: the leftmost arXiv URL in a cell, up to a `)` or `]`. */
  function ExtractArxivUrl(text: string): (r: Option<string>)
    ensures r.Some? ==> (ArxivHttps <= r.value || ArxivHttp <= r.value) && Contains(text, r.value)
    ensures r.Some? ==> exists k :: LeftmostAt(text, ArxivUrlAt, k, r)
    ensures r.None? ==> forall k :: 0 <= k <= |text| ==> ArxivUrlAt(text[k..]).None?
  {
    UrlSearchContained(text);
    Search(text, ArxivUrlAt)
  }

  lemma UrlSearchContained(text: string)
    ensures Search(text, ArxivUrlAt).Some? ==> Contains(text, Search(text, ArxivUrlAt).value)
  {
    var r := Search(text, ArxivUrlAt);
    if r.Some? {
      var k :| LeftmostAt(text, ArxivUrlAt, k, r);
      ContainsAt(text, r.value, k);
    }
  }

  const AbsMarker := "arxiv.org/abs/"
  const PdfSuffix := ".pdf"

  predicate HasLineTerminator(s: string) {
    exists i :: 0 <= i < |s| && IsLineTerminator(s[i])
  }

  /** `s` is something followed by `.pdf`. */
  predicate EndsWithPdf(s: string) {
    |s| > |PdfSuffix| && s[|s| - |PdfSuffix|..] == PdfSuffix
  }

  /**
   * `id` is what `(.+?)(?:\.pdf)?$` captures from `rest`: the lazy group
   * stops before a final `.pdf` whenever something precedes it.
   */
  predicate IsIdOf(rest: string, id: string) {
    (EndsWithPdf(rest) && rest == id + PdfSuffix) || (!EndsWithPdf(rest) && rest == id)
  }

  /** The marker starts at `k` in `url` and `id` is what the pattern captures after it. */
  predicate IdAfterMarker(url: string, k: int, id: string) {
    0 <= k <= |url| && AbsMarker <= url[k..] && IsIdOf(url[k + |AbsMarker|..], id)
  }

  /** `/arxiv\.org\/abs\/(.+?)(?:\.pdf)?$/` anchored at the start of `t`. */
  function ArxivIdAt(t: string): (r: Option<string>)
    ensures r.Some? <==> AbsMarker <= t && |t| > |AbsMarker| && !HasLineTerminator(t[|AbsMarker|..])
    ensures r.Some? ==> |r.value| > 0 && IsIdOf(t[|AbsMarker|..], r.value)
  {
    if AbsMarker <= t then
      var rest := t[|AbsMarker|..];
      if |rest| > 0 && !HasLineTerminator(rest) then
        if EndsWithPdf(rest) then
          assert rest == rest[..|rest| - |PdfSuffix|] + PdfSuffix;
          Some(rest[..|rest| - |PdfSuffix|])
        else
          Some(rest)
      else None
    else None
  }

  /** Some position of `url` starts an `arxiv.org/abs/` the id pattern accepts. */
  predicate HasAbsId(url: string) {
    exists m :: 0 <= m <= |url| && ArxivIdAt(url[m..]).Some?
  }

  /** `extractArxivId`: the id after the leftmost usable `arxiv.org/abs/`, without a trailing `.pdf`. */
  function ExtractArxivId(url: string): (r: Option<string>)
    ensures r.Some? <==> HasAbsId(url)
    ensures r.Some? ==> |r.value| > 0 && Contains(url, AbsMarker + r.value)
    ensures r.Some? ==> exists k :: LeftmostAt(url, ArxivIdAt, k, r) && IdAfterMarker(url, k, r.value)
    ensures r.None? ==> forall k :: 0 <= k <= |url| && AbsMarker <= url[k..] ==>
      var rest := url[k + |AbsMarker|..]; |rest| == 0 || HasLineTerminator(rest)
  {
    IdSearchFacts(url);
    Search(url, ArxivIdAt)
  }

  lemma IdSearchFacts(url: string)
    ensures Search(url, ArxivIdAt).Some? ==> Contains(url, AbsMarker + Search(url, ArxivIdAt).value)
    ensures Search(url, ArxivIdAt).Some? ==>
      exists k :: (LeftmostAt(url, ArxivIdAt, k, Search(url, ArxivIdAt))
                   && IdAfterMarker(url, k, Search(url, ArxivIdAt).value))
    ensures Search(url, ArxivIdAt).None? ==> forall k :: 0 <= k <= |url| && AbsMarker <= url[k..] ==>
      var rest := url[k + |AbsMarker|..]; |rest| == 0 || HasLineTerminator(rest)
  {
    if Search(url, ArxivIdAt).Some? {
      IdSearchFound(url, Search(url, ArxivIdAt).value);
    } else {
      forall k | 0 <= k <= |url| && AbsMarker <= url[k..]
        ensures var rest := url[k + |AbsMarker|..]; |rest| == 0 || HasLineTerminator(rest)
      {
        assert ArxivIdAt(url[k..]).None?;
        assert url[k..][|AbsMarker|..] == url[k + |AbsMarker|..];
      }
    }
  }

  lemma IdSearchFound(url: string, id: string)
    requires Search(url, ArxivIdAt) == Some(id)
    ensures Contains(url, AbsMarker + id)
    ensures exists k :: LeftmostAt(url, ArxivIdAt, k, Some(id)) && IdAfterMarker(url, k, id)
  {
    var k :| LeftmostAt(url, ArxivIdAt, k, Some(id));
    var rest := url[k + |AbsMarker|..];
    assert url[k..][|AbsMarker|..] == rest;
    assert IdAfterMarker(url, k, id);
    assert url[k..] == AbsMarker + rest;
    IdIsPrefixOfRest(rest, id);
    assert AbsMarker + id <= url[k..];
    ContainsAt(url, AbsMarker + id, k);
  }

  lemma IdIsPrefixOfRest(rest: string, id: string)
    requires IsIdOf(rest, id)
    ensures id <= rest
  {
    if EndsWithPdf(rest) {
      assert rest[..|id|] == id;
    }
  }

  predicate NotCloseBracket(c: char) {
    c != ']'
  }

  /** `/\[([^\]]+)\]/` anchored at the start of `t`: the bracketed text. */
  function TitleAt(t: string): (r: Option<string>)
    ensures r.Some? ==> |r.value| > 0 && ']' !in r.value && "[" + r.value + "]" <= t
  {
    if |t| > 0 && t[0] == '[' then
      var run := Span(t[1..], NotCloseBracket);
      if |run| > 0 && 1 + |run| < |t| then
        assert t[..|run| + 2] == "[" + run + "]";
        Some(run)
      else None
    else None
  }

  /** `extractTitleText`: the text inside the leftmost non-empty `[...]`. */
  function ExtractTitleText(cell: string): (r: Option<string>)
    ensures r.Some? ==> |r.value| > 0 && ']' !in r.value && Contains(cell, "[" + r.value + "]")
    ensures r.Some? ==> exists k :: LeftmostAt(cell, TitleAt, k, r)
    ensures r.None? ==> forall k :: 0 <= k <= |cell| ==> TitleAt(cell[k..]).None?
  {
    TitleSearchContained(cell);
    Search(cell, TitleAt)
  }

  lemma TitleSearchContained(cell: string)
    ensures Search(cell, TitleAt).Some? ==> Contains(cell, "[" + Search(cell, TitleAt).value + "]")
  {
    var r := Search(cell, TitleAt);
    if r.Some? {
      var k :| LeftmostAt(cell, TitleAt, k, r);
      ContainsAt(cell, "[" + r.value + "]", k);
    }
  }

  // ---------------------------------------------------------------- rows to keys

  /** What one table line contributes to the index: an arXiv id and a normalised title, each optional. */
  datatype RowKey = RowKey(id: Option<string>, title: Option<string>)

  const NoKey := RowKey(None, None)

  /**
   * The filter of `parseExistingPapers` as written: a `|` and neither `Paper`
   * nor `---` anywhere in the line. It is meant to pass over the header and
   * separator rows, but it also passes over any row that mentions `Paper`.
   */
  predicate IsCandidateRow(line: string) {
    Contains(line, "|") && !Contains(line, "Paper") && !Contains(line, "---")
  }

  /**
   * The keys of one paper cell: the id when the leftmost arXiv URL carries an
   * `arxiv.org/abs/` id, the normalised text of the leftmost non-empty `[...]`.
   */
  function CellKey(paperCell: string): (k: RowKey)
    ensures k.title.Some? <==> exists j :: 0 <= j <= |paperCell| && TitleAt(paperCell[j..]).Some?
    ensures k.title.Some? ==> IsNormalized(k.title.value)
    ensures k.title.Some? ==> exists t :: (t != "" && ']' !in t && Contains(paperCell, "[" + t + "]")
                                           && k.title.value == NormalizeTitle(t))
    ensures k.id.Some? <==> ExtractArxivUrl(paperCell).Some? && HasAbsId(ExtractArxivUrl(paperCell).value)
    ensures k.id.Some? ==> k.id.value != "" && Contains(paperCell, AbsMarker + k.id.value)
    ensures k.id.Some? ==> forall i :: 0 <= i < |k.id.value| ==> IsUrlChar(k.id.value[i])
    ensures !Contains(paperCell, AbsMarker) ==> k.id.None?
    ensures k.title.Some? ==> exists t :: ExtractTitleText(paperCell) == Some(t) && k.title == Some(NormalizeTitle(t))
    ensures k.id.Some? ==> exists u :: ExtractArxivUrl(paperCell) == Some(u) && ExtractArxivId(u) == k.id
  {
    var id := match ExtractArxivUrl(paperCell)
      case Some(u) => ExtractArxivId(u)
      case None => None;
    var title := match ExtractTitleText(paperCell)
      case Some(t) => Some(NormalizeTitle(t))
      case None => None;
    CellTitleFacts(paperCell);
    if id.Some? then
      CellIdFacts(paperCell, ExtractArxivUrl(paperCell).value, id.value);
      RowKey(id, title)
    else RowKey(id, title)
  }

  /** A title is read exactly when some position starts a non-empty `[...]`, and it is bracketed in the cell. */
  lemma CellTitleFacts(cell: string)
    ensures ExtractTitleText(cell).Some? <==> exists j :: 0 <= j <= |cell| && TitleAt(cell[j..]).Some?
    ensures ExtractTitleText(cell).Some? ==> ExtractTitleText(cell).value != "" && ']' !in ExtractTitleText(cell).value
    ensures ExtractTitleText(cell).Some? ==> Contains(cell, "[" + ExtractTitleText(cell).value + "]")
  {
    if ExtractTitleText(cell).Some? {
      var k :| LeftmostAt(cell, TitleAt, k, ExtractTitleText(cell));
      assert TitleAt(cell[k..]).Some?;
    }
  }

  /** An id read from a cell's URL lies in the cell right after the marker and holds no `)` or `]`. */
  lemma CellIdFacts(cell: string, u: string, id: string)
    requires ExtractArxivUrl(cell) == Some(u) && ExtractArxivId(u) == Some(id)
    ensures Contains(cell, AbsMarker + id)
    ensures forall i :: 0 <= i < |id| ==> IsUrlChar(id[i])
    ensures Contains(cell, AbsMarker)
  {
    ContainsTrans(cell, u, AbsMarker + id);
    MarkerBeforeId(id);
    ContainsTrans(cell, AbsMarker + id, AbsMarker);
    UrlChars(cell, u);
    InfixUrlChars(u, AbsMarker + id);
    forall i | 0 <= i < |id|
      ensures IsUrlChar(id[i])
    {
      assert id[i] == (AbsMarker + id)[|AbsMarker| + i];
    }
  }

  lemma MarkerBeforeId(id: string)
    ensures Contains(AbsMarker + id, AbsMarker)
  {
    assert (AbsMarker + id)[..|AbsMarker|] == AbsMarker;
    ContainsAt(AbsMarker + id, AbsMarker, 0);
  }

  /** Every character of the URL `extractArxivUrl` returns is one the run accepts. */
  lemma UrlChars(cell: string, u: string)
    requires ExtractArxivUrl(cell) == Some(u)
    ensures forall i :: 0 <= i < |u| ==> IsUrlChar(u[i])
  {
    var k :| LeftmostAt(cell, ArxivUrlAt, k, Some(u));
  }

  lemma InfixUrlChars(u: string, piece: string)
    requires forall i :: 0 <= i < |u| ==> IsUrlChar(u[i])
    requires Contains(u, piece)
    ensures forall i :: 0 <= i < |piece| ==> IsUrlChar(piece[i])
  {
    var o :| 0 <= o <= |u| && piece <= u[o..];
    forall i | 0 <= i < |piece|
      ensures IsUrlChar(piece[i])
    {
      assert piece[i] == u[o + i];
    }
  }

  /** The keys `parseExistingPapers` reads from one line of the table section, filter as written. */
  function RowKeyAsWritten(line: string): (k: RowKey)
    ensures !IsCandidateRow(line) ==> k == NoKey
    ensures IsCandidateRow(line) && |Cells(line)| < 6 ==> k == NoKey
    ensures k != NoKey ==> IsCandidateRow(line) && |Cells(line)| >= 6 && k == CellKey(Cells(line)[1])
  {
    if IsCandidateRow(line) then
      var cells := Cells(line);
      if |cells| >= 6 then CellKey(cells[1]) else NoKey
    else NoKey
  }

  /**
   * The keys of one line with the word filter dropped: any line with a `|`
   * and six cells is read. The header and separator rows still add
   * nothing, because their first cell holds neither a `[` nor a `:`
   * (`CellWithoutLinkHasNoKey`).
   */
  function RowKeyOf(line: string): (k: RowKey)
    ensures !Contains(line, "|") || |Cells(line)| < 6 ==> k == NoKey
    ensures k != NoKey ==> Contains(line, "|") && |Cells(line)| >= 6 && k == CellKey(Cells(line)[1])
  {
    if Contains(line, "|") then
      var cells := Cells(line);
      if |cells| >= 6 then CellKey(cells[1]) else NoKey
    else NoKey
  }

  /** The corrected reading differs from the one as written only on lines the word filter drops. */
  lemma AsWrittenAgreesOnCandidates(line: string)
    requires IsCandidateRow(line)
    ensures RowKeyOf(line) == RowKeyAsWritten(line)
  {
  }

  /** A cell with neither a `[` nor a `:`, such as the header's `Paper` or a run of dashes, has no key. */
  lemma CellWithoutLinkHasNoKey(cell: string)
    requires '[' !in cell && ':' !in cell
    ensures CellKey(cell) == NoKey
  {
    NoTitleWithoutBracket(cell);
    NoUrlWithoutColon(cell);
  }

  lemma NoTitleWithoutBracket(cell: string)
    requires '[' !in cell
    ensures ExtractTitleText(cell).None?
  {
    forall k | 0 <= k <= |cell|
      ensures TitleAt(cell[k..]).None?
    {
      if k < |cell| {
        assert cell[k..][0] == cell[k];
      }
    }
  }

  /** Both URL schemes hold a `:`. */
  lemma SchemesHoldColon()
    ensures ArxivHttps[5] == ':' && ArxivHttp[4] == ':'
  {
  }

  /** A character of a prefix of a suffix of `cell` is a character of `cell`. */
  lemma PrefixCharIn(cell: string, k: nat, pre: string, i: nat)
    requires k <= |cell| && pre <= cell[k..] && i < |pre|
    ensures pre[i] in cell
  {
    assert pre[i] == cell[k + i];
  }

  lemma NoUrlWithoutColon(cell: string)
    requires ':' !in cell
    ensures ExtractArxivUrl(cell).None?
  {
    SchemesHoldColon();
    forall k | 0 <= k <= |cell|
      ensures ArxivUrlAt(cell[k..]).None?
    {
      if ArxivHttps <= cell[k..] {
        PrefixCharIn(cell, k, ArxivHttps, 5);
      }
      if ArxivHttp <= cell[k..] {
        PrefixCharIn(cell, k, ArxivHttp, 4);
      }
    }
  }

  /** Add one line's keys to the index. */
  function AddKey(idx: PaperIndex, k: RowKey): (r: PaperIndex)
    ensures r.ids == idx.ids + (if k.id.Some? then {k.id.value} else {})
    ensures forall t :: t in r.titles <==> t in idx.titles || k.title == Some(t)
    ensures Distinct(idx.titles) ==> Distinct(r.titles)
  {
    var withId := if k.id.Some? then idx.(ids := idx.ids + {k.id.value}) else idx;
    if k.title.Some? then withId.(titles := Add(withId.titles, k.title.value)) else withId
  }

  /** The keys of each line, in order. */
  function RowKeys(lines: seq<string>): (keys: seq<RowKey>)
    ensures |keys| == |lines| && forall i :: 0 <= i < |lines| ==> keys[i] == RowKeyOf(lines[i])
  {
    seq(|lines|, i requires 0 <= i < |lines| => RowKeyOf(lines[i]))
  }

  /** Add the keys in order. */
  function AddKeys(idx: PaperIndex, keys: seq<RowKey>): PaperIndex
    decreases |keys|
  {
    if |keys| == 0 then idx else AddKeys(AddKey(idx, keys[0]), keys[1..])
  }

  /** The `for (const line of lines)` loop of `parseExistingPapers`. */
  function ParseLines(idx: PaperIndex, lines: seq<string>): PaperIndex {
    AddKeys(idx, RowKeys(lines))
  }

  /**
   * `parseExistingPapers`. `section` is the capture of the `## Papers`
   * regex, `None` when the README has no such section.
   */
  function ParseExistingPapers(idx: PaperIndex, section: Option<string>): (r: PaperIndex)
    ensures section.None? ==> r == idx
    ensures idx.ids <= r.ids && forall t :: t in idx.titles ==> t in r.titles
  {
    match section
    case None => idx
    case Some(body) =>
      ParseLinesCollects(idx, Split(body, '\n'));
      ParseLines(idx, Split(body, '\n'))
  }

  /** The keys of each line as `parseExistingPapers` reads them, word filter included. */
  function RowKeysAsWritten(lines: seq<string>): (keys: seq<RowKey>)
    ensures |keys| == |lines| && forall i :: 0 <= i < |lines| ==> keys[i] == RowKeyAsWritten(lines[i])
  {
    seq(|lines|, i requires 0 <= i < |lines| => RowKeyAsWritten(lines[i]))
  }

  /** The line loop of `parseExistingPapers` as written: lines the word filter drops add nothing. */
  function ParseLinesAsWritten(idx: PaperIndex, lines: seq<string>): PaperIndex {
    AddKeys(idx, RowKeysAsWritten(lines))
  }

  /** As written, exactly the keys of the lines that pass the word filter are added. */
  lemma ParseLinesAsWrittenCollects(idx: PaperIndex, lines: seq<string>)
    ensures forall x :: x in ParseLinesAsWritten(idx, lines).ids <==>
      x in idx.ids || exists i :: 0 <= i < |lines| && IsCandidateRow(lines[i]) && RowKeyAsWritten(lines[i]).id == Some(x)
    ensures forall t :: t in ParseLinesAsWritten(idx, lines).titles <==>
      t in idx.titles || exists i :: 0 <= i < |lines| && IsCandidateRow(lines[i]) && RowKeyAsWritten(lines[i]).title == Some(t)
    ensures Distinct(idx.titles) ==> Distinct(ParseLinesAsWritten(idx, lines).titles)
  {
    var keys := RowKeysAsWritten(lines);
    AddKeysIds(idx, keys);
    AddKeysTitles(idx, keys);
    if Distinct(idx.titles) {
      AddKeysDistinct(idx, keys);
    }
  }

  /** As written, a line that yields no key leaves the index as it was. */
  lemma KeylessLineAsWritten(idx: PaperIndex, line: string)
    requires RowKeyAsWritten(line) == NoKey
    ensures ParseLinesAsWritten(idx, [line]) == idx
  {
    var keys := RowKeysAsWritten([line]);
    assert keys == [NoKey];
    assert AddKeys(AddKey(idx, keys[0]), keys[1..]) == AddKey(idx, NoKey);
  }

  /** When every line passes the word filter, the reading as written and the corrected one agree. */
  lemma AsWrittenParseAgrees(idx: PaperIndex, lines: seq<string>)
    requires forall i :: 0 <= i < |lines| ==> IsCandidateRow(lines[i])
    ensures ParseLinesAsWritten(idx, lines) == ParseLines(idx, lines)
  {
    forall i | 0 <= i < |lines|
      ensures RowKeysAsWritten(lines)[i] == RowKeys(lines)[i]
    {
      AsWrittenAgreesOnCandidates(lines[i]);
    }
    assert RowKeysAsWritten(lines) == RowKeys(lines);
  }

  /** Some line yields the id `x`. */
  predicate LineHasId(lines: seq<string>, x: string) {
    exists i :: 0 <= i < |lines| && RowKeyOf(lines[i]).id == Some(x)
  }

  /** Some line yields the normalised title `t`. */
  predicate LineHasTitle(lines: seq<string>, t: string) {
    exists i :: 0 <= i < |lines| && RowKeyOf(lines[i]).title == Some(t)
  }

  /** Exactly the keys of the lines are added, and the title set stays duplicate-free. */
  lemma ParseLinesCollects(idx: PaperIndex, lines: seq<string>)
    ensures forall x :: x in ParseLines(idx, lines).ids <==> x in idx.ids || LineHasId(lines, x)
    ensures forall t :: t in ParseLines(idx, lines).titles <==> t in idx.titles || LineHasTitle(lines, t)
    ensures Distinct(idx.titles) ==> Distinct(ParseLines(idx, lines).titles)
  {
    var keys := RowKeys(lines);
    AddKeysIds(idx, keys);
    AddKeysTitles(idx, keys);
    if Distinct(idx.titles) {
      AddKeysDistinct(idx, keys);
    }
  }

  lemma {:induction false} AddKeysIds(idx: PaperIndex, keys: seq<RowKey>)
    ensures forall x :: x in AddKeys(idx, keys).ids <==> x in idx.ids || exists i :: 0 <= i < |keys| && keys[i].id == Some(x)
    decreases |keys|
  {
    if |keys| > 0 {
      AddKeysIds(AddKey(idx, keys[0]), keys[1..]);
      assert forall i :: 0 <= i < |keys[1..]| ==> keys[1..][i] == keys[i + 1];
    }
  }

  lemma {:induction false} AddKeysTitles(idx: PaperIndex, keys: seq<RowKey>)
    ensures forall t :: t in AddKeys(idx, keys).titles <==> t in idx.titles || exists i :: 0 <= i < |keys| && keys[i].title == Some(t)
    decreases |keys|
  {
    if |keys| > 0 {
      AddKeysTitles(AddKey(idx, keys[0]), keys[1..]);
      assert forall i :: 0 <= i < |keys[1..]| ==> keys[1..][i] == keys[i + 1];
    }
  }

  lemma {:induction false} AddKeysDistinct(idx: PaperIndex, keys: seq<RowKey>)
    requires Distinct(idx.titles)
    ensures Distinct(AddKeys(idx, keys).titles)
    decreases |keys|
  {
    if |keys| > 0 {
      AddKeysDistinct(AddKey(idx, keys[0]), keys[1..]);
    }
  }

  /** One line adds its own keys. */
  lemma ParseOneLine(idx: PaperIndex, line: string)
    ensures ParseLines(idx, [line]) == AddKey(idx, RowKeyOf(line))
  {
    var keys := RowKeys([line]);
    assert keys == [RowKeyOf(line)];
    assert AddKeys(AddKey(idx, keys[0]), keys[1..]) == AddKey(idx, keys[0]);
  }

  /** A line without a bar, with too few cells, or whose first cell holds no link adds nothing. */
  lemma SkippedLineAddsNothing(idx: PaperIndex, line: string)
    requires !Contains(line, "|") || |Cells(line)| < 6 || ('[' !in Cells(line)[1] && ':' !in Cells(line)[1])
    ensures ParseLines(idx, [line]) == idx
  {
    ParseOneLine(idx, line);
    if Contains(line, "|") && |Cells(line)| >= 6 {
      CellWithoutLinkHasNoKey(Cells(line)[1]);
    }
  }

  /** An id enters the index only from a first cell holding an `arxiv.org/abs/` URL, `.pdf` removed. */
  lemma IdComesFromAbsUrl(idx: PaperIndex, line: string, x: string)
    requires x in ParseLines(idx, [line]).ids && x !in idx.ids
    ensures Contains(line, "|") && |Cells(line)| >= 6
    ensures exists u, k :: ExtractArxivUrl(Cells(line)[1]) == Some(u) && IdAfterMarker(u, k, x)
  {
    ParseOneLine(idx, line);
    assert RowKeyOf(line).id == Some(x);
  }

  // ---------------------------------------------------------------- duplicate test

  /** Why `isDuplicate` answered as it did; the source logs one message per case. */
  datatype MatchDecision = DuplicateId | DuplicateTitle | SimilarTitle(existing: string) | Accepted

  /** The `for (const existingTitle of this.existingTitles)` scan: the first stored title above the threshold. */
  function FirstSimilar(normalized: string, titles: seq<string>): (r: Option<string>)
    ensures r.Some? ==> r.value in titles && IsSimilar(normalized, r.value)
    ensures r.None? <==> forall i :: 0 <= i < |titles| ==> !IsSimilar(normalized, titles[i])
  {
    if |titles| == 0 then None
    else if IsSimilar(normalized, titles[0]) then Some(titles[0])
    else
      var r := FirstSimilar(normalized, titles[1..]);
      assert forall i :: 1 <= i < |titles| ==> titles[i] == titles[1..][i - 1];
      r
  }

  /** The ordered test: id first, then exact normalised title, then similarity strictly above 0.9. */
  function Classify(idx: PaperIndex, id: string, title: string): (d: MatchDecision)
    ensures d == DuplicateId <==> id in idx.ids
    ensures d == DuplicateTitle <==> id !in idx.ids && NormalizeTitle(title) in idx.titles
    ensures d.SimilarTitle? ==> (id !in idx.ids && NormalizeTitle(title) !in idx.titles
      && d.existing in idx.titles && IsSimilar(NormalizeTitle(title), d.existing))
    ensures d == Accepted <==> (id !in idx.ids && NormalizeTitle(title) !in idx.titles
      && forall t :: t in idx.titles ==> !IsSimilar(NormalizeTitle(title), t))
  {
    var normalized := NormalizeTitle(title);
    if id in idx.ids then DuplicateId
    else if normalized in idx.titles then DuplicateTitle
    else match FirstSimilar(normalized, idx.titles)
      case Some(t) => SimilarTitle(t)
      case None => Accepted
  }

  /** `isDuplicate`. */
  function IsDuplicate(idx: PaperIndex, id: string, title: string): (r: bool)
    ensures id in idx.ids ==> r
    ensures NormalizeTitle(title) in idx.titles ==> r
    ensures r <==> (id in idx.ids || NormalizeTitle(title) in idx.titles
      || exists t :: t in idx.titles && IsSimilar(NormalizeTitle(title), t))
    ensures idx.ids == {} && idx.titles == [] ==> !r
  {
    Classify(idx, id, title) != Accepted
  }
}

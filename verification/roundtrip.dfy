/**
 * A row written by the README writer (`generateTableRow` of
 * lib/github-operations.js), read back by the duplicate index
 * (`parseExistingPapers` of lib/paper-processor.js).
 *
 * The reader's line filter, as written, passes over every line that
 * mentions `Paper`, so a paper whose title holds that word is never
 * indexed and can be added again on a later run. With the word filter
 * dropped (`CatalogIndex.RowKeyOf`) the title of every written row is
 * read back.
 */
module RowRoundTrip {
  import opened Wrappers
  import opened Text
  import opened TitleNormal
  import opened Papers
  import opened ReadmeTable
  import opened CatalogIndex

  /** A row starts with its bar. */
  lemma RowHoldsBar(p: Processed)
    ensures Contains(GenerateTableRow(p), "|")
  {
    var pieces := RowPieces(p);
    assert GenerateTableRow(p) == pieces[0] + "|" + Join(pieces[1..], "|");
    ContainsAt(GenerateTableRow(p), "|", 0);
  }

  /** A row holds its paper's title. */
  lemma RowHoldsTitle(p: Processed)
    ensures Contains(GenerateTableRow(p), p.title)
  {
    var pieces := RowPieces(p);
    JoinHoldsPiece(pieces, "|", 1);
    assert pieces[1] == Padded(Link(p.title, p.absUrl));
    PaddedLinkHoldsTitle(p.title, p.absUrl);
    ContainsTrans(Join(pieces, "|"), pieces[1], p.title);
  }

  lemma PaddedLinkHoldsTitle(title: string, url: string)
    ensures Contains(Padded(Link(title, url)), title)
  {
    var piece := Padded(Link(title, url));
    assert piece == " [" + title + ("](" + url + ") ");
    assert piece[2..2 + |title|] == title;
    ContainsInfix(piece, 0, piece, 2, title);
  }

  /** The bracketed text of a link `[title](url)` is its title. */
  lemma LinkTitleReadBack(title: string, url: string)
    requires title != "" && ']' !in title
    ensures ExtractTitleText(Link(title, url)) == Some(title)
  {
    var cell := Link(title, url);
    var s := cell[1..];
    assert s == title + ("](" + url + ")");
    assert forall i :: 0 <= i < |title| ==> NotCloseBracket(title[i]);
    SpanUpTo(title, "](" + url + ")", NotCloseBracket);
    assert TitleAt(cell) == Some(title);
    assert cell[0..] == cell;
  }

  /**
   * As written, a row whose title mentions `Paper` yields no key at all,
   * while the corrected reading recovers its normalised title.
   */
  lemma WordFilterDropsRow(idx: PaperIndex, p: Processed)
    requires NoBarInFields(p) && ']' !in p.title && Contains(p.title, "Paper")
    ensures RowKeyAsWritten(GenerateTableRow(p)) == NoKey
    ensures ParseLinesAsWritten(idx, [GenerateTableRow(p)]) == idx
    ensures RowKeyOf(GenerateTableRow(p)).title == Some(NormalizeTitle(p.title))
  {
    RowHoldsTitle(p);
    ContainsTrans(GenerateTableRow(p), p.title, "Paper");
    RowTitleRoundTrip(p);
    KeylessLineAsWritten(idx, GenerateTableRow(p));
  }

  /** The corrected reading of a written row gives back the paper's normalised title. */
  lemma RowTitleRoundTrip(p: Processed)
    requires NoBarInFields(p) && p.title != "" && ']' !in p.title
    ensures RowKeyOf(GenerateTableRow(p)).title == Some(NormalizeTitle(p.title))
  {
    RowCellsRoundTrip(p);
    RowHoldsBar(p);
    LinkTitleReadBack(p.title, p.absUrl);
  }

  /** Once its row is read back, a written paper is a duplicate of itself under any id. */
  lemma WrittenPaperIsDuplicate(idx: PaperIndex, p: Processed, id: string)
    requires NoBarInFields(p) && p.title != "" && ']' !in p.title
    ensures IsDuplicate(ParseLines(idx, [GenerateTableRow(p)]), id, p.title)
  {
    var row := GenerateTableRow(p);
    RowTitleRoundTrip(p);
    ParseLinesCollects(idx, [row]);
    assert LineHasTitle([row], NormalizeTitle(p.title));
  }

  // ---------------------------------------------------------------- the id

  /** The abs URL the search records for an id. */
  predicate IsAbsUrlOf(url: string, id: string) {
    url == ArxivHttp + "abs/" + id
  }

  /** An id the reader takes back whole: non-empty, inside one URL run, on one line, without a final `.pdf`. */
  predicate IsReadableId(id: string) {
    && id != ""
    && (forall i :: 0 <= i < |id| ==> IsUrlChar(id[i]))
    && !HasLineTerminator(id)
    && !EndsWithPdf(id)
  }

  /** No scheme starting with `h` and free of `]` can start inside `[title](` when the title does not hold it. */
  lemma NoSchemeBeforeUrl(title: string, url: string, s: string, j: int)
    requires |s| > 0 && s[0] == 'h' && ']' !in s
    requires !Contains(title, s)
    requires 0 <= j < |title| + 3
    ensures !(s <= Link(title, url)[j..])
  {
    var cell := Link(title, url);
    assert cell == "[" + title + "](" + url + ")";
    assert cell[0] == '[' && cell[|title| + 1] == ']' && cell[|title| + 2] == '(';
    if s <= cell[j..] {
      assert cell[j] == 'h';
      assert 1 <= j <= |title|;
      if j - 1 + |s| <= |title| {
        assert title[j - 1..j - 1 + |s|] == s;
        ContainsAt(title, s, j - 1);
      } else {
        assert false;
      }
    }
  }

  /** The URL pattern takes `http://arxiv.org/abs/<id>` whole when a `)` follows it. */
  lemma UrlAtAbsUrl(id: string)
    requires forall i :: 0 <= i < |id| ==> IsUrlChar(id[i])
    ensures ArxivUrlAt(ArxivHttp + "abs/" + id + ")") == Some(ArxivHttp + "abs/" + id)
  {
    var t := ArxivHttp + "abs/" + id + ")";
    assert t[4] == ':' && ArxivHttps[4] == 's';
    assert ArxivHttp <= t;
    var tail := "abs/" + id;
    assert t[|ArxivHttp|..] == tail + ")";
    assert forall i :: 0 <= i < |tail| ==> IsUrlChar(tail[i]) by {
      forall i | 0 <= i < |tail|
        ensures IsUrlChar(tail[i])
      {
        if i >= 4 {
          assert tail[i] == id[i - 4];
        }
      }
    }
    SpanUpTo(tail, ")", IsUrlChar);
    assert ArxivHttp + tail == ArxivHttp + "abs/" + id;
  }

  /** The URL read from a link `[title](http://arxiv.org/abs/<id>)` is the link's URL. */
  lemma LinkUrlReadBack(title: string, id: string)
    requires forall i :: 0 <= i < |id| ==> IsUrlChar(id[i])
    requires !Contains(title, ArxivHttp) && !Contains(title, ArxivHttps)
    ensures ExtractArxivUrl(Link(title, ArxivHttp + "abs/" + id)) == Some(ArxivHttp + "abs/" + id)
  {
    var u := ArxivHttp + "abs/" + id;
    var cell := Link(title, u);
    var k0 := |title| + 3;
    assert cell == "[" + title + "](" + u + ")";
    assert cell[k0..] == u + ")";
    UrlAtAbsUrl(id);
    assert ']' !in ArxivHttp && ']' !in ArxivHttps by {
      assert ArxivHttp == "http://arxiv.org/" && ArxivHttps == "https://arxiv.org/";
    }
    forall j | 0 <= j < k0
      ensures ArxivUrlAt(cell[j..]).None?
    {
      NoSchemeBeforeUrl(title, u, ArxivHttp, j);
      NoSchemeBeforeUrl(title, u, ArxivHttps, j);
    }
    var r := ExtractArxivUrl(cell);
    assert r.Some?;
    var k :| LeftmostAt(cell, ArxivUrlAt, k, r);
    assert k == k0;
  }

  /** The id read from `http://arxiv.org/abs/<id>` is `<id>`. */
  lemma IdAtAbsUrl(id: string)
    requires IsReadableId(id)
    ensures ExtractArxivId(ArxivHttp + "abs/" + id) == Some(id)
  {
    var u := ArxivHttp + "abs/" + id;
    assert u == "http://" + (AbsMarker + id);
    assert u[7..] == AbsMarker + id;
    assert u[7..][|AbsMarker|..] == id;
    assert ArxivIdAt(u[7..]) == Some(id);
    forall j | 0 <= j < 7
      ensures ArxivIdAt(u[j..]).None?
    {
      assert u[j] != 'a';
    }
    var r := ExtractArxivId(u);
    assert r.Some?;
    var k :| LeftmostAt(u, ArxivIdAt, k, r) && IdAfterMarker(u, k, r.value);
    assert k == 7;
  }

  /**
   * The corrected reading of a written row gives back the paper's id when
   * its link is the abs URL of that id and its title holds no arXiv URL.
   */
  lemma RowIdRoundTrip(p: Processed)
    requires NoBarInFields(p) && IsAbsUrlOf(p.absUrl, p.arxivId) && IsReadableId(p.arxivId)
    requires !Contains(p.title, ArxivHttp) && !Contains(p.title, ArxivHttps)
    ensures RowKeyOf(GenerateTableRow(p)).id == Some(p.arxivId)
  {
    RowCellsRoundTrip(p);
    RowHoldsBar(p);
    LinkUrlReadBack(p.title, p.arxivId);
    IdAtAbsUrl(p.arxivId);
  }
}

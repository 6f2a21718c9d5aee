/**
 * The pure parts of the search-feed client (`ArxivSearcher` in
 * lib/arxiv-search.js): the category list and the four search queries built
 * from it, the clean-up of one Atom entry into a candidate paper, the
 * acceptance test for "R1" papers, and the first-wins de-duplication of the
 * merged query results.
 *
 * The regular expressions of the acceptance test are not interpreted: the
 * test receives `matches(source, text)`, the outcome of the case-insensitive
 * `test` of the pattern written as `source` on `text`, and the model fixes
 * which sources are tried, in which order, on which text, and how the
 * outcomes combine.
 */
module ArxivSearch {
  import opened Wrappers
  import opened Text
  import opened TitleNormal
  import opened Papers

  // ---------------------------------------------------------------- queries

  /** The computer-science categories searched and accepted, in source order. */
  const CsCategories: seq<string> := [
    "cs.AI", "cs.CL", "cs.LG", "cs.CV", "cs.RO", "cs.NE",
    "cs.IR", "cs.MM", "cs.HC", "cs.CR", "cs.DC", "cs.DS",
    "cs.IT", "cs.MA", "cs.NI", "cs.PL", "cs.SE", "cs.SY"]

  /** The `cat:` terms, one per category, in list order. */
  function CatTerms(categories: seq<string>): (terms: seq<string>)
    ensures |terms| == |categories|
    ensures forall i :: 0 <= i < |terms| ==> terms[i] == "cat:" + categories[i]
  {
    seq(|categories|, i requires 0 <= i < |categories| => "cat:" + categories[i])
  }

  const OrSep := " OR "

  /** `categories.map(cat => `cat:${cat}`).join(' OR ')`, in parentheses. */
  function CatClause(categories: seq<string>): string {
    "(" + Join(CatTerms(categories), OrSep) + ")"
  }

  predicate EndsWith(s: string, suffix: string) {
    |suffix| <= |s| && s[|s| - |suffix|..] == suffix
  }

  /** A text ending with `c` contains whatever `c` holds. */
  lemma SuffixContains(s: string, c: string, o: nat, term: string)
    requires EndsWith(s, c)
    requires o + |term| <= |c| && c[o..o + |term|] == term
    ensures Contains(s, term)
  {
    var start := |s| - |c| + o;
    assert s[start..start + |term|] == term;
    ContainsAt(s, term, start);
  }

  /** The four title searches, each restricted to the category clause `c`. */
  function QueriesFor(c: string): (qs: seq<string>)
    ensures |qs| == 4
    ensures forall k :: 0 <= k < |qs| ==> EndsWith(qs[k], c)
  {
    var qs := [
      "ti:\"R1\" AND " + c,
      "ti:\"r1\" AND " + c,
      "ti:\"R1-\" OR ti:\"-R1\" OR ti:\"r1-\" OR ti:\"-r1\" AND " + c,
      "all:\"R1\" AND ti:(model OR method OR network OR approach) AND " + c];
    assert forall k :: 0 <= k < |qs| ==> qs[k][|qs[k]| - |c|..] == c;
    qs
  }

  /** `buildSearchQueries`: four queries, each ending with the clause over every searched category. */
  function BuildSearchQueries(): (qs: seq<string>)
    ensures |qs| == 4
    ensures forall k :: 0 <= k < |qs| ==> EndsWith(qs[k], CatClause(CsCategories))
  {
    QueriesFor(CatClause(CsCategories))
  }

  /**
   * Category `i`'s `cat:` term sits in the clause right after the opening
   * parenthesis and the terms before it, each followed by " OR ".
   */
  lemma CatClauseHolds(categories: seq<string>, i: nat)
    requires i < |categories|
    ensures var o := 1 + JoinOffset(CatTerms(categories), OrSep, i);
      o + |"cat:" + categories[i]| <= |CatClause(categories)| &&
      CatClause(categories)[o..o + |"cat:" + categories[i]|] == "cat:" + categories[i]
  {
    var terms := CatTerms(categories);
    var o := JoinOffset(terms, OrSep, i);
    var n := |terms[i]|;
    var joined := Join(terms, OrSep);
    JoinPieceAt(terms, OrSep, i);
    SliceOfConcat("(", joined, o, n);
    SliceOfFront("(" + joined, ")", 1 + o, 1 + o + n);
  }

  /** The terms appear in list order: term `i` ends, with its separator, before term `j` starts. */
  lemma CatClauseInOrder(categories: seq<string>, i: nat, j: nat)
    requires i < j < |categories|
    ensures JoinOffset(CatTerms(categories), OrSep, i) + |"cat:" + categories[i]| + |OrSep|
      <= JoinOffset(CatTerms(categories), OrSep, j)
  {
    JoinOffsetsIncrease(CatTerms(categories), OrSep, i, j);
  }

  /** Each query carries every searched category's `cat:` term. */
  lemma QueriesCoverEveryCategory(k: nat, i: nat)
    requires k < 4 && i < |CsCategories|
    ensures Contains(BuildSearchQueries()[k], "cat:" + CsCategories[i])
  {
    QueryHoldsTerm(CsCategories, k, i);
  }

  lemma QueryHoldsTerm(categories: seq<string>, k: nat, i: nat)
    requires k < 4 && i < |categories|
    ensures Contains(QueriesFor(CatClause(categories))[k], "cat:" + categories[i])
  {
    CatClauseHolds(categories, i);
    SuffixContains(QueriesFor(CatClause(categories))[k], CatClause(categories),
                   1 + JoinOffset(CatTerms(categories), OrSep, i), "cat:" + categories[i]);
  }

  // ---------------------------------------------------------------- entries

  /** A `<link>` of an Atom entry; an absent `type` attribute is the empty string. */
  datatype EntryLink = EntryLink(linkType: string, href: string)

  /**
   * One `<entry>` of the feed, after XML parsing. Absent elements are `None`;
   * categories and authors arrive as their `term` and `name` texts.
   */
  datatype Entry = Entry(
    id: Option<string>,
    title: Option<string>,
    summary: Option<string>,
    published: Option<string>,
    updated: Option<string>,
    categories: seq<string>,
    authors: seq<string>,
    links: seq<EntryLink>)

  const AbsPrefix := "http://arxiv.org/abs/"
  const PdfType := "application/pdf"
  const HtmlType := "text/html"

  /** `links.find(link => link.type === linkType)`, as the link's address. */
  function FindHref(links: seq<EntryLink>, linkType: string): (r: Option<string>)
    ensures r.None? <==> forall k :: 0 <= k < |links| ==> links[k].linkType != linkType
    ensures r.Some? ==> exists k :: IsFirstOfType(links, linkType, k) && r.value == links[k].href
  {
    if |links| == 0 then None
    else if links[0].linkType == linkType then
      assert IsFirstOfType(links, linkType, 0);
      Some(links[0].href)
    else
      var r := FindHref(links[1..], linkType);
      if r.Some? then
        var k :| IsFirstOfType(links[1..], linkType, k) && r.value == links[1..][k].href;
        assert IsFirstOfType(links, linkType, k + 1);
        r
      else
        r
  }

  predicate IsFirstOfType(links: seq<EntryLink>, linkType: string, k: int) {
    && 0 <= k < |links|
    && links[k].linkType == linkType
    && forall j :: 0 <= j < k ==> links[j].linkType != linkType
  }

  /** An absent or empty element reads as the empty string (`x ? … : ''`). */
  function TextOf(x: Option<string>): string {
    if x.Some? then x.value else ""
  }

  /** `entry.updated || entry.published`: an absent or empty update falls back. */
  function UpdatedOrPublished(updated: Option<string>, published: Option<string>): (r: Option<string>)
    ensures r == updated || r == published
    ensures r == updated <==> (updated.Some? && updated.value != "") || updated == published
  {
    if updated.Some? && updated.value != "" then updated else published
  }

  /** `entry.id.replace('http://arxiv.org/abs/', '')`: the arXiv id of an entry. */
  function StripAbsPrefix(rawId: string): (id: string)
    ensures AbsPrefix <= rawId ==> AbsPrefix + id == rawId
    ensures !Contains(rawId, AbsPrefix) ==> id == rawId
    ensures id == "" <==> rawId == "" || rawId == AbsPrefix
  {
    DeleteFirstEmpty(rawId, AbsPrefix);
    var id := ReplaceFirst(rawId, AbsPrefix, "");
    assert AbsPrefix <= rawId ==> id == rawId[|AbsPrefix|..];
    id
  }

  /**
   * `parseEntry`: strip the abstract-page prefix from the id, collapse and
   * trim the title and abstract, pick the PDF and HTML links. No candidate
   * when the id is absent (the method throws and catches) or when the
   * cleaned title or the stripped id is empty.
   */
  function ParseEntry(e: Entry): (r: Option<Candidate>)
    ensures r.None? <==> e.id.None? || CleanSpaces(TextOf(e.title)) == "" || e.id.value == "" || e.id.value == AbsPrefix
    ensures r.Some? ==> r.value.id != "" && r.value.title != ""
    ensures r.Some? ==> IsCleanText(r.value.title) && IsCleanText(r.value.abstractText)
    ensures r.Some? ==> r.value.id == StripAbsPrefix(e.id.value)
    ensures r.Some? ==> r.value.title == CleanSpaces(TextOf(e.title)) && r.value.abstractText == CleanSpaces(TextOf(e.summary))
    ensures r.Some? ==> r.value.updated == UpdatedOrPublished(e.updated, e.published)
  {
    match e.id
    case None => None
    case Some(rawId) =>
      var arxivId := StripAbsPrefix(rawId);
      var title := CleanSpaces(TextOf(e.title));
      var abstractText := CleanSpaces(TextOf(e.summary));
      if title == "" || arxivId == "" then None
      else
        var pdfUrl := match FindHref(e.links, PdfType) case Some(h) => h case None => "";
        var absUrl := match FindHref(e.links, HtmlType) case Some(h) => h case None => rawId;
        Some(Candidate(arxivId, title, e.authors, abstractText, e.categories,
                       e.published, UpdatedOrPublished(e.updated, e.published), pdfUrl, absUrl))
  }

  /** The feed entry that describes a candidate: prefixed id, HTML link first, then the PDF link. */
  function EntryOf(c: Candidate): Entry {
    Entry(Some(AbsPrefix + c.id), Some(c.title), Some(c.abstractText), c.published, c.updated,
          c.categories, c.authors, [EntryLink(HtmlType, c.absUrl), EntryLink(PdfType, c.pdfUrl)])
  }

  /** Parsing the entry of a candidate that already has the parsed shape gives the candidate back. */
  lemma ParseEntryOfCandidate(c: Candidate)
    requires c.id != "" && c.title != ""
    requires IsCleanText(c.title) && IsCleanText(c.abstractText)
    requires (c.updated.Some? && c.updated.value != "") || c.updated == c.published
    ensures ParseEntry(EntryOf(c)) == Some(c)
  {
    var e := EntryOf(c);
    CleanIsFixpoint(c.title);
    CleanIsFixpoint(c.abstractText);
    assert AbsPrefix <= AbsPrefix + c.id;
    assert (AbsPrefix + c.id)[|AbsPrefix|..] == c.id;
    assert FindHref(e.links, HtmlType) == Some(c.absUrl);
    assert e.links[1..] == [EntryLink(PdfType, c.pdfUrl)];
    assert FindHref(e.links, PdfType) == Some(c.pdfUrl);
  }

  // ---------------------------------------------------------------- acceptance

  /** `matches(source, text)`: the outcome of the case-insensitive regular expression `source` on `text`. */
  type Matcher = (string, string) -> bool

  /** Patterns that mark "R1" as a name in the title. */
  const R1Patterns: seq<string> := [
    "\\br1[-_\\s]", "[-_\\s]r1\\b", "\\br1\\b", "\\br1[:]\\s", "[\"']r1[\"']"]

  /** Patterns that tie "R1" to a model or method in the abstract. */
  const ModelPatterns: seq<string> := [
    "model.*r1", "r1.*model", "method.*r1", "r1.*method",
    "approach.*r1", "r1.*approach", "framework.*r1", "r1.*framework"]

  /** Patterns of "R1" or "1" in a statistical or editorial sense. */
  const ExcludePatterns: seq<string> := [
    "version\\s+r1", "revision\\s+r1", "r1\\s+error", "r1\\s+squared",
    "round\\s+1", "reviewer\\s+1", "requirement\\s+1", "rule\\s+1",
    "region\\s+1", "response\\s+1", "\\br1\\s*=\\s*\\d",
    "coefficient.*r1", "correlation.*r1"]

  /** Substrings of which at least one must occur for the paper to count as AI work. */
  const AiKeywords: seq<string> := [
    "neural", "model", "learning", "network", "algorithm",
    "training", "inference", "transformer", "attention",
    "deep", "machine", "artificial", "intelligence",
    "classification", "regression", "prediction", "optimization",
    "embedding", "representation", "feature", "performance"]

  /** `patterns.some(pattern => pattern.test(text))`, tried left to right. */
  function SomeMatch(matches: Matcher, patterns: seq<string>, text: string): (r: bool)
    ensures r <==> exists k :: 0 <= k < |patterns| && matches(patterns[k], text)
  {
    if |patterns| == 0 then false
    else if matches(patterns[0], text) then true
    else
      var r := SomeMatch(matches, patterns[1..], text);
      assert forall k :: 1 <= k < |patterns| ==> patterns[k] == patterns[1..][k - 1];
      r
  }

  /** `categories.some(cat => csCategories.includes(cat))`. */
  function SomeCsCategory(categories: seq<string>): (r: bool)
    ensures r <==> exists c :: c in categories && c in CsCategories
  {
    if |categories| == 0 then false
    else if categories[0] in CsCategories then true
    else
      var r := SomeCsCategory(categories[1..]);
      assert forall c :: c in categories ==> c == categories[0] || c in categories[1..];
      r
  }

  /** `keywords.some(k => title.includes(k) || abstract.includes(k))`. */
  function SomeKeyword(keywords: seq<string>, title: string, abstractText: string): (r: bool)
    ensures r <==> exists k :: 0 <= k < |keywords| && (Contains(title, keywords[k]) || Contains(abstractText, keywords[k]))
  {
    if |keywords| == 0 then false
    else if Contains(title, keywords[0]) || Contains(abstractText, keywords[0]) then true
    else
      var r := SomeKeyword(keywords[1..], title, abstractText);
      assert forall k :: 1 <= k < |keywords| ==> keywords[k] == keywords[1..][k - 1];
      r
  }

  /** The title names R1, or the abstract ties R1 to a model or method. */
  predicate HasR1Evidence(matches: Matcher, title: string, abstractText: string) {
    || (exists k :: 0 <= k < |R1Patterns| && matches(R1Patterns[k], title))
    || (exists k :: 0 <= k < |ModelPatterns| && matches(ModelPatterns[k], abstractText))
  }

  predicate IsExcludedText(matches: Matcher, title: string, abstractText: string) {
    exists k :: 0 <= k < |ExcludePatterns| && (matches(ExcludePatterns[k], title) || matches(ExcludePatterns[k], abstractText))
  }

  predicate HasAiKeyword(title: string, abstractText: string) {
    exists k :: 0 <= k < |AiKeywords| && (Contains(title, AiKeywords[k]) || Contains(abstractText, AiKeywords[k]))
  }

  /**
   * `isValidR1Paper`: the checks run in source order on the lower-cased
   * title and abstract, each rejecting early.
   */
  function IsValidR1Paper(p: Candidate, matches: Matcher): (ok: bool)
    ensures ok <==>
      && HasR1Evidence(matches, Lower(p.title), Lower(p.abstractText))
      && (exists c :: c in p.categories && c in CsCategories)
      && !IsExcludedText(matches, Lower(p.title), Lower(p.abstractText))
      && HasAiKeyword(Lower(p.title), Lower(p.abstractText))
    ensures (forall c :: c in p.categories ==> c !in CsCategories) ==> !ok
    ensures IsExcludedText(matches, Lower(p.title), Lower(p.abstractText)) ==> !ok
    ensures ok ==> exists k :: 0 <= k < |AiKeywords| && (Contains(Lower(p.title), AiKeywords[k]) || Contains(Lower(p.abstractText), AiKeywords[k]))
  {
    var title := Lower(p.title);
    var abstractText := Lower(p.abstractText);
    if !SomeMatch(matches, R1Patterns, title) && !SomeMatch(matches, ModelPatterns, abstractText) then false
    else if !SomeCsCategory(p.categories) then false
    else if SomeMatch(matches, ExcludePatterns, title) || SomeMatch(matches, ExcludePatterns, abstractText) then
      assert IsExcludedText(matches, title, abstractText) by {
        if SomeMatch(matches, ExcludePatterns, title) {
          var k :| 0 <= k < |ExcludePatterns| && matches(ExcludePatterns[k], title);
        } else {
          var k :| 0 <= k < |ExcludePatterns| && matches(ExcludePatterns[k], abstractText);
        }
      }
      false
    else
      assert !IsExcludedText(matches, title, abstractText) by {
        forall k | 0 <= k < |ExcludePatterns|
          ensures !matches(ExcludePatterns[k], title) && !matches(ExcludePatterns[k], abstractText)
        {
        }
      }
      SomeKeyword(AiKeywords, title, abstractText)
  }

  // ---------------------------------------------------------------- de-duplication

  /** The title key both de-duplicators compare: `normalizeTitle` of lib/paper-processor.js. */
  function TitleKey(p: Candidate): string {
    NormalizeTitle(p.title)
  }

  /** A paper's id, as a key function. */
  function IdOf(p: Candidate): string {
    p.id
  }

  /**
   * The keys of `ps` under `key`: the source's `seen` (key `IdOf`) or
   * `seenTitles` (key `TitleKey`) once each paper of `ps` has been added.
   */
  function KeySet(ps: seq<Candidate>, key: Candidate -> string): set<string> {
    if |ps| == 0 then {} else KeySet(ps[..|ps| - 1], key) + {key(ps[|ps| - 1])}
  }

  lemma {:induction false} KeySetIndex(ps: seq<Candidate>, key: Candidate -> string, x: string)
    ensures x in KeySet(ps, key) <==> exists i :: 0 <= i < |ps| && key(ps[i]) == x
  {
    if |ps| > 0 {
      var init := ps[..|ps| - 1];
      KeySetIndex(init, key, x);
      assert forall i :: 0 <= i < |init| ==> init[i] == ps[i];
    }
  }

  lemma KeySetAppend(ps: seq<Candidate>, p: Candidate, key: Candidate -> string)
    ensures KeySet(ps + [p], key) == KeySet(ps, key) + {key(p)}
  {
    assert (ps + [p])[..|ps|] == ps;
  }

  /** No two papers of `ps` share a key. */
  predicate Distinct(ps: seq<Candidate>, key: Candidate -> string) {
    forall i, j :: 0 <= i < j < |ps| ==> key(ps[i]) != key(ps[j])
  }

  /** Appending a paper with a new key keeps the keys distinct. */
  lemma AppendDistinct(ps: seq<Candidate>, p: Candidate, key: Candidate -> string)
    requires Distinct(ps, key) && key(p) !in KeySet(ps, key)
    ensures Distinct(ps + [p], key)
  {
    KeySetIndex(ps, key, key(p));
    var r := ps + [p];
    forall i, j | 0 <= i < j < |r|
      ensures key(r[i]) != key(r[j])
    {
      assert r[i] == ps[i];
      if j < |ps| {
        assert r[j] == ps[j];
      }
    }
  }

  /** Dropping the last paper of a list with distinct keys leaves distinct keys without the last one's. */
  lemma DistinctInit(ps: seq<Candidate>, key: Candidate -> string)
    requires |ps| > 0 && Distinct(ps, key)
    ensures Distinct(ps[..|ps| - 1], key)
    ensures key(ps[|ps| - 1]) !in KeySet(ps[..|ps| - 1], key)
  {
    var init := ps[..|ps| - 1];
    KeySetIndex(init, key, key(ps[|ps| - 1]));
    assert forall i :: 0 <= i < |init| ==> init[i] == ps[i];
  }

  /** `p` shares its id or its normalised title with a paper of `kept`. */
  predicate Collides(kept: seq<Candidate>, p: Candidate) {
    IdOf(p) in KeySet(kept, IdOf) || TitleKey(p) in KeySet(kept, TitleKey)
  }

  /**
   * The papers `removeDuplicates` keeps, as a reference definition: a paper
   * is kept iff it collides with no paper kept before it.
   */
  function KeptPapers(ps: seq<Candidate>): seq<Candidate>
  {
    if |ps| == 0 then []
    else
      var kept := KeptPapers(ps[..|ps| - 1]);
      if Collides(kept, ps[|ps| - 1]) then kept else kept + [ps[|ps| - 1]]
  }

  /** No two papers share an id or a normalised title. */
  predicate Unique(ps: seq<Candidate>) {
    Distinct(ps, IdOf) && Distinct(ps, TitleKey)
  }

  /**
   * `removeDuplicates`: one pass that remembers the ids and normalised
   * titles of the papers kept so far.
   */
  method RemoveDuplicates(papers: seq<Candidate>) returns (kept: seq<Candidate>)
    ensures kept == KeptPapers(papers)
    ensures Unique(kept)
    ensures forall p :: p in kept ==> p in papers
    ensures forall p :: p in papers ==> p in kept || Collides(kept, p)
  {
    var seen: set<string> := {};
    var seenTitles: set<string> := {};
    kept := [];
    for i := 0 to |papers|
      invariant kept == KeptPapers(papers[..i])
      invariant seen == KeySet(kept, IdOf) && seenTitles == KeySet(kept, TitleKey)
    {
      var p := papers[i];
      assert papers[..i + 1][..i] == papers[..i];
      if p.id in seen {
        continue;
      }
      var normalizedTitle := TitleKey(p);
      if normalizedTitle in seenTitles {
        continue;
      }
      seen := seen + {p.id};
      seenTitles := seenTitles + {normalizedTitle};
      KeySetAppend(kept, p, IdOf);
      KeySetAppend(kept, p, TitleKey);
      kept := kept + [p];
    }
    assert papers[..|papers|] == papers;
    KeptPapersUnique(papers);
    KeptPapersFromInput(papers);
    KeptPapersCover(papers);
  }

  /** Strictly increasing positions into a sequence of length `n`. */
  predicate IsIndexList(idx: seq<nat>, n: nat) {
    && (forall j :: 0 <= j < |idx| ==> idx[j] < n)
    && (forall j, k :: 0 <= j < k < |idx| ==> idx[j] < idx[k])
  }

  /** `sub` is `xs` read at the increasing positions `idx`. */
  predicate IsPickedAt(sub: seq<Candidate>, xs: seq<Candidate>, idx: seq<nat>) {
    && IsIndexList(idx, |xs|)
    && |idx| == |sub|
    && forall j :: 0 <= j < |idx| ==> sub[j] == xs[idx[j]]
  }

  /** The positions of the kept papers. */
  function KeptIndices(ps: seq<Candidate>): (idx: seq<nat>)
    ensures IsPickedAt(KeptPapers(ps), ps, idx)
  {
    if |ps| == 0 then []
    else
      var init := ps[..|ps| - 1];
      var idx := KeptIndices(init);
      PickedExtend(KeptPapers(init), ps, idx);
      if Collides(KeptPapers(init), ps[|ps| - 1]) then idx else idx + [|ps| - 1]
  }

  /** Positions picked from all but the last paper stay valid, and the last one may follow them. */
  lemma PickedExtend(sub: seq<Candidate>, ps: seq<Candidate>, idx: seq<nat>)
    requires |ps| > 0 && IsPickedAt(sub, ps[..|ps| - 1], idx)
    ensures IsPickedAt(sub, ps, idx)
    ensures IsPickedAt(sub + [ps[|ps| - 1]], ps, idx + [|ps| - 1])
  {
    var init := ps[..|ps| - 1];
    assert forall j :: 0 <= j < |idx| ==> init[idx[j]] == ps[idx[j]];
  }

  /** The de-duplicated list is an order-preserving subsequence of the input. */
  lemma KeptPapersIsSubsequence(ps: seq<Candidate>)
    ensures exists idx :: IsPickedAt(KeptPapers(ps), ps, idx)
  {
    var idx := KeptIndices(ps);
  }

  lemma KeptPapersFromInput(ps: seq<Candidate>)
    ensures forall p :: p in KeptPapers(ps) ==> p in ps
  {
    var idx := KeptIndices(ps);
    forall p | p in KeptPapers(ps)
      ensures p in ps
    {
      var j :| 0 <= j < |KeptPapers(ps)| && KeptPapers(ps)[j] == p;
      assert ps[idx[j]] == p;
    }
  }

  /** Appending a paper that collides with nothing keeps a list free of collisions. */
  lemma AppendUnique(kept: seq<Candidate>, p: Candidate)
    requires Unique(kept) && !Collides(kept, p)
    ensures Unique(kept + [p])
  {
    AppendDistinct(kept, p, IdOf);
    AppendDistinct(kept, p, TitleKey);
  }

  /** No two kept papers share an id or a normalised title. */
  lemma {:induction false} KeptPapersUnique(ps: seq<Candidate>)
    ensures Unique(KeptPapers(ps))
  {
    if |ps| > 0 {
      KeptPapersUnique(ps[..|ps| - 1]);
      var kept := KeptPapers(ps[..|ps| - 1]);
      if !Collides(kept, ps[|ps| - 1]) {
        AppendUnique(kept, ps[|ps| - 1]);
      }
    }
  }

  /** Every input paper was kept or collides with a kept one. */
  lemma {:induction false} KeptPapersCover(ps: seq<Candidate>)
    ensures forall p :: p in ps ==> p in KeptPapers(ps) || Collides(KeptPapers(ps), p)
  {
    if |ps| > 0 {
      var init := ps[..|ps| - 1];
      var last := ps[|ps| - 1];
      KeptPapersCover(init);
      var kept := KeptPapers(init);
      KeySetAppend(kept, last, IdOf);
      KeySetAppend(kept, last, TitleKey);
      forall p | p in ps
        ensures p in KeptPapers(ps) || Collides(KeptPapers(ps), p)
      {
        if p != last {
          assert p in init;
        }
      }
    }
  }

  /** A paper is kept exactly when no paper kept before it shares its id or normalised title. */
  lemma KeptExactlyWhenNew(ps: seq<Candidate>, p: Candidate)
    ensures KeptPapers(ps + [p]) == (if Collides(KeptPapers(ps), p) then KeptPapers(ps) else KeptPapers(ps) + [p])
    ensures Collides(KeptPapers(ps), p) <==>
      exists q :: q in KeptPapers(ps) && (q.id == p.id || TitleKey(q) == TitleKey(p))
  {
    assert (ps + [p])[..|ps|] == ps;
    KeySetIndex(KeptPapers(ps), IdOf, p.id);
    KeySetIndex(KeptPapers(ps), TitleKey, TitleKey(p));
  }

  /** A list without collisions is left as it is. */
  lemma {:induction false} UniqueIsKept(ps: seq<Candidate>)
    requires Unique(ps)
    ensures KeptPapers(ps) == ps
  {
    if |ps| > 0 {
      var init := ps[..|ps| - 1];
      DistinctInit(ps, IdOf);
      DistinctInit(ps, TitleKey);
      UniqueIsKept(init);
      assert !Collides(init, ps[|ps| - 1]);
      assert init + [ps[|ps| - 1]] == ps;
    }
  }

  /** De-duplicating twice is de-duplicating once. */
  lemma RemoveDuplicatesIdempotent(ps: seq<Candidate>)
    ensures KeptPapers(KeptPapers(ps)) == KeptPapers(ps)
  {
    KeptPapersUnique(ps);
    UniqueIsKept(KeptPapers(ps));
  }
}

/**
 * `enrichPaperInfo`, `enrichFromGitHub` and `validateProcessedPaper` of
 * lib/paper-processor.js: the caps, filters and precedence applied on top of
 * the regex match lists, which arrive here as data.
 */
module Enrichment {
  import opened Wrappers
  import opened Text
  import opened OrderedSets
  import opened Papers
  import opened Seqs

  /** One model pattern's matches: in the lower-cased title and in the lower-cased abstract. */
  datatype ModelMatches = ModelMatches(inTitle: seq<string>, inAbstract: seq<string>)

  /**
   * What the regexes of `enrichPaperInfo` find, each list in match order:
   * the GitHub-link pattern and the project-page pattern on the abstract,
   * the three model patterns (in pattern order) and the three dataset
   * patterns (in pattern order) on the abstract.
   */
  datatype PatternMatches = PatternMatches(
    github: seq<string>,
    project: seq<string>,
    models: seq<ModelMatches>,
    datasets: seq<seq<string>>)

  /**
   * What the HEAD request of `enrichFromGitHub` reports: a 404, another
   * status below 500, or no verdict (a 5xx, a network error, a timeout, or a
   * URL without an owner/repo part, which is never probed).
   */
  datatype ProbeOutcome = NotFound | Reachable | Unknown

  const MaxModels := 3
  const MaxDatasets := 2
  const AbstractMatchesPerPattern := 2
  const MaxTitleLength := 200

  // ---------------------------------------------------------------- links

  predicate IsTrailingPunct(c: char) {
    c == '.' || c == ',' || c == ';' || c == ':'
  }

  /** `.replace(/[.,;:]$/, '')`: at most one trailing punctuation character goes. */
  function StripTrailingPunct(u: string): (r: string)
    ensures r <= u && |u| - 1 <= |r|
    ensures |r| < |u| <==> |u| > 0 && IsTrailingPunct(u[|u| - 1])
  {
    if |u| > 0 && IsTrailingPunct(u[|u| - 1]) then u[..|u| - 1] else u
  }

  /** The hosts a project page may not mention. */
  predicate IsExcludedHost(u: string) {
    Contains(u, "github.com") || Contains(u, "arxiv.org") || Contains(u, "doi.org")
  }

  /** Match `k` is the first whose cleaned form mentions no excluded host. */
  predicate IsFirstAllowed(matches: seq<string>, k: int) {
    && 0 <= k < |matches|
    && !IsExcludedHost(StripTrailingPunct(matches[k]))
    && forall j :: 0 <= j < k ==> IsExcludedHost(StripTrailingPunct(matches[j]))
  }

  /** The project-page loop: the first cleaned match that mentions none of the excluded hosts. */
  function FirstProjectPage(matches: seq<string>): (r: Option<string>)
    ensures r.Some? ==> !IsExcludedHost(r.value)
    ensures r.Some? ==> exists k :: IsFirstAllowed(matches, k) && r.value == StripTrailingPunct(matches[k])
    ensures r.None? <==> forall k :: 0 <= k < |matches| ==> IsExcludedHost(StripTrailingPunct(matches[k]))
  {
    if |matches| == 0 then None
    else if !IsExcludedHost(StripTrailingPunct(matches[0])) then Some(StripTrailingPunct(matches[0]))
    else
      var r := FirstProjectPage(matches[1..]);
      assert forall k :: 1 <= k < |matches| ==> matches[k] == matches[1..][k - 1];
      r
  }

  // ---------------------------------------------------------------- models

  function UpperAll(xs: seq<string>): (r: seq<string>)
    ensures |r| == |xs| && forall i :: 0 <= i < |r| ==> r[i] == Upper(xs[i])
  {
    seq(|xs|, i requires 0 <= i < |xs| => Upper(xs[i]))
  }

  /** What one model pattern contributes: every title match, the first two abstract matches, upper-cased. */
  function ModelCandidates(m: ModelMatches): seq<string> {
    UpperAll(m.inTitle) + UpperAll(Take(m.inAbstract, AbstractMatchesPerPattern))
  }

  /** A model name some pattern contributes. */
  predicate IsModelCandidate(pats: seq<ModelMatches>, x: string) {
    exists p :: 0 <= p < |pats| && x in ModelCandidates(pats[p])
  }

  /** Every model candidate in the order `foundModels.add` sees them: pattern by pattern. */
  function ModelStream(pats: seq<ModelMatches>): (r: seq<string>)
    ensures forall x :: x in r <==> IsModelCandidate(pats, x)
  {
    if |pats| == 0 then []
    else
      var r := ModelCandidates(pats[0]) + ModelStream(pats[1..]);
      assert forall x :: IsModelCandidate(pats, x) <==> x in ModelCandidates(pats[0]) || IsModelCandidate(pats[1..], x) by {
        forall x | IsModelCandidate(pats[1..], x)
          ensures IsModelCandidate(pats, x)
        {
          var p :| 0 <= p < |pats[1..]| && x in ModelCandidates(pats[1..][p]);
          assert pats[1..][p] == pats[p + 1];
        }
      }
      r
  }

  /** `foundModels` after the pattern loop: the names found so far, then each new candidate as first seen. */
  function CollectModels(found: seq<string>, pats: seq<ModelMatches>): (r: seq<string>)
    ensures Distinct(found) ==> Distinct(r)
    ensures forall x :: x in r <==> x in found || IsModelCandidate(pats, x)
    ensures found <= r
    ensures r == AddAll(found, ModelStream(pats))
    decreases |pats|
  {
    if |pats| == 0 then found
    else
      AddAllConcat(found, ModelCandidates(pats[0]), ModelStream(pats[1..]));
      CollectModels(AddAll(found, ModelCandidates(pats[0])), pats[1..])
  }

  /** `Array.from(foundModels).slice(0, 3)`: the first three distinct names found. */
  function ModelList(pats: seq<ModelMatches>): (r: seq<string>)
    ensures |r| <= MaxModels && Distinct(r)
    ensures forall x :: x in r ==> IsModelCandidate(pats, x)
    ensures |r| < MaxModels ==> forall x :: IsModelCandidate(pats, x) ==> x in r
    ensures |r| == 0 <==> forall x :: !IsModelCandidate(pats, x)
    ensures FirstSeenOrder(r, ModelStream(pats)) && KeepsEarliest(r, ModelStream(pats))
  {
    var all := CollectModels([], pats);
    var r := Take(all, MaxModels);
    EarliestPrefix(ModelStream(pats), r);
    assert forall i :: 0 <= i < |r| ==> r[i] == all[i];
    assert |r| > 0 ==> r[0] in r;
    r
  }

  // ---------------------------------------------------------------- datasets

  /** `match.replace(/\s+/g, ' ').trim()`. */
  function CleanDataset(m: string): string {
    CleanSpaces(m)
  }

  /** The length filter `clean.length > 2 && clean.length < 30`. */
  predicate KeepDataset(clean: string) {
    2 < |clean| < 30
  }

  /** The first two matches of one dataset pattern, cleaned. */
  function CleanedMatches(matches: seq<string>): (r: seq<string>)
    ensures |r| == if |matches| < AbstractMatchesPerPattern then |matches| else AbstractMatchesPerPattern
    ensures forall i :: 0 <= i < |r| ==> r[i] == CleanDataset(matches[i])
  {
    var first := Take(matches, AbstractMatchesPerPattern);
    seq(|first|, i requires 0 <= i < |first| => CleanDataset(first[i]))
  }

  /** What one dataset pattern contributes, from its cleaned matches: those that pass the length filter. */
  function DatasetCandidates(cleaned: seq<string>): (r: seq<string>)
    ensures forall x :: x in r <==> x in cleaned && KeepDataset(x)
  {
    Filter(cleaned, KeepDataset)
  }

  /** A dataset name some pattern contributes; `pats` holds each pattern's cleaned matches. */
  predicate IsDatasetCandidate(pats: seq<seq<string>>, x: string) {
    exists p :: 0 <= p < |pats| && x in DatasetCandidates(pats[p])
  }

  /** Every dataset candidate in the order `foundDatasets.add` sees them: pattern by pattern. */
  function DatasetStream(pats: seq<seq<string>>): (r: seq<string>)
    ensures forall x :: x in r <==> IsDatasetCandidate(pats, x)
  {
    if |pats| == 0 then []
    else
      var r := DatasetCandidates(pats[0]) + DatasetStream(pats[1..]);
      assert forall x :: IsDatasetCandidate(pats, x) <==> x in DatasetCandidates(pats[0]) || IsDatasetCandidate(pats[1..], x) by {
        forall x | IsDatasetCandidate(pats[1..], x)
          ensures IsDatasetCandidate(pats, x)
        {
          var p :| 0 <= p < |pats[1..]| && x in DatasetCandidates(pats[1..][p]);
          assert pats[1..][p] == pats[p + 1];
        }
      }
      r
  }

  /** `foundDatasets` after the pattern loop: the names found so far, then each new candidate as first seen. */
  function CollectDatasets(found: seq<string>, pats: seq<seq<string>>): (r: seq<string>)
    ensures Distinct(found) ==> Distinct(r)
    ensures forall x :: x in r <==> x in found || IsDatasetCandidate(pats, x)
    ensures r == AddAll(found, DatasetStream(pats))
    decreases |pats|
  {
    if |pats| == 0 then found
    else
      AddAllConcat(found, DatasetCandidates(pats[0]), DatasetStream(pats[1..]));
      var r := CollectDatasets(AddAll(found, DatasetCandidates(pats[0])), pats[1..]);
      assert r == AddAll(found, DatasetStream(pats));
      r
  }

  /** Every pattern's match list, cleaned. */
  function CleanedPatterns(datasets: seq<seq<string>>): (r: seq<seq<string>>)
    ensures |r| == |datasets| && forall p :: 0 <= p < |r| ==> r[p] == CleanedMatches(datasets[p])
  {
    seq(|datasets|, p requires 0 <= p < |datasets| => CleanedMatches(datasets[p]))
  }

  /**
   * `Array.from(foundDatasets).slice(0, 2)`: the first two distinct names,
   * each 3 to 29 characters; `pats` holds each pattern's cleaned matches.
   */
  function DatasetList(pats: seq<seq<string>>): (r: seq<string>)
    ensures |r| <= MaxDatasets && Distinct(r)
    ensures forall i :: 0 <= i < |r| ==> 3 <= |r[i]| <= 29
    ensures forall x :: x in r ==> IsDatasetCandidate(pats, x)
    ensures |r| < MaxDatasets ==> forall x :: IsDatasetCandidate(pats, x) ==> x in r
    ensures |r| == 0 <==> forall x :: !IsDatasetCandidate(pats, x)
    ensures FirstSeenOrder(r, DatasetStream(pats)) && KeepsEarliest(r, DatasetStream(pats))
  {
    var all := CollectDatasets([], pats);
    var r := Take(all, MaxDatasets);
    EarliestPrefix(DatasetStream(pats), r);
    assert forall i :: 0 <= i < |r| ==> r[i] == all[i];
    forall i | 0 <= i < |r|
      ensures 3 <= |r[i]| <= 29
    {
      assert IsDatasetCandidate(pats, r[i]);
      var p :| 0 <= p < |pats| && r[i] in DatasetCandidates(pats[p]);
    }
    assert |r| > 0 ==> r[0] in r;
    r
  }

  // ---------------------------------------------------------------- the record

  /** `enrichFromGitHub`: only a definite 404 clears the link. */
  function VerifyCodeUrl(p: Processed, probe: ProbeOutcome): (r: Processed)
    ensures r == p.(codeUrl := r.codeUrl)
    ensures r.codeUrl != p.codeUrl <==> p.codeUrl != "" && probe == NotFound
    ensures r.codeUrl == p.codeUrl || r.codeUrl == ""
  {
    if p.codeUrl != "" && probe == NotFound then p.(codeUrl := "") else p
  }

  /** `enrichPaperInfo`: code link, project page, models, datasets, then the GitHub probe. */
  function EnrichPaperInfo(p: Processed, m: PatternMatches, probe: ProbeOutcome): (r: Processed)
    ensures r == p.(codeUrl := r.codeUrl, projectPage := r.projectPage, models := r.models, dataset := r.dataset)
    ensures probe == NotFound ==> r.codeUrl == ""
    ensures probe != NotFound && |m.github| > 0 ==> r.codeUrl == StripTrailingPunct(m.github[0])
    ensures probe != NotFound && |m.github| == 0 ==> r.codeUrl == p.codeUrl
    ensures FirstProjectPage(m.project).None? ==> r.projectPage == p.projectPage
    ensures FirstProjectPage(m.project).Some? ==> r.projectPage == FirstProjectPage(m.project).value
    ensures r.projectPage != p.projectPage ==> !IsExcludedHost(r.projectPage)
    ensures r.models == p.models || r.models == Join(ModelList(m.models), ", ")
    ensures r.models != p.models ==> |ModelList(m.models)| > 0
    ensures |ModelList(m.models)| > 0 ==> r.models == Join(ModelList(m.models), ", ")
    ensures r.dataset == p.dataset || r.dataset == Join(DatasetList(CleanedPatterns(m.datasets)), ", ")
    ensures r.dataset != p.dataset ==> |DatasetList(CleanedPatterns(m.datasets))| > 0
    ensures |DatasetList(CleanedPatterns(m.datasets))| > 0 ==> r.dataset == Join(DatasetList(CleanedPatterns(m.datasets)), ", ")
  {
    var withCode := if |m.github| > 0 then p.(codeUrl := StripTrailingPunct(m.github[0])) else p;
    var withProject := match FirstProjectPage(m.project)
      case Some(u) => withCode.(projectPage := u)
      case None => withCode;
    var models := ModelList(m.models);
    var withModels := if |models| > 0 then withProject.(models := Join(models, ", ")) else withProject;
    var datasets := DatasetList(CleanedPatterns(m.datasets));
    var withDatasets := if |datasets| > 0 then withModels.(dataset := Join(datasets, ", ")) else withModels;
    VerifyCodeUrl(withDatasets, probe)
  }

  /** A list joined with `", "` splits on `,` into as many pieces as it had entries, when no entry holds a comma. */
  lemma {:induction false} JoinedEntryCount(prefix: string, xs: seq<string>)
    requires |xs| >= 1 && ',' !in prefix
    requires forall i :: 0 <= i < |xs| ==> ',' !in xs[i]
    ensures |Split(prefix + Join(xs, ", "), ',')| == |xs|
    decreases |xs|
  {
    if |xs| == 1 {
      SplitNoSep(prefix + xs[0], ',');
    } else {
      var tail := Join(xs[1..], ", ");
      assert prefix + Join(xs, ", ") == (prefix + xs[0]) + [','] + (" " + tail);
      SplitAfterPiece(prefix + xs[0], ',', " " + tail);
      JoinedEntryCount(" ", xs[1..]);
    }
  }

  /** A non-empty list without commas in its entries, joined with `", "`, splits back into as many pieces. */
  lemma JoinedListCount(xs: seq<string>)
    requires |xs| >= 1 && forall i :: 0 <= i < |xs| ==> ',' !in xs[i]
    ensures |Split(Join(xs, ", "), ',')| == |xs|
  {
    JoinedEntryCount("", xs);
    assert "" + Join(xs, ", ") == Join(xs, ", ");
  }

  /** The models cell holds at most three comma-separated names. */
  lemma ModelCellEntries(pats: seq<ModelMatches>)
    requires forall x :: IsModelCandidate(pats, x) ==> ',' !in x
    ensures |ModelList(pats)| > 0 ==> 1 <= |Split(Join(ModelList(pats), ", "), ',')| <= MaxModels
  {
    var names := ModelList(pats);
    if |names| > 0 {
      assert forall i :: 0 <= i < |names| ==> names[i] in names;
      JoinedListCount(names);
    }
  }

  /** The dataset cell holds at most two comma-separated names. */
  lemma DatasetCellEntries(pats: seq<seq<string>>)
    requires forall x :: IsDatasetCandidate(pats, x) ==> ',' !in x
    ensures |DatasetList(pats)| > 0 ==> 1 <= |Split(Join(DatasetList(pats), ", "), ',')| <= MaxDatasets
  {
    var names := DatasetList(pats);
    if |names| > 0 {
      assert forall i :: 0 <= i < |names| ==> names[i] in names;
      JoinedListCount(names);
    }
  }

  // ---------------------------------------------------------------- validation

  /**
   * `validateProcessedPaper`: `None` is the `false` answer. Only a missing
   * title, id or date, or a title over 200 characters, rejects; a bad link is
   * cleared instead.
   */
  function ValidateProcessedPaper(p: Processed, isValidUrl: string -> bool): (r: Option<Processed>)
    ensures r.None? <==> p.title == "" || p.arxivId == "" || p.date == "" || |p.title| > MaxTitleLength
    ensures r.Some? ==> r.value == p.(codeUrl := r.value.codeUrl, projectPage := r.value.projectPage)
    ensures r.Some? ==> (r.value.codeUrl != p.codeUrl <==> p.codeUrl != "" && !isValidUrl(p.codeUrl))
    ensures r.Some? ==> (r.value.projectPage != p.projectPage <==> p.projectPage != "" && !isValidUrl(p.projectPage))
    ensures r.Some? ==> (r.value.codeUrl == p.codeUrl || r.value.codeUrl == "")
    ensures r.Some? ==> (r.value.projectPage == p.projectPage || r.value.projectPage == "")
  {
    if p.title == "" || p.arxivId == "" || p.date == "" then None
    else if |p.title| > MaxTitleLength then None
    else
      var withCode := if p.codeUrl != "" && !isValidUrl(p.codeUrl) then p.(codeUrl := "") else p;
      var withProject := if withCode.projectPage != "" && !isValidUrl(withCode.projectPage) then withCode.(projectPage := "") else withCode;
      Some(withProject)
  }

  /** Validation is idempotent: an accepted record passes a second check unchanged. */
  lemma ValidateIdempotent(p: Processed, isValidUrl: string -> bool)
    requires ValidateProcessedPaper(p, isValidUrl).Some?
    ensures ValidateProcessedPaper(ValidateProcessedPaper(p, isValidUrl).value, isValidUrl) == ValidateProcessedPaper(p, isValidUrl)
  {
  }
}

/**
 * Title normalisation (`normalizeTitle` in lib/paper-processor.js, and the
 * same chain inlined in `removeDuplicates` of lib/arxiv-search.js): lower-case,
 * blank out every character that is neither a word character nor white space,
 * collapse white-space runs to one space, trim.
 */
module TitleNormal {
  import opened Text

  /** `.replace(/[^\w\s]/g, ' ')`. */
  function BlankPunctuation(s: string): (r: string)
    ensures |r| == |s|
    ensures forall i :: 0 <= i < |r| ==> IsWordChar(r[i]) || IsSpace(r[i])
    ensures forall i :: 0 <= i < |r| ==> (IsWordChar(s[i]) || IsSpace(s[i])) ==> r[i] == s[i]
    ensures forall i :: 0 <= i < |r| ==> !(IsWordChar(s[i]) || IsSpace(s[i])) ==> r[i] == ' '
  {
    seq(|s|, i requires 0 <= i < |s| => if IsWordChar(s[i]) || IsSpace(s[i]) then s[i] else ' ')
  }

  /** A character a normalised title may hold: a lower-case word character or a plain space. */
  predicate IsTitleChar(c: char) {
    (IsWordChar(c) && !IsUpperAscii(c)) || c == ' '
  }

  /** The shape every normalised title has: clean spacing, title characters only. */
  predicate IsNormalized(t: string) {
    IsCleanText(t) && forall i :: 0 <= i < |t| ==> IsTitleChar(t[i])
  }

  function NormalizeTitle(title: string): (r: string)
    ensures IsNormalized(r)
    ensures |r| <= |title|
  {
    TitleCharsSurvive(title);
    CleanSpaces(BlankPunctuation(Lower(title)))
  }

  lemma LowerBlankChars(title: string)
    ensures forall i :: 0 <= i < |BlankPunctuation(Lower(title))| ==>
      IsTitleChar(BlankPunctuation(Lower(title))[i]) || IsSpace(BlankPunctuation(Lower(title))[i])
  {
    var s1 := Lower(title);
    var s2 := BlankPunctuation(s1);
    forall i | 0 <= i < |s2|
      ensures IsTitleChar(s2[i]) || IsSpace(s2[i])
    {
      if IsWordChar(s1[i]) || IsSpace(s1[i]) {
        assert s2[i] == s1[i];
      } else {
        assert s2[i] == ' ';
      }
    }
  }

  lemma CollapseKeepsTitleChars(s: string)
    requires forall i :: 0 <= i < |s| ==> IsTitleChar(s[i]) || IsSpace(s[i])
    ensures forall i :: 0 <= i < |CollapseSpaces(s)| ==> IsTitleChar(CollapseSpaces(s)[i])
  {
    CollapseKeepsChars(s, IsTitleChar);
  }

  lemma SliceKeepsTitleChars(s: string, r: string, k: nat)
    requires forall i :: 0 <= i < |s| ==> IsTitleChar(s[i])
    requires k + |r| <= |s| && r == s[k..k + |r|]
    ensures forall i :: 0 <= i < |r| ==> IsTitleChar(r[i])
  {
    assert forall i :: 0 <= i < |r| ==> r[i] == s[k + i];
  }

  lemma CleanKeepsTitleChars(s: string)
    requires forall i :: 0 <= i < |s| ==> IsTitleChar(s[i]) || IsSpace(s[i])
    ensures forall i :: 0 <= i < |CleanSpaces(s)| ==> IsTitleChar(CleanSpaces(s)[i])
  {
    CollapseKeepsTitleChars(s);
    TrimKeepsTitleChars(CollapseSpaces(s));
  }

  lemma TrimKeepsTitleChars(s: string)
    requires forall i :: 0 <= i < |s| ==> IsTitleChar(s[i])
    ensures forall i :: 0 <= i < |Trim(s)| ==> IsTitleChar(Trim(s)[i])
  {
    var k := TrimSlice(s);
    SliceKeepsTitleChars(s, Trim(s), k);
  }

  /** Only lower-case word characters and plain spaces survive the clean-up. */
  lemma TitleCharsSurvive(title: string)
    ensures forall i :: 0 <= i < |CleanSpaces(BlankPunctuation(Lower(title)))| ==>
      IsTitleChar(CleanSpaces(BlankPunctuation(Lower(title)))[i])
  {
    LowerBlankChars(title);
    CleanKeepsTitleChars(BlankPunctuation(Lower(title)));
  }

  /** The word characters of `s`, in order. */
  function WordChars(s: string): string
  {
    if |s| == 0 then "" else (if IsWordChar(s[0]) then [s[0]] else "") + WordChars(s[1..])
  }

  // ---------------------------------------------------------------- idempotence

  /** A title that already has the normalised shape is left alone. */
  lemma NormalizedIsFixpoint(t: string)
    requires IsNormalized(t)
    ensures NormalizeTitle(t) == t
  {
    assert Lower(t) == t;
    assert BlankPunctuation(t) == t;
    CleanIsFixpoint(t);
  }

  /** Normalising twice is normalising once. */
  lemma NormalizeIdempotent(title: string)
    ensures NormalizeTitle(NormalizeTitle(title)) == NormalizeTitle(title)
  {
    NormalizedIsFixpoint(NormalizeTitle(title));
  }

  // ---------------------------------------------------------------- nothing but separators is lost

  lemma {:induction false} WordCharsConcat(a: string, b: string)
    ensures WordChars(a + b) == WordChars(a) + WordChars(b)
    decreases |a|
  {
    if |a| == 0 {
      assert a + b == b;
    } else {
      assert (a + b)[0] == a[0];
      assert (a + b)[1..] == a[1..] + b;
      WordCharsConcat(a[1..], b);
    }
  }

  lemma {:induction false} WordCharsBlank(s: string)
    ensures WordChars(BlankPunctuation(s)) == WordChars(s)
    decreases |s|
  {
    if |s| > 0 {
      assert BlankPunctuation(s)[1..] == BlankPunctuation(s[1..]);
      WordCharsBlank(s[1..]);
    }
  }

  lemma {:induction false} WordCharsTrimStart(s: string)
    ensures WordChars(TrimStart(s)) == WordChars(s)
    decreases |s|
  {
    if |s| > 0 && IsSpace(s[0]) {
      WordCharsTrimStart(s[1..]);
    }
  }

  lemma {:induction false} WordCharsTrimEnd(s: string)
    ensures WordChars(TrimEnd(s)) == WordChars(s)
    decreases |s|
  {
    if |s| > 0 && IsSpace(s[|s| - 1]) {
      var init := s[..|s| - 1];
      WordCharsTrimEnd(init);
      assert s == init + [s[|s| - 1]];
      WordCharsConcat(init, [s[|s| - 1]]);
    }
  }

  lemma WordCharsCons(c: char, rest: string)
    ensures WordChars([c] + rest) == (if IsWordChar(c) then [c] else "") + WordChars(rest)
  {
    assert ([c] + rest)[1..] == rest;
  }

  lemma SpaceIsNoWordChar(c: char)
    requires IsSpace(c)
    ensures !IsWordChar(c)
  {
  }

  lemma {:induction false} WordCharsCollapse(s: string)
    ensures WordChars(CollapseSpaces(s)) == WordChars(s)
    decreases |s|
  {
    if |s| > 0 {
      if IsSpace(s[0]) {
        var t := TrimStart(s[1..]);
        WordCharsCollapse(t);
        WordCharsTrimStart(s[1..]);
        WordCharsCons(' ', CollapseSpaces(t));
        SpaceIsNoWordChar(s[0]);
      } else {
        WordCharsCollapse(s[1..]);
        WordCharsCons(s[0], CollapseSpaces(s[1..]));
      }
    }
  }

  /** The normalised title keeps every word character of the lower-cased title, in order, and no other. */
  lemma NormalizeKeepsWords(title: string)
    ensures WordChars(NormalizeTitle(title)) == WordChars(Lower(title))
  {
    var s1 := Lower(title);
    var s2 := BlankPunctuation(s1);
    var s3 := CollapseSpaces(s2);
    WordCharsBlank(s1);
    WordCharsCollapse(s2);
    WordCharsTrimStart(s3);
    WordCharsTrimEnd(TrimStart(s3));
  }
}

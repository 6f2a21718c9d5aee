/**
 * The JavaScript string primitives the bot relies on: the `\s` and `\w`
 * character classes, `toLowerCase`/`toUpperCase` on ASCII letters,
 * `includes`, `trim`, `split` on one character, `join`, `slice(0, n)`,
 * `replace` of a literal string and `replace(/\s+/g, ' ')`.
 */
module Text {
  import opened Wrappers

  /** What JavaScript's `\s` matches and `trim` removes: the white-space and line-terminator code points. */
  predicate IsSpace(c: char) {
    || c == ' ' || c == '\t' || c == '\n' || c == '\U{000B}' || c == '\U{000C}' || c == '\r'
    || c == '\U{00A0}' || c == '\U{1680}' || ('\U{2000}' <= c <= '\U{200A}')
    || c == '\U{2028}' || c == '\U{2029}' || c == '\U{202F}' || c == '\U{205F}'
    || c == '\U{3000}' || c == '\U{FEFF}'
  }

  /** The characters JavaScript's `.` refuses to match. */
  predicate IsLineTerminator(c: char) {
    c == '\n' || c == '\r' || c == '\U{2028}' || c == '\U{2029}'
  }

  /** JavaScript's `\w` without the `u` flag: `[A-Za-z0-9_]`. */
  predicate IsWordChar(c: char) {
    ('a' <= c <= 'z') || ('A' <= c <= 'Z') || ('0' <= c <= '9') || c == '_'
  }

  predicate IsUpperAscii(c: char) {
    'A' <= c <= 'Z'
  }

  predicate IsLowerAscii(c: char) {
    'a' <= c <= 'z'
  }

  function ToLower(c: char): (r: char)
    ensures !IsUpperAscii(r)
    ensures IsWordChar(r) <==> IsWordChar(c)
    ensures IsSpace(r) <==> IsSpace(c)
    ensures !IsUpperAscii(c) ==> r == c
  {
    if IsUpperAscii(c) then (c as int + 32) as char else c
  }

  function ToUpper(c: char): (r: char)
    ensures !IsLowerAscii(r)
    ensures !IsLowerAscii(c) ==> r == c
  {
    if IsLowerAscii(c) then (c as int - 32) as char else c
  }

  /** `toLowerCase`, restricted to the ASCII letters. */
  function Lower(s: string): (r: string)
    ensures |r| == |s|
    ensures forall i :: 0 <= i < |r| ==> !IsUpperAscii(r[i])
  {
    seq(|s|, i requires 0 <= i < |s| => ToLower(s[i]))
  }

  /** `toUpperCase`, restricted to the ASCII letters. */
  function Upper(s: string): (r: string)
    ensures |r| == |s|
    ensures forall i :: 0 <= i < |r| ==> !IsLowerAscii(r[i])
  {
    seq(|s|, i requires 0 <= i < |s| => ToUpper(s[i]))
  }

  /** `s.includes(pat)`. */
  predicate Contains(s: string, pat: string) {
    exists i :: 0 <= i <= |s| && pat <= s[i..]
  }

  lemma ContainsAt(s: string, pat: string, i: nat)
    requires i <= |s| && pat <= s[i..]
    ensures Contains(s, pat)
  {
  }

  /** A text found inside a piece of `s` is found in `s`. */
  lemma ContainsInfix(s: string, o: nat, piece: string, j: nat, t: string)
    requires o + |piece| <= |s| && s[o..o + |piece|] == piece
    requires j + |t| <= |piece| && piece[j..j + |t|] == t
    ensures Contains(s, t)
  {
    assert forall k :: 0 <= k < |t| ==> t[k] == piece[j + k] == s[o + j + k];
    assert s[o + j..][..|t|] == s[o + j..o + j + |t|];
    ContainsAt(s, t, o + j);
  }

  /** Containment is transitive. */
  lemma ContainsTrans(a: string, b: string, c: string)
    requires Contains(a, b) && Contains(b, c)
    ensures Contains(a, c)
  {
    var i :| 0 <= i <= |a| && b <= a[i..];
    var j :| 0 <= j <= |b| && c <= b[j..];
    assert a[i + j..i + j + |c|] == c;
    ContainsAt(a, c, i + j);
  }

  /** The position of the first occurrence of `pat` in `s` at or after `from`. */
  function IndexOf(s: string, pat: string, from: nat): (r: Option<nat>)
    requires from <= |s|
    ensures r.Some? ==> from <= r.value && r.value + |pat| <= |s| && pat <= s[r.value..]
    ensures r.Some? ==> forall k :: from <= k < r.value ==> !(pat <= s[k..])
    ensures r.None? ==> forall k :: from <= k <= |s| ==> !(pat <= s[k..])
    decreases |s| - from
  {
    if pat <= s[from..] then Some(from)
    else if from == |s| then None
    else IndexOf(s, pat, from + 1)
  }

  /** `s.replace(pat, rep)` with a literal pattern: only the first occurrence is replaced. */
  function ReplaceFirst(s: string, pat: string, rep: string): (r: string)
    ensures !Contains(s, pat) ==> r == s
    ensures pat <= s ==> r == rep + s[|pat|..]
  {
    match IndexOf(s, pat, 0)
    case None => s
    case Some(i) => s[..i] + rep + s[i + |pat|..]
  }

  /** Deleting the first occurrence of `pat` empties `s` exactly when `s` is empty or is `pat` itself. */
  lemma DeleteFirstEmpty(s: string, pat: string)
    ensures ReplaceFirst(s, pat, "") == "" <==> s == "" || s == pat
  {
    match IndexOf(s, pat, 0)
    case None =>
      if s == pat {
        assert pat <= s[0..];
      }
    case Some(i) =>
      assert |ReplaceFirst(s, pat, "")| == |s| - |pat|;
      if |s| == |pat| {
        assert i == 0 && s == pat;
      }
  }

  /** `slice(0, n)` on an array. */
  function Take<T>(xs: seq<T>, n: nat): (r: seq<T>)
    ensures |r| <= n && r <= xs
    ensures |xs| <= n ==> r == xs
    ensures |xs| > n ==> |r| == n
  {
    if |xs| <= n then xs else xs[..n]
  }

  // ---------------------------------------------------------------- trim

  function TrimStart(s: string): (r: string)
    ensures |r| <= |s| && r == s[|s| - |r|..]
    ensures r == [] || !IsSpace(r[0])
    ensures forall k :: 0 <= k < |s| - |r| ==> IsSpace(s[k])
  {
    if |s| > 0 && IsSpace(s[0]) then TrimStart(s[1..]) else s
  }

  function TrimEnd(s: string): (r: string)
    ensures r <= s
    ensures r == [] || !IsSpace(r[|r| - 1])
    ensures forall k :: |r| <= k < |s| ==> IsSpace(s[k])
  {
    if |s| > 0 && IsSpace(s[|s| - 1]) then TrimEnd(s[..|s| - 1]) else s
  }

  /** `s.trim()`: the slice of `s` left once leading and trailing white space is removed. */
  function Trim(s: string): (r: string)
    ensures r == [] || (!IsSpace(r[0]) && !IsSpace(r[|r| - 1]))
    ensures Contains(s, r)
    ensures (|s| == 0 || (!IsSpace(s[0]) && !IsSpace(s[|s| - 1]))) ==> r == s
  {
    var t := TrimStart(s);
    var r := TrimEnd(t);
    assert r <= s[|s| - |t|..];
    r
  }

  /** A text that neither starts nor ends with white space is its own trim. */
  lemma TrimUnchanged(s: string)
    requires |s| > 0 && !IsSpace(s[0]) && !IsSpace(s[|s| - 1])
    ensures Trim(s) == s
  {
  }

  function TrimAll(cells: seq<string>): (r: seq<string>)
    ensures |r| == |cells|
    ensures forall i :: 0 <= i < |r| ==> r[i] == Trim(cells[i])
  {
    seq(|cells|, i requires 0 <= i < |cells| => Trim(cells[i]))
  }

  lemma {:induction false} TrimStartConcat(x: string, y: string)
    ensures TrimStart(x + y) == if TrimStart(x) == [] then TrimStart(y) else TrimStart(x) + y
  {
    if |x| == 0 {
      assert x + y == y;
    } else if IsSpace(x[0]) {
      assert (x + y)[1..] == x[1..] + y;
      TrimStartConcat(x[1..], y);
    } else {
      assert (x + y)[0] == x[0];
    }
  }

  lemma TrimEndSpace(y: string)
    ensures TrimEnd(y + " ") == TrimEnd(y)
  {
    assert (y + " ")[..|y|] == y;
  }

  lemma TrimStartPadded(x: string)
    ensures TrimStart(" " + x + " ") == TrimStart(x + " ")
  {
    assert (" " + x + " ")[1..] == x + " ";
  }

  lemma TrimStartSpace()
    ensures TrimStart(" ") == []
  {
    assert " "[1..] == [];
  }

  /** A cell written as `" " + x + " "` trims back to the trim of `x`. */
  lemma TrimPadded(x: string)
    ensures Trim(" " + x + " ") == Trim(x)
  {
    TrimStartPadded(x);
    TrimStartConcat(x, " ");
    if TrimStart(x) == [] {
      TrimStartSpace();
    } else {
      TrimEndSpace(TrimStart(x));
    }
  }

  // ---------------------------------------------------------------- white-space runs

  /** White space only as single plain spaces: the shape `replace(/\s+/g, ' ')` leaves. */
  predicate IsCollapsed(s: string) {
    && (forall i :: 0 <= i < |s| ==> IsSpace(s[i]) ==> s[i] == ' ')
    && (forall i :: 0 <= i < |s| - 1 ==> !(s[i] == ' ' && s[i + 1] == ' '))
  }

  /** Putting `c` in front of a collapsed text keeps it collapsed unless it doubles a space. */
  lemma ConsCollapsed(c: char, rest: string)
    requires IsCollapsed(rest)
    requires IsSpace(c) ==> c == ' '
    requires c == ' ' ==> rest == [] || rest[0] != ' '
    ensures IsCollapsed([c] + rest)
  {
    var r := [c] + rest;
    assert forall i :: 1 <= i < |r| ==> r[i] == rest[i - 1];
  }

  /** `s.replace(/\s+/g, ' ')`: every maximal run of white space becomes one space. */
  function CollapseSpaces(s: string): (r: string)
    ensures |r| <= |s|
    ensures IsCollapsed(r)
    ensures |s| > 0 && !IsSpace(s[0]) ==> |r| > 0 && r[0] == s[0]
    ensures |s| > 0 && IsSpace(s[0]) ==> |r| > 0 && r[0] == ' '
    ensures |s| == 0 ==> r == []
    decreases |s|
  {
    if |s| == 0 then ""
    else if IsSpace(s[0]) then
      var rest := CollapseSpaces(TrimStart(s[1..]));
      assert IsSpace(' ');
      ConsCollapsed(' ', rest);
      " " + rest
    else
      var rest := CollapseSpaces(s[1..]);
      assert IsSpace(' ');
      ConsCollapsed(s[0], rest);
      [s[0]] + rest
  }

  /** Every non-space character of a collapsed string comes from the input. */
  lemma {:induction false} CollapseKeepsChars(s: string, P: char -> bool)
    requires forall i :: 0 <= i < |s| ==> P(s[i]) || IsSpace(s[i])
    ensures forall i :: 0 <= i < |CollapseSpaces(s)| ==> P(CollapseSpaces(s)[i]) || CollapseSpaces(s)[i] == ' '
    decreases |s|
  {
    if |s| == 0 {
    } else if IsSpace(s[0]) {
      var t := TrimStart(s[1..]);
      assert forall i :: 0 <= i < |t| ==> t[i] == s[1..][|s[1..]| - |t| + i];
      CollapseKeepsChars(t, P);
      ConsKeepsChars(' ', CollapseSpaces(t), P);
    } else {
      CollapseKeepsChars(s[1..], P);
      ConsKeepsChars(s[0], CollapseSpaces(s[1..]), P);
    }
  }

  lemma ConsKeepsChars(c: char, rest: string, P: char -> bool)
    requires P(c) || c == ' '
    requires forall i :: 0 <= i < |rest| ==> P(rest[i]) || rest[i] == ' '
    ensures forall i :: 0 <= i < |[c] + rest| ==> P(([c] + rest)[i]) || ([c] + rest)[i] == ' '
  {
  }

  /** Collapsed, and nothing left to trim. */
  predicate IsCleanText(t: string) {
    IsCollapsed(t) && (t == [] || (t[0] != ' ' && t[|t| - 1] != ' '))
  }

  /** `s.replace(/\s+/g, ' ').trim()`: the clean-up applied to titles, abstracts and dataset names. */
  function CleanSpaces(s: string): (r: string)
    ensures IsCleanText(r)
    ensures |r| <= |s|
  {
    CollapsedTrim(CollapseSpaces(s));
    Trim(CollapseSpaces(s))
  }

  /** A slice of a collapsed text is collapsed. */
  lemma SliceIsCollapsed(s: string, r: string, k: nat)
    requires IsCollapsed(s) && k + |r| <= |s| && r == s[k..k + |r|]
    ensures IsCollapsed(r)
  {
  }

  /** A prefix of a suffix is a slice. */
  lemma PrefixOfSuffix(s: string, t: string, r: string)
    requires |t| <= |s| && t == s[|s| - |t|..] && r <= t
    ensures s[|s| - |t|..|s| - |t| + |r|] == r
  {
  }

  /** The trim of `s` is the slice of `s` that starts at `k`. */
  lemma TrimSlice(s: string) returns (k: nat)
    ensures k + |Trim(s)| <= |s| && Trim(s) == s[k..k + |Trim(s)|]
  {
    var t := TrimStart(s);
    var r := TrimEnd(t);
    assert Trim(s) == r;
    k := |s| - |t|;
    PrefixOfSuffix(s, t, r);
  }

  /** Trimming a collapsed text leaves a clean one, no longer than it. */
  lemma CollapsedTrim(s: string)
    requires IsCollapsed(s)
    ensures IsCleanText(Trim(s)) && |Trim(s)| <= |s|
  {
    var k := TrimSlice(s);
    SliceIsCollapsed(s, Trim(s), k);
    assert IsSpace(' ');
  }

  lemma {:induction false} CollapseIdentity(s: string)
    requires forall i :: 0 <= i < |s| ==> IsSpace(s[i]) ==> s[i] == ' '
    requires forall i :: 0 <= i < |s| - 1 ==> !(s[i] == ' ' && s[i + 1] == ' ')
    ensures CollapseSpaces(s) == s
    decreases |s|
  {
    if |s| > 0 {
      CollapseIdentity(s[1..]);
      if IsSpace(s[0]) {
        assert TrimStart(s[1..]) == s[1..];
      }
      assert [s[0]] + s[1..] == s;
    }
  }

  /** A clean text is left alone. */
  lemma CleanIsFixpoint(t: string)
    requires IsCleanText(t)
    ensures CleanSpaces(t) == t
  {
    CollapseIdentity(t);
    if |t| > 0 {
      TrimUnchanged(t);
    }
  }

  /** Cleaning twice is cleaning once. */
  lemma CleanSpacesIdempotent(s: string)
    ensures CleanSpaces(CleanSpaces(s)) == CleanSpaces(s)
  {
    CleanIsFixpoint(CleanSpaces(s));
  }

  // ---------------------------------------------------------------- split and join

  /** `s.split(sep)` for a one-character separator: `|sep occurrences| + 1` pieces. */
  function Split(s: string, sep: char): (parts: seq<string>)
    ensures |parts| >= 1
    ensures forall i :: 0 <= i < |parts| ==> sep !in parts[i]
    decreases |s|
  {
    if |s| == 0 then [""]
    else
      var rest := Split(s[1..], sep);
      if s[0] == sep then [""] + rest
      else [[s[0]] + rest[0]] + rest[1..]
  }

  /** `parts.join(sep)`. */
  function Join(parts: seq<string>, sep: string): string
  {
    if |parts| == 0 then ""
    else if |parts| == 1 then parts[0]
    else parts[0] + sep + Join(parts[1..], sep)
  }

  /** A character in none of the pieces nor the separator is not in their join. */
  lemma {:induction false} JoinKeepsOut(parts: seq<string>, sep: string, c: char)
    requires c !in sep && forall i :: 0 <= i < |parts| ==> c !in parts[i]
    ensures c !in Join(parts, sep)
    decreases |parts|
  {
    if |parts| > 1 {
      JoinKeepsOut(parts[1..], sep, c);
    }
  }

  /** Joining two non-empty lists is joining each and putting the separator between. */
  lemma {:induction false} JoinConcat(a: seq<string>, b: seq<string>, sep: string)
    requires |a| >= 1 && |b| >= 1
    ensures Join(a + b, sep) == Join(a, sep) + sep + Join(b, sep)
    decreases |a|
  {
    if |a| == 1 {
      assert (a + b)[1..] == b;
    } else {
      assert (a + b)[1..] == a[1..] + b;
      JoinConcat(a[1..], b, sep);
    }
  }

  /** Where the `i`-th piece starts in `Join(parts, sep)`. */
  function JoinOffset(parts: seq<string>, sep: string, i: nat): nat
    requires i <= |parts|
  {
    if i == 0 then 0 else JoinOffset(parts, sep, i - 1) + |parts[i - 1]| + |sep|
  }

  lemma {:induction false} JoinOffsetShift(parts: seq<string>, sep: string, i: nat)
    requires 1 <= i <= |parts|
    ensures JoinOffset(parts, sep, i) == |parts[0]| + |sep| + JoinOffset(parts[1..], sep, i - 1)
    decreases i
  {
    if i > 1 {
      JoinOffsetShift(parts, sep, i - 1);
      assert parts[1..][i - 2] == parts[i - 1];
    }
  }

  lemma SliceOfConcat(pre: string, rest: string, o: nat, n: nat)
    requires o + n <= |rest|
    ensures (pre + rest)[|pre| + o..|pre| + o + n] == rest[o..o + n]
  {
  }

  lemma SliceOfFront(front: string, back: string, a: nat, b: nat)
    requires a <= b <= |front|
    ensures (front + back)[a..b] == front[a..b]
  {
  }

  /** The `i`-th piece sits in the join at `JoinOffset(parts, sep, i)`. */
  lemma {:induction false} JoinPieceAt(parts: seq<string>, sep: string, i: nat)
    requires i < |parts|
    ensures JoinOffset(parts, sep, i) + |parts[i]| <= |Join(parts, sep)|
    ensures Join(parts, sep)[JoinOffset(parts, sep, i)..JoinOffset(parts, sep, i) + |parts[i]|] == parts[i]
    decreases |parts|
  {
    if i == 0 {
      if |parts| > 1 {
        assert Join(parts, sep) == parts[0] + (sep + Join(parts[1..], sep));
      }
    } else {
      JoinPieceAt(parts[1..], sep, i - 1);
      JoinOffsetShift(parts, sep, i);
      assert Join(parts, sep) == (parts[0] + sep) + Join(parts[1..], sep);
      SliceOfConcat(parts[0] + sep, Join(parts[1..], sep), JoinOffset(parts[1..], sep, i - 1), |parts[i]|);
    }
  }

  /** A join holds each of its pieces. */
  lemma JoinHoldsPiece(parts: seq<string>, sep: string, i: nat)
    requires i < |parts|
    ensures Contains(Join(parts, sep), parts[i])
  {
    JoinPieceAt(parts, sep, i);
    ContainsInfix(Join(parts, sep), JoinOffset(parts, sep, i), parts[i], 0, parts[i]);
  }

  /** Later pieces start after earlier pieces and the separator that follows them end. */
  lemma {:induction false} JoinOffsetsIncrease(parts: seq<string>, sep: string, i: nat, j: nat)
    requires i < j <= |parts|
    ensures JoinOffset(parts, sep, i) + |parts[i]| + |sep| <= JoinOffset(parts, sep, j)
    decreases j
  {
    if j > i + 1 {
      JoinOffsetsIncrease(parts, sep, i, j - 1);
    }
  }

  /** `line.split('|').map(cell => cell.trim())`, the cell reading both table readers share. */
  function Cells(line: string): (cells: seq<string>)
    ensures |cells| >= 1
  {
    TrimAll(Split(line, '|'))
  }

  /** Joining the pieces of a split with the same separator gives the text back. */
  lemma {:induction false} JoinSplit(s: string, sep: char)
    ensures Join(Split(s, sep), [sep]) == s
    decreases |s|
  {
    if |s| > 0 {
      var rest := Split(s[1..], sep);
      JoinSplit(s[1..], sep);
      if s[0] == sep {
        assert Join([""] + rest, [sep]) == "" + [sep] + Join(rest, [sep]);
      } else if |rest| == 1 {
        assert Join([[s[0]] + rest[0]] + rest[1..], [sep]) == [s[0]] + rest[0];
      } else {
        var parts := [[s[0]] + rest[0]] + rest[1..];
        assert parts[1..] == rest[1..];
        assert Join(rest, [sep]) == rest[0] + [sep] + Join(rest[1..], [sep]);
      }
    }
  }

  lemma {:induction false} SplitNoSep(a: string, sep: char)
    requires sep !in a
    ensures Split(a, sep) == [a]
    decreases |a|
  {
    if |a| > 0 {
      SplitNoSep(a[1..], sep);
      assert [a[0]] + a[1..] == a;
    }
  }

  lemma {:induction false} SplitAfterPiece(a: string, sep: char, b: string)
    requires sep !in a
    ensures Split(a + [sep] + b, sep) == [a] + Split(b, sep)
    decreases |a|
  {
    var s := a + [sep] + b;
    if |a| == 0 {
      assert s[1..] == b;
    } else {
      assert s[1..] == a[1..] + [sep] + b;
      SplitAfterPiece(a[1..], sep, b);
      assert [a[0]] + a[1..] == a;
    }
  }

  /** Splitting a join of separator-free pieces gives the pieces back. */
  lemma {:induction false} SplitJoin(parts: seq<string>, sep: char)
    requires |parts| >= 1
    requires forall i :: 0 <= i < |parts| ==> sep !in parts[i]
    ensures Split(Join(parts, [sep]), sep) == parts
    decreases |parts|
  {
    if |parts| == 1 {
      SplitNoSep(parts[0], sep);
    } else {
      SplitJoin(parts[1..], sep);
      SplitAfterPiece(parts[0], sep, Join(parts[1..], [sep]));
      assert [parts[0]] + parts[1..] == parts;
    }
  }
}

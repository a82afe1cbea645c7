/**
 * The string primitives that answer normalisation and matching are built
 * from: `trim()`, `toLowerCase()`, `split(/\s+/)` and `includes()` of
 * JavaScript strings, over Dafny strings (sequences of Unicode scalar values).
 */
module Text {

  /** The ECMAScript WhiteSpace and LineTerminator code points: the one set
      that both `trim()` and the regular-expression class `\s` strip or match. */
  predicate IsSpace(c: char)
    ensures c == ' ' || c == '\t' || c == '\n' || c == '\r' ==> IsSpace(c)
    ensures IsSpace(c) ==> !('A' <= c <= 'Z' || 'a' <= c <= 'z' || '0' <= c <= '9')
  {
    || c == '\t' || c == '\n' || c == '\U{000B}' || c == '\U{000C}' || c == '\r'
    || c == ' ' || c == '\U{00A0}' || c == '\U{1680}'
    || ('\U{2000}' <= c <= '\U{200A}')
    || c == '\U{2028}' || c == '\U{2029}' || c == '\U{202F}' || c == '\U{205F}'
    || c == '\U{3000}' || c == '\U{FEFF}'
  }

  /** Lower-case mapping of one character (ASCII letters only). */
  function ToLower(c: char): (d: char)
    ensures IsSpace(d) == IsSpace(c)
    ensures !('A' <= d <= 'Z')
    ensures 'A' <= c <= 'Z' ==> 'a' <= d <= 'z' && d as int - 'a' as int == c as int - 'A' as int
    ensures !('A' <= c <= 'Z') ==> d == c
  {
    if 'A' <= c <= 'Z' then (c as int + 32) as char else c
  }

  /** Every character is whitespace. */
  ghost predicate AllSpace(s: string) {
    forall k :: 0 <= k < |s| ==> IsSpace(s[k])
  }

  /** No character is whitespace. */
  ghost predicate NoSpace(s: string) {
    forall k :: 0 <= k < |s| ==> !IsSpace(s[k])
  }

  /** No whitespace at either end. */
  ghost predicate Trimmed(s: string) {
    s == [] || (!IsSpace(s[0]) && !IsSpace(s[|s| - 1]))
  }

  /** Every character is its own lower-case form. */
  ghost predicate LowerCased(s: string) {
    forall k :: 0 <= k < |s| ==> ToLower(s[k]) == s[k]
  }

  /** `toLowerCase()`: maps every character, keeps the length. */
  function LowerCase(s: string): (r: string)
    ensures |r| == |s|
    ensures forall k :: 0 <= k < |s| ==> r[k] == ToLower(s[k])
  {
    if s == [] then [] else [ToLower(s[0])] + LowerCase(s[1..])
  }

  /** The length of the leading whitespace run. */
  function LeadingSpaces(s: string): (n: nat)
    ensures n <= |s| && AllSpace(s[..n])
    ensures n < |s| ==> !IsSpace(s[n])
  {
    if s != [] && IsSpace(s[0]) then 1 + LeadingSpaces(s[1..]) else 0
  }

  /** The length of the trailing whitespace run. */
  function TrailingSpaces(s: string): (n: nat)
    ensures n <= |s| && AllSpace(s[|s| - n..])
    ensures n < |s| ==> !IsSpace(s[|s| - n - 1])
  {
    if s != [] && IsSpace(s[|s| - 1]) then 1 + TrailingSpaces(s[..|s| - 1]) else 0
  }

  /** `s` without its leading whitespace run. */
  function TrimStart(s: string): string {
    s[LeadingSpaces(s)..]
  }

  /** `r` is what is left of `s` once a whitespace prefix and a whitespace
      suffix are cut off, with no whitespace left at either end of `r`. */
  ghost predicate IsTrimOf(s: string, r: string) {
    exists i, j :: 0 <= i <= j <= |s| && r == s[i..j] && AllSpace(s[..i]) && AllSpace(s[j..]) && Trimmed(r)
  }

  /** `trim()`. */
  function Trim(s: string): (r: string)
    ensures IsTrimOf(s, r)
  {
    var i := LeadingSpaces(s);
    var n := TrailingSpaces(s[i..]);
    FramingByRuns(s, i, n);
    s[i..|s| - n]
  }

  /** A leading run of length `i` and a trailing run of length `n` (the latter
      measured after the leading run) frame a trimmed middle part. */
  lemma FramingByRuns(s: string, i: nat, n: nat)
    requires i <= |s| && AllSpace(s[..i]) && (i < |s| ==> !IsSpace(s[i]))
    requires n <= |s| - i && AllSpace(s[i..][|s| - i - n..])
    requires n < |s| - i ==> !IsSpace(s[i..][|s| - i - n - 1])
    ensures IsTrimOf(s, s[i..|s| - n])
  {
    hide IsSpace;
    assert s[i..][|s| - i - n..] == s[|s| - n..];
    if n < |s| - i {
      assert s[i..][|s| - i - n - 1] == s[|s| - n - 1];
    }
  }

  /** Two ways of framing a string by whitespace cut out the same trimmed part. */
  lemma FramingUnique(s: string, i: nat, j: nat, i': nat, j': nat)
    requires i <= j <= |s| && AllSpace(s[..i]) && AllSpace(s[j..]) && Trimmed(s[i..j])
    requires i' <= j' <= |s| && AllSpace(s[..i']) && AllSpace(s[j'..]) && Trimmed(s[i'..j'])
    ensures s[i..j] == s[i'..j']
  {
    hide IsSpace;
    if i < j && i' < j' {
      assert s[i..j][0] == s[i] && s[i'..j'][0] == s[i'];
      assert s[i..j][j - i - 1] == s[j - 1] && s[i'..j'][j' - i' - 1] == s[j' - 1];
    }
  }

  /** IsTrimOf determines its result: Trim is the only function meeting its contract. */
  lemma {:induction false} TrimUnique(s: string, r: string)
    requires IsTrimOf(s, r)
    ensures r == Trim(s)
  {
    hide IsSpace;
    hide Trim;
    var i, j :| 0 <= i <= j <= |s| && r == s[i..j] && AllSpace(s[..i]) && AllSpace(s[j..]) && Trimmed(r);
    var i', j' :| 0 <= i' <= j' <= |s| && Trim(s) == s[i'..j'] && AllSpace(s[..i']) && AllSpace(s[j'..]) && Trimmed(Trim(s));
    FramingUnique(s, i, j, i', j');
  }

  /** An all-whitespace string trims to the empty string. */
  lemma TrimAllSpace(s: string)
    requires AllSpace(s)
    ensures Trim(s) == []
  {
    hide IsSpace;
    hide Trim;
    var i, j :| 0 <= i <= j <= |s| && Trim(s) == s[i..j] && AllSpace(s[..i]) && AllSpace(s[j..]) && Trimmed(Trim(s));
    if i < j {
      assert s[i..j][0] == s[i];
    }
  }

  /** A string with no whitespace at its ends is left as it is. */
  lemma TrimOfTrimmed(s: string)
    requires Trimmed(s)
    ensures Trim(s) == s
  {
    hide IsSpace;
    assert s[0..|s|] == s && s[..0] == [] && s[|s|..] == [];
    TrimUnique(s, s);
  }

  /** Whitespace added at either end is removed again. */
  lemma TrimIgnoresPadding(p: string, s: string, q: string)
    requires AllSpace(p) && AllSpace(q)
    ensures Trim(p + s + q) == Trim(s)
  {
    hide IsSpace;
    hide Trim;
    var i, j :| 0 <= i <= j <= |s| && Trim(s) == s[i..j] && AllSpace(s[..i]) && AllSpace(s[j..]) && Trimmed(Trim(s));
    var t := p + s + q;
    assert t[|p| + i..|p| + j] == s[i..j];
    assert t[..|p| + i] == p + s[..i];
    assert t[|p| + j..] == s[j..] + q;
    AllSpaceConcat(p, s[..i]);
    AllSpaceConcat(s[j..], q);
    assert IsTrimOf(t, Trim(s));
    TrimUnique(t, Trim(s));
  }

  /** Two whitespace runs side by side are one whitespace run. */
  lemma AllSpaceConcat(a: string, b: string)
    requires AllSpace(a) && AllSpace(b)
    ensures AllSpace(a + b)
  {
    hide IsSpace;
    forall k | 0 <= k < |a + b| ensures IsSpace((a + b)[k]) {
      if k >= |a| {
        assert (a + b)[k] == b[k - |a|];
      }
    }
  }

  /** Trimming and lower-casing commute, because lower-casing maps whitespace
      to whitespace and nothing else to whitespace. */
  lemma TrimLowerCaseCommute(s: string)
    ensures Trim(LowerCase(s)) == LowerCase(Trim(s))
  {
    hide Trim;
    hide IsSpace;
    hide ToLower;
    hide LowerCase;
    var i, j :| 0 <= i <= j <= |s| && Trim(s) == s[i..j] && AllSpace(s[..i]) && AllSpace(s[j..]) && Trimmed(Trim(s));
    var l := LowerCase(s);
    LowerCaseSlice(s, 0, i);
    LowerCaseSlice(s, i, j);
    LowerCaseSlice(s, j, |s|);
    assert s[0..i] == s[..i] && l[0..i] == l[..i];
    assert s[j..|s|] == s[j..] && l[j..|s|] == l[j..];
    LowerCaseKeepsSpace(s[..i]);
    LowerCaseKeepsSpace(s[j..]);
    LowerCaseKeepsTrimmed(s[i..j]);
    assert IsTrimOf(l, l[i..j]);
    TrimUnique(l, l[i..j]);
  }

  /** Lower-casing a slice is slicing the lower-cased string. */
  lemma LowerCaseSlice(s: string, i: nat, j: nat)
    requires i <= j <= |s|
    ensures LowerCase(s)[i..j] == LowerCase(s[i..j])
  {
    hide LowerCase;
    hide IsSpace;
    assert forall k :: 0 <= k < j - i ==> s[i..j][k] == s[i + k];
  }

  /** Lower-casing keeps a whitespace run whitespace. */
  lemma LowerCaseKeepsSpace(s: string)
    requires AllSpace(s)
    ensures AllSpace(LowerCase(s))
  {
    hide LowerCase;
  }

  /** Lower-casing puts no whitespace at the ends of a trimmed string. */
  lemma LowerCaseKeepsTrimmed(s: string)
    requires Trimmed(s)
    ensures Trimmed(LowerCase(s))
  {
    hide LowerCase;
  }

  /** The normal form of an answer: `str.trim().toLowerCase()`. */
  function Normalize(s: string): (r: string)
    ensures Trimmed(r) && LowerCased(r)
    ensures |r| <= |s|
  {
    LowerCase(Trim(s))
  }

  /** Normalising twice is normalising once. */
  lemma NormalizeIdempotent(s: string)
    ensures Normalize(Normalize(s)) == Normalize(s)
  {
    var n := Normalize(s);
    TrimOfTrimmed(n);
    assert LowerCase(n) == n;
  }

  /** Surrounding whitespace makes no difference to the normal form. */
  lemma NormalizeIgnoresPadding(p: string, s: string, q: string)
    requires AllSpace(p) && AllSpace(q)
    ensures Normalize(p + s + q) == Normalize(s)
  {
    TrimIgnoresPadding(p, s, q);
  }

  /** Letter case makes no difference to the normal form. */
  lemma NormalizeIgnoresCase(s: string, t: string)
    requires LowerCase(s) == LowerCase(t)
    ensures Normalize(s) == Normalize(t)
  {
    TrimLowerCaseCommute(s);
    TrimLowerCaseCommute(t);
  }

  /** Length of the leading run of non-whitespace characters. */
  function WordLength(s: string): (n: nat)
    ensures n <= |s| && NoSpace(s[..n])
    ensures n < |s| ==> IsSpace(s[n])
  {
    if s == [] || IsSpace(s[0]) then 0 else 1 + WordLength(s[1..])
  }

  /** Dropping a non-empty leading run shortens the string and leaves a suffix. */
  lemma TrimStartShrinks(s: string)
    requires s != [] && IsSpace(s[0])
    ensures |TrimStart(s)| < |s| && TrimStart(s) == s[|s| - |TrimStart(s)|..]
  {
  }

  /** `split(/\s+/)`: the fields between maximal runs of whitespace. A leading
      (trailing) run yields an empty first (last) field, and the empty string
      yields the single field "". */
  function Split(s: string): (words: seq<string>)
    ensures |words| >= 1
    ensures forall k :: 0 <= k < |words| ==> NoSpace(words[k])
    decreases |s|
  {
    var n := WordLength(s);
    if n == |s| then [s]
    else
      var rest := TrimStart(s[n..]);
      TrimStartShrinks(s[n..]);
      [s[..n]] + Split(rest)
  }

  /** The words with the given whitespace runs between them,
      `words[0] + seps[0] + words[1] + ... + words[|words| - 1]`; with every
      separator " " this is `words.join(" ")`. */
  function Join(words: seq<string>, seps: seq<string>): (s: string)
    requires |words| == |seps| + 1
    ensures words[0] <= s
    decreases |seps|
  {
    if seps == [] then words[0]
    else words[0] + seps[0] + Join(words[1..], seps[1..])
  }

  /** A string that does not start with whitespace has no leading run to drop. */
  lemma TrimStartOfUntrimmed(s: string)
    requires s == [] || !IsSpace(s[0])
    ensures TrimStart(s) == s
  {
  }

  /** The first word of `w + t` is `w` when `w` has no whitespace and `t`
      starts with whitespace. */
  lemma {:induction false} WordLengthBeforeSpace(w: string, t: string)
    requires NoSpace(w) && t != [] && IsSpace(t[0])
    ensures WordLength(w + t) == |w|
  {
    var s := w + t;
    if w == [] {
      assert s == t;
    } else {
      assert s[0] == w[0];
      assert s[1..] == w[1..] + t;
      WordLengthBeforeSpace(w[1..], t);
    }
  }

  /** A whitespace run in front of `t` lengthens its leading run by its own length. */
  lemma {:induction false} LeadingSpacesOfRun(sep: string, t: string)
    requires AllSpace(sep)
    ensures LeadingSpaces(sep + t) == |sep| + LeadingSpaces(t)
  {
    if sep == [] {
      assert sep + t == t;
    } else {
      assert (sep + t)[0] == sep[0];
      assert (sep + t)[1..] == sep[1..] + t;
      LeadingSpacesOfRun(sep[1..], t);
    }
  }

  /** Splitting words separated by non-empty whitespace runs gives the words
      back: a run of any length and mix of whitespace is one separator. Inner
      words are non-empty; an empty first or last word stands for a leading or
      trailing run. */
  lemma {:induction false} SplitJoin(words: seq<string>, seps: seq<string>)
    requires |words| == |seps| + 1
    requires forall k :: 0 <= k < |words| ==> NoSpace(words[k])
    requires forall k :: 0 < k < |words| - 1 ==> words[k] != []
    requires forall k :: 0 <= k < |seps| ==> seps[k] != [] && AllSpace(seps[k])
    ensures Split(Join(words, seps)) == words
  {
    hide IsSpace;
    var w := words[0];
    if seps == [] {
      assert NoSpace(w);
    } else {
      var sep := seps[0];
      var rest := Join(words[1..], seps[1..]);
      var s := w + (sep + rest);
      assert Join(words, seps) == s;
      assert NoSpace(w) && AllSpace(sep);
      WordLengthBeforeSpace(w, sep + rest);
      assert s[..|w|] == w;
      assert s[|w|..] == sep + rest;
      if words[1] != [] {
        assert words[1..][0] == words[1];
        assert rest[0] == words[1][0];
      } else {
        assert |words| == 2;
        assert rest == words[1];
      }
      TrimStartOfUntrimmed(rest);
      LeadingSpacesOfRun(sep, rest);
      assert (sep + rest)[|sep|..] == rest;
      assert TrimStart(sep + rest) == rest;
      assert Split(s) == [w] + Split(rest);
      SplitJoin(words[1..], seps[1..]);
    }
  }

  /** `n` occurs in `h` starting at index `i`. */
  ghost predicate OccursAt(h: string, n: string, i: int) {
    0 <= i && i + |n| <= |h| && h[i..i + |n|] == n
  }

  /** `h.includes(n)`: `n` occurs somewhere in `h` as a contiguous substring
      (the empty string occurs everywhere). */
  function Contains(h: string, n: string): (b: bool)
    ensures b <==> exists i :: OccursAt(h, n, i)
    decreases |h|
  {
    if n <= h then
      assert OccursAt(h, n, 0);
      true
    else if h == [] then
      false
    else
      var b := Contains(h[1..], n);
      assert b ==> exists i :: OccursAt(h, n, i) by {
        if b {
          var i :| OccursAt(h[1..], n, i);
          assert h[1..][i..i + |n|] == h[i + 1..i + 1 + |n|];
          assert OccursAt(h, n, i + 1);
        }
      }
      assert (exists i :: OccursAt(h, n, i)) ==> b by {
        if exists i :: OccursAt(h, n, i) {
          var i :| OccursAt(h, n, i);
          assert i != 0;
          assert h[1..][i - 1..i - 1 + |n|] == h[i..i + |n|];
          assert OccursAt(h[1..], n, i - 1);
        }
      }
      b
  }

  /** A substring of a substring of `h` is a substring of `h`. */
  lemma ContainsTransitive(h: string, m: string, n: string)
    requires Contains(h, m) && Contains(m, n)
    ensures Contains(h, n)
  {
    var i :| OccursAt(h, m, i);
    var j :| OccursAt(m, n, j);
    forall k | 0 <= k < |n| ensures h[i + j..i + j + |n|][k] == n[k] {
      assert n[k] == m[j..j + |n|][k] == m[j + k] == h[i..i + |m|][j + k];
    }
    assert h[i + j..i + j + |n|] == n;
    assert OccursAt(h, n, i + j);
  }

  /** A string ends with, and so contains, its last part. */
  lemma ContainsLastPart(p: string, n: string)
    ensures Contains(p + n, n)
  {
    assert (p + n)[|p|..|p| + |n|] == n;
    assert OccursAt(p + n, n, |p|);
  }

  /** Appending to a string keeps what it contains. */
  lemma ContainsExtended(s: string, n: string, q: string)
    requires Contains(s, n)
    ensures Contains(s + q, n)
  {
    var i :| OccursAt(s, n, i);
    assert (s + q)[i..i + |n|] == s[i..i + |n|];
    assert OccursAt(s + q, n, i);
  }

  /** What occurs in a suffix of `s` occurs in `s`. */
  lemma ContainsInSuffix(s: string, off: nat, w: string)
    requires off <= |s| && Contains(s[off..], w)
    ensures Contains(s, w)
  {
    var i :| OccursAt(s[off..], w, i);
    assert s[off..][i..i + |w|] == s[off + i..off + i + |w|];
    assert OccursAt(s, w, off + i);
  }

  /** Every field Split produces occurs in the string that was split. */
  lemma {:induction false} SplitWordsOccur(s: string, k: nat)
    requires k < |Split(s)|
    ensures Contains(s, Split(s)[k])
    decreases |s|
  {
    hide IsSpace;
    var n := WordLength(s);
    if n == |s| {
      assert OccursAt(s, s, 0);
    } else if k == 0 {
      assert OccursAt(s, s[..n], 0);
    } else {
      var rest := TrimStart(s[n..]);
      TrimStartShrinks(s[n..]);
      assert Split(s) == [s[..n]] + Split(rest);
      SplitWordsOccur(rest, k - 1);
      var w := Split(rest)[k - 1];
      assert w == Split(s)[k];
      var off := |s| - |rest|;
      assert rest == s[off..];
      ContainsInSuffix(s, off, w);
    }
  }

  /** A string is not contained in `h` when one of its characters is absent from `h`. */
  lemma ContainsNeedsEveryChar(h: string, n: string, k: nat)
    requires k < |n| && n[k] !in h
    ensures !Contains(h, n)
  {
  }
}

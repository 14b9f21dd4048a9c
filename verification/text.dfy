/**
 * String primitives that the preprocessing code borrows from Python:
 * `str.lower`, `str.split()`, `" ".join`, `in` on strings,
 * `str.replace(term, "")`, and `re.sub` with a `\bphrase\b` pattern.
 */
module Text {
  import opened Seqs

  // ---------------------------------------------------------------------
  // Character classes
  // ---------------------------------------------------------------------

  /** Python's `str.isspace`, which is also what `\s` and `str.split()` use. */
  predicate IsSpace(c: char)
  {
    var n := c as int;
    (9 <= n <= 13) || (28 <= n <= 32) || n == 0x85 || n == 0xA0 || n == 0x1680
    || (0x2000 <= n <= 0x200A) || n == 0x2028 || n == 0x2029 || n == 0x202F
    || n == 0x205F || n == 0x3000
  }

  predicate IsNotSpace(c: char)
  {
    !IsSpace(c)
  }

  predicate IsAsciiLetter(c: char)
  {
    'a' <= c <= 'z' || 'A' <= c <= 'Z'
  }

  predicate IsAsciiDigit(c: char)
  {
    '0' <= c <= '9'
  }

  /** A character that `\w` matches, restricted to ASCII. */
  predicate IsWordChar(c: char)
  {
    IsAsciiLetter(c) || IsAsciiDigit(c) || c == '_'
  }

  function LowerChar(c: char): char
  {
    if 'A' <= c <= 'Z' then (c as int + 32) as char else c
  }

  /**
   * `str.lower()` on the ASCII range: no upper-case letter is left, and
   * the only characters that change are upper-case letters, each to its
   * lower-case partner.
   */
  function Lower(s: string): (r: string)
    ensures |r| == |s|
    ensures forall i :: 0 <= i < |r| ==> !('A' <= r[i] <= 'Z')
    ensures forall i :: 0 <= i < |r| ==> r[i] == s[i] || ('A' <= s[i] <= 'Z' && r[i] as int == s[i] as int + 32)
  {
    seq(|s|, i requires 0 <= i < |s| => LowerChar(s[i]))
  }

  // ---------------------------------------------------------------------
  // Substrings and str.replace(term, "")
  // ---------------------------------------------------------------------

  predicate OccursAt(p: string, s: string, i: int)
  {
    0 <= i && i + |p| <= |s| && s[i..i + |p|] == p
  }

  /**
   * Python's `p in s` for strings. The empty string is in every string,
   * and a string is in itself; nothing longer than `s` is.
   */
  predicate IsSubstring(p: string, s: string)
    ensures p == [] ==> IsSubstring(p, s)
    ensures p == s ==> IsSubstring(p, s)
    ensures IsSubstring(p, s) ==> |p| <= |s|
  {
    assert OccursAt(p, s, 0) ==> 0 <= 0 <= |s|;
    assert p == s ==> OccursAt(p, s, 0);
    assert p == [] ==> OccursAt(p, s, 0);
    exists i | 0 <= i <= |s| :: OccursAt(p, s, i)
  }

  lemma SubstringOfTail(p: string, s: string)
    requires s != []
    ensures IsSubstring(p, s[1..]) ==> IsSubstring(p, s)
    ensures IsSubstring(p, s) && !OccursAt(p, s, 0) ==> IsSubstring(p, s[1..])
  {
    if IsSubstring(p, s[1..]) {
      var i :| 0 <= i <= |s[1..]| && OccursAt(p, s[1..], i);
      assert s[i + 1..i + 1 + |p|] == s[1..][i..i + |p|];
      assert OccursAt(p, s, i + 1);
    }
    if IsSubstring(p, s) && !OccursAt(p, s, 0) {
      var i :| 0 <= i <= |s| && OccursAt(p, s, i);
      assert i > 0;
      assert s[1..][i - 1..i - 1 + |p|] == s[i..i + |p|];
      assert OccursAt(p, s[1..], i - 1);
    }
  }

  lemma SubstringOfSuffix(p: string, s: string, k: nat)
    requires k <= |s|
    ensures IsSubstring(p, s[k..]) ==> IsSubstring(p, s)
  {
    if IsSubstring(p, s[k..]) {
      var i :| 0 <= i <= |s[k..]| && OccursAt(p, s[k..], i);
      assert s[k + i..k + i + |p|] == s[k..][i..i + |p|];
      assert OccursAt(p, s, k + i);
    }
  }

  /**
   * `s.replace(p, "")`: every non-overlapping occurrence of `p`, found
   * left to right, is deleted. Replacing the empty string by the empty
   * string changes nothing.
   */
  function DeleteAll(s: string, p: string): (r: string)
    ensures |r| <= |s|
    ensures p == "" ==> r == s
    ensures !IsSubstring(p, s) ==> r == s
    ensures p != "" && IsSubstring(p, s) ==> |r| <= |s| - |p|
    decreases |s|
  {
    if p == "" then s
    else if |s| < |p| then
      assert !IsSubstring(p, s);
      s
    else if s[..|p|] == p then
      assert OccursAt(p, s, 0);
      DeleteAll(s[|p|..], p)
    else
      SubstringOfTail(p, s);
      [s[0]] + DeleteAll(s[1..], p)
  }

  /**
   * The deletion of the first occurrence: everything before it is kept,
   * it is dropped, and the scan goes on after it. With the no-occurrence
   * case above, this fixes `s.replace(p, "")` for every `s`.
   */
  lemma DeleteAllFirst(s: string, p: string, j: nat)
    requires p != "" && OccursAt(p, s, j)
    requires forall i :: 0 <= i < j ==> !OccursAt(p, s, i)
    ensures DeleteAll(s, p) == s[..j] + DeleteAll(s[j + |p|..], p)
  {
    NoneBeforeFromAll(p, s, j);
    var before, from := s[..j], s[j..];
    assert s == before + from;
    assert from[..|p|] == p;
    assert from[|p|..] == s[j + |p|..];
    DeleteAllAfterPrefix(before, from, p);
  }

  /** No occurrence of `p` starts before position `j` of `s`, stated one step at a time. */
  predicate NoneBefore(p: string, s: string, j: nat)
    decreases j
  {
    j == 0 || (s != [] && !OccursAt(p, s, 0) && NoneBefore(p, s[1..], j - 1))
  }

  lemma {:induction false} NoneBeforeFromAll(p: string, s: string, j: nat)
    requires j <= |s|
    requires forall i :: 0 <= i < j ==> !OccursAt(p, s, i)
    ensures NoneBefore(p, s, j)
    decreases j
  {
    if j > 0 {
      forall i | 0 <= i < j - 1
        ensures !OccursAt(p, s[1..], i)
      {
        OccursAtTail(p, s, i);
      }
      NoneBeforeFromAll(p, s[1..], j - 1);
    }
  }

  /** A prefix in which no occurrence of `p` starts is kept as it is. */
  lemma {:induction false} DeleteAllAfterPrefix(before: string, from: string, p: string)
    requires p != "" && |p| <= |from| && from[..|p|] == p
    requires NoneBefore(p, before + from, |before|)
    ensures DeleteAll(before + from, p) == before + DeleteAll(from[|p|..], p)
    decreases |before|
  {
    var s := before + from;
    if before == [] {
      assert s == from;
    } else {
      assert s[1..] == before[1..] + from;
      DeleteAllSkip(s, p);
      DeleteAllAfterPrefix(before[1..], from, p);
      assert before == [s[0]] + before[1..];
      AppendAssoc([s[0]], before[1..], DeleteAll(from[|p|..], p));
    }
  }

  lemma AppendAssoc(a: string, b: string, c: string)
    ensures a + (b + c) == (a + b) + c
  {
  }

  /** Where `p` does not start the text, the first character is kept. */
  lemma DeleteAllSkip(s: string, p: string)
    requires p != "" && s != [] && !OccursAt(p, s, 0)
    ensures DeleteAll(s, p) == [s[0]] + DeleteAll(s[1..], p)
  {
    if |s| < |p| {
      assert !IsSubstring(p, s[1..]);
    }
  }

  lemma OccursAtTail(p: string, s: string, i: nat)
    requires s != []
    ensures OccursAt(p, s[1..], i) <==> OccursAt(p, s, i + 1)
  {
    if i + 1 + |p| <= |s| {
      assert s[1..][i..i + |p|] == s[i + 1..i + 1 + |p|];
    }
  }

  // ---------------------------------------------------------------------
  // str.split() and " ".join
  // ---------------------------------------------------------------------

  /** A token produced by `str.split()`: non-empty, without whitespace. */
  predicate IsWord(w: string)
  {
    w != [] && forall i :: 0 <= i < |w| ==> !IsSpace(w[i])
  }

  /** Length of the leading run of non-whitespace characters. */
  function WordLength(s: string): (n: nat)
    ensures n <= |s|
    ensures forall i :: 0 <= i < n ==> !IsSpace(s[i])
    ensures n < |s| ==> IsSpace(s[n])
  {
    if s == [] || IsSpace(s[0]) then 0 else 1 + WordLength(s[1..])
  }

  /** The words one after the other, with nothing between them. */
  function Concat(ws: seq<string>): string
  {
    if ws == [] then "" else ws[0] + Concat(ws[1..])
  }

  /**
   * `s.split()` with no separator: maximal runs of non-whitespace. Put
   * back together, the words are exactly the text without its whitespace.
   */
  function SplitWords(s: string): (ws: seq<string>)
    ensures forall k :: 0 <= k < |ws| ==> IsWord(ws[k])
    ensures Concat(ws) == FilterSeq(s, IsNotSpace)
    decreases |s|
  {
    if s == [] then []
    else if IsSpace(s[0]) then SplitWords(s[1..])
    else
      var n := WordLength(s);
      var rest := SplitWords(s[n..]);
      assert s == s[..n] + s[n..];
      FilterAppend(s[..n], s[n..], IsNotSpace);
      assert FilterSeq(s[..n], IsNotSpace) == s[..n];
      ConsWord(s[..n], rest);
      [s[..n]] + rest
  }

  lemma ConsWord(w: string, rest: seq<string>)
    requires IsWord(w) && forall k :: 0 <= k < |rest| ==> IsWord(rest[k])
    ensures forall k :: 0 <= k < |rest| + 1 ==> IsWord(([w] + rest)[k])
    ensures Concat([w] + rest) == w + Concat(rest)
  {
    var ws := [w] + rest;
    assert ws[0] == w && ws[1..] == rest;
    forall k | 0 <= k < |ws|
      ensures IsWord(ws[k])
    {
      if k > 0 {
        assert ws[k] == rest[k - 1];
      }
    }
  }

  /** A text that is one word splits into just that word. */
  lemma SplitSingleWord(w: string)
    requires IsWord(w)
    ensures SplitWords(w) == [w]
  {
    WordLengthUnique(w, |w|);
    assert w[..|w|] == w && w[|w|..] == [];
  }

  /** The leading run of non-whitespace is determined by where the first whitespace stands. */
  lemma WordLengthUnique(s: string, n: nat)
    requires n <= |s|
    requires forall i :: 0 <= i < n ==> !IsSpace(s[i])
    requires n < |s| ==> IsSpace(s[n])
    ensures WordLength(s) == n
  {
  }

  /**
   * A whitespace character separates words: the words of `a + [c] + b`
   * are the words of `a` followed by the words of `b`. With
   * `SplitSingleWord` and `SplitWords("") == []` this fixes `split()` on
   * every text, whatever runs of whitespace it holds.
   */
  lemma {:induction false} SplitAtSpace(a: string, c: char, b: string)
    requires IsSpace(c)
    ensures SplitWords(a + [c] + b) == SplitWords(a) + SplitWords(b)
    decreases |a|
  {
    var s := a + [c] + b;
    if a == [] {
      assert s == [c] + b;
      assert s[1..] == b;
    } else if IsSpace(a[0]) {
      assert s[0] == a[0];
      assert s[1..] == a[1..] + [c] + b;
      SplitAtSpace(a[1..], c, b);
    } else {
      var m := WordLength(a);
      WordLengthAppend(a, c, b);
      assert s[..m] == a[..m];
      assert s[m..] == a[m..] + [c] + b;
      SplitAtSpace(a[m..], c, b);
      var head, restA, wordsB := a[..m], SplitWords(a[m..]), SplitWords(b);
      SplitWordsHead(s);
      assert SplitWords(s) == [head] + (restA + wordsB);
      SplitWordsHead(a);
      ConsAppendAssoc(head, restA, wordsB);
    }
  }

  lemma ConsAppendAssoc(x: string, u: seq<string>, v: seq<string>)
    ensures [x] + (u + v) == ([x] + u) + v
  {
  }

  /** A text that starts with a word splits into that word and the words after it. */
  lemma SplitWordsHead(s: string)
    requires s != [] && !IsSpace(s[0])
    ensures WordLength(s) > 0
    ensures SplitWords(s) == [s[..WordLength(s)]] + SplitWords(s[WordLength(s)..])
  {
  }

  /** Whitespace after `a` ends its leading word where it would end in `a` alone. */
  lemma WordLengthAppend(a: string, c: char, b: string)
    requires IsSpace(c)
    ensures WordLength(a + [c] + b) == WordLength(a)
  {
    var s, m := a + [c] + b, WordLength(a);
    forall i | 0 <= i < m
      ensures !IsSpace(s[i])
    {
      assert s[i] == a[i];
    }
    if m < |a| {
      assert s[m] == a[m];
    } else {
      assert s[m] == c;
    }
    WordLengthUnique(s, m);
  }

  /** `" ".join(ws)`. */
  function JoinWords(ws: seq<string>): string
  {
    if ws == [] then ""
    else if |ws| == 1 then ws[0]
    else ws[0] + " " + JoinWords(ws[1..])
  }

  /** `" ".join(w for w in s.split() if w)`, the detectors' final step. */
  function CollapseSpaces(s: string): string
  {
    JoinWords(SplitWords(s))
  }

  /**
   * No leading or trailing whitespace, and every whitespace character is a
   * single ' ' between two non-whitespace characters.
   */
  predicate IsCollapsed(r: string)
  {
    forall i :: 0 <= i < |r| && IsSpace(r[i]) ==>
      r[i] == ' ' && 0 < i < |r| - 1 && !IsSpace(r[i - 1]) && !IsSpace(r[i + 1])
  }

  lemma {:induction false} JoinWordsCollapsed(ws: seq<string>)
    requires forall k :: 0 <= k < |ws| ==> IsWord(ws[k])
    ensures IsCollapsed(JoinWords(ws))
    ensures ws != [] ==> JoinWords(ws) != [] && !IsSpace(JoinWords(ws)[0])
  {
    if |ws| > 1 {
      JoinWordsCollapsed(ws[1..]);
      var w, rest := ws[0], JoinWords(ws[1..]);
      var r := w + " " + rest;
      assert IsWord(w);
      forall i | 0 <= i < |r| && IsSpace(r[i])
        ensures r[i] == ' ' && 0 < i < |r| - 1 && !IsSpace(r[i - 1]) && !IsSpace(r[i + 1])
      {
        if i < |w| {
          assert false;
        } else if i == |w| {
          assert r[i + 1] == rest[0];
        } else {
          assert r[i] == rest[i - |w| - 1];
          if i - |w| - 1 > 0 {
            assert r[i - 1] == rest[i - |w| - 2];
          }
          assert r[i + 1] == rest[i - |w|];
        }
      }
    }
  }

  /** The words of a whitespace-collapsed text are the words of the text. */
  lemma CollapseSpacesCollapsed(s: string)
    ensures IsCollapsed(CollapseSpaces(s))
  {
    JoinWordsCollapsed(SplitWords(s));
  }

  lemma WordFollowedBy(w: string, rest: string)
    requires IsWord(w)
    requires rest == [] || IsSpace(rest[0])
    ensures WordLength(w + rest) == |w|
  {
    var s := w + rest;
    forall i | 0 <= i < |w|
      ensures !IsSpace(s[i])
    {
      assert s[i] == w[i];
    }
    if |w| < |s| {
      assert s[|w|] == rest[0];
    }
    WordLengthUnique(s, |w|);
  }

  /** Splitting undoes joining: `" ".join(ws).split() == ws` for split-produced words. */
  lemma {:induction false} SplitJoin(ws: seq<string>)
    requires forall k :: 0 <= k < |ws| ==> IsWord(ws[k])
    ensures SplitWords(JoinWords(ws)) == ws
  {
    if ws == [] {
    } else if |ws| == 1 {
      var w := ws[0];
      WordFollowedBy(w, []);
      assert w + [] == w;
      assert w[|w|..] == [];
    } else {
      var w, rest := ws[0], JoinWords(ws[1..]);
      var s := w + " " + rest;
      assert s == w + (" " + rest);
      WordFollowedBy(w, " " + rest);
      assert s[..|w|] == w;
      assert s[|w|..] == " " + rest;
      assert (" " + rest)[1..] == rest;
      SplitJoin(ws[1..]);
    }
  }

  /** Collapsing whitespace twice is the same as collapsing it once. */
  lemma CollapseSpacesIdempotent(s: string)
    ensures CollapseSpaces(CollapseSpaces(s)) == CollapseSpaces(s)
  {
    SplitJoin(SplitWords(s));
  }

  // ---------------------------------------------------------------------
  // re.sub(r'\b' + re.escape(phrase) + r'\b', token, text)
  // ---------------------------------------------------------------------

  predicate WordAt(t: string, k: int)
  {
    0 <= k < |t| && IsWordChar(t[k])
  }

  /** Position `j` of `t` (between t[j-1] and t[j]) is a `\b` boundary. */
  predicate IsBoundary(t: string, j: int)
  {
    WordAt(t, j - 1) != WordAt(t, j)
  }

  /** The pattern `\bp\b` matches `t` at position `i`. */
  predicate WholeWordAt(t: string, p: string, i: int)
  {
    OccursAt(p, t, i) && IsBoundary(t, i) && IsBoundary(t, i + |p|)
  }

  /**
   * The output of `re.sub` from position `i` on: matches are searched left
   * to right in the original text and never overlap. An empty pattern
   * matches at every boundary, and after an empty match the scan moves on
   * by one character.
   */
  function ReplaceFrom(t: string, p: string, tok: string, i: nat): string
    requires i <= |t|
    decreases |t| - i
  {
    if WholeWordAt(t, p, i) then
      if p == "" then tok + (if i < |t| then [t[i]] + ReplaceFrom(t, p, tok, i + 1) else "")
      else tok + ReplaceFrom(t, p, tok, i + |p|)
    else if i < |t| then [t[i]] + ReplaceFrom(t, p, tok, i + 1)
    else ""
  }

  function ReplaceWholeWord(t: string, p: string, tok: string): string
  {
    ReplaceFrom(t, p, tok, 0)
  }

  lemma {:induction false} ReplaceFromSelf(t: string, p: string, i: nat)
    requires i <= |t|
    ensures ReplaceFrom(t, p, p, i) == t[i..]
    decreases |t| - i
  {
    if WholeWordAt(t, p, i) {
      if p == "" {
        if i < |t| {
          ReplaceFromSelf(t, p, i + 1);
          assert t[i..] == [t[i]] + t[i + 1..];
        }
      } else {
        ReplaceFromSelf(t, p, i + |p|);
        assert t[i..] == t[i..i + |p|] + t[i + |p|..];
      }
    } else if i < |t| {
      ReplaceFromSelf(t, p, i + 1);
      assert t[i..] == [t[i]] + t[i + 1..];
    }
  }

  /** Replacing a phrase by itself leaves the text as it was. */
  lemma ReplaceWholeWordSelf(t: string, p: string)
    ensures ReplaceWholeWord(t, p, p) == t
  {
    ReplaceFromSelf(t, p, 0);
  }

  lemma {:induction false} ReplaceFromNoMatch(t: string, p: string, tok: string, i: nat)
    requires i <= |t|
    requires forall j :: i <= j <= |t| ==> !WholeWordAt(t, p, j)
    ensures ReplaceFrom(t, p, tok, i) == t[i..]
    decreases |t| - i
  {
    if i < |t| {
      ReplaceFromNoMatch(t, p, tok, i + 1);
      assert t[i..] == [t[i]] + t[i + 1..];
    }
  }

  /**
   * From position `i`, the text up to the next whole-word match at `j` is
   * copied, the match is replaced by the token, and the scan resumes right
   * after the match.
   */
  lemma {:induction false} ReplaceFromNextMatch(t: string, p: string, tok: string, i: nat, j: nat)
    requires p != "" && i <= j && WholeWordAt(t, p, j)
    requires forall k :: i <= k < j ==> !WholeWordAt(t, p, k)
    ensures ReplaceFrom(t, p, tok, i) == t[i..j] + tok + ReplaceFrom(t, p, tok, j + |p|)
    decreases j - i
  {
    assert j + |p| <= |t|;
    var after := ReplaceFrom(t, p, tok, j + |p|);
    if i == j {
      assert ReplaceFrom(t, p, tok, i) == tok + after;
      assert t[i..j] == [];
    } else {
      assert !WholeWordAt(t, p, i);
      assert ReplaceFrom(t, p, tok, i) == [t[i]] + ReplaceFrom(t, p, tok, i + 1);
      ReplaceFromNextMatch(t, p, tok, i + 1, j);
      assert t[i..j] == [t[i]] + t[i + 1..j];
      AppendAssoc([t[i]], t[i + 1..j] + tok, after);
      AppendAssoc([t[i]], t[i + 1..j], tok);
    }
  }

  /**
   * The empty phrase: `\b\b` matches at every word boundary, so a text
   * that is one run of word characters gets the token at both ends.
   */
  lemma ReplaceEmptyPhraseAroundWord(w: string, tok: string)
    requires w != [] && forall k :: 0 <= k < |w| ==> IsWordChar(w[k])
    ensures ReplaceWholeWord(w, "", tok) == tok + w + tok
  {
    ReplaceEmptyInsideWord(w, tok, 1);
    assert WholeWordAt(w, "", 0);
    assert w == [w[0]] + w[1..];
  }

  lemma {:induction false} ReplaceEmptyInsideWord(w: string, tok: string, i: nat)
    requires 0 < i <= |w| && forall k :: 0 <= k < |w| ==> IsWordChar(w[k])
    ensures ReplaceFrom(w, "", tok, i) == w[i..] + tok
    decreases |w| - i
  {
    if i == |w| {
      assert WordAt(w, i - 1) && !WordAt(w, i);
      assert WholeWordAt(w, "", i);
      assert ReplaceFrom(w, "", tok, i) == tok;
      assert w[i..] == [];
    } else {
      assert WordAt(w, i - 1) && WordAt(w, i);
      assert !WholeWordAt(w, "", i);
      assert ReplaceFrom(w, "", tok, i) == [w[i]] + ReplaceFrom(w, "", tok, i + 1);
      ReplaceEmptyInsideWord(w, tok, i + 1);
      assert w[i..] == [w[i]] + w[i + 1..];
    }
  }

  /** A phrase that stands as a whole word exactly once is replaced there by its token. */
  lemma ReplaceWholeWordOnce(t: string, p: string, tok: string, j: nat)
    requires p != "" && WholeWordAt(t, p, j)
    requires forall k :: 0 <= k <= |t| && k != j ==> !WholeWordAt(t, p, k)
    ensures ReplaceWholeWord(t, p, tok) == t[..j] + tok + t[j + |p|..]
  {
    ReplaceFromNextMatch(t, p, tok, 0, j);
    ReplaceFromNoMatch(t, p, tok, j + |p|);
  }

  /** Where the phrase never occurs as a whole word, the text is unchanged. */
  lemma ReplaceWholeWordNoMatch(t: string, p: string, tok: string)
    requires forall j :: 0 <= j <= |t| ==> !WholeWordAt(t, p, j)
    ensures ReplaceWholeWord(t, p, tok) == t
  {
    ReplaceFromNoMatch(t, p, tok, 0);
  }
}

/**
 * The string operations the repository's Python code is built from:
 * `startswith`/`endswith`, `in`, `str.replace(pat, "")`, `str.strip()`,
 * `"".join(s.split())`, `s.split(c)[0]`, and the comment-cutting
 * substitution `re.sub(r' +[...].*', "", s)`.
 */
module Text {

  predicate StartsWith(s: string, prefix: string) {
    |prefix| <= |s| && s[..|prefix|] == prefix
  }

  predicate EndsWith(s: string, suffix: string) {
    |suffix| <= |s| && s[|s| - |suffix|..] == suffix
  }

  /** Python's `sub in s`. */
  predicate Contains(s: string, sub: string)
    decreases |s|
  {
    StartsWith(s, sub) || (s != [] && Contains(s[1..], sub))
  }

  /** Python's `str.isspace()` on one character, the separator set of `split()` and `strip()`. */
  predicate IsSpace(c: char) {
    c == ' ' || ('\t' <= c <= '\r') || ('\U{1C}' <= c <= '\U{1F}')
    || c == '\U{85}' || c == '\U{A0}' || c == '\U{1680}'
    || ('\U{2000}' <= c <= '\U{200A}') || c == '\U{2028}' || c == '\U{2029}'
    || c == '\U{202F}' || c == '\U{205F}' || c == '\U{3000}'
  }

  /** `sub in s` fails when no position of `s` starts with `sub`. */
  lemma {:induction false} NotContains(s: string, sub: string)
    requires forall i :: 0 <= i <= |s| ==> !StartsWith(s[i..], sub)
    ensures !Contains(s, sub)
    decreases |s|
  {
    assert s[0..] == s;
    if s != [] {
      forall i | 0 <= i <= |s[1..]|
        ensures !StartsWith(s[1..][i..], sub)
      {
        assert s[1..][i..] == s[i + 1..];
      }
      NotContains(s[1..], sub);
    }
  }

  /** An occurrence at any position makes `sub in s` true. */
  lemma {:induction false} ContainsAtPos(s: string, j: nat, sub: string)
    requires j <= |s| && StartsWith(s[j..], sub)
    ensures Contains(s, sub)
    decreases j
  {
    if j > 0 {
      assert s[1..][j - 1..] == s[j..];
      ContainsAtPos(s[1..], j - 1, sub);
    } else {
      assert s[0..] == s;
    }
  }

  /** `s.replace(pat, "")`: occurrences are removed left to right, without overlap. */
  function DeleteAll(s: string, pat: string): string
    requires pat != []
    decreases |s|
  {
    if s == [] then []
    else if StartsWith(s, pat) then DeleteAll(s[|pat|..], pat)
    else [s[0]] + DeleteAll(s[1..], pat)
  }

  /** A string in which the pattern does not occur is left alone. */
  lemma {:induction false} DeleteAllAbsent(s: string, pat: string)
    requires pat != [] && !Contains(s, pat)
    ensures DeleteAll(s, pat) == s
    decreases |s|
  {
    if s != [] {
      DeleteAllAbsent(s[1..], pat);
    }
  }

  /** Deleting never adds characters. */
  lemma {:induction false} DeleteAllShorter(s: string, pat: string)
    requires pat != []
    ensures |DeleteAll(s, pat)| <= |s|
    ensures Contains(s, pat) ==> |DeleteAll(s, pat)| < |s|
    decreases |s|
  {
    if s != [] {
      if StartsWith(s, pat) {
        DeleteAllShorter(s[|pat|..], pat);
      } else {
        DeleteAllShorter(s[1..], pat);
      }
    }
  }

  /** A prefix that shares no character with the start of the pattern survives the deletion. */
  lemma {:induction false} DeleteAllKeepsPrefix(s: string, prefix: string, pat: string)
    requires pat != [] && StartsWith(s, prefix)
    requires forall i :: 0 <= i < |prefix| ==> prefix[i] != pat[0]
    ensures StartsWith(DeleteAll(s, pat), prefix)
    decreases |prefix|
  {
    if prefix != [] {
      assert s[0] == prefix[0];
      assert !StartsWith(s, pat);
      assert s[1..][..|prefix| - 1] == prefix[1..];
      DeleteAllKeepsPrefix(s[1..], prefix[1..], pat);
    }
  }

  /** Number of leading spaces (`' '` only, as in the regex ` +`). */
  function LeadingSpaces(s: string): (n: nat)
    ensures n <= |s|
    ensures forall i :: 0 <= i < n ==> s[i] == ' '
    ensures n < |s| ==> s[n] != ' '
  {
    if s != [] && s[0] == ' ' then 1 + LeadingSpaces(s[1..]) else 0
  }

  /**
   * Length of the leading run of characters other than `c`: the greedy
   * class `[^c]*`; with `c` a line break, the regex `.*`.
   */
  function RunWithout(s: string, c: char): (n: nat)
    ensures n <= |s|
    ensures forall i :: 0 <= i < n ==> s[i] != c
    ensures n < |s| ==> s[n] == c
  {
    if s != [] && s[0] != c then 1 + RunWithout(s[1..], c) else 0
  }

  /** A prefix free of `c` adds its length to the run. */
  lemma {:induction false} RunWithoutOf(a: string, b: string, c: char)
    requires c !in a
    ensures RunWithout(a + b, c) == |a| + RunWithout(b, c)
  {
    if a != [] {
      assert (a + b)[1..] == a[1..] + b;
      RunWithoutOf(a[1..], b, c);
    } else {
      assert a + b == b;
    }
  }

  /** The regex ` +[marks]` matches at the start of `s`: a run of spaces, then a mark. */
  predicate CommentAt(s: string, marks: set<char>) {
    var k := LeadingSpaces(s);
    0 < k < |s| && s[k] in marks
  }

  /** Length of the match of ` +[marks].*` at the start of `s`. */
  function CommentLength(s: string, marks: set<char>): (n: nat)
    requires CommentAt(s, marks)
    ensures 0 < n <= |s|
  {
    var k := LeadingSpaces(s);
    k + 1 + RunWithout(s[k + 1..], '\n')
  }

  /**
   * `re.sub(r' +[marks].*', "", s)`: scanning left to right, every match is
   * removed; elsewhere characters are copied.
   */
  function CutComments(s: string, marks: set<char>): string
    decreases |s|
  {
    if s == [] then []
    else if CommentAt(s, marks) then CutComments(s[CommentLength(s, marks)..], marks)
    else [s[0]] + CutComments(s[1..], marks)
  }

  /** On a single line a match of ` +[marks].*` runs to the end. */
  lemma CommentTakesLine(s: string, marks: set<char>)
    requires '\n' !in s && CommentAt(s, marks)
    ensures CommentLength(s, marks) == |s|
  {
    var k := LeadingSpaces(s);
    var t := s[k + 1..];
    assert forall j :: 0 <= j < |t| ==> t[j] == s[k + 1 + j];
  }

  /**
   * On a single line the substitution cuts the line at the leftmost match:
   * the result is a prefix, whatever follows it starts a match, and no
   * earlier position does.
   */
  lemma {:induction false} CutCommentsIsCut(s: string, marks: set<char>)
    requires '\n' !in s
    ensures var r := CutComments(s, marks);
      && StartsWith(s, r)
      && (|r| < |s| ==> CommentAt(s[|r|..], marks))
      && (forall i :: 0 <= i < |r| ==> !CommentAt(s[i..], marks))
    decreases |s|
  {
    if s != [] {
      if CommentAt(s, marks) {
        CommentTakesLine(s, marks);
        assert s[CommentLength(s, marks)..] == [];
      } else {
        CutCommentsIsCut(s[1..], marks);
        var r' := CutComments(s[1..], marks);
        var r := CutComments(s, marks);
        assert r == [s[0]] + r';
        forall i | 0 <= i < |r|
          ensures !CommentAt(s[i..], marks)
        {
          if i > 0 {
            assert s[i..] == s[1..][i - 1..];
          }
        }
        if |r| < |s| {
          assert s[|r|..] == s[1..][|r'|..];
        }
      }
    }
  }

  /** Positions where no match starts are copied: the first `n` characters survive the substitution. */
  lemma {:induction false} CutCommentsKeepsPrefix(s: string, n: nat, marks: set<char>)
    requires n <= |s|
    requires forall i :: 0 <= i < n ==> !CommentAt(s[i..], marks)
    ensures CutComments(s, marks) == s[..n] + CutComments(s[n..], marks)
    decreases n
  {
    if n > 0 {
      assert !CommentAt(s, marks) by {
        assert s[0..] == s;
      }
      var tail := s[1..];
      forall i | 0 <= i < n - 1
        ensures !CommentAt(tail[i..], marks)
      {
        assert tail[i..] == s[i + 1..];
      }
      CutCommentsKeepsPrefix(tail, n - 1, marks);
      KeepOneMore(s, n, marks);
    }
  }

  /** One copied character in front of a copied prefix. */
  lemma KeepOneMore(s: string, n: nat, marks: set<char>)
    requires 0 < n <= |s| && !CommentAt(s, marks)
    requires CutComments(s[1..], marks) == s[1..][..n - 1] + CutComments(s[1..][n - 1..], marks)
    ensures CutComments(s, marks) == s[..n] + CutComments(s[n..], marks)
  {
    var tail := s[1..];
    CopiesFirst(s, marks);
    FrontSlices(s, n);
    ConcatAssociative([s[0]], tail[..n - 1], CutComments(s[n..], marks));
  }

  /** Where no match starts, the substitution copies the first character. */
  lemma CopiesFirst(s: string, marks: set<char>)
    requires s != [] && !CommentAt(s, marks)
    ensures CutComments(s, marks) == [s[0]] + CutComments(s[1..], marks)
  {
  }

  lemma FrontSlices(s: string, n: nat)
    requires 0 < n <= |s|
    ensures s[1..][n - 1..] == s[n..] && s[..n] == [s[0]] + s[1..][..n - 1]
  {
  }

  lemma ConcatAssociative(a: string, b: string, c: string)
    ensures a + (b + c) == (a + b) + c
  {
  }

  /** Python's `s.strip()`: leading and trailing whitespace removed. */
  function Strip(s: string): (r: string)
    ensures r != [] ==> !IsSpace(r[0]) && !IsSpace(r[|r| - 1])
    ensures |r| <= |s|
    decreases |s|
  {
    if s == [] then []
    else if IsSpace(s[0]) then Strip(s[1..])
    else if IsSpace(s[|s| - 1]) then Strip(s[..|s| - 1])
    else s
  }

  /** `"".join(s.split())`: every whitespace character removed. */
  function RemoveWhitespace(s: string): (r: string)
    ensures forall i :: 0 <= i < |r| ==> !IsSpace(r[i])
    ensures |r| <= |s|
  {
    if s == [] then []
    else if IsSpace(s[0]) then RemoveWhitespace(s[1..])
    else [s[0]] + RemoveWhitespace(s[1..])
  }

  /** Removing whitespace from a concatenation removes it from each part. */
  lemma {:induction false} RemoveWhitespaceConcat(a: string, b: string)
    ensures RemoveWhitespace(a + b) == RemoveWhitespace(a) + RemoveWhitespace(b)
  {
    if a != [] {
      assert (a + b)[1..] == a[1..] + b;
      RemoveWhitespaceConcat(a[1..], b);
    } else {
      assert a + b == b;
    }
  }

  /** A string without whitespace is left alone. */
  lemma {:induction false} RemoveWhitespaceNone(s: string)
    requires forall i :: 0 <= i < |s| ==> !IsSpace(s[i])
    ensures RemoveWhitespace(s) == s
  {
    if s != [] {
      RemoveWhitespaceNone(s[1..]);
    }
  }

  /** `s.split(c)[0]`: the text before the first `c` (all of `s` when there is none). */
  function Before(s: string, c: char): (r: string)
    ensures StartsWith(s, r)
    ensures c !in r
    ensures |r| < |s| ==> s[|r|] == c
  {
    if s == [] || s[0] == c then [] else [s[0]] + Before(s[1..], c)
  }
}

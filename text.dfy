/**
 * The string operations of Rust's standard library that the log parser and the
 * line filter rely on: `char::is_whitespace`, `str::trim`, `str::split_whitespace`,
 * `str::split(char)`, `str::starts_with`, `str::contains`, a case fold and
 * `u32::from_str`.  Strings are sequences of Unicode scalar values.  The
 * module also holds the `U32` width with its wrapping `+= 1` (`WrappingInc`),
 * and small sequence lemmas the other modules use (`Snoc`, `ExtendPrefix`,
 * `PrefixTake`).
 */
module Text {
  import opened Wrappers

  /** Unsigned 32-bit integers, the width of the step-table fields and counters. */
  type U32 = x: int | 0 <= x < 0x1_0000_0000

  const U32Modulus: int := 0x1_0000_0000

  /** A non-empty sequence is its front followed by its last element. */
  lemma Snoc<T>(s: seq<T>)
    requires s != []
    ensures s[..|s| - 1] + [s[|s| - 1]] == s
  {
  }

  /** Extending a prefix by the next element gives the next prefix. */
  lemma ExtendPrefix<T>(a: seq<T>, s: seq<T>, k: nat)
    requires k < |s|
    ensures (a + s[..k]) + [s[k]] == a + s[..k + 1]
  {
    assert s[..k] + [s[k]] == s[..k + 1];
  }

  /** The first `n` elements of a prefix of `whole` are the first `n` elements of `whole`. */
  lemma PrefixTake<T>(whole: seq<T>, part: seq<T>, n: nat)
    requires |part| <= |whole| && whole[..|part|] == part && n <= |part|
    ensures whole[..n] == part[..n]
  {
    assert whole[..n] == whole[..|part|][..n];
  }

  /** `x += 1` on a `u32` in a release build: wraps to 0 past the maximum. */
  function WrappingInc(x: U32): (r: U32)
    ensures r == (x + 1) % U32Modulus
  {
    if x == U32Modulus - 1 then 0 else x + 1
  }

  /** The Unicode White_Space property, which `char::is_whitespace` tests. */
  predicate IsWhitespace(c: char) {
    ('\t' <= c <= '\r') || c == ' ' || c == '\U{85}' || c == '\U{A0}' || c == '\U{1680}'
    || ('\U{2000}' <= c <= '\U{200A}') || c == '\U{2028}' || c == '\U{2029}'
    || c == '\U{202F}' || c == '\U{205F}' || c == '\U{3000}'
  }

  predicate NoWhitespace(s: string) {
    forall k :: 0 <= k < |s| ==> !IsWhitespace(s[k])
  }

  predicate AllWhitespace(s: string) {
    forall k :: 0 <= k < |s| ==> IsWhitespace(s[k])
  }

  predicate StartsWith(s: string, prefix: string) {
    |prefix| <= |s| && s[..|prefix|] == prefix
  }

  /** Two prefixes that differ at some position cannot both start the same string. */
  lemma PrefixesExclusive(s: string, p: string, q: string, k: nat)
    requires StartsWith(s, p) && k < |p| && k < |q| && p[k] != q[k]
    ensures !StartsWith(s, q)
  {
    assert s[..|p|][k] == s[k];
    assert |q| <= |s| ==> s[..|q|][k] == s[k];
  }

  /** A string does not start with a prefix whose first character differs from its own. */
  lemma HeadExcludes(s: string, q: string)
    requires s != [] && q != [] && s[0] != q[0]
    ensures !StartsWith(s, q)
  {
    assert |q| <= |s| ==> s[..|q|][0] == s[0];
  }

  /** `str::contains` with a string pattern. */
  predicate Contains(s: string, pattern: string)
    decreases |s|
  {
    StartsWith(s, pattern) || (s != [] && Contains(s[1..], pattern))
  }

  /** `pattern` occurs in `s` starting at offset `i`. */
  predicate OccursAt(s: string, pattern: string, i: nat) {
    i + |pattern| <= |s| && s[i..i + |pattern|] == pattern
  }

  /** `s` contains `pattern` exactly when the pattern occurs in `s` at some offset. */
  lemma {:induction false} ContainsOccurrence(s: string, pattern: string)
    ensures Contains(s, pattern) <==> exists i: nat :: OccursAt(s, pattern, i)
    decreases |s|
  {
    if StartsWith(s, pattern) {
      assert OccursAt(s, pattern, 0);
    } else if s == [] {
      forall i: nat
        ensures !OccursAt(s, pattern, i)
      {
      }
    } else {
      var t := s[1..];
      ContainsOccurrence(t, pattern);
      if Contains(t, pattern) {
        var i: nat :| OccursAt(t, pattern, i);
        assert s[i + 1..i + 1 + |pattern|] == t[i..i + |pattern|];
        assert OccursAt(s, pattern, i + 1);
      } else {
        forall i: nat
          ensures !OccursAt(s, pattern, i)
        {
          if i == 0 && |pattern| <= |s| {
            assert s[..|pattern|] == s[0..|pattern|];
          } else if i > 0 && i + |pattern| <= |s| {
            assert t[i - 1..i - 1 + |pattern|] == s[i..i + |pattern|];
            assert !OccursAt(t, pattern, i - 1);
          }
        }
      }
    }
  }

  /** Length of the longest prefix of `s` made of whitespace. */
  function LeadingSpace(s: string): (n: nat)
    ensures n <= |s|
    ensures AllWhitespace(s[..n])
    ensures n < |s| ==> !IsWhitespace(s[n])
  {
    if s == [] || !IsWhitespace(s[0]) then 0
    else
      var m := LeadingSpace(s[1..]);
      assert s[..m + 1] == [s[0]] + s[1..][..m];
      m + 1
  }

  /** Length of the longest suffix of `s` made of whitespace. */
  function TrailingSpace(s: string): (n: nat)
    ensures n <= |s|
    ensures AllWhitespace(s[|s| - n..])
    ensures n < |s| ==> !IsWhitespace(s[|s| - n - 1])
  {
    if s == [] || !IsWhitespace(s[|s| - 1]) then 0
    else
      var front := s[..|s| - 1];
      var m := TrailingSpace(front);
      assert s[|s| - (m + 1)..] == front[|front| - m..] + [s[|s| - 1]];
      m + 1
  }

  /** `str::trim_start`: drops the leading whitespace and nothing else. */
  function TrimStart(s: string): (r: string)
    ensures |r| <= |s| && r == s[|s| - |r|..]
    ensures AllWhitespace(s[..|s| - |r|])
    ensures r != [] ==> !IsWhitespace(r[0])
  {
    s[LeadingSpace(s)..]
  }

  /** `str::trim_end`: drops the trailing whitespace and nothing else. */
  function TrimEnd(s: string): (r: string)
    ensures |r| <= |s| && r == s[..|r|]
    ensures AllWhitespace(s[|r|..])
    ensures r != [] ==> !IsWhitespace(r[|r| - 1])
  {
    s[..|s| - TrailingSpace(s)]
  }

  /**
   * `str::trim`: the string without its leading and trailing whitespace.  The
   * result is the part of `s` that follows exactly its leading whitespace and
   * is followed only by whitespace.
   */
  function Trim(s: string): (r: string)
    ensures |r| <= |s|
    ensures r != [] ==> !IsWhitespace(r[0]) && !IsWhitespace(r[|r| - 1])
    ensures r == [] <==> AllWhitespace(s)
    ensures LeadingSpace(s) + |r| <= |s| && r == s[LeadingSpace(s)..LeadingSpace(s) + |r|]
    ensures AllWhitespace(s[LeadingSpace(s) + |r|..])
  {
    var t := TrimStart(s);
    assert t == [] ==> s[..|s|] == s;
    var r := TrimEnd(t);
    assert s[LeadingSpace(s) + |r|..] == t[|r|..];
    r
  }

  /** Whitespace around a word that starts and ends with non-whitespace is trimmed away, and only that. */
  lemma TrimAround(before: string, word: string, after: string)
    requires AllWhitespace(before) && AllWhitespace(after)
    requires word != [] && !IsWhitespace(word[0]) && !IsWhitespace(word[|word| - 1])
    ensures Trim(before + word + after) == word
  {
    var s := before + word + after;
    assert s == before + (word + after);
    LeadingSpaceOf(before, word + after);
    assert TrimStart(s) == word + after;
    TrailingSpaceOf(word, after);
    assert (word + after)[..|word|] == word;
  }

  /** The leading whitespace of a string that is whitespace followed by a non-whitespace start. */
  lemma LeadingSpaceOf(space: string, t: string)
    requires AllWhitespace(space) && (t == [] || !IsWhitespace(t[0]))
    ensures LeadingSpace(space + t) == |space|
  {
    var s := space + t;
    assert forall k :: 0 <= k < |space| ==> s[k] == space[k];
    assert t != [] ==> s[|space|] == t[0];
    assert forall k :: 0 <= k < LeadingSpace(s) ==> IsWhitespace(s[k]) by {
      forall k | 0 <= k < LeadingSpace(s)
        ensures IsWhitespace(s[k])
      {
        assert s[..LeadingSpace(s)][k] == s[k];
      }
    }
  }

  /** The trailing whitespace of a string that is a non-whitespace end followed by whitespace. */
  lemma {:induction false} TrailingSpaceOf(t: string, space: string)
    requires AllWhitespace(space) && (t == [] || !IsWhitespace(t[|t| - 1]))
    ensures TrailingSpace(t + space) == |space|
    decreases |space|
  {
    if space == [] {
      assert t + space == t;
    } else {
      var front := space[..|space| - 1];
      assert (t + space)[..|t + space| - 1] == t + front;
      TrailingSpaceOf(t, front);
    }
  }

  /** The first token of a string that is a token followed by nothing or by whitespace. */
  lemma TokenLengthOf(word: string, t: string)
    requires NoWhitespace(word) && (t == [] || IsWhitespace(t[0]))
    ensures TokenLength(word + t) == |word|
  {
    var s := word + t;
    assert forall k :: 0 <= k < |word| ==> s[k] == word[k];
    assert t != [] ==> s[|word|] == t[0];
    assert forall k :: 0 <= k < TokenLength(s) ==> !IsWhitespace(s[k]) by {
      forall k | 0 <= k < TokenLength(s)
        ensures !IsWhitespace(s[k])
      {
        assert s[..TokenLength(s)][k] == s[k];
      }
    }
  }

  /** Length of the longest prefix of `s` without whitespace. */
  function TokenLength(s: string): (n: nat)
    ensures n <= |s|
    ensures NoWhitespace(s[..n])
    ensures n < |s| ==> IsWhitespace(s[n])
  {
    if s == [] || IsWhitespace(s[0]) then 0
    else
      var m := TokenLength(s[1..]);
      assert s[..m + 1] == [s[0]] + s[1..][..m];
      m + 1
  }

  /** `str::split_whitespace`: the maximal runs of non-whitespace characters, in order. */
  function SplitWhitespace(s: string): (r: seq<string>)
    ensures forall k :: 0 <= k < |r| ==> r[k] != [] && NoWhitespace(r[k])
    decreases |s|
  {
    var t := TrimStart(s);
    if t == [] then []
    else
      var n := TokenLength(t);
      assert n != 0 by { assert !IsWhitespace(t[0]); }
      var word, rest := t[..n], SplitWhitespace(t[n..]);
      [word] + rest
  }

  /** The gaps around and between the words, in order: `gaps[0] + words[0] + gaps[1] + ... + gaps[|words|]`. */
  function Interleave(gaps: seq<string>, words: seq<string>): string
    requires |gaps| == |words| + 1
    decreases |words|
  {
    if words == [] then gaps[0] else gaps[0] + words[0] + Interleave(gaps[1..], words[1..])
  }

  /** A split of `s` into whitespace gaps and whitespace-free words, with a gap between any two words. */
  predicate WordsAndGaps(s: string, gaps: seq<string>, words: seq<string>) {
    && |gaps| == |words| + 1
    && (forall k :: 0 <= k < |words| ==> words[k] != [] && NoWhitespace(words[k]))
    && (forall k :: 0 <= k < |gaps| ==> AllWhitespace(gaps[k]))
    && (forall k :: 0 < k < |words| ==> gaps[k] != [])
    && Interleave(gaps, words) == s
  }

  /** The whitespace runs of `s` before, between and after its tokens. */
  function WhitespaceGaps(s: string): (gaps: seq<string>)
    ensures |gaps| == |SplitWhitespace(s)| + 1
    ensures gaps[0] == s[..LeadingSpace(s)]
    decreases |s|
  {
    var n := LeadingSpace(s);
    var t := s[n..];
    if t == [] then
      assert s[..n] == s;
      [s]
    else
      var m := TokenLength(t);
      assert m != 0 by { assert !IsWhitespace(t[0]); }
      [s[..n]] + WhitespaceGaps(t[m..])
  }

  /** A gap and a word put in front of a split of `rest` give a split of the whole. */
  lemma WordsAndGapsCons(rest: string, gaps: seq<string>, words: seq<string>, gap: string, word: string)
    requires WordsAndGaps(rest, gaps, words)
    requires AllWhitespace(gap) && word != [] && NoWhitespace(word)
    requires words != [] ==> gaps[0] != []
    ensures WordsAndGaps(gap + word + rest, [gap] + gaps, [word] + words)
  {
    var gaps', words' := [gap] + gaps, [word] + words;
    assert gaps'[1..] == gaps && words'[1..] == words;
    assert forall k :: 0 < k < |words'| ==> gaps'[k] == gaps[k - 1];
  }

  /** A split with a first word is that gap and word in front of a split of the rest. */
  lemma WordsAndGapsUncons(s: string, gaps: seq<string>, words: seq<string>)
    requires WordsAndGaps(s, gaps, words) && words != []
    ensures var rest := Interleave(gaps[1..], words[1..]);
      && s == gaps[0] + (words[0] + rest)
      && WordsAndGaps(rest, gaps[1..], words[1..])
      && (rest == [] || IsWhitespace(rest[0]))
  {
    var rest := Interleave(gaps[1..], words[1..]);
    assert forall k :: 0 < k < |words| - 1 ==> gaps[1..][k] == gaps[k + 1];
    if |words| > 1 {
      assert rest == gaps[1] + (words[1] + Interleave(gaps[2..], words[2..]));
      assert rest[0] == gaps[1][0];
    } else {
      assert rest == gaps[1];
    }
  }

  /** `split_whitespace` takes the first token off a string that has one, and its gaps the leading whitespace. */
  lemma SplitWhitespaceStep(s: string)
    requires TrimStart(s) != []
    ensures var n := LeadingSpace(s); var t := s[n..]; var m := TokenLength(t);
      && 0 < m && s == s[..n] + t[..m] + t[m..]
      && NoWhitespace(t[..m]) && (t[m..] == [] || IsWhitespace(t[m..][0]))
      && SplitWhitespace(s) == [t[..m]] + SplitWhitespace(t[m..])
      && WhitespaceGaps(s) == [s[..n]] + WhitespaceGaps(t[m..])
  {
    var n := LeadingSpace(s);
    var t := s[n..];
    assert t == TrimStart(s);
    assert !IsWhitespace(t[0]);
    var m := TokenLength(t);
    assert SplitWhitespace(s) == [t[..m]] + SplitWhitespace(t[m..]);
    assert WhitespaceGaps(s) == [s[..n]] + WhitespaceGaps(t[m..]);
    assert m < |t| ==> t[m..][0] == t[m];
    TakeDrop(t, m);
    TakeDrop(s, n);
    AppendAssociates(s[..n], t[..m], t[m..]);
  }

  lemma TakeDrop<T>(s: seq<T>, n: nat)
    requires n <= |s|
    ensures s[..n] + s[n..] == s
  {
  }

  lemma AppendAssociates<T>(a: seq<T>, b: seq<T>, c: seq<T>)
    ensures a + b + c == a + (b + c)
  {
  }

  /** Whitespace, a token and then nothing or whitespace: the token comes first. */
  lemma SplitWhitespaceFirst(gap: string, word: string, rest: string)
    requires AllWhitespace(gap) && word != [] && NoWhitespace(word)
    requires rest == [] || IsWhitespace(rest[0])
    ensures SplitWhitespace(gap + (word + rest)) == [word] + SplitWhitespace(rest)
  {
    var s := gap + (word + rest);
    LeadingSpaceOf(gap, word + rest);
    assert s[|gap|..] == word + rest;
    TokenLengthOf(word, rest);
    assert (word + rest)[..|word|] == word;
    assert (word + rest)[|word|..] == rest;
  }

  /**
   * The tokens of `split_whitespace` are the maximal runs of non-whitespace
   * characters of `s`, in order: `s` is those tokens with whitespace gaps
   * around them and a non-empty gap between any two of them.
   */
  lemma {:induction false} SplitWhitespaceRuns(s: string)
    ensures WordsAndGaps(s, WhitespaceGaps(s), SplitWhitespace(s))
    decreases |s|
  {
    if TrimStart(s) == [] {
      assert s[..LeadingSpace(s)] == s;
    } else {
      SplitWhitespaceStep(s);
      var n := LeadingSpace(s);
      var t := s[n..];
      var m := TokenLength(t);
      var rest := t[m..];
      SplitWhitespaceRuns(rest);
      if SplitWhitespace(rest) != [] {
        assert WhitespaceGaps(rest)[0] == rest[..LeadingSpace(rest)];
        assert LeadingSpace(rest) >= 1;
      }
      WordsAndGapsCons(rest, WhitespaceGaps(rest), SplitWhitespace(rest), s[..n], t[..m]);
    }
  }

  /**
   * Conversely, any split of `s` into whitespace gaps and whitespace-free
   * words with a gap between any two words has the tokens of `split_whitespace`
   * as its words.
   */
  lemma {:induction false} SplitWhitespaceUnique(s: string, gaps: seq<string>, words: seq<string>)
    requires WordsAndGaps(s, gaps, words)
    ensures SplitWhitespace(s) == words
    decreases |words|
  {
    if words == [] {
      LeadingSpaceOf(s, []);
      assert s + [] == s;
    } else {
      WordsAndGapsUncons(s, gaps, words);
      var rest := Interleave(gaps[1..], words[1..]);
      SplitWhitespaceFirst(gaps[0], words[0], rest);
      SplitWhitespaceUnique(rest, gaps[1..], words[1..]);
      assert words == [words[0]] + words[1..];
    }
  }

  /** The pieces joined back with the separator between them. */
  function Join(pieces: seq<string>, sep: char): string
    requires pieces != []
  {
    if |pieces| == 1 then pieces[0] else pieces[0] + [sep] + Join(pieces[1..], sep)
  }

  /** `str::split(char)`: the pieces between occurrences of `sep`, empty pieces included. */
  function Split(s: string, sep: char): (r: seq<string>)
    ensures |r| >= 1
    ensures forall k :: 0 <= k < |r| ==> sep !in r[k]
    ensures Join(r, sep) == s
    decreases |s|
  {
    if s == [] then [[]]
    else if s[0] == sep then
      var rest := Split(s[1..], sep);
      assert s == [] + [sep] + s[1..];
      [[]] + rest
    else
      var rest := Split(s[1..], sep);
      var r := [[s[0]] + rest[0]] + rest[1..];
      assert Join(r, sep) == s by {
        if |rest| == 1 {
        } else {
          assert Join(rest, sep) == rest[0] + [sep] + Join(rest[1..], sep);
          assert r[1..] == rest[1..];
        }
      }
      r
  }

  /** Splitting the separator-free pieces joined by the separator gives the pieces back. */
  lemma {:induction false} SplitJoin(pieces: seq<string>, sep: char)
    requires pieces != [] && forall k :: 0 <= k < |pieces| ==> sep !in pieces[k]
    ensures Split(Join(pieces, sep), sep) == pieces
  {
    if |pieces| == 1 {
      SplitWithout(pieces[0], sep);
    } else {
      SplitJoin(pieces[1..], sep);
      SplitAfterPiece(pieces[0], Join(pieces[1..], sep), sep);
      assert Join(pieces, sep) == pieces[0] + ([sep] + Join(pieces[1..], sep));
      assert pieces == [pieces[0]] + pieces[1..];
    }
  }

  lemma {:induction false} SplitWithout(s: string, sep: char)
    requires sep !in s
    ensures Split(s, sep) == [s]
    decreases |s|
  {
    if s != [] {
      SplitWithout(s[1..], sep);
      assert [s[0]] + s[1..] == s;
    }
  }

  lemma {:induction false} SplitAfterPiece(p: string, rest: string, sep: char)
    requires sep !in p
    ensures Split(p + ([sep] + rest), sep) == [p] + Split(rest, sep)
    decreases |p|
  {
    var s := p + ([sep] + rest);
    if p == [] {
      assert s == [sep] + rest;
      assert s[1..] == rest;
    } else {
      assert s[1..] == p[1..] + ([sep] + rest);
      SplitAfterPiece(p[1..], rest, sep);
      assert [p[0]] + p[1..] == p;
    }
  }

  /** A join starts with its first piece, followed by the separator when more pieces follow. */
  lemma JoinHead(pieces: seq<string>, sep: char)
    requires pieces != []
    ensures StartsWith(Join(pieces, sep), pieces[0])
    ensures |pieces| == 1 <==> |Join(pieces, sep)| == |pieces[0]|
    ensures |pieces| > 1 ==> Join(pieces, sep)[|pieces[0]|] == sep
  {
    if |pieces| > 1 {
      assert Join(pieces, sep) == pieces[0] + ([sep] + Join(pieces[1..], sep));
    }
  }

  /**
   * The text after the first `sep` and before the second one, as
   * `split(sep).nth(1)`: present exactly when `sep` occurs, and then the
   * second piece of the split, which starts right after the first `sep` and
   * runs up to the next `sep` or the end.
   */
  function SecondField(s: string, sep: char): (r: Option<string>)
    ensures r.Some? <==> sep in s
    ensures r.Some? ==> sep !in r.value && r.value == Split(s, sep)[1]
    ensures r.Some? ==> exists i {:trigger s[..i]} :: (0 <= i < |s| && s[i] == sep && sep !in s[..i] &&
      StartsWith(s[i + 1..], r.value) && (i + 1 + |r.value| == |s| || s[i + 1 + |r.value|] == sep))
  {
    var pieces := Split(s, sep);
    if |pieces| >= 2 then
      var tail := Join(pieces[1..], sep);
      assert s == pieces[0] + [sep] + tail;
      assert s[|pieces[0]|] == sep && s[..|pieces[0]|] == pieces[0] && s[|pieces[0]| + 1..] == tail;
      JoinHead(pieces[1..], sep);
      assert sep !in pieces[0];
      assert StartsWith(s[|pieces[0]| + 1..], pieces[1]);
      assert |pieces[0]| + 1 + |pieces[1]| == |s| || s[|pieces[0]| + 1 + |pieces[1]|] == sep;
      Some(pieces[1])
    else None
  }

  /** ASCII upper-case letters to lower case; every other character unchanged. */
  function LowerChar(c: char): char {
    if 'A' <= c <= 'Z' then (c as int + 32) as char else c
  }

  /** An ASCII case fold standing for `str::to_lowercase`. */
  function Lowercase(s: string): (r: string)
    ensures |r| == |s|
  {
    seq(|s|, k requires 0 <= k < |s| => LowerChar(s[k]))
  }

  predicate IsDigit(c: char) {
    '0' <= c <= '9'
  }

  predicate AllDigits(s: string) {
    forall k :: 0 <= k < |s| ==> IsDigit(s[k])
  }

  /** The value of a string of decimal digits, most significant first. */
  function DigitsValue(ds: string): nat
    requires AllDigits(ds)
  {
    if ds == [] then 0 else 10 * DigitsValue(ds[..|ds| - 1]) + (ds[|ds| - 1] as int - '0' as int)
  }

  /**
   * `u32::from_str`: an optional leading `+` followed by at least one decimal digit,
   * with a value that fits in 32 bits, read as that value.  Anything else,
   * surrounding whitespace included, fails.
   */
  function ParseU32(s: string): (r: Option<U32>)
    ensures r.Some? ==> s != [] && s != "+" && NoWhitespace(s)
    ensures r.Some? ==> forall k :: 0 <= k < |s| ==> IsDigit(s[k]) || (k == 0 && s[k] == '+')
    ensures r.Some? ==> r.value == DigitsValue(if s[0] == '+' then s[1..] else s)
  {
    var digits := if s != [] && s[0] == '+' then s[1..] else s;
    if digits != [] && AllDigits(digits) && DigitsValue(digits) < U32Modulus then
      assert forall k :: 0 < k < |s| && s[0] == '+' ==> s[k] == digits[k - 1];
      Some(DigitsValue(digits))
    else None
  }

  /** The decimal representation of `n`, without sign or leading zeros. */
  function Decimal(n: nat): (r: string)
    ensures r != [] && AllDigits(r)
    ensures DigitsValue(r) == n
  {
    var d := [('0' as int + n % 10) as char];
    if n < 10 then d
    else
      var r := Decimal(n / 10) + d;
      assert r[..|r| - 1] == Decimal(n / 10);
      r
  }

  /** `u32::from_str` reads back the decimal representation of every 32-bit value. */
  lemma ParseDecimal(n: U32)
    ensures ParseU32(Decimal(n)) == Some(n)
  {
    var s := Decimal(n);
    assert s[0] != '+' by { assert IsDigit(s[0]); }
  }

  function Pow10(k: nat): nat {
    if k == 0 then 1 else 10 * Pow10(k - 1)
  }

  /** `k` zero digits. */
  function Zeros(k: nat): (r: string)
    ensures |r| == k && AllDigits(r) && DigitsValue(r) == 0
  {
    if k == 0 then []
    else
      var r := Zeros(k - 1) + ['0'];
      assert r[..|r| - 1] == Zeros(k - 1);
      r
  }

  lemma MultiplyByTen(x: nat, p: nat)
    ensures 10 * (x * p) == x * (10 * p)
  {
  }

  /** The value of digits written one after another. */
  lemma {:induction false} DigitsValueAppend(a: string, b: string)
    requires AllDigits(a) && AllDigits(b)
    ensures AllDigits(a + b) && DigitsValue(a + b) == DigitsValue(a) * Pow10(|b|) + DigitsValue(b)
    decreases |b|
  {
    if b == [] {
      assert a + b == a;
    } else {
      var front := b[..|b| - 1];
      assert (a + b)[..|a + b| - 1] == a + front;
      DigitsValueAppend(a, front);
      var x, p := DigitsValue(a), Pow10(|front|);
      assert 10 * (x * p) == x * (10 * p) by {
        MultiplyByTen(x, p);
      }
      assert DigitsValue(b) == 10 * DigitsValue(front) + (b[|b| - 1] as int - '0' as int) by {
        assert b[..|b| - 1] == front;
      }
    }
  }

  /** A non-empty string of digits, with or without a `+` in front, reads as its value when that fits. */
  lemma ParseDigits(digits: string)
    requires digits != [] && AllDigits(digits)
    ensures ParseU32(digits) == ParseU32("+" + digits)
    ensures ParseU32(digits) == if DigitsValue(digits) < U32Modulus then Some(DigitsValue(digits)) else None
  {
    assert IsDigit(digits[0]);
    assert ("+" + digits)[1..] == digits;
  }

  /**
   * Every numeral `u32::from_str` can be given: no sign or a `+`, any number of
   * leading zeros and the digits of `n`.  It reads `n` when `n` fits in 32 bits
   * and fails otherwise.
   */
  lemma ParseNumeral(sign: string, zeros: nat, n: nat)
    requires sign == "" || sign == "+"
    ensures ParseU32(sign + Zeros(zeros) + Decimal(n)) == if n < U32Modulus then Some(n) else None
  {
    var digits := Zeros(zeros) + Decimal(n);
    PaddedDecimal(zeros, n);
    ParseDigits(digits);
    AppendAssociates(sign, Zeros(zeros), Decimal(n));
    if sign == "" {
      assert sign + digits == digits;
    }
  }

  /** Leading zeros do not change the value of a numeral. */
  lemma PaddedDecimal(zeros: nat, n: nat)
    ensures var digits := Zeros(zeros) + Decimal(n);
      digits != [] && AllDigits(digits) && DigitsValue(digits) == n
  {
    DigitsValueAppend(Zeros(zeros), Decimal(n));
  }

}

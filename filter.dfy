/**
 * The transcript filter of the Solver Output tab (src/app.rs:302-331).  The
 * query is read as a disjunction of conjunctions: `|` separates the OR
 * clauses, `&` the AND terms of a clause; every term is trimmed and case
 * folded and empty terms and clauses are dropped.  A line is shown when, case
 * folded, it contains every term of some clause.  An empty query shows every
 * line.
 */
module LineFilter {
  import opened Text

  /** A term as it is compared: trimmed, then case folded; empty exactly when it was blank. */
  function Normalize(s: string): (r: string)
    ensures |r| <= |s|
    ensures r == [] <==> AllWhitespace(s)
  {
    Lowercase(Trim(s))
  }

  /** The images under `f` that are not empty, in order: `.map(f).filter(|x| !x.is_empty())`. */
  function NonEmptyImages<T, U>(f: T -> seq<U>, xs: seq<T>): (r: seq<seq<U>>)
    ensures forall j :: 0 <= j < |r| ==> r[j] != []
    decreases |xs|
  {
    if xs == [] then []
    else
      var last := f(xs[|xs| - 1]);
      NonEmptyImages(f, xs[..|xs| - 1]) + (if last == [] then [] else [last])
  }

  /**
   * The positions whose images `NonEmptyImages` keeps: strictly increasing,
   * each the position of the kept image, and holding exactly the positions of
   * the non-empty images.
   */
  function ImagePositions<T, U>(f: T -> seq<U>, xs: seq<T>): (idx: seq<nat>)
    ensures |idx| == |NonEmptyImages(f, xs)|
    ensures forall j :: 0 <= j < |idx| ==> idx[j] < |xs| && NonEmptyImages(f, xs)[j] == f(xs[idx[j]])
    ensures forall j, j' :: 0 <= j < j' < |idx| ==> idx[j] < idx[j']
    ensures forall k :: 0 <= k < |xs| ==> (k in idx <==> f(xs[k]) != [])
    decreases |xs|
  {
    if xs == [] then []
    else
      var n := |xs| - 1;
      var front := xs[..n];
      var earlier := ImagePositions(f, front);
      assert forall k :: 0 <= k < n ==> front[k] == xs[k];
      earlier + (if f(xs[n]) == [] then [] else [n])
  }

  /** The non-empty normalised `&`-pieces of an OR part, in order. */
  function TermsOf(pieces: seq<string>): (r: seq<string>)
    ensures forall j :: 0 <= j < |r| ==> r[j] != []
  {
    NonEmptyImages(Normalize, pieces)
  }

  /** The AND terms of one OR part. */
  function PartTerms(part: string): seq<string> {
    TermsOf(Split(part, '&'))
  }

  /** The clauses of the OR parts that have terms, in order. */
  function ClausesOf(parts: seq<string>): (r: seq<seq<string>>)
    ensures forall i :: 0 <= i < |r| ==> r[i] != [] && forall j :: 0 <= j < |r[i]| ==> r[i][j] != []
  {
    var r := NonEmptyImages(PartTerms, parts);
    var idx := ImagePositions(PartTerms, parts);
    assert forall i :: 0 <= i < |r| ==> r[i] == TermsOf(Split(parts[idx[i]], '&'));
    r
  }

  /**
   * The AND terms of an OR part are its `&`-pieces, trimmed and case folded,
   * in order, with the blank ones dropped: they are the normalised pieces at
   * strictly increasing positions, and those are exactly the positions of the
   * pieces that are not blank.
   */
  lemma TermsOfPieces(pieces: seq<string>)
    ensures var terms, idx := TermsOf(pieces), ImagePositions(Normalize, pieces);
      && |idx| == |terms|
      && (forall j :: 0 <= j < |idx| ==> idx[j] < |pieces| && terms[j] == Normalize(pieces[idx[j]]))
      && (forall j, j' :: 0 <= j < j' < |idx| ==> idx[j] < idx[j'])
      && (forall k :: 0 <= k < |pieces| ==> (k in idx <==> !AllWhitespace(pieces[k])))
  {
  }

  /**
   * The OR clauses are the AND terms of the `|`-parts, in order, with the parts
   * that have no term dropped.
   */
  lemma ClausesOfParts(parts: seq<string>)
    ensures var clauses, idx := ClausesOf(parts), ImagePositions(PartTerms, parts);
      && |idx| == |clauses|
      && (forall i :: 0 <= i < |idx| ==> idx[i] < |parts| && clauses[i] == TermsOf(Split(parts[idx[i]], '&')))
      && (forall i, i' :: 0 <= i < i' < |idx| ==> idx[i] < idx[i'])
      && (forall k :: 0 <= k < |parts| ==> (k in idx <==> TermsOf(Split(parts[k], '&')) != []))
  {
  }

  /** The OR clauses of a trimmed query, each a list of AND terms. */
  function Clauses(query: string): seq<seq<string>> {
    ClausesOf(Split(query, '|'))
  }

  /** A clause matches a case-folded line when the line contains each of its terms. */
  predicate ClauseMatches(terms: seq<string>, lowerLine: string) {
    forall j :: 0 <= j < |terms| ==> Contains(lowerLine, terms[j])
  }

  /** A line matches when some clause matches it. */
  predicate LineMatches(clauses: seq<seq<string>>, line: string) {
    exists i :: 0 <= i < |clauses| && ClauseMatches(clauses[i], Lowercase(line))
  }

  /** The matching lines, in their original order. */
  function Keep(clauses: seq<seq<string>>, lines: seq<string>): (r: seq<string>)
    ensures |r| <= |lines|
    decreases |lines|
  {
    if lines == [] then []
    else
      var last := lines[|lines| - 1];
      Keep(clauses, lines[..|lines| - 1]) + (if LineMatches(clauses, last) then [last] else [])
  }

  /** The lines shown for a query (src/app.rs:302-331). */
  function FilterLines(query: string, lines: seq<string>): seq<string> {
    var q := Trim(query);
    if q == [] then lines else Keep(Clauses(q), lines)
  }

  /** A query of whitespace only shows every line, in order. */
  lemma EmptyQueryShowsAll(query: string, lines: seq<string>)
    requires AllWhitespace(query)
    ensures FilterLines(query, lines) == lines
  {
  }

  /**
   * The positions of the lines `Keep` retains: strictly increasing, each the
   * position of the retained line, and holding exactly the positions of the
   * matching lines.  So the result is the order-preserving subsequence of
   * exactly the matching lines.
   */
  function KeptPositions(clauses: seq<seq<string>>, lines: seq<string>): (idx: seq<nat>)
    ensures |idx| == |Keep(clauses, lines)|
    ensures forall j :: 0 <= j < |idx| ==> idx[j] < |lines| && Keep(clauses, lines)[j] == lines[idx[j]]
    ensures forall j, j' :: 0 <= j < j' < |idx| ==> idx[j] < idx[j']
    ensures forall k :: 0 <= k < |lines| ==> (k in idx <==> LineMatches(clauses, lines[k]))
    decreases |lines|
  {
    if lines == [] then []
    else
      var n := |lines| - 1;
      var front := lines[..n];
      var earlier := KeptPositions(clauses, front);
      assert forall k :: 0 <= k < n ==> front[k] == lines[k];
      earlier + (if LineMatches(clauses, lines[n]) then [n] else [])
  }

  /** A line is shown exactly when it is in the transcript and, for a non-empty query, matches. */
  lemma FilterMembership(query: string, lines: seq<string>, line: string)
    ensures line in FilterLines(query, lines) <==>
      line in lines && (Trim(query) == [] || LineMatches(Clauses(Trim(query)), line))
  {
    var q := Trim(query);
    if q != [] {
      var kept := Keep(Clauses(q), lines);
      var idx := KeptPositions(Clauses(q), lines);
      if line in kept {
        var j :| 0 <= j < |kept| && kept[j] == line;
        assert lines[idx[j]] == line;
        assert idx[j] in idx;
      }
      if line in lines && LineMatches(Clauses(q), line) {
        var k :| 0 <= k < |lines| && lines[k] == line;
        assert k in idx;
        var j :| 0 <= j < |idx| && idx[j] == k;
        assert kept[j] == line;
      }
    }
  }

  /** Filtering a transcript that grew is filtering the old part and the new part. */
  lemma {:induction false} KeepAppend(clauses: seq<seq<string>>, a: seq<string>, b: seq<string>)
    ensures Keep(clauses, a + b) == Keep(clauses, a) + Keep(clauses, b)
    decreases |b|
  {
    if b == [] {
      assert a + b == a;
    } else {
      var b' := b[..|b| - 1];
      assert (a + b)[..|a + b| - 1] == a + b';
      KeepAppend(clauses, a, b');
    }
  }

  /** Without any clause no line matches. */
  lemma {:induction false} KeepNone(lines: seq<string>)
    ensures Keep([], lines) == []
    decreases |lines|
  {
    if lines != [] {
      KeepNone(lines[..|lines| - 1]);
    }
  }

  /** A query that is not blank but has no non-empty term, such as `|` or `&`, shows nothing. */
  lemma NoTermsShowsNothing(query: string, lines: seq<string>)
    requires Trim(query) != [] && Clauses(Trim(query)) == []
    ensures FilterLines(query, lines) == []
  {
    KeepNone(lines);
  }

  /** The queries `|` and `&` show no line at all. */
  lemma SeparatorsAloneShowNothing(lines: seq<string>)
    ensures FilterLines("|", lines) == [] && FilterLines("&", lines) == []
  {
    BlankQueries();
    NoTermsShowsNothing("|", lines);
    NoTermsShowsNothing("&", lines);
  }

  /** `|` and `&` are their own trim and have no clause. */
  lemma BlankQueries()
    ensures Trim("|") == "|" && Trim("&") == "&"
    ensures Clauses("|") == [] && Clauses("&") == []
  {
    OwnTrim('|');
    OwnTrim('&');
    BarHasNoClause();
    AmpersandHasNoClause();
  }

  /** A single non-whitespace character is its own trim. */
  lemma OwnTrim(c: char)
    requires !IsWhitespace(c)
    ensures Trim([c]) == [c]
  {
    assert LeadingSpace([c]) == 0;
    assert TrailingSpace([c]) == 0;
  }

  /** Empty pieces give no terms. */
  lemma BlankPiecesHaveNoTerms()
    ensures TermsOf([[]]) == [] && TermsOf([[], []]) == []
  {
    var blank: string := [];
    BlankNormalForm();
    assert [blank][..0] == [];
    assert [blank, blank][..1] == [blank];
  }

  lemma BlankNormalForm()
    ensures Normalize([]) == []
  {
    assert Trim([]) == [];
  }

  lemma BarHasNoClause()
    ensures Clauses("|") == []
  {
    var blank: string := [];
    SplitAround('|');
    SplitWithout(blank, '&');
    BlankPiecesHaveNoTerms();
    assert [blank][..0] == [];
    assert [blank, blank][..1] == [blank];
  }

  lemma AmpersandHasNoClause()
    ensures Clauses("&") == []
  {
    SplitWithout("&", '|');
    SplitAround('&');
    BlankPiecesHaveNoTerms();
    assert ["&"][..0] == [];
  }

  /** A lone separator splits into two empty pieces. */
  lemma SplitAround(sep: char)
    ensures Split([sep], sep) == [[], []]
  {
    var blank: string := [];
    SplitJoin([blank, blank], sep);
    assert Join([blank, blank], sep) == [sep];
  }
}

/**
 The whole-word containment test that decides whether a search query holds a
 positive keyword (`containsKeyword` in shopping-positive-keywords.js).
 */
module Matcher {
  import opened Text

  /** The occurrence of `k` at `i` in `q` is bounded on both sides by the
      string's edge or by a space. */
  predicate WordBoundedAt(q: string, k: string, i: int) {
    && (i == 0 || (0 < i <= |q| && q[i - 1] == ' '))
    && (i + |k| == |q| || (0 <= i + |k| < |q| && q[i + |k|] == ' '))
  }

  /** `i` is where `k` first occurs in `q`. */
  predicate FirstOccurrence(q: string, k: string, i: int) {
    OccursAt(q, k, i) && forall j :: 0 <= j < i ==> !OccursAt(q, k, j)
  }

  /** The query contains the keyword when the two are equal, or when the
      FIRST occurrence of the keyword sits between word edges. Later
      occurrences are never examined. */
  function ContainsKeyword(query: string, keyword: string): (r: bool)
    ensures query == keyword ==> r
    ensures query != keyword && (forall i :: !OccursAt(query, keyword, i)) ==> !r
    ensures r <==> || query == keyword
                   || exists i :: FirstOccurrence(query, keyword, i)
                                  && WordBoundedAt(query, keyword, i)
  {
    if query == keyword then true
    else
      var index := IndexOf(query, keyword);
      if index < 0 then false
      else
        var positionAfterMatch := index + |keyword|;
        var bounded := && (index == 0 || query[index - 1] == ' ')
                     && (positionAfterMatch == |query| || query[positionAfterMatch] == ' ');
        assert FirstOccurrence(query, keyword, index);
        assert bounded <==> WordBoundedAt(query, keyword, index);
        assert forall j :: FirstOccurrence(query, keyword, j) ==> j == index by {
          forall j | FirstOccurrence(query, keyword, j) ensures j == index {
            FirstOccurrenceUnique(query, keyword, j, index);
          }
        }
        bounded
  }

  lemma FirstOccurrenceUnique(q: string, k: string, i: int, j: int)
    requires FirstOccurrence(q, k, i) && FirstOccurrence(q, k, j)
    ensures i == j
  {
  }

  /** The outcome is decided at the first occurrence alone: whenever `i` is
      the first occurrence of a keyword different from the query, the query
      contains the keyword exactly when that occurrence is word-bounded. */
  lemma {:induction false} FirstOccurrenceDecides(query: string, keyword: string, i: int)
    requires query != keyword && FirstOccurrence(query, keyword, i)
    ensures ContainsKeyword(query, keyword) <==> WordBoundedAt(query, keyword, i)
  {
    if ContainsKeyword(query, keyword) {
      var j :| FirstOccurrence(query, keyword, j) && WordBoundedAt(query, keyword, j);
      assert !(j < i) && !(i < j);
    }
  }

  /** `ws` appears in `ps` as the consecutive entries from index `i`. */
  predicate SegmentAt(ws: seq<string>, ps: seq<string>, i: int) {
    0 <= i <= |ps| - |ws| && ps[i..i + |ws|] == ws
  }

  /** `ws` appears as a run of consecutive entries of `ps`. */
  predicate IsSegment(ws: seq<string>, ps: seq<string>) {
    exists i :: 0 <= i <= |ps| && SegmentAt(ws, ps, i)
  }

  /** The pieces of the text `x` in front of a word that `x` separates from
      it with a space. */
  function PiecesBefore(x: string): seq<string> {
    if |x| == 0 then [] else Split(x[..|x| - 1], ' ')
  }

  /** The pieces of the text `y` behind a word that `y` separates from it
      with a space. */
  function PiecesAfter(y: string): seq<string> {
    if |y| == 0 then [] else Split(y[1..], ' ')
  }

  lemma {:induction false} SplitAfterWordStart(x: string, t: string)
    requires |x| == 0 || x[|x| - 1] == ' '
    ensures Split(x + t, ' ') == PiecesBefore(x) + Split(t, ' ')
  {
    if |x| > 0 {
      assert x + t == x[..|x| - 1] + [' '] + t;
      SplitAround(x[..|x| - 1], ' ', t);
    } else {
      assert x + t == t;
    }
  }

  lemma {:induction false} SplitBeforeWordEnd(k: string, y: string)
    requires |y| == 0 || y[0] == ' '
    ensures Split(k + y, ' ') == Split(k, ' ') + PiecesAfter(y)
  {
    if |y| > 0 {
      assert k + y == k + [' '] + y[1..];
      SplitAround(k, ' ', y[1..]);
    } else {
      assert k + y == k;
    }
  }

  /** A word-bounded `k` between `x` and `y` contributes exactly the pieces
      of `k` to the pieces of `x + k + y`. */
  lemma {:induction false} WordBoundedPieces(x: string, k: string, y: string)
    requires |x| == 0 || x[|x| - 1] == ' '
    requires |y| == 0 || y[0] == ' '
    ensures Split(x + k + y, ' ') == PiecesBefore(x) + Split(k, ' ') + PiecesAfter(y)
  {
    assert x + k + y == x + (k + y);
    SplitAfterWordStart(x, k + y);
    SplitBeforeWordEnd(k, y);
    var before, pieces, after := PiecesBefore(x), Split(k, ' '), PiecesAfter(y);
    assert before + (pieces + after) == before + pieces + after;
  }

  /** A contained keyword is made of whole words of the query: the keyword's
      space-separated pieces are consecutive pieces of the query. */
  lemma {:induction false} ContainedKeywordIsWholeWords(query: string, keyword: string)
    requires ContainsKeyword(query, keyword)
    ensures IsSegment(Split(keyword, ' '), Split(query, ' '))
  {
    if query == keyword {
      assert SegmentAt(Split(keyword, ' '), Split(query, ' '), 0);
    } else {
      var i :| FirstOccurrence(query, keyword, i) && WordBoundedAt(query, keyword, i);
      WordBoundedIsWholeWords(query, keyword, i);
    }
  }

  lemma {:induction false} WordBoundedIsWholeWords(query: string, keyword: string, i: int)
    requires OccursAt(query, keyword, i) && WordBoundedAt(query, keyword, i)
    ensures IsSegment(Split(keyword, ' '), Split(query, ' '))
  {
    var x, y := query[..i], query[i + |keyword|..];
    assert query == x + keyword + y;
    WordBetweenIsWholeWords(query, keyword, x, y);
  }

  lemma {:induction false} WordBetweenIsWholeWords(query: string, keyword: string, x: string, y: string)
    requires query == x + keyword + y
    requires |x| == 0 || x[|x| - 1] == ' '
    requires |y| == 0 || y[0] == ' '
    ensures IsSegment(Split(keyword, ' '), Split(query, ' '))
  {
    var ks := Split(keyword, ' ');
    var qs := Split(query, ' ');
    WordBoundedPieces(x, keyword, y);
    var pre := PiecesBefore(x);
    assert qs[|pre|..|pre| + |ks|] == ks;
    assert SegmentAt(ks, qs, |pre|);
  }

  /** One differing character rules out an occurrence. */
  lemma {:induction false} MismatchAt(s: string, k: string, j: int, m: int)
    requires 0 <= j && 0 <= m < |k| && j + m < |s| && s[j + m] != k[m]
    ensures !OccursAt(s, k, j)
  {
    if j + |k| <= |s| {
      assert s[j..j + |k|][m] == s[j + m];
    }
  }

  /** Only the first occurrence is examined: "red" is a whole word of
      "bored red", yet the query does not contain it, because the first hit
      lies inside "bored". */
  lemma BoredRedDoesNotContainRed()
    ensures IsSegment(Split("red", ' '), Split("bored red", ' '))
    ensures !ContainsKeyword("bored red", "red")
  {
    BoredRedPieces();
    assert SegmentAt(["red"], ["bored", "red"], 1);
    assert OccursAt("bored red", "red", 2);
    assert !OccursAt("bored red", "red", 0) by { assert "bored red"[0..3][0] == 'b'; }
    assert !OccursAt("bored red", "red", 1) by { assert "bored red"[1..4][0] == 'o'; }
    FirstOccurrenceDecides("bored red", "red", 2);
  }

  lemma BoredRedPieces()
    ensures Split("bored red", ' ') == ["bored", "red"]
    ensures Split("red", ' ') == ["red"]
  {
    assert "bored red" == "bored" + [' '] + "red";
    SplitTwoWords("bored", "red", ' ');
    SplitNoSeparator("red", ' ');
  }

  /** Worked cases of the matcher: a word at the start of the query, a
      keyword that stops inside a word, an absent keyword and equality. */
  lemma MatcherExamples()
    ensures ContainsKeyword("red shoes", "red")
    ensures !ContainsKeyword("red shoes", "red shoe")
    ensures !ContainsKeyword("shoes", "red")
    ensures ContainsKeyword("red", "red")
    ensures !ContainsKeyword("bored", "red")
  {
    assert OccursAt("red shoes", "red", 0);
    FirstOccurrenceDecides("red shoes", "red", 0);
    assert OccursAt("red shoes", "red shoe", 0);
    FirstOccurrenceDecides("red shoes", "red shoe", 0);
    assert OccursAt("bored", "red", 2);
    assert !OccursAt("bored", "red", 0) by { assert "bored"[0..3][0] == 'b'; }
    assert !OccursAt("bored", "red", 1) by { assert "bored"[1..4][0] == 'o'; }
    FirstOccurrenceDecides("bored", "red", 2);
  }
}

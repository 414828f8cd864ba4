/**
 The string primitives the keyword script relies on, written out over
 `seq<char>`: JavaScript's `trim`, an ASCII `toLowerCase`, `split` and `join`
 on a single separator character, and `indexOf`.
 */
module Text {

  /** The characters JavaScript's `String.prototype.trim` removes: the
      ECMAScript WhiteSpace and LineTerminator code points. */
  predicate IsWhitespace(c: char) {
    || c == '\t' || c == '\n' || c == '\U{B}' || c == '\U{C}' || c == '\r'
    || c == ' ' || c == '\U{A0}' || c == '\U{1680}'
    || ('\U{2000}' <= c <= '\U{200A}')
    || c == '\U{2028}' || c == '\U{2029}' || c == '\U{202F}' || c == '\U{205F}'
    || c == '\U{3000}' || c == '\U{FEFF}'
  }

  predicate AllWhitespace(s: string) {
    forall i :: 0 <= i < |s| ==> IsWhitespace(s[i])
  }

  /** Neither the first nor the last character is whitespace. */
  predicate Trimmed(s: string) {
    |s| > 0 ==> !IsWhitespace(s[0]) && !IsWhitespace(s[|s| - 1])
  }

  /** Drops the leading whitespace: what is left is a suffix of `s`. */
  function TrimStart(s: string): (r: string)
    ensures |r| <= |s| && r == s[|s| - |r|..]
    ensures AllWhitespace(s[..|s| - |r|])
    ensures |r| > 0 ==> !IsWhitespace(r[0])
  {
    if |s| > 0 && IsWhitespace(s[0]) then TrimStart(s[1..]) else s
  }

  /** Drops the trailing whitespace: what is left is a prefix of `s`. */
  function TrimEnd(s: string): (r: string)
    ensures |r| <= |s| && r == s[..|r|]
    ensures AllWhitespace(s[|r|..])
    ensures |r| > 0 ==> !IsWhitespace(r[|r| - 1])
  {
    if |s| > 0 && IsWhitespace(s[|s| - 1]) then TrimEnd(s[..|s| - 1]) else s
  }

  /** JavaScript's `trim`: `s` is the result with whitespace on either side. */
  function Trim(s: string): (r: string)
    ensures Trimmed(r)
    ensures exists i :: 0 <= i <= |s| - |r| && s[i..i + |r|] == r
                        && AllWhitespace(s[..i]) && AllWhitespace(s[i + |r|..])
  {
    var e := TrimEnd(s);
    var r := TrimStart(e);
    var i := |e| - |r|;
    assert s[i..i + |r|] == r;
    assert s[..i] == e[..i];
    assert s[i + |r|..] == s[|e|..];
    r
  }

  /** Stripping whitespace from a string that is whitespace around a trimmed
      core gives back exactly that core: `Trim` is determined by its contract. */
  lemma {:induction false} TrimOfPadded(a: string, m: string, b: string)
    requires AllWhitespace(a) && AllWhitespace(b) && Trimmed(m)
    ensures Trim(a + m + b) == m
  {
    if |m| == 0 {
      assert a + m + b == "" + (a + b);
      TrimEndOfPadded("", a + b);
    } else {
      TrimEndOfPadded(a + m, b);
      TrimStartOfPadded(a, m);
    }
  }

  lemma {:induction false} TrimEndOfPadded(x: string, b: string)
    requires AllWhitespace(b)
    requires |x| > 0 ==> !IsWhitespace(x[|x| - 1])
    ensures TrimEnd(x + b) == x
  {
    if |b| > 0 {
      assert (x + b)[..|x + b| - 1] == x + b[..|b| - 1];
      TrimEndOfPadded(x, b[..|b| - 1]);
    } else {
      assert x + b == x;
    }
  }

  lemma {:induction false} TrimStartOfPadded(a: string, m: string)
    requires AllWhitespace(a) && Trimmed(m)
    ensures TrimStart(a + m) == m
  {
    if |a| > 0 {
      assert (a + m)[1..] == a[1..] + m;
      TrimStartOfPadded(a[1..], m);
    } else {
      assert a + m == m;
    }
  }

  /** Trimming twice is trimming once. */
  lemma {:induction false} TrimIdempotent(s: string)
    ensures Trim(Trim(s)) == Trim(s)
  {
    var r := Trim(s);
    TrimOfPadded("", r, "");
    assert "" + r + "" == r;
  }

  /** ASCII lower-casing of one character; every other character is kept. */
  function LowerChar(c: char): char {
    if 'A' <= c <= 'Z' then (c as int - 'A' as int + 'a' as int) as char else c
  }

  /** `toLowerCase` restricted to the ASCII letters: no capital is left, and
      every character that is not a capital is kept. */
  function ToLower(s: string): (r: string)
    ensures |r| == |s|
    ensures forall i :: 0 <= i < |s| ==> r[i] == LowerChar(s[i])
    ensures forall i :: 0 <= i < |r| ==> !('A' <= r[i] <= 'Z')
    ensures forall i :: 0 <= i < |s| && !('A' <= s[i] <= 'Z') ==> r[i] == s[i]
  {
    seq(|s|, i requires 0 <= i < |s| => LowerChar(s[i]))
  }

  /** `d` is the small letter of the ASCII capital `c`. */
  predicate SmallOf(c: char, d: char) {
    'A' <= c <= 'Z' && d as int == c as int + 32
  }

  /** `a` and `b` differ at most in the case of ASCII letters. */
  predicate SameUpToCase(a: string, b: string) {
    && |a| == |b|
    && forall i :: 0 <= i < |a| ==> a[i] == b[i] || SmallOf(a[i], b[i]) || SmallOf(b[i], a[i])
  }

  /** Two strings lower-case alike exactly when they differ only in the case
      of ASCII letters. */
  lemma {:induction false} ToLowerEqualIff(a: string, b: string)
    ensures ToLower(a) == ToLower(b) <==> SameUpToCase(a, b)
  {
    if ToLower(a) == ToLower(b) {
      forall i | 0 <= i < |a|
        ensures a[i] == b[i] || SmallOf(a[i], b[i]) || SmallOf(b[i], a[i])
      {
        assert ToLower(a)[i] == ToLower(b)[i];
      }
    }
    if SameUpToCase(a, b) {
      forall i | 0 <= i < |a| ensures ToLower(a)[i] == ToLower(b)[i] {
      }
    }
  }

  /** Number of occurrences of `c` in `s`. */
  function CountChar(s: string, c: char): nat {
    if |s| == 0 then 0 else (if s[0] == c then 1 else 0) + CountChar(s[1..], c)
  }

  /** JavaScript's `s.split(sep)` for a one-character separator: every
      separator ends a piece, so empty pieces are kept and the empty string
      splits into one empty piece. */
  function Split(s: string, sep: char): (r: seq<string>)
    ensures |r| >= 1
    ensures |s| == 0 ==> r == [""]
  {
    if |s| == 0 then [""]
    else
      var rest := Split(s[1..], sep);
      if s[0] == sep then [""] + rest
      else [[s[0]] + rest[0]] + rest[1..]
  }

  /** A split has one piece more than the string has separators. */
  lemma {:induction false} SplitCount(s: string, sep: char)
    ensures |Split(s, sep)| == CountChar(s, sep) + 1
  {
    if |s| > 0 {
      SplitCount(s[1..], sep);
    }
  }

  /** No piece of a split holds the separator. */
  lemma {:induction false} SplitPiecesLackSeparator(s: string, sep: char)
    ensures forall p :: p in Split(s, sep) ==> sep !in p
  {
    if |s| > 0 {
      SplitPiecesLackSeparator(s[1..], sep);
      var rest := Split(s[1..], sep);
      if s[0] != sep {
        assert rest[0] in rest;
        assert forall p :: p in rest[1..] ==> p in rest;
      }
    }
  }

  /** Total length of the pieces. */
  function TotalLength(pieces: seq<string>): nat {
    if |pieces| == 0 then 0 else |pieces[0]| + TotalLength(pieces[1..])
  }

  /** JavaScript's `pieces.join(sep)`: the pieces with one separator between
      each two of them, so the empty list joins to the empty string. */
  function Join(pieces: seq<string>, sep: char): (r: string)
    ensures |pieces| == 0 ==> r == ""
    ensures |pieces| == 1 ==> r == pieces[0]
    ensures |pieces| > 0 ==> |r| == TotalLength(pieces) + |pieces| - 1
  {
    if |pieces| == 0 then ""
    else if |pieces| == 1 then pieces[0]
    else pieces[0] + [sep] + Join(pieces[1..], sep)
  }

  /** Joining two non-empty lists one after the other puts one separator
      between their joins. With `Join([p], sep) == p` this fixes the content
      of every join: the pieces in order, one separator between each two. */
  lemma {:induction false} JoinAppend(a: seq<string>, b: seq<string>, sep: char)
    requires |a| > 0 && |b| > 0
    ensures Join(a + b, sep) == Join(a, sep) + [sep] + Join(b, sep)
  {
    assert (a + b)[0] == a[0];
    if |a| == 1 {
      assert (a + b)[1..] == b;
    } else {
      assert (a + b)[1..] == a[1..] + b;
      JoinAppend(a[1..], b, sep);
    }
  }

  /** Joining the pieces of a split gives back the original string. */
  lemma {:induction false} JoinSplit(s: string, sep: char)
    ensures Join(Split(s, sep), sep) == s
  {
    if |s| > 0 {
      var rest := Split(s[1..], sep);
      JoinSplit(s[1..], sep);
      if s[0] == sep {
        assert Split(s, sep)[1..] == rest;
        assert s == [sep] + s[1..];
      } else {
        var r := Split(s, sep);
        if |rest| == 1 {
          assert s == [s[0]] + s[1..];
        } else {
          assert r[1..] == rest[1..];
          assert Join(rest, sep) == rest[0] + [sep] + Join(rest[1..], sep);
          assert s == [s[0]] + s[1..];
        }
      }
    }
  }

  /** Splitting distributes over a separator placed between two strings. */
  lemma {:induction false} SplitAround(x: string, sep: char, y: string)
    ensures Split(x + [sep] + y, sep) == Split(x, sep) + Split(y, sep)
  {
    if |x| == 0 {
      assert x + [sep] + y == [sep] + y;
      assert ([sep] + y)[1..] == y;
    } else {
      assert (x + [sep] + y)[1..] == x[1..] + [sep] + y;
      SplitAround(x[1..], sep, y);
    }
  }

  /** A string without the separator is a single piece. */
  lemma {:induction false} SplitNoSeparator(s: string, sep: char)
    requires sep !in s
    ensures Split(s, sep) == [s]
  {
    if |s| > 0 {
      assert sep !in s[1..] by {
        forall i | 0 <= i < |s[1..]| ensures s[1..][i] != sep {
          assert s[1..][i] == s[i + 1];
        }
      }
      SplitNoSeparator(s[1..], sep);
      assert s == [s[0]] + s[1..];
    }
  }

  /** Two separator-free strings with one separator between them split into
      those two strings. */
  lemma {:induction false} SplitTwoWords(a: string, b: string, sep: char)
    requires sep !in a && sep !in b
    ensures Split(a + [sep] + b, sep) == [a, b]
  {
    SplitAround(a, sep, b);
    SplitNoSeparator(a, sep);
    SplitNoSeparator(b, sep);
  }

  /** Splitting a join of separator-free pieces gives back the pieces. */
  lemma {:induction false} SplitJoin(pieces: seq<string>, sep: char)
    requires |pieces| > 0
    requires forall p :: p in pieces ==> sep !in p
    ensures Split(Join(pieces, sep), sep) == pieces
  {
    if |pieces| == 1 {
      SplitNoSeparator(pieces[0], sep);
    } else {
      assert pieces[0] in pieces;
      assert forall p :: p in pieces[1..] ==> p in pieces;
      SplitJoin(pieces[1..], sep);
      SplitNoSeparator(pieces[0], sep);
      SplitAround(pieces[0], sep, Join(pieces[1..], sep));
      assert pieces == [pieces[0]] + pieces[1..];
    }
  }

  /** `k` occurs in `s` starting at index `i`. */
  predicate OccursAt(s: string, k: string, i: int) {
    0 <= i && i + |k| <= |s| && s[i..i + |k|] == k
  }

  /** Index of the first occurrence of `k` in `s` at or after `from`, or -1. */
  function IndexOfFrom(s: string, k: string, from: nat): (r: int)
    ensures r == -1 || (from <= r && OccursAt(s, k, r))
    ensures r == -1 ==> forall j :: from <= j ==> !OccursAt(s, k, j)
    ensures r != -1 ==> forall j :: from <= j < r ==> !OccursAt(s, k, j)
    decreases |s| - from
  {
    if from + |k| > |s| then -1
    else if s[from..from + |k|] == k then from
    else IndexOfFrom(s, k, from + 1)
  }

  /** JavaScript's `s.indexOf(k)`: the first occurrence, or -1 if none. */
  function IndexOf(s: string, k: string): (r: int)
    ensures r == -1 <==> forall j :: !OccursAt(s, k, j)
    ensures r != -1 ==> OccursAt(s, k, r) && forall j :: 0 <= j < r ==> !OccursAt(s, k, j)
  {
    IndexOfFrom(s, k, 0)
  }
}

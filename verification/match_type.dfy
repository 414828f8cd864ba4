/**
 The match-type notations a negative keyword is submitted in, and the encoder
 that turns a raw query into one of them (`addMatchType` in
 shopping-positive-keywords.js).
 */
module MatchTypes {
  import opened Text

  datatype MatchType = Broad | Bmm | Phrase | Exact

  /** A value, or the message of the error the script throws. */
  datatype Result<T> = Ok(value: T) | Err(message: string)

  const NotRecognised: string :=
    "Error: Match type not recognised. Please provide one of Broad, BMM, Exact or Phrase"

  /** The lower-case setting that selects each match type. */
  function Name(t: MatchType): string {
    match t
    case Broad => "broad"
    case Bmm => "bmm"
    case Phrase => "phrase"
    case Exact => "exact"
  }

  /** Reads the match-type setting; letter case does not matter. */
  function ParseMatchType(setting: string): (r: Result<MatchType>)
    ensures r.Ok? ==> ToLower(setting) == Name(r.value)
    ensures r.Err? ==> r.message == NotRecognised
    ensures r.Err? <==> forall t :: ToLower(setting) != Name(t)
  {
    var lower := ToLower(setting);
    if lower == "broad" then Ok(Broad)
    else if lower == "bmm" then Ok(Bmm)
    else if lower == "phrase" then Ok(Phrase)
    else if lower == "exact" then Ok(Exact)
    else Err(NotRecognised)
  }

  /** Every setting that lower-cases to a type's name selects that type, so
      "BMM", "Exact" and "bmm" are all accepted. */
  lemma ParseIgnoresCase(setting: string, t: MatchType)
    requires ToLower(setting) == Name(t)
    ensures ParseMatchType(setting) == Ok(t)
  {
  }

  lemma SettingExamples()
    ensures ParseMatchType("BMM") == Ok(Bmm)
    ensures ParseMatchType("Exact") == Ok(Exact)
    ensures ParseMatchType("PHRASE") == Ok(Phrase)
    ensures ParseMatchType("Broad") == Ok(Broad)
    ensures ParseMatchType("loose") == Err(NotRecognised)
  {
    UpperCaseSettings();
    CapitalisedSettings();
    assert ToLower("loose")[0] == 'l';
  }

  lemma UpperCaseSettings()
    ensures ParseMatchType("BMM") == Ok(Bmm)
    ensures ParseMatchType("PHRASE") == Ok(Phrase)
  {
    ParseIgnoresCase("BMM", Bmm);
    ParseIgnoresCase("PHRASE", Phrase);
  }

  lemma CapitalisedSettings()
    ensures ParseMatchType("Exact") == Ok(Exact)
    ensures ParseMatchType("Broad") == Ok(Broad)
  {
    ParseIgnoresCase("Exact", Exact);
    ParseIgnoresCase("Broad", Broad);
  }

  /** Each piece with a `+` modifier in front. */
  function Prefixed(pieces: seq<string>): seq<string> {
    seq(|pieces|, i requires 0 <= i < |pieces| => ['+'] + pieces[i])
  }

  /** Each piece with a leading `+` removed. */
  function Unprefixed(pieces: seq<string>): seq<string> {
    seq(|pieces|, i requires 0 <= i < |pieces| =>
      if |pieces[i]| > 0 && pieces[i][0] == '+' then pieces[i][1..] else pieces[i])
  }

  /** The broad-match-modifier form before the final trim: the term split on
      single spaces, every piece prefixed with `+`, joined with spaces. */
  function BmmUntrimmed(term: string): string {
    Join(Prefixed(Split(term, ' ')), ' ')
  }

  /** The untrimmed broad-match-modifier form has one `+`-prefixed piece per
      space-separated piece of the term, and dropping the `+` from each piece
      and rejoining gives back the term. */
  lemma {:induction false} BmmUntrimmedRoundTrip(term: string)
    ensures Split(BmmUntrimmed(term), ' ') == Prefixed(Split(term, ' '))
    ensures |Split(BmmUntrimmed(term), ' ')| == CountChar(term, ' ') + 1
    ensures Join(Unprefixed(Split(BmmUntrimmed(term), ' ')), ' ') == term
  {
    var ps := Split(term, ' ');
    SplitPiecesLackSeparator(term, ' ');
    PrefixedLackSpace(ps);
    SplitJoin(Prefixed(ps), ' ');
    assert Unprefixed(Prefixed(ps)) == ps;
    JoinSplit(term, ' ');
    SplitCount(term, ' ');
  }

  lemma {:induction false} PrefixedLackSpace(ps: seq<string>)
    requires forall p :: p in ps ==> ' ' !in p
    ensures forall p :: p in Prefixed(ps) ==> ' ' !in p
  {
    var pre := Prefixed(ps);
    forall p | p in pre ensures ' ' !in p {
      var i :| 0 <= i < |pre| && pre[i] == p;
      assert ps[i] in ps;
    }
  }

  /** Appending to the last piece appends to the join. */
  lemma {:induction false} JoinExtendLast(ps: seq<string>, w: string, sep: char)
    requires |ps| > 0
    ensures Join(ps[..|ps| - 1] + [ps[|ps| - 1] + w], sep) == Join(ps, sep) + w
  {
    var n := |ps|;
    if n > 1 {
      JoinExtendLast(ps[1..], w, sep);
      var qs := ps[..n - 1] + [ps[n - 1] + w];
      assert qs[1..] == ps[1..][..n - 2] + [ps[1..][n - 2] + w];
    } else {
      assert ps[..0] + [ps[0] + w] == [ps[0] + w];
    }
  }

  lemma {:induction false} JoinSnoc(ps: seq<string>, p: string, sep: char)
    requires |ps| > 0
    ensures Join(ps + [p], sep) == Join(ps, sep) + [sep] + p
  {
    if |ps| > 1 {
      assert (ps + [p])[1..] == ps[1..] + [p];
      JoinSnoc(ps[1..], p, sep);
    }
  }

  lemma {:induction false} JoinStartsWithFirst(ps: seq<string>, sep: char)
    requires |ps| > 0
    ensures |Join(ps, sep)| >= |ps[0]| && Join(ps, sep)[..|ps[0]|] == ps[0]
  {
  }

  lemma {:induction false} JoinEndsWithLast(ps: seq<string>, sep: char)
    requires |ps| > 0
    ensures var j := Join(ps, sep); var p := ps[|ps| - 1];
            |j| >= |p| && j[|j| - |p|..] == p
  {
    var n := |ps|;
    if n > 1 {
      assert ps == ps[..n - 1] + [ps[n - 1]];
      JoinSnoc(ps[..n - 1], ps[n - 1], sep);
    }
  }

  /** The pieces of the broad-match-modifier notation of a term split into
      `ps`: each piece with a `+`, the last one without its trailing
      whitespace. */
  function NotationPieces(ps: seq<string>): (r: seq<string>)
    requires |ps| > 0
    ensures |r| == |ps|
    ensures forall i :: 0 <= i < |r| ==> |r[i]| > 0 && r[i][0] == '+'
  {
    Prefixed(ps[..|ps| - 1]) + [['+'] + TrimEnd(ps[|ps| - 1])]
  }

  /** The final trim only strips whitespace from the end of the last piece:
      the notation is the `+`-prefixed pieces joined with spaces, and
      splitting it on spaces gives those pieces back. */
  lemma {:induction false} NotationOfPieces(ps: seq<string>)
    requires |ps| > 0
    requires forall p :: p in ps ==> ' ' !in p
    ensures Trim(Join(Prefixed(ps), ' ')) == Join(NotationPieces(ps), ' ')
    ensures Split(Join(NotationPieces(ps), ' '), ' ') == NotationPieces(ps)
  {
    NotationTrim(ps);
    NotationPiecesLackSpace(ps);
    SplitJoin(NotationPieces(ps), ' ');
  }

  /** The untrimmed notation is the notation followed by the trailing
      whitespace of the last piece. */
  lemma {:induction false} NotationTrim(ps: seq<string>)
    requires |ps| > 0
    ensures Trim(Join(Prefixed(ps), ' ')) == Join(NotationPieces(ps), ' ')
  {
    var n := |ps|;
    var np := NotationPieces(ps);
    var tl := TrimEnd(ps[n - 1]);
    var w := ps[n - 1][|tl|..];
    PrefixedWithTail(ps, tl, w);
    JoinExtendLast(np, w, ' ');
    var j := Join(np, ' ');
    NotationTrimmed(np);
    TrimOfPadded("", j, w);
    assert "" + j + w == j + w;
  }

  lemma {:induction false} PrefixedWithTail(ps: seq<string>, tl: string, w: string)
    requires |ps| > 0 && tl == TrimEnd(ps[|ps| - 1]) && w == ps[|ps| - 1][|tl|..]
    ensures var np := NotationPieces(ps);
            Prefixed(ps) == np[..|ps| - 1] + [np[|ps| - 1] + w]
  {
    var n := |ps|;
    var np := NotationPieces(ps);
    assert ps[n - 1] == tl + w;
    assert forall i :: 0 <= i < n - 1 ==> Prefixed(ps)[i] == np[i];
    assert Prefixed(ps)[n - 1] == ['+'] + ps[n - 1] == np[n - 1] + w;
  }

  /** A join that starts with `+` and ends in a non-whitespace character has
      no surrounding whitespace. */
  lemma {:induction false} NotationTrimmed(np: seq<string>)
    requires |np| > 0 && |np[0]| > 0 && np[0][0] == '+'
    requires var last := np[|np| - 1]; |last| > 0 && !IsWhitespace(last[|last| - 1])
    ensures Trimmed(Join(np, ' '))
  {
    var j := Join(np, ' ');
    JoinStartsWithFirst(np, ' ');
    JoinEndsWithLast(np, ' ');
    var last := np[|np| - 1];
    assert j[|j| - 1] == j[|j| - |last|..][|last| - 1];
  }

  lemma {:induction false} NotationPiecesLackSpace(ps: seq<string>)
    requires |ps| > 0
    requires forall p :: p in ps ==> ' ' !in p
    ensures forall p :: p in NotationPieces(ps) ==> ' ' !in p
  {
    var n := |ps|;
    var np := NotationPieces(ps);
    assert ps[n - 1] in ps;
    assert forall p :: p in ps[..n - 1] ==> p in ps;
    PrefixedLackSpace(ps[..n - 1]);
    assert forall p :: p in np ==> p in Prefixed(ps[..n - 1]) || p == np[n - 1];
  }

  /** The broad-match-modifier notation of a term, piece by piece. */
  lemma {:induction false} BmmShape(term: string)
    ensures Trim(BmmUntrimmed(term)) == Join(NotationPieces(Split(term, ' ')), ' ')
    ensures Split(Trim(BmmUntrimmed(term)), ' ') == NotationPieces(Split(term, ' '))
  {
    SplitPiecesLackSeparator(term, ' ');
    NotationOfPieces(Split(term, ' '));
  }

  lemma {:induction false} BmmEveryPiecePrefixed(term: string)
    ensures |Split(Trim(BmmUntrimmed(term)), ' ')| == CountChar(term, ' ') + 1
    ensures forall p :: p in Split(Trim(BmmUntrimmed(term)), ' ') ==> |p| > 0 && p[0] == '+'
  {
    BmmShape(term);
    SplitCount(term, ' ');
  }

  /** Encodes a term in the given notation. Every notation is free of
      surrounding whitespace; phrase and exact wrap the trimmed term, which
      dropping the first and last character recovers; broad match modifier
      puts a `+` in front of every space-separated piece of the term. */
  function Encode(term: string, t: MatchType): (r: string)
    ensures Trimmed(r)
    ensures t == Broad ==> r == Trim(term)
    ensures t == Phrase ==> |r| >= 2 && r[0] == '"' && r[|r| - 1] == '"'
                            && r[1..|r| - 1] == Trim(term)
    ensures t == Exact ==> |r| >= 2 && r[0] == '[' && r[|r| - 1] == ']'
                           && r[1..|r| - 1] == Trim(term)
    ensures t == Bmm ==> && |Split(r, ' ')| == CountChar(term, ' ') + 1
                         && forall p :: p in Split(r, ' ') ==> |p| > 0 && p[0] == '+'
  {
    match t
    case Broad => Trim(term)
    case Bmm =>
      BmmEveryPiecePrefixed(term);
      Trim(BmmUntrimmed(term))
    case Phrase => ['"'] + Trim(term) + ['"']
    case Exact => ['['] + Trim(term) + [']']
  }

  /** Outside the broad-match-modifier notation, two terms encode alike
      exactly when they agree once their surrounding whitespace is removed. */
  lemma EncodeIgnoresSurroundingWhitespace(a: string, b: string, t: MatchType)
    requires t != Bmm
    ensures Encode(a, t) == Encode(b, t) <==> Trim(a) == Trim(b)
  {
    if Encode(a, t) == Encode(b, t) && t != Broad {
      var r := Encode(a, t);
      assert Trim(a) == r[1..|r| - 1] == Trim(b);
    }
  }

  /** Two space-separated words become two `+`-prefixed words, so
      "running shoes" becomes "+running +shoes"; when the first word is empty
      (a leading space, as in " shoes") it becomes a lone `+`. */
  lemma {:induction false} BmmTwoWords(a: string, b: string)
    requires ' ' !in a && ' ' !in b
    requires |b| > 0 && !IsWhitespace(b[|b| - 1])
    ensures Encode(a + [' '] + b, Bmm) == ['+'] + a + [' ', '+'] + b
  {
    var term := a + [' '] + b;
    SplitTwoWords(a, b, ' ');
    BmmShape(term);
    TwoNotationPieces(a, b);
  }

  lemma {:induction false} TwoNotationPieces(a: string, b: string)
    requires |b| > 0 && !IsWhitespace(b[|b| - 1])
    ensures Join(NotationPieces([a, b]), ' ') == ['+'] + a + [' ', '+'] + b
  {
    var np := [['+'] + a, ['+'] + b];
    assert TrimEnd(b) == b;
    assert NotationPieces([a, b]) == np;
    assert Join(np, ' ') == np[0] + [' '] + np[1];
  }

  /** `addMatchType`: encodes the term in the notation the setting selects,
      or fails with the script's message when the setting names none. */
  function AddMatchType(term: string, setting: string): (r: Result<string>)
    ensures r.Err? <==> ParseMatchType(setting).Err?
    ensures r.Err? ==> r.message == NotRecognised
    ensures r.Ok? ==> r.value == Encode(term, ParseMatchType(setting).value)
  {
    match ParseMatchType(setting)
    case Err(message) => Err(message)
    case Ok(t) => Ok(Encode(term, t))
  }
}

/**
 The per-query classification in `main` of shopping-positive-keywords.js: a
 query becomes a negative keyword when it contains fewer positive keywords
 than the threshold, and the queued queries are encoded and submitted in
 order.
 */
module Classifier {
  import opened Text
  import opened Matcher
  import opened MatchTypes

  /** Number of list positions whose keyword the query contains. A keyword
      listed twice counts twice. */
  function FullCount(query: string, keywords: seq<string>): nat {
    if |keywords| == 0 then 0
    else (if ContainsKeyword(query, keywords[0]) then 1 else 0) + FullCount(query, keywords[1..])
  }

  /** The positions of the keyword list that the query contains. */
  function MatchingPositions(query: string, keywords: seq<string>): set<nat> {
    set i: nat | i < |keywords| && ContainsKeyword(query, keywords[i])
  }

  lemma {:induction false} FullCountAppend(query: string, a: seq<string>, b: seq<string>)
    ensures FullCount(query, a + b) == FullCount(query, a) + FullCount(query, b)
  {
    if |a| > 0 {
      assert (a + b)[1..] == a[1..] + b;
      FullCountAppend(query, a[1..], b);
    } else {
      assert a + b == b;
    }
  }

  /** The full count is the number of matching list positions. */
  lemma {:induction false} FullCountIsPositionCount(query: string, keywords: seq<string>)
    ensures FullCount(query, keywords) == |MatchingPositions(query, keywords)|
  {
    if |keywords| > 0 {
      var n := |keywords| - 1;
      var init := keywords[..n];
      FullCountIsPositionCount(query, init);
      assert keywords == init + [keywords[n]];
      FullCountAppend(query, init, [keywords[n]]);
      var before := MatchingPositions(query, init);
      var all := MatchingPositions(query, keywords);
      assert forall i: nat :: i < n ==> init[i] == keywords[i];
      if ContainsKeyword(query, keywords[n]) {
        assert forall i: nat :: i in all <==> i in before || i == n;
        assert all == before + {n};
        assert n !in before;
      } else {
        assert forall i: nat :: i in all <==> i in before;
        assert all == before;
      }
    }
  }

  /** The count at which the keyword loop stops: the threshold, but at least
      one, since the check against the threshold only follows a match. */
  function Cap(threshold: int): nat {
    if threshold >= 1 then threshold else 1
  }

  /** The keyword loop from its current state: `matches` positive keywords
      found so far, `keywords` the ones still to be examined. A match bumps
      the counter and ends the loop once the counter reaches the threshold. */
  function CountFrom(query: string, keywords: seq<string>, threshold: int, matches: nat): (r: nat)
    requires matches < Cap(threshold)
    ensures r == if matches + FullCount(query, keywords) < Cap(threshold)
                 then matches + FullCount(query, keywords) else Cap(threshold)
    decreases |keywords|
  {
    if |keywords| == 0 then matches
    else if ContainsKeyword(query, keywords[0]) then
      if matches + 1 >= threshold then matches + 1
      else CountFrom(query, keywords[1..], threshold, matches + 1)
    else CountFrom(query, keywords[1..], threshold, matches)
  }

  /** The counter the loop leaves behind for one query. It never passes a
      positive threshold, and stopping early does not change the decision:
      the counter is below the threshold exactly when the full count is. */
  function MatchCount(query: string, keywords: seq<string>, threshold: int): (r: nat)
    ensures r <= FullCount(query, keywords)
    ensures threshold >= 1 ==> r <= threshold
    ensures r < threshold <==> FullCount(query, keywords) < threshold
  {
    CountFrom(query, keywords, threshold, 0)
  }

  /** `a` is `b` with some entries left out, the rest kept in order. */
  predicate IsSubsequence(a: seq<string>, b: seq<string>) {
    || |a| == 0
    || (&& |b| > 0
        && ((a[0] == b[0] && IsSubsequence(a[1..], b[1..])) || IsSubsequence(a, b[1..])))
  }

  /** The queries the loop over the report queues as negative keywords, in
      report order. */
  function Classify(queries: seq<string>, keywords: seq<string>, threshold: int): (r: seq<string>)
    ensures |r| <= |queries|
    ensures IsSubsequence(r, queries)
    ensures forall q :: q in r <==> q in queries && FullCount(q, keywords) < threshold
  {
    if |queries| == 0 then []
    else
      var rest := Classify(queries[1..], keywords, threshold);
      assert forall q :: q in queries <==> q == queries[0] || q in queries[1..];
      if MatchCount(queries[0], keywords, threshold) < threshold then
        assert ([queries[0]] + rest)[1..] == rest;
        [queries[0]] + rest
      else
        rest
  }

  /** Classifying a report in two parts and concatenating gives the same
      queue: the decision for each query depends on that query alone. */
  lemma {:induction false} ClassifyAppend(a: seq<string>, b: seq<string>, keywords: seq<string>, threshold: int)
    ensures Classify(a + b, keywords, threshold)
            == Classify(a, keywords, threshold) + Classify(b, keywords, threshold)
  {
    if |a| == 0 {
      assert a + b == b;
    } else {
      assert (a + b)[0] == a[0];
      assert (a + b)[1..] == a[1..] + b;
      ClassifyAppend(a[1..], b, keywords, threshold);
    }
  }

  /** A query occurs in the queue exactly as often as in the report when its
      full count is below the threshold, and not at all otherwise: no query
      is deduplicated or dropped. */
  lemma {:induction false} ClassifyMultiplicity(queries: seq<string>, keywords: seq<string>, threshold: int, q: string)
    ensures multiset(Classify(queries, keywords, threshold))[q]
            == if FullCount(q, keywords) < threshold then multiset(queries)[q] else 0
  {
    if |queries| > 0 {
      ClassifyMultiplicity(queries[1..], keywords, threshold, q);
      assert queries == [queries[0]] + queries[1..];
      assert multiset(queries) == multiset([queries[0]]) + multiset(queries[1..]);
      var rest := Classify(queries[1..], keywords, threshold);
      if MatchCount(queries[0], keywords, threshold) < threshold {
        assert multiset([queries[0]] + rest) == multiset([queries[0]]) + multiset(rest);
      }
    }
  }

  /** Encodes every queued query, or fails with the script's message. An
      empty queue never fails. */
  function EncodeAll(negs: seq<string>, setting: string): (r: Result<seq<string>>)
    ensures r.Err? <==> |negs| > 0 && ParseMatchType(setting).Err?
    ensures r.Err? ==> r.message == NotRecognised
    ensures r.Ok? ==> |r.value| == |negs|
    ensures r.Ok? ==> forall i :: 0 <= i < |negs| ==> AddMatchType(negs[i], setting) == Ok(r.value[i])
  {
    if |negs| == 0 then Ok([])
    else
      var first := AddMatchType(negs[0], setting);
      if first.Err? then Err(first.message)
      else
        var rest := EncodeAll(negs[1..], setting);
        if rest.Err? then rest
        else
          var encoded := [first.value] + rest.value;
          assert forall i :: 1 <= i < |negs| ==> negs[i] == negs[1..][i - 1] && encoded[i] == rest.value[i - 1];
          Ok(encoded)
  }

  /** The submission loop: each queued query is encoded and handed to the
      platform in turn, and an unrecognised setting throws. `created` lists
      the keywords handed over; because the setting is the same for every
      query, a throw happens on the first query, before anything is
      created. */
  method SubmitNegatives(negs: seq<string>, setting: string) returns (created: seq<string>, thrown: bool)
    ensures thrown <==> |negs| > 0 && ParseMatchType(setting).Err?
    ensures thrown ==> created == []
    ensures !thrown ==> EncodeAll(negs, setting) == Ok(created)
  {
    created := [];
    thrown := false;
    var i := 0;
    while i < |negs|
      invariant 0 <= i <= |negs|
      invariant 0 < i ==> ParseMatchType(setting).Ok?
      invariant |created| == i
      invariant forall j :: 0 <= j < i ==> AddMatchType(negs[j], setting) == Ok(created[j])
    {
      var neg := AddMatchType(negs[i], setting);
      if neg.Err? {
        thrown := true;
        return;
      }
      EncodedPrefixGrows(negs, setting, created, neg.value);
      created := created + [neg.value];
      i := i + 1;
    }
    EncodeAllMatches(negs, setting, created);
  }

  /** One more encoded query extends the encoded prefix. */
  lemma {:induction false} EncodedPrefixGrows(negs: seq<string>, setting: string, created: seq<string>, v: string)
    requires |created| < |negs|
    requires forall j :: 0 <= j < |created| ==> AddMatchType(negs[j], setting) == Ok(created[j])
    requires AddMatchType(negs[|created|], setting) == Ok(v)
    ensures forall j :: 0 <= j < |created| + 1 ==> AddMatchType(negs[j], setting) == Ok((created + [v])[j])
  {
    forall j | 0 <= j < |created| + 1
      ensures AddMatchType(negs[j], setting) == Ok((created + [v])[j])
    {
      if j < |created| {
        assert (created + [v])[j] == created[j];
      } else {
        assert (created + [v])[j] == v;
      }
    }
  }

  /** Encoding succeeds on every query with the results the loop produced. */
  lemma {:induction false} EncodeAllMatches(negs: seq<string>, setting: string, encoded: seq<string>)
    requires |encoded| == |negs|
    requires forall j :: 0 <= j < |negs| ==> AddMatchType(negs[j], setting) == Ok(encoded[j])
    ensures EncodeAll(negs, setting) == Ok(encoded)
  {
    var r := EncodeAll(negs, setting);
    if |negs| > 0 {
      assert AddMatchType(negs[0], setting).Ok?;
      assert r.Ok?;
      assert r.value == encoded;
    }
  }

  /** One campaign or ad-group pass: classify the report's queries and
      encode the queue. It fails only when some query is queued and the
      setting names no match type; otherwise it yields one encoded keyword
      per queued query, in report order. */
  function ProcessPass(queries: seq<string>, keywords: seq<string>, threshold: int, setting: string): (r: Result<seq<string>>)
    ensures r.Err? <==> ParseMatchType(setting).Err?
                        && exists q :: q in queries && FullCount(q, keywords) < threshold
    ensures r.Ok? ==> && |r.value| == |Classify(queries, keywords, threshold)|
                      && forall i :: 0 <= i < |r.value| ==>
                           AddMatchType(Classify(queries, keywords, threshold)[i], setting) == Ok(r.value[i])
  {
    var negs := Classify(queries, keywords, threshold);
    assert |negs| > 0 <==> exists q :: q in queries && FullCount(q, keywords) < threshold by {
      if |negs| > 0 {
        assert negs[0] in negs;
      }
    }
    EncodeAll(negs, setting)
  }

  /** With the keywords "red" and "running" and a threshold of two, a query
      holding both is spared and a query holding only "red" is queued. */
  lemma ThresholdExample()
    ensures FullCount("red running shoes", ["red", "running"]) == 2
    ensures FullCount("red shoes", ["red", "running"]) == 1
    ensures Classify(["red running shoes", "red shoes"], ["red", "running"], 2) == ["red shoes"]
  {
    RedRunningShoesCount();
    RedShoesCount();
    var qs := ["red running shoes", "red shoes"];
    assert qs[1..] == ["red shoes"];
    assert qs[1..][1..] == [];
  }

  lemma RedRunningShoesCount()
    ensures FullCount("red running shoes", ["red", "running"]) == 2
  {
    var q := "red running shoes";
    assert OccursAt(q, "red", 0);
    FirstOccurrenceDecides(q, "red", 0);
    assert OccursAt(q, "running", 4);
    MismatchAt(q, "running", 0, 1);
    MismatchAt(q, "running", 1, 0);
    MismatchAt(q, "running", 2, 0);
    MismatchAt(q, "running", 3, 0);
    FirstOccurrenceDecides(q, "running", 4);
    assert ["red", "running"][1..] == ["running"];
  }

  lemma RedShoesCount()
    ensures FullCount("red shoes", ["red", "running"]) == 1
  {
    assert OccursAt("red shoes", "red", 0);
    FirstOccurrenceDecides("red shoes", "red", 0);
    assert ["red", "running"][1..] == ["running"];
  }
}

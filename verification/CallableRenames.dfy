/** Seeding the matching with renamed callables before positional matching can take their nodes. */
module CallableRenames {
  import opened Common

  /** A pair of ids: an old callable and the new one it may have become. */
  type Edge = (string, string)

  /** What the trees and the source text say about a pair. */
  datatype Evidence = Evidence(plausible: Edge -> bool, sameBody: Edge -> bool)

  ghost predicate OneToOne(pairs: seq<Edge>) {
    forall i, j :: 0 <= i < j < |pairs| ==> pairs[i].0 != pairs[j].0 && pairs[i].1 != pairs[j].1
  }

  ghost predicate Distinct<T>(xs: seq<T>) {
    forall i, j :: 0 <= i < j < |xs| ==> xs[i] != xs[j]
  }

  predicate Touches(a: Edge, b: Edge) {
    a.0 == b.0 || a.1 == b.1
  }

  /** Plausible pairs of unoccupied entities. */
  ghost predicate IsCandidate(e: Evidence, olds: seq<string>, news: seq<string>, pairs: seq<Edge>, c: Edge) {
    && c.0 in olds && c.1 in news && e.plausible(c)
    && forall p :: p in pairs ==> !Touches(p, c)
  }

  /** A weak candidate does not compete with an exact body at either end. */
  ghost predicate IsContender(e: Evidence, olds: seq<string>, news: seq<string>, pairs: seq<Edge>, c: Edge) {
    && IsCandidate(e, olds, news, pairs, c)
    && (e.sameBody(c) || forall x :: IsCandidate(e, olds, news, pairs, x) && e.sameBody(x) ==> !Touches(x, c))
  }

  /** The pairs that are seeded: contenders without a rival at either end. */
  ghost predicate IsSeed(e: Evidence, olds: seq<string>, news: seq<string>, pairs: seq<Edge>, c: Edge) {
    && IsContender(e, olds, news, pairs, c)
    && forall x :: IsContender(e, olds, news, pairs, x) && Touches(x, c) ==> x == c
  }

  predicate Free(pairs: seq<Edge>, c: Edge) {
    forall i :: 0 <= i < |pairs| ==> !Touches(pairs[i], c)
  }

  lemma {:induction false} FreeMeans(pairs: seq<Edge>, c: Edge)
    ensures Free(pairs, c) <==> forall p :: p in pairs ==> !Touches(p, c)
  {
    if Free(pairs, c) {
      forall p | p in pairs ensures !Touches(p, c) {}
    } else {
      var i :| 0 <= i < |pairs| && Touches(pairs[i], c);
      assert pairs[i] in pairs;
    }
  }

  method Candidates(e: Evidence, olds: seq<string>, news: seq<string>, pairs: seq<Edge>) returns (found: seq<Edge>)
    requires Distinct(olds) && Distinct(news)
    ensures Distinct(found)
    ensures forall c :: c in found ==> IsCandidate(e, olds, news, pairs, c)
    ensures forall c :: IsCandidate(e, olds, news, pairs, c) ==> c in found
  {
    found := [];
    for i := 0 to |olds|
      invariant Distinct(found)
      invariant forall c :: c in found ==> c.0 in olds[..i] && IsCandidate(e, olds, news, pairs, c)
      invariant forall c: Edge :: c.0 in olds[..i] && IsCandidate(e, olds, news, pairs, c) ==> c in found
    {
      ghost var before := found;
      assert olds[..i + 1] == olds[..i] + [olds[i]];
      assert olds[i] !in olds[..i];
      for j := 0 to |news|
        invariant Distinct(found)
        invariant forall c :: c in found ==> (c in before || (c.0 == olds[i] && c.1 in news[..j])) && IsCandidate(e, olds, news, pairs, c)
        invariant forall c :: c in before ==> c in found
        invariant forall c: Edge :: c.0 == olds[i] && c.1 in news[..j] && IsCandidate(e, olds, news, pairs, c) ==> c in found
      {
        assert news[..j + 1] == news[..j] + [news[j]];
        var edge := (olds[i], news[j]);
        FreeMeans(pairs, edge);
        assert edge !in found;
        if Free(pairs, edge) && e.plausible(edge) {
          assert IsCandidate(e, olds, news, pairs, edge);
          found := found + [edge];
        }
      }
      assert news[..|news|] == news;
    }
    assert olds[..|olds|] == olds;
  }

  predicate Contends(e: Evidence, candidates: seq<Edge>, c: Edge) {
    e.sameBody(c) || forall x :: x in candidates && e.sameBody(x) ==> !Touches(x, c)
  }

  method Contenders(e: Evidence, candidates: seq<Edge>) returns (kept: seq<Edge>)
    requires Distinct(candidates)
    ensures Distinct(kept)
    ensures forall c :: c in kept ==> c in candidates && Contends(e, candidates, c)
    ensures forall c :: c in candidates && Contends(e, candidates, c) ==> c in kept
  {
    kept := [];
    for i := 0 to |candidates|
      invariant Distinct(kept)
      invariant forall c :: c in kept ==> c in candidates[..i] && Contends(e, candidates, c)
      invariant forall c :: c in candidates[..i] && Contends(e, candidates, c) ==> c in kept
    {
      assert candidates[..i + 1] == candidates[..i] + [candidates[i]];
      assert candidates[i] !in candidates[..i];
      if Contends(e, candidates, candidates[i]) {
        kept := kept + [candidates[i]];
      }
    }
    assert candidates[..|candidates|] == candidates;
  }

  /** Appends every seed once; the matching it is given stays in front. */
  method SeedRenamedCallables(e: Evidence, olds: seq<string>, news: seq<string>,
                              pairs: seq<Edge>) returns (result: seq<Edge>)
    requires Distinct(olds) && Distinct(news)
    ensures pairs <= result && Distinct(result[|pairs|..])
    ensures forall c :: c in result[|pairs|..] ==> IsSeed(e, olds, news, pairs, c)
    ensures forall c :: IsSeed(e, olds, news, pairs, c) ==> c in result[|pairs|..]
  {
    var candidates := Candidates(e, olds, news, pairs);
    var contenders := Contenders(e, candidates);
    assert forall c :: c in contenders ==> IsContender(e, olds, news, pairs, c);
    assert forall c :: IsContender(e, olds, news, pairs, c) ==> c in contenders;
    hide IsContender, IsCandidate;
    var added: seq<Edge> := [];
    for i := 0 to |contenders|
      invariant Distinct(added)
      invariant forall c :: c in added ==> c in contenders[..i] && IsSeed(e, olds, news, pairs, c)
      invariant forall c :: c in contenders[..i] && IsSeed(e, olds, news, pairs, c) ==> c in added
    {
      var c := contenders[i];
      assert contenders[..i + 1] == contenders[..i] + [c];
      assert c !in contenders[..i];
      if forall x :: x in contenders && Touches(x, c) ==> x == c {
        assert IsSeed(e, olds, news, pairs, c);
        added := added + [c];
      }
    }
    assert contenders[..|contenders|] == contenders;
    result := pairs + added;
  }

  /** The seeds do not depend on the order in which entities are enumerated. */
  lemma {:induction false} SeedsIgnoreOrder(e: Evidence, olds: seq<string>, news: seq<string>, olds': seq<string>,
                                            news': seq<string>,
                                            pairs: seq<Edge>, c: Edge)
    requires (forall o :: o in olds <==> o in olds') && (forall n :: n in news <==> n in news')
    ensures IsSeed(e, olds, news, pairs, c) <==> IsSeed(e, olds', news', pairs, c)
  {
    forall x ensures IsContender(e, olds, news, pairs, x) <==> IsContender(e, olds', news', pairs, x) {
      assert forall y :: IsCandidate(e, olds, news, pairs, y) <==> IsCandidate(e, olds', news', pairs, y);
    }
    hide IsContender;
  }

  /** Seeding extends a one-to-one matching to a one-to-one matching. */
  lemma {:induction false} SeedsKeepOneToOne(e: Evidence, olds: seq<string>, news: seq<string>, pairs: seq<Edge>,
                                             result: seq<Edge>)
    requires OneToOne(pairs) && pairs <= result && Distinct(result[|pairs|..])
    requires forall c :: c in result[|pairs|..] ==> IsSeed(e, olds, news, pairs, c)
    ensures OneToOne(result)
  {
    var added := result[|pairs|..];
    forall i, j | 0 <= i < j < |result| ensures !Touches(result[i], result[j]) {
      if j >= |pairs| {
        assert added[j - |pairs|] == result[j] && added[j - |pairs|] in added;
        if i < |pairs| {
          assert result[i] in pairs;
        } else {
          assert added[i - |pairs|] == result[i] && added[i - |pairs|] in added;
        }
      }
    }
  }

  /** The only exact body at both of its ends is seeded, however many weaker candidates there are. */
  lemma {:induction false} UniqueExactBodyIsSeeded(e: Evidence, olds: seq<string>, news: seq<string>,
                                                   pairs: seq<Edge>, c: Edge)
    requires IsCandidate(e, olds, news, pairs, c) && e.sameBody(c)
    ensures IsSeed(e, olds, news, pairs, c) <==>
            forall x :: IsCandidate(e, olds, news, pairs, x) && e.sameBody(x) && Touches(x, c) ==> x == c
  {
    forall x | IsContender(e, olds, news, pairs, x) && Touches(x, c) ensures e.sameBody(x) {
      assert Touches(c, x);
    }
    forall x | IsCandidate(e, olds, news, pairs, x) && e.sameBody(x) ensures IsContender(e, olds, news, pairs, x) {}
  }

  /** A weaker pair is seeded only where no exact body touches it and no other pair rivals it. */
  lemma {:induction false} WeakSeedHasNoRival(e: Evidence, olds: seq<string>, news: seq<string>, pairs: seq<Edge>,
                                              c: Edge, rival: Edge)
    requires IsSeed(e, olds, news, pairs, c) && !e.sameBody(c)
    requires IsCandidate(e, olds, news, pairs, rival) && Touches(rival, c)
    ensures rival == c || (!e.sameBody(rival) &&
              exists x :: IsCandidate(e, olds, news, pairs, x) && e.sameBody(x) && Touches(x, rival) && !Touches(x, c))
  {
    if rival != c {
      assert !IsContender(e, olds, news, pairs, rival);
      var x :| IsCandidate(e, olds, news, pairs, x) && e.sameBody(x) && Touches(x, rival);
    }
  }
}

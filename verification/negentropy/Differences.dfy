// Set differences of two sorted vectors, and which part of them a message
// still leaves to be settled.
module Differences {
  import opened Items
  import opened Messages
  import opened Splitting
  import opened Reconciling

  // The items of xs that ys does not hold.
  ghost function Minus(xs: seq<Item>, ys: seq<Item>): seq<Item> {
    if xs == [] then []
    else (if xs[0] in ys then [] else [xs[0]]) + Minus(xs[1..], ys)
  }

  // The ids of those of ds that lie in [lo, hi).
  ghost function IdsBetween(ds: seq<Item>, lo: Item, hi: Item): multiset<string> {
    multiset(Ids(Between(ds, lo, hi)))
  }

  // The ids of ds in the ranges of m that are not skipped.
  ghost function Open(ds: seq<Item>, m: seq<Range>, lo: Item): multiset<string> {
    if m == [] then multiset{}
    else
      (if m[0].payload.Skip? then multiset{} else IdsBetween(ds, lo, m[0].bound)) +
      Open(ds, m[1..], m[0].bound)
  }

  lemma {:induction false} OpenAppend(ds: seq<Item>, m: seq<Range>, m': seq<Range>, lo: Item)
    ensures Open(ds, m + m', lo) == Open(ds, m, lo) + Open(ds, m', LastBound(m, lo))
  {
    hide IdsBetween;
    if m == [] {
      assert m + m' == m';
    } else {
      assert (m + m')[0] == m[0] && (m + m')[1..] == m[1..] + m';
      OpenAppend(ds, m[1..], m', m[0].bound);
    }
  }

  lemma BetweenMembers(xs: seq<Item>, lo: Item, hi: Item, x: Item)
    ensures x in Between(xs, lo, hi) <==> x in xs && InRange(x, lo, hi)
  {
    hide InRange;
  }

  lemma IdsOfConcat(xs: seq<Item>, ys: seq<Item>)
    ensures Ids(xs + ys) == Ids(xs) + Ids(ys)
  {
  }

  lemma IdsBetweenFirst(ds: seq<Item>, lo: Item, hi: Item)
    requires ds != []
    ensures IdsBetween(ds, lo, hi) ==
            (if InRange(ds[0], lo, hi) then multiset{ds[0].id} else multiset{}) + IdsBetween(ds[1..], lo, hi)
  {
    hide InRange;
    if InRange(ds[0], lo, hi) {
      IdsOfConcat([ds[0]], Between(ds[1..], lo, hi));
      assert Ids([ds[0]]) == [ds[0].id];
      assert Ids(Between(ds, lo, hi)) == [ds[0].id] + Ids(Between(ds[1..], lo, hi));
    } else {
      assert Between(ds, lo, hi) == Between(ds[1..], lo, hi);
    }
  }

  lemma InRangeSplits(x: Item, lo: Item, mid: Item, hi: Item)
    requires !Less(mid, lo) && !Less(hi, mid)
    ensures InRange(x, lo, hi) <==> InRange(x, lo, mid) || InRange(x, mid, hi)
    ensures !(InRange(x, lo, mid) && InRange(x, mid, hi))
  {
    hide Less;
    LessIsTransitive(lo, mid, x);
    LessIsTransitive(mid, x, hi);
    LessIsTransitive(x, mid, hi);
    LessIsTransitive(lo, mid, hi);
  }

  lemma {:induction false} IdsBetweenSplits(ds: seq<Item>, lo: Item, mid: Item, hi: Item)
    requires !Less(mid, lo) && !Less(hi, mid)
    ensures IdsBetween(ds, lo, hi) == IdsBetween(ds, lo, mid) + IdsBetween(ds, mid, hi)
  {
    hide Less, InRange;
    if ds == [] {
      assert Between(ds, lo, hi) == Between(ds, lo, mid) == Between(ds, mid, hi) == [];
    } else {
      IdsBetweenSplits(ds[1..], lo, mid, hi);
      InRangeSplits(ds[0], lo, mid, hi);
      IdsBetweenFirst(ds, lo, hi);
      IdsBetweenFirst(ds, lo, mid);
      IdsBetweenFirst(ds, mid, hi);
    }
  }

  lemma {:induction false} IdsBetweenEmpty(ds: seq<Item>, lo: Item)
    ensures IdsBetween(ds, lo, lo) == multiset{}
  {
    hide Less;
    if ds != [] {
      IdsBetweenEmpty(ds[1..], lo);
      IdsBetweenFirst(ds, lo, lo);
    }
  }

  // A list of unskipped ranges, one after the other, is open as a whole.
  ghost predicate Covers(m: seq<Range>, lo: Item) {
    m == [] || (!m[0].payload.Skip? && !Less(m[0].bound, lo) && Covers(m[1..], m[0].bound))
  }

  lemma {:induction false} CoversAppendOne(m: seq<Range>, r: Range, lo: Item)
    ensures Covers(m + [r], lo) <==> Covers(m, lo) && !r.payload.Skip? && !Less(r.bound, LastBound(m, lo))
  {
    hide Less;
    if m == [] {
      assert (m + [r])[1..] == [];
    } else {
      assert (m + [r])[0] == m[0] && (m + [r])[1..] == m[1..] + [r];
      CoversAppendOne(m[1..], r, m[0].bound);
    }
  }

  lemma {:induction false} CoversUpward(m: seq<Range>, lo: Item)
    requires Covers(m, lo)
    ensures !Less(LastBound(m, lo), lo)
  {
    hide Less;
    LessIsTotal(lo, lo);
    if m != [] {
      CoversUpward(m[1..], m[0].bound);
      LessIsTransitive(lo, m[0].bound, LastBound(m, lo));
    }
  }

  lemma {:induction false} OpenOfCover(ds: seq<Item>, m: seq<Range>, lo: Item)
    requires Covers(m, lo)
    ensures Open(ds, m, lo) == IdsBetween(ds, lo, LastBound(m, lo))
  {
    hide Less, IdsBetween;
    if m == [] {
      IdsBetweenEmpty(ds, lo);
    } else {
      OpenOfCover(ds, m[1..], m[0].bound);
      CoversUpward(m[1..], m[0].bound);
      IdsBetweenSplits(ds, lo, m[0].bound, LastBound(m, lo));
    }
  }

  lemma {:induction false} MinusMembers(xs: seq<Item>, ys: seq<Item>, x: Item)
    ensures x in Minus(xs, ys) <==> x in xs && x !in ys
  {
    if xs != [] {
      MinusMembers(xs[1..], ys, x);
      assert x in xs <==> x == xs[0] || x in xs[1..];
    }
  }

  // Where both sides hold the same, nothing is missing from either.
  lemma EqualSidesHaveNoDifference(xs: seq<Item>, ys: seq<Item>, lo: Item, hi: Item)
    requires Between(xs, lo, hi) == Between(ys, lo, hi)
    ensures IdsBetween(Minus(xs, ys), lo, hi) == multiset{}
  {
    hide InRange, Minus;
    var rest := Between(Minus(xs, ys), lo, hi);
    if rest != [] {
      var x := rest[0];
      assert x in rest;
      BetweenMembers(Minus(xs, ys), lo, hi, x);
      MinusMembers(xs, ys, x);
      BetweenMembers(xs, lo, hi, x);
      BetweenMembers(ys, lo, hi, x);
    }
  }

  ghost predicate DistinctIds(xs: seq<Item>) {
    forall i, j :: 0 <= i < j < |xs| ==> xs[i].id != xs[j].id
  }

  // An id stands for one item on both sides; as its timestamp is part of the
  // item, it stands at one place of the order.
  ghost predicate IdsAgree(xs: seq<Item>, ys: seq<Item>) {
    forall x, y :: x in xs && y in ys && x.id == y.id ==> x == y
  }

  lemma {:induction false} BetweenDistinct(xs: seq<Item>, lo: Item, hi: Item)
    requires DistinctIds(xs)
    ensures DistinctIds(Between(xs, lo, hi))
  {
    hide InRange;
    if xs != [] {
      BetweenDistinct(xs[1..], lo, hi);
      forall x | x in Between(xs[1..], lo, hi)
        ensures x.id != xs[0].id
      {
        BetweenMembers(xs[1..], lo, hi, x);
      }
    }
  }

  lemma {:induction false} MinusDistinct(xs: seq<Item>, ys: seq<Item>)
    requires DistinctIds(xs)
    ensures DistinctIds(Minus(xs, ys))
  {
    if xs != [] {
      MinusDistinct(xs[1..], ys);
      forall x | x in Minus(xs[1..], ys)
        ensures x.id != xs[0].id
      {
        MinusMembers(xs[1..], ys, x);
      }
    }
  }

  lemma {:induction false} DistinctIdsAreASet(xs: seq<Item>)
    requires DistinctIds(xs)
    ensures multiset(Ids(xs)) == multiset(IdSet(Ids(xs)))
  {
    if xs != [] {
      var id, rest := xs[0].id, xs[1..];
      DistinctIdsAreASet(rest);
      assert Ids(xs) == [id] + Ids(rest);
      assert id !in Ids(rest);
      assert IdSet(Ids(xs)) == {id} + IdSet(Ids(rest));
    }
  }

  // ----- an id list against our own items of the range -----

  // What the client tells it has: exactly its difference in the range.
  lemma {:induction false} UnlistedIsDifference(xs: seq<Item>, ys: seq<Item>, lo: Item, hi: Item, theirs: set<string>)
    requires DistinctIds(xs) && IdsAgree(xs, ys)
    requires forall x :: x in xs && InRange(x, lo, hi) ==> (x.id in theirs <==> x in ys)
    ensures multiset(Unlisted(Between(xs, lo, hi), theirs)) == IdsBetween(Minus(xs, ys), lo, hi)
    decreases |xs|
  {
    hide InRange, Minus, Between, IdsBetween, Unlisted;
    if xs == [] {
      NothingIsUnlisted(ys, lo, hi, theirs);
    } else {
      var x, rest, bs := xs[0], xs[1..], Between(xs[1..], lo, hi);
      var theirs' := if InRange(x, lo, hi) && x.id in theirs then theirs - {x.id} else theirs;
      assert forall y :: y in rest ==> y in xs && y.id != x.id;
      assert multiset(Unlisted(bs, theirs')) == IdsBetween(Minus(rest, ys), lo, hi) by {
        UnlistedIsDifference(rest, ys, lo, hi, theirs');
      }
      assert IdsBetween(Minus(xs, ys), lo, hi) ==
             (if x !in ys && InRange(x, lo, hi) then multiset{x.id} else multiset{}) +
             IdsBetween(Minus(rest, ys), lo, hi)
      by {
        DifferenceFirst(xs, ys, lo, hi);
      }
      UnlistedFirst(xs, lo, hi, theirs);
    }
  }

  lemma NothingIsUnlisted(ys: seq<Item>, lo: Item, hi: Item, theirs: set<string>)
    ensures multiset(Unlisted(Between([], lo, hi), theirs)) == IdsBetween(Minus([], ys), lo, hi) == multiset{}
  {
  }

  lemma DifferenceFirst(xs: seq<Item>, ys: seq<Item>, lo: Item, hi: Item)
    requires xs != []
    ensures IdsBetween(Minus(xs, ys), lo, hi) ==
            (if xs[0] !in ys && InRange(xs[0], lo, hi) then multiset{xs[0].id} else multiset{}) +
            IdsBetween(Minus(xs[1..], ys), lo, hi)
  {
    hide InRange, IdsBetween;
    var ds := Minus(xs, ys);
    if xs[0] in ys {
      assert ds == Minus(xs[1..], ys);
    } else {
      assert ds == [xs[0]] + Minus(xs[1..], ys) && ds[1..] == Minus(xs[1..], ys);
      IdsBetweenFirst(ds, lo, hi);
    }
  }

  lemma UnlistedFirst(xs: seq<Item>, lo: Item, hi: Item, theirs: set<string>)
    requires xs != []
    ensures var x, bs := xs[0], Between(xs[1..], lo, hi);
            multiset(Unlisted(Between(xs, lo, hi), theirs)) ==
            if !InRange(x, lo, hi) then multiset(Unlisted(bs, theirs))
            else if x.id in theirs then multiset(Unlisted(bs, theirs - {x.id}))
            else multiset{x.id} + multiset(Unlisted(bs, theirs))
  {
    hide InRange;
    var x, bs := xs[0], Between(xs[1..], lo, hi);
    if InRange(x, lo, hi) {
      assert Between(xs, lo, hi) == [x] + bs && ([x] + bs)[1..] == bs;
    } else {
      assert Between(xs, lo, hi) == bs;
    }
  }

  lemma IdSetOfBetween(ys: seq<Item>, lo: Item, hi: Item, id: string)
    ensures id in IdSet(Ids(Between(ys, lo, hi))) <==> exists y :: y in ys && InRange(y, lo, hi) && y.id == id
  {
    hide InRange, Between;
    var part := Between(ys, lo, hi);
    if id in Ids(part) {
      var i :| 0 <= i < |part| && Ids(part)[i] == id;
      BetweenMembers(ys, lo, hi, part[i]);
    }
    forall y | y in ys && InRange(y, lo, hi) && y.id == id
      ensures id in Ids(part)
    {
      BetweenMembers(ys, lo, hi, y);
      var i :| 0 <= i < |part| && part[i] == y;
      assert Ids(part)[i] == id;
    }
  }

  lemma ListedHavesAreTheDifference(xs: seq<Item>, ys: seq<Item>, lo: Item, hi: Item)
    requires DistinctIds(xs) && IdsAgree(xs, ys)
    ensures multiset(Unlisted(Between(xs, lo, hi), IdSet(Ids(Between(ys, lo, hi))))) ==
            IdsBetween(Minus(xs, ys), lo, hi)
  {
    hide InRange;
    var theirs := IdSet(Ids(Between(ys, lo, hi)));
    forall x | x in xs && InRange(x, lo, hi)
      ensures x.id in theirs <==> x in ys
    {
      IdSetOfBetween(ys, lo, hi, x.id);
    }
    UnlistedIsDifference(xs, ys, lo, hi, theirs);
  }

  // What the client is told it lacks: exactly their difference in the range.
  lemma ListedHaveNotsAreTheDifference(xs: seq<Item>, ys: seq<Item>, lo: Item, hi: Item)
    requires DistinctIds(ys) && IdsAgree(xs, ys)
    ensures multiset(IdSet(Ids(Between(ys, lo, hi))) - IdSet(Ids(Between(xs, lo, hi)))) ==
            IdsBetween(Minus(ys, xs), lo, hi)
  {
    hide InRange, Minus, Between;
    var ds := Minus(ys, xs);
    MinusDistinct(ys, xs);
    BetweenDistinct(ds, lo, hi);
    DistinctIdsAreASet(Between(ds, lo, hi));
    var missing := IdSet(Ids(Between(ys, lo, hi))) - IdSet(Ids(Between(xs, lo, hi)));
    forall id
      ensures id in missing <==> id in IdSet(Ids(Between(ds, lo, hi)))
    {
      IdSetOfBetween(ys, lo, hi, id);
      IdSetOfBetween(xs, lo, hi, id);
      IdSetOfBetween(ds, lo, hi, id);
      forall y
        ensures y in ds <==> y in ys && y !in xs
      {
        MinusMembers(ys, xs, y);
      }
    }
    assert missing == IdSet(Ids(Between(ds, lo, hi)));
  }
}

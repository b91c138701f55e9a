/**
  The raw-fact entry's completion: the list of known activities, without
  duplicates and in the order they are first met, and the per-segment list
  stores filled from it. The facts are whatever the fact store returns; the
  row each store shows for an activity is kept as the activity itself.
*/
module Completion {
  import opened Wrappers

  datatype Activity = Activity(name: string, category: Option<string>)

  datatype Fact = Fact(activity: Activity, description: string)

  predicate NoDuplicates<T(==,!new)>(xs: seq<T>)
  {
    forall i, j :: 0 <= i < j < |xs| ==> xs[i] != xs[j]
  }

  /** An ordered set built from `xs`: each element once, at its first occurrence. */
  function OrderedSet<T(==,!new)>(xs: seq<T>): (r: seq<T>)
    ensures forall x :: x in r <==> x in xs
    ensures NoDuplicates(r)
    ensures |r| <= |xs|
  {
    if xs == [] then []
    else
      var init := xs[..|xs| - 1];
      var x := xs[|xs| - 1];
      assert forall y :: y in xs <==> y in init || y == x;
      if x in init then OrderedSet(init) else OrderedSet(init) + [x]
  }

  function ActivitiesOf(facts: seq<Fact>): seq<Activity>
  {
    seq(|facts|, i requires 0 <= i < |facts| => facts[i].activity)
  }

  /** `_get_activities`: the activities of the given facts, each once. */
  function GetActivities(facts: seq<Fact>): (r: seq<Activity>)
    ensures forall a :: a in r <==> exists i :: 0 <= i < |facts| && facts[i].activity == a
    ensures NoDuplicates(r)
    ensures |r| <= |facts|
  {
    var xs := ActivitiesOf(facts);
    assert forall i :: 0 <= i < |facts| ==> xs[i] == facts[i].activity;
    OrderedSet(xs)
  }

  /** Where `x` first occurs in `xs`. */
  function FirstIndex<T(==,!new)>(xs: seq<T>, x: T): (i: nat)
    requires x in xs
    ensures i < |xs| && xs[i] == x && x !in xs[..i]
  {
    if xs[0] == x then 0 else 1 + FirstIndex(xs[1..], x)
  }

  lemma FirstIndexOfPrefix<T(!new)>(xs: seq<T>, n: nat, x: T)
    requires n <= |xs| && x in xs[..n]
    ensures FirstIndex(xs, x) == FirstIndex(xs[..n], x)
  {
    var i := FirstIndex(xs[..n], x);
    var k := FirstIndex(xs, x);
    assert xs[..n][i] == xs[i];
    assert forall j :: 0 <= j < i ==> xs[..n][..i][j] == xs[j];
    assert forall j :: 0 <= j < k ==> xs[..k][j] == xs[j];
  }

  /** The ordered set lists its elements in the order of their first occurrence. */
  lemma {:induction false} OrderedSetKeepsFirstOrder<T(!new)>(xs: seq<T>)
    ensures forall i, j :: 0 <= i < j < |OrderedSet(xs)| ==>
      FirstIndex(xs, OrderedSet(xs)[i]) < FirstIndex(xs, OrderedSet(xs)[j])
  {
    if xs != [] {
      var init := xs[..|xs| - 1];
      var x := xs[|xs| - 1];
      var r := OrderedSet(xs);
      OrderedSetKeepsFirstOrder(init);
      forall y | y in OrderedSet(init)
        ensures FirstIndex(xs, y) == FirstIndex(init, y) < |init|
      {
        FirstIndexOfPrefix(xs, |init|, y);
      }
      if x !in init {
        assert FirstIndex(xs, x) == |init| by {
          assert forall j :: 0 <= j < |init| ==> init[j] == xs[j];
        }
      }
    }
  }

  /** A list without duplicates is its own ordered set. */
  lemma {:induction false} OrderedSetOfDistinct<T(!new)>(xs: seq<T>)
    requires NoDuplicates(xs)
    ensures OrderedSet(xs) == xs
  {
    if xs != [] {
      var init := xs[..|xs| - 1];
      OrderedSetOfDistinct(init);
      assert xs[|xs| - 1] !in init;
      assert init + [xs[|xs| - 1]] == xs;
    }
  }

  /** Facts with pairwise distinct activities give one activity per fact. */
  lemma DistinctActivities(facts: seq<Fact>)
    requires NoDuplicates(ActivitiesOf(facts))
    ensures GetActivities(facts) == ActivitiesOf(facts)
    ensures |GetActivities(facts)| == |facts|
  {
    OrderedSetOfDistinct(ActivitiesOf(facts));
  }

  /** The facts `[f1, f2, f1]` give their two activities, in that order. */
  lemma RepeatedFactExample(f1: Fact, f2: Fact)
    requires f1.activity != f2.activity
    ensures GetActivities([f1, f2, f1]) == [f1.activity, f2.activity]
  {
    var xs := ActivitiesOf([f1, f2, f1]);
    assert xs == [f1.activity, f2.activity, f1.activity];
    assert xs[..2] == [f1.activity, f2.activity];
    assert xs[..2][..1] == [f1.activity];
    assert xs[..2][..1][..0] == [];
    assert OrderedSet(xs[..2][..1]) == [f1.activity];
    assert OrderedSet(xs[..2]) == [f1.activity, f2.activity];
  }

  class RawFactCompletion {
    /** One list store per entry segment, keyed by segment name. */
    var segmentModels: map<string, seq<Activity>>

    constructor(segments: set<string>)
      ensures segmentModels == map s | s in segments :: []
    {
      segmentModels := map s | s in segments :: [];
    }

    /** `_populate_stores`: every store cleared, then given one row per activity. */
    method PopulateStores(facts: seq<Fact>)
      modifies this
      ensures segmentModels.Keys == old(segmentModels).Keys
      ensures forall s :: s in segmentModels ==> segmentModels[s] == GetActivities(facts)
    {
      var activities := GetActivities(facts);
      var todo := segmentModels.Keys;
      while todo != {}
        invariant todo <= segmentModels.Keys == old(segmentModels).Keys
        invariant forall s :: s in segmentModels && s !in todo ==> segmentModels[s] == activities
        decreases todo
      {
        var segment :| segment in todo;
        segmentModels := segmentModels[segment := []];
        var i := 0;
        while i < |activities|
          invariant 0 <= i <= |activities|
          invariant segmentModels.Keys == old(segmentModels).Keys
          invariant segmentModels[segment] == activities[..i]
          invariant forall s :: s in segmentModels && s !in todo ==> segmentModels[s] == activities
        {
          segmentModels := segmentModels[segment := segmentModels[segment] + [activities[i]]];
          i := i + 1;
        }
        assert activities[..i] == activities;
        todo := todo - {segment};
      }
    }
  }
}

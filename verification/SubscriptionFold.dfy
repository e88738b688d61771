/** One subscription's position: the greatest cursor folded in, and what was first seen there. */
module SubscriptionFold {
  import opened Bytes
  import opened CursorOrder

  datatype Fact = Fact(generation: nat, digest: Text, cursor: Text, subscription: Text)

  datatype Fold = Fold(digest: Option<Text>, cursor: Option<Text>, generation: nat, subscription: Text)

  datatype Disposition = Advanced | ExactReplay | StaleCursorOnly | IntegrityConflict

  datatype Outcome = Folded(disposition: Disposition, next: Fold) | AnotherSubscription | AnotherGeneration

  function Opened(subscription: Text, generation: nat): Fold { Fold(None, None, generation, subscription) }

  function Taking(fold: Fold, fact: Fact): Fold { fold.(digest := Some(fact.digest), cursor := Some(fact.cursor)) }

  function FoldIn(fold: Fold, fact: Fact): Outcome {
    if fact.subscription != fold.subscription then AnotherSubscription
    else if fact.generation != fold.generation then AnotherGeneration
    else if fold.cursor.None? then Folded(Advanced, Taking(fold, fact))
    else match Compare(fact.cursor, fold.cursor.value)
      case Greater => Folded(Advanced, Taking(fold, fact))
      case Less => Folded(StaleCursorOnly, fold)
      case Equal => Folded(if fold.digest == Some(fact.digest) then ExactReplay else IntegrityConflict, fold)
  }

  function Run(fold: Fold, facts: seq<Fact>): Fold {
    if facts == [] then fold
    else
      var before := Run(fold, facts[..|facts| - 1]);
      match FoldIn(before, facts[|facts| - 1]) case Folded(_, next) => next case _ => before
  }

  predicate Belongs(facts: seq<Fact>, subscription: Text, generation: nat) {
    forall i :: 0 <= i < |facts| ==> facts[i].subscription == subscription && facts[i].generation == generation
  }

  /** The first fact at the greatest cursor. */
  predicate Leads(facts: seq<Fact>, i: nat) {
    && i < |facts|
    && (forall j :: 0 <= j < i ==> Compare(facts[j].cursor, facts[i].cursor) == Less)
    && (forall j :: i <= j < |facts| ==> Compare(facts[j].cursor, facts[i].cursor) != Greater)
  }

  /** Any non-empty run of one subscription's facts ends at the greatest cursor with the digest first seen there. */
  lemma {:induction false} EndsAtGreatest(facts: seq<Fact>, subscription: Text, generation: nat) returns (i: nat)
    requires Belongs(facts, subscription, generation) && facts != []
    ensures Leads(facts, i)
    ensures Run(Opened(subscription, generation), facts) ==
            Fold(Some(facts[i].digest), Some(facts[i].cursor), generation, subscription)
    decreases |facts|
  {
    hide Compare;
    var before, last := facts[..|facts| - 1], facts[|facts| - 1];
    EqualIff(last.cursor, last.cursor);
    if before == [] {
      assert Run(Opened(subscription, generation), before) == Opened(subscription, generation);
      i := 0;
    } else {
      i := EndsAtGreatest(before, subscription, generation);
      if Compare(last.cursor, facts[i].cursor) == Greater {
        forall j | 0 <= j < |before| ensures Compare(facts[j].cursor, last.cursor) == Less {
          EqualIff(last.cursor, facts[i].cursor);
          assert facts[j] == before[j];
          Below(facts[j].cursor, facts[i].cursor, last.cursor);
        }
        i := |before|;
      } else {
        forall j | i <= j < |facts| ensures Compare(facts[j].cursor, facts[i].cursor) != Greater {
          if j < |before| { assert facts[j] == before[j]; }
        }
      }
    }
  }

  lemma Below(a: Text, b: Text, c: Text)
    requires Compare(a, b) != Greater && Compare(b, c) == Less
    ensures Compare(a, c) == Less
  {
    hide Compare;
    EqualIff(a, b);
    if a != b { Transitive(a, b, c); }
  }

  /**
   * A conflict is reported exactly when a fact repeats the greatest cursor so far with another digest than
   * its first.
   */
  lemma ConflictIff(facts: seq<Fact>, subscription: Text, generation: nat, k: nat) returns (i: nat)
    requires Belongs(facts, subscription, generation) && 0 < k < |facts|
    ensures i < k && Leads(facts[..k], i)
    ensures FoldIn(Run(Opened(subscription, generation), facts[..k]), facts[k]) ==
            Folded(IntegrityConflict, Run(Opened(subscription, generation), facts[..k]))
       <==> facts[k].cursor == facts[i].cursor && facts[k].digest != facts[i].digest
  {
    hide Compare;
    i := EndsAtGreatest(facts[..k], subscription, generation);
    assert facts[..k][i] == facts[i];
    EqualIff(facts[k].cursor, facts[i].cursor);
  }

  /** What becomes of a fact, by the facts before it and the first of them at the greatest cursor. */
  lemma DisposedIff(facts: seq<Fact>, subscription: Text, generation: nat, k: nat) returns (i: nat)
    requires Belongs(facts, subscription, generation) && 0 < k < |facts|
    ensures i < k && Leads(facts[..k], i)
    ensures var before := Run(Opened(subscription, generation), facts[..k]);
            var outcome := FoldIn(before, facts[k]);
            && (outcome == Folded(StaleCursorOnly, before) <==> Compare(facts[k].cursor, facts[i].cursor) == Less)
            && (outcome == Folded(ExactReplay, before) <==>
                  facts[k].cursor == facts[i].cursor && facts[k].digest == facts[i].digest)
            && (outcome.Folded? && outcome.disposition == Advanced <==>
                  forall j :: 0 <= j < k ==> Compare(facts[k].cursor, facts[j].cursor) == Greater)
            && (outcome.Folded? && outcome.disposition == Advanced ==>
                  outcome.next == Fold(Some(facts[k].digest), Some(facts[k].cursor), generation, subscription))
  {
    hide Compare;
    i := EndsAtGreatest(facts[..k], subscription, generation);
    assert facts[..k][i] == facts[i];
    EqualIff(facts[k].cursor, facts[i].cursor);
    if Compare(facts[k].cursor, facts[i].cursor) == Greater {
      forall j | 0 <= j < k ensures Compare(facts[k].cursor, facts[j].cursor) == Greater {
        assert facts[..k][j] == facts[j];
        Below(facts[j].cursor, facts[i].cursor, facts[k].cursor);
        EqualIff(facts[j].cursor, facts[k].cursor);
      }
    }
  }

  /** The first fact of its subscription is always taken. */
  lemma FirstIsTaken(fact: Fact)
    ensures FoldIn(Opened(fact.subscription, fact.generation), fact) ==
            Folded(Advanced, Fold(Some(fact.digest), Some(fact.cursor), fact.generation, fact.subscription))
  {
  }

  /** What stands at a position is decided by the position. */
  predicate Functional(facts: seq<Fact>) {
    forall i, j :: 0 <= i < |facts| && 0 <= j < |facts| && facts[i].cursor == facts[j].cursor ==>
        facts[i].digest == facts[j].digest
  }

  /** Then no run reports a conflict. */
  lemma NoConflict(facts: seq<Fact>, subscription: Text, generation: nat, k: nat)
    requires Belongs(facts, subscription, generation) && Functional(facts) && k < |facts|
    ensures var outcome := FoldIn(Run(Opened(subscription, generation), facts[..k]), facts[k]);
            outcome.Folded? && outcome.disposition != IntegrityConflict
  {
    hide Compare;
    var before := facts[..k];
    if k > 0 {
      var i := EndsAtGreatest(before, subscription, generation);
      assert before[i] == facts[i];
      EqualIff(facts[k].cursor, facts[i].cursor);
    }
  }

  function FactSet(facts: seq<Fact>): set<Fact> { set f | f in facts }

  /** And the same set of facts gives the same fold, in whatever order and however often they come. */
  lemma SameFactsSameFold(a: seq<Fact>, b: seq<Fact>, subscription: Text, generation: nat)
    requires Belongs(a, subscription, generation) && Belongs(b, subscription, generation)
    requires Functional(a) && FactSet(a) == FactSet(b)
    ensures Run(Opened(subscription, generation), a) == Run(Opened(subscription, generation), b)
  {
    hide Compare;
    SameEmptiness(a, b);
    if a != [] {
      var i := EndsAtGreatest(a, subscription, generation);
      var j := EndsAtGreatest(b, subscription, generation);
      var k := Elsewhere(a, b, j);
      var m := Elsewhere(b, a, i);
      EqualIff(a[k].cursor, a[i].cursor);
      EqualIff(b[m].cursor, b[j].cursor);
      NotAbove(a, i, k);
      NotAbove(b, j, m);
      assert a[i].cursor == a[k].cursor;
    }
  }

  lemma NotAbove(facts: seq<Fact>, i: nat, j: nat)
    requires Leads(facts, i) && j < |facts|
    ensures Compare(facts[j].cursor, facts[i].cursor) != Greater
  {
    hide Compare;
  }

  lemma Elsewhere(a: seq<Fact>, b: seq<Fact>, j: nat) returns (k: nat)
    requires FactSet(a) == FactSet(b) && j < |b|
    ensures k < |a| && a[k] == b[j]
  {
    assert b[j] in FactSet(b);
    assert b[j] in a;
    k :| 0 <= k < |a| && a[k] == b[j];
  }

  lemma SameEmptiness(a: seq<Fact>, b: seq<Fact>)
    requires FactSet(a) == FactSet(b)
    ensures a == [] <==> b == []
  {
    if a != [] { assert a[0] in FactSet(a) && a[0] in b; }
    if b != [] { assert b[0] in FactSet(b) && b[0] in a; }
  }

  /** Which facts a fold has no business with, the subscription asked first. */
  lemma ForeignIff(fold: Fold, fact: Fact)
    ensures FoldIn(fold, fact) == AnotherSubscription <==> fact.subscription != fold.subscription
    ensures FoldIn(fold, fact) == AnotherGeneration <==>
              fact.subscription == fold.subscription && fact.generation != fold.generation
  {
  }

  function Own(facts: seq<Fact>, subscription: Text, generation: nat): seq<Fact> {
    if facts == [] then []
    else
      var f := facts[|facts| - 1];
      Own(facts[..|facts| - 1], subscription, generation) +
      (if f.subscription == subscription && f.generation == generation then [f] else [])
  }

  /** Facts of other subscriptions and generations leave no trace, wherever they come. */
  lemma {:induction false} ForeignLeavesNoTrace(facts: seq<Fact>, subscription: Text, generation: nat)
    ensures Run(Opened(subscription, generation), facts) ==
            Run(Opened(subscription, generation), Own(facts, subscription, generation))
    ensures var fold := Run(Opened(subscription, generation), facts);
            fold.subscription == subscription && fold.generation == generation
    decreases |facts|
  {
    hide Compare;
    if facts != [] {
      var before, f := facts[..|facts| - 1], facts[|facts| - 1];
      ForeignLeavesNoTrace(before, subscription, generation);
      var own := Own(before, subscription, generation);
      assert (own + [f])[..|own|] == own && own + [] == own;
    }
  }
}

/** Finding and sorting the new cases of a search (`find_new_cases`): every
    searched case that is not already in the history goes, in search order,
    into the "U.S. Criminal and Civil Cases" bucket when its title names the
    United States as a party and into "Other Cases" otherwise, and is counted. */
module NewCaseDetection {
  import opened Seqs
  import opened Cases
  import opened PartyPattern

  /** The two buckets of the result dictionary, which has no other keys. */
  datatype NewCases = NewCases(usCases: seq<Case>, otherCases: seq<Case>)

  /** `case not in history`. */
  function NotIn(history: seq<Case>): Case -> bool
  {
    c => c !in history
  }

  predicate IsUSCase(c: Case)
  {
    IsUSParty(c.title)
  }

  /** The searched cases the history does not hold, in search order and with
      repeats kept. */
  function Unseen(cases: seq<Case>, history: seq<Case>): seq<Case>
  {
    Filter(NotIn(history), cases)
  }

  /** What splitting the unseen cases by the title test gives: the buckets
      lose, add and reorder nothing, hold only unseen cases on the right side
      of the test, and together have as many elements as there are unseen
      cases. */
  lemma BucketFacts(cases: seq<Case>, history: seq<Case>)
    ensures var us := Filter(IsUSCase, Unseen(cases, history));
      var other := Filter(Not(IsUSCase), Unseen(cases, history));
      && |Unseen(cases, history)| == |us| + |other|
      && multiset(us) + multiset(other) == multiset(Unseen(cases, history))
      && (forall c :: c in us ==> c in cases && c !in history && IsUSCase(c))
      && (forall c :: c in other ==> c in cases && c !in history && !IsUSCase(c))
      && (forall c :: c in cases && c !in history && IsUSCase(c) ==> c in us)
      && (forall c :: c in cases && c !in history && !IsUSCase(c) ==> c in other)
      && Subseq(us, cases) && Subseq(other, cases)
  {
    FilterPartition(IsUSCase, Unseen(cases, history));
    FilterFilter(IsUSCase, NotIn(history), cases);
    FilterFilter(Not(IsUSCase), NotIn(history), cases);
    FilterIsSubseq(And(IsUSCase, NotIn(history)), cases);
    FilterIsSubseq(And(Not(IsUSCase), NotIn(history)), cases);
    FilterMembers(And(IsUSCase, NotIn(history)), cases);
    FilterMembers(And(Not(IsUSCase), NotIn(history)), cases);
  }

  /** The loop of `find_new_cases`. The buckets split the unseen cases by the
      title test without losing, adding or reordering any; `total` counts the
      unseen cases, repeats included. */
  method FindNewCases(cases: seq<Case>, history: seq<Case>) returns (found: NewCases, total: nat)
    ensures found.usCases == Filter(IsUSCase, Unseen(cases, history))
    ensures found.otherCases == Filter(Not(IsUSCase), Unseen(cases, history))
    ensures total == |Unseen(cases, history)|
    ensures total == |found.usCases| + |found.otherCases|
    ensures multiset(found.usCases) + multiset(found.otherCases) == multiset(Unseen(cases, history))
    ensures forall c :: c in found.usCases ==> c in cases && c !in history && IsUSCase(c)
    ensures forall c :: c in found.otherCases ==> c in cases && c !in history && !IsUSCase(c)
    ensures forall c :: c in cases && c !in history && IsUSCase(c) ==> c in found.usCases
    ensures forall c :: c in cases && c !in history && !IsUSCase(c) ==> c in found.otherCases
    ensures Subseq(found.usCases, cases) && Subseq(found.otherCases, cases)
  {
    var us: seq<Case> := [];
    var other: seq<Case> := [];
    total := 0;
    for i := 0 to |cases|
      invariant us == Filter(IsUSCase, Unseen(cases[..i], history))
      invariant other == Filter(Not(IsUSCase), Unseen(cases[..i], history))
      invariant total == |Unseen(cases[..i], history)|
    {
      var c := cases[i];
      var before := Unseen(cases[..i], history);
      assert cases[..i + 1] == cases[..i] + [c];
      FilterSnoc(NotIn(history), cases[..i], c);
      if c !in history {
        assert Unseen(cases[..i + 1], history) == before + [c];
        FilterSnoc(IsUSCase, before, c);
        FilterSnoc(Not(IsUSCase), before, c);
        if IsUSCase(c) {
          assert Filter(IsUSCase, before + [c]) == us + [c];
          assert Filter(Not(IsUSCase), before + [c]) == other;
          us := us + [c];
        } else {
          assert Filter(IsUSCase, before + [c]) == us;
          assert Filter(Not(IsUSCase), before + [c]) == other + [c];
          other := other + [c];
        }
        total := total + 1;
      } else {
        assert Unseen(cases[..i + 1], history) == before;
      }
    }
    assert cases[..|cases|] == cases;
    found := NewCases(us, other);
    BucketFacts(cases, history);
  }

  /** The counting example: with history `[a, b]` and search `[a, c]`, where
      `c` is neither `a` nor `b`, only `c` is new. */
  lemma UnseenExample(a: Case, b: Case, c: Case)
    requires c != a && c != b
    ensures Unseen([a, c], [a, b]) == [c]
  {
    var seen := NotIn([a, b]);
    assert !seen(a) && seen(c);
    assert [a, c][1..] == [c];
    assert [c][1..] == [];
    assert Filter(seen, [c]) == [c];
  }

  /** Each unseen case is in exactly one bucket, as often as it was searched;
      a case in the history is in neither. */
  lemma BucketsPartitionUnseen(cases: seq<Case>, history: seq<Case>, c: Case)
    ensures var us := Filter(IsUSCase, Unseen(cases, history));
      var other := Filter(Not(IsUSCase), Unseen(cases, history));
      && multiset(us)[c] + multiset(other)[c] == (if c in history then 0 else multiset(cases)[c])
      && (multiset(us)[c] == 0 || multiset(other)[c] == 0)
  {
    FilterMultiset(NotIn(history), cases, c);
    FilterMultiset(IsUSCase, Unseen(cases, history), c);
    FilterMultiset(Not(IsUSCase), Unseen(cases, history), c);
  }
}

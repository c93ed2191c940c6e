/** The search over loaded rules: a rule is kept when the lower-cased query occurs in
    its lower-cased name or in its lower-cased context comment; the order of the loaded
    rules is kept and a load error is passed on. */
module RuleService {
  import opened Wrappers
  import opened Text
  import opened Models
  import RuleRepository

  /** The filter condition for a query already lower-cased. A missing name or comment
      never matches, not even the empty query. */
  predicate Matches(r: EnrichedRule, queryLower: string) {
    (r.data.name.Some? && Contains(ToLowerAscii(r.data.name.value), queryLower))
    || (r.contextComment.Some? && Contains(ToLowerAscii(r.contextComment.value), queryLower))
  }

  /** The rules that match, in their original order. */
  function Filter(rules: seq<EnrichedRule>, queryLower: string): (kept: seq<EnrichedRule>)
    ensures forall r :: r in kept <==> r in rules && Matches(r, queryLower)
    ensures |kept| <= |rules|
    decreases |rules|
  {
    if rules == [] then []
    else (if Matches(rules[0], queryLower) then [rules[0]] else []) + Filter(rules[1..], queryLower)
  }

  /** The search over an already loaded rule list, or the error of the load. */
  function SearchRules(loaded: Result<seq<EnrichedRule>, RuleRepository.LoadError>, query: string)
    : (r: Result<seq<EnrichedRule>, RuleRepository.LoadError>)
    ensures loaded.Failure? ==> r == Failure(loaded.error)
    ensures loaded.Success? ==> r.Success?
    ensures loaded.Success? ==> forall x :: x in r.value <==> x in loaded.value && Matches(x, ToLowerAscii(query))
  {
    match loaded
    case Failure(e) => Failure(e)
    case Success(rules) => Success(Filter(rules, ToLowerAscii(query)))
  }

  // ---------------------------------------------------------------------------
  // Properties
  // ---------------------------------------------------------------------------

  /** Every position one further on. */
  function Shift(pos: seq<nat>): (r: seq<nat>)
    ensures |r| == |pos| && forall k :: 0 <= k < |pos| ==> r[k] == pos[k] + 1
  {
    seq(|pos|, k requires 0 <= k < |pos| => pos[k] + 1)
  }

  /** The positions of the matching rules, in increasing order. */
  function KeptPositions(rules: seq<EnrichedRule>, queryLower: string): seq<nat>
    decreases |rules|
  {
    if rules == [] then []
    else (if Matches(rules[0], queryLower) then [0] else []) + Shift(KeptPositions(rules[1..], queryLower))
  }

  /** `kept` is `rules` read at the positions `pos`. */
  ghost predicate PicksAt(kept: seq<EnrichedRule>, pos: seq<nat>, rules: seq<EnrichedRule>) {
    |pos| == |kept| && forall k :: 0 <= k < |pos| ==> pos[k] < |rules| && kept[k] == rules[pos[k]]
  }

  /** Putting a rule in front keeps the picks, one position further on, and may pick
      the new rule at position 0. */
  lemma PicksAtCons(kept: seq<EnrichedRule>, pos: seq<nat>, rules: seq<EnrichedRule>, x: EnrichedRule, take: bool)
    requires PicksAt(kept, pos, rules)
    ensures PicksAt((if take then [x] else []) + kept, (if take then [0] else []) + Shift(pos), [x] + rules)
  {
    var d := if take then 1 else 0;
    var kept', pos', rules' := (if take then [x] else []) + kept, (if take then [0] else []) + Shift(pos), [x] + rules;
    forall k | 0 <= k < |pos'| ensures pos'[k] < |rules'| && kept'[k] == rules'[pos'[k]] {
      if k >= d {
        assert pos'[k] == pos[k - d] + 1 && kept'[k] == kept[k - d];
        assert rules'[pos[k - d] + 1] == rules[pos[k - d]];
      }
    }
  }

  /** The result is the subsequence of the loaded rules at the matching positions. */
  lemma {:induction false} KeptAtPositions(rules: seq<EnrichedRule>, queryLower: string)
    ensures PicksAt(Filter(rules, queryLower), KeptPositions(rules, queryLower), rules)
    decreases |rules|
  {
    if rules != [] {
      var tail := rules[1..];
      KeptAtPositions(tail, queryLower);
      assert rules == [rules[0]] + tail;
      PicksAtCons(Filter(tail, queryLower), KeptPositions(tail, queryLower), tail, rules[0], Matches(rules[0], queryLower));
    }
  }

  /** The matching positions increase strictly: the result keeps the loaded order. */
  lemma {:induction false} KeptPositionsIncrease(rules: seq<EnrichedRule>, queryLower: string)
    ensures forall k, l :: 0 <= k < l < |KeptPositions(rules, queryLower)| ==>
              KeptPositions(rules, queryLower)[k] < KeptPositions(rules, queryLower)[l]
    decreases |rules|
  {
    if rules != [] {
      KeptPositionsIncrease(rules[1..], queryLower);
      var rest := KeptPositions(rules[1..], queryLower);
      var pos := KeptPositions(rules, queryLower);
      var d := if Matches(rules[0], queryLower) then 1 else 0;
      assert |pos| == d + |rest|;
      forall k, l | 0 <= k < l < |pos| ensures pos[k] < pos[l] {
        assert pos[l] == rest[l - d] + 1;
        if k >= d {
          assert pos[k] == rest[k - d] + 1;
          assert rest[k - d] < rest[l - d];
        } else {
          assert pos[k] == 0;
        }
      }
    }
  }

  /** A position is kept exactly when the rule there matches. */
  lemma {:induction false} KeptPositionsExact(rules: seq<EnrichedRule>, queryLower: string)
    ensures forall i :: i in KeptPositions(rules, queryLower) <==> 0 <= i < |rules| && Matches(rules[i], queryLower)
    decreases |rules|
  {
    if rules != [] {
      var tail := rules[1..];
      KeptPositionsExact(tail, queryLower);
      var rest := KeptPositions(tail, queryLower);
      var shifted := Shift(rest);
      forall i ensures i in shifted <==> 1 <= i < |rules| && Matches(rules[i], queryLower) {
        if i in shifted {
          var k :| 0 <= k < |shifted| && shifted[k] == i;
          assert rest[k] in rest;
          assert tail[i - 1] == rules[i];
        }
        if 1 <= i < |rules| && Matches(rules[i], queryLower) {
          assert tail[i - 1] == rules[i];
          assert i - 1 in rest;
          var k :| 0 <= k < |rest| && rest[k] == i - 1;
          assert shifted[k] == i;
        }
      }
    }
  }

  /** Together: the result is the loaded rules at exactly the matching positions, in
      increasing order. */
  lemma FilterIsOrderedSubsequence(rules: seq<EnrichedRule>, queryLower: string)
    ensures var kept, pos := Filter(rules, queryLower), KeptPositions(rules, queryLower);
            |pos| == |kept|
            && (forall k :: 0 <= k < |pos| ==> pos[k] < |rules| && kept[k] == rules[pos[k]])
            && (forall k, l :: 0 <= k < l < |pos| ==> pos[k] < pos[l])
            && (forall i :: i in pos <==> 0 <= i < |rules| && Matches(rules[i], queryLower))
  {
    KeptAtPositions(rules, queryLower);
    KeptPositionsIncrease(rules, queryLower);
    KeptPositionsExact(rules, queryLower);
  }

  /** Upper- and lower-case variants of a query give the same result. */
  lemma QueryCaseIgnored(loaded: Result<seq<EnrichedRule>, RuleRepository.LoadError>, query: string)
    ensures SearchRules(loaded, ToUpperAscii(query)) == SearchRules(loaded, query)
    ensures SearchRules(loaded, ToLowerAscii(query)) == SearchRules(loaded, query)
  {
    LowerOfUpper(query);
    LowerIdempotent(query);
  }

  /** A rule without a name and without a comment is never found; the empty query
      finds exactly the rules that have one of the two. */
  lemma EmptyQueryFindsNamedOrCommented(rules: seq<EnrichedRule>, query: string)
    ensures forall r :: r in Filter(rules, ToLowerAscii(query)) ==> r.data.name.Some? || r.contextComment.Some?
    ensures query == [] ==>
              forall r :: r in Filter(rules, ToLowerAscii(query)) <==>
                r in rules && (r.data.name.Some? || r.contextComment.Some?)
  {
    if query == [] {
      assert ToLowerAscii(query) == [];
      forall r | r in rules && (r.data.name.Some? || r.contextComment.Some?)
        ensures Matches(r, [])
      {
        if r.data.name.Some? {
          ContainsEmpty(ToLowerAscii(r.data.name.value));
        } else {
          ContainsEmpty(ToLowerAscii(r.contextComment.value));
        }
      }
    }
  }

  /** Searching the result of a search again with the same query changes nothing. */
  lemma {:induction false} FilterIdempotent(rules: seq<EnrichedRule>, queryLower: string)
    ensures Filter(Filter(rules, queryLower), queryLower) == Filter(rules, queryLower)
    decreases |rules|
  {
    if rules != [] {
      FilterIdempotent(rules[1..], queryLower);
      var rest := Filter(rules[1..], queryLower);
      if Matches(rules[0], queryLower) {
        var once := [rules[0]] + rest;
        assert Filter(rules, queryLower) == once;
        assert once[0] == rules[0] && once[1..] == rest;
        assert Filter(once, queryLower) == [rules[0]] + Filter(rest, queryLower);
      } else {
        assert Filter(rules, queryLower) == rest;
      }
    }
  }
}

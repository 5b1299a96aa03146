/**
 First-match-wins classification: an ordered list of (predicate, label)
 rules and a fallback label. A record gets the label of the first rule whose
 predicate it satisfies; later rules are never consulted for it.
 */
module Rules {

  datatype Rule<!R> = Rule(segment: string, holds: R -> bool)

  /** Index of the first rule that holds for `r`, or `|rules|` when none does. */
  function FirstMatchIndex<R>(rules: seq<Rule<R>>, r: R): (k: nat)
    ensures k <= |rules|
    ensures forall j :: 0 <= j < k ==> !rules[j].holds(r)
    ensures k < |rules| ==> rules[k].holds(r)
  {
    if rules == [] then 0
    else if rules[0].holds(r) then 0
    else 1 + FirstMatchIndex(rules[1..], r)
  }

  /** The label the rule list assigns to `r`. */
  function FirstMatch<R>(rules: seq<Rule<R>>, fallback: string, r: R): (chosen: string)
    ensures (forall j :: 0 <= j < |rules| ==> !rules[j].holds(r)) ==> chosen == fallback
    ensures forall k :: 0 <= k < |rules| && rules[k].holds(r) && (forall j :: 0 <= j < k ==> !rules[j].holds(r)) ==>
      chosen == rules[k].segment
  {
    var k := FirstMatchIndex(rules, r);
    if k < |rules| then rules[k].segment else fallback
  }
}

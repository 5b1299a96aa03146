/**
 The supermarket use case: visitor records, the rule-based segment
 classifier with its two strict duration bounds, and the segment summary
 with its canned marketing advice.
 */
module Supermarket {
  import opened Common
  import opened Frame
  import Rules

  datatype Area = Produce | Groceries | Electronics | HomeGoods | Snacks

  /** One row of the supermarket table. `arrival` is the random offset in
      minutes added to the fixed base timestamp. */
  datatype Visit = Visit(
    id: int,
    arrival: int,
    duration: int,
    frequent: Answer,
    area: Area)

  const RegularGrocery := "Regular Grocery Shoppers"
  const ElectronicsEnthusiasts := "Electronics Enthusiasts"
  const QuickSnack := "Quick Snack Buyers"
  const GeneralShoppers := "General Shoppers"

  /** The closed set of supermarket segment labels. */
  const Labels: set<string> := {RegularGrocery, ElectronicsEnthusiasts, QuickSnack, GeneralShoppers}

  // ---------------------------------------------------------------------------
  // The table
  // ---------------------------------------------------------------------------

  /** Builds the table from the sampled columns, with visitor ids 1..n. */
  function Table(n: nat, arrivals: seq<int>, durations: seq<int>, frequent: seq<Answer>,
                 areas: seq<Area>): (t: seq<Visit>)
    requires |arrivals| == |durations| == |frequent| == |areas| == n
    ensures |t| == n
    ensures Column(t, (v: Visit) => v.id) == VisitorIds(n)
    ensures forall i, j :: 0 <= i < j < n ==> t[i].id < t[j].id
    ensures forall i :: 0 <= i < n ==>
      t[i].arrival == arrivals[i] && t[i].duration == durations[i] &&
      t[i].frequent == frequent[i] && t[i].area == areas[i]
  {
    var ids := VisitorIds(n);
    seq(n, i requires 0 <= i < n => Visit(ids[i], arrivals[i], durations[i], frequent[i], areas[i]))
  }

  // ---------------------------------------------------------------------------
  // Classification
  // ---------------------------------------------------------------------------

  /** The supermarket segment of one visit: the label of the first rule that
      applies, "General Shoppers" when none does. */
  function Segment(v: Visit): (s: string)
    ensures s in Labels
  {
    if v.frequent == Yes && v.area in {Groceries, Produce} then
      RegularGrocery
    else if v.area == Electronics && v.duration > 30 then
      ElectronicsEnthusiasts
    else if v.area == Snacks && v.duration < 20 then
      QuickSnack
    else
      GeneralShoppers
  }

  /** Each label characterised on its own, independently of rule order. A
      frequent grocery or produce visitor is a regular whatever the duration;
      the electronics and snacks rules use strict bounds; everything else,
      Home Goods included, is a general shopper. */
  lemma SegmentCharacterisation(v: Visit)
    ensures Segment(v) == RegularGrocery <==> v.frequent == Yes && (v.area == Groceries || v.area == Produce)
    ensures Segment(v) == ElectronicsEnthusiasts <==> v.area == Electronics && v.duration > 30
    ensures Segment(v) == QuickSnack <==> v.area == Snacks && v.duration < 20
    ensures Segment(v) == GeneralShoppers <==>
      || ((v.area == Groceries || v.area == Produce) && v.frequent == No)
      || (v.area == Electronics && v.duration <= 30)
      || (v.area == Snacks && v.duration >= 20)
      || v.area == HomeGoods
  {
  }

  /** The boundary cases of the two strict comparisons. */
  lemma StrictBounds(frequent: Answer, id: int, arrival: int)
    ensures Segment(Visit(id, arrival, 31, frequent, Electronics)) == ElectronicsEnthusiasts
    ensures Segment(Visit(id, arrival, 30, frequent, Electronics)) == GeneralShoppers
    ensures Segment(Visit(id, arrival, 19, frequent, Snacks)) == QuickSnack
    ensures Segment(Visit(id, arrival, 20, frequent, Snacks)) == GeneralShoppers
  {
  }

  /** The same classifier written as an ordered rule table. */
  const RuleTable: seq<Rules.Rule<Visit>> := [
    Rules.Rule(RegularGrocery, (v: Visit) => v.frequent == Yes && v.area in {Groceries, Produce}),
    Rules.Rule(ElectronicsEnthusiasts, (v: Visit) => v.area == Electronics && v.duration > 30),
    Rules.Rule(QuickSnack, (v: Visit) => v.area == Snacks && v.duration < 20)
  ]

  /** The if/elif chain is the first-match-wins evaluation of the rule table
      with "General Shoppers" as fallback. */
  lemma SegmentIsFirstMatch(v: Visit)
    ensures Segment(v) == Rules.FirstMatch(RuleTable, GeneralShoppers, v)
  {
    var chosen := Rules.FirstMatch(RuleTable, GeneralShoppers, v);
    if RuleTable[0].holds(v) {
      assert chosen == RegularGrocery;
    } else if RuleTable[1].holds(v) {
      assert chosen == ElectronicsEnthusiasts;
    } else if RuleTable[2].holds(v) {
      assert chosen == QuickSnack;
    } else {
      assert chosen == GeneralShoppers;
    }
  }

  /** `supermarket_df['Segment'] = supermarket_df.apply(...)`: the table with its
      segment column; rows keep their place and each label comes from its own row. */
  function Classify(t: seq<Visit>): (c: seq<Labelled<Visit>>)
    ensures |c| == |t|
    ensures forall i :: 0 <= i < |t| ==> c[i].record == t[i] && c[i].segment == Segment(t[i])
    ensures forall s :: s in Segments(c) ==> s in Labels
  {
    Annotate(t, Segment)
  }

  // ---------------------------------------------------------------------------
  // Summary
  // ---------------------------------------------------------------------------

  /** The bar chart data: each segment present, with its number of visitors. */
  function SegmentCounts(t: seq<Visit>): (counts: map<string, nat>)
    ensures counts.Keys <= Labels
    ensures forall s :: s in counts <==> exists i :: 0 <= i < |t| && Segment(t[i]) == s
    ensures forall s :: s in counts ==> counts[s] == |Where(Classify(t), s)| >= 1
  {
    var c := Classify(t);
    var col := Segments(c);
    forall s ensures s in col <==> exists i :: 0 <= i < |t| && Segment(t[i]) == s {
      if s in col {
        var i :| 0 <= i < |col| && col[i] == s;
        assert Segment(t[i]) == s;
      }
      if exists i :: 0 <= i < |t| && Segment(t[i]) == s {
        var i :| 0 <= i < |t| && Segment(t[i]) == s;
        assert col[i] == s;
      }
    }
    ValueCounts(col)
  }

  /** The segment counts add up to the number of visitors. */
  lemma SegmentCountsTotal(t: seq<Visit>)
    ensures forall i :: 0 <= i < |Unique(Segments(Classify(t)))| ==> Unique(Segments(Classify(t)))[i] in SegmentCounts(t)
    ensures Total(Unique(Segments(Classify(t))), SegmentCounts(t)) == |t|
  {
    ValueCountsTotal(Segments(Classify(t)));
  }

  /** The suggestion and example shown under a segment heading; a label
      outside the four known ones gets no text. */
  function Advise(segment: string): (a: Option<Advice>)
    ensures a.Some? <==> segment in Labels
  {
    if segment == RegularGrocery then
      Some(Advice("Offer discounts on frequently purchased groceries or introduce a subscription box for essentials.",
                  "Save 10% on your usual grocery items this week!"))
    else if segment == ElectronicsEnthusiasts then
      Some(Advice("Notify them about new electronics arrivals or special offers on gadgets.",
                  "Check out the latest smartphones in our electronics section!"))
    else if segment == QuickSnack then
      Some(Advice("Place promotional offers on snacks near the entrance or checkout.",
                  "Grab a discounted snack on your way out!"))
    else if segment == GeneralShoppers then
      Some(Advice("Broad promotions or encourage them to explore different sections.",
                  "Discover new products throughout the store this week!"))
    else
      None
  }

  /** The marketing section: one block per segment present, in order of first
      appearance, each with its visitor count and its advice. */
  function Marketing(t: seq<Visit>): (blocks: seq<Block>)
    ensures |blocks| == |Unique(Segments(Classify(t)))|
    ensures forall i :: 0 <= i < |blocks| ==>
      blocks[i].segment == Unique(Segments(Classify(t)))[i] && blocks[i].advice == Advise(blocks[i].segment)
    ensures forall i, j :: 0 <= i < j < |blocks| ==> blocks[i].segment != blocks[j].segment
    ensures forall i :: 0 <= i < |blocks| ==>
      blocks[i].segment in Labels && blocks[i].advice.Some? &&
      blocks[i].visitors == |Where(Classify(t), blocks[i].segment)| >= 1
  {
    var c := Classify(t);
    assert forall i :: 0 <= i < |Unique(Segments(c))| ==> Unique(Segments(c))[i] in Labels;
    Report(c, Advise)
  }

  /** Every visitor's segment has its block. */
  lemma MarketingCoversSegments(t: seq<Visit>, i: nat)
    requires i < |t|
    ensures exists k :: 0 <= k < |Marketing(t)| && Marketing(t)[k].segment == Segment(t[i])
  {
    var c := Classify(t);
    assert c[i].segment == Segment(t[i]);
    assert Marketing(t) == Report(c, Advise);
    ReportHasEverySegment(c, Advise, i);
  }

  /** Every visitor is counted under exactly one marketing block. */
  lemma MarketingCoversVisitors(t: seq<Visit>)
    ensures Visitors(Marketing(t)) == |t|
  {
    ReportCoversTable(Classify(t), Advise);
  }
}

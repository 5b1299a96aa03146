/**
 The Nigerian restaurant use case: visitor records, the rule-based segment
 classifier, and the segment summary with its canned marketing advice.
 */
module Restaurant {
  import opened Common
  import opened Frame
  import Rules

  datatype Meal = Local | Continental | Both
  datatype TimeOfVisit = Lunch | Dinner | Breakfast

  /** One row of the restaurant table. `arrival` is the random offset in
      minutes added to the fixed base timestamp. */
  datatype Visit = Visit(
    id: int,
    arrival: int,
    duration: int,
    frequent: Answer,
    meal: Meal,
    time: TimeOfVisit)

  const LoyalLocalLunch := "Loyal Local Lunch Goers"
  const ContinentalDinner := "Continental Dinner Enthusiasts"
  const RegularBreakfast := "Regular Breakfast Crowd"
  const GeneralPatrons := "General Patrons"

  /** The closed set of restaurant segment labels. */
  const Labels: set<string> := {LoyalLocalLunch, ContinentalDinner, RegularBreakfast, GeneralPatrons}

  // ---------------------------------------------------------------------------
  // The table
  // ---------------------------------------------------------------------------

  /** Builds the table from the sampled columns, with visitor ids 1..n. */
  function Table(n: nat, arrivals: seq<int>, durations: seq<int>, frequent: seq<Answer>,
                 meals: seq<Meal>, times: seq<TimeOfVisit>): (t: seq<Visit>)
    requires |arrivals| == |durations| == |frequent| == |meals| == |times| == n
    ensures |t| == n
    ensures Column(t, (v: Visit) => v.id) == VisitorIds(n)
    ensures forall i, j :: 0 <= i < j < n ==> t[i].id < t[j].id
    ensures forall i :: 0 <= i < n ==>
      t[i].arrival == arrivals[i] && t[i].duration == durations[i] &&
      t[i].frequent == frequent[i] && t[i].meal == meals[i] && t[i].time == times[i]
  {
    var ids := VisitorIds(n);
    seq(n, i requires 0 <= i < n => Visit(ids[i], arrivals[i], durations[i], frequent[i], meals[i], times[i]))
  }

  // ---------------------------------------------------------------------------
  // Classification
  // ---------------------------------------------------------------------------

  /** The restaurant segment of one visit: the label of the first rule that
      applies, "General Patrons" when none does. */
  function Segment(v: Visit): (s: string)
    ensures s in Labels
  {
    if v.frequent == Yes && v.time == Lunch && v.meal in {Local, Both} then
      LoyalLocalLunch
    else if v.time == Dinner && v.meal in {Continental, Both} then
      ContinentalDinner
    else if v.time == Breakfast && v.frequent == Yes then
      RegularBreakfast
    else
      GeneralPatrons
  }

  /** Each label characterised on its own, independently of rule order: the
      rules never compete, and the default label is exactly what the three
      rules leave over (a lunch visitor failing rule 1, a dinner visitor
      preferring local dishes, an infrequent breakfast visitor). */
  lemma SegmentCharacterisation(v: Visit)
    ensures Segment(v) == LoyalLocalLunch <==> v.frequent == Yes && v.time == Lunch && v.meal != Continental
    ensures Segment(v) == ContinentalDinner <==> v.time == Dinner && v.meal != Local
    ensures Segment(v) == RegularBreakfast <==> v.time == Breakfast && v.frequent == Yes
    ensures Segment(v) == GeneralPatrons <==>
      || (v.time == Lunch && (v.frequent == No || v.meal == Continental))
      || (v.time == Dinner && v.meal == Local)
      || (v.time == Breakfast && v.frequent == No)
  {
  }

  /** The same classifier written as an ordered rule table. */
  const RuleTable: seq<Rules.Rule<Visit>> := [
    Rules.Rule(LoyalLocalLunch, (v: Visit) => v.frequent == Yes && v.time == Lunch && v.meal in {Local, Both}),
    Rules.Rule(ContinentalDinner, (v: Visit) => v.time == Dinner && v.meal in {Continental, Both}),
    Rules.Rule(RegularBreakfast, (v: Visit) => v.time == Breakfast && v.frequent == Yes)
  ]

  /** The if/elif chain is the first-match-wins evaluation of the rule table
      with "General Patrons" as fallback. */
  lemma SegmentIsFirstMatch(v: Visit)
    ensures Segment(v) == Rules.FirstMatch(RuleTable, GeneralPatrons, v)
  {
    var chosen := Rules.FirstMatch(RuleTable, GeneralPatrons, v);
    if RuleTable[0].holds(v) {
      assert chosen == LoyalLocalLunch;
    } else if RuleTable[1].holds(v) {
      assert chosen == ContinentalDinner;
    } else if RuleTable[2].holds(v) {
      assert chosen == RegularBreakfast;
    } else {
      assert chosen == GeneralPatrons;
    }
  }

  /** `restaurant_df['Segment'] = restaurant_df.apply(...)`: the table with its
      segment column; rows keep their place and each label comes from its own row. */
  function Classify(t: seq<Visit>): (c: seq<Labelled<Visit>>)
    ensures |c| == |t|
    ensures forall i :: 0 <= i < |t| ==> c[i].record == t[i] && c[i].segment == Segment(t[i])
    ensures forall s :: s in Segments(c) ==> s in Labels
  {
    Annotate(t, Segment)
  }

  // ---------------------------------------------------------------------------
  // Summary
  // ---------------------------------------------------------------------------

  /** The pie chart data: each segment present, with its number of visitors. */
  function SegmentCounts(t: seq<Visit>): (counts: map<string, nat>)
    ensures counts.Keys <= Labels
    ensures forall s :: s in counts <==> exists i :: 0 <= i < |t| && Segment(t[i]) == s
    ensures forall s :: s in counts ==> counts[s] == |Where(Classify(t), s)| >= 1
  {
    var c := Classify(t);
    var col := Segments(c);
    forall s ensures s in col <==> exists i :: 0 <= i < |t| && Segment(t[i]) == s {
      if s in col {
        var i :| 0 <= i < |col| && col[i] == s;
        assert Segment(t[i]) == s;
      }
      if exists i :: 0 <= i < |t| && Segment(t[i]) == s {
        var i :| 0 <= i < |t| && Segment(t[i]) == s;
        assert col[i] == s;
      }
    }
    ValueCounts(col)
  }

  /** The segment counts add up to the number of visitors. */
  lemma SegmentCountsTotal(t: seq<Visit>)
    ensures forall i :: 0 <= i < |Unique(Segments(Classify(t)))| ==> Unique(Segments(Classify(t)))[i] in SegmentCounts(t)
    ensures Total(Unique(Segments(Classify(t))), SegmentCounts(t)) == |t|
  {
    ValueCountsTotal(Segments(Classify(t)));
  }

  /** The "Meal Type Preference" bar chart data. */
  function MealCounts(t: seq<Visit>): (counts: map<Meal, nat>)
    ensures forall m :: m in counts <==> exists i :: 0 <= i < |t| && t[i].meal == m
    ensures forall m :: m in counts ==> counts[m] == multiset(Column(t, (v: Visit) => v.meal))[m] >= 1
  {
    var col := Column(t, (v: Visit) => v.meal);
    assert forall m :: m in col <==> exists i :: 0 <= i < |t| && t[i].meal == m by {
      forall m | m in col ensures exists i :: 0 <= i < |t| && t[i].meal == m {
        var i :| 0 <= i < |col| && col[i] == m;
        assert t[i].meal == m;
      }
      forall m | exists i :: 0 <= i < |t| && t[i].meal == m ensures m in col {
        var i :| 0 <= i < |t| && t[i].meal == m;
        assert col[i] == m;
      }
    }
    ValueCounts(col)
  }

  /** The suggestion and example shown under a segment heading; a label
      outside the four known ones gets no text. */
  function Advise(segment: string): (a: Option<Advice>)
    ensures a.Some? <==> segment in Labels
  {
    if segment == LoyalLocalLunch then
      Some(Advice("Offer a special discount on popular local dishes during lunchtime for frequent visitors.",
                  "Enjoy 15% off your favorite Nigerian dish this lunch!"))
    else if segment == ContinentalDinner then
      Some(Advice("Promote new continental dishes or a special continental set menu for dinner.",
                  "Try our new Italian Platter this evening!"))
    else if segment == RegularBreakfast then
      Some(Advice("Introduce a breakfast loyalty program or a new breakfast item.",
                  "Get a free coffee with your 5th breakfast order!"))
    else if segment == GeneralPatrons then
      Some(Advice("Target with general promotions or gather more preference data.",
                  "Welcome! Take our quick survey for a chance to win a free meal!"))
    else
      None
  }

  /** The marketing section: one block per segment present, in order of first
      appearance, each with its visitor count and its advice. */
  function Marketing(t: seq<Visit>): (blocks: seq<Block>)
    ensures |blocks| == |Unique(Segments(Classify(t)))|
    ensures forall i :: 0 <= i < |blocks| ==>
      blocks[i].segment == Unique(Segments(Classify(t)))[i] && blocks[i].advice == Advise(blocks[i].segment)
    ensures forall i, j :: 0 <= i < j < |blocks| ==> blocks[i].segment != blocks[j].segment
    ensures forall i :: 0 <= i < |blocks| ==>
      blocks[i].segment in Labels && blocks[i].advice.Some? &&
      blocks[i].visitors == |Where(Classify(t), blocks[i].segment)| >= 1
  {
    var c := Classify(t);
    assert forall i :: 0 <= i < |Unique(Segments(c))| ==> Unique(Segments(c))[i] in Labels;
    Report(c, Advise)
  }

  /** Every visitor's segment has its block. */
  lemma MarketingCoversSegments(t: seq<Visit>, i: nat)
    requires i < |t|
    ensures exists k :: 0 <= k < |Marketing(t)| && Marketing(t)[k].segment == Segment(t[i])
  {
    var c := Classify(t);
    assert c[i].segment == Segment(t[i]);
    assert Marketing(t) == Report(c, Advise);
    ReportHasEverySegment(c, Advise, i);
  }

  /** Every visitor is counted under exactly one marketing block. */
  lemma MarketingCoversVisitors(t: seq<Visit>)
    ensures Visitors(Marketing(t)) == |t|
  {
    ReportCoversTable(Classify(t), Advise);
  }
}

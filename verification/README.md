# Free-WiFi marketing showcase: segmentation model

The showcase builds two synthetic visitor tables, one for a Nigerian
restaurant and one for a supermarket. It labels every visitor with a
marketing segment using a short chain of first-match-wins rules. It then
counts the visitors per segment and, for each segment in order of first
appearance, prints the visitor count and a canned suggestion/example pair.

This Dafny project models that logic as pure functions over sequences:

- `frame.dfy`, module `Frame`: the table operations the app uses, restated
  over sequences. These are Python's `range`, `DataFrame.apply` adding the
  "Segment" column, the boolean filter `df[df['Segment'] == s]`,
  `value_counts` as an unordered map, `unique()` in first-appearance order,
  and the per-segment report loop.
- `rules.dfy`, module `Rules`: a generic first-match-wins rule list. It is an
  independent reference definition for the two if/elif chains.
- `common.dfy`, module `Common`: the 'Yes'/'No' answers and the visitor-id
  column.
- `restaurant.dfy` and `supermarket.dfy`: the two records (enum-valued
  fields), the classifiers, the label sets, the suggestion lookups, and the
  per-domain summaries.

Segment labels stay strings, as in the source. So "the classifier returns one
of four labels" is a real postcondition, and the suggestion lookup is defined
on every string. The random draws are arbitrary inputs: `Table` takes the
sampled columns as parameters.

The suggestion `if/elif` chains at streamlit_app.py:80-91 and 134-145 have
no `else`, so an unknown label would get its heading and count but no text.
`Advise` returns `None` for such a label, and `Report` keeps the block with
`advice == None`. The lemmas show the classifiers never produce such a label.

## Model

| member | source | states |
|---|---|---|
| Frame.Range | streamlit_app.py:44 | Python `range(start, stop)`: empty when `stop <= start`, otherwise `stop - start` elements with element i equal to `start + i`; strictly increasing and duplicate-free |
| Common.VisitorIds | streamlit_app.py:99 | the "Visitor ID" column `range(1, n + 1)` (also line 44): exactly n ids, the i-th being i + 1, strictly increasing and so unique |
| Restaurant.Table | streamlit_app.py:43-51 | the restaurant table has one row per draw; ids are 1..n in increasing order; each sampled column value lands in its own row |
| Supermarket.Table | streamlit_app.py:98-105 | the same for the supermarket table and its columns |
| Rules.FirstMatchIndex | streamlit_app.py:57-65 | index of the first rule that holds: every earlier rule fails, and the returned rule holds unless no rule does |
| Rules.FirstMatch | streamlit_app.py:111-119 | first-match-wins: the fallback label when no rule holds, otherwise the label of the first rule that holds, whatever later rules say |
| Restaurant.Segment | streamlit_app.py:57-65 | the restaurant classifier is total and always returns one of its four labels |
| Restaurant.SegmentCharacterisation | streamlit_app.py:58-65 | each restaurant label holds exactly under an order-independent condition: Loyal Local Lunch Goers iff frequent, lunch and not continental; Continental Dinner Enthusiasts iff dinner and not local; Regular Breakfast Crowd iff breakfast and frequent; General Patrons iff a lunch visitor failing rule 1, a local-preferring dinner visitor, or an infrequent breakfast visitor |
| Restaurant.SegmentIsFirstMatch | streamlit_app.py:57-65 | the if/elif chain equals first-match-wins evaluation of the three-rule table with "General Patrons" as fallback |
| Supermarket.Segment | streamlit_app.py:111-119 | the supermarket classifier is total and always returns one of its four labels |
| Supermarket.SegmentCharacterisation | streamlit_app.py:112-119 | Regular Grocery Shoppers iff frequent and Groceries/Produce, whatever the duration; Electronics Enthusiasts iff Electronics with duration > 30; Quick Snack Buyers iff Snacks with duration < 20; General Shoppers iff non-frequent Groceries/Produce, Electronics up to 30, Snacks from 20, or Home Goods |
| Supermarket.StrictBounds | streamlit_app.py:114-117 | the strict bounds at their edges: Electronics 31 is an enthusiast, 30 is not; Snacks 19 is a quick buyer, 20 is not |
| Supermarket.SegmentIsFirstMatch | streamlit_app.py:111-119 | the if/elif chain equals first-match-wins evaluation of the three-rule table with "General Shoppers" as fallback |
| Frame.Annotate | streamlit_app.py:67 | `apply(..., axis=1)`: same length, row i keeps its record and gets the label computed from row i alone |
| Frame.AnnotateAppend | streamlit_app.py:121 | classifying a table piecewise equals classifying it whole, so no row's label depends on other rows |
| Restaurant.Classify | streamlit_app.py:67 | the classified restaurant table keeps length and row order, labels row i with the segment of row i, and uses only the four restaurant labels |
| Supermarket.Classify | streamlit_app.py:121 | the same for the supermarket table and its four labels |
| Frame.Segments | streamlit_app.py:76 | `df['Segment']`, the label column read by `value_counts`, `unique()` and the filter: one entry per row, entry i being row i's segment |
| Frame.Column | streamlit_app.py:155 | `df[name]`: one entry per row, entry i taken from row i |
| Frame.Where | streamlit_app.py:78 | the filter keeps every row carrying the label, as often as it occurs, and no other row; its size is the label's occurrence count in the segment column |
| Frame.ValueCounts | streamlit_app.py:68 | `value_counts` as a map: a value has an entry iff it occurs, the entry is its number of occurrences, and so it is at least 1 |
| Frame.ValueCountsTotal | streamlit_app.py:122 | the counts of `value_counts`, summed over the distinct values, equal the length of the column |
| Frame.Unique | streamlit_app.py:76 | `unique()`: no duplicates, exactly the values that occur, listed in increasing order of first occurrence |
| Frame.Report | streamlit_app.py:76-79 | one block per distinct segment in first-appearance order; each block's count is the segment's occurrence count (at least 1), and its advice is the lookup of its label |
| Frame.ReportHasEverySegment | streamlit_app.py:130-131 | every row's segment has a block in the report |
| Frame.ReportCoversTable | streamlit_app.py:132-133 | the block counts sum to the number of rows, so every row is counted exactly once |
| Frame.ReportAgreesWithValueCounts | streamlit_app.py:122-133 | the report blocks and the `value_counts` chart data show the same segments with the same counts |
| Restaurant.SegmentCounts | streamlit_app.py:68-69 | pie-chart data: a label has a count iff some visitor gets it; only the four labels occur; each count is the size of that segment's filter and is at least 1 |
| Restaurant.SegmentCountsTotal | streamlit_app.py:68 | the restaurant segment counts sum to the number of visitors |
| Restaurant.MealCounts | streamlit_app.py:155-156 | meal-preference chart data: a meal has a count iff some visitor prefers it; the count is its number of occurrences, at least 1 |
| Restaurant.Advise | streamlit_app.py:80-91 | the suggestion lookup has text exactly for the four restaurant labels and none for any other string |
| Restaurant.Marketing | streamlit_app.py:76-91 | restaurant marketing blocks: one per distinct segment, in order of first appearance, none twice; every block's label is a restaurant label, its advice is that label's own suggestion text (never missing), and its count is the size of its filter, at least 1 |
| Restaurant.MarketingCoversSegments | streamlit_app.py:76-79 | every visitor's segment gets a marketing block |
| Restaurant.MarketingCoversVisitors | streamlit_app.py:78-79 | the restaurant block counts sum to the number of visitors |
| Supermarket.SegmentCounts | streamlit_app.py:122-123 | bar-chart data: a label has a count iff some visitor gets it; only the four labels occur; each count is the size of that segment's filter and is at least 1 |
| Supermarket.SegmentCountsTotal | streamlit_app.py:122 | the supermarket segment counts sum to the number of visitors |
| Supermarket.Advise | streamlit_app.py:134-145 | the suggestion lookup has text exactly for the four supermarket labels and none for any other string |
| Supermarket.Marketing | streamlit_app.py:130-145 | supermarket marketing blocks: one per distinct segment, in order of first appearance, none twice; every block's label is a supermarket label, its advice is that label's own suggestion text (never missing), and its count is the size of its filter, at least 1 |
| Supermarket.MarketingCoversSegments | streamlit_app.py:130-133 | every visitor's segment gets a marketing block |
| Supermarket.MarketingCoversVisitors | streamlit_app.py:132-133 | the supermarket block counts sum to the number of visitors |

## Left out

- Page and chart rendering: `st.title`, `st.write`, `st.markdown`, `st.dataframe`, `st.subheader`, `st.warning`, `px.pie`, `px.bar` and `st.plotly_chart`. They only display values the model computes.
- Random sampling: the seed, `np.random.randint` and `np.random.choice` with their probability vectors. The sampled columns are arbitrary parameters of `Table`. The classifiers do not rely on the sampled ranges (restaurant duration in [15, 90), supermarket duration in [10, 60), arrival offset in [0, 540) or [0, 720)), so these ranges are not required.
- Arrival timestamps: the record keeps only the random minute offset. Adding it to the fixed base timestamp is pandas date arithmetic, and nothing downstream reads it.
- Row order of `value_counts`: it sorts by descending count, with ties broken by the library. The model keeps the counts as an unordered map.
- The "Combined Insights" section: it is prose only and computes nothing.
- Restaurant.Table, Supermarket.Table: mismatched column lengths are excluded by a precondition. Pandas would raise an error for them, but the app always draws n values for every column.

/**
 The small part of the table library the showcase relies on, restated over
 sequences: a Python `range`, `DataFrame.apply` adding a segment column, the
 boolean filter `df[df['Segment'] == s]`, `value_counts` as an unordered map,
 and `unique()` in order of first appearance. It also holds the per-segment
 marketing report built from them: its records (`Advice`, `Block`), the
 report loop itself (`Report`), and the facts relating the report to the
 table and to `value_counts`.
 */
module Frame {

  datatype Option<T> = None | Some(value: T)

  /** A table row after the classifier has added its "Segment" column. */
  datatype Labelled<R> = Labelled(record: R, segment: string)

  /** The canned text shown under one segment heading. */
  datatype Advice = Advice(suggestion: string, example: string)

  /** One block of the per-segment marketing report. */
  datatype Block = Block(segment: string, visitors: nat, advice: Option<Advice>)

  predicate NoDuplicates<T(==)>(s: seq<T>) {
    forall i, j :: 0 <= i < j < |s| ==> s[i] != s[j]
  }

  predicate StrictlyIncreasing(s: seq<int>) {
    forall i, j :: 0 <= i < j < |s| ==> s[i] < s[j]
  }

  /** Python's `range(start, stop)`: empty when `stop <= start`. */
  function Range(start: int, stop: int): (r: seq<int>)
    ensures |r| == if stop <= start then 0 else stop - start
    ensures forall i :: 0 <= i < |r| ==> r[i] == start + i
    ensures StrictlyIncreasing(r) && NoDuplicates(r)
    decreases stop - start
  {
    if stop <= start then [] else [start] + Range(start + 1, stop)
  }

  // ---------------------------------------------------------------------------
  // Adding and reading the segment column
  // ---------------------------------------------------------------------------

  /** `df.apply(classify, axis=1)` stored as a new column: one label per row,
      computed from that row alone, rows kept in place. */
  function Annotate<R>(rows: seq<R>, classify: R -> string): (t: seq<Labelled<R>>)
    ensures |t| == |rows|
    ensures forall i :: 0 <= i < |rows| ==> t[i].record == rows[i] && t[i].segment == classify(rows[i])
  {
    if rows == [] then [] else [Labelled(rows[0], classify(rows[0]))] + Annotate(rows[1..], classify)
  }

  /** Annotating a table piecewise gives the same rows as annotating it whole:
      no row's label is influenced by the rows around it. */
  lemma AnnotateAppend<R>(a: seq<R>, b: seq<R>, classify: R -> string)
    ensures Annotate(a + b, classify) == Annotate(a, classify) + Annotate(b, classify)
  {
  }

  /** `df['Segment']`: the label column. */
  function Segments<R>(t: seq<Labelled<R>>): (col: seq<string>)
    ensures |col| == |t|
    ensures forall i :: 0 <= i < |t| ==> col[i] == t[i].segment
  {
    Column(t, (row: Labelled<R>) => row.segment)
  }

  /** Any other column of a table, `df[name]`, given as a field selector. */
  function Column<R, T>(rows: seq<R>, field: R -> T): (col: seq<T>)
    ensures |col| == |rows|
    ensures forall i :: 0 <= i < |rows| ==> col[i] == field(rows[i])
  {
    if rows == [] then [] else [field(rows[0])] + Column(rows[1..], field)
  }

  /** `df[df['Segment'] == segment]`: the rows carrying that label, each as
      often as in the table, and no other rows. */
  function Where<R(!new)>(t: seq<Labelled<R>>, segment: string): (sel: seq<Labelled<R>>)
    ensures forall i :: 0 <= i < |sel| ==> sel[i].segment == segment
    ensures forall row :: multiset(sel)[row] == if row.segment == segment then multiset(t)[row] else 0
    ensures |sel| == multiset(Segments(t))[segment]
  {
    if t == [] then []
    else
      assert t == [t[0]] + t[1..];
      if t[0].segment == segment then [t[0]] + Where(t[1..], segment)
      else Where(t[1..], segment)
  }

  // ---------------------------------------------------------------------------
  // Counting
  // ---------------------------------------------------------------------------

  /** `s.value_counts()` without its display order: every value that occurs,
      mapped to its number of occurrences; absent values have no entry. */
  function ValueCounts<T(==,!new)>(s: seq<T>): (counts: map<T, nat>)
    ensures forall x :: x in counts <==> x in s
    ensures forall x :: x in counts ==> counts[x] == multiset(s)[x] && counts[x] >= 1
  {
    if s == [] then map[]
    else
      var prefix, x := s[..|s| - 1], s[|s| - 1];
      assert s == prefix + [x];
      var rest := ValueCounts(prefix);
      rest[x := if x in rest then rest[x] + 1 else 1]
  }

  /** Sum of `counts[k]` over the list `keys`. */
  function Total<T>(keys: seq<T>, counts: map<T, nat>): nat
    requires forall i :: 0 <= i < |keys| ==> keys[i] in counts
  {
    if keys == [] then 0 else counts[keys[0]] + Total(keys[1..], counts)
  }

  /** Sum of the occurrence counts in `s` of the values listed in `keys`. */
  function Occurrences<T(==)>(keys: seq<T>, s: seq<T>): nat {
    if keys == [] then 0 else multiset(s)[keys[0]] + Occurrences(keys[1..], s)
  }

  lemma {:induction false} OccurrencesSnoc<T>(keys: seq<T>, s: seq<T>, x: T)
    ensures Occurrences(keys, s + [x]) == Occurrences(keys, s) + multiset(keys)[x]
    decreases |keys|
  {
    if keys != [] {
      OccurrencesSnoc(keys[1..], s, x);
      assert keys == [keys[0]] + keys[1..];
    }
  }

  lemma {:induction false} NoDuplicatesMultiplicity<T>(keys: seq<T>, x: T)
    requires NoDuplicates(keys)
    ensures multiset(keys)[x] == if x in keys then 1 else 0
    decreases |keys|
  {
    if keys != [] {
      assert keys == [keys[0]] + keys[1..];
      assert NoDuplicates(keys[1..]) by {
        forall i, j | 0 <= i < j < |keys[1..]| ensures keys[1..][i] != keys[1..][j] {
          assert keys[1..][i] == keys[i + 1] && keys[1..][j] == keys[j + 1];
        }
      }
      NoDuplicatesMultiplicity(keys[1..], x);
      assert keys[0] !in keys[1..] by {
        assert forall j :: 0 <= j < |keys[1..]| ==> keys[1..][j] == keys[j + 1] != keys[0];
      }
    }
  }

  /** Counting over a duplicate-free list that covers every value of `s`
      accounts for each element of `s` exactly once. */
  lemma {:induction false} OccurrencesCover<T>(keys: seq<T>, s: seq<T>)
    requires NoDuplicates(keys)
    requires forall i :: 0 <= i < |s| ==> s[i] in keys
    ensures Occurrences(keys, s) == |s|
    decreases |s|
  {
    if s == [] {
      OccurrencesEmpty(keys);
    } else {
      var prefix, x := s[..|s| - 1], s[|s| - 1];
      assert s == prefix + [x];
      OccurrencesCover(keys, prefix);
      OccurrencesSnoc(keys, prefix, x);
      NoDuplicatesMultiplicity(keys, x);
    }
  }

  lemma {:induction false} OccurrencesEmpty<T>(keys: seq<T>)
    ensures Occurrences(keys, []) == 0
    decreases |keys|
  {
    if keys != [] {
      OccurrencesEmpty(keys[1..]);
    }
  }

  lemma {:induction false} TotalIsOccurrences<T(!new)>(keys: seq<T>, s: seq<T>)
    requires forall i :: 0 <= i < |keys| ==> keys[i] in s
    ensures forall i :: 0 <= i < |keys| ==> keys[i] in ValueCounts(s)
    ensures Total(keys, ValueCounts(s)) == Occurrences(keys, s)
    decreases |keys|
  {
    if keys != [] {
      TotalIsOccurrences(keys[1..], s);
    }
  }

  /** The counts of `value_counts` add up to the length of the column. */
  lemma ValueCountsTotal<T(!new)>(s: seq<T>)
    ensures forall i :: 0 <= i < |Unique(s)| ==> Unique(s)[i] in ValueCounts(s)
    ensures Total(Unique(s), ValueCounts(s)) == |s|
  {
    var u := Unique(s);
    TotalIsOccurrences(u, s);
    OccurrencesCover(u, s);
  }

  // ---------------------------------------------------------------------------
  // Distinct values in order of first appearance
  // ---------------------------------------------------------------------------

  /** Position of the first occurrence of `x` in `s`. */
  function FirstIndex<T(==)>(s: seq<T>, x: T): (k: nat)
    requires x in s
    ensures k < |s| && s[k] == x && x !in s[..k]
  {
    if s[0] == x then 0
    else
      var k := 1 + FirstIndex(s[1..], x);
      assert s[..k] == [s[0]] + s[1..][..k - 1];
      k
  }

  /** An occurrence with no earlier occurrence is the first one. */
  lemma FirstIndexUnique<T>(s: seq<T>, x: T, k: nat)
    requires k < |s| && s[k] == x && x !in s[..k]
    ensures FirstIndex(s, x) == k
  {
    var f := FirstIndex(s, x);
    assert forall i :: 0 <= i < k ==> s[..k][i] == s[i];
    assert forall i :: 0 <= i < f ==> s[..f][i] == s[i];
  }

  /** Appending a value does not move any first occurrence already present. */
  lemma FirstIndexSnoc<T>(prefix: seq<T>, x: T, y: T)
    requires y in prefix
    ensures y in prefix + [x] && FirstIndex(prefix + [x], y) == FirstIndex(prefix, y)
  {
    var s, k := prefix + [x], FirstIndex(prefix, y);
    assert s[..k] == prefix[..k];
    FirstIndexUnique(s, y, k);
  }

  /** `s.unique()`: each value of `s` once, listed in the order in which the
      values first appear in `s`. */
  function Unique<T(==,!new)>(s: seq<T>): (u: seq<T>)
    ensures NoDuplicates(u)
    ensures forall x :: x in u <==> x in s
    ensures forall i, j :: 0 <= i < j < |u| ==> FirstIndex(s, u[i]) < FirstIndex(s, u[j])
  {
    if s == [] then []
    else
      var prefix, x := s[..|s| - 1], s[|s| - 1];
      assert s == prefix + [x];
      var rest := Unique(prefix);
      if x in rest then
        assert forall i :: 0 <= i < |rest| ==> FirstIndex(s, rest[i]) == FirstIndex(prefix, rest[i]) by {
          forall i | 0 <= i < |rest| ensures FirstIndex(s, rest[i]) == FirstIndex(prefix, rest[i]) {
            FirstIndexSnoc(prefix, x, rest[i]);
          }
        }
        rest
      else
        var u := rest + [x];
        assert forall i :: 0 <= i < |rest| ==> FirstIndex(s, u[i]) == FirstIndex(prefix, rest[i]) < |prefix| by {
          forall i | 0 <= i < |rest| ensures FirstIndex(s, u[i]) == FirstIndex(prefix, rest[i]) < |prefix| {
            FirstIndexSnoc(prefix, x, rest[i]);
          }
        }
        assert FirstIndex(s, x) == |prefix| by {
          assert s[..|prefix|] == prefix;
          FirstIndexUnique(s, x, |prefix|);
        }
        u
  }

  // ---------------------------------------------------------------------------
  // The per-segment report
  // ---------------------------------------------------------------------------

  /** The marketing loop: for each segment in order of first appearance, the
      number of rows the filter keeps and the canned advice, if the lookup
      has any for that label. */
  function Report<R(!new)>(t: seq<Labelled<R>>, lookup: string -> Option<Advice>): (blocks: seq<Block>)
    ensures |blocks| == |Unique(Segments(t))|
    ensures forall i :: 0 <= i < |blocks| ==> blocks[i].segment == Unique(Segments(t))[i]
    ensures forall i :: 0 <= i < |blocks| ==>
      blocks[i].segment in Segments(t) &&
      blocks[i].visitors == multiset(Segments(t))[blocks[i].segment] >= 1 &&
      blocks[i].advice == lookup(blocks[i].segment)
  {
    var u := Unique(Segments(t));
    seq(|u|, i requires 0 <= i < |u| => Block(u[i], |Where(t, u[i])|, lookup(u[i])))
  }

  /** Sum of the visitor counts shown in a report. */
  function Visitors(blocks: seq<Block>): nat {
    if blocks == [] then 0 else blocks[0].visitors + Visitors(blocks[1..])
  }

  lemma {:induction false} VisitorsAreOccurrences(blocks: seq<Block>, keys: seq<string>, col: seq<string>)
    requires |blocks| == |keys|
    requires forall i :: 0 <= i < |blocks| ==> blocks[i].visitors == multiset(col)[keys[i]]
    ensures Visitors(blocks) == Occurrences(keys, col)
    decreases |keys|
  {
    if keys != [] {
      VisitorsAreOccurrences(blocks[1..], keys[1..], col);
    }
  }

  /** Every row of the table is counted in exactly one report block. */
  lemma ReportCoversTable<R(!new)>(t: seq<Labelled<R>>, lookup: string -> Option<Advice>)
    ensures Visitors(Report(t, lookup)) == |t|
  {
    var col := Segments(t);
    var u := Unique(col);
    VisitorsAreOccurrences(Report(t, lookup), u, col);
    OccurrencesCover(u, col);
  }

  /** Every row's segment has its block in the report. */
  lemma ReportHasEverySegment<R(!new)>(t: seq<Labelled<R>>, lookup: string -> Option<Advice>, i: nat)
    requires i < |t|
    ensures exists k :: 0 <= k < |Report(t, lookup)| && Report(t, lookup)[k].segment == t[i].segment
  {
    var col := Segments(t);
    var u := Unique(col);
    var blocks := Report(t, lookup);
    var s := t[i].segment;
    assert col[i] == s;
    assert s in u;
    var k :| 0 <= k < |u| && u[k] == s;
    assert blocks[k].segment == s;
  }

  /** The report and `value_counts` show the same segments with the same counts. */
  lemma ReportAgreesWithValueCounts<R(!new)>(t: seq<Labelled<R>>, lookup: string -> Option<Advice>)
    ensures forall b :: b in Report(t, lookup) ==>
      b.segment in ValueCounts(Segments(t)) && ValueCounts(Segments(t))[b.segment] == b.visitors
    ensures forall s :: s in ValueCounts(Segments(t)) ==>
      exists i :: 0 <= i < |Report(t, lookup)| && Report(t, lookup)[i].segment == s
  {
    var blocks, u := Report(t, lookup), Unique(Segments(t));
    forall s | s in ValueCounts(Segments(t))
      ensures exists i :: 0 <= i < |blocks| && blocks[i].segment == s
    {
      var i :| 0 <= i < |u| && u[i] == s;
      assert blocks[i].segment == s;
    }
  }
}

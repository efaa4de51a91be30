/** The data-quality figures app.py derives from a cleaned column: pandas'
    `count()` (present values), `nunique()` (distinct present values) and
    `dropna().unique()` (present values without repeats, in order of first
    appearance). */
module Report {
  import opened Wrappers
  import opened Sequences

  /** `column.dropna()`: the present values, in column order. */
  function Present(column: seq<Option<string>>): (r: seq<string>)
    ensures |r| <= |column|
  {
    if column == [] then []
    else
      var init := column[..|column| - 1];
      match column[|column| - 1]
      case None => Present(init)
      case Some(v) => Present(init) + [v]
  }

  /** dropna() keeps each present value as often as the column holds it ... */
  lemma {:induction false} PresentCounts(column: seq<Option<string>>, v: string)
    ensures multiset(Present(column))[v] == multiset(column)[Some(v)]
  {
    if column != [] {
      var init, c := column[..|column| - 1], column[|column| - 1];
      PresentCounts(init, v);
      assert column == init + [c];
      assert multiset(column)[Some(v)] == multiset(init)[Some(v)] + multiset([c])[Some(v)];
      if c.Some? {
        assert multiset(Present(column))[v] == multiset(Present(init))[v] + multiset([c.value])[v];
      }
    }
  }

  /** ... so it holds exactly the values present in the column ... */
  lemma PresentMembers(column: seq<Option<string>>)
    ensures forall v :: v in Present(column) <==> Some(v) in column
  {
    forall v ensures v in Present(column) <==> Some(v) in column {
      PresentCounts(column, v);
    }
  }

  /** ... and in the column's order: it is the column with the absent cells
      deleted. */
  lemma {:induction false} PresentKeepsOrder(column: seq<Option<string>>)
    ensures IsSubsequence(Lift(Present(column)), column)
  {
    if column != [] {
      var init, c := column[..|column| - 1], column[|column| - 1];
      PresentKeepsOrder(init);
      assert column == init + [c];
      if c.Some? {
        assert Lift(Present(init) + [c.value]) == Lift(Present(init)) + [c];
        SubsequenceKeepLast(Lift(Present(init)), init, c);
      } else {
        SubsequenceSkipLast(Lift(Present(init)), init, c);
      }
    }
  }

  /** The values of `xs` as present cells. */
  function Lift(xs: seq<string>): (r: seq<Option<string>>)
    ensures |r| == |xs|
  {
    seq(|xs|, i requires 0 <= i < |xs| => Some(xs[i]))
  }

  /** The set of values in `xs`. */
  function Elements(xs: seq<string>): set<string> {
    set x | x in xs
  }

  ghost predicate NoDuplicates(xs: seq<string>) {
    forall i, j :: 0 <= i < j < |xs| ==> xs[i] != xs[j]
  }

  /** `xs` with every value after its first occurrence dropped. */
  function Unique(xs: seq<string>): (r: seq<string>)
    ensures forall v :: v in r <==> v in xs
  {
    if xs == [] then []
    else
      var init, x := xs[..|xs| - 1], xs[|xs| - 1];
      assert xs == init + [x];
      var u := Unique(init);
      if x in u then u else u + [x]
  }

  /** Where `x` first occurs in `xs`. */
  function FirstIndex(xs: seq<string>, x: string): (r: nat)
    requires x in xs
    ensures r < |xs| && xs[r] == x
    ensures forall k :: 0 <= k < r ==> xs[k] != x
  {
    if xs[0] == x then 0 else FirstIndex(xs[1..], x) + 1
  }

  /** Unique holds each value once ... */
  lemma {:induction false} UniqueNoDuplicates(xs: seq<string>)
    ensures NoDuplicates(Unique(xs))
  {
    if xs != [] {
      var init, x := xs[..|xs| - 1], xs[|xs| - 1];
      UniqueNoDuplicates(init);
      UniqueStep(init, x);
      assert xs == init + [x];
    }
  }

  /** ... so it has as many entries as its input has distinct values ... */
  lemma {:induction false} UniqueCount(xs: seq<string>)
    ensures |Unique(xs)| == |Elements(xs)|
  {
    if xs != [] {
      var init, x := xs[..|xs| - 1], xs[|xs| - 1];
      UniqueCount(init);
      UniqueStep(init, x);
      assert xs == init + [x];
      assert Elements(xs) == Elements(init) + {x};
    }
  }

  /** ... and orders them by their first occurrence in the input. */
  lemma {:induction false} UniqueFirstOccurrenceOrder(xs: seq<string>)
    ensures forall i, j :: 0 <= i < j < |Unique(xs)| ==>
      FirstIndex(xs, Unique(xs)[i]) < FirstIndex(xs, Unique(xs)[j])
  {
    if xs != [] {
      var init, x := xs[..|xs| - 1], xs[|xs| - 1];
      UniqueFirstOccurrenceOrder(init);
      assert xs == init + [x];
      forall i, j | 0 <= i < j < |Unique(xs)|
        ensures FirstIndex(xs, Unique(xs)[i]) < FirstIndex(xs, Unique(xs)[j])
      {
        UniqueOrderStep(init, x, i, j);
      }
    }
  }

  /** One step of the induction above: a pair of entries after appending `x`. */
  lemma UniqueOrderStep(init: seq<string>, x: string, i: nat, j: nat)
    requires forall i, j :: 0 <= i < j < |Unique(init)| ==>
      FirstIndex(init, Unique(init)[i]) < FirstIndex(init, Unique(init)[j])
    requires i < j < |Unique(init + [x])|
    ensures FirstIndex(init + [x], Unique(init + [x])[i]) < FirstIndex(init + [x], Unique(init + [x])[j])
  {
    var u, w, xs := Unique(init), Unique(init + [x]), init + [x];
    UniqueStep(init, x);
    assert w[i] == u[i];
    FirstIndexOfInit(init, x, u[i]);
    if j < |u| {
      assert w[j] == u[j];
      FirstIndexOfInit(init, x, u[j]);
    } else {
      assert w[j] == x && x !in init;
      assert xs[|init|] == x;
    }
  }

  /** Appending a value does not move the first occurrence of an earlier one. */
  lemma FirstIndexOfInit(init: seq<string>, x: string, y: string)
    requires y in init
    ensures FirstIndex(init + [x], y) == FirstIndex(init, y)
  {
    var xs := init + [x];
    var a, b := FirstIndex(xs, y), FirstIndex(init, y);
    assert xs[b] == y;
    assert a <= b;
    assert init[a] == y;
  }

  /** The three figures for one cleaned column, computed in one pass that keeps
      a count, a distinct count and the set of values already seen.
      `valid` is `count()`, `distinct` is `nunique()`, `uniques` is
      `dropna().unique()`. */
  method Summarize(column: seq<Option<string>>) returns (valid: nat, distinct: nat, uniques: seq<string>)
    ensures valid == |Present(column)|
    ensures distinct == |Elements(Present(column))|
    ensures uniques == Unique(Present(column))
    ensures |uniques| == distinct <= valid <= |column|
  {
    valid, distinct, uniques := 0, 0, [];
    var seen: set<string> := {};
    ghost var present: seq<string> := [];
    var i := 0;
    while i < |column|
      invariant 0 <= i <= |column|
      invariant present == Present(column[..i])
      invariant valid == |present|
      invariant uniques == Unique(present)
      invariant forall x :: x in seen <==> x in uniques
      invariant distinct == |uniques|
    {
      PresentStep(column, i);
      if column[i].Some? {
        var v := column[i].value;
        valid := valid + 1;
        UniqueStep(present, v);
        assert v in seen <==> v in present;
        if v !in seen {
          uniques := uniques + [v];
          seen := seen + {v};
          distinct := distinct + 1;
        }
        present := present + [v];
      }
      i := i + 1;
    }
    assert column[..i] == column;
    UniqueCount(present);
    ReportBounds(column);
  }

  /** Present grows by the next cell's value, if it has one. */
  lemma PresentStep(column: seq<Option<string>>, i: nat)
    requires i < |column|
    ensures Present(column[..i + 1]) ==
      Present(column[..i]) + if column[i].Some? then [column[i].value] else []
  {
    assert column[..i + 1][..i] == column[..i];
  }

  /** Unique keeps a new value at the end and ignores a repeated one. */
  lemma UniqueStep(xs: seq<string>, v: string)
    ensures Unique(xs + [v]) == if v in xs then Unique(xs) else Unique(xs) + [v]
  {
    assert (xs + [v])[..|xs|] == xs;
  }

  /** count() never exceeds the number of rows and nunique() never exceeds
      count(); both are 0 when no value is present. */
  lemma {:induction false} ReportBounds(column: seq<Option<string>>)
    ensures |Elements(Present(column))| <= |Present(column)| <= |column|
    ensures (forall k :: 0 <= k < |column| ==> column[k].None?) ==>
      |Present(column)| == 0 && |Elements(Present(column))| == 0
  {
    UniqueCount(Present(column));
    UniqueNoLonger(Present(column));
    if forall k :: 0 <= k < |column| ==> column[k].None? {
      PresentMembers(column);
      if Present(column) != [] {
        assert Some(Present(column)[0]) in column;
      }
    }
  }

  lemma {:induction false} UniqueNoLonger(xs: seq<string>)
    ensures |Unique(xs)| <= |xs|
  {
    if xs != [] {
      UniqueNoLonger(xs[..|xs| - 1]);
    }
  }
}

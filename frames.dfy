/**
 The tabular dataset the three preparation scripts pass along, and the few
 data-frame operations they apply to it: column selection by a list of names,
 dropping columns, positional row slicing and assigning a column.

 A frame is an ordered list of distinct column names, each mapped to a column
 of cells; every column has the same number of rows, `height`. The frame keeps
 pandas' default 0-based row index, so row `k` of the frame is position `k` of
 every column. Cells are of an opaque type `C`.
 */
module Frames {

  /** The outcome of an operation that looks columns up by name: pandas raises a
      KeyError naming the labels it could not find. */
  datatype Result<T> = Ok(value: T) | KeyError(missing: seq<string>)

  /** The three columns the downstream training expects, in this order; both the
      projection and the split restrict a frame to exactly this list. */
  const CanonicalColumns: seq<string> := ["Datetime", "Average_Temp", "MW"]

  predicate Distinct(s: seq<string>)
  {
    forall i, j :: 0 <= i < j < |s| ==> s[i] != s[j]
  }

  datatype Frame<C> = Frame(columns: seq<string>, data: map<string, seq<C>>, height: nat)
  {
    /** Column names are distinct, name exactly the stored columns, and every
        column is `height` rows long. */
    predicate Valid()
    {
      && Distinct(columns)
      && (forall c :: c in columns ==> c in data)
      && (forall c :: c in data ==> c in columns)
      && (forall c :: c in data ==> |data[c]| == height)
    }
  }

  /** The elements of `s` that are not in `excluded`, in the order `s` has them. */
  function Without(s: seq<string>, excluded: seq<string>): (r: seq<string>)
    ensures forall x {:trigger x in r} :: x in r <==> x in s && x !in excluded
    ensures forall k :: 0 <= k < |r| ==> r[k] in s && r[k] !in excluded
    ensures |r| <= |s|
  {
    if s == [] then []
    else if s[0] in excluded then Without(s[1..], excluded)
    else [s[0]] + Without(s[1..], excluded)
  }

  lemma DistinctTail(s: seq<string>)
    requires Distinct(s) && s != []
    ensures Distinct(s[1..]) && s[0] !in s[1..]
  {
  }

  /** Filtering a list without repeats gives a list without repeats. */
  lemma {:induction false} WithoutDistinct(s: seq<string>, excluded: seq<string>)
    requires Distinct(s)
    ensures Distinct(Without(s, excluded))
  {
    if s != [] {
      DistinctTail(s);
      WithoutDistinct(s[1..], excluded);
      var t := Without(s[1..], excluded);
      if s[0] !in excluded {
        var r := [s[0]] + t;
        assert s[0] !in t;
        forall i, j | 0 <= i < j < |r| ensures r[i] != r[j] {
          assert r[j] == t[j - 1];
          if i > 0 {
            assert r[i] == t[i - 1];
          }
        }
      }
    }
  }

  /** `r` can be obtained from `s` by deleting elements: the elements of `r`
      occur in `s` in the same relative order. Matching each element of `r`
      against the earliest possible element of `s` finds such a deletion
      whenever there is one. */
  predicate IsSubsequence(r: seq<string>, s: seq<string>)
    decreases |s|
  {
    if r == [] then true
    else if s == [] then false
    else if r[0] == s[0] then IsSubsequence(r[1..], s[1..])
    else IsSubsequence(r, s[1..])
  }

  /** `Without` keeps the survivors in their original relative order. */
  lemma {:induction false} WithoutIsSubsequence(s: seq<string>, excluded: seq<string>)
    ensures IsSubsequence(Without(s, excluded), s)
  {
    if s != [] {
      WithoutIsSubsequence(s[1..], excluded);
      var r := Without(s, excluded);
      if s[0] !in excluded {
        assert r[1..] == Without(s[1..], excluded);
      } else if r != [] {
        assert r[0] != s[0];
      }
    }
  }

  /** `df[names]`: a new frame with exactly the listed columns, in the listed
      order, or a KeyError naming every listed column the frame lacks. */
  function Select<C>(f: Frame<C>, names: seq<string>): (r: Result<Frame<C>>)
    requires f.Valid() && Distinct(names)
    ensures r.KeyError? <==> exists n :: n in names && n !in f.columns
    ensures r.KeyError? ==> forall n :: n in r.missing <==> n in names && n !in f.columns
    ensures r.Ok? ==> r.value.Valid() && r.value.columns == names && r.value.height == f.height
    ensures r.Ok? ==> forall c :: c in names ==> r.value.data[c] == f.data[c]
  {
    var absent := Without(names, f.columns);
    if absent != [] then
      assert absent[0] in absent;
      KeyError(absent)
    else
      assert forall n :: n in names && n !in f.columns ==> n in absent;
      Ok(Frame(names, map c | c in names && c in f.data :: f.data[c], f.height))
  }

  /** Selection only depends on the selected columns: two frames that agree on
      which of them exist and on their values give the same outcome. */
  lemma SelectAgrees<C>(f: Frame<C>, g: Frame<C>, names: seq<string>)
    requires f.Valid() && g.Valid() && Distinct(names) && f.height == g.height
    requires forall n :: n in names ==> (n in g.columns <==> n in f.columns)
    requires forall n :: n in names && n in g.columns ==> g.data[n] == f.data[n]
    ensures Select(g, names) == Select(f, names)
  {
    WithoutSameMembers(names, g.columns, f.columns);
    var absent := Without(names, f.columns);
    if absent == [] {
      var x := map c | c in names && c in g.data :: g.data[c];
      var y := map c | c in names && c in f.data :: f.data[c];
      assert x == y;
    }
  }

  /** `Without` only looks at which elements the excluded list holds. */
  lemma {:induction false} WithoutSameMembers(s: seq<string>, e1: seq<string>, e2: seq<string>)
    requires forall x :: x in s ==> (x in e1 <==> x in e2)
    ensures Without(s, e1) == Without(s, e2)
  {
    if s != [] {
      assert s[0] in s;
      WithoutSameMembers(s[1..], e1, e2);
    }
  }

  /** `df.drop(columns=labels)` with pandas' default `errors='raise'`: a new frame
      without the listed columns, or a KeyError naming every listed label the
      frame lacks. */
  function Drop<C>(f: Frame<C>, labels: seq<string>): (r: Result<Frame<C>>)
    requires f.Valid()
    ensures r.KeyError? <==> exists n :: n in labels && n !in f.columns
    ensures r.KeyError? ==> forall n :: n in r.missing <==> n in labels && n !in f.columns
    ensures r.Ok? ==> r.value.Valid() && r.value.height == f.height
    ensures r.Ok? ==> forall c :: c in r.value.columns <==> c in f.columns && c !in labels
    ensures r.Ok? ==> forall c :: c in r.value.columns ==> r.value.data[c] == f.data[c]
    ensures r.Ok? ==> IsSubsequence(r.value.columns, f.columns)
  {
    var absent := Without(labels, f.columns);
    if absent != [] then
      assert absent[0] in absent;
      KeyError(absent)
    else
      assert forall n :: n in labels && n !in f.columns ==> n in absent;
      WithoutDistinct(f.columns, labels);
      WithoutIsSubsequence(f.columns, labels);
      Ok(Frame(Without(f.columns, labels), map c | c in f.data && c !in labels :: f.data[c], f.height))
  }

  function Min(x: int, y: int): (m: int)
    ensures m <= x && m <= y && (m == x || m == y)
  {
    if x <= y then x else y
  }

  /** `df.iloc[lo:hi]` with Python's slicing rules for non-negative bounds: the
      rows at the positions `k` with `lo <= k < hi` that exist, in order. Bounds
      past the end are clamped, and `hi <= lo` gives no rows. */
  function Rows<C>(f: Frame<C>, lo: nat, hi: nat): (r: Frame<C>)
    requires f.Valid()
    ensures r.height == if hi <= lo || f.height <= lo then 0 else Min(hi, f.height) - lo
    ensures RowRun(r, f, Min(lo, f.height))
  {
    var start := Min(lo, f.height);
    var stop := if hi <= start then start else Min(hi, f.height);
    Frame(f.columns, map c | c in f.data :: f.data[c][start..stop], stop - start)
  }

  /** `r` is the run of `f`'s rows that starts at position `offset`: it has
      `f`'s columns, and its row `k` is row `offset + k` of `f`. */
  ghost predicate RowRun<C>(r: Frame<C>, f: Frame<C>, offset: nat)
  {
    && r.Valid() && f.Valid() && r.columns == f.columns && offset + r.height <= f.height
    && forall c, k :: c in f.data && 0 <= k < r.height ==> r.data[c][k] == f.data[c][offset + k]
  }

  /** A column of a run of rows is a slice of the frame's column. */
  lemma RowRunColumn<C>(r: Frame<C>, f: Frame<C>, offset: nat, c: string)
    requires RowRun(r, f, offset) && c in f.data
    ensures c in r.data && r.data[c] == f.data[c][offset..offset + r.height]
  {
  }

  /** Two frames with the same columns, one after the other: the partner against
      which the positional split is stated. */
  function Concat<C>(f: Frame<C>, g: Frame<C>): (r: Frame<C>)
    requires f.Valid() && g.Valid() && f.columns == g.columns
    ensures r.Valid() && r.columns == f.columns && r.height == f.height + g.height
    ensures forall c, k :: c in f.data && 0 <= k < r.height ==>
      r.data[c][k] == if k < f.height then f.data[c][k] else g.data[c][k - f.height]
  {
    Frame(f.columns, map c | c in f.data :: f.data[c] + g.data[c], f.height + g.height)
  }

  /** Two adjacent runs of rows, one after the other, are again a run of rows. */
  lemma ConcatAdjacentRuns<C>(t: Frame<C>, v: Frame<C>, f: Frame<C>, offset: nat)
    requires RowRun(t, f, offset) && RowRun(v, f, offset + t.height)
    ensures RowRun(Concat(t, v), f, offset)
  {
  }

  /** A run of rows that starts at the top and is as long as the frame is the frame. */
  lemma WholeRun<C>(r: Frame<C>, f: Frame<C>)
    requires RowRun(r, f, 0) && r.height == f.height
    ensures r == f
  {
    forall c | c in f.data ensures r.data[c] == f.data[c] {
      RowRunColumn(r, f, 0, c);
      assert f.data[c][0..f.height] == f.data[c];
    }
    assert r.data.Keys == f.data.Keys;
    assert r.data == f.data;
  }

  /** Three adjacent runs of rows that start at the top and together are as long
      as the frame give the frame back when put one after the other. */
  lemma ThreeRunsReassemble<C>(t: Frame<C>, v: Frame<C>, e: Frame<C>, f: Frame<C>)
    requires RowRun(t, f, 0) && RowRun(v, f, t.height) && RowRun(e, f, t.height + v.height)
    requires t.height + v.height + e.height == f.height
    ensures Concat(Concat(t, v), e) == f
  {
    ConcatAdjacentRuns(t, v, f, 0);
    ConcatAdjacentRuns(Concat(t, v), e, f, 0);
    WholeRun(Concat(Concat(t, v), e), f);
  }

  /** `df[name] = values`: an existing column is overwritten where it stands, a
      new one is added after the last column; every other column is untouched. */
  function Assign<C>(f: Frame<C>, name: string, values: seq<C>): (r: Frame<C>)
    requires f.Valid() && |values| == f.height
    ensures r.Valid() && r.height == f.height
    ensures name in r.data && r.data[name] == values
    ensures name in f.columns ==> r.columns == f.columns
    ensures name !in f.columns ==> r.columns == f.columns + [name]
    ensures forall c :: c != name ==> (c in r.data <==> c in f.data)
    ensures forall c :: c != name && c in f.data ==> r.data[c] == f.data[c]
  {
    Frame(if name in f.columns then f.columns else f.columns + [name], f.data[name := values], f.height)
  }

  /** A data frame that a script changes in place. */
  class DataFrame<C> {
    var columns: seq<string>
    var data: map<string, seq<C>>
    var height: nat

    /** The frame's current contents as a value. */
    function Snapshot(): Frame<C>
      reads this
    {
      Frame(columns, data, height)
    }

    /** A data frame holding the given contents, as `read_csv` produces one. */
    constructor (f: Frame<C>)
      requires f.Valid()
      ensures Snapshot() == f
    {
      columns, data, height := f.columns, f.data, f.height;
    }

    /** `df[name] = values`, in place. */
    method SetItem(name: string, values: seq<C>)
      requires Snapshot().Valid() && |values| == height
      modifies this
      ensures Snapshot() == Assign(old(Snapshot()), name, values)
    {
      if name !in columns {
        columns := columns + [name];
      }
      data := data[name := values];
    }
  }
}

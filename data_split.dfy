/**
 The dataset splitter: restrict a frame to the canonical columns, then cut its
 rows, by position and in order, into a training part (the first 70%), a
 validation part (the next 15%) and a test part (the rest).
 */
module DataSplit {
  import opened Frames

  /** `int(total_rows * 0.7)`, as exact integer arithmetic: the largest row
      count that is at most 70% of the rows. */
  function TrainEnd(total: nat): (r: nat)
    ensures 10 * r <= 7 * total < 10 * r + 10
  {
    (7 * total) / 10
  }

  /** `train_end + int(total_rows * 0.15)`, as exact integer arithmetic: the
      validation part holds the largest row count that is at most 15% of the rows. */
  function ValidateEnd(total: nat): (r: nat)
    ensures 100 * (r - TrainEnd(total)) <= 15 * total < 100 * (r - TrainEnd(total)) + 100
  {
    TrainEnd(total) + (15 * total) / 100
  }

  /** The two boundaries are ordered and lie within the frame, whatever its size. */
  lemma BoundariesInRange(total: nat)
    ensures 0 <= TrainEnd(total) <= ValidateEnd(total) <= total
  {
  }

  /** The three outputs of the split. */
  datatype Parts<C> = Parts(train: Frame<C>, validate: Frame<C>, test: Frame<C>)

  /** `df.iloc[:a]`, `df.iloc[a:b]` and `df.iloc[b:]` for boundaries `a <= b`:
      each part has the input's columns, its size is fixed by the clamped
      boundaries, and it holds a contiguous run of the input's rows in their
      order, the training rows first, then the validation rows, then the test rows. */
  function Split<C>(f: Frame<C>, a: nat, b: nat): (p: Parts<C>)
    requires f.Valid() && a <= b
    ensures p.train.height == Min(a, f.height)
    ensures p.validate.height == Min(b, f.height) - Min(a, f.height)
    ensures p.test.height == f.height - Min(b, f.height)
    ensures RowRun(p.train, f, 0)
    ensures RowRun(p.validate, f, p.train.height)
    ensures RowRun(p.test, f, p.train.height + p.validate.height)
  {
    Parts(Rows(f, 0, a), Rows(f, a, b), Rows(f, b, f.height))
  }

  /** The partition law: the three parts, put back one after the other, give the
      input frame again, so no row is lost or repeated. */
  lemma SplitReassembles<C>(f: Frame<C>, a: nat, b: nat)
    requires f.Valid() && a <= b
    ensures var p := Split(f, a, b);
      Concat(Concat(p.train, p.validate), p.test) == f
  {
    var p := Split(f, a, b);
    ThreeRunsReassemble(p.train, p.validate, p.test, f);
  }

  /** The split at the integer boundaries: the parts have `int(N * 0.7)`,
      `int(N * 0.15)` and the remaining rows, and together they are the frame. */
  lemma SplitAtBoundaries<C>(f: Frame<C>)
    requires f.Valid()
    ensures var p := Split(f, TrainEnd(f.height), ValidateEnd(f.height));
      && p.train.Valid() && p.validate.Valid() && p.test.Valid()
      && p.train.columns == f.columns && p.validate.columns == f.columns && p.test.columns == f.columns
      && p.train.height == (7 * f.height) / 10
      && p.validate.height == (15 * f.height) / 100
      && p.test.height == f.height - (7 * f.height) / 10 - (15 * f.height) / 100
      && Concat(Concat(p.train, p.validate), p.test) == f
  {
    BoundariesInRange(f.height);
    SplitReassembles(f, TrainEnd(f.height), ValidateEnd(f.height));
  }

  /** `df[names]` followed by the split at the integer boundaries. It fails
      exactly when a listed column is missing; otherwise every part has exactly
      the listed columns in the listed order, the parts have the sizes of the
      boundaries, and together they are the selected frame. */
  function SplitColumns<C>(f: Frame<C>, names: seq<string>): (r: Result<Parts<C>>)
    requires f.Valid() && Distinct(names)
    ensures r.KeyError? <==> exists n :: n in names && n !in f.columns
    ensures r.KeyError? ==> forall n :: n in r.missing <==> n in names && n !in f.columns
    ensures r.Ok? ==> r.value.train.Valid() && r.value.validate.Valid() && r.value.test.Valid()
    ensures r.Ok? ==> && r.value.train.columns == names
                      && r.value.validate.columns == names
                      && r.value.test.columns == names
    ensures r.Ok? ==> && r.value.train.height == TrainEnd(f.height)
                      && r.value.validate.height == ValidateEnd(f.height) - TrainEnd(f.height)
                      && r.value.test.height == f.height - ValidateEnd(f.height)
    ensures r.Ok? ==> Concat(Concat(r.value.train, r.value.validate), r.value.test)
                      == Select(f, names).value
  {
    match Select(f, names)
    case KeyError(missing) => KeyError(missing)
    case Ok(df) =>
      SplitAtBoundaries(df);
      Ok(Split(df, TrainEnd(df.height), ValidateEnd(df.height)))
  }

  /** The script: `df[['Datetime', 'Average_Temp', 'MW']]`, then the split. */
  function SplitDataset<C>(f: Frame<C>): (r: Result<Parts<C>>)
    requires f.Valid()
    ensures r.KeyError? <==> exists n :: n in CanonicalColumns && n !in f.columns
    ensures r.Ok? ==> && r.value.train.columns == CanonicalColumns
                      && r.value.validate.columns == CanonicalColumns
                      && r.value.test.columns == CanonicalColumns
    ensures r.Ok? ==> && r.value.train.height == TrainEnd(f.height)
                      && r.value.validate.height == ValidateEnd(f.height) - TrainEnd(f.height)
                      && r.value.test.height == f.height - ValidateEnd(f.height)
  {
    assert Distinct(CanonicalColumns);
    SplitColumns(f, CanonicalColumns)
  }

  /** Ten rows split at 7 and 8: rows 0 to 6 train, row 7 validates, rows 8 and 9 test. */
  lemma TenRows<C>(f: Frame<C>)
    requires f.Valid() && f.height == 10
    ensures TrainEnd(10) == 7 && ValidateEnd(10) == 8
    ensures var p := Split(f, TrainEnd(10), ValidateEnd(10));
      && p.train.height == 7 && p.validate.height == 1 && p.test.height == 2
      && (forall c :: c in f.data ==> p.train.data[c] == f.data[c][..7])
      && (forall c :: c in f.data ==> p.validate.data[c] == [f.data[c][7]])
      && (forall c :: c in f.data ==> p.test.data[c] == [f.data[c][8], f.data[c][9]])
  {
  }

  /** Fewer than three rows still split without error: validation is empty and
      only a two-row frame puts a row into training. */
  lemma TinyInputs<C>(f: Frame<C>)
    requires f.Valid() && f.height < 3
    ensures var p := Split(f, TrainEnd(f.height), ValidateEnd(f.height));
      && p.train.height == (if f.height == 2 then 1 else 0)
      && p.validate.height == 0
      && p.test.height == f.height - p.train.height
  {
  }
}

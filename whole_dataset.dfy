/**
 The column projector: drop five source-system metadata columns, then reselect
 the frame to exactly the canonical columns, in the canonical order.
 */
module WholeDataset {
  import opened Frames

  /** The metadata columns that are discarded. */
  const ColumnsToDrop: seq<string> := ["local_time", "PNODE_RESMRID", "GRP_TYPE", "POS", "GROUP"]

  /** The canonical list has no repeats and shares no name with the drop list. */
  lemma ListsFacts()
    ensures Distinct(CanonicalColumns)
    ensures forall n :: n in CanonicalColumns ==> n !in ColumnsToDrop
  {
  }

  /** `df.drop(columns=columns_to_drop)` followed by `df[new_column_order]`. It
      succeeds exactly when the frame has all five metadata columns and all three
      canonical ones; the result then has exactly the canonical columns, in order,
      with their rows unchanged. A failure names the missing metadata columns if
      there are any, and otherwise the missing canonical ones. */
  function Project<C>(f: Frame<C>): (r: Result<Frame<C>>)
    requires f.Valid()
    ensures r.Ok? <==> ((forall n :: n in ColumnsToDrop ==> n in f.columns)
                     && (forall n :: n in CanonicalColumns ==> n in f.columns))
    ensures r.Ok? ==> r.value.Valid() && r.value.columns == CanonicalColumns && r.value.height == f.height
    ensures r.Ok? ==> forall c :: c in CanonicalColumns ==> r.value.data[c] == f.data[c]
    ensures r.KeyError? && (exists n :: n in ColumnsToDrop && n !in f.columns) ==>
      forall n :: n in r.missing <==> n in ColumnsToDrop && n !in f.columns
    ensures r.KeyError? && (forall n :: n in ColumnsToDrop ==> n in f.columns) ==>
      forall n :: n in r.missing <==> n in CanonicalColumns && n !in f.columns
  {
    ListsFacts();
    match Drop(f, ColumnsToDrop)
    case KeyError(missing) => KeyError(missing)
    case Ok(g) => Select(g, CanonicalColumns)
  }

  /** Once a drop succeeds, selecting columns it did not drop gives the same
      outcome as selecting them from the original frame. */
  lemma DropThenSelect<C>(f: Frame<C>, labels: seq<string>, names: seq<string>)
    requires f.Valid() && Distinct(names)
    requires forall n :: n in names ==> n !in labels
    requires Drop(f, labels).Ok?
    ensures Select(Drop(f, labels).value, names) == Select(f, names)
  {
    var g := Drop(f, labels).value;
    SelectAgrees(f, g, names);
  }

  /** The drop list and the keep list have no name in common, so whenever the
      drop succeeds the projection is the selection applied to the input. */
  lemma ProjectIsSelect<C>(f: Frame<C>)
    requires f.Valid() && Drop(f, ColumnsToDrop).Ok?
    ensures Project(f) == Select(f, CanonicalColumns)
  {
    ListsFacts();
    DropThenSelect(f, ColumnsToDrop, CanonicalColumns);
  }
}

/** The feature side of the recommender (recommender.py): assembling the feature matrix
    from its blocks (`preprocess_features`) and the user's taste profile, the column-wise
    mean of the feature rows of the liked activities (`calculate_user_profile`). How each
    block is computed (TF-IDF, multi-label, scaling and one-hot encoding) is not modelled:
    each block arrives as an input, `None` when its transformer failed. */
module Features {
  import opened Util
  import opened Activities

  /** A numeric matrix: `cells` holds the rows, `cols` is the number of columns
      (numpy's `shape[1]`, meaningful also when there are no rows). */
  datatype Matrix = Matrix(cells: seq<seq<real>>, cols: nat)

  predicate WellFormed(m: Matrix)
  {
    forall i :: 0 <= i < |m.cells| ==> |m.cells[i]| == m.cols
  }

  // ---------------------------------------------------------------------------
  // Target-group tags
  // ---------------------------------------------------------------------------

  /** The tags of a Zielgruppe cell: split on commas, trimmed, empty pieces dropped
      (an empty cell has no tags). */
  function Tags(zielgruppe: Option<string>): seq<string>
  {
    if zielgruppe.None? then []
    else Filter(Map(Split(zielgruppe.value, ','), Strip), (tag: string) => tag != "")
  }

  /** Every tag is non-empty and free of commas. */
  lemma TagsAreClean(zielgruppe: Option<string>)
    ensures forall tag :: tag in Tags(zielgruppe) ==> tag != "" && ',' !in tag
  {
    if zielgruppe.Some? {
      var pieces := Map(Split(zielgruppe.value, ','), Strip);
      forall tag | tag in pieces ensures ',' !in tag {
        var i :| 0 <= i < |pieces| && pieces[i] == tag;
        var raw := Split(zielgruppe.value, ',')[i];
        assert raw in Split(zielgruppe.value, ',');
        StripIsPart(raw);
      }
    }
  }

  /** Some row has at least one tag (`any` over the lists of tags). */
  predicate AnyTag(t: seq<Activity>)
  {
    t != [] && (Tags(t[0].zielgruppe) != [] || AnyTag(t[1..]))
  }

  // ---------------------------------------------------------------------------
  // Assembling the feature matrix
  // ---------------------------------------------------------------------------

  predicate SameHeight(blocks: seq<Matrix>)
  {
    forall b :: b in blocks ==> |b.cells| == |blocks[0].cells|
  }

  function TotalCols(blocks: seq<Matrix>): nat
  {
    if blocks == [] then 0 else blocks[0].cols + TotalCols(blocks[1..])
  }

  /** Row `i` of every block, side by side. */
  function JoinedRow(blocks: seq<Matrix>, i: nat): seq<real>
    requires forall b :: b in blocks ==> i < |b.cells|
  {
    if blocks == [] then [] else blocks[0].cells[i] + JoinedRow(blocks[1..], i)
  }

  lemma {:induction false} JoinedRowLength(blocks: seq<Matrix>, i: nat)
    requires forall b :: b in blocks ==> i < |b.cells| && WellFormed(b)
    ensures |JoinedRow(blocks, i)| == TotalCols(blocks)
  {
    if blocks != [] {
      assert blocks[0] in blocks;
      JoinedRowLength(blocks[1..], i);
    }
  }

  /** `np.hstack`: fails (`None`) on an empty list or on blocks of different heights. */
  function HStack(blocks: seq<Matrix>): (r: Option<Matrix>)
    ensures r.Some? ==> blocks != [] && |r.value.cells| == |blocks[0].cells| && r.value.cols == TotalCols(blocks)
  {
    if blocks == [] || !SameHeight(blocks) then None
    else
      var height := |blocks[0].cells|;
      Some(Matrix(seq(height, i requires 0 <= i < height => JoinedRow(blocks, i)), TotalCols(blocks)))
  }

  /** Stacking well-formed blocks gives a well-formed matrix whose row `i` is the
      concatenation of the blocks' rows `i`, in block order. */
  lemma HStackRows(blocks: seq<Matrix>)
    requires forall b :: b in blocks ==> WellFormed(b)
    ensures HStack(blocks).None? <==> blocks == [] || !SameHeight(blocks)
    ensures HStack(blocks).Some? ==>
      (WellFormed(HStack(blocks).value)
       && forall i :: 0 <= i < |blocks[0].cells| ==>
         ((forall b :: b in blocks ==> i < |b.cells|) && HStack(blocks).value.cells[i] == JoinedRow(blocks, i)))
  {
    if HStack(blocks).Some? {
      forall i | 0 <= i < |blocks[0].cells| ensures |HStack(blocks).value.cells[i]| == TotalCols(blocks) {
        JoinedRowLength(blocks, i);
      }
    }
  }

  /** The blocks that were built, in the source's order: text, target groups (only when some
      row has a tag), then price/type/indoor-outdoor. */
  function Present(text: Option<Matrix>, tags: Option<Matrix>, ct: Option<Matrix>, anyTag: bool): (r: seq<Matrix>)
    ensures |r| <= 3
  {
    (if text.Some? then [text.value] else [])
    + (if anyTag && tags.Some? then [tags.value] else [])
    + (if ct.Some? then [ct.value] else [])
  }

  /** `preprocess_features`, collecting the blocks that were built and stacking them. */
  method PreprocessFeatures(t: seq<Activity>, textBlock: Option<Matrix>, tagBlock: Option<Matrix>, ctBlock: Option<Matrix>)
    returns (features: Option<Matrix>)
    ensures t == [] ==> features.None?
    ensures t != [] ==> features == HStack(Present(textBlock, tagBlock, ctBlock, AnyTag(t)))
  {
    if t == [] {
      return None;
    }
    var blocks: seq<Matrix> := [];
    if textBlock.Some? {
      blocks := blocks + [textBlock.value];
    }
    ghost var afterText := blocks;
    var anyTag := AnyTag(t);
    if anyTag && tagBlock.Some? {
      blocks := blocks + [tagBlock.value];
    }
    ghost var afterTags := blocks;
    assert afterTags == afterText + (if anyTag && tagBlock.Some? then [tagBlock.value] else []);
    if ctBlock.Some? {
      blocks := blocks + [ctBlock.value];
    }
    assert blocks == afterTags + (if ctBlock.Some? then [ctBlock.value] else []);
    assert blocks == Present(textBlock, tagBlock, ctBlock, anyTag);
    if blocks == [] {
      return None;
    }
    features := HStack(blocks);
  }

  /** No matrix when no block was built; when there is one, its width is the sum of the widths
      of the blocks that were built, and without any tag the target-group block plays no part. */
  lemma PresentBlocks(text: Option<Matrix>, tags: Option<Matrix>, ct: Option<Matrix>, anyTag: bool)
    ensures Present(text, tags, ct, anyTag) == [] <==> text.None? && (!anyTag || tags.None?) && ct.None?
    ensures HStack(Present(text, tags, ct, anyTag)).Some? ==>
      HStack(Present(text, tags, ct, anyTag)).value.cols ==
        (if text.Some? then text.value.cols else 0) + (if anyTag && tags.Some? then tags.value.cols else 0)
        + (if ct.Some? then ct.value.cols else 0)
    ensures !anyTag ==> Present(text, tags, ct, anyTag) == Present(text, None, ct, false)
  {
    var blocks := Present(text, tags, ct, anyTag);
    var a := if text.Some? then [text.value] else [];
    var b := if anyTag && tags.Some? then [tags.value] else [];
    var c := if ct.Some? then [ct.value] else [];
    TotalColsAppend(a, b);
    TotalColsAppend(a + b, c);
  }

  lemma {:induction false} TotalColsAppend(a: seq<Matrix>, b: seq<Matrix>)
    ensures TotalCols(a + b) == TotalCols(a) + TotalCols(b)
  {
    if a == [] {
      assert a + b == b;
    } else {
      assert (a + b)[1..] == a[1..] + b;
      TotalColsAppend(a[1..], b);
    }
  }

  // ---------------------------------------------------------------------------
  // The user profile
  // ---------------------------------------------------------------------------

  /** The positions of the rows whose ID is liked, in table order. */
  function LikedPositions(t: seq<Activity>, liked: seq<int>, from: nat): (r: seq<nat>)
    requires from <= |t|
    ensures forall k: nat :: k in r <==> from <= k < |t| && t[k].id in liked
    ensures forall i, j :: 0 <= i < j < |r| ==> r[i] < r[j]
    ensures forall i :: 0 <= i < |r| ==> from <= r[i]
    decreases |t| - from
  {
    if from == |t| then []
    else if t[from].id in liked then [from] + LikedPositions(t, liked, from + 1)
    else LikedPositions(t, liked, from + 1)
  }

  /** The liked positions that are rows of the matrix. */
  function UsablePositions(t: seq<Activity>, liked: seq<int>, m: Matrix): (r: seq<nat>)
    ensures forall k: nat :: k in r <==> k < |t| && k < |m.cells| && t[k].id in liked
  {
    Filter(LikedPositions(t, liked, 0), (k: nat) => k < |m.cells|)
  }

  function ColumnSum(m: Matrix, rows: seq<nat>, j: nat): real
    requires WellFormed(m) && j < m.cols
    requires forall i :: 0 <= i < |rows| ==> rows[i] < |m.cells|
  {
    if rows == [] then 0.0 else m.cells[rows[0]][j] + ColumnSum(m, rows[1..], j)
  }

  /** `np.mean(rows, axis=0)`. */
  function ColumnMeans(m: Matrix, rows: seq<nat>): (r: seq<real>)
    requires WellFormed(m) && rows != []
    requires forall i :: 0 <= i < |rows| ==> rows[i] < |m.cells|
    ensures |r| == m.cols
  {
    seq(m.cols, j requires 0 <= j < m.cols => ColumnSum(m, rows, j) / (|rows| as real))
  }

  /** `calculate_user_profile`: `None` when the matrix is missing or has no columns, the
      table is empty, nothing is liked, or no liked row is a row of the matrix; otherwise the
      column-wise mean over the liked rows. Disliked IDs are accepted and ignored. */
  function CalculateUserProfile(liked: seq<int>, disliked: seq<int>, features: Option<Matrix>, t: seq<Activity>): (r: Option<seq<real>>)
    requires features.Some? ==> WellFormed(features.value)
    ensures r.Some? ==> features.Some? && |r.value| == features.value.cols
  {
    if features.None? || features.value.cols == 0 || t == [] || liked == [] then None
    else
      var rows := UsablePositions(t, liked, features.value);
      if rows == [] then None else Some(ColumnMeans(features.value, rows))
  }

  /** The four cases without a profile. */
  lemma ProfileNoneCases(liked: seq<int>, disliked: seq<int>, features: Option<Matrix>, t: seq<Activity>)
    requires features.Some? ==> WellFormed(features.value)
    ensures CalculateUserProfile(liked, disliked, features, t).None? <==>
      features.None? || features.value.cols == 0 || t == [] || liked == []
      || forall k :: 0 <= k < |t| && t[k].id in liked ==> k >= |features.value.cells|
  {
    if features.Some? && features.value.cols != 0 && t != [] && liked != [] {
      var rows := UsablePositions(t, liked, features.value);
      if rows != [] {
        assert rows[0] in rows;
      }
    }
  }

  /** Only which IDs are liked matters: their order, repetitions, IDs that match no row, and
      the disliked IDs make no difference. */
  lemma ProfileDependsOnlyOnLikedRows(l1: seq<int>, d1: seq<int>, l2: seq<int>, d2: seq<int>, features: Option<Matrix>, t: seq<Activity>)
    requires features.Some? ==> WellFormed(features.value)
    requires l1 != [] <==> l2 != []
    requires forall k :: 0 <= k < |t| ==> (t[k].id in l1 <==> t[k].id in l2)
    ensures CalculateUserProfile(l1, d1, features, t) == CalculateUserProfile(l2, d2, features, t)
  {
    if features.Some? && t != [] {
      LikedPositionsSame(t, l1, l2, 0);
    }
  }

  lemma {:induction false} LikedPositionsSame(t: seq<Activity>, l1: seq<int>, l2: seq<int>, from: nat)
    requires from <= |t|
    requires forall k :: 0 <= k < |t| ==> (t[k].id in l1 <==> t[k].id in l2)
    ensures LikedPositions(t, l1, from) == LikedPositions(t, l2, from)
    decreases |t| - from
  {
    if from < |t| {
      LikedPositionsSame(t, l1, l2, from + 1);
    }
  }

  lemma {:induction false} ColumnSumBounds(m: Matrix, rows: seq<nat>, j: nat, lo: real, hi: real)
    requires WellFormed(m) && j < m.cols
    requires forall i :: 0 <= i < |rows| ==> rows[i] < |m.cells| && lo <= m.cells[rows[i]][j] <= hi
    ensures (|rows| as real) * lo <= ColumnSum(m, rows, j) <= (|rows| as real) * hi
  {
    if rows != [] {
      ColumnSumBounds(m, rows[1..], j, lo, hi);
    }
  }

  /** Each profile component is a mean: it lies between the smallest and the largest value of
      that column among the liked rows. */
  lemma ProfileWithinLikedRange(liked: seq<int>, disliked: seq<int>, features: Option<Matrix>, t: seq<Activity>, j: nat, lo: real, hi: real)
    requires features.Some? ==> WellFormed(features.value)
    requires CalculateUserProfile(liked, disliked, features, t).Some?
    requires j < features.value.cols
    requires forall k :: 0 <= k < |t| && k < |features.value.cells| && t[k].id in liked ==>
      lo <= features.value.cells[k][j] <= hi
    ensures lo <= CalculateUserProfile(liked, disliked, features, t).value[j] <= hi
  {
    var m := features.value;
    var rows := UsablePositions(t, liked, m);
    forall i | 0 <= i < |rows| ensures rows[i] < |m.cells| && lo <= m.cells[rows[i]][j] <= hi {
      assert rows[i] in rows;
    }
    MeanWithin(m, rows, j, lo, hi);
  }

  lemma MeanWithin(m: Matrix, rows: seq<nat>, j: nat, lo: real, hi: real)
    requires WellFormed(m) && j < m.cols && rows != []
    requires forall i :: 0 <= i < |rows| ==> rows[i] < |m.cells| && lo <= m.cells[rows[i]][j] <= hi
    ensures lo <= ColumnMeans(m, rows)[j] <= hi
  {
    ColumnSumBounds(m, rows, j, lo, hi);
    DivBounds(ColumnSum(m, rows, j), |rows| as real, lo, hi);
  }

  lemma DivBounds(s: real, n: real, lo: real, hi: real)
    requires n > 0.0 && n * lo <= s <= n * hi
    ensures lo <= s / n <= hi
  {
    assert s / n - lo == (s - n * lo) / n;
    assert hi - s / n == (n * hi - s) / n;
  }
}

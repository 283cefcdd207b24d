/** The gallery widget's identity: CodeMirror asks `eq` whether an existing
    widget can be kept instead of rebuilt. A gallery is a list of rows of
    images; its id joins each row's sources with `|` and the rows with `$`,
    and its column key joins the row lengths with `|`. */
module GalleryWidget {
  import opened Wrappers
  import opened JsString
  import opened ImageTypes

  type Gallery = seq<seq<ImageNode>>

  /** The sources of one row, in order. */
  function Srcs(items: seq<ImageNode>): (r: seq<string>)
    ensures |r| == |items|
    ensures forall k :: 0 <= k < |items| ==> r[k] == items[k].src
  {
    if |items| == 0 then [] else [items[0].src] + Srcs(items[1..])
  }

  /** The sources of every row: the only part of a gallery `eq` reads. */
  function SrcMatrix(g: Gallery): (m: seq<seq<string>>)
    ensures |m| == |g|
    ensures forall r :: 0 <= r < |g| ==> m[r] == Srcs(g[r])
  {
    if |g| == 0 then [] else [Srcs(g[0])] + SrcMatrix(g[1..])
  }

  /** Key of one row. */
  function RowId(items: seq<ImageNode>): string
  {
    Join(Srcs(items), '|')
  }

  function RowIds(g: Gallery): (r: seq<string>)
    ensures |r| == |g|
    ensures forall k :: 0 <= k < |g| ==> r[k] == RowId(g[k])
  {
    if |g| == 0 then [] else [RowId(g[0])] + RowIds(g[1..])
  }

  /** `id`: the row keys joined with `$`. */
  function Id(g: Gallery): string
  {
    Join(RowIds(g), '$')
  }

  /** The row lengths as decimal strings. */
  function Counts(g: Gallery): (r: seq<string>)
    ensures |r| == |g|
    ensures forall k :: 0 <= k < |g| ==> r[k] == Decimal(|g[k]|)
  {
    if |g| == 0 then [] else [Decimal(|g[0]|)] + Counts(g[1..])
  }

  /** `columns`: the row lengths joined with `|`. */
  function Columns(g: Gallery): string
  {
    Join(Counts(g), '|')
  }

  /** `eq`: same number of rows, then same columns key, then same id. */
  function Eq(a: Gallery, b: Gallery): bool
  {
    if |a| != |b| then false
    else if Columns(a) != Columns(b) then false
    else Id(a) == Id(b)
  }

  /** Two galleries have the same shape: as many rows, and rows of equal length. */
  ghost predicate SameShape(a: Gallery, b: Gallery)
  {
    |a| == |b| && forall r :: 0 <= r < |a| ==> |a[r]| == |b[r]|
  }

  // ---------------------------------------------------------------------
  // Properties
  // ---------------------------------------------------------------------

  lemma EqReflexive(a: Gallery)
    ensures Eq(a, a)
  {
  }

  lemma EqSymmetric(a: Gallery, b: Gallery)
    ensures Eq(a, b) == Eq(b, a)
  {
  }

  lemma EqTransitive(a: Gallery, b: Gallery, c: Gallery)
    requires Eq(a, b) && Eq(b, c)
    ensures Eq(a, c)
  {
  }

  /** Digits never contain the `|` separator. */
  lemma CountsSeparatorFree(g: Gallery)
    ensures SeparatorFree(Counts(g), '|')
  {
    forall k | 0 <= k < |g| ensures '|' !in Counts(g)[k] {
      DigitsHaveNoBar(Decimal(|g[k]|));
    }
  }

  lemma DigitsHaveNoBar(d: string)
    requires forall k :: 0 <= k < |d| ==> '0' <= d[k] <= '9'
    ensures '|' !in d
  {
  }

  /** The columns key determines the shape, and the shape the key: equal keys
      hold exactly for galleries with as many rows, of the same lengths. In
      particular the row-count test in `eq` never decides anything the
      columns test would not. */
  lemma ColumnsIffSameShape(a: Gallery, b: Gallery)
    ensures Columns(a) == Columns(b) <==> SameShape(a, b)
  {
    if Columns(a) == Columns(b) {
      CountsSeparatorFree(a);
      CountsSeparatorFree(b);
      if |a| == 0 || |b| == 0 {
        if |a| > 0 {
          JoinNonEmpty(Counts(a), '|');
        } else if |b| > 0 {
          JoinNonEmpty(Counts(b), '|');
        }
      } else {
        JoinInjective(Counts(a), Counts(b), '|');
        forall r | 0 <= r < |a| ensures |a[r]| == |b[r]| {
          assert Counts(a)[r] == Counts(b)[r];
          DecimalInjective(|a[r]|, |b[r]|);
        }
      }
    }
    if SameShape(a, b) {
      assert Counts(a) == Counts(b);
    }
  }

  /** A join of at least one non-empty part is non-empty. */
  lemma JoinNonEmpty(parts: seq<string>, sep: char)
    requires |parts| > 0 && |parts[0]| > 0
    ensures |Join(parts, sep)| > 0
  {
  }

  /** `eq` implies the same number of rows and rows of the same lengths. */
  lemma EqSameShape(a: Gallery, b: Gallery)
    requires Eq(a, b)
    ensures SameShape(a, b)
  {
    ColumnsIffSameShape(a, b);
  }

  /** `eq` reads nothing but the sources: galleries whose source matrices
      agree are equal whatever their alt texts, titles and offsets. */
  lemma SameSrcsEq(a: Gallery, b: Gallery)
    requires SrcMatrix(a) == SrcMatrix(b)
    ensures Eq(a, b)
  {
    assert SameShape(a, b) by {
      forall r | 0 <= r < |a| ensures |a[r]| == |b[r]| {
        assert Srcs(a[r]) == SrcMatrix(a)[r];
      }
    }
    ColumnsIffSameShape(a, b);
    assert RowIds(a) == RowIds(b) by {
      forall k | 0 <= k < |a| ensures RowIds(a)[k] == RowIds(b)[k] {
        assert Srcs(a[k]) == SrcMatrix(a)[k];
      }
    }
  }

  /** No source contains either separator. */
  ghost predicate PlainSrcs(g: Gallery)
  {
    forall r, k :: 0 <= r < |g| && 0 <= k < |g[r]| ==> '|' !in g[r][k].src && '$' !in g[r][k].src
  }

  /** With no `|` or `$` in any source, `eq` holds exactly when the source
      matrices are identical. */
  lemma EqIffSameSrcs(a: Gallery, b: Gallery)
    requires PlainSrcs(a) && PlainSrcs(b)
    ensures Eq(a, b) <==> SrcMatrix(a) == SrcMatrix(b)
  {
    if SrcMatrix(a) == SrcMatrix(b) {
      SameSrcsEq(a, b);
    }
    if Eq(a, b) {
      EqSameShape(a, b);
      RowIdsSeparatorFree(a);
      RowIdsSeparatorFree(b);
      JoinInjectiveSameLength(RowIds(a), RowIds(b), '$');
      forall r | 0 <= r < |a| ensures SrcMatrix(a)[r] == SrcMatrix(b)[r] {
        assert RowIds(a)[r] == RowIds(b)[r];
        SrcsSeparatorFree(a, r);
        SrcsSeparatorFree(b, r);
        JoinInjectiveSameLength(Srcs(a[r]), Srcs(b[r]), '|');
      }
    }
  }

  lemma SrcsSeparatorFree(g: Gallery, r: nat)
    requires PlainSrcs(g) && r < |g|
    ensures SeparatorFree(Srcs(g[r]), '|')
    ensures forall k :: 0 <= k < |g[r]| ==> '$' !in Srcs(g[r])[k]
  {
  }

  /** Row keys of plain sources contain no `$`. */
  lemma RowIdsSeparatorFree(g: Gallery)
    requires PlainSrcs(g)
    ensures SeparatorFree(RowIds(g), '$')
  {
    forall r | 0 <= r < |g| ensures '$' !in RowIds(g)[r] {
      SrcsSeparatorFree(g, r);
      JoinChars(Srcs(g[r]), '|', '$');
    }
  }

  /** Without the separator condition `eq` is coarser than source equality:
      one row `x|y`, `z` and one row `x`, `y|z` have the same columns key
      `2` and the same id `x|y|z`. */
  lemma SeparatorInSrcCollides(a: Gallery, b: Gallery)
    requires a == [[ImageNode("x|y", 0, 0, None, None), ImageNode("z", 0, 0, None, None)]]
    requires b == [[ImageNode("x", 0, 0, None, None), ImageNode("y|z", 0, 0, None, None)]]
    ensures Eq(a, b) && SrcMatrix(a) != SrcMatrix(b)
  {
    assert SrcMatrix(a)[0][0] == "x|y";
    assert SrcMatrix(b)[0][0] == "x";
    assert Srcs(a[0]) == ["x|y", "z"];
    assert Srcs(b[0]) == ["x", "y|z"];
    assert RowIds(a) == [RowId(a[0])];
    assert RowIds(b) == [RowId(b[0])];
    assert RowId(a[0]) == "x|y" + "|" + "z";
    assert RowId(b[0]) == "x" + "|" + "y|z";
    ColumnsIffSameShape(a, b);
  }
}

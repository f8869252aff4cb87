/**
 * `view_data.py`: from each input file, the first `n` rows in `hash(review_id)`
 * order, tagged with the file's base name; the per-file samples joined by
 * `UNION ALL` in file order.
 */
module Sample {
  import opened Wrappers
  import opened Seqs
  import opened Text
  import opened Inputs
  import opened Rows

  /** `ORDER BY hash(review_id)`: rows compared by the hash of their review id. */
  function ByHash(hash: Option<string> -> int): (RawRow, RawRow) -> bool
  {
    (a: RawRow, b: RawRow) => hash(a.meta.reviewId) <= hash(b.meta.reviewId)
  }

  lemma ByHashPreorder(hash: Option<string> -> int)
    ensures TotalPreorder(ByHash(hash))
  {
    var le := ByHash(hash);
    forall a, b
      ensures Comparable(le, a, b)
    {
    }
    forall a, b, c
      ensures Chains(le, a, b, c)
    {
    }
  }

  /** The file's rows in hash order (ties keep their scan order). */
  function Ordered(hash: Option<string> -> int, rows: seq<RawRow>): seq<RawRow>
  {
    SortBy(rows, ByHash(hash))
  }

  function Min(a: int, b: int): int
  {
    if a <= b then a else b
  }

  /** `LIMIT n`. */
  function Limit<T>(n: nat, s: seq<T>): (r: seq<T>)
    ensures |r| == Min(n, |s|) && r == s[..|r|]
  {
    if n <= |s| then s[..n] else s
  }

  /** The SELECT list of one per-file query, with `source` the literal `'…' AS source_file`. */
  function Tag(source: string, r: RawRow): SampleRow
  {
    SampleRow(ToDate(r.reviewDate), r.meta, r.headline, r.body, source)
  }

  function TagAll(source: string, rows: seq<RawRow>): (r: seq<SampleRow>)
    ensures |r| == |rows|
    ensures forall i :: 0 <= i < |rows| ==> r[i] == Tag(source, rows[i])
  {
    if rows == [] then [] else [Tag(source, rows[0])] + TagAll(source, rows[1..])
  }

  /** The sample of file `path` with rows `rows`. */
  function SampleFile(hash: Option<string> -> int, path: string, rows: seq<RawRow>, n: nat): seq<SampleRow>
  {
    TagAll(BaseName(path), Limit(n, Ordered(hash, rows)))
  }

  /**
   * Each file contributes exactly `min(n, |rows|)` rows (no row is filtered
   * out), they come in hash order, no dropped row has a smaller hash than a
   * kept one, and each is tagged with the file's base name.
   */
  lemma SampleIsLowestHashes(hash: Option<string> -> int, path: string, rows: seq<RawRow>, n: nat)
    ensures var kept := Limit(n, Ordered(hash, rows));
            var dropped := Ordered(hash, rows)[|kept|..];
            && |SampleFile(hash, path, rows, n)| == Min(n, |rows|)
            && SortedBy(kept, ByHash(hash))
            && multiset(kept) + multiset(dropped) == multiset(rows)
            && (forall i, j :: 0 <= i < |kept| && 0 <= j < |dropped| ==>
                  hash(kept[i].meta.reviewId) <= hash(dropped[j].meta.reviewId))
            && forall k :: 0 <= k < |kept| ==> SampleFile(hash, path, rows, n)[k] == Tag(BaseName(path), kept[k])
  {
    KeptBelowDropped(hash, rows, n);
  }

  lemma KeptBelowDropped(hash: Option<string> -> int, rows: seq<RawRow>, n: nat)
    ensures var kept := Limit(n, Ordered(hash, rows));
            var dropped := Ordered(hash, rows)[|kept|..];
            && SortedBy(kept, ByHash(hash))
            && multiset(kept) + multiset(dropped) == multiset(rows)
            && (forall i, j :: 0 <= i < |kept| && 0 <= j < |dropped| ==>
                  hash(kept[i].meta.reviewId) <= hash(dropped[j].meta.reviewId))
  {
    var o := Ordered(hash, rows);
    ByHashPreorder(hash);
    SortBySorted(rows, ByHash(hash));
    var kept := Limit(n, o);
    var dropped := o[|kept|..];
    assert kept == o[..|kept|];
    SortedSplit(o, |kept|, ByHash(hash));
    SplitMultiset(o, |kept|);
    forall i, j | 0 <= i < |kept| && 0 <= j < |dropped|
      ensures hash(kept[i].meta.reviewId) <= hash(dropped[j].meta.reviewId)
    {
      assert ByHash(hash)(kept[i], dropped[j]);
    }
  }

  /**
   * The sample does not depend on how the engine breaks ties: when distinct
   * rows of the file have distinct hashes, every hash-sorted arrangement of
   * the rows has the same first `n`.
   */
  lemma SampleDeterministic(hash: Option<string> -> int, rows: seq<RawRow>, n: nat, arranged: seq<RawRow>)
    requires SortedBy(arranged, ByHash(hash)) && multiset(arranged) == multiset(rows)
    requires forall a, b :: a in rows && b in rows && hash(a.meta.reviewId) == hash(b.meta.reviewId) ==> a == b
    ensures Limit(n, arranged) == Limit(n, Ordered(hash, rows))
  {
    var o := Ordered(hash, rows);
    ByHashPreorder(hash);
    SortBySorted(rows, ByHash(hash));
    SameElements(o, rows);
    assert SeparatesAll(o, ByHash(hash));
    SortedPermutationUnique(o, arranged, ByHash(hash));
  }

  // ---------------------------------------------------------------------------
  // The per-file queries and their union

  /** One `( SELECT … FROM read_parquet('<file>') ORDER BY hash(review_id) LIMIT n )`. */
  datatype SelectQuery = SelectQuery(sourceLiteral: string, fileLiteral: string, limit: nat)

  /** Lines 43-72: the file name with quotes doubled, and the base name of that escaped path. */
  function SelectFor(f: string, n: nat): SelectQuery
  {
    var escaped := Escape(f);
    SelectQuery(Quoted(BaseName(escaped)), Quoted(escaped), n)
  }

  /** The loop of `main` that builds `selects`, one query per file. */
  method BuildSelects(files: seq<string>, n: nat) returns (selects: seq<SelectQuery>)
    ensures |selects| == |files|
    ensures forall i :: 0 <= i < |files| ==> selects[i] == SelectFor(files[i], n)
  {
    selects := [];
    for i := 0 to |files|
      invariant |selects| == i
      invariant forall j :: 0 <= j < i ==> selects[j] == SelectFor(files[j], n)
    {
      var escaped := Escape(files[i]);
      selects := selects + [SelectQuery(Quoted(BaseName(escaped)), Quoted(escaped), n)];
    }
  }

  /** How the engine evaluates one select: read the file the literal names, order, limit, tag. */
  function EvalSelect(q: SelectQuery, read: string -> seq<RawRow>, hash: Option<string> -> int): Option<seq<SampleRow>>
  {
    match (LiteralValue(q.fileLiteral), LiteralValue(q.sourceLiteral))
    case (Some(path), Some(source)) => Some(TagAll(source, Limit(q.limit, Ordered(hash, read(path)))))
    case _ => None
  }

  /** `UNION ALL` of the selects, in list order; None if a literal of some select is not one literal. */
  function EvalUnion(qs: seq<SelectQuery>, read: string -> seq<RawRow>, hash: Option<string> -> int): Option<seq<SampleRow>>
  {
    if qs == [] then Some([])
    else
      match (EvalSelect(qs[0], read, hash), EvalUnion(qs[1..], read, hash))
      case (Some(a), Some(b)) => Some(a + b)
      case _ => None
  }

  /** The per-file samples, concatenated in file order. */
  function Samples(files: seq<string>, read: string -> seq<RawRow>, hash: Option<string> -> int, n: nat): seq<SampleRow>
  {
    if files == [] then [] else SampleFile(hash, files[0], read(files[0]), n) + Samples(files[1..], read, hash, n)
  }

  /** The select built for `f` reads `f` itself and tags its rows with the base name of `f`. */
  lemma SelectReadsFile(f: string, n: nat, read: string -> seq<RawRow>, hash: Option<string> -> int)
    ensures EvalSelect(SelectFor(f, n), read, hash) == Some(SampleFile(hash, f, read(f), n))
  {
    LiteralOfEscaped(f);
    BaseNameEscape(f);
    LiteralOfEscaped(BaseName(f));
  }

  /** The union of the built selects is the concatenation of the per-file samples. */
  lemma {:induction false} UnionIsSamples(files: seq<string>, n: nat, read: string -> seq<RawRow>,
                                          hash: Option<string> -> int, qs: seq<SelectQuery>)
    requires |qs| == |files| && forall i :: 0 <= i < |files| ==> qs[i] == SelectFor(files[i], n)
    ensures EvalUnion(qs, read, hash) == Some(Samples(files, read, hash, n))
  {
    if files != [] {
      SelectReadsFile(files[0], n, read, hash);
      UnionIsSamples(files[1..], n, read, hash, qs[1..]);
    }
  }

  lemma MulSucc(k: nat, n: nat)
    ensures (k + 1) * n == k * n + n
  {
  }

  /** At most `n` rows per file: the total never exceeds the printed `len(files) * n`. */
  lemma {:induction false} SamplesBound(files: seq<string>, read: string -> seq<RawRow>, hash: Option<string> -> int, n: nat)
    ensures |Samples(files, read, hash, n)| <= |files| * n
  {
    if files != [] {
      SamplesBound(files[1..], read, hash, n);
      assert |SampleFile(hash, files[0], read(files[0]), n)| <= n;
      var k := |files[1..]|;
      assert |files| == k + 1;
      MulSucc(k, n);
    }
  }

  /** Every sampled row is a row of one of the files, tagged with that file's base name. */
  lemma {:induction false} SamplesProvenance(files: seq<string>, read: string -> seq<RawRow>, hash: Option<string> -> int, n: nat)
    ensures forall o :: o in Samples(files, read, hash, n) ==>
              exists i, r :: 0 <= i < |files| && r in read(files[i]) && o == Tag(BaseName(files[i]), r)
  {
    if files != [] {
      SamplesProvenance(files[1..], read, hash, n);
      var f := files[0];
      var kept := Limit(n, Ordered(hash, read(f)));
      SameElements(Ordered(hash, read(f)), read(f));
      forall o | o in Samples(files, read, hash, n)
        ensures exists i, r :: 0 <= i < |files| && r in read(files[i]) && o == Tag(BaseName(files[i]), r)
      {
        if o in SampleFile(hash, f, read(f), n) {
          var k :| 0 <= k < |kept| && SampleFile(hash, f, read(f), n)[k] == o;
          assert kept[k] in Ordered(hash, read(f));
        } else {
          assert o in Samples(files[1..], read, hash, n);
          var i, r :| 0 <= i < |files[1..]| && r in read(files[1..][i]) && o == Tag(BaseName(files[1..][i]), r);
          assert files[1..][i] == files[i + 1];
        }
      }
    }
  }

  // ---------------------------------------------------------------------------
  // main

  /** What one run hands to the engine and what the engine writes. */
  datatype SampleRun = SampleRun(selects: seq<SelectQuery>, outLiteral: string, rows: seq<SampleRow>, expectedTotal: int)

  /** The diagnostic of lines 32-36. */
  function NoFilesMessage(dataDir: string): string
  {
    "No files found. Expected something like:\n  " + Join(dataDir, "amazon_reviews_2010.snappy.parquet")
    + "\nCheck --data_dir and filenames."
  }

  /**
   * `main`: find the files, build one select per file, run their union.
   * `names` are the entries of the data directory, `read` gives the rows of a
   * file and `hash` is the engine's `hash` on review ids.
   */
  method ViewData(dataDir: string, names: seq<string>, read: string -> seq<RawRow>,
                  hash: Option<string> -> int, n: nat, out: string)
    returns (result: Result<SampleRun, string>)
    ensures var files := FindParquetFiles(dataDir, names);
            if files == [] then result == Failure(NoFilesMessage(dataDir))
            else
              && result.Success?
              && |result.value.selects| == |files|
              && (forall i :: 0 <= i < |files| ==> result.value.selects[i] == SelectFor(files[i], n))
              && LiteralValue(result.value.outLiteral) == Some(out)
              && result.value.rows == Samples(files, read, hash, n)
              && result.value.expectedTotal == |files| * n
              && |result.value.rows| <= result.value.expectedTotal
  {
    var files := FindParquetFiles(dataDir, names);
    if files == [] {
      return Failure(NoFilesMessage(dataDir));
    }
    var selects := BuildSelects(files, n);
    LiteralOfEscaped(out);
    var outLit := Quoted(Escape(out));
    UnionIsSamples(files, n, read, hash, selects);
    SamplesBound(files, read, hash, n);
    match EvalUnion(selects, read, hash)
    case Some(rows) =>
      result := Success(SampleRun(selects, outLit, rows, |files| * n));
    case None =>
      assert false;
  }
}

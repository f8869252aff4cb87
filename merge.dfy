/**
 * `merge_clean_all.py`: one scan of every input file, a conjunctive validity
 * filter, a per-row projection, and one output file.
 */
module Merge {
  import opened Wrappers
  import opened Seqs
  import opened Text
  import opened Calendar
  import opened Inputs
  import opened Rows

  // ---------------------------------------------------------------------------
  // The row filter and projection of the COPY query

  /** `try_cast(col AS VARCHAR)`: NULL for NULL and for bytes that are not valid text. */
  function TryCastText(decode: Bytes -> Option<string>, v: Option<Bytes>): Option<string>
  {
    match v
    case None => None
    case Some(b) => decode(b)
  }

  /** `t IS NOT NULL AND TRIM(t) <> ''`. */
  predicate HasText(t: Option<string>)
  {
    t.Some? && Trim(t.value) != ""
  }

  /** `helpful_votes IS NULL OR total_votes IS NULL OR helpful_votes <= total_votes`. */
  predicate VotesConsistent(m: Meta)
  {
    m.helpfulVotes.None? || m.totalVotes.None? || m.helpfulVotes.value <= m.totalVotes.value
  }

  /** `star_rating IS NULL OR star_rating BETWEEN 1 AND 5`. */
  predicate RatingInRange(m: Meta)
  {
    m.starRating.None? || 1 <= m.starRating.value <= 5
  }

  /** The WHERE clause of the query, lines 83-88: all four conditions, whatever the flags. */
  predicate Keep(decode: Bytes -> Option<string>, r: RawRow)
    ensures forall path :: Keep(decode, r) <==> Valid(decode, Clean(path, r))
  {
    && VotesConsistent(r.meta)
    && RatingInRange(r.meta)
    && HasText(TryCastText(decode, r.meta.productCategory))
    && HasText(TryCastText(decode, r.body))
  }

  /** The SELECT list: the date and its year, the copied columns, the two blobs and the file name. */
  function Clean(path: string, r: RawRow): (o: CleanRow)
    ensures YearOfDate(o.reviewDate) == o.reviewYear
    ensures o.meta == r.meta && o.headlineBlob == r.headline && o.bodyBlob == r.body && o.sourceFile == path
  {
    var d := ToDate(r.reviewDate);
    CleanRow(d, YearOfDate(d), r.meta, r.headline, r.body, path)
  }

  /** One scanned file: the `filename` value and its rows. */
  datatype SourceFile = SourceFile(path: string, rows: seq<RawRow>)

  function CleanFile(decode: Bytes -> Option<string>, path: string, rows: seq<RawRow>): (r: seq<CleanRow>)
    ensures |r| <= |rows|
  {
    if rows == [] then []
    else (if Keep(decode, rows[0]) then [Clean(path, rows[0])] else []) + CleanFile(decode, path, rows[1..])
  }

  /** The number of rows the scan reads from all files. */
  function RowCount(files: seq<SourceFile>): nat
  {
    if files == [] then 0 else |files[0].rows| + RowCount(files[1..])
  }

  /** The rows the COPY writes: every kept row of every file, projected, in file order. */
  function CleanAll(decode: Bytes -> Option<string>, files: seq<SourceFile>): (r: seq<CleanRow>)
    ensures |r| <= RowCount(files)
  {
    if files == [] then [] else CleanFile(decode, files[0].path, files[0].rows) + CleanAll(decode, files[1..])
  }

  /** An output row is the projection of a kept row of some input file. */
  ghost predicate DerivedFrom(decode: Bytes -> Option<string>, files: seq<SourceFile>, o: CleanRow)
  {
    exists i, r :: 0 <= i < |files| && r in files[i].rows && Keep(decode, r) && o == Clean(files[i].path, r)
  }

  /** The output row's own columns satisfy every condition of the filter. */
  predicate Valid(decode: Bytes -> Option<string>, o: CleanRow)
  {
    && VotesConsistent(o.meta)
    && RatingInRange(o.meta)
    && HasText(TryCastText(decode, o.meta.productCategory))
    && HasText(TryCastText(decode, o.bodyBlob))
    && YearOfDate(o.reviewDate) == o.reviewYear
  }

  lemma {:induction false} CleanFileSound(decode: Bytes -> Option<string>, path: string, rows: seq<RawRow>)
    ensures forall o :: o in CleanFile(decode, path, rows) ==>
              exists r :: r in rows && Keep(decode, r) && o == Clean(path, r)
  {
    if rows != [] {
      CleanFileSound(decode, path, rows[1..]);
    }
  }

  /** No output row comes from anywhere but a kept input row, and each satisfies the filter. */
  lemma {:induction false} CleanAllSound(decode: Bytes -> Option<string>, files: seq<SourceFile>)
    ensures forall o :: o in CleanAll(decode, files) ==> DerivedFrom(decode, files, o) && Valid(decode, o)
  {
    if files != [] {
      CleanFileSound(decode, files[0].path, files[0].rows);
      CleanAllSound(decode, files[1..]);
      forall o | o in CleanAll(decode, files)
        ensures DerivedFrom(decode, files, o) && Valid(decode, o)
      {
        if o in CleanFile(decode, files[0].path, files[0].rows) {
          var r :| r in files[0].rows && Keep(decode, r) && o == Clean(files[0].path, r);
          assert 0 < |files|;
        } else {
          assert o in CleanAll(decode, files[1..]);
          assert DerivedFrom(decode, files[1..], o);
          var i, r :| 0 <= i < |files[1..]| && r in files[1..][i].rows && Keep(decode, r) && o == Clean(files[1..][i].path, r);
          assert files[1..][i] == files[i + 1];
        }
      }
    }
  }

  lemma {:induction false} CleanFileComplete(decode: Bytes -> Option<string>, path: string, rows: seq<RawRow>)
    ensures forall r :: r in rows && Keep(decode, r) ==> Clean(path, r) in CleanFile(decode, path, rows)
  {
    if rows != [] {
      CleanFileComplete(decode, path, rows[1..]);
    }
  }

  /** Every kept row of every input file reaches the output. */
  lemma {:induction false} CleanAllComplete(decode: Bytes -> Option<string>, files: seq<SourceFile>, i: nat, r: RawRow)
    requires i < |files| && r in files[i].rows && Keep(decode, r)
    ensures Clean(files[i].path, r) in CleanAll(decode, files)
  {
    if i == 0 {
      CleanFileComplete(decode, files[0].path, files[0].rows);
    } else {
      assert files[1..][i - 1] == files[i];
      CleanAllComplete(decode, files[1..], i - 1, r);
    }
  }

  /** The output is a filter-then-map: as many rows as each file has kept rows. */
  lemma {:induction false} CleanFileCount(decode: Bytes -> Option<string>, path: string, rows: seq<RawRow>)
    ensures |CleanFile(decode, path, rows)| == |Filter((r: RawRow) => Keep(decode, r), rows)|
  {
    if rows != [] {
      CleanFileCount(decode, path, rows[1..]);
    }
  }

  // ---------------------------------------------------------------------------
  // The unused `where_clauses` builder

  const VotesClause: string := "helpful_votes IS NULL OR total_votes IS NULL OR helpful_votes <= total_votes"
  const RatingClause: string := "star_rating IS NULL OR (star_rating BETWEEN 1 AND 5)"
  const CategoryClause: string := "product_category IS NOT NULL AND TRIM(product_category) <> ''"
  const BodyClause: string := "review_body IS NOT NULL AND TRIM(review_body) <> ''"

  /** The list `where_clauses`, lines 34-41: the two fixed clauses, then one per flag that is set. */
  method BuildWhereClauses(dropBlankCategory: bool, dropBlankBody: bool) returns (clauses: seq<string>)
    ensures |clauses| >= 2 && clauses[..2] == [VotesClause, RatingClause]
    ensures |clauses| == 2 + (if dropBlankCategory then 1 else 0) + (if dropBlankBody then 1 else 0)
    ensures CategoryClause in clauses <==> dropBlankCategory
    ensures BodyClause in clauses <==> dropBlankBody
    ensures dropBlankCategory ==> clauses[2] == CategoryClause
    ensures dropBlankBody ==> clauses[|clauses| - 1] == BodyClause
  {
    clauses := [VotesClause, RatingClause];
    if dropBlankCategory {
      clauses := clauses + [CategoryClause];
    }
    if dropBlankBody {
      clauses := clauses + [BodyClause];
    }
  }

  // ---------------------------------------------------------------------------
  // String literals of the query

  /** The scan literal as written at line 56: the pattern between quotes, not escaped. */
  function ScanLiteralAsWritten(pattern: string): (lit: string)
    ensures '\'' !in pattern ==> lit == ScanLiteral(pattern)
  {
    EscapeFixesQuoteFree(pattern);
    Quoted(pattern)
  }

  /** The pattern for `a'b` is `a'` followed by text that does not start with a quote. */
  lemma PatternAfterQuote(a: string, b: string) returns (c: string)
    requires b == [] || b[0] != '\''
    ensures PatternFor(a + "'" + b) == a + "'" + c
    ensures c != [] && c[0] != '\''
  {
    NamePatternPlain();
    c := JoinAfterQuote(a, b, NamePattern);
  }

  /** A lone quote inside a literal closes it and leaves `c'` over. */
  lemma LiteralLeftOver(a: string, c: string)
    requires '\'' !in a
    requires c != [] && c[0] != '\''
    ensures LiteralValue(Quoted(a + "'" + c)) == None
  {
    var rest := c + "'";
    EscapeNoQuote(a);
    ReadQuotedEscaped(a, rest);
    assert Quoted(a + "'" + c)[1..] == Escape(a) + "'" + rest;
  }

  /**
   * A data directory with a lone quote in its name ends the scan literal
   * early: the quote closes the literal and the rest of the path is left over
   * as query text.
   */
  lemma UnescapedQuoteBreaks(a: string, b: string)
    requires '\'' !in a
    requires b == [] || b[0] != '\''
    ensures LiteralValue(ScanLiteralAsWritten(PatternFor(a + "'" + b))) == None
  {
    var c := PatternAfterQuote(a, b);
    LiteralLeftOver(a, c);
  }

  /** The directory `it's`: the literal closes after `it`. */
  lemma UnescapedScanBreaks()
    ensures LiteralValue(ScanLiteralAsWritten(PatternFor("it's"))) == None
  {
    assert "it's" == "it" + "'" + "s";
    UnescapedQuoteBreaks("it", "s");
  }

  /**
   * A data directory whose quotes are already doubled reads back as the
   * directory with single quotes: the engine scans a different path.
   */
  lemma EscapedDirScansOriginal(dir: string)
    ensures LiteralValue(ScanLiteralAsWritten(PatternFor(Escape(dir)))) == Some(PatternFor(dir))
  {
    NamePatternPlain();
    JoinEscape(dir, NamePattern);
    LiteralOfEscaped(PatternFor(dir));
  }

  /** The directory `a''b` is scanned as `a'b`. */
  lemma DoubledQuoteScansOtherPath()
    ensures LiteralValue(ScanLiteralAsWritten(PatternFor("a''b"))) == Some(PatternFor("a'b"))
    ensures PatternFor("a'b") != PatternFor("a''b")
  {
    assert Escape("a'b") == "a''b" by {
      assert Escape("b") == "b";
      assert Escape("'b") == "''b";
    }
    EscapedDirScansOriginal("a'b");
    NamePatternPlain();
    assert |PatternFor("a'b")| < |PatternFor("a''b")|;
  }

  /** The scan literal with quotes doubled, as the output path already is (line 45). */
  function ScanLiteral(pattern: string): (lit: string)
    ensures LiteralValue(lit) == Some(pattern)
  {
    LiteralOfEscaped(pattern);
    Quoted(Escape(pattern))
  }

  // ---------------------------------------------------------------------------
  // main

  /**
   * On a data directory without quotes the literal as written is the escaped
   * one, so it reads back as the pattern.
   */
  lemma AsWrittenWithoutQuotes(dataDir: string)
    requires '\'' !in dataDir
    ensures ScanLiteralAsWritten(PatternFor(dataDir)) == ScanLiteral(PatternFor(dataDir))
  {
    NamePatternPlain();
    JoinEscape(dataDir, NamePattern);
    EscapeNoQuote(dataDir);
  }

  /** Why a run stops before writing. */
  datatype MergeError =
    | NoFilesMatched(message: string)  // `SystemExit` at line 27
    | LiteralEndsEarly                 // the scan literal closes before the pattern ends
    | ScansOtherPattern(pattern: string)  // the scan literal reads back as another glob

  /** What one run hands to the engine and what the engine writes. */
  datatype MergeRun = MergeRun(scanLiteral: string, outLiteral: string, inputCount: nat, rows: seq<CleanRow>)

  function NoFilesMessage(pattern: string): string
  {
    "No files matched: " + pattern
  }

  /** Each matched path with the rows the engine reads from it. */
  function Scanned(files: seq<string>, read: string -> seq<RawRow>): (r: seq<SourceFile>)
    ensures |r| == |files|
    ensures forall i :: 0 <= i < |files| ==> r[i] == SourceFile(files[i], read(files[i]))
  {
    if files == [] then [] else [SourceFile(files[0], read(files[0]))] + Scanned(files[1..], read)
  }

  /**
   * `main`: the empty-input check, then the COPY. `names` are the entries of
   * the data directory and `read` gives the rows of a file. The flags reach
   * only `where_clauses`, which the query does not use. The scan literal is
   * built as line 56 writes it; when it does not read back as the pattern the
   * run stops: a literal that closes early leaves the rest of the path as
   * query text, and a literal with another value names another pattern; the
   * model follows neither.
   */
  method MergeCleanAll(dataDir: string, names: seq<string>, read: string -> seq<RawRow>,
                       decode: Bytes -> Option<string>, out: string,
                       dropBlankCategory: bool, dropBlankBody: bool)
    returns (result: Result<MergeRun, MergeError>)
    ensures var files := FindParquetFiles(dataDir, names);
            var pattern := PatternFor(dataDir);
            var scan := ScanLiteralAsWritten(pattern);
            if files == [] then result == Failure(NoFilesMatched(NoFilesMessage(pattern)))
            else if LiteralValue(scan).None? then result == Failure(LiteralEndsEarly)
            else if LiteralValue(scan).value != pattern then result == Failure(ScansOtherPattern(LiteralValue(scan).value))
            else
              && result.Success?
              && result.value.scanLiteral == scan
              && LiteralValue(result.value.outLiteral) == Some(out)
              && result.value.inputCount == |files|
              && result.value.rows == CleanAll(decode, Scanned(files, read))
  {
    var pattern := PatternFor(dataDir);
    var files := FindParquetFiles(dataDir, names);
    if files == [] {
      return Failure(NoFilesMatched(NoFilesMessage(pattern)));
    }
    var clauses := BuildWhereClauses(dropBlankCategory, dropBlankBody);
    var whereSql := JoinWith(" AND ", clauses);
    var scan := ScanLiteralAsWritten(pattern);
    var scanned := LiteralValue(scan);
    if scanned.None? {
      return Failure(LiteralEndsEarly);
    }
    if scanned.value != pattern {
      return Failure(ScansOtherPattern(scanned.value));
    }
    LiteralOfEscaped(out);
    var outLit := Quoted(Escape(out));
    var rows := CleanAll(decode, Scanned(files, read));
    result := Success(MergeRun(scan, outLit, |files|, rows));
  }
}

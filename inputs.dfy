/**
 * The input file set shared by the merge and the sampling scripts: the
 * entries of the data directory that match `amazon_reviews_*.snappy.parquet`,
 * joined to the directory and sorted.
 */
module Inputs {
  import opened Wrappers
  import opened Seqs
  import opened Text

  const NameStem: string := "amazon_reviews_"
  const NameSuffix: string := ".snappy.parquet"
  const NamePattern: string := "amazon_reviews_*.snappy.parquet"

  /** A name starts with the stem and ends with the suffix, not overlapping, when it is the stem, some text, and the suffix. */
  lemma StemAndSuffix(n: string)
    ensures (|n| >= |NameStem| + |NameSuffix| && StartsWith(n, NameStem) && EndsWith(n, NameSuffix))
            <==> exists mid :: n == NameStem + mid + NameSuffix
  {
    var k := |n| - |NameSuffix|;
    if |n| >= |NameStem| + |NameSuffix| && StartsWith(n, NameStem) && EndsWith(n, NameSuffix) {
      assert n == NameStem + n[|NameStem|..k] + NameSuffix;
    }
    if exists mid :: n == NameStem + mid + NameSuffix {
      var mid :| n == NameStem + mid + NameSuffix;
      assert n[..|NameStem|] == NameStem;
      assert n[k..] == NameSuffix;
    }
  }

  /** `fnmatch` of one directory entry against `amazon_reviews_*.snappy.parquet` (the `*` may be empty). */
  predicate MatchesPattern(n: string)
    ensures MatchesPattern(n) <==> exists mid :: n == NameStem + mid + NameSuffix
  {
    StemAndSuffix(n);
    |n| >= |NameStem| + |NameSuffix| && StartsWith(n, NameStem) && EndsWith(n, NameSuffix)
  }

  /** The name pattern has no quote and is relative. */
  lemma NamePatternPlain()
    ensures '\'' !in NamePattern && !StartsWith(NamePattern, "/")
  {
    assert NamePattern[0] == 'a';
  }

  /** `os.path.join(data_dir, "amazon_reviews_*.snappy.parquet")`. */
  function PatternFor(dataDir: string): string
  {
    Join(dataDir, NamePattern)
  }

  /** The paths `glob` yields for the directory entries `names`, in entry order. */
  function Matches(dataDir: string, names: seq<string>): (r: seq<string>)
    ensures forall p :: p in r <==> exists n :: n in names && MatchesPattern(n) && p == Join(dataDir, n)
  {
    if names == [] then []
    else
      (if MatchesPattern(names[0]) then [Join(dataDir, names[0])] else []) + Matches(dataDir, names[1..])
  }

  /** `sorted(glob.glob(pattern))`. */
  function FindParquetFiles(dataDir: string, names: seq<string>): (r: seq<string>)
    ensures SortedBy(r, StrLe)
    ensures multiset(r) == multiset(Matches(dataDir, names))
    ensures forall p :: p in r <==> p in Matches(dataDir, names)
  {
    var m := Matches(dataDir, names);
    StrLeTotalPreorder();
    SortBySorted(m, StrLe);
    SameElements(SortBy(m, StrLe), m);
    SortBy(m, StrLe)
  }

  /** The file list is empty exactly when no directory entry matches the pattern. */
  lemma NoFilesIffNoMatch(dataDir: string, names: seq<string>)
    ensures FindParquetFiles(dataDir, names) == [] <==> forall n :: n in names ==> !MatchesPattern(n)
  {
    var r := FindParquetFiles(dataDir, names);
    if r != [] {
      assert r[0] in Matches(dataDir, names);
    } else {
      assert Matches(dataDir, names) == [] by {
        assert |multiset(Matches(dataDir, names))| == 0;
      }
      forall n | n in names
        ensures !MatchesPattern(n)
      {
        assert Join(dataDir, n) !in Matches(dataDir, names);
      }
    }
  }

  /** Any sorted arrangement of the matches is the file list: the order does not depend on the listing order. */
  lemma FileOrderUnique(dataDir: string, names: seq<string>, t: seq<string>)
    requires SortedBy(t, StrLe) && multiset(t) == multiset(Matches(dataDir, names))
    ensures t == FindParquetFiles(dataDir, names)
  {
    var r := FindParquetFiles(dataDir, names);
    forall x, y | x in r && y in r && StrLe(x, y) && StrLe(y, x)
      ensures x == y
    {
      StrLeAntisymmetric(x, y);
    }
    SortedPermutationUnique(r, t, StrLe);
  }
}

/**
 * Acquisition, part one: listing the bucket page by page, inferring the year
 * of each key, choosing one key per target year and probing sizes.
 */
module Listing {
  import opened Wrappers
  import opened Seqs
  import opened Text

  const BaseListing: string := "https://datasets-documentation.s3.eu-west-3.amazonaws.com/"
  const Prefix: string := "amazon_reviews/"
  const TargetYears: seq<int> := [2010, 2011, 2012, 2013, 2014, 2015]

  /** Every listed key that is kept ends with this. */
  const ParquetSuffix: string := ".snappy.parquet"
  /** A key ending with this (after a year) is a decade aggregate. */
  const DecadeSuffix: string := "s.snappy.parquet"
  /** The file stem that precedes the four year digits. */
  const Stem: string := "amazon_reviews_"

  /** A remote object chosen for download; `sizeBytes` is filled in by the size probe. */
  datatype RemoteFile = RemoteFile(key: string, url: string, year: Option<int>, sizeBytes: Option<nat>)

  /** The 4xx and 5xx statuses, for which `raise_for_status` raises. */
  predicate IsHttpError(status: int)
  {
    400 <= status < 600
  }

  // ---------------------------------------------------------------------------
  // Paginated listing

  /** The query of one listing request: the prefix and, when held, a continuation token. */
  datatype ListRequest = ListRequest(prefix: string, continuationToken: Option<string>)

  /** One listing document as the two regexes see it: every `<Key>` value and the `<NextContinuationToken>` value, if any. */
  datatype Page = Page(keys: seq<string>, nextToken: Option<string>)

  /** The `i`-th response of the listing endpoint. */
  datatype ListResponse = ListResponse(status: int, page: Page)

  /** The loop stops at this response: it raises, or carries no continuation token. */
  predicate EndsListing(r: ListResponse)
  {
    IsHttpError(r.status) || r.page.nextToken.None?
  }

  /** The endpoint eventually answers a response that stops the loop. */
  predicate ListingEnds(rs: seq<ListResponse>)
  {
    exists i :: 0 <= i < |rs| && EndsListing(rs[i])
  }

  /** The index of the last request the loop issues. */
  function LastPage(rs: seq<ListResponse>): (n: nat)
    requires ListingEnds(rs)
    ensures n < |rs| && EndsListing(rs[n])
    ensures forall i :: 0 <= i < n ==> !EndsListing(rs[i])
  {
    if EndsListing(rs[0]) then 0
    else
      assert ListingEnds(rs[1..]) by {
        var i :| 0 <= i < |rs| && EndsListing(rs[i]);
        assert rs[1..][i - 1] == rs[i];
      }
      var n := LastPage(rs[1..]);
      assert forall i :: 1 <= i < n + 1 ==> rs[i] == rs[1..][i - 1];
      n + 1
  }

  /**
   * The `continuation-token` parameter: sent only when the held token is
   * truthy (non-empty). The token pattern captures one character or more, so
   * a real page never yields an empty token; the test keeps `if token:` exact
   * for every `Page` value all the same.
   */
  function TokenParam(token: Option<string>): Option<string>
  {
    if token.Some? && token.value != "" then token else None
  }

  /** All `<Key>` values of the pages, page after page. */
  function AllKeys(rs: seq<ListResponse>): seq<string>
  {
    if rs == [] then [] else AllKeys(rs[..|rs| - 1]) + rs[|rs| - 1].page.keys
  }

  predicate IsParquetKey(k: string)
  {
    EndsWith(k, ParquetSuffix)
  }

  /**
   * What `list_keys` returns, or the status of the response that made it raise:
   * exactly the Parquet keys of all pages fetched, in listing order.
   */
  function ListingResult(rs: seq<ListResponse>): (r: Result<seq<string>, int>)
    requires ListingEnds(rs)
    ensures r.Failure? <==> IsHttpError(rs[LastPage(rs)].status)
    ensures r.Failure? ==> r.error == rs[LastPage(rs)].status
    ensures r.Success? ==> ParquetKeysIn(r.value, FetchedKeys(rs))
  {
    var n := LastPage(rs);
    if IsHttpError(rs[n].status) then Failure(rs[n].status)
    else
      ParquetKeysOf(FetchedKeys(rs));
      Success(Filter(IsParquetKey, FetchedKeys(rs)))
  }

  /** Every `<Key>` of the pages the loop fetches, up to and including the last. */
  function FetchedKeys(rs: seq<ListResponse>): seq<string>
    requires ListingEnds(rs)
  {
    AllKeys(rs[..LastPage(rs) + 1])
  }

  /** The `j`-th request of the loop: the first carries no token, each later one the token of the answer before. */
  function RequestAt(prefix: string, rs: seq<ListResponse>, j: nat): ListRequest
    requires j <= |rs|
  {
    ListRequest(prefix, if j == 0 then None else TokenParam(rs[j - 1].page.nextToken))
  }

  lemma AllKeysStep(rs: seq<ListResponse>, i: nat)
    requires i < |rs|
    ensures AllKeys(rs[..i + 1]) == AllKeys(rs[..i]) + rs[i].page.keys
  {
    assert rs[..i + 1][..i] == rs[..i];
  }

  /** `list_keys(prefix)` against an endpoint whose `i`-th answer is `responses[i]`. */
  method ListKeys(prefix: string, responses: seq<ListResponse>)
    returns (requests: seq<ListRequest>, result: Result<seq<string>, int>)
    requires ListingEnds(responses)
    ensures |requests| == LastPage(responses) + 1
    ensures requests[0] == ListRequest(prefix, None)
    ensures forall i :: 1 <= i < |requests| ==>
              requests[i] == ListRequest(prefix, TokenParam(responses[i - 1].page.nextToken))
    ensures result == ListingResult(responses)
  {
    ghost var n := LastPage(responses);
    var keys: seq<string> := [];
    var token: Option<string> := None;
    var i := 0;
    requests := [];
    while true
      invariant 0 <= i <= n
      invariant |requests| == i
      invariant forall j :: 0 <= j < i ==> requests[j] == RequestAt(prefix, responses, j)
      invariant keys == AllKeys(responses[..i])
      invariant token == if i == 0 then None else responses[i - 1].page.nextToken
      decreases n - i
    {
      assert ListRequest(prefix, TokenParam(token)) == RequestAt(prefix, responses, i);
      requests := requests + [ListRequest(prefix, TokenParam(token))];
      var r := responses[i];
      if IsHttpError(r.status) {
        assert i == n;
        result := Failure(r.status);
        return;
      }
      AllKeysStep(responses, i);
      keys := keys + r.page.keys;
      if r.page.nextToken.None? {
        assert i == n;
        break;
      }
      token := r.page.nextToken;
      i := i + 1;
    }
    result := Success(Filter(IsParquetKey, keys));
  }

  /**
   * `keys` are exactly the `.snappy.parquet` keys of `all`, in the order of
   * `all`, each as many times as `all` holds it.
   */
  ghost predicate ParquetKeysIn(keys: seq<string>, all: seq<string>)
  {
    && (forall k :: k in keys <==> k in all && EndsWith(k, ParquetSuffix))
    && IsSubsequence(keys, all)
    && forall k :: multiset(keys)[k] == if EndsWith(k, ParquetSuffix) then multiset(all)[k] else 0
  }

  lemma ParquetKeysOf(all: seq<string>)
    ensures ParquetKeysIn(Filter(IsParquetKey, all), all)
  {
    FilterIsSubsequence(IsParquetKey, all);
    FilterCount(IsParquetKey, all);
    forall k ensures k in Filter(IsParquetKey, all) <==> k in all && EndsWith(k, ParquetSuffix) {
      assert IsParquetKey(k) == EndsWith(k, ParquetSuffix);
    }
  }

  // ---------------------------------------------------------------------------
  // Year inference

  predicate AllDigits(s: string)
  {
    forall i :: 0 <= i < |s| ==> '0' <= s[i] <= '9'
  }

  function DigitValue(c: char): int
    requires '0' <= c <= '9'
  {
    c as int - '0' as int
  }

  /** `int(d)` for four decimal digits. */
  function YearDigits(d: string): (y: int)
    requires |d| == 4 && AllDigits(d)
    ensures 0 <= y <= 9999
  {
    1000 * DigitValue(d[0]) + 100 * DigitValue(d[1]) + 10 * DigitValue(d[2]) + DigitValue(d[3])
  }

  /** The year captured by `amazon_reviews_(\d{4})` followed by `tail` at the very end of `key`. */
  function YearBefore(key: string, tail: string): Option<int>
  {
    var n := |Stem| + 4 + |tail|;
    if n <= |key|
       && key[|key| - n .. |key| - 4 - |tail|] == Stem
       && AllDigits(key[|key| - 4 - |tail| .. |key| - |tail|])
       && key[|key| - |tail|..] == tail
    then Some(YearDigits(key[|key| - 4 - |tail| .. |key| - |tail|]))
    else None
  }

  /** `infer_year_from_key`: the exact-year pattern first, then the decade pattern. */
  function InferYear(key: string): (r: Option<int>)
    ensures r.Some? ==> 0 <= r.value <= 9999
    ensures r.Some? ==> EndsWith(key, ParquetSuffix) || EndsWith(key, DecadeSuffix)
  {
    match YearBefore(key, ParquetSuffix)
    case Some(y) => Some(y)
    case None => YearBefore(key, DecadeSuffix)
  }

  lemma YearBeforeOf(p: string, d: string, tail: string)
    requires |d| == 4 && AllDigits(d)
    ensures YearBefore(p + Stem + d + tail, tail) == Some(YearDigits(d))
  {
    var key := p + Stem + d + tail;
    var n := |Stem| + 4 + |tail|;
    assert key[|key| - n .. |key| - 4 - |tail|] == Stem;
    assert key[|key| - 4 - |tail| .. |key| - |tail|] == d;
    assert key[|key| - |tail|..] == tail;
  }

  /** A key ending `amazon_reviews_DDDD.snappy.parquet` yields DDDD. */
  lemma InferYearExact(p: string, d: string)
    requires |d| == 4 && AllDigits(d)
    ensures InferYear(p + Stem + d + ParquetSuffix) == Some(YearDigits(d))
  {
    YearBeforeOf(p, d, ParquetSuffix);
  }

  /** A key ending `amazon_reviews_DDDDs.snappy.parquet` yields DDDD as well. */
  lemma InferYearDecade(p: string, d: string)
    requires |d| == 4 && AllDigits(d)
    ensures InferYear(p + Stem + d + DecadeSuffix) == Some(YearDigits(d))
  {
    var key := p + Stem + d + DecadeSuffix;
    YearBeforeOf(p, d, DecadeSuffix);
    var t := |ParquetSuffix|;
    assert key == (p + Stem + d) + "s" + ParquetSuffix;
    assert key[|key| - t - 1] == 's';
    var digits := key[|key| - 4 - t .. |key| - t];
    assert digits[3] == key[|key| - t - 1];
    assert !AllDigits(digits);
    assert YearBefore(key, ParquetSuffix).None?;
  }

  lemma YearBeforeShape(key: string, tail: string) returns (p: string, d: string)
    requires YearBefore(key, tail).Some?
    ensures |d| == 4 && AllDigits(d)
    ensures YearBefore(key, tail) == Some(YearDigits(d))
    ensures key == p + Stem + d + tail
  {
    var a := |key| - (|Stem| + 4 + |tail|);
    var b := |key| - 4 - |tail|;
    var c := |key| - |tail|;
    p, d := key[..a], key[b..c];
    assert key == key[..a] + key[a..b] + key[b..c] + key[c..];
  }

  /** Any key with a year is of one of the two shapes, and the year is its four digits. */
  lemma InferYearShape(key: string) returns (p: string, d: string)
    requires InferYear(key).Some?
    ensures |d| == 4 && AllDigits(d)
    ensures InferYear(key) == Some(YearDigits(d))
    ensures key == p + Stem + d + ParquetSuffix || key == p + Stem + d + DecadeSuffix
  {
    if YearBefore(key, ParquetSuffix).Some? {
      p, d := YearBeforeShape(key, ParquetSuffix);
    } else {
      p, d := YearBeforeShape(key, DecadeSuffix);
    }
  }

  /** For a key with a year, the `endswith("s.snappy.parquet")` test picks out exactly the decade pattern. */
  lemma DecadeTestMatchesPattern(key: string)
    requires InferYear(key).Some?
    ensures EndsWith(key, DecadeSuffix) <==> YearBefore(key, ParquetSuffix).None?
  {
    var t := |ParquetSuffix|;
    if YearBefore(key, ParquetSuffix).Some? {
      assert key[|key| - 4 - t .. |key| - t][3] == key[|key| - t - 1];
      assert key[|key| - |DecadeSuffix|..][0] == key[|key| - t - 1];
    } else {
      assert key[|key| - |DecadeSuffix|..] == DecadeSuffix;
    }
  }

  // ---------------------------------------------------------------------------
  // Selection

  /** A key with a year that is not a decade aggregate. */
  predicate IsYearKey(k: string)
  {
    InferYear(k).Some? && !EndsWith(k, DecadeSuffix)
  }

  predicate IsDecadeKey(k: string)
  {
    InferYear(k).Some? && EndsWith(k, DecadeSuffix)
  }

  /** The year under which `year_to_key` files a key: its inferred year, unless it is a decade aggregate. */
  function ExactYear(k: string): Option<int>
  {
    if IsYearKey(k) then InferYear(k) else None
  }

  /** The map that files each key under `yearOf` of it, later keys overwriting earlier ones. */
  function IndexBy(keys: seq<string>, yearOf: string -> Option<int>): map<int, string>
  {
    if keys == [] then map[]
    else
      var m := IndexBy(keys[..|keys| - 1], yearOf);
      var k := keys[|keys| - 1];
      match yearOf(k)
      case Some(y) => m[y := k]
      case None => m
  }

  /** `year_to_key` after the loop over `keys`. */
  function YearIndex(keys: seq<string>): (m: map<int, string>)
    ensures forall y :: y in m ==> m[y] in keys && IsYearKey(m[y]) && InferYear(m[y]) == Some(y)
  {
    IndexByEntries(keys, ExactYear);
    IndexBy(keys, ExactYear)
  }

  lemma YearIndexStep(keys: seq<string>, i: nat)
    requires i < |keys|
    ensures YearIndex(keys[..i + 1]) ==
              if IsYearKey(keys[i]) then YearIndex(keys[..i])[InferYear(keys[i]).value := keys[i]] else YearIndex(keys[..i])
    ensures Filter(IsDecadeKey, keys[..i + 1]) ==
              Filter(IsDecadeKey, keys[..i]) + if IsDecadeKey(keys[i]) then [keys[i]] else []
  {
    assert keys[..i + 1][..i] == keys[..i];
    FilterSnoc(IsDecadeKey, keys, i);
  }

  /** The loop of `main` that fills `year_to_key` and `decade_keys`. */
  method IndexByYear(keys: seq<string>) returns (yearToKey: map<int, string>, decadeKeys: seq<string>)
    ensures yearToKey == YearIndex(keys)
    ensures decadeKeys == Filter(IsDecadeKey, keys)
  {
    yearToKey := map[];
    decadeKeys := [];
    for i := 0 to |keys|
      invariant yearToKey == YearIndex(keys[..i])
      invariant decadeKeys == Filter(IsDecadeKey, keys[..i])
    {
      var k := keys[i];
      YearIndexStep(keys, i);
      var y := InferYear(k);
      if y.None? {
        continue;
      }
      if EndsWith(k, DecadeSuffix) {
        decadeKeys := decadeKeys + [k];
      } else {
        yearToKey := yearToKey[y.value := k];
      }
    }
    assert keys[..|keys|] == keys;
  }

  /** An entry the last key does not set was already in the index of the other keys. */
  lemma IndexByDrop(keys: seq<string>, yearOf: string -> Option<int>, y: int)
    requires keys != [] && y in IndexBy(keys, yearOf)
    requires yearOf(keys[|keys| - 1]) != Some(y)
    ensures y in IndexBy(keys[..|keys| - 1], yearOf)
    ensures IndexBy(keys, yearOf)[y] == IndexBy(keys[..|keys| - 1], yearOf)[y]
  {
  }

  /** Every entry is a key filed under its year, and no later key is filed under that year. */
  lemma {:induction false} IndexByEntry(keys: seq<string>, yearOf: string -> Option<int>, y: int) returns (i: nat)
    requires y in IndexBy(keys, yearOf)
    ensures i < |keys| && keys[i] == IndexBy(keys, yearOf)[y] && yearOf(keys[i]) == Some(y)
    ensures forall j :: i < j < |keys| ==> yearOf(keys[j]) != Some(y)
  {
    var front := keys[..|keys| - 1];
    if yearOf(keys[|keys| - 1]) == Some(y) {
      i := |keys| - 1;
    } else {
      IndexByDrop(keys, yearOf, y);
      i := IndexByEntry(front, yearOf, y);
      assert forall j :: i < j < |front| ==> keys[j] == front[j];
    }
  }

  /** Every entry of the index is one of the keys, filed under its own year. */
  lemma IndexByEntries(keys: seq<string>, yearOf: string -> Option<int>)
    ensures forall y :: y in IndexBy(keys, yearOf) ==> IndexBy(keys, yearOf)[y] in keys && yearOf(IndexBy(keys, yearOf)[y]) == Some(y)
  {
    forall y | y in IndexBy(keys, yearOf)
      ensures IndexBy(keys, yearOf)[y] in keys && yearOf(IndexBy(keys, yearOf)[y]) == Some(y)
    {
      var i := IndexByEntry(keys, yearOf, y);
    }
  }

  /** Every key that is filed under some year puts that year in the index. */
  lemma {:induction false} IndexByComplete(keys: seq<string>, yearOf: string -> Option<int>, i: nat)
    requires i < |keys| && yearOf(keys[i]).Some?
    ensures yearOf(keys[i]).value in IndexBy(keys, yearOf)
  {
    var front := keys[..|keys| - 1];
    if i < |keys| - 1 {
      assert front[i] == keys[i];
      IndexByComplete(front, yearOf, i);
    }
  }

  /**
   * Every entry of the index is an exact-year key of the listing for its own
   * year (so never a decade key), and it is the last such key in the listing.
   */
  lemma YearIndexEntry(keys: seq<string>, y: int) returns (i: nat)
    requires y in YearIndex(keys)
    ensures i < |keys| && keys[i] == YearIndex(keys)[y]
    ensures IsYearKey(keys[i]) && InferYear(keys[i]) == Some(y)
    ensures forall j :: i < j < |keys| ==> !(IsYearKey(keys[j]) && InferYear(keys[j]) == Some(y))
  {
    i := IndexByEntry(keys, ExactYear, y);
    forall j | i < j < |keys|
      ensures !(IsYearKey(keys[j]) && InferYear(keys[j]) == Some(y))
    {
      assert ExactYear(keys[j]) != Some(y);
    }
  }

  /** Every exact-year key's year is in the index. */
  lemma YearIndexComplete(keys: seq<string>, i: nat)
    requires i < |keys| && IsYearKey(keys[i])
    ensures InferYear(keys[i]).value in YearIndex(keys)
  {
    assert ExactYear(keys[i]) == InferYear(keys[i]);
    IndexByComplete(keys, ExactYear, i);
  }

  /** When two exact-year keys share a year, the later one in the listing wins. */
  lemma YearIndexLastWins(keys: seq<string>, i: nat)
    requires i < |keys| && IsYearKey(keys[i])
    requires forall j :: i < j < |keys| ==> !(IsYearKey(keys[j]) && InferYear(keys[j]) == InferYear(keys[i]))
    ensures InferYear(keys[i]).value in YearIndex(keys)
    ensures YearIndex(keys)[InferYear(keys[i]).value] == keys[i]
  {
    var y := InferYear(keys[i]).value;
    YearIndexComplete(keys, i);
    var w := YearIndexEntry(keys, y);
    assert w == i;
  }

  /** `chosen`: one entry per target year that the index holds (truthy key), in target order. */
  function Chosen(yearToKey: map<int, string>, targets: seq<int>): (r: seq<RemoteFile>)
    ensures |r| <= |targets|
  {
    if targets == [] then []
    else
      var y := targets[0];
      (if y in yearToKey && yearToKey[y] != "" then [RemoteFile(yearToKey[y], BaseListing + yearToKey[y], Some(y), None)] else [])
      + Chosen(yearToKey, targets[1..])
  }

  /** The loop of `main` that builds `chosen` from `TARGET_YEARS`. */
  method ChooseTargets(yearToKey: map<int, string>, targets: seq<int>) returns (chosen: seq<RemoteFile>)
    ensures chosen == Chosen(yearToKey, targets)
  {
    chosen := [];
    var i := 0;
    while i < |targets|
      invariant 0 <= i <= |targets|
      invariant chosen + Chosen(yearToKey, targets[i..]) == Chosen(yearToKey, targets)
    {
      assert targets[i..][1..] == targets[i + 1..];
      var y := targets[i];
      i := i + 1;
      if !(y in yearToKey) || yearToKey[y] == "" {
        continue;
      }
      var k := yearToKey[y];
      chosen := chosen + [RemoteFile(k, BaseListing + k, Some(y), None)];
    }
  }

  /** The year of a chosen entry (every entry carries one). */
  function EntryYear(f: RemoteFile): int
  {
    match f.year
    case Some(y) => y
    case None => 0
  }

  function EntryYears(c: seq<RemoteFile>): seq<int>
  {
    if c == [] then [] else [EntryYear(c[0])] + EntryYears(c[1..])
  }

  /** The target years whose key the index holds (and is truthy), in target order. */
  function PresentYears(yearToKey: map<int, string>, targets: seq<int>): seq<int>
  {
    Filter((y: int) => y in yearToKey && yearToKey[y] != "", targets)
  }

  /** An entry for target year `y`: the indexed key, its URL, and no size yet. */
  predicate IsEntryFor(yearToKey: map<int, string>, targets: seq<int>, f: RemoteFile)
  {
    && f.year.Some? && f.year.value in yearToKey && f.year.value in targets
    && f.key == yearToKey[f.year.value]
    && f.url == BaseListing + f.key
    && f.sizeBytes.None?
  }

  /** Each entry of `chosen` names the indexed key of its year, its URL and no size yet. */
  lemma {:induction false} ChosenEntries(yearToKey: map<int, string>, targets: seq<int>)
    ensures forall f :: f in Chosen(yearToKey, targets) ==> IsEntryFor(yearToKey, targets, f)
  {
    if targets != [] {
      ChosenEntries(yearToKey, targets[1..]);
      forall f | f in Chosen(yearToKey, targets) ensures IsEntryFor(yearToKey, targets, f) {
        if f in Chosen(yearToKey, targets[1..]) {
          assert IsEntryFor(yearToKey, targets[1..], f);
          assert f.year.value in targets;
        }
      }
    }
  }

  /** The years of `chosen` are the target years present in the index, in target order. */
  lemma {:induction false} ChosenFollowsTargets(yearToKey: map<int, string>, targets: seq<int>)
    ensures EntryYears(Chosen(yearToKey, targets)) == PresentYears(yearToKey, targets)
  {
    if targets != [] {
      ChosenFollowsTargets(yearToKey, targets[1..]);
      var c := Chosen(yearToKey, targets);
      var rest := Chosen(yearToKey, targets[1..]);
      var y := targets[0];
      if y in yearToKey && yearToKey[y] != "" {
        assert c[1..] == rest;
      } else {
        assert c == rest;
      }
    }
  }

  /** No value occurs twice in `s`. */
  predicate NoRepeats(s: seq<int>)
  {
    forall i, j :: 0 <= i < j < |s| ==> s[i] != s[j]
  }

  lemma TargetYearsNoRepeats()
    ensures NoRepeats(TargetYears)
  {
  }

  /** No two files of `c` are for the same year. */
  predicate YearsDistinct(c: seq<RemoteFile>)
  {
    forall i, j :: 0 <= i < j < |c| ==> c[i].year != c[j].year
  }

  /** For distinct target years, the chosen entries have distinct years. */
  lemma {:induction false} ChosenYearsDistinct(yearToKey: map<int, string>, targets: seq<int>)
    requires NoRepeats(targets)
    ensures YearsDistinct(Chosen(yearToKey, targets))
  {
    if targets != [] {
      var y, ys := targets[0], targets[1..];
      assert forall i :: 0 <= i < |ys| ==> ys[i] == targets[i + 1];
      assert y !in ys;
      ChosenYearsDistinct(yearToKey, ys);
      ChosenEntries(yearToKey, ys);
      var rest := Chosen(yearToKey, ys);
      var c := Chosen(yearToKey, targets);
      if y in yearToKey && yearToKey[y] != "" {
        var f := RemoteFile(yearToKey[y], BaseListing + yearToKey[y], Some(y), None);
        assert c == [f] + rest;
        forall i, j | 0 <= i < j < |c|
          ensures c[i].year != c[j].year
        {
          assert c[j] == rest[j - 1] && c[j] in rest;
          assert IsEntryFor(yearToKey, ys, c[j]);
          if i > 0 {
            assert c[i] == rest[i - 1];
          }
        }
      } else {
        assert c == rest;
      }
    }
  }

  lemma NoSlashInYearName(d: string)
    requires AllDigits(d)
    ensures '/' !in Stem + d + ParquetSuffix
  {
    var t := Stem + d + ParquetSuffix;
    forall i | 0 <= i < |t|
      ensures t[i] != '/'
    {
      if i < |Stem| {
        assert t[i] == Stem[i];
      } else if i < |Stem| + |d| {
        assert t[i] == d[i - |Stem|];
      } else {
        assert t[i] == ParquetSuffix[i - |Stem| - |d|];
      }
    }
  }

  /** A name that ends in stem, year digits and suffix keeps its year once the directory is cut off. */
  lemma BaseNameOfYearName(p: string, d: string)
    requires |d| == 4 && AllDigits(d)
    ensures YearBefore(BaseName(p + Stem + d + ParquetSuffix), ParquetSuffix) == Some(YearDigits(d))
  {
    NoSlashInYearName(d);
    BaseNameAppend3(p, Stem, d, ParquetSuffix);
    YearBeforeOf(BaseName(p), d, ParquetSuffix);
  }

  /** The base name of an exact-year key has the key's year. */
  lemma BaseNameKeepsYear(key: string)
    requires IsYearKey(key)
    ensures YearBefore(BaseName(key), ParquetSuffix) == InferYear(key)
  {
    DecadeTestMatchesPattern(key);
    var p, d := YearBeforeShape(key, ParquetSuffix);
    BaseNameOfYearName(p, d);
  }

  /** Index entries are never empty strings, so "truthy" is the same as "present". */
  lemma YearIndexNonEmpty(keys: seq<string>, y: int)
    requires y in YearIndex(keys)
    ensures YearIndex(keys)[y] != ""
  {
    var i := YearIndexEntry(keys, y);
  }

  // ---------------------------------------------------------------------------
  // Size probe

  /** Every entry with its size replaced by the probe's answer for its URL. */
  function Probed(chosen: seq<RemoteFile>, headSize: string -> Option<nat>): seq<RemoteFile>
  {
    seq(|chosen|, i requires 0 <= i < |chosen| => chosen[i].(sizeBytes := headSize(chosen[i].url)))
  }

  /** The loop `rf.size_bytes = head_size(rf.url)` over `chosen`. */
  method ProbeSizes(chosen: seq<RemoteFile>, headSize: string -> Option<nat>) returns (probed: seq<RemoteFile>)
    ensures |probed| == |chosen|
    ensures forall i :: 0 <= i < |chosen| ==>
              && probed[i].key == chosen[i].key && probed[i].url == chosen[i].url && probed[i].year == chosen[i].year
              && probed[i].sizeBytes == headSize(chosen[i].url)
    ensures probed == Probed(chosen, headSize)
  {
    probed := [];
    for i := 0 to |chosen|
      invariant |probed| == i
      invariant forall j :: 0 <= j < i ==> probed[j] == chosen[j].(sizeBytes := headSize(chosen[j].url))
    {
      probed := probed + [chosen[i].(sizeBytes := headSize(chosen[i].url))];
    }
  }
}

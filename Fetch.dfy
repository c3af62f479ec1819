/**
 * fetch_ml_features_data in train.py: pages through the /ml-features endpoint
 * with skip/limit, retrying each page a fixed number of times, stopping at the
 * target count, an empty page or a short page, and removing duplicate rows.
 * The HTTP call is the parameter `api`: api(skip, limit, attempt) is the page
 * the server returns on that attempt, or None when the request raises.
 */
module Fetch {
  import opened Wrappers
  import opened Frames

  /** Why the fetch raised (and train_model fell back to the CSV file). */
  datatype FetchError =
    | NoAttempts            // retries < 1: the retry loop never runs and `batch` is unbound
    | Exhausted(skip: int)  // the last attempt at this offset raised

  function Min(a: int, b: int): int
  {
    if a <= b then a else b
  }

  function Max(a: int, b: int): int
  {
    if a >= b then a else b
  }

  /**
   * The retry loop for one page: attempts attempt..retries in order, the first
   * success wins, and a failure on the last attempt re-raises.
   */
  function Attempts<R>(api: (int, int, nat) -> Option<seq<R>>, skip: int, limit: int, retries: int, attempt: nat): (r: Result<seq<R>, FetchError>)
    requires 1 <= attempt <= retries
    ensures r.Ok? <==> exists a: nat :: attempt <= a <= retries && api(skip, limit, a).Some?
    ensures r.Ok? ==> exists a: nat ::
      && attempt <= a <= retries
      && api(skip, limit, a) == Some(r.value)
      && forall b: nat :: attempt <= b < a ==> api(skip, limit, b).None?
    ensures r.Err? ==> r.error == Exhausted(skip)
    decreases retries - attempt
  {
    match api(skip, limit, attempt)
    case Some(batch) => Ok(batch)
    case None =>
      if attempt == retries then Err(Exhausted(skip))
      else Attempts(api, skip, limit, retries, attempt + 1)
  }

  /** One page: no attempts at all when retries < 1. */
  function Page<R>(api: (int, int, nat) -> Option<seq<R>>, skip: int, limit: int, retries: int): Result<seq<R>, FetchError>
  {
    if retries < 1 then Err(NoAttempts) else Attempts(api, skip, limit, retries, 1)
  }

  /**
   * The paging loop from the rows fetched so far (skip and total both equal
   * |acc|): stop at the target, on an empty page, or after a page shorter than
   * the limit asked for; otherwise fetch the next page.
   */
  function Pages<R>(api: (int, int, nat) -> Option<seq<R>>, target: int, batchSize: int, retries: int, acc: seq<R>): Result<seq<R>, FetchError>
    decreases Max(target - |acc|, 0)
  {
    if |acc| >= target then Ok(acc)
    else
      var limit := Min(batchSize, target - |acc|);
      match Page(api, |acc|, limit, retries)
      case Err(e) => Err(e)
      case Ok(batch) =>
        if batch == [] then Ok(acc)
        else if |batch| < limit then Ok(acc + batch)
        else Pages(api, target, batchSize, retries, acc + batch)
  }

  /** What fetch_ml_features_data returns: the fetched rows with duplicates removed. */
  function FetchSpec<R(==,!new)>(api: (int, int, nat) -> Option<seq<R>>, target: int, batchSize: int, retries: int): Result<seq<R>, FetchError>
  {
    match Pages(api, target, batchSize, retries, [])
    case Err(e) => Err(e)
    case Ok(rows) => Ok(DropDuplicates(rows))
  }

  /** fetch_ml_features_data: the paging loop with the retry loop inside it. */
  method FetchMlFeaturesData<R(==,!new)>(api: (int, int, nat) -> Option<seq<R>>, target: int, batchSize: int, retries: int)
    returns (result: Result<seq<R>, FetchError>)
    ensures result == FetchSpec(api, target, batchSize, retries)
  {
    var allData: seq<R> := [];
    var skip := 0;
    var total := 0;
    while total < target
      invariant skip == total == |allData|
      invariant Pages(api, target, batchSize, retries, allData) == Pages(api, target, batchSize, retries, [])
      decreases target - total
    {
      var limit := Min(batchSize, target - total);
      if retries < 1 {
        return Err(NoAttempts);
      }
      var attempt := 1;
      var batch: seq<R>;
      while true
        invariant 1 <= attempt <= retries
        invariant Attempts(api, skip, limit, retries, attempt) == Page(api, skip, limit, retries)
        decreases retries - attempt
      {
        var response := api(skip, limit, attempt);
        if response.Some? {
          batch := response.value;
          break;
        }
        if attempt == retries {
          return Err(Exhausted(skip));
        }
        attempt := attempt + 1;
      }
      if batch == [] {
        break;
      }
      allData := allData + batch;
      var got := |batch|;
      total := total + got;
      skip := skip + got;
      if got < limit {
        break;
      }
    }
    result := Ok(DropDuplicates(allData));
  }

  /** The API honours the limit it is sent (no rows for a limit of zero or less). */
  ghost predicate HonoursLimit<R>(api: (int, int, nat) -> Option<seq<R>>)
  {
    forall skip, limit, attempt :: api(skip, limit, attempt).Some? ==> |api(skip, limit, attempt).value| <= Max(limit, 0)
  }

  lemma PageHonoursLimit<R>(api: (int, int, nat) -> Option<seq<R>>, skip: int, limit: int, retries: int)
    requires HonoursLimit(api)
    ensures Page(api, skip, limit, retries).Ok? ==> |Page(api, skip, limit, retries).value| <= Max(limit, 0)
  {
    if retries >= 1 && Page(api, skip, limit, retries).Ok? {
      var a: nat :| 1 <= a <= retries && api(skip, limit, a) == Some(Page(api, skip, limit, retries).value);
    }
  }

  /**
   * The rows fetched extend the rows already held and, when the API honours
   * its limit, never exceed the target.
   */
  lemma {:induction false} PagesBounded<R>(api: (int, int, nat) -> Option<seq<R>>, target: int, batchSize: int, retries: int, acc: seq<R>)
    requires HonoursLimit(api) && |acc| <= Max(target, 0)
    ensures Pages(api, target, batchSize, retries, acc).Ok? ==>
      var rows := Pages(api, target, batchSize, retries, acc).value;
      acc <= rows && |rows| <= Max(target, 0)
    decreases Max(target - |acc|, 0)
  {
    if |acc| < target {
      var limit := Min(batchSize, target - |acc|);
      PageHonoursLimit(api, |acc|, limit, retries);
      var page := Page(api, |acc|, limit, retries);
      if page.Ok? && page.value != [] && |page.value| >= limit {
        PagesBounded(api, target, batchSize, retries, acc + page.value);
      }
    }
  }

  /** Against an API that honours its limit the fetch returns at most target rows, all distinct. */
  lemma FetchBounded<R(!new)>(api: (int, int, nat) -> Option<seq<R>>, target: int, batchSize: int, retries: int)
    requires HonoursLimit(api)
    ensures var r := FetchSpec(api, target, batchSize, retries);
      r.Ok? ==> |r.value| <= Max(target, 0) && NoDuplicates(r.value)
  {
    PagesBounded(api, target, batchSize, retries, []);
  }

  /** With no attempts allowed and rows to fetch, the fetch always raises. */
  lemma NoRetriesFails<R(!new)>(api: (int, int, nat) -> Option<seq<R>>, target: int, batchSize: int, retries: int)
    requires retries < 1 && target > 0
    ensures FetchSpec(api, target, batchSize, retries) == Err(NoAttempts)
  {
  }

  /** An API that always answers on the first attempt makes the retry count irrelevant. */
  lemma {:induction false} RetriesIrrelevant<R>(api: (int, int, nat) -> Option<seq<R>>, target: int, batchSize: int, retries: int, acc: seq<R>)
    requires retries >= 1
    requires forall skip, limit :: api(skip, limit, 1).Some?
    ensures Pages(api, target, batchSize, retries, acc) == Pages(api, target, batchSize, 1, acc)
    decreases Max(target - |acc|, 0)
  {
    if |acc| < target {
      var limit := Min(batchSize, target - |acc|);
      assert api(|acc|, limit, 1).Some?;
      var page := Page(api, |acc|, limit, retries);
      assert page == Page(api, |acc|, limit, 1);
      if page.Ok? && page.value != [] && |page.value| >= limit {
        RetriesIrrelevant(api, target, batchSize, retries, acc + page.value);
      }
    }
  }

  /** A first page that comes back empty ends the fetch with no rows. */
  lemma EmptyFirstPage<R(!new)>(api: (int, int, nat) -> Option<seq<R>>, target: int, batchSize: int, retries: int)
    requires target > 0 && retries >= 1
    requires api(0, Min(batchSize, target), 1) == Some([])
    ensures FetchSpec(api, target, batchSize, retries) == Ok([])
  {
  }
}

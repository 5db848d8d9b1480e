/**
 * `run` of `__main__.py`: the resume filter over the ranks already downloaded, the search,
 * the availability probe when all 1000 results are asked for, and the per-rank loop that
 * hands every entry found to the writer.
 *
 * `get_downloaded_entries` and `get_entry` are not defined in the scraper; the model takes
 * the first's answer as a parameter and the second as an oracle. The writer is not
 * called: each call `run` makes is recorded with the arguments it passes.
 */
module Driver {
  import opened Outcomes
  import opened Text
  import opened Scraper

  /** The ranks still to download, ascending: those of 1 to `numentries` whose decimal text is not in `downloaded`. */
  function PendingRanks(numentries: nat, downloaded: seq<string>): (r: seq<nat>)
    ensures forall k :: 0 <= k < |r| ==> 1 <= r[k] <= numentries && Decimal(r[k]) !in downloaded
    ensures forall m :: 1 <= m <= numentries && Decimal(m) !in downloaded ==> m in r
    ensures forall j, k :: 0 <= j < k < |r| ==> r[j] < r[k]
  {
    if numentries == 0 then []
    else
      PendingRanks(numentries - 1, downloaded)
        + if Decimal(numentries) in downloaded then [] else [numentries]
  }

  /** `entries_to_download`: the pending ranks as the text `str(i + 1)`. */
  function EntriesToDownload(numentries: nat, downloaded: seq<string>): (r: seq<string>)
    ensures |r| == |PendingRanks(numentries, downloaded)|
    ensures forall k :: 0 <= k < |r| ==> r[k] == Decimal(PendingRanks(numentries, downloaded)[k])
  {
    var ranks := PendingRanks(numentries, downloaded);
    seq(|ranks|, k requires 0 <= k < |ranks| => Decimal(ranks[k]))
  }

  /** The text of a rank in 1 to `numentries` is in the resume list exactly when it was not downloaded. */
  lemma EntriesToDownloadAreTheMissingRanks(numentries: nat, downloaded: seq<string>)
    ensures var r := EntriesToDownload(numentries, downloaded);
      forall m :: 1 <= m <= numentries ==> (Decimal(m) in r <==> Decimal(m) !in downloaded)
  {
    var ranks, r := PendingRanks(numentries, downloaded), EntriesToDownload(numentries, downloaded);
    forall m | 1 <= m <= numentries
      ensures Decimal(m) in r <==> Decimal(m) !in downloaded
    {
      if Decimal(m) in r {
        var k :| 0 <= k < |r| && r[k] == Decimal(m);
        DecimalInjective(m, ranks[k]);
      }
      if Decimal(m) !in downloaded {
        var k :| 0 <= k < |ranks| && ranks[k] == m;
        assert r[k] == Decimal(m);
      }
    }
  }

  /** `s` is the decimal text of a rank in 1 to `numentries`. */
  predicate IsRankText(s: string, numentries: nat) {
    exists m :: 1 <= m <= numentries && s == Decimal(m)
  }

  /** The resume list holds nothing but the texts of ranks in 1 to `numentries` that were not downloaded. */
  lemma EntriesToDownloadAreRanks(numentries: nat, downloaded: seq<string>)
    ensures forall s :: s in EntriesToDownload(numentries, downloaded) ==>
      s !in downloaded && IsRankText(s, numentries)
  {
    var ranks, r := PendingRanks(numentries, downloaded), EntriesToDownload(numentries, downloaded);
    forall s | s in r
      ensures s !in downloaded && IsRankText(s, numentries)
    {
      var k :| 0 <= k < |r| && r[k] == s;
      var m := ranks[k];
      assert 1 <= m <= numentries && s == Decimal(m);
    }
  }

  /** The resume filter lists no rank twice. */
  lemma EntriesToDownloadHasNoDuplicates(numentries: nat, downloaded: seq<string>)
    ensures var r := EntriesToDownload(numentries, downloaded);
      forall j, k :: 0 <= j < k < |r| ==> r[j] != r[k]
  {
    var ranks, r := PendingRanks(numentries, downloaded), EntriesToDownload(numentries, downloaded);
    forall j, k | 0 <= j < k < |r|
      ensures r[j] != r[k]
    {
      if r[j] == r[k] {
        DecimalInjective(ranks[j], ranks[k]);
      }
    }
  }

  /** One call `write(query, entry, numentry, outdir)` as `run` makes it: the entry and the 0-based rank. */
  datatype WriteCall = WriteCall(entry: Entry, numentry: nat)

  /** `get_entry(response, rank, numentries, entries_to_download)`: the entry for a rank, or `None`. */
  type Oracle = (Session, nat, nat, seq<string>) -> Option<Entry>

  /**
   * The upstream calls `run` depends on: the search, the page fetch of the availability
   * probe, and `get_entry(response, rank, numentries, entries_to_download)`.
   */
  datatype Upstream = Upstream(
    search: (string, nat) -> Option<Session>,
    fetch: (nat, string) -> PageFetch,
    getEntry: Oracle)

  /** The write calls of the first `n` passes of the driver loop over `bound` ranks. */
  function Writes(getEntry: Oracle, response: Session, bound: nat,
                     toDownload: seq<string>, n: nat): (w: seq<WriteCall>)
    ensures |w| <= n
    ensures forall j :: 0 <= j < |w| ==> w[j].numentry < n
  {
    if n == 0 then []
    else
      var prev := Writes(getEntry, response, bound, toDownload, n - 1);
      var entry := getEntry(response, n, bound, toDownload);
      prev + if entry.Some? then [WriteCall(entry.value, n - 1)] else []
  }

  /** Each write call is for a later rank than the one before it. */
  predicate InRankOrder(w: seq<WriteCall>) {
    forall j :: 0 < j < |w| ==> w[j - 1].numentry < w[j].numentry
  }

  /** Each write call passes the entry `get_entry` found for its rank. */
  predicate PassesFoundEntries(getEntry: Oracle, response: Session, bound: nat, toDownload: seq<string>, w: seq<WriteCall>) {
    forall j :: 0 <= j < |w| ==> getEntry(response, w[j].numentry + 1, bound, toDownload) == Some(w[j].entry)
  }

  /** The write calls come in rank order, each passing the entry `get_entry` found for its rank. */
  lemma {:induction false} WritesInRankOrder(getEntry: Oracle, response: Session, bound: nat, toDownload: seq<string>, n: nat)
    ensures InRankOrder(Writes(getEntry, response, bound, toDownload, n))
    ensures PassesFoundEntries(getEntry, response, bound, toDownload, Writes(getEntry, response, bound, toDownload, n))
  {
    if n > 0 {
      WritesInRankOrder(getEntry, response, bound, toDownload, n - 1);
      var prev := Writes(getEntry, response, bound, toDownload, n - 1);
      var w := Writes(getEntry, response, bound, toDownload, n);
      var found := getEntry(response, n, bound, toDownload);
      var last := if found.Some? then [WriteCall(found.value, n - 1)] else [];
      assert w == prev + last;
      forall j | 0 <= j < |w|
        ensures getEntry(response, w[j].numentry + 1, bound, toDownload) == Some(w[j].entry)
      {
        if j < |prev| {
          assert w[j] == prev[j];
        } else {
          assert w[j] == WriteCall(found.value, n - 1) && w[j].numentry + 1 == n;
        }
      }
      forall j | 0 < j < |w|
        ensures w[j - 1].numentry < w[j].numentry
      {
        if j < |prev| {
          assert w[j - 1] == prev[j - 1] && w[j] == prev[j];
        } else {
          assert w[j - 1] == prev[j - 1] && w[j].numentry == n - 1;
        }
      }
    }
  }

  /** Some write call of `w` is for the 0-based rank `k`. */
  predicate WritesRank(w: seq<WriteCall>, k: nat) {
    exists j :: 0 <= j < |w| && w[j].numentry == k
  }

  /** The first `n` passes write the 0-based rank `k` exactly when `get_entry` finds an entry for rank k + 1. */
  lemma {:induction false} RankWrittenIffFound(getEntry: Oracle,
                                                  response: Session, bound: nat, toDownload: seq<string>, n: nat, k: nat)
    requires k < n
    ensures WritesRank(Writes(getEntry, response, bound, toDownload, n), k)
      <==> getEntry(response, k + 1, bound, toDownload).Some?
  {
    var prev := Writes(getEntry, response, bound, toDownload, n - 1);
    var w := Writes(getEntry, response, bound, toDownload, n);
    var found := getEntry(response, n, bound, toDownload);
    var last := if found.Some? then [WriteCall(found.value, n - 1)] else [];
    assert w == prev + last;
    if k < n - 1 {
      RankWrittenIffFound(getEntry, response, bound, toDownload, n - 1, k);
      assert WritesRank(w, k) ==> WritesRank(prev, k) by {
        if WritesRank(w, k) {
          var j :| 0 <= j < |w| && w[j].numentry == k;
          assert j < |prev| && prev[j].numentry == k;
        }
      }
      assert WritesRank(prev, k) ==> WritesRank(w, k) by {
        if WritesRank(prev, k) {
          var j :| 0 <= j < |prev| && prev[j].numentry == k;
          assert w[j].numentry == k;
        }
      }
    } else {
      assert getEntry(response, k + 1, bound, toDownload) == found by {
        assert k + 1 == n;
      }
      assert WritesRank(w, k) <==> found.Some? by {
        if found.Some? {
          assert w[|w| - 1].numentry == k;
        } else {
          assert w == prev;
          assert !WritesRank(prev, k);
        }
      }
    }
  }

  /** The loop writes rank k exactly when `get_entry` finds an entry for it. */
  lemma WritesAreTheFoundEntries(getEntry: Oracle, response: Session, bound: nat, toDownload: seq<string>, n: nat)
    ensures var w := Writes(getEntry, response, bound, toDownload, n);
      forall k :: 0 <= k < n ==> (WritesRank(w, k) <==> getEntry(response, k + 1, bound, toDownload).Some?)
  {
    forall k | 0 <= k < n
      ensures WritesRank(Writes(getEntry, response, bound, toDownload, n), k)
        <==> getEntry(response, k + 1, bound, toDownload).Some?
    {
      RankWrittenIffFound(getEntry, response, bound, toDownload, n, k);
    }
  }

  /**
   * The driver loop of `run`: asks `get_entry` for ranks 1 to `bound` in order and hands
   * every entry found to the writer, with its 0-based rank.
   */
  method DriveRanks(getEntry: Oracle, response: Session, bound: nat, toDownload: seq<string>)
    returns (writes: seq<WriteCall>)
    ensures writes == Writes(getEntry, response, bound, toDownload, bound)
  {
    writes := [];
    for numentry := 0 to bound
      invariant writes == Writes(getEntry, response, bound, toDownload, numentry)
    {
      var entry := getEntry(response, numentry + 1, bound, toDownload);
      if entry.Some? {
        writes := writes + [WriteCall(entry.value, numentry)];
      }
    }
  }

  /**
   * `run`: computes the ranks still to download, searches (raising `ConnectionError` when
   * every attempt fails), replaces the rank count by the availability count when it is
   * 1000, and then asks `get_entry` for every rank 1 to that count in order, handing each
   * entry found to the writer.
   */
  method Run(up: Upstream, query: string, numentries: nat, downloaded: seq<string>)
    returns (r: Result<seq<WriteCall>>, toDownload: seq<string>)
    ensures toDownload == EntriesToDownload(numentries, downloaded)
    ensures FirstSuccess(up.search, query, 0).None? ==> r == Err(ConnectionError)
    ensures FirstSuccess(up.search, query, 0).Some? && numentries != 1000 ==>
      var response := up.search(query, FirstSuccess(up.search, query, 0).value).value;
      r == Ok(Writes(up.getEntry, response, numentries, toDownload, numentries))
    ensures FirstSuccess(up.search, query, 0).Some? && numentries == 1000 ==>
      var response := up.search(query, FirstSuccess(up.search, query, 0).value).value;
      var probe := Availability(query, up.fetch);
      var available := FirstProbePage + 10 * probe.parsed;
      && (probe.failed ==> r == Err(ServiceError))
      && (!probe.failed ==> r == Ok(Writes(up.getEntry, response, available, toDownload, available)))
  {
    toDownload := EntriesToDownload(numentries, downloaded);
    var searched, _, _ := ScrapeGS(up.search, query);
    if searched.Err? {
      return Err(searched.error), toDownload;
    }
    var response := searched.value;
    assert response == up.search(query, FirstSuccess(up.search, query, 0).value).value;
    var bound := numentries;
    if numentries == 1000 {
      var available, _ := CheckAvailability(query, up.fetch);
      if available.Err? {
        return Err(available.error), toDownload;
      }
      bound := available.value;
      assert bound == FirstProbePage + 10 * Availability(query, up.fetch).parsed;
    }
    var writes := DriveRanks(up.getEntry, response, bound, toDownload);
    r := Ok(writes);
  }
}

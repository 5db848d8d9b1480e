/**
 * The scraper class of `_scraper.py`: the bounded retry around the search call
 * (`scrapeGS`), the pagination probe (`check_availability`), the per-index retry loop
 * that fills the preallocated entry list (`get_entries`), and the CSV layout (`write`).
 *
 * Upstream calls are oracles. `search(query, n)` is what the n-th call of
 * `search_pubs(query)` yields (`None` when it raises); `fetch(page, url)` is the page
 * returned for the request made while the probe stands at `page`; a search session is
 * the finite sequence of raw hits its stream yields. Every failed attempt is followed by
 * one call of the proxy-rotation recovery step, which the model counts.
 */
module Scraper {
  import opened Outcomes
  import opened Text
  import opened Crossref
  import opened Demografix

  /** `NUM_ATTEMPTS`: the bound shared by both retry loops. */
  const NumAttempts: nat := 20

  // Column names of the output file.
  const FullAuthorsField := "AUTHOR"
  const FirstAuthorField := "FIRST_AUTHOR"
  const LastAuthorField := "LAST_AUTHOR"
  const AuthorIdField := "AUTHOR_ID"
  const PubYearField := "PUB_YEAR"
  const TitleField := "TITLE"
  const ScholarLinkField := "SCHOLAR_LINK"
  const PubUrlField := "PUB_URL"
  const GsRankField := "GSRANK"
  const NumCitationsField := "NUM_CITATIONS"
  const DoiField := "SUGGESTED_DOI"
  const FirstGenderField := "FIRST_AUTHOR_GENDER"
  const FirstGenderProbField := "FIRST_AUTHOR_GENDER_PROBABILITY"
  const FirstNationField := "FIRST_AUTHOR_NATION"
  const FirstNationProbField := "FIRST_AUTHOR_COUNTRY_PROBABILITY"
  const LastGenderField := "LAST_AUTHOR_GENDER"
  const LastGenderProbField := "LAST_AUTHOR_GENDER_PROBABILITY"
  const LastNationField := "LAST_AUTHOR_NATION"
  const LastNationProbField := "LAST_AUTHOR_COUNTRY_PROBABILITY"

  /** The header of the output file: the 19 columns in their fixed order. */
  const FieldNames: seq<string> := [
    FullAuthorsField, FirstAuthorField, LastAuthorField, AuthorIdField, PubYearField,
    TitleField, ScholarLinkField, PubUrlField, GsRankField, NumCitationsField, DoiField,
    FirstGenderField, FirstGenderProbField, FirstNationField, FirstNationProbField,
    LastGenderField, LastGenderProbField, LastNationField, LastNationProbField]

  /** The keys of an entry dictionary built by `get_entries` (every column but AUTHOR_ID). */
  const EntryKeys: set<string> := {
    FullAuthorsField, FirstAuthorField, LastAuthorField, PubYearField,
    TitleField, ScholarLinkField, PubUrlField, GsRankField, NumCitationsField, DoiField,
    FirstGenderField, FirstGenderProbField, FirstNationField, FirstNationProbField,
    LastGenderField, LastGenderProbField, LastNationField, LastNationProbField}

  /** One entry dictionary; the empty map is the `dict()` a failed index keeps. */
  type Entry = map<string, string>

  /** One raw search hit: its `bib` dictionary and its top-level keys, values as `str` renders them. */
  datatype RawItem = RawItem(bib: map<string, string>, fields: map<string, string>)

  /** An open search session: the hits its stream yields, in rank order. */
  datatype Session = Session(stream: seq<RawItem>)

  /** The services an entry is enriched with. */
  datatype Services = Services(works: string -> Option<Work>, inference: Inference)

  // ---------------------------------------------------------------- scrapeGS

  /** The first call, from call `from` on and below `NumAttempts`, that yields a session. */
  function FirstSuccess<S>(search: (string, nat) -> Option<S>, query: string, from: nat): (r: Option<nat>)
    decreases NumAttempts - from
    ensures r.Some? ==> from <= r.value < NumAttempts && search(query, r.value).Some?
    ensures r.Some? ==> forall k :: from <= k < r.value ==> search(query, k).None?
    ensures r.None? ==> forall k :: from <= k < NumAttempts ==> search(query, k).None?
  {
    if from >= NumAttempts then None
    else if search(query, from).Some? then Some(from)
    else FirstSuccess(search, query, from + 1)
  }

  /** A call that yields a session after calls that all failed is the first success. */
  lemma FirstSuccessAt<S>(search: (string, nat) -> Option<S>, query: string, k: nat)
    requires k < NumAttempts && search(query, k).Some?
    requires forall j :: 0 <= j < k ==> search(query, j).None?
    ensures FirstSuccess(search, query, 0) == Some(k)
  {
    var r := FirstSuccess(search, query, 0);
    assert r.Some?;
    assert !(r.value < k);
  }

  /**
   * `scrapeGS`: calls the search at most `NumAttempts` times, stops at the first success
   * and returns its session; runs the recovery step once per failed call; raises
   * `ConnectionError` when every call fails.
   */
  method ScrapeGS<S>(search: (string, nat) -> Option<S>, query: string)
    returns (r: Result<S>, calls: nat, recoveries: nat)
    ensures 1 <= calls <= NumAttempts
    ensures match FirstSuccess(search, query, 0)
      case Some(k) => r == Ok(search(query, k).value) && calls == k + 1 && recoveries == k
      case None => r == Err(ConnectionError) && calls == NumAttempts && recoveries == NumAttempts
  {
    calls, recoveries := 0, 0;
    for attempt := 0 to NumAttempts
      invariant calls == attempt && recoveries == attempt
      invariant forall k :: 0 <= k < attempt ==> search(query, k).None?
    {
      var searchQuery := search(query, attempt);
      calls := calls + 1;
      if searchQuery.Some? {
        FirstSuccessAt(search, query, attempt);
        return Ok(searchQuery.value), calls, recoveries;
      }
      recoveries := recoveries + 1;
    }
    assert FirstSuccess(search, query, 0) == None;
    r := Err(ConnectionError);
  }

  // ---------------------------------------------------------- check_availability

  const ScholarHost := "https://scholar.google.com"
  const FirstProbePage: nat := 940
  const LastProbePage: nat := 1000

  /** The probe requests the pages 940, 950, ..., 1000: seven requests. */
  const ProbeSteps: nat := 6

  function PageAt(step: nat): nat {
    FirstProbePage + 10 * step
  }

  /** What one request of the probe gives: a failed request, or a page whose last "next" link may be missing. */
  datatype PageFetch = FetchFailed | Fetched(nextHref: Option<string>)

  /** Where the probe stands: the url to request next, the pages parsed, the urls requested, and whether a request raised. */
  datatype Probe = Probe(url: string, parsed: nat, requested: seq<string>, failed: bool)

  function StartUrl(query: string): string {
    ScholarHost + "/scholar?start=940&q=" + query
  }

  /**
   * The probe after its first `n` requests: a parsed page moves the url to its "next"
   * link and counts, a page that does not parse leaves the url as it is, the last page is
   * requested but not parsed, and a request that raises stops the probe.
   */
  function Walk(query: string, fetch: (nat, string) -> PageFetch, n: nat): (p: Probe)
    requires n <= ProbeSteps + 1
    ensures |p.requested| <= n && p.parsed <= |p.requested| && p.parsed <= ProbeSteps
    ensures !p.failed ==> |p.requested| == n
    ensures n > 0 ==> 1 <= |p.requested| && p.requested[0] == StartUrl(query)
  {
    if n == 0 then Probe(StartUrl(query), 0, [], false)
    else
      var prev := Walk(query, fetch, n - 1);
      if prev.failed then prev
      else
        var requested := prev.requested + [prev.url];
        match fetch(PageAt(n - 1), prev.url)
        case FetchFailed => prev.(requested := requested, failed := true)
        case Fetched(next) =>
          if n - 1 == ProbeSteps || next.None? then prev.(requested := requested)
          else Probe(ScholarHost + next.value, prev.parsed + 1, requested, false)
  }

  /** The whole probe of `check_availability` for `query`. */
  function Availability(query: string, fetch: (nat, string) -> PageFetch): (p: Probe)
    ensures p.parsed <= ProbeSteps && 1 <= |p.requested| <= ProbeSteps + 1
    ensures p.requested[0] == StartUrl(query)
    ensures !p.failed ==> |p.requested| == ProbeSteps + 1
  {
    Walk(query, fetch, ProbeSteps + 1)
  }

  /** Once a request has raised, the probe makes no further request. */
  lemma {:induction false} FailureEndsTheWalk(query: string, fetch: (nat, string) -> PageFetch, n: nat, m: nat)
    requires n <= m <= ProbeSteps + 1
    requires Walk(query, fetch, n).failed
    ensures Walk(query, fetch, m) == Walk(query, fetch, n)
    decreases m - n
  {
    if n < m {
      FailureEndsTheWalk(query, fetch, n, m - 1);
    }
  }

  /** A page that does not parse is not counted, and the next request asks for the same url again. */
  lemma UnparsedPageIsRequestedAgain(query: string, fetch: (nat, string) -> PageFetch, n: nat)
    requires n < ProbeSteps && !Walk(query, fetch, n).failed
    requires fetch(PageAt(n), Walk(query, fetch, n).url) == Fetched(None)
    ensures var before, after := Walk(query, fetch, n), Walk(query, fetch, n + 1);
      after.url == before.url && after.parsed == before.parsed && !after.failed
  {
  }

  /** When every page answers and parses, every page but the last one is counted: the probe returns 1000. */
  lemma {:induction false} EveryParsedPageCounts(query: string, fetch: (nat, string) -> PageFetch, n: nat)
    requires n <= ProbeSteps + 1
    requires forall page, u :: fetch(page, u).Fetched? && fetch(page, u).nextHref.Some?
    ensures !Walk(query, fetch, n).failed
    ensures Walk(query, fetch, n).parsed == if n <= ProbeSteps then n else ProbeSteps
  {
    if n > 0 {
      EveryParsedPageCounts(query, fetch, n - 1);
    }
  }

  /**
   * `check_availability`: requests pages 940 to 1000 in steps of 10, whatever the parse
   * outcomes, and returns 940 plus 10 for every page that parsed; a request that raises
   * ends the probe with that error.
   */
  method CheckAvailability(query: string, fetch: (nat, string) -> PageFetch)
    returns (r: Result<nat>, requested: seq<string>)
    ensures var p := Availability(query, fetch);
      && requested == p.requested
      && (r.Err? <==> p.failed)
      && (r.Err? ==> r.error == ServiceError)
      && (r.Ok? ==> r.value == FirstProbePage + 10 * p.parsed)
    ensures r.Ok? ==> |requested| == ProbeSteps + 1 && FirstProbePage <= r.value <= LastProbePage
  {
    var url := StartUrl(query);
    var count := 940;
    var page := 940;
    ghost var step: nat := 0;
    ghost var parsed: nat := 0;
    requested := [];
    while true
      invariant step <= ProbeSteps && page == PageAt(step)
      invariant count == FirstProbePage + 10 * parsed && count <= page
      invariant Walk(query, fetch, step) == Probe(url, parsed, requested, false)
      decreases ProbeSteps - step
    {
      var res := fetch(page, url);
      requested := requested + [url];
      if res.FetchFailed? {
        FailureEndsTheWalk(query, fetch, step + 1, ProbeSteps + 1);
        return Err(ServiceError), requested;
      }
      if page == LastProbePage {
        break;
      }
      if res.nextHref.Some? {
        url := ScholarHost + res.nextHref.value;
        count := count + 10;
        parsed := parsed + 1;
      }
      page := page + 10;
      step := step + 1;
    }
    r := Ok(count);
  }

  // ---------------------------------------------------------------- get_entries

  /** `re.sub(r'[\[\]\']', '', s.replace(',', ';'))`, applied to the authors and to the author IDs. */
  function CleanList(s: string): (r: string)
    ensures forall k :: 0 <= k < |r| ==> r[k] !in {'[', ']', '\'', ','}
  {
    var semis := ReplaceChar(s, ',', ';');
    RemoveCharsKeepsOut(semis, {'[', ']', '\''}, ',');
    RemoveChars(semis, {'[', ']', '\''})
  }

  /** The image of one character under the cleanup. */
  function CleanChar(c: char): string {
    if c in {'[', ']', '\''} then [] else if c == ',' then [';'] else [c]
  }

  /** The cleanup works character by character, so every kept character keeps its place in the order. */
  lemma {:induction false} CleanListByCharacter(a: string, b: string, c: char)
    ensures CleanList(a + b) == CleanList(a) + CleanList(b)
    ensures CleanList([c]) == CleanChar(c)
  {
    assert ReplaceChar(a + b, ',', ';') == ReplaceChar(a, ',', ';') + ReplaceChar(b, ',', ';');
    RemoveCharsAppend(ReplaceChar(a, ',', ';'), ReplaceChar(b, ',', ';'), {'[', ']', '\''});
    var one := ReplaceChar([c], ',', ';');
    assert one == [if c == ',' then ';' else c];
    assert one[1..] == [];
  }

  function Lookup(m: map<string, string>, key: string): (r: Result<string>)
    ensures r.Ok? <==> key in m
    ensures r.Ok? ==> r.value == m[key]
    ensures r.Err? ==> r.error == KeyError(key)
  {
    if key in m then Ok(m[key]) else Err(KeyError(key))
  }

  /** `name, surname = found`: unpacking `None` raises `TypeError`. */
  function Unpack(found: Option<Named>): (r: Result<Named>)
    ensures r.Err? <==> found.None?
    ensures r.Ok? ==> r.value == found.value
  {
    if found.Some? then Ok(found.value) else Err(TypeError)
  }

  /** The SCHOLAR_LINK column, built from `url_scholarbib` and the index `i`. */
  function ScholarLink(scholarBib: string, i: nat): string {
    ScholarHost + ReplaceAll(ReplaceAll(scholarBib, "?q=info:", "?cluster="),
      ":scholar.google.com/&output=cite&scirp=" + Decimal(i), "")
  }

  /** The fields of a hit that are read before Crossref is asked. */
  datatype Hit = Hit(authors: string, authorIds: string, pubYear: string, title: string, pubUrl: string)

  /**
   * Reading a hit, in source order: the author list and the author IDs cleaned, the year,
   * the title, and the publication URL ('' when absent); a missing key raises `KeyError`.
   */
  function ReadHit(item: RawItem): (r: Result<Hit>)
    ensures r.Ok? <==>
      ("author" in item.bib && "author_id" in item.fields && "pub_year" in item.bib && "title" in item.bib)
    ensures "author" !in item.bib ==> r == Err(KeyError("author"))
    ensures "author" in item.bib && "author_id" !in item.fields ==> r == Err(KeyError("author_id"))
    ensures r.Err? ==> r.error.KeyError? && r.error.key in {"author", "author_id", "pub_year", "title"}
    ensures r.Ok? ==>
      && r.value.authors == CleanList(item.bib["author"])
      && r.value.pubYear == item.bib["pub_year"] && r.value.title == item.bib["title"]
      && r.value.pubUrl == (if "pub_url" in item.fields then item.fields["pub_url"] else "")
  {
    var authorsText :- Lookup(item.bib, "author");
    var authorIdsText :- Lookup(item.fields, "author_id");
    var pubYear :- Lookup(item.bib, "pub_year");
    var title :- Lookup(item.bib, "title");
    var pubUrl := if "pub_url" in item.fields then item.fields["pub_url"] else "";
    Ok(Hit(CleanList(authorsText), CleanList(authorIdsText), pubYear, title, pubUrl))
  }

  /** The Crossref and demographic part of an entry. */
  datatype Enrichment = Enrichment(
    doi: string, fullnames: string, first: Named, last: Named,
    firstNation: NationRecord, firstGender: GenderRecord,
    lastNation: NationRecord, lastGender: GenderRecord)

  /** The nation of an author, then the gender guessed with that nation's country code. */
  function Demography(inf: Inference, a: Named): (r: (NationRecord, GenderRecord))
    ensures AuthorLabel(a.given, a.family) == " " ==> r == (NationRecord("", ""), GenderRecord("", ""))
    ensures r.0 == NationSpec(inf, a.given, a.family)
    ensures r.1 == GenderSpec(inf, a.given, a.family, r.0.countryId)
  {
    var nation := NationSpec(inf, a.given, a.family);
    (nation, GenderSpec(inf, a.given, a.family, nation.countryId))
  }

  /** The author list Crossref gives for a hit, once `petition` has applied its defaults. */
  function ReplyAuthors(sv: Services, hit: Hit): seq<Author>
    requires Petition(sv.works, hit.authors, hit.pubYear, hit.title).Ok?
  {
    Petition(sv.works, hit.authors, hit.pubYear, hit.title).value.authors
  }

  /**
   * The Crossref query and the demographic guesses for the first and the last author.
   * It succeeds exactly when Crossref answers, every author with a given name has a family
   * name, and at least one author has a given name; the first and last authors are those
   * scans find.
   */
  function Enrich(sv: Services, hit: Hit): (r: Result<Enrichment>)
    ensures var p := Petition(sv.works, hit.authors, hit.pubYear, hit.title);
      r.Ok? <==> p.Ok? && AllNamed(p.value.authors) && FirstGiven(p.value.authors) < |p.value.authors|
    ensures r.Err? ==> r.error in {ServiceError, KeyError("family"), TypeError}
    ensures r.Ok? ==> var authors := ReplyAuthors(sv, hit);
      && r.value.doi == GetDoi(Petition(sv.works, hit.authors, hit.pubYear, hit.title).value.doi)
      && r.value.fullnames == Join(NameList(authors), ", ")
      && Some(r.value.first) == FirstAuthor(authors).value
      && Some(r.value.last) == LastAuthor(authors).value
      && (r.value.firstNation, r.value.firstGender) == Demography(sv.inference, r.value.first)
      && (r.value.lastNation, r.value.lastGender) == Demography(sv.inference, r.value.last)
  {
    var reply :- Petition(sv.works, hit.authors, hit.pubYear, hit.title);
    var fullnames :- FullNamesText(reply.authors);
    // Every author with a given name now has a family name, so neither scan raises.
    var firstFound := FirstAuthor(reply.authors);
    var first :- Unpack(firstFound.value);
    var (firstNation, firstGender) := Demography(sv.inference, first);
    var last := LastAuthor(reply.authors).value.value;
    var (lastNation, lastGender) := Demography(sv.inference, last);
    Ok(Enrichment(GetDoi(reply.doi), fullnames, first, last, firstNation, firstGender, lastNation, lastGender))
  }

  /** The entry dictionary assembled from the parts of one processed hit. */
  function MakeEntry(hit: Hit, e: Enrichment, link: string, gsRank: string, citations: string): (r: Entry)
    ensures r.Keys == EntryKeys
  {
    map[
      FullAuthorsField := e.fullnames,
      FirstAuthorField := AuthorLabel(e.first.given, e.first.family),
      LastAuthorField := AuthorLabel(e.last.given, e.last.family),
      PubYearField := hit.pubYear,
      TitleField := hit.title,
      ScholarLinkField := link,
      PubUrlField := hit.pubUrl,
      GsRankField := gsRank,
      NumCitationsField := citations,
      DoiField := e.doi,
      FirstGenderField := e.firstGender.gender,
      FirstGenderProbField := e.firstGender.probability,
      FirstNationField := e.firstNation.countryId,
      FirstNationProbField := e.firstNation.probability,
      LastGenderField := e.lastGender.gender,
      LastGenderProbField := e.lastGender.probability,
      LastNationField := e.lastNation.countryId,
      LastNationProbField := e.lastNation.probability]
  }

  /**
   * The body of the `try` block of `get_entries` for one hit at index `i`: the entry, or
   * the exception that makes the attempt fail.
   */
  function ProcessSpec(sv: Services, item: RawItem, i: nat): (r: Result<Entry>)
    ensures r.Ok? <==>
      && ReadHit(item).Ok? && Enrich(sv, ReadHit(item).value).Ok?
      && "url_scholarbib" in item.fields && "gsrank" in item.fields && "num_citations" in item.fields
    ensures r.Ok? ==> r.value.Keys == EntryKeys
    ensures ReadHit(item).Err? ==> r == Err(ReadHit(item).error)
  {
    var hit :- ReadHit(item);
    var e :- Enrich(sv, hit);
    var scholarBib :- Lookup(item.fields, "url_scholarbib");
    var gsRank :- Lookup(item.fields, "gsrank");
    var citations :- Lookup(item.fields, "num_citations");
    Ok(MakeEntry(hit, e, ScholarLink(scholarBib, i), gsRank, citations))
  }

  /** The bibliographic and Crossref columns of an assembled entry hold the parts they are built from. */
  lemma MakeEntryColumns(hit: Hit, e: Enrichment, link: string, gsRank: string, citations: string)
    ensures var r := MakeEntry(hit, e, link, gsRank, citations);
      && r[FullAuthorsField] == e.fullnames
      && r[FirstAuthorField] == AuthorLabel(e.first.given, e.first.family)
      && r[LastAuthorField] == AuthorLabel(e.last.given, e.last.family)
      && r[PubYearField] == hit.pubYear
      && r[TitleField] == hit.title
      && r[ScholarLinkField] == link
      && r[PubUrlField] == hit.pubUrl
      && r[GsRankField] == gsRank
      && r[NumCitationsField] == citations
      && r[DoiField] == e.doi
  {
  }

  /** The demographic columns of an assembled entry hold the guesses for the first and the last author. */
  lemma MakeEntryDemographyColumns(hit: Hit, e: Enrichment, link: string, gsRank: string, citations: string)
    ensures var r := MakeEntry(hit, e, link, gsRank, citations);
      && r[FirstGenderField] == e.firstGender.gender
      && r[FirstGenderProbField] == e.firstGender.probability
      && r[FirstNationField] == e.firstNation.countryId
      && r[FirstNationProbField] == e.firstNation.probability
      && r[LastGenderField] == e.lastGender.gender
      && r[LastGenderProbField] == e.lastGender.probability
      && r[LastNationField] == e.lastNation.countryId
      && r[LastNationProbField] == e.lastNation.probability
  {
  }

  /** A processed entry is assembled from the hit, its enrichment and the raw item's link, rank and citations. */
  lemma ProcessSpecAssembles(sv: Services, item: RawItem, i: nat)
    ensures ProcessSpec(sv, item, i).Ok? ==> var hit := ReadHit(item).value;
      ProcessSpec(sv, item, i).value == MakeEntry(hit, Enrich(sv, hit).value,
        ScholarLink(item.fields["url_scholarbib"], i), item.fields["gsrank"], item.fields["num_citations"])
  {
  }

  /**
   * Where the bibliographic and Crossref columns of a processed entry come from: the hit's
   * bib fields, the Crossref enrichment, and the raw item's link, rank and citation count.
   */
  lemma EntryColumns(sv: Services, item: RawItem, i: nat)
    ensures ProcessSpec(sv, item, i).Ok? ==>
      var r, hit := ProcessSpec(sv, item, i).value, ReadHit(item).value; var e := Enrich(sv, hit).value;
      && r[FullAuthorsField] == e.fullnames
      && r[FirstAuthorField] == AuthorLabel(e.first.given, e.first.family)
      && r[LastAuthorField] == AuthorLabel(e.last.given, e.last.family)
      && r[PubYearField] == hit.pubYear
      && r[TitleField] == hit.title
      && r[ScholarLinkField] == ScholarLink(item.fields["url_scholarbib"], i)
      && r[PubUrlField] == hit.pubUrl
      && r[GsRankField] == item.fields["gsrank"]
      && r[NumCitationsField] == item.fields["num_citations"]
      && r[DoiField] == e.doi
  {
    if ProcessSpec(sv, item, i).Ok? {
      var hit := ReadHit(item).value;
      ProcessSpecAssembles(sv, item, i);
      MakeEntryColumns(hit, Enrich(sv, hit).value, ScholarLink(item.fields["url_scholarbib"], i),
        item.fields["gsrank"], item.fields["num_citations"]);
    }
  }

  /** The demographic columns of a processed entry are the guesses `Enrich` made for the first and the last author. */
  lemma EntryDemographyColumns(sv: Services, item: RawItem, i: nat)
    ensures ProcessSpec(sv, item, i).Ok? ==>
      var r, hit := ProcessSpec(sv, item, i).value, ReadHit(item).value; var e := Enrich(sv, hit).value;
      && r[FirstGenderField] == e.firstGender.gender
      && r[FirstGenderProbField] == e.firstGender.probability
      && r[FirstNationField] == e.firstNation.countryId
      && r[FirstNationProbField] == e.firstNation.probability
      && r[LastGenderField] == e.lastGender.gender
      && r[LastGenderProbField] == e.lastGender.probability
      && r[LastNationField] == e.lastNation.countryId
      && r[LastNationProbField] == e.lastNation.probability
  {
    if ProcessSpec(sv, item, i).Ok? {
      var hit := ReadHit(item).value;
      ProcessSpecAssembles(sv, item, i);
      MakeEntryDemographyColumns(hit, Enrich(sv, hit).value, ScholarLink(item.fields["url_scholarbib"], i),
        item.fields["gsrank"], item.fields["num_citations"]);
    }
  }

  /** A Crossref item none of whose authors has a given name makes the attempt fail. */
  lemma NoGivenNameFailsAttempt(sv: Services, item: RawItem, i: nat)
    requires ReadHit(item).Ok?
    requires var hit := ReadHit(item).value;
      && Petition(sv.works, hit.authors, hit.pubYear, hit.title).Ok?
      && forall k :: 0 <= k < |ReplyAuthors(sv, hit)| ==> !HasGiven(ReplyAuthors(sv, hit)[k])
    ensures ProcessSpec(sv, item, i).Err?
  {
    var authors := ReplyAuthors(sv, ReadHit(item).value);
    assert FirstGiven(authors) == |authors|;
  }

  /** Lines 172-176 for one author: `get_nation`, then `get_gender` with its result. */
  method DescribeAuthor(inf: Inference, a: Named) returns (nation: NationRecord, gender: GenderRecord)
    ensures (nation, gender) == Demography(inf, a)
  {
    var nationMap, nationQueries := GetNation(inf, a.given, a.family);
    var genderResult, genderQueries := GetGender(inf, a.given, a.family, nationMap);
    var author := AuthorLabel(a.given, a.family);
    assert genderResult.Ok?;
    nation := nationMap[author];
    gender := genderResult.value[author];
  }

  /** Lines 163-183: the Crossref call and the author scans, with the helpers called as the source calls them. */
  method EnrichEntry(sv: Services, hit: Hit) returns (r: Result<Enrichment>)
    ensures r == Enrich(sv, hit)
  {
    var reply :- Petition(sv.works, hit.authors, hit.pubYear, hit.title);
    var doi := GetDoi(reply.doi);
    var fullnames :- GetFullnameAuthors(reply.authors);
    // Every author with a given name now has a family name, so neither scan raises.
    var firstFound := FirstAuthor(reply.authors);
    var first :- Unpack(firstFound.value);
    var firstNation, firstGender := DescribeAuthor(sv.inference, first);
    var lastFound := LastAuthor(reply.authors);
    var last := lastFound.value.value;
    var lastNation, lastGender := DescribeAuthor(sv.inference, last);
    r := Ok(Enrichment(doi, fullnames, first, last, firstNation, firstGender, lastNation, lastGender));
  }

  /** The `try` block of `get_entries` for one hit. */
  method ProcessEntry(sv: Services, entrydict: RawItem, i: nat) returns (r: Result<Entry>)
    ensures r == ProcessSpec(sv, entrydict, i)
  {
    var authors :- Lookup(entrydict.bib, "author");
    var authorsIds :- Lookup(entrydict.fields, "author_id");
    var pubYear :- Lookup(entrydict.bib, "pub_year");
    var title :- Lookup(entrydict.bib, "title");
    var pubUrl := if "pub_url" in entrydict.fields then entrydict.fields["pub_url"] else "";
    var hit := Hit(CleanList(authors), CleanList(authorsIds), pubYear, title, pubUrl);
    var e :- EnrichEntry(sv, hit);
    var scholarBib :- Lookup(entrydict.fields, "url_scholarbib");
    var gsRank :- Lookup(entrydict.fields, "gsrank");
    var citations :- Lookup(entrydict.fields, "num_citations");
    r := Ok(MakeEntry(hit, e, ScholarLink(scholarBib, i), gsRank, citations));
  }

  /**
   * The `try` block of `get_entries` as a value: what a hit gives when it is processed
   * for an index. `ProcessSpec` is the one `get_entries` runs; the retry loop is stated
   * for any of them.
   */
  type Processing = (RawItem, nat) -> Result<Entry>

  /** The processing `get_entries` runs with the services `sv`. */
  function Process(sv: Services): Processing {
    (item: RawItem, i: nat) => ProcessSpec(sv, item, i)
  }

  /** The entries `process` builds carry exactly the keys of `get_entries` (every column but AUTHOR_ID). */
  ghost predicate BuildsEntries(process: Processing) {
    forall item, i :: process(item, i).Ok? ==> process(item, i).value.Keys == EntryKeys
  }

  lemma ProcessBuildsEntries(sv: Services)
    ensures BuildsEntries(Process(sv))
  {
  }

  /** How one index ends: its entry, whether an attempt succeeded, the stream position after it, and its failed attempts. */
  datatype Fetch = Fetch(entry: Entry, found: bool, pos: nat, failures: nat)

  function Min(a: int, b: int): int {
    if a <= b then a else b
  }

  /** The first stream position in `lo` to `hi - 1` whose hit processes for index `i`, or `hi` when none does. */
  function FirstOk(process: Processing, stream: seq<RawItem>, i: nat, lo: nat, hi: nat): (k: nat)
    requires lo <= hi <= |stream|
    ensures lo <= k <= hi
    ensures k < hi ==> process(stream[k], i).Ok?
    ensures lo < hi && process(stream[lo], i).Ok? ==> k == lo
  {
    if lo == hi then hi
    else
      var k := FirstOk(process, stream, i, lo, hi - 1);
      if k < hi - 1 || process(stream[hi - 1], i).Ok? then k else hi
  }

  /** No hit before the one `FirstOk` finds processes. */
  lemma {:induction false} BeforeFirstOkAllFail(process: Processing, stream: seq<RawItem>, i: nat, lo: nat, hi: nat)
    requires lo <= hi <= |stream|
    ensures forall q :: lo <= q < FirstOk(process, stream, i, lo, hi) ==> process(stream[q], i).Err?
  {
    if lo < hi {
      BeforeFirstOkAllFail(process, stream, i, lo, hi - 1);
    }
  }

  /**
   * How index `i` ends after `a` attempts from stream position `start`: the first of the
   * next `a` hits (fewer when the stream ends) that processes, after one failed attempt
   * per hit before it; or, when none does, the empty entry after `a` failed attempts, the
   * attempts past the end of the stream consuming nothing.
   */
  function FetchWithin(process: Processing, stream: seq<RawItem>, i: nat, start: nat, a: nat): (f: Fetch)
    requires start <= |stream|
    ensures start <= f.pos <= |stream| && f.pos - start <= a
    ensures f.found ==> f.failures < a && f.pos - start == f.failures + 1 && process(stream[f.pos - 1], i) == Ok(f.entry)
    ensures !f.found ==> f.entry == map[] && f.failures == a && f.pos == start + Min(a, |stream| - start)
  {
    var hi := start + Min(a, |stream| - start);
    var k := FirstOk(process, stream, i, start, hi);
    if k < hi then Fetch(process(stream[k], i).value, true, k + 1, k - start) else Fetch(map[], false, hi, a)
  }

  /** Every hit an index consumed before the one it kept failed to process. */
  lemma SkippedHitsFailed(process: Processing, stream: seq<RawItem>, i: nat, start: nat, a: nat)
    requires start <= |stream|
    ensures var f := FetchWithin(process, stream, i, start, a);
      forall q :: start <= q < f.pos - (if f.found then 1 else 0) ==> process(stream[q], i).Err?
  {
    BeforeFirstOkAllFail(process, stream, i, start, start + Min(a, |stream| - start));
  }

  /** More attempts change nothing once an attempt has succeeded. */
  lemma SuccessEndsTheIndex(process: Processing, stream: seq<RawItem>, i: nat, start: nat, a: nat, b: nat)
    requires start <= |stream| && a <= b
    requires FetchWithin(process, stream, i, start, a).found
    ensures FetchWithin(process, stream, i, start, b) == FetchWithin(process, stream, i, start, a)
  {
    var k := FetchWithin(process, stream, i, start, a).pos - 1;
    BeforeFirstOkAllFail(process, stream, i, start, start + Min(a, |stream| - start));
    BeforeFirstOkAllFail(process, stream, i, start, start + Min(b, |stream| - start));
    assert FirstOk(process, stream, i, start, start + Min(b, |stream| - start)) == k;
  }

  /** How index `i` ends after all its attempts from stream position `start`. */
  function FetchIndex(process: Processing, stream: seq<RawItem>, i: nat, start: nat): (f: Fetch)
    requires start <= |stream|
    ensures start <= f.pos <= |stream|
    ensures f.found ==> start < f.pos && process(stream[f.pos - 1], i) == Ok(f.entry)
    ensures !f.found ==> f.entry == map[]
  {
    FetchWithin(process, stream, i, start, NumAttempts)
  }

  /** At the end of the stream an index fails all its attempts; a first hit that processes is kept at once. */
  lemma FetchIndexShortcuts(process: Processing, stream: seq<RawItem>, i: nat, start: nat)
    requires start <= |stream|
    ensures start == |stream| ==> FetchIndex(process, stream, i, start) == Fetch(map[], false, start, NumAttempts)
    ensures start < |stream| && process(stream[start], i).Ok? ==>
      FetchIndex(process, stream, i, start) == Fetch(process(stream[start], i).value, true, start + 1, 0)
  {
  }

  /**
   * An index consumes at most `NumAttempts` hits, and at least one while the stream lasts;
   * it ends without an entry exactly when all `NumAttempts` attempts failed.
   */
  lemma FetchIndexBounds(process: Processing, stream: seq<RawItem>, i: nat, start: nat)
    requires start <= |stream|
    ensures var f := FetchIndex(process, stream, i, start);
      && f.pos - start <= NumAttempts
      && (start < |stream| ==> start < f.pos)
      && (!f.found <==> f.failures == NumAttempts)
  {
  }

  /**
   * The attempts of the inner loop of `get_entries`, one at a time: each takes the next
   * hit (or meets `StopIteration` at the end of the stream, consuming nothing) and fails
   * when processing raises; the first success ends the index.
   */
  function Attempts(process: Processing, stream: seq<RawItem>, i: nat, start: nat, a: nat): (f: Fetch)
    requires start <= |stream|
    ensures start <= f.pos <= |stream|
  {
    if a == 0 then Fetch(map[], false, start, 0)
    else
      var prev := Attempts(process, stream, i, start, a - 1);
      if prev.found then prev
      else if prev.pos == |stream| then prev.(failures := prev.failures + 1)
      else if process(stream[prev.pos], i).Ok? then Fetch(process(stream[prev.pos], i).value, true, prev.pos + 1, prev.failures)
      else prev.(pos := prev.pos + 1, failures := prev.failures + 1)
  }

  /** Taking the attempts one at a time ends where the first processing hit of the window says. */
  lemma {:induction false} AttemptsAreFetchWithin(process: Processing, stream: seq<RawItem>, i: nat, start: nat, a: nat)
    requires start <= |stream|
    ensures Attempts(process, stream, i, start, a) == FetchWithin(process, stream, i, start, a)
  {
    if a > 0 {
      AttemptsAreFetchWithin(process, stream, i, start, a - 1);
      var prev := FetchWithin(process, stream, i, start, a - 1);
      if prev.found {
        SuccessEndsTheIndex(process, stream, i, start, a - 1, a);
      } else if prev.pos < |stream| {
        var hi := start + Min(a, |stream| - start);
        assert hi == prev.pos + 1;
        assert FirstOk(process, stream, i, start, hi - 1) == hi - 1;
      }
    }
  }

  /** The entry list, stream position and failed attempts after indices 0 to n - 1. */
  datatype Fill = Fill(entries: seq<Entry>, pos: nat, failures: nat)

  function FillAll(process: Processing, stream: seq<RawItem>, n: nat): (f: Fill)
    ensures |f.entries| == n
    ensures f.pos <= |stream|
  {
    if n == 0 then Fill([], 0, 0)
    else
      var prev := FillAll(process, stream, n - 1);
      var one := FetchIndex(process, stream, n - 1, prev.pos);
      Fill(prev.entries + [one.entry], one.pos, prev.failures + one.failures)
  }

  /**
   * The inner loop of `get_entries` for index `i`: up to `NumAttempts` attempts from
   * stream position `start`, stopping at the first hit that processes; every failed
   * attempt is followed by one recovery step.
   */
  method FetchEntry(process: Processing, stream: seq<RawItem>, start: nat, i: nat)
    returns (entry: Entry, found: bool, consumed: nat, recoveries: nat)
    requires start <= |stream|
    ensures Fetch(entry, found, consumed, recoveries) == FetchIndex(process, stream, i, start)
  {
    entry, found, consumed, recoveries := map[], false, start, 0;
    for attempt := 0 to NumAttempts
      invariant Attempts(process, stream, i, start, attempt) == Fetch(map[], false, consumed, recoveries)
    {
      var outcome: Result<Entry>;
      if consumed < |stream| {
        var entrydict := stream[consumed];
        consumed := consumed + 1;
        outcome := process(entrydict, i);
      } else {
        outcome := Err(StopIteration);
      }
      if outcome.Ok? {
        entry, found := outcome.value, true;
        AttemptsAreFetchWithin(process, stream, i, start, attempt + 1);
        SuccessEndsTheIndex(process, stream, i, start, attempt + 1, NumAttempts);
        return;
      }
      recoveries := recoveries + 1;
    }
    AttemptsAreFetchWithin(process, stream, i, start, NumAttempts);
  }

  /**
   * `get_entries`: preallocates `numentries` empty entries and fills index after index,
   * each with up to `NumAttempts` attempts; an index whose attempts all fail keeps its
   * empty entry.
   */
  method GetEntries(process: Processing, searchQuery: Session, numentries: nat)
    returns (entries: array<Entry>, consumed: nat, recoveries: nat)
    ensures entries.Length == numentries
    ensures var f := FillAll(process, searchQuery.stream, numentries);
      entries[..] == f.entries && consumed == f.pos && recoveries == f.failures
  {
    var stream := searchQuery.stream;
    entries := new Entry[numentries](_ => map[]);
    consumed, recoveries := 0, 0;
    for i := 0 to numentries
      invariant var f := FillAll(process, stream, i);
        entries[..i] == f.entries && consumed == f.pos && recoveries == f.failures
      invariant forall k :: i <= k < numentries ==> entries[k] == map[]
    {
      ghost var before := entries[..i];
      var entry, found, next, failures := FetchEntry(process, stream, consumed, i);
      if found {
        entries[i] := entry;
      }
      assert entries[i] == entry;
      consumed, recoveries := next, recoveries + failures;
      assert entries[..i + 1] == before + [entry];
    }
    assert entries[..] == entries[..numentries];
  }

  /** The entries of hits 0 to n - 1, hit k processed for index k, when every one of them processes. */
  function Processed(process: Processing, stream: seq<RawItem>, n: nat): (r: seq<Entry>)
    requires n <= |stream|
    requires forall k :: 0 <= k < n ==> process(stream[k], k).Ok?
    ensures |r| == n
    ensures forall k :: 0 <= k < n ==> r[k] == process(stream[k], k).value
  {
    if n == 0 then [] else Processed(process, stream, n - 1) + [process(stream[n - 1], n - 1).value]
  }

  /**
   * When hit k processes for index k, for every k below n, index k gets hit k at the first
   * attempt: no hit is skipped and no recovery step runs.
   */
  lemma {:induction false} FillAllWhenEveryHitProcesses(process: Processing, stream: seq<RawItem>, n: nat)
    requires n <= |stream|
    requires forall k :: 0 <= k < n ==> process(stream[k], k).Ok?
    ensures FillAll(process, stream, n) == Fill(Processed(process, stream, n), n, 0)
  {
    if n > 0 {
      FillAllWhenEveryHitProcesses(process, stream, n - 1);
      var hit := process(stream[n - 1], n - 1);
      assert hit.Ok?;
      FetchIndexShortcuts(process, stream, n - 1, n - 1);
      assert FetchIndex(process, stream, n - 1, n - 1) == Fetch(hit.value, true, n, 0);
    }
  }

  /** `n` empty entries. */
  function Blank(n: nat): (r: seq<Entry>)
    ensures |r| == n && forall k :: 0 <= k < n ==> r[k] == map[]
  {
    seq(n, _ => map[])
  }

  /** An index that starts at the end of the stream keeps its empty entry after `NumAttempts` failed attempts. */
  lemma IndexAtEndOfStream(process: Processing, stream: seq<RawItem>, n: nat)
    requires 0 < n && FillAll(process, stream, n - 1).pos == |stream|
    ensures var prev := FillAll(process, stream, n - 1);
      FillAll(process, stream, n) == Fill(prev.entries + [map[]], |stream|, prev.failures + NumAttempts)
  {
    FetchIndexShortcuts(process, stream, n - 1, |stream|);
  }

  /** One more blank index on top of `j` of them. */
  lemma BlankStep(before: Fill, mid: Fill, after: Fill, j: nat)
    requires mid.entries == before.entries + Blank(j) && mid.failures == before.failures + NumAttempts * j
    requires after.entries == mid.entries + [map[]] && after.failures == mid.failures + NumAttempts
    ensures after.entries == before.entries + Blank(j + 1) && after.failures == before.failures + NumAttempts * (j + 1)
  {
    assert Blank(j + 1) == Blank(j) + [map[]];
  }

  /** Once the stream is exhausted, every later index keeps its empty entry after `NumAttempts` failed attempts. */
  lemma {:induction false} ExhaustedStreamLeavesEntriesEmpty(process: Processing, stream: seq<RawItem>, m: nat, n: nat)
    requires m <= n && FillAll(process, stream, m).pos == |stream|
    ensures var before, after := FillAll(process, stream, m), FillAll(process, stream, n);
      && after.pos == |stream|
      && after.entries == before.entries + Blank(n - m)
      && after.failures == before.failures + NumAttempts * (n - m)
    decreases n
  {
    if m < n {
      ExhaustedStreamLeavesEntriesEmpty(process, stream, m, n - 1);
      IndexAtEndOfStream(process, stream, n);
      BlankStep(FillAll(process, stream, m), FillAll(process, stream, n - 1), FillAll(process, stream, n), n - 1 - m);
      assert n - 1 - m + 1 == n - m;
    }
  }

  // ---------------------------------------------------------------- write

  /** The name stem: the ASCII letters of the lower-cased query, at most 15 of them. */
  function Slug(query: string): (r: string)
    ensures |r| <= 15
    ensures r <= KeepLetters(Lower(query))
    ensures |KeepLetters(Lower(query))| >= 15 ==> |r| == 15
    ensures |KeepLetters(Lower(query))| < 15 ==> r == KeepLetters(Lower(query))
    ensures forall k :: 0 <= k < |r| ==> 'a' <= r[k] <= 'z'
  {
    var letters := KeepLetters(Lower(query));
    assert forall k :: 0 <= k < |letters| ==> !IsUpper(letters[k]) by {
      KeepLettersLower(query);
      assert letters == Lower(KeepLetters(query));
    }
    Take(letters, 15)
  }

  /** The file name depends on the query only through its letters, whatever their case. */
  lemma {:induction false} SlugDependsOnLettersOnly(query: string)
    ensures Slug(Lower(query)) == Slug(query)
    ensures Slug(KeepLetters(query)) == Slug(query)
  {
    LowerIdempotent(query);
    KeepLettersLower(query);
    KeepLettersLower(KeepLetters(query));
    KeepLettersIdempotent(query);
  }

  /** `date + '_' + stem + '.csv'`: the timestamp, an underscore, the stem and the extension. */
  function FileName(date: string, query: string): (r: string)
    ensures |r| == |date| + |Slug(query)| + 5 && |r| <= |date| + 20
    ensures date + "_" <= r && r[|date| + 1..|r| - 4] == Slug(query) && r[|r| - 4..] == ".csv"
  {
    date + "_" + Slug(query) + ".csv"
  }

  /** `csv.DictWriter.writerow` accepts an entry whose keys are all columns. */
  predicate Writable(e: Entry) {
    forall key :: key in e ==> key in FieldNames
  }

  /** The row written for an entry: its value in each column, '' where the key is missing. */
  function RowOf(e: Entry): (row: seq<string>)
    ensures |row| == |FieldNames|
    ensures forall k :: 0 <= k < |row| ==> row[k] == if FieldNames[k] in e then e[FieldNames[k]] else ""
  {
    seq(|FieldNames|, k requires 0 <= k < |FieldNames| => if FieldNames[k] in e then e[FieldNames[k]] else "")
  }

  /** An entry as `get_entries` leaves it: the empty dictionary, or one with exactly the entry keys. */
  predicate EntryShaped(e: Entry) {
    e == map[] || e.Keys == EntryKeys
  }

  /** Entries built by `get_entries` are always writable, and their AUTHOR_ID column is always empty. */
  lemma EntriesFitTheHeader(e: Entry)
    requires EntryShaped(e)
    ensures Writable(e)
    ensures RowOf(e)[3] == ""
  {
    assert FieldNames[3] == AuthorIdField;
    assert AuthorIdField !in EntryKeys;
  }

  /** Each entry of the list `get_entries` returns is either still empty or carries exactly the entry keys. */
  lemma {:induction false} FilledEntriesHaveEntryKeys(process: Processing, stream: seq<RawItem>, n: nat)
    requires BuildsEntries(process)
    ensures forall k :: 0 <= k < n ==> EntryShaped(FillAll(process, stream, n).entries[k])
  {
    if n > 0 {
      FilledEntriesHaveEntryKeys(process, stream, n - 1);
      var prev := FillAll(process, stream, n - 1);
      var one := FetchIndex(process, stream, n - 1, prev.pos);
      assert FillAll(process, stream, n).entries == prev.entries + [one.entry];
    }
  }

  /** Every entry list `get_entries` returns is written in full, with an empty AUTHOR_ID column. */
  lemma FilledEntriesAreWritable(process: Processing, stream: seq<RawItem>, n: nat)
    requires BuildsEntries(process)
    ensures forall k :: 0 <= k < n ==> Writable(FillAll(process, stream, n).entries[k])
    ensures forall k :: 0 <= k < n ==> RowOf(FillAll(process, stream, n).entries[k])[3] == ""
  {
    FilledEntriesHaveEntryKeys(process, stream, n);
    var entries := FillAll(process, stream, n).entries;
    forall k | 0 <= k < n
      ensures Writable(entries[k]) && RowOf(entries[k])[3] == ""
    {
      EntriesFitTheHeader(entries[k]);
    }
  }

  /** The file `write` produces: its name, the rows in order, and the exception that stopped it, if any. */
  datatype CsvFile = CsvFile(name: string, rows: seq<seq<string>>, failure: Option<PyError>)

  /**
   * `write`: one header row, then one row per index below `numentries` in the fixed
   * column order; indexing past the list raises `IndexError` and an entry with a key that
   * is not a column raises `ValueError`, leaving the rows written so far.
   */
  method Write(date: string, query: string, entries: seq<Entry>, numentries: nat) returns (file: CsvFile)
    ensures file.name == FileName(date, query)
    ensures 1 <= |file.rows| && file.rows[0] == FieldNames
    ensures var n := |file.rows| - 1;
      && n <= numentries && n <= |entries|
      && (forall k :: 0 <= k < n ==> Writable(entries[k]) && file.rows[k + 1] == RowOf(entries[k]))
      && (file.failure.None? <==> n == numentries)
      && (n < numentries && n == |entries| ==> file.failure == Some(IndexError))
      && (n < numentries && n < |entries| ==> !Writable(entries[n]) && file.failure == Some(ValueError))
  {
    var outfile := date + "_" + Slug(query) + ".csv";
    file := CsvFile(outfile, [FieldNames], None);
    for i := 0 to numentries
      invariant file.name == outfile && |file.rows| == i + 1 && file.rows[0] == FieldNames
      invariant file.failure == None && i <= |entries|
      invariant forall k :: 0 <= k < i ==> Writable(entries[k]) && file.rows[k + 1] == RowOf(entries[k])
    {
      if i == |entries| {
        return file.(failure := Some(IndexError));
      }
      if !Writable(entries[i]) {
        return file.(failure := Some(ValueError));
      }
      file := file.(rows := file.rows + [RowOf(entries[i])]);
    }
  }
}

/**
 * The Crossref side of an entry (`_crossref.py`): the free-text query sent to the
 * registry, the defaults applied to its answer, the DOI link, the joined full names,
 * and the scans for the first and the last author that carries a given name.
 *
 * The registry itself is an oracle: `works(q)` is the first item Crossref returns for
 * the query text `q`, or `None` when the call fails in any way (transport error,
 * malformed answer, an empty item list).
 */
module Crossref {
  import opened Outcomes
  import opened Text

  /** One author record of a Crossref item; either key may be absent. */
  datatype Author = Author(given: Option<string>, family: Option<string>)

  /** The first Crossref item for a query, with its optional `DOI` and `author` keys. */
  datatype Work = Work(doi: Option<string>, authors: Option<seq<Author>>)

  /** What `petition` returns: the DOI ('' when absent) and the author list. */
  datatype Reply = Reply(doi: string, authors: seq<Author>)

  /** A (given, family) pair, as returned by `get_fist_author` / `get_last_author`. */
  datatype Named = Named(given: string, family: string)

  const DoiResolver := "https://doi.org/"

  /** The author list `petition` substitutes when Crossref returns none. */
  const PlaceholderAuthors := [Author(Some("NA"), Some("NA"))]

  predicate HasGiven(a: Author) {
    a.given.Some?
  }

  /** Every author that has a given name also has a family name (no `KeyError: 'family'`). */
  predicate AllNamed(authors: seq<Author>) {
    forall k :: 0 <= k < |authors| && HasGiven(authors[k]) ==> authors[k].family.Some?
  }

  /** The author part of the query: `;` turned into `,`, `"` dropped, lower-cased. */
  function QueryAuthors(authors: string): (r: string)
    ensures ';' !in r && '"' !in r
    ensures forall k :: 0 <= k < |r| ==> !IsUpper(r[k])
  {
    var q := Lower(RemoveChars(ReplaceChar(authors, ';', ','), {'"'}));
    assert forall k :: 0 <= k < |q| ==> q[k] != ';' by {
      RemoveCharsKeepsOut(ReplaceChar(authors, ';', ','), {'"'}, ';');
    }
    q
  }

  /** The image of one character of the author list in the query. */
  function QueryChar(c: char): string {
    if c == '"' then [] else if c == ';' then [','] else [LowerChar(c)]
  }

  /** The author part of the query is built character by character, keeping the order. */
  lemma {:induction false} QueryAuthorsByCharacter(a: string, b: string, c: char)
    ensures QueryAuthors(a + b) == QueryAuthors(a) + QueryAuthors(b)
    ensures QueryAuthors([c]) == QueryChar(c)
  {
    var ra, rb := ReplaceChar(a, ';', ','), ReplaceChar(b, ';', ',');
    assert ReplaceChar(a + b, ';', ',') == ra + rb;
    RemoveCharsAppend(ra, rb, {'"'});
    var da, db := RemoveChars(ra, {'"'}), RemoveChars(rb, {'"'});
    assert Lower(da + db) == Lower(da) + Lower(db);
    var rc := ReplaceChar([c], ';', ',');
    assert rc == [if c == ';' then ',' else c];
    assert rc[1..] == [];
    assert RemoveChars(rc, {'"'}) == if c == '"' then [] else rc;
  }

  /**
   * The query text of `petition`: the cleaned author list, a space, the year, a space,
   * and the lower-cased title between double quotes.
   */
  function QueryText(authors: string, year: string, title: string): (r: string)
    ensures |r| == |QueryAuthors(authors)| + |year| + |title| + 4
    ensures QueryAuthors(authors) + " " <= r
    ensures r[|QueryAuthors(authors)| + 1..|QueryAuthors(authors)| + 1 + |year|] == year
    ensures r[|QueryAuthors(authors)| + 1 + |year|] == ' '
    ensures r[|r| - |title| - 2..] == "\"" + Lower(title) + "\""
  {
    QueryAuthors(authors) + " " + year + " \"" + Lower(title) + "\""
  }

  /**
   * `petition`: one Crossref call; a missing DOI becomes '', a missing author list
   * becomes the placeholder author NA NA, and any failure is re-raised.
   */
  function Petition(works: string -> Option<Work>, authors: string, year: string, title: string): (r: Result<Reply>)
    ensures r.Err? <==> works(QueryText(authors, year, title)).None?
    ensures r.Err? ==> r.error == ServiceError
    ensures r.Ok? ==> var w := works(QueryText(authors, year, title)).value;
      && (w.doi.Some? ==> r.value.doi == w.doi.value)
      && (w.doi.None? ==> r.value.doi == "")
      && (w.authors.Some? ==> r.value.authors == w.authors.value)
      && (w.authors.None? ==> r.value.authors == PlaceholderAuthors)
  {
    match works(QueryText(authors, year, title))
    case None => Err(ServiceError)
    case Some(w) =>
      Ok(Reply(
        if w.doi.Some? then w.doi.value else "",
        if w.authors.Some? then w.authors.value else PlaceholderAuthors))
  }

  /** `get_doi`: '' for an empty DOI, otherwise the DOI resolver link. */
  function GetDoi(doi: string): (r: string)
    ensures r == "" <==> doi == ""
    ensures doi != "" ==> DoiResolver <= r && r[|DoiResolver|..] == doi
  {
    if doi == "" then "" else DoiResolver + doi
  }

  /** `f"{author['given']} {author['family']}"`. */
  function DisplayName(a: Author): (r: string)
    requires HasGiven(a) && a.family.Some?
    ensures |r| == |a.given.value| + 1 + |a.family.value|
    ensures a.given.value <= r && r[|a.given.value|] == ' ' && r[|a.given.value| + 1..] == a.family.value
  {
    a.given.value + " " + a.family.value
  }

  /** The authors that carry a given name, in input order. */
  function GivenOnly(authors: seq<Author>): (r: seq<Author>)
    ensures |r| <= |authors|
    ensures forall k :: 0 <= k < |r| ==> HasGiven(r[k]) && r[k] in authors
    ensures forall k :: 0 <= k < |authors| && HasGiven(authors[k]) ==> authors[k] in r
  {
    if authors == [] then []
    else
      var last := authors[|authors| - 1];
      GivenOnly(authors[..|authors| - 1]) + if HasGiven(last) then [last] else []
  }

  /** Keeping the authors with a given name works piecewise, so their input order is kept. */
  lemma {:induction false} GivenOnlyAppend(a: seq<Author>, b: seq<Author>)
    ensures GivenOnly(a + b) == GivenOnly(a) + GivenOnly(b)
    decreases |b|
  {
    if b == [] {
      assert a + b == a;
    } else {
      var ab := a + b;
      assert ab[..|ab| - 1] == a + b[..|b| - 1];
      assert ab[|ab| - 1] == b[|b| - 1];
      GivenOnlyAppend(a, b[..|b| - 1]);
    }
  }

  /** The "given family" texts of the authors that carry a given name, in input order. */
  function NameList(authors: seq<Author>): (r: seq<string>)
    requires AllNamed(authors)
    ensures |r| == |GivenOnly(authors)|
    ensures forall k :: 0 <= k < |r| ==> GivenOnly(authors)[k].family.Some? && r[k] == DisplayName(GivenOnly(authors)[k])
  {
    if authors == [] then []
    else
      var last := authors[|authors| - 1];
      NameList(authors[..|authors| - 1]) + if HasGiven(last) then [DisplayName(last)] else []
  }

  /**
   * What `get_fullname_authors` computes: the display names joined by ", ",
   * or `KeyError('family')` for an author with a given name and no family name.
   */
  function FullNamesText(authors: seq<Author>): (r: Result<string>)
    ensures r.Ok? <==> AllNamed(authors)
    ensures r.Err? ==> r.error == KeyError("family")
    ensures authors == [] ==> r == Ok("")
  {
    if AllNamed(authors) then Ok(Join(NameList(authors), ", ")) else Err(KeyError("family"))
  }

  /** `get_fullname_authors`: a loop that appends "given family" for each author with a given name. */
  method GetFullnameAuthors(authors: seq<Author>) returns (r: Result<string>)
    ensures r.Ok? <==> AllNamed(authors)
    ensures r.Ok? ==> r.value == Join(NameList(authors), ", ")
    ensures r.Err? ==> r.error == KeyError("family")
  {
    var fullnames: seq<string> := [];
    var i := 0;
    while i < |authors|
      invariant 0 <= i <= |authors|
      invariant AllNamed(authors[..i])
      invariant fullnames == NameList(authors[..i])
    {
      var author := authors[i];
      assert authors[..i + 1][..i] == authors[..i];
      if author.given.Some? {
        if author.family.None? {
          return Err(KeyError("family"));
        }
        fullnames := fullnames + [author.given.value + " " + author.family.value];
      }
      i := i + 1;
    }
    assert authors[..i] == authors;
    r := Ok(Join(fullnames, ", "));
  }

  /** The position of the first author with a given name, or |authors| when there is none. */
  function FirstGiven(authors: seq<Author>): (k: nat)
    ensures k <= |authors|
    ensures forall j :: 0 <= j < k ==> !HasGiven(authors[j])
    ensures k < |authors| ==> HasGiven(authors[k])
  {
    if authors == [] || HasGiven(authors[0]) then 0 else 1 + FirstGiven(authors[1..])
  }

  /** One past the position of the last author with a given name, or 0 when there is none. */
  function LastGiven(authors: seq<Author>): (k: nat)
    ensures k <= |authors|
    ensures forall j :: k <= j < |authors| ==> !HasGiven(authors[j])
    ensures k > 0 ==> HasGiven(authors[k - 1])
  {
    if authors == [] || HasGiven(authors[|authors| - 1]) then |authors|
    else LastGiven(authors[..|authors| - 1])
  }

  /** Reading `author['given'], author['family']`: a missing family name raises `KeyError`. */
  function Pick(a: Author): (r: Result<Option<Named>>)
    requires HasGiven(a)
    ensures r != Ok(None)
    ensures r.Err? <==> a.family.None?
    ensures r.Err? ==> r.error == KeyError("family")
    ensures r.Ok? ==> r.value == Some(Named(a.given.value, a.family.value))
  {
    if a.family.Some? then Ok(Some(Named(a.given.value, a.family.value))) else Err(KeyError("family"))
  }

  /** `get_fist_author`: scans forward and returns the first author with a given name; `None` if none. */
  function FirstAuthor(authors: seq<Author>): (r: Result<Option<Named>>)
    ensures var k := FirstGiven(authors);
      r == if k == |authors| then Ok(None) else Pick(authors[k])
  {
    if authors == [] then Ok(None)
    else if HasGiven(authors[0]) then Pick(authors[0])
    else FirstAuthor(authors[1..])
  }

  /** `get_last_author`: scans `reversed(authors)` and returns the last author with a given name. */
  function LastAuthor(authors: seq<Author>): (r: Result<Option<Named>>)
    ensures var k := LastGiven(authors);
      r == if k == 0 then Ok(None) else Pick(authors[k - 1])
  {
    if authors == [] then Ok(None)
    else if HasGiven(authors[|authors| - 1]) then Pick(authors[|authors| - 1])
    else LastAuthor(authors[..|authors| - 1])
  }

  /** Both scans return `None` exactly when no author has a given name. */
  lemma ScansFindNothingIffNoGiven(authors: seq<Author>)
    ensures FirstAuthor(authors) == Ok(None) <==> forall k :: 0 <= k < |authors| ==> !HasGiven(authors[k])
    ensures LastAuthor(authors) == Ok(None) <==> forall k :: 0 <= k < |authors| ==> !HasGiven(authors[k])
  {
  }

  function Reverse<T>(s: seq<T>): (r: seq<T>)
    ensures |r| == |s|
    ensures forall k :: 0 <= k < |s| ==> r[k] == s[|s| - 1 - k]
  {
    if s == [] then [] else [s[|s| - 1]] + Reverse(s[..|s| - 1])
  }

  /** The last author is the first author of the reversed list, as the source computes it. */
  lemma {:induction false} LastAuthorIsFirstOfReversed(authors: seq<Author>)
    ensures LastAuthor(authors) == FirstAuthor(Reverse(authors))
  {
    if authors != [] {
      var rev := Reverse(authors);
      assert rev[0] == authors[|authors| - 1];
      assert rev[1..] == Reverse(authors[..|authors| - 1]);
      LastAuthorIsFirstOfReversed(authors[..|authors| - 1]);
    }
  }

  predicate ExactlyOneGiven(authors: seq<Author>) {
    exists k :: 0 <= k < |authors| && HasGiven(authors[k]) &&
      forall j :: 0 <= j < |authors| && j != k ==> !HasGiven(authors[j])
  }

  /** The forward scan stops at the first author with a given name. */
  lemma FirstAuthorAt(authors: seq<Author>, k: nat)
    requires k < |authors| && HasGiven(authors[k])
    requires forall j :: 0 <= j < k ==> !HasGiven(authors[j])
    ensures FirstAuthor(authors) == Pick(authors[k])
  {
    var f := FirstGiven(authors);
    assert !(k < f);
    assert HasGiven(authors[f]) && !(f < k);
  }

  /** The backward scan stops at the last author with a given name. */
  lemma LastAuthorAt(authors: seq<Author>, k: nat)
    requires k < |authors| && HasGiven(authors[k])
    requires forall j :: k < j < |authors| ==> !HasGiven(authors[j])
    ensures LastAuthor(authors) == Pick(authors[k])
  {
    var l := LastGiven(authors);
    assert !(l <= k);
    assert HasGiven(authors[l - 1]) && !(k + 1 < l);
  }

  /** With exactly one author carrying a given name, the first and the last author coincide. */
  lemma OneGivenFirstIsLast(authors: seq<Author>)
    requires ExactlyOneGiven(authors)
    ensures FirstAuthor(authors) == LastAuthor(authors) != Ok(None)
  {
    var k :| 0 <= k < |authors| && HasGiven(authors[k]) &&
      forall j :: 0 <= j < |authors| && j != k ==> !HasGiven(authors[j]);
    FirstAuthorAt(authors, k);
    LastAuthorAt(authors, k);
  }

  /** When Crossref sends no author list, the placeholder makes both scans return (NA, NA). */
  lemma PlaceholderIsFirstAndLast()
    ensures FirstAuthor(PlaceholderAuthors) == LastAuthor(PlaceholderAuthors) == Ok(Some(Named("NA", "NA")))
  {
  }
}

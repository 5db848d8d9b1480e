/**
 * Gender and nation prediction for one author (`_demografix.py`).
 *
 * The Nationalize and Genderize services are oracles: `nationalize(n)` is the
 * `country` list returned for the name `n` (most likely country first), and
 * `genderize(n, c)` the gender guess for the name `n` with country hint `c`.
 * Probabilities are kept as the text that ends up in the CSV file.
 */
module Demografix {
  import opened Outcomes
  import opened Text

  /** U+2010 HYPHEN, which the source treats as an ASCII '-'. */
  const UnicodeHyphen: char := '‐'

  datatype CountryGuess = CountryGuess(countryId: string, probability: string)
  datatype GenderGuess = GenderGuess(gender: string, probability: string)

  /** The two inference services. */
  datatype Inference = Inference(
    nationalize: string -> seq<CountryGuess>,
    genderize: (string, string) -> GenderGuess)

  /** The inner `{'country_id', 'probability'}` dictionary of `get_nation`. */
  datatype NationRecord = NationRecord(countryId: string, probability: string)

  /** The inner `{'gender', 'probability'}` dictionary of `get_gender`. */
  datatype GenderRecord = GenderRecord(gender: string, probability: string)

  /** `f"{author_name} {author_surname}"`, the key of both result dictionaries. */
  function AuthorLabel(name: string, surname: string): (r: string)
    ensures r == " " <==> name == "" && surname == ""
    ensures |r| == |name| + 1 + |surname|
    ensures name <= r && r[|name|] == ' ' && r[|name| + 1..] == surname
  {
    assert |name + " " + surname| == |name| + |surname| + 1;
    name + " " + surname
  }

  /** `s.replace("‐", "-").split("-")[0]` when `s` has a hyphen of either kind, else `s`. */
  function CutAtHyphen(s: string): (r: string)
    ensures r <= s
    ensures '-' !in r && UnicodeHyphen !in r
    ensures |r| < |s| ==> s[|r|] == '-' || s[|r|] == UnicodeHyphen
  {
    var dashed := ReplaceChar(s, UnicodeHyphen, '-');
    if '-' in dashed then
      var r := Before(dashed, '-');
      assert forall k :: 0 <= k < |r| ==> r[k] == dashed[k] && r[k] != '-' && s[k] == r[k];
      r
    else
      assert forall k :: 0 <= k < |s| ==> dashed[k] != '-' && s[k] != '-' && s[k] != UnicodeHyphen;
      s
  }

  /** `s.split(".")[0]` when `s` has a period, else `s`. */
  function CutAtPeriod(s: string): (r: string)
    ensures r <= s
    ensures '.' !in r
    ensures |r| < |s| ==> s[|r|] == '.'
  {
    if '.' in s then Before(s, '.') else s
  }

  /**
   * The given name as `get_gender` sends it: cut at the first hyphen, then at the first
   * period. The result is the longest prefix with neither.
   */
  function NormaliseGivenName(name: string): (r: string)
    ensures r <= name
    ensures '-' !in r && UnicodeHyphen !in r && '.' !in r
    ensures |r| < |name| ==> name[|r|] in {'-', UnicodeHyphen, '.'}
  {
    var cut := CutAtHyphen(name);
    var r := CutAtPeriod(cut);
    assert forall k :: 0 <= k < |r| ==> r[k] == cut[k];
    r
  }

  lemma NormaliseHyphenatedName()
    ensures NormaliseGivenName("Jean-Paul") == "Jean"
  {
    ReplaceCharAbsent("Jean-Paul", UnicodeHyphen, '-');
    BeforeAt("Jean-Paul", '-', 4);
    assert "Jean-Paul"[..4] == "Jean";
  }

  lemma NormaliseAbbreviatedName()
    ensures NormaliseGivenName("J. Paul") == "J"
  {
    ReplaceCharAbsent("J. Paul", UnicodeHyphen, '-');
    BeforeAt("J. Paul", '.', 1);
    assert "J. Paul"[..1] == "J";
  }

  lemma NormaliseBothRules()
    ensures NormaliseGivenName("J.-P.") == "J"
  {
    ReplaceCharAbsent("J.-P.", UnicodeHyphen, '-');
    BeforeAt("J.-P.", '-', 2);
    assert "J.-P."[..2] == "J.";
    BeforeAt("J.", '.', 1);
    assert "J."[..1] == "J";
  }

  lemma NormaliseUnicodeHyphen()
    ensures NormaliseGivenName("Ana‐Maria") == "Ana"
  {
    ReplaceCharOnce("Ana‐Maria", UnicodeHyphen, '-', 3);
    var dashed := ReplaceChar("Ana‐Maria", UnicodeHyphen, '-');
    assert dashed == "Ana-Maria";
    BeforeAt(dashed, '-', 3);
    assert dashed[..3] == "Ana";
  }

  /** The country entry chosen from a Nationalize answer; an empty list gives ("", 0.0). */
  function FirstCountry(guesses: seq<CountryGuess>): (r: NationRecord)
    ensures guesses == [] ==> r == NationRecord("", "0.0")
    ensures guesses != [] ==> r == NationRecord(guesses[0].countryId, guesses[0].probability)
  {
    if guesses == [] then NationRecord("", "0.0")
    else NationRecord(guesses[0].countryId, guesses[0].probability)
  }

  /** The names `get_nation` sends to Nationalize, in order. */
  function NationQueries(inf: Inference, name: string, surname: string): (r: seq<string>)
    ensures r == [] <==> AuthorLabel(name, surname) == " "
    ensures r != [] ==> |r| == 2 && r[0] == CutAtHyphen(surname)
    ensures r != [] ==> r[1] == if inf.nationalize(r[0]) == [] then name else r[0]
  {
    if AuthorLabel(name, surname) == " " then []
    else
      var cut := CutAtHyphen(surname);
      [cut, if inf.nationalize(cut) == [] then name else cut]
  }

  /** The record `get_nation` stores under the author's label. */
  function NationSpec(inf: Inference, name: string, surname: string): (r: NationRecord)
    ensures AuthorLabel(name, surname) == " " ==> r == NationRecord("", "")
    ensures AuthorLabel(name, surname) != " " ==>
      var cut := CutAtHyphen(surname);
      r == FirstCountry(inf.nationalize(if inf.nationalize(cut) == [] then name else cut))
  {
    if AuthorLabel(name, surname) == " " then NationRecord("", "")
    else FirstCountry(inf.nationalize(NationQueries(inf, name, surname)[1]))
  }

  /**
   * `get_nation`: the result is keyed by the label built from the names as given; the
   * surname (cut at its first hyphen) is asked first, and the given name, unchanged, only
   * when the surname yields no country; nothing is asked for a blank author.
   */
  method GetNation(inf: Inference, authorName: string, authorSurname: string)
    returns (nationAuthor: map<string, NationRecord>, queries: seq<string>)
    ensures var key := AuthorLabel(authorName, authorSurname);
      && nationAuthor.Keys == {key}
      && nationAuthor[key] == NationSpec(inf, authorName, authorSurname)
      && queries == NationQueries(inf, authorName, authorSurname)
    ensures AuthorLabel(authorName, authorSurname) == " " ==>
      queries == [] && nationAuthor[" "] == NationRecord("", "")
    ensures AuthorLabel(authorName, authorSurname) != " " ==>
      && |queries| == 2
      && queries[0] == CutAtHyphen(authorSurname)
      && queries[1] == (if inf.nationalize(queries[0]) == [] then authorName else queries[0])
      && nationAuthor[AuthorLabel(authorName, authorSurname)] == FirstCountry(inf.nationalize(queries[1]))
  {
    var author := AuthorLabel(authorName, authorSurname);
    var record := NationRecord("", "");
    var surname := authorSurname;
    if '-' in ReplaceChar(surname, UnicodeHyphen, '-') {
      surname := Before(ReplaceChar(surname, UnicodeHyphen, '-'), '-');
    }
    assert surname == CutAtHyphen(authorSurname);
    queries := [];
    if author != " " {
      var bySurname := inf.nationalize(surname);
      queries := queries + [surname];
      var country: seq<CountryGuess>;
      if bySurname == [] {
        country := inf.nationalize(authorName);
        queries := queries + [authorName];
      } else {
        country := inf.nationalize(surname);
        queries := queries + [surname];
      }
      record := record.(countryId := if country != [] then country[0].countryId else "");
      record := record.(probability := if country != [] then country[0].probability else "0.0");
    }
    nationAuthor := map[author := record];
  }

  /** The record `get_gender` stores under the author's label, given the nation's country code. */
  function GenderSpec(inf: Inference, name: string, surname: string, countryId: string): (r: GenderRecord)
    ensures AuthorLabel(name, surname) == " " ==> r == GenderRecord("", "")
    ensures AuthorLabel(name, surname) != " " ==>
      var guess := inf.genderize(NormaliseGivenName(name), countryId);
      r.gender == guess.gender && r.probability == guess.probability
  {
    if AuthorLabel(name, surname) == " " then GenderRecord("", "")
    else
      var guess := inf.genderize(NormaliseGivenName(name), countryId);
      GenderRecord(guess.gender, guess.probability)
  }

  /**
   * `get_gender`: the result is keyed by the label built from the names as given; the
   * given name is normalised before Genderize is asked (twice, once per field) with the
   * country found for the same label; a blank author gets "" and no call; a label missing
   * from `nationality` raises `KeyError`.
   */
  method GetGender(inf: Inference, authorName: string, authorSurname: string, nationality: map<string, NationRecord>)
    returns (r: Result<map<string, GenderRecord>>, queries: seq<(string, string)>)
    ensures var key := AuthorLabel(authorName, authorSurname);
      key == " " ==> r == Ok(map[" " := GenderRecord("", "")]) && queries == []
    ensures var key := AuthorLabel(authorName, authorSurname);
      key != " " && key !in nationality ==> r == Err(KeyError(key)) && queries == []
    ensures var key := AuthorLabel(authorName, authorSurname);
      key != " " && key in nationality ==>
        var q := (NormaliseGivenName(authorName), nationality[key].countryId);
        && queries == [q, q]
        && r == Ok(map[key := GenderRecord(inf.genderize(q.0, q.1).gender, inf.genderize(q.0, q.1).probability)])
    ensures var key := AuthorLabel(authorName, authorSurname);
      r.Ok? ==> r.value == map[key := GenderSpec(inf, authorName, authorSurname,
        if key in nationality then nationality[key].countryId else "")]
  {
    var author := AuthorLabel(authorName, authorSurname);
    var record := GenderRecord("", "");
    var name := authorName;
    if '-' in ReplaceChar(name, UnicodeHyphen, '-') {
      name := Before(ReplaceChar(name, UnicodeHyphen, '-'), '-');
    }
    if '.' in name {
      name := Before(name, '.');
    }
    assert name == NormaliseGivenName(authorName);
    queries := [];
    if author != " " {
      if author !in nationality {
        return Err(KeyError(author)), queries;
      }
      var nation := nationality[author];
      var first := inf.genderize(name, nation.countryId);
      queries := queries + [(name, nation.countryId)];
      record := record.(gender := first.gender);
      var second := inf.genderize(name, nation.countryId);
      queries := queries + [(name, nation.countryId)];
      record := record.(probability := second.probability);
    } else {
      record := record.(gender := "");
      record := record.(probability := "");
    }
    r := Ok(map[author := record]);
  }
}

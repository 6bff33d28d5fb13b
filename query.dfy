/** The boolean query logic written inline in `search` (app.py:245-280) and
    `criminal_search` (app.py:343-378), lifted out as functions over the strings
    of one record. */
module Query {
  import opened Text
  import opened Matching

  /** The request's `mode`; any other value, including a missing one, is `Other`. */
  datatype Mode = Single | Or | And | AndOr | Other

  function ModeOf(name: string): Mode
  {
    if name == "SINGLE" then Single
    else if name == "OR" then Or
    else if name == "AND" then And
    else if name == "AND_OR" then AndOr
    else Other
  }

  /** Which matcher a search uses: `strict_match` (legacy) or
      `criminal_strict_match` (criminal). */
  datatype Policy = Legacy | Criminal

  predicate KeywordMatches(p: Policy, keyword: string, text: string)
  {
    match p
    case Legacy => StrictMatch(keyword, text)
    case Criminal => CriminalStrictMatch(keyword, text)
  }

  /** `any(match(keyword, s) for s in strings)`. */
  predicate AnyField(p: Policy, keyword: string, strings: seq<string>)
  {
    strings != [] && (KeywordMatches(p, keyword, strings[0]) || AnyField(p, keyword, strings[1..]))
  }

  /** Some keyword matches some field. */
  predicate AnyKeyword(p: Policy, keywords: seq<string>, strings: seq<string>)
  {
    keywords != [] && (AnyField(p, keywords[0], strings) || AnyKeyword(p, keywords[1..], strings))
  }

  /** Every keyword matches some field. */
  predicate AllKeywords(p: Policy, keywords: seq<string>, strings: seq<string>)
  {
    keywords == [] || (AnyField(p, keywords[0], strings) && AllKeywords(p, keywords[1..], strings))
  }

  /** The keyword decision of both handlers: with no keywords every record matches;
      otherwise the mode decides, AND_OR needs at least two keywords and an
      unknown mode matches nothing. */
  predicate Evaluate(p: Policy, strings: seq<string>, mode: Mode, keywords: seq<string>)
  {
    if keywords == [] then true
    else
      match mode
      case Single => AnyField(p, keywords[0], strings)
      case Or => AnyKeyword(p, keywords, strings)
      case And => AllKeywords(p, keywords, strings)
      case AndOr => |keywords| >= 2 && AnyField(p, keywords[0], strings) && AnyKeyword(p, keywords[1..], strings)
      case Other => false
  }

  /** The exclusion test: some exclude term matches some field. */
  predicate Excluded(p: Policy, strings: seq<string>, excludes: seq<string>)
  {
    AnyKeyword(p, excludes, strings)
  }

  /** A record survives the keyword stage: not excluded, and the keywords match. */
  predicate Passes(p: Policy, strings: seq<string>, mode: Mode, keywords: seq<string>, excludes: seq<string>)
  {
    !Excluded(p, strings, excludes) && Evaluate(p, strings, mode, keywords)
  }

  // ---------------------------------------------------------------------------
  // What the decisions mean

  /** Reference reading of "the keyword matches one of the fields". */
  ghost predicate MatchesSomeField(p: Policy, keyword: string, strings: seq<string>)
  {
    exists i :: 0 <= i < |strings| && KeywordMatches(p, keyword, strings[i])
  }

  lemma {:induction false} AnyFieldIff(p: Policy, keyword: string, strings: seq<string>)
    ensures AnyField(p, keyword, strings) <==> MatchesSomeField(p, keyword, strings)
  {
    if strings != [] {
      AnyFieldIff(p, keyword, strings[1..]);
      if MatchesSomeField(p, keyword, strings[1..]) {
        var i :| 0 <= i < |strings| - 1 && KeywordMatches(p, keyword, strings[1..][i]);
        assert strings[1..][i] == strings[i + 1];
      }
      if MatchesSomeField(p, keyword, strings) && !KeywordMatches(p, keyword, strings[0]) {
        var i :| 0 <= i < |strings| && KeywordMatches(p, keyword, strings[i]);
        assert strings[1..][i - 1] == strings[i];
      }
    }
  }

  lemma {:induction false} AnyKeywordIff(p: Policy, keywords: seq<string>, strings: seq<string>)
    ensures AnyKeyword(p, keywords, strings) <==>
            exists j :: 0 <= j < |keywords| && MatchesSomeField(p, keywords[j], strings)
  {
    if keywords != [] {
      AnyFieldIff(p, keywords[0], strings);
      AnyKeywordIff(p, keywords[1..], strings);
      if exists j :: 0 <= j < |keywords| - 1 && MatchesSomeField(p, keywords[1..][j], strings) {
        var j :| 0 <= j < |keywords| - 1 && MatchesSomeField(p, keywords[1..][j], strings);
        assert keywords[1..][j] == keywords[j + 1];
      }
      if exists j :: 0 <= j < |keywords| && MatchesSomeField(p, keywords[j], strings) {
        var j :| 0 <= j < |keywords| && MatchesSomeField(p, keywords[j], strings);
        if j > 0 {
          assert keywords[1..][j - 1] == keywords[j];
        }
      }
    }
  }

  lemma {:induction false} AllKeywordsIff(p: Policy, keywords: seq<string>, strings: seq<string>)
    ensures AllKeywords(p, keywords, strings) <==>
            forall j :: 0 <= j < |keywords| ==> MatchesSomeField(p, keywords[j], strings)
  {
    if keywords != [] {
      AnyFieldIff(p, keywords[0], strings);
      AllKeywordsIff(p, keywords[1..], strings);
      if forall j :: 0 <= j < |keywords| ==> MatchesSomeField(p, keywords[j], strings) {
        forall j | 0 <= j < |keywords| - 1 ensures MatchesSomeField(p, keywords[1..][j], strings) {
          assert keywords[1..][j] == keywords[j + 1];
        }
      }
      if AllKeywords(p, keywords, strings) {
        forall j | 0 <= j < |keywords| ensures MatchesSomeField(p, keywords[j], strings) {
          if j > 0 {
            assert keywords[1..][j - 1] == keywords[j];
          }
        }
      }
    }
  }

  /** Each mode, read as a statement about keywords and fields. The fields that
      satisfy different keywords under AND may differ. */
  lemma EvaluateMeaning(p: Policy, strings: seq<string>, mode: Mode, keywords: seq<string>)
    ensures keywords == [] ==> Evaluate(p, strings, mode, keywords)
    ensures keywords != [] && mode == Single ==>
      (Evaluate(p, strings, mode, keywords) <==> MatchesSomeField(p, keywords[0], strings))
    ensures keywords != [] && mode == Or ==>
      (Evaluate(p, strings, mode, keywords) <==>
         exists j :: 0 <= j < |keywords| && MatchesSomeField(p, keywords[j], strings))
    ensures keywords != [] && mode == And ==>
      (Evaluate(p, strings, mode, keywords) <==>
         forall j :: 0 <= j < |keywords| ==> MatchesSomeField(p, keywords[j], strings))
    ensures keywords != [] && mode == AndOr ==>
      (Evaluate(p, strings, mode, keywords) <==>
         |keywords| >= 2 && MatchesSomeField(p, keywords[0], strings) &&
         exists j :: 1 <= j < |keywords| && MatchesSomeField(p, keywords[j], strings))
    ensures keywords != [] && mode == Other ==> !Evaluate(p, strings, mode, keywords)
  {
    if keywords != [] {
      AnyFieldIff(p, keywords[0], strings);
      AnyKeywordIff(p, keywords, strings);
      AllKeywordsIff(p, keywords, strings);
      AnyKeywordIff(p, keywords[1..], strings);
      if exists j :: 0 <= j < |keywords| - 1 && MatchesSomeField(p, keywords[1..][j], strings) {
        var j :| 0 <= j < |keywords| - 1 && MatchesSomeField(p, keywords[1..][j], strings);
        assert keywords[1..][j] == keywords[j + 1];
      }
      if exists j :: 1 <= j < |keywords| && MatchesSomeField(p, keywords[j], strings) {
        var j :| 1 <= j < |keywords| && MatchesSomeField(p, keywords[j], strings);
        assert keywords[1..][j - 1] == keywords[j];
      }
    }
  }

  /** AND_OR with a single keyword never matches, even where SINGLE would. */
  lemma AndOrNeedsTwo(p: Policy, strings: seq<string>, keyword: string)
    ensures !Evaluate(p, strings, AndOr, [keyword])
  {
  }

  /** An exclude term that matches any field rejects the record, whatever the
      keywords and the mode. */
  lemma ExclusionWins(p: Policy, strings: seq<string>, mode: Mode, keywords: seq<string>,
                      excludes: seq<string>, j: nat, i: nat)
    requires j < |excludes| && i < |strings| && KeywordMatches(p, excludes[j], strings[i])
    ensures !Passes(p, strings, mode, keywords, excludes)
  {
    AnyKeywordIff(p, excludes, strings);
    assert MatchesSomeField(p, excludes[j], strings);
  }

  /** In the legacy search an empty exclude term matches every field, so it rejects
      every record (the `/search` handler always has at least the statute name
      among the strings). The criminal search ignores it. */
  lemma EmptyExcludeTerm(strings: seq<string>, mode: Mode, keywords: seq<string>)
    requires strings != []
    ensures !Passes(Legacy, strings, mode, keywords, [""])
    ensures Excluded(Criminal, strings, [""]) == false
  {
    EmptyKeywordDivergence(strings[0]);
    AnyKeywordIff(Criminal, [""], strings);
    AnyFieldIff(Criminal, "", strings);
  }

  // ---------------------------------------------------------------------------
  // Record filters on top of the keyword decision

  /** The statute selection of `/search`: no selection, or one that includes
      "전체" (all), admits every statute; otherwise only the listed ones. */
  predicate LawSelected(selected: seq<string>, law: string)
  {
    selected == [] || "전체" in selected || law in selected
  }

  /** The statute/article filter of `/criminal/search` over the raw cited
      provisions: a selected statute must occur in them, and a selected article
      only counts together with a statute, as the text "statute article". */
  predicate ReferenceFilter(references: string, law: string, article: string)
  {
    law == "" || (Contains(references, law) && (article == "" || Contains(references, law + " " + article)))
  }

  /** With both a statute and an article selected, the filter is exactly the
      substring test for "statute article"; an article without a statute is
      ignored. */
  lemma ReferenceFilterMeaning(references: string, law: string, article: string)
    ensures law != "" && article != "" ==>
      (ReferenceFilter(references, law, article) <==> Contains(references, law + " " + article))
    ensures law == "" ==> ReferenceFilter(references, law, article)
  {
    if law != "" && article != "" && Contains(references, law + " " + article) {
      assert law + " " + article == law + (" " + article);
      ContainsPrefixOfNeedle(references, law, " " + article);
    }
  }
}

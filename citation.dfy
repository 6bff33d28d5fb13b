/** Citation parsing: the article-token language `ARTICLE_RE` / `is_article_token`
    (app.py:87-90) and the two-state token scanner `parse_refs_to_law_and_article`
    (app.py:92-106) that splits one citation fragment into a statute name and an
    article part. */
module Citation {
  import opened Text
  import opened Wrappers

  /** An article designation 제<number>조, optionally 의<sub> and optionally
      -<branch>; an absent part is "". */
  datatype Article = Article(number: string, sub: string, branch: string)

  predicate IsNumber(s: string) { s != [] && AllDigits(s) }

  predicate WellFormed(a: Article)
  {
    IsNumber(a.number) && (a.sub == "" || IsNumber(a.sub)) && (a.branch == "" || IsNumber(a.branch))
  }

  /** The text of an article designation. */
  function Render(a: Article): string
  {
    "제" + a.number + "조" + (if a.sub == "" then "" else "의" + a.sub)
      + (if a.branch == "" then "" else "-" + a.branch)
  }

  /** `(?:-\d+)?$` applied to what is left of the token. */
  function BranchPart(r: string): Option<string>
  {
    if r == "" then Some("")
    else if r[0] == '-' && |r| >= 2 && AllDigits(r[1..]) then Some(r[1..])
    else None
  }

  /** `(?:의\d+)?(?:-\d+)?$` applied to what follows 제<number>조. The digit runs
      are greedy; giving digits back never helps, as a digit is followed by "-"
      or the end. */
  function SubPart(r: string): Option<(string, string)>
  {
    if r != "" && r[0] == '의' then
      var n := Span(r[1..], IsDigit);
      if n == 0 then None
      else
        match BranchPart(r[1 + n..])
        case Some(b) => Some((r[1..1 + n], b))
        case None => None
    else
      match BranchPart(r)
      case Some(b) => Some(("", b))
      case None => None
  }

  /** Reads a whole token as `^제\d+조(?:의\d+)?(?:-\d+)?$` without the
      end-of-line allowance of `$`. */
  function ParseArticle(t: string): Option<Article>
  {
    if t != "" && t[0] == '제' then
      var n := Span(t[1..], IsDigit);
      if n >= 1 && 1 + n < |t| && t[1 + n] == '조' then
        match SubPart(t[2 + n..])
        case Some(parts) => Some(Article(t[1..1 + n], parts.0, parts.1))
        case None => None
      else None
    else None
  }

  /** `is_article_token(tok)`: `ARTICLE_RE.match(tok)`; Python's `$` also
      accepts a single newline at the very end. */
  predicate IsArticleToken(tok: string)
  {
    ParseArticle(tok).Some?
    || (tok != "" && tok[|tok| - 1] == '\n' && ParseArticle(tok[..|tok| - 1]).Some?)
  }

  lemma BranchPartRender(b: string)
    requires b == "" || IsNumber(b)
    ensures BranchPart(if b == "" then "" else "-" + b) == Some(b)
  {
    if b != "" {
      assert ("-" + b)[1..] == b;
    }
  }

  /** The head 제<digits>조 is read off and the rest goes to `SubPart`. */
  lemma ParseHead(num: string, rest: string)
    requires IsNumber(num)
    ensures ParseArticle("제" + num + "조" + rest)
         == match SubPart(rest)
            case Some(parts) => Some(Article(num, parts.0, parts.1))
            case None => None
  {
    var t := "제" + num + "조" + rest;
    assert t[0] == '제';
    assert t[1..] == num + ("조" + rest);
    SpanStops(num, "조" + rest, IsDigit);
    var n := |num|;
    assert t[1..1 + n] == num;
    assert t[1 + n] == '조';
    assert t[2 + n..] == rest;
  }

  lemma SubPartRender(sub: string, branch: string)
    requires sub == "" || IsNumber(sub)
    requires branch == "" || IsNumber(branch)
    ensures SubPart((if sub == "" then "" else "의" + sub) + (if branch == "" then "" else "-" + branch))
         == Some((sub, branch))
  {
    var br := if branch == "" then "" else "-" + branch;
    BranchPartRender(branch);
    if sub != "" {
      var r := "의" + sub + br;
      assert r[1..] == sub + br;
      SpanStops(sub, br, IsDigit);
      assert r[1..1 + |sub|] == sub;
      assert r[1 + |sub|..] == br;
    } else {
      assert "" + br == br;
    }
  }

  /** Every well-formed designation reads back as itself. */
  lemma ParseRender(a: Article)
    requires WellFormed(a)
    ensures ParseArticle(Render(a)) == Some(a)
  {
    var rest := (if a.sub == "" then "" else "의" + a.sub) + (if a.branch == "" then "" else "-" + a.branch);
    assert Render(a) == "제" + a.number + "조" + rest;
    ParseHead(a.number, rest);
    SubPartRender(a.sub, a.branch);
  }

  lemma BranchPartParse(r: string)
    requires BranchPart(r).Some?
    ensures var b := BranchPart(r).value;
      (b == "" || IsNumber(b)) && r == (if b == "" then "" else "-" + b)
  {
    if r != "" {
      assert r == "-" + r[1..];
    }
  }

  lemma SubPartParse(r: string)
    requires SubPart(r).Some?
    ensures var (s, b) := SubPart(r).value;
      (s == "" || IsNumber(s)) && (b == "" || IsNumber(b))
      && r == (if s == "" then "" else "의" + s) + (if b == "" then "" else "-" + b)
  {
    if r != "" && r[0] == '의' {
      var n := Span(r[1..], IsDigit);
      BranchPartParse(r[1 + n..]);
      assert r[1..1 + n] == r[1..][..n];
      assert r == "의" + r[1..1 + n] + r[1 + n..];
    } else {
      BranchPartParse(r);
    }
  }

  /** A token that reads as a designation consists of 제, a digit run, 조 and
      the rest. */
  lemma HeadShape(t: string)
    requires ParseArticle(t).Some?
    ensures var n := Span(t[1..], IsDigit);
      1 + n < |t| && IsNumber(t[1..1 + n]) && t == "제" + t[1..1 + n] + "조" + t[2 + n..]
  {
  }

  /** ... and its parts are that digit run and what `SubPart` reads off the rest. */
  lemma HeadValue(t: string)
    requires ParseArticle(t).Some?
    ensures var n := Span(t[1..], IsDigit);
      && SubPart(t[2 + n..]).Some?
      && ParseArticle(t).value == Article(t[1..1 + n], SubPart(t[2 + n..]).value.0, SubPart(t[2 + n..]).value.1)
  {
  }

  lemma RenderShape(a: Article)
    ensures Render(a) == "제" + a.number + "조"
      + ((if a.sub == "" then "" else "의" + a.sub) + (if a.branch == "" then "" else "-" + a.branch))
  {
  }

  /** Whatever reads as a designation is a well-formed one, written out exactly. */
  lemma RenderParse(t: string)
    requires ParseArticle(t).Some?
    ensures WellFormed(ParseArticle(t).value) && Render(ParseArticle(t).value) == t
  {
    HeadShape(t);
    HeadValue(t);
    var n := Span(t[1..], IsDigit);
    SubPartParse(t[2 + n..]);
    RenderShape(ParseArticle(t).value);
  }

  /** For a token without whitespace, as `str.split()` produces, the article-token
      test is exactly "is the text of a well-formed designation". */
  lemma ArticleTokenLanguage(tok: string, a: Article)
    requires IsWord(tok)
    ensures IsArticleToken(tok) <==> ParseArticle(tok).Some?
    ensures WellFormed(a) && Render(a) == tok ==> IsArticleToken(tok)
    ensures ParseArticle(tok) == Some(a) ==> WellFormed(a) && Render(a) == tok
  {
    if WellFormed(a) && Render(a) == tok {
      ParseRender(a);
    }
    if ParseArticle(tok) == Some(a) {
      RenderParse(tok);
    }
  }

  lemma ArticleTokenExamples()
    ensures IsArticleToken("제1조")
    ensures IsArticleToken("제2조의2")
  {
    ParseRender(Article("1", "", ""));
    assert Render(Article("1", "", "")) == "제1조";
    ParseRender(Article("2", "2", ""));
    assert Render(Article("2", "2", "")) == "제2조의2";
  }

  /** A statute number such as 제17571호 is not an article token. */
  lemma StatuteNumberIsNotArticle()
    ensures !IsArticleToken("제17571호로")
  {
    var t := "제17571호로";
    assert t[1..] == "17571" + "호로";
    SpanStops("17571", "호로", IsDigit);
    assert t[6] == '호';
    assert t[|t| - 1] != '\n';
  }

  // ---------------------------------------------------------------------------
  // parse_refs_to_law_and_article

  /** `re.sub(r"[,\(\)]", " ", ref)`. */
  function BlankDelimiters(ref: string): (r: string)
    ensures |r| == |ref|
    ensures forall i :: 0 <= i < |r| ==> r[i] == (if ref[i] in ",()" then ' ' else ref[i])
  {
    if ref == [] then [] else [if ref[0] in ",()" then ' ' else ref[0]] + BlankDelimiters(ref[1..])
  }

  /** The whitespace tokens the scanner walks over. */
  function RefTokens(ref: string): (toks: seq<string>)
    ensures forall i :: 0 <= i < |toks| ==> IsWord(toks[i])
  {
    Words(Trim(BlankDelimiters(ref)))
  }

  /** Index of the first article token, or the number of tokens if there is none. */
  function FirstArticle(toks: seq<string>): (k: nat)
    ensures k <= |toks|
  {
    if toks == [] || IsArticleToken(toks[0]) then 0 else 1 + FirstArticle(toks[1..])
  }

  /** `FirstArticle` finds the first article token. */
  lemma {:induction false} FirstArticleIsFirst(toks: seq<string>)
    ensures forall j :: 0 <= j < FirstArticle(toks) ==> !IsArticleToken(toks[j])
    ensures FirstArticle(toks) < |toks| ==> IsArticleToken(toks[FirstArticle(toks)])
  {
    if toks != [] && !IsArticleToken(toks[0]) {
      FirstArticleIsFirst(toks[1..]);
    }
  }

  /** The statute name and the article part made of a token sequence. */
  function SplitTokens(toks: seq<string>): (string, string)
  {
    var k := FirstArticle(toks);
    (Trim(Join(" ", toks[..k])), Trim(Join(" ", toks[k..])))
  }

  /** What `parse_refs_to_law_and_article(ref)` returns. */
  function LawAndArticle(ref: string): (string, string)
  {
    SplitTokens(RefTokens(ref))
  }

  /** The scanning loop of `parse_refs_to_law_and_article`: tokens go to the
      statute name until the first article token, and every token from there on
      goes to the article part. */
  method Scan(tokens: seq<string>) returns (lawTokens: seq<string>, articleTokens: seq<string>)
    ensures lawTokens == tokens[..FirstArticle(tokens)]
    ensures articleTokens == tokens[FirstArticle(tokens)..]
  {
    ghost var k := FirstArticle(tokens);
    FirstArticleIsFirst(tokens);
    lawTokens, articleTokens := [], [];
    for i := 0 to |tokens|
      invariant i <= k ==> lawTokens == tokens[..i] && articleTokens == []
      invariant i > k ==> lawTokens == tokens[..k] && articleTokens == tokens[k..i]
    {
      if IsArticleToken(tokens[i]) {
        articleTokens := articleTokens + [tokens[i]];
      } else if articleTokens == [] {
        lawTokens := lawTokens + [tokens[i]];
      } else {
        articleTokens := articleTokens + [tokens[i]];
      }
    }
    assert tokens[..|tokens|] == tokens;
  }

  /** `parse_refs_to_law_and_article(ref)`: blank out commas and parentheses,
      split into tokens, scan them, and join each part with single spaces. */
  method ParseRefs(ref: string) returns (law: string, article: string)
    ensures (law, article) == LawAndArticle(ref)
  {
    var tokens := RefTokens(ref);
    var lawTokens, articleTokens := Scan(tokens);
    law := Trim(Join(" ", lawTokens));
    article := Trim(Join(" ", articleTokens));
  }

  /** Joining words with single spaces gives a text whose words they are. */
  lemma WordsOfJoinedWords(ws: seq<string>)
    requires forall i :: 0 <= i < |ws| ==> IsWord(ws[i])
    ensures Words(Trim(Join(" ", ws))) == ws
    ensures Trim(Join(" ", ws)) == "" <==> ws == []
  {
    JoinWordsTrimmed(ws);
    TrimTrimmed(Join(" ", ws));
    WordsOfJoin(ws);
  }

  /** Cutting a token sequence in two and joining each part gives two texts
      whose words are the two parts. */
  lemma JoinParts(toks: seq<string>, k: nat)
    requires k <= |toks|
    requires forall i :: 0 <= i < |toks| ==> IsWord(toks[i])
    ensures Words(Trim(Join(" ", toks[..k]))) == toks[..k]
    ensures Words(Trim(Join(" ", toks[k..]))) == toks[k..]
    ensures Trim(Join(" ", toks[k..])) == "" <==> k == |toks|
  {
    WordsOfJoinedWords(toks[..k]);
    WordsOfJoinedWords(toks[k..]);
  }

  lemma CutAndGlue<T>(s: seq<T>, k: nat)
    requires k <= |s|
    ensures s[..k] + s[k..] == s
  {
  }

  /** The words of the statute name followed by those of the article part are
      the tokens. */
  lemma {:induction false} TokensPartition(toks: seq<string>)
    requires forall i :: 0 <= i < |toks| ==> IsWord(toks[i])
    ensures Words(SplitTokens(toks).0) + Words(SplitTokens(toks).1) == toks
    ensures SplitTokens(toks).1 == "" ==> Words(SplitTokens(toks).0) == toks
  {
    var k := FirstArticle(toks);
    JoinParts(toks, k);
    CutAndGlue(toks, k);
  }

  /** No word of the statute name is an article token. */
  lemma {:induction false} LawHasNoArticle(toks: seq<string>)
    requires forall i :: 0 <= i < |toks| ==> IsWord(toks[i])
    ensures forall j :: 0 <= j < |Words(SplitTokens(toks).0)| ==> !IsArticleToken(Words(SplitTokens(toks).0)[j])
  {
    var k := FirstArticle(toks);
    var ws := Words(SplitTokens(toks).0);
    JoinParts(toks, k);
    FirstArticleIsFirst(toks);
    assert ws == toks[..k];
    forall j | 0 <= j < |ws|
      ensures !IsArticleToken(ws[j])
    {
      assert ws[j] == toks[j];
    }
  }

  /** A non-empty article part starts with an article token. */
  lemma {:induction false} ArticleStartsWithArticle(toks: seq<string>)
    requires forall i :: 0 <= i < |toks| ==> IsWord(toks[i])
    ensures SplitTokens(toks).1 != "" ==> IsArticleToken(Words(SplitTokens(toks).1)[0])
  {
    var k := FirstArticle(toks);
    JoinParts(toks, k);
    FirstArticleIsFirst(toks);
  }

  /** The scanner partitions the tokens: the statute name's words followed by the
      article part's words are exactly the tokens, the statute name holds no
      article token, and a non-empty article part starts with one. */
  lemma RefsPartition(ref: string)
    ensures Words(LawAndArticle(ref).0) + Words(LawAndArticle(ref).1) == RefTokens(ref)
    ensures forall j :: 0 <= j < |Words(LawAndArticle(ref).0)| ==> !IsArticleToken(Words(LawAndArticle(ref).0)[j])
    ensures LawAndArticle(ref).1 != "" ==> IsArticleToken(Words(LawAndArticle(ref).1)[0])
    ensures LawAndArticle(ref).1 == "" ==> Words(LawAndArticle(ref).0) == RefTokens(ref)
  {
    TokensPartition(RefTokens(ref));
    LawHasNoArticle(RefTokens(ref));
    ArticleStartsWithArticle(RefTokens(ref));
  }

  lemma ParseRefsExamples()
    ensures LawAndArticle("") == ("", "")
  {
    assert Trim(BlankDelimiters("")) == "";
  }
}

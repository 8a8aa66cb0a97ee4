/**
 * The scraper of GitHub's trending page: the URL it fetches, the rules that turn one listed
 * repository (one `<article class="Box-row">` of the page) into a `TrendingRepository` record,
 * and the loop that assembles the records of a whole page.
 *
 * The page itself is not parsed here: an article is the record of what the scraper's
 * `find` calls read from it.
 */
module Trending {
  import opened Wrappers
  import opened Text
  import opened Numbers

  /** One `<a>` element of an article: its `href` attribute and its text. */
  datatype Link = Link(href: string, text: string)

  /** The `<h2 class="h3">` heading of an article, with the text of its first `<a>` if it has one. */
  datatype Heading = Heading(link: Option<string>)

  /** What the scraper reads from one article, each part absent when the page lacks it:
      the heading; the text of the `p.col-9` description; the text of the
      `span[itemprop=programmingLanguage]`; every `<a>` in document order; the `alt` attribute of each
      `img.avatar-user` inside the "Built by" `span.d-inline-block.mr-3`; and the text of the
      `span.d-inline-block.float-sm-right` that holds the stars gained today. */
  datatype Article = Article(
    heading: Option<Heading>,
    description: Option<string>,
    language: Option<string>,
    links: seq<Link>,
    contributors: Option<seq<Option<string>>>,
    todayStars: Option<string>)

  /** The record built for one listed repository. The counts are natural numbers because the
      model reads only digit strings. */
  datatype TrendingRepository = TrendingRepository(
    name: string,
    description: Option<string>,
    language: Option<string>,
    stars: nat,
    forks: nat,
    todayStars: nat,
    builtBy: seq<string>)

  /** Why an article yields no record: `NoName` is the `continue` taken when the heading or its
      link is missing; the others are the exceptions that the catch-all handler swallows. */
  datatype Skip = NoName | BadStars | BadForks | NoTodayStarsToken | BadTodayStars

  // ---------------------------------------------------------------------------------------------
  // URL

  const TrendingBase: string := "https://github.com/trending"

  /** The page to fetch: the base URL, followed by `/` and the lower-cased language exactly when a
      non-empty language is given. */
  function TrendingUrl(language: Option<string>): (url: string)
    ensures |TrendingBase| <= |url| && url[..|TrendingBase|] == TrendingBase
    ensures url == TrendingBase <==> language.None? || language.value == []
    ensures url != TrendingBase ==>
              url[|TrendingBase|] == '/' &&
              NoUpper(url[|TrendingBase| + 1..]) &&
              EqualIgnoringCase(url[|TrendingBase| + 1..], language.value)
  {
    if language.Some? && language.value != [] then
      var url := TrendingBase + "/" + Lower(language.value);
      assert url[|TrendingBase| + 1..] == Lower(language.value);
      LowerHasNoUpper(language.value);
      url
    else TrendingBase
  }

  /** Two language filters select the same page exactly when they differ only in letter case
      (the empty filter only matches itself). */
  lemma UrlIgnoresCase(a: string, b: string)
    ensures TrendingUrl(Some(a)) == TrendingUrl(Some(b)) <==> EqualIgnoringCase(a, b)
  {
    LowerEqualIff(a, b);
    var n := |TrendingBase| + 1;
    if a == [] || b == [] {
      assert |Lower(a)| == |a| && |Lower(b)| == |b|;
    } else if TrendingUrl(Some(a)) == TrendingUrl(Some(b)) {
      assert TrendingUrl(Some(a))[n..] == Lower(a);
      assert TrendingUrl(Some(b))[n..] == Lower(b);
    }
  }

  // ---------------------------------------------------------------------------------------------
  // Name

  /** Every newline and every space removed. */
  function Squeeze(s: string): (r: string)
    ensures ' ' !in r && '\n' !in r
  {
    RemoveCharMembers(RemoveChar(s, '\n'), ' ');
    RemoveChar(RemoveChar(s, '\n'), ' ')
  }

  lemma SqueezeAppend(a: string, b: string)
    ensures Squeeze(a + b) == Squeeze(a) + Squeeze(b)
  {
    RemoveCharAppend(a, b, '\n');
    RemoveCharAppend(RemoveChar(a, '\n'), RemoveChar(b, '\n'), ' ');
  }

  /** Text without whitespace goes through untouched. */
  lemma SqueezeWord(s: string)
    requires NoSpace(s)
    ensures Squeeze(s) == s
  {
    assert ' ' !in s && '\n' !in s by {
      forall i | 0 <= i < |s| ensures s[i] != ' ' && s[i] != '\n' {
        assert !IsSpace(s[i]);
      }
    }
    RemoveCharAbsent(s, '\n');
    RemoveCharAbsent(s, ' ');
  }

  /** Blanks stay blank. */
  lemma SqueezeBlank(s: string)
    requires AllSpace(s)
    ensures AllSpace(Squeeze(s)) && '/' !in Squeeze(s)
  {
    var r := Squeeze(s);
    RemoveCharMembers(s, '\n');
    RemoveCharMembers(RemoveChar(s, '\n'), ' ');
    forall i | 0 <= i < |r| ensures IsSpace(r[i]) {
      assert r[i] in r;
      var j :| 0 <= j < |s| && s[j] == r[i];
    }
    forall i | 0 <= i < |r| ensures r[i] != '/' {
      assert IsSpace(r[i]);
    }
  }

  /** The heading link's text, stripped, with every newline and every space removed. */
  function CleanTitle(text: string): (clean: string)
    ensures ' ' !in clean && '\n' !in clean
  {
    Squeeze(Strip(text))
  }

  /** Every character of a piece of a split is a character of the split string. */
  lemma {:induction false} SplitPieceChars(s: string, sep: char, i: nat, c: char)
    requires i < |Split(s, sep)| && c in Split(s, sep)[i]
    ensures c in s
  {
    var parts := Split(s, sep);
    if i == 0 {
      if |parts| == 1 {
        assert Join(parts, sep) == parts[0];
      } else {
        assert Join(parts, sep) == parts[0] + [sep] + Join(parts[1..], sep);
      }
    } else {
      JoinPieceChars(parts, sep, i, c);
    }
  }

  lemma {:induction false} JoinPieceChars(parts: seq<string>, sep: char, i: nat, c: char)
    requires i < |parts| && c in parts[i]
    ensures c in Join(parts, sep)
    decreases i
  {
    if |parts| > 1 {
      assert Join(parts, sep) == parts[0] + [sep] + Join(parts[1..], sep);
      if i > 0 {
        JoinPieceChars(parts[1..], sep, i - 1, c);
      }
    }
  }

  /** The repository name read from the heading link's text: the cleaned text split on every '/';
      with two or more pieces, the first two pieces, each stripped, joined by '/' (later pieces are
      dropped); otherwise the whole cleaned text, stripped. */
  function RepositoryName(text: string): string
  {
    var fullName := CleanTitle(text);
    var parts := Split(fullName, '/');
    if |parts| >= 2 then Strip(parts[0]) + "/" + Strip(parts[1]) else Strip(fullName)
  }

  /** The name has no space and no newline, and holds at most one '/'. */
  lemma RepositoryNameShape(text: string)
    ensures ' ' !in RepositoryName(text) && '\n' !in RepositoryName(text)
    ensures |Split(RepositoryName(text), '/')| <= 2
  {
    var fullName := CleanTitle(text);
    var parts := Split(fullName, '/');
    if |parts| >= 2 {
      var owner, repo := Strip(parts[0]), Strip(parts[1]);
      assert ' ' !in owner && '\n' !in owner && ' ' !in repo && '\n' !in repo by {
        forall c | c in owner || c in repo ensures c in fullName {
          if c in owner { SplitPieceChars(fullName, '/', 0, c); }
          else { SplitPieceChars(fullName, '/', 1, c); }
        }
      }
      assert '/' !in owner && '/' !in repo by {
        assert parts[0] in parts && parts[1] in parts;
      }
      SplitAfterPiece(owner, '/', repo);
      SplitNoSeparator(repo, '/');
      assert RepositoryName(text) == owner + "/" + repo;
    } else {
      assert parts == [fullName] by { assert Join(parts, '/') == parts[0]; }
      assert parts[0] in parts;
      SplitNoSeparator(Strip(fullName), '/');
    }
  }

  /** The name of a heading rendered as `owner / repo`, with any whitespace around the owner, the
      slash and the repository: exactly `owner/repo` (for example `"facebook /\nreact"`). */
  lemma RepositoryNameOfRendered(left: string, owner: string, mid1: string, mid2: string,
                                 repo: string, right: string)
    requires AllSpace(left) && AllSpace(mid1) && AllSpace(mid2) && AllSpace(right)
    requires owner != [] && NoSpace(owner) && '/' !in owner
    requires repo != [] && NoSpace(repo) && '/' !in repo
    ensures RepositoryName(left + owner + mid1 + "/" + mid2 + repo + right) == owner + "/" + repo
  {
    var m1, m2 := Squeeze(mid1), Squeeze(mid2);
    CleanTitleOfRendered(left, owner, mid1, mid2, repo, right);
    SqueezeBlank(mid1);
    SqueezeBlank(mid2);
    NameOfPieces(owner, m1, m2, repo);
  }

  /** Every '/' splits the name, and only the first two pieces are kept: a heading whose cleaned
      text is `a/b/c/d` (the heading may hold any whitespace) names `a/b`. */
  lemma RepositoryNameDropsExtraPieces(text: string, a: string, b: string, c: string)
    requires CleanTitle(text) == a + "/" + b + "/" + c
    requires NoSpace(a) && '/' !in a
    requires NoSpace(b) && '/' !in b
    ensures RepositoryName(text) == a + "/" + b
  {
    SplitTwoFirst(a, b, c);
    StripUnpadded(a);
    StripUnpadded(b);
    NameFromPieces(text, a, b);
  }

  /** The rule for three or more pieces, for any pieces: a cleaned text `a/b/c…` names
      `strip(a)/strip(b)` (`"/repo/x"` names `"/repo"`, a tab before the '/' is stripped). */
  lemma RepositoryNameFirstTwo(text: string, a: string, b: string, c: string)
    requires CleanTitle(text) == a + "/" + b + "/" + c
    requires '/' !in a && '/' !in b
    ensures RepositoryName(text) == Strip(a) + "/" + Strip(b)
  {
    SplitTwoFirst(a, b, c);
  }

  /** The rule for exactly two pieces, for any pieces: a cleaned text `a/b` names
      `strip(a)/strip(b)`. */
  lemma RepositoryNameTwoPieces(text: string, a: string, b: string)
    requires CleanTitle(text) == a + "/" + b
    requires '/' !in a && '/' !in b
    ensures RepositoryName(text) == Strip(a) + "/" + Strip(b)
  {
    SplitTwo(a, b);
  }

  /** A heading whose cleaned text has `a` and `b` as its first two '/'-pieces, each its own
      `strip`, names `a/b`. */
  lemma NameFromPieces(text: string, a: string, b: string)
    requires |Split(CleanTitle(text), '/')| >= 2
    requires Split(CleanTitle(text), '/')[0] == a && Split(CleanTitle(text), '/')[1] == b
    requires Strip(a) == a && Strip(b) == b
    ensures RepositoryName(text) == a + "/" + b
  {
  }

  /** `a/b/c` written without whitespace is its own cleaned text, so it names `a/b`. */
  lemma RepositoryNameOfPath(a: string, b: string, c: string)
    requires NoSpace(a) && '/' !in a
    requires NoSpace(b) && '/' !in b
    requires NoSpace(c)
    ensures RepositoryName(a + "/" + b + "/" + c) == a + "/" + b
  {
    PathClean(a, b, c);
    RepositoryNameDropsExtraPieces(a + "/" + b + "/" + c, a, b, c);
  }

  lemma PathClean(a: string, b: string, c: string)
    requires NoSpace(a) && NoSpace(b) && NoSpace(c)
    ensures CleanTitle(a + "/" + b + "/" + c) == a + "/" + b + "/" + c
  {
    PathNoSpace(a, b, c);
    CleanTitleOfWord(a + "/" + b + "/" + c);
  }

  lemma PathNoSpace(a: string, b: string, c: string)
    requires NoSpace(a) && NoSpace(b) && NoSpace(c)
    ensures NoSpace(a + "/" + b + "/" + c)
  {
    NoSpaceAppend(a, "/");
    NoSpaceAppend(a + "/", b);
    NoSpaceAppend(a + "/" + b, "/");
    NoSpaceAppend(a + "/" + b + "/", c);
  }

  /** Heading text without whitespace is already clean. */
  lemma CleanTitleOfWord(text: string)
    requires NoSpace(text)
    ensures CleanTitle(text) == text
  {
    StripUnpadded(text);
    SqueezeWord(text);
  }

  lemma NoSpaceAppend(x: string, y: string)
    requires NoSpace(x) && NoSpace(y)
    ensures NoSpace(x + y)
  {
    forall i | 0 <= i < |x + y| ensures !IsSpace((x + y)[i]) {
      if i >= |x| { assert (x + y)[i] == y[i - |x|]; }
    }
  }

  lemma SplitTwoFirst(a: string, b: string, c: string)
    requires '/' !in a && '/' !in b
    ensures var parts := Split(a + "/" + b + "/" + c, '/');
            |parts| >= 2 && parts[0] == a && parts[1] == b
  {
    assert a + "/" + b + "/" + c == a + ['/'] + (b + ['/'] + c);
    SplitAfterPiece(a, '/', b + ['/'] + c);
    SplitAfterPiece(b, '/', c);
  }

  /** With no '/' in the cleaned heading text, the name is that text: the final `strip` changes
      nothing, since the cleaned text neither starts nor ends with whitespace. */
  lemma RepositoryNameWhole(text: string)
    requires |Split(CleanTitle(text), '/')| < 2
    ensures RepositoryName(text) == CleanTitle(text)
  {
    CleanTitleStripped(text);
    StripUnpadded(CleanTitle(text));
  }

  /** The cleaned heading text neither starts nor ends with whitespace. */
  lemma CleanTitleStripped(text: string)
    ensures var clean := CleanTitle(text);
            clean == [] || (!IsSpace(clean[0]) && !IsSpace(clean[|clean| - 1]))
  {
    var s := Strip(text);
    if s != [] {
      RemoveCharEnds(s, '\n');
      var t := RemoveChar(s, '\n');
      RemoveCharEnds(t, ' ');
    }
  }

  /** A blank heading link gives the empty name; nothing rejects it. */
  lemma RepositoryNameBlank(text: string)
    requires AllSpace(text)
    ensures RepositoryName(text) == []
  {
    StripPadded(text, [], []);
    assert text + [] + [] == text;
    RemoveCharAbsent([], '\n');
    RemoveCharAbsent([], ' ');
    SplitNoSeparator([], '/');
  }

  lemma CleanTitleOfRendered(left: string, owner: string, mid1: string, mid2: string,
                             repo: string, right: string)
    requires AllSpace(left) && AllSpace(right)
    requires owner != [] && NoSpace(owner)
    requires repo != [] && NoSpace(repo)
    ensures CleanTitle(left + owner + mid1 + "/" + mid2 + repo + right)
         == (owner + Squeeze(mid1)) + "/" + (Squeeze(mid2) + repo)
  {
    var core := owner + mid1 + "/" + mid2 + repo;
    assert left + owner + mid1 + "/" + mid2 + repo + right == left + core + right;
    assert core[0] == owner[0] && core[|core| - 1] == repo[|repo| - 1];
    StripPadded(left, core, right);
    SqueezeRendered(owner, mid1, mid2, repo);
  }

  lemma SqueezeRendered(owner: string, mid1: string, mid2: string, repo: string)
    requires NoSpace(owner) && NoSpace(repo)
    ensures Squeeze(owner + mid1 + "/" + mid2 + repo)
         == (owner + Squeeze(mid1)) + "/" + (Squeeze(mid2) + repo)
  {
    var a := owner + mid1;
    var b := a + "/";
    var c := b + mid2;
    SqueezeWord(owner);
    SqueezeWord(repo);
    SqueezeWord("/");
    SqueezeAppend(owner, mid1);
    SqueezeAppend(a, "/");
    SqueezeAppend(b, mid2);
    SqueezeAppend(c, repo);
    Regroup3(owner + Squeeze(mid1) + "/", Squeeze(mid2), repo);
  }

  lemma Regroup3(a: string, b: string, c: string)
    ensures a + b + c == a + (b + c)
  {
  }

  lemma NameOfPieces(owner: string, m1: string, m2: string, repo: string)
    requires AllSpace(m1) && AllSpace(m2) && '/' !in m1 && '/' !in m2
    requires owner != [] && NoSpace(owner) && '/' !in owner
    requires repo != [] && NoSpace(repo) && '/' !in repo
    ensures Split((owner + m1) + "/" + (m2 + repo), '/') == [owner + m1, m2 + repo]
    ensures Strip(owner + m1) == owner && Strip(m2 + repo) == repo
  {
    SplitTwo(owner + m1, m2 + repo);
    StripTrailing(owner, m1);
    StripLeading(m2, repo);
  }

  lemma SplitTwo(a: string, b: string)
    requires '/' !in a && '/' !in b
    ensures Split(a + "/" + b, '/') == [a, b]
  {
    SplitAfterPiece(a, '/', b);
    SplitNoSeparator(b, '/');
  }

  lemma StripTrailing(x: string, blank: string)
    requires AllSpace(blank)
    requires x != [] && !IsSpace(x[0]) && !IsSpace(x[|x| - 1])
    ensures Strip(x + blank) == x
  {
    StripPadded([], x, blank);
    assert [] + x + blank == x + blank;
  }

  lemma StripLeading(blank: string, x: string)
    requires AllSpace(blank)
    requires x != [] && !IsSpace(x[0]) && !IsSpace(x[|x| - 1])
    ensures Strip(blank + x) == x
  {
    StripPadded(blank, x, []);
    assert blank + x + [] == blank + x;
  }

  // ---------------------------------------------------------------------------------------------
  // Stars and forks

  /** `article.find("a", href=href)`: the text of the first link whose `href` is exactly `href`. */
  function FindLink(links: seq<Link>, href: string): Option<string> {
    if links == [] then None
    else if links[0].href == href then Some(links[0].text)
    else FindLink(links[1..], href)
  }

  /** `FindLink` answers `None` exactly when no link has that `href`, and otherwise the text of the
      first link that has it. */
  lemma {:induction false} FindLinkFirst(links: seq<Link>, href: string)
    ensures FindLink(links, href).None? <==> forall i :: 0 <= i < |links| ==> links[i].href != href
    ensures FindLink(links, href).Some? ==>
              exists i :: 0 <= i < |links| && links[i] == Link(href, FindLink(links, href).value) &&
                          forall j :: 0 <= j < i ==> links[j].href != href
  {
    if links != [] && links[0].href != href {
      var rest := links[1..];
      FindLinkFirst(rest, href);
      if FindLink(rest, href).Some? {
        var i :| 0 <= i < |rest| && rest[i] == Link(href, FindLink(rest, href).value) &&
                 forall j :: 0 <= j < i ==> rest[j].href != href;
        assert links[i + 1] == rest[i];
        assert forall j :: 0 <= j < i + 1 ==> links[j].href != href by {
          forall j | 0 <= j < i + 1 ensures links[j].href != href {
            if j > 0 { assert links[j] == rest[j - 1]; }
          }
        }
      } else {
        assert forall i :: 0 <= i < |links| ==> links[i].href != href by {
          forall i | 0 <= i < |links| ensures links[i].href != href {
            if i > 0 { assert links[i] == rest[i - 1]; }
          }
        }
      }
    } else if links != [] {
      assert links[0] == Link(href, links[0].text);
    }
  }

  /** The count shown in a link's text: stripped, commas removed, read by `int()`. `None` is the
      `ValueError` of text that is not a number. */
  function ParseCount(text: string): Option<nat> {
    ParseInt(RemoveChar(Strip(text), ','))
  }

  /** A text that reads as a count holds only digits, commas and whitespace. */
  lemma ParseCountChars(text: string)
    ensures ParseCount(text).Some? ==> forall c :: c in text ==> IsDigit(c) || c == ',' || IsSpace(c)
  {
    var digits := RemoveChar(Strip(text), ',');
    RemoveCharMembers(Strip(text), ',');
    if ParseInt(digits).Some? {
      assert forall c :: c in text && !IsSpace(c) && c != ',' ==> c in digits;
      assert forall c :: c in digits ==> IsDigit(c) by {
        forall c | c in digits ensures IsDigit(c) { var i :| 0 <= i < |digits| && digits[i] == c; }
      }
    }
  }

  /** A count as the page prints it, thousands-separated and padded with whitespace, reads back as
      the number: `"\n  12,345 "` gives 12345. */
  lemma ParseCountRendered(left: string, n: nat, right: string)
    requires AllSpace(left) && AllSpace(right)
    ensures ParseCount(left + WithThousands(n) + right) == Some(n)
  {
    var shown := WithThousands(n);
    WithThousandsDigits(n);
    WithThousandsEnds(n);
    StripPadded(left, shown, right);
  }

  /** A thousands-separated rendering starts and ends with a digit, and holds only digits and commas. */
  lemma {:induction false} WithThousandsEnds(n: nat)
    ensures WithThousands(n) != []
    ensures IsDigit(WithThousands(n)[0]) && IsDigit(WithThousands(n)[|WithThousands(n)| - 1])
    ensures forall c :: c in WithThousands(n) ==> IsDigit(c) || c == ','
  {
    if n >= 1000 {
      WithThousandsEnds(n / 1000);
      var head, tail := WithThousands(n / 1000), Pad3(n % 1000);
      assert WithThousands(n) == head + "," + tail;
      assert WithThousands(n)[0] == head[0];
      forall c | c in WithThousands(n) ensures IsDigit(c) || c == ',' {
        assert c in head || c == ',' || c in tail;
        if c in tail { var i :| 0 <= i < |tail| && tail[i] == c; }
      }
    } else {
      var s := ShowNat(n);
      forall c | c in s ensures IsDigit(c) { var i :| 0 <= i < |s| && s[i] == c; }
    }
  }

  /** stars or forks: 0 when there is no link to `href`, otherwise the count in the first such
      link's text; `None` when that text is not a number (the entry then fails, it is never
      defaulted to 0). */
  function LinkCount(links: seq<Link>, href: string): Option<nat> {
    match FindLink(links, href)
    case None => Some(0)
    case Some(text) => ParseCount(text)
  }

  /** The count is 0 when no link has that `href`, and otherwise what the first such link's text
      reads as. */
  lemma LinkCountRule(links: seq<Link>, href: string, i: nat)
    requires i < |links| && links[i].href == href
    requires forall j :: 0 <= j < i ==> links[j].href != href
    ensures LinkCount(links, href) == ParseCount(links[i].text)
  {
    FindLinkFirst(links, href);
    var k :| 0 <= k < |links| && links[k] == Link(href, FindLink(links, href).value) &&
             forall j :: 0 <= j < k ==> links[j].href != href;
    assert k == i;
  }

  /** No link to `href`: the count defaults to 0. */
  lemma {:induction false} LinkCountAbsent(links: seq<Link>, href: string)
    requires forall k :: 0 <= k < |links| ==> links[k].href != href
    ensures LinkCount(links, href) == Some(0)
  {
    FindLinkFirst(links, href);
  }

  function StargazersHref(name: string): string {
    "/" + name + "/stargazers"
  }

  function ForksHref(name: string): string {
    "/" + name + "/forks"
  }

  // ---------------------------------------------------------------------------------------------
  // Stars today

  /** today_stars: 0 without the span; otherwise the first whitespace-separated word of its text,
      read as a number of thousands when it holds a 'k' (every 'k' removed, `float()`, times 1000,
      truncated) and as a comma-separated integer when it does not. A blank text has no first word
      (Python's `IndexError`); a word that is not a number is a `ValueError`. */
  function TodayStars(span: Option<string>): Result<nat, Skip> {
    match span
    case None => Success(0)
    case Some(text) =>
      var words := Words(Strip(text));
      if |words| == 0 then Failure(NoTodayStarsToken) else TodayStarsToken(words[0])
  }

  /** Without the span the count is 0; the entry fails only for lack of a first word, which
      happens exactly when the span's text is blank, or for a first word that is not a number. */
  lemma TodayStarsRule(span: Option<string>)
    ensures span.None? ==> TodayStars(span) == Success(0)
    ensures TodayStars(span).Failure? ==>
              TodayStars(span).error == NoTodayStarsToken || TodayStars(span).error == BadTodayStars
    ensures span.Some? ==>
              (TodayStars(span) == Failure(NoTodayStarsToken) <==> AllSpace(Strip(span.value)))
  {
    if span.Some? {
      WordsEmpty(Strip(span.value));
    }
  }

  /** The number in the first word of the today-stars text. */
  function TodayStarsToken(token: string): (r: Result<nat, Skip>)
    ensures r.Failure? ==> r.error == BadTodayStars
  {
    if 'k' in token then
      match ParseDecimal(RemoveChar(token, 'k'))
      case None => Failure(BadTodayStars)
      case Some(d) => Success(Thousandths(d))
    else
      match ParseInt(RemoveChar(token, ','))
      case None => Failure(BadTodayStars)
      case Some(n) => Success(n)
  }

  lemma Regroup(a: string, b: string, c: string, d: string, e: string, f: string)
    ensures a + b + c + d + e + f == a + (b + c + d + e) + f
  {
  }

  /** A text whose first word is `token` reads as that word. */
  lemma TodayStarsOfFirstWord(text: string, token: string)
    requires |Words(Strip(text))| >= 1 && Words(Strip(text))[0] == token
    ensures TodayStars(Some(text)) == TodayStarsToken(token)
  {
  }

  /** The today-stars text `left + token + rest`, for blanks `left` and a word `token` followed by
      whitespace or nothing, reads as `token`. */
  lemma TodayStarsOfPadded(left: string, token: string, rest: string)
    requires AllSpace(left)
    requires token != [] && NoSpace(token)
    requires rest == [] || IsSpace(rest[0])
    ensures TodayStars(Some(left + token + rest)) == TodayStarsToken(token)
  {
    FirstWordOfPadded(left, token, rest);
    TodayStarsOfFirstWord(left + token + rest, token);
  }

  lemma ShownDigitsAreWord(s: string)
    requires AllDigits(s)
    ensures NoSpace(s) && 'k' !in s
  {
    forall i | 0 <= i < |s| ensures s[i] != 'k' && !IsSpace(s[i]) { }
  }

  /** `"1,234 stars today"`, with any blanks around it, gives 1234. */
  lemma TodayStarsCount(left: string, n: nat, rest: string)
    requires AllSpace(left)
    requires rest == [] || IsSpace(rest[0])
    ensures TodayStars(Some(left + WithThousands(n) + rest)) == Success(n)
  {
    var shown := WithThousands(n);
    WithThousandsEnds(n);
    WithThousandsDigits(n);
    assert NoSpace(shown) && 'k' !in shown by {
      forall i | 0 <= i < |shown| ensures !IsSpace(shown[i]) && shown[i] != 'k' {
        assert shown[i] in shown;
      }
    }
    TodayStarsOfPadded(left, shown, rest);
  }

  /** `"2.5k stars today"`, with any blanks around it, gives 2500: the number before the 'k',
      `whole.frac`, times a thousand, truncated. */
  lemma TodayStarsKilo(left: string, whole: nat, frac: string, rest: string)
    requires AllSpace(left) && AllDigits(frac)
    requires rest == [] || IsSpace(rest[0])
    ensures TodayStars(Some(left + ShowNat(whole) + "." + frac + "k" + rest))
         == Success(Thousandths(Decimal(whole * Pow10(|frac|) + DigitsValue(frac), |frac|)))
  {
    KiloToken(whole, frac);
    Regroup(left, ShowNat(whole), ".", frac, "k", rest);
    TodayStarsOfPadded(left, ShowNat(whole) + "." + frac + "k", rest);
  }

  /** The word `whole.frack` is a word, and reads as `whole.frac` thousands. */
  lemma KiloToken(whole: nat, frac: string)
    requires AllDigits(frac)
    ensures NoSpace(ShowNat(whole) + "." + frac + "k")
    ensures TodayStarsToken(ShowNat(whole) + "." + frac + "k")
         == Success(Thousandths(Decimal(whole * Pow10(|frac|) + DigitsValue(frac), |frac|)))
  {
    var w := ShowNat(whole);
    var token := w + "." + frac + "k";
    KiloTokenIsWord(w, frac);
    KiloTokenDigits(w, frac);
    ParseDecimalFraction(w, frac);
  }

  lemma KiloTokenIsWord(w: string, frac: string)
    requires AllDigits(w) && AllDigits(frac)
    ensures NoSpace(w + "." + frac + "k")
  {
    var token := w + "." + frac + "k";
    forall i | 0 <= i < |token| ensures !IsSpace(token[i]) {
      if i < |w| { assert token[i] == w[i]; }
      else if i == |w| { assert token[i] == '.'; }
      else if i < |w| + 1 + |frac| { assert token[i] == frac[i - |w| - 1]; }
      else { assert token[i] == 'k'; }
    }
  }

  lemma KiloTokenDigits(w: string, frac: string)
    requires AllDigits(w) && AllDigits(frac)
    ensures 'k' in w + "." + frac + "k"
    ensures RemoveChar(w + "." + frac + "k", 'k') == w + "." + frac
  {
    var body := w + "." + frac;
    ShownDigitsAreWord(w);
    ShownDigitsAreWord(frac);
    assert 'k' !in body;
    RemoveCharAbsent(body, 'k');
    RemoveCharAppend(body, "k", 'k');
    assert RemoveChar("k", 'k') == [];
    assert (body + "k")[|body|] == 'k';
  }

  /** `"3k"`, with any blanks around it, gives 3000. */
  lemma TodayStarsWholeKilo(left: string, n: nat, rest: string)
    requires AllSpace(left)
    requires rest == [] || IsSpace(rest[0])
    ensures TodayStars(Some(left + ShowNat(n) + "k" + rest)) == Success(n * 1000)
  {
    var w := ShowNat(n);
    var token := w + "k";
    ShownDigitsAreWord(w);
    assert NoSpace(token);
    assert left + ShowNat(n) + "k" + rest == left + token + rest;
    TodayStarsOfPadded(left, token, rest);
    assert token[|w|] == 'k';
    assert RemoveChar(token, 'k') == w by {
      RemoveCharAppend(w, "k", 'k');
      RemoveCharAbsent(w, 'k');
      assert RemoveChar("k", 'k') == [];
    }
    ParseDecimalWhole(n);
    ThousandthsExact(n, 0);
  }

  // ---------------------------------------------------------------------------------------------
  // Built by

  /** The handle one avatar contributes: its `alt` text without the leading '@', when the text is
      present and starts with '@'. */
  function Handle(alt: Option<string>): Option<string>
  {
    if alt.Some? && alt.value != [] && alt.value[0] == '@' then Some(alt.value[1..]) else None
  }

  /** The handles of a sequence of avatars, in document order, duplicates kept. */
  function Handles(alts: seq<Option<string>>): (handles: seq<string>)
    ensures |handles| <= |alts|
  {
    if alts == [] then []
    else
      var last := Handle(alts[|alts| - 1]);
      Handles(alts[..|alts| - 1]) + (if last.Some? then [last.value] else [])
  }

  /** built_by: the handles of the contributor avatars, none without the "Built by" span. */
  function BuiltBy(contributors: Option<seq<Option<string>>>): seq<string>
  {
    if contributors.None? then [] else Handles(contributors.value)
  }

  /** The handles of two runs of avatars are the handles of the first run, then those of the second. */
  lemma {:induction false} HandlesAppend(a: seq<Option<string>>, b: seq<Option<string>>)
    ensures Handles(a + b) == Handles(a) + Handles(b)
  {
    if b == [] {
      assert a + b == a;
    } else {
      assert (a + b)[..|a + b| - 1] == a + b[..|b| - 1];
      HandlesAppend(a, b[..|b| - 1]);
    }
  }

  /** A handle is listed exactly when some avatar's `alt` text is that handle behind an '@'. */
  lemma {:induction false} HandlesMember(alts: seq<Option<string>>, h: string)
    ensures h in Handles(alts) <==> Some("@" + h) in alts
  {
    if alts != [] {
      var init, last := alts[..|alts| - 1], alts[|alts| - 1];
      HandlesMember(init, h);
      assert alts == init + [last];
      assert Handle(Some("@" + h)) == Some(h) by { assert ("@" + h)[1..] == h; }
      if Handle(last) == Some(h) {
        assert last.value == [last.value[0]] + last.value[1..];
      }
    }
  }

  /** The loop of the source that collects the handles of the avatars in the "Built by" span. */
  method CollectBuiltBy(contributors: Option<seq<Option<string>>>) returns (builtBy: seq<string>)
    ensures builtBy == BuiltBy(contributors)
  {
    builtBy := [];
    if contributors.Some? {
      var avatars := contributors.value;
      for i := 0 to |avatars|
        invariant builtBy == Handles(avatars[..i])
      {
        assert avatars[..i + 1][..i] == avatars[..i];
        var altText := avatars[i];
        if altText.Some? && altText.value != [] && altText.value[0] == '@' {
          builtBy := builtBy + [altText.value[1..]];
        }
      }
      assert avatars[..|avatars|] == avatars;
    }
  }

  // ---------------------------------------------------------------------------------------------
  // One article

  /** `tag.text.strip() if tag else None`, for the description and the language. */
  function StrippedText(tag: Option<string>): Option<string>
  {
    if tag.None? then None else Some(Strip(tag.value))
  }

  /** The record the loop body builds from one article, or why it builds none. The fields are read
      in the order of the source, so the first failing one names the reason. */
  function ExtractRepository(article: Article): Result<TrendingRepository, Skip>
  {
    if article.heading.None? || article.heading.value.link.None? then Failure(NoName)
    else
      var name := RepositoryName(article.heading.value.link.value);
      var stars := LinkCount(article.links, StargazersHref(name));
      var forks := LinkCount(article.links, ForksHref(name));
      if stars.None? then Failure(BadStars)
      else if forks.None? then Failure(BadForks)
      else
        match TodayStars(article.todayStars)
        case Failure(e) => Failure(e)
        case Success(today) =>
          Success(TrendingRepository(name, StrippedText(article.description),
                                     StrippedText(article.language), stars.value, forks.value,
                                     today, BuiltBy(article.contributors)))
  }

  /** An article without a heading, or whose heading has no link, yields no record. */
  lemma ExtractWithoutName(article: Article)
    requires article.heading.None? || article.heading.value.link.None?
    ensures ExtractRepository(article) == Failure(NoName)
  {
  }

  /** Each field of a record is what its rule reads from the article: the name from the heading
      link, the stripped description and language, the counts of the name's own stargazers and
      forks links (0 without the link), the stars gained today and the handles. */
  lemma ExtractedFields(article: Article, repo: TrendingRepository)
    requires ExtractRepository(article) == Success(repo)
    ensures article.heading.Some? && article.heading.value.link.Some?
    ensures repo.name == RepositoryName(article.heading.value.link.value)
    ensures repo.description == StrippedText(article.description)
    ensures repo.language == StrippedText(article.language)
    ensures LinkCount(article.links, StargazersHref(repo.name)) == Some(repo.stars)
    ensures LinkCount(article.links, ForksHref(repo.name)) == Some(repo.forks)
    ensures TodayStars(article.todayStars) == Success(repo.todayStars)
    ensures repo.builtBy == BuiltBy(article.contributors)
  {
  }

  /** An article yields a record exactly when it has a heading link, its stargazers and forks
      counts (if any) are numbers, and the first word of its today-stars span (if any) reads as a
      number: without a 'k', digits once every ',' is removed; with a 'k', a plain decimal once
      every 'k' is removed (`"12abc"` and `"1.5"` do not read). The description, the language and
      the "Built by" avatars never drop an entry. */
  lemma ExtractSucceedsIff(article: Article)
    ensures ExtractRepository(article).Success? <==>
              article.heading.Some? && article.heading.value.link.Some? &&
              var name := RepositoryName(article.heading.value.link.value);
              LinkCount(article.links, StargazersHref(name)).Some? &&
              LinkCount(article.links, ForksHref(name)).Some? &&
              TodayStars(article.todayStars).Success?
  {
    if article.heading.Some? && article.heading.value.link.Some? {
      var name := RepositoryName(article.heading.value.link.value);
      ExtractSteps(article, name, LinkCount(article.links, StargazersHref(name)),
                   LinkCount(article.links, ForksHref(name)), TodayStars(article.todayStars),
                   BuiltBy(article.contributors));
    }
  }

  /** The rules are tried in the order of the source, and the first that fails names the reason:
      the stars, then the forks, then the stars gained today. */
  lemma ExtractFailureReason(article: Article)
    requires article.heading.Some? && article.heading.value.link.Some?
    ensures var name := RepositoryName(article.heading.value.link.value);
            var stars := LinkCount(article.links, StargazersHref(name));
            var forks := LinkCount(article.links, ForksHref(name));
            var today := TodayStars(article.todayStars);
            (stars.None? ==> ExtractRepository(article) == Failure(BadStars)) &&
            (stars.Some? && forks.None? ==> ExtractRepository(article) == Failure(BadForks)) &&
            (stars.Some? && forks.Some? && today.Failure? ==>
               ExtractRepository(article) == Failure(today.error))
  {
    var name := RepositoryName(article.heading.value.link.value);
    ExtractSteps(article, name, LinkCount(article.links, StargazersHref(name)),
                 LinkCount(article.links, ForksHref(name)), TodayStars(article.todayStars),
                 BuiltBy(article.contributors));
  }

  /** The description and the language never decide whether an article yields a record, nor any
      other field of it: their absence never drops an entry, and changing them changes only those
      two fields of the record. */
  lemma ExtractIgnoresDescriptionAndLanguage(article: Article, description: Option<string>,
                                             language: Option<string>)
    ensures var other := ExtractRepository(article.(description := description, language := language));
            match ExtractRepository(article)
            case Failure(e) => other == Failure(e)
            case Success(repo) =>
              other == Success(repo.(description := StrippedText(description),
                                     language := StrippedText(language)))
  {
    var changed := article.(description := description, language := language);
    if article.heading.Some? && article.heading.value.link.Some? {
      var name := RepositoryName(article.heading.value.link.value);
      var stars := LinkCount(article.links, StargazersHref(name));
      var forks := LinkCount(article.links, ForksHref(name));
      var today := TodayStars(article.todayStars);
      var builtBy := BuiltBy(article.contributors);
      ExtractSteps(article, name, stars, forks, today, builtBy);
      ExtractSteps(changed, name, stars, forks, today, builtBy);
    }
  }

  /** `ExtractRepository` spelled out for an article with a heading link, given the values its
      rules read. */
  lemma ExtractSteps(article: Article, name: string, stars: Option<nat>, forks: Option<nat>,
                     today: Result<nat, Skip>, builtBy: seq<string>)
    requires article.heading.Some? && article.heading.value.link.Some?
    requires name == RepositoryName(article.heading.value.link.value)
    requires stars == LinkCount(article.links, StargazersHref(name))
    requires forks == LinkCount(article.links, ForksHref(name))
    requires today == TodayStars(article.todayStars)
    requires builtBy == BuiltBy(article.contributors)
    ensures ExtractRepository(article)
         == if stars.None? then Failure(BadStars)
            else if forks.None? then Failure(BadForks)
            else if today.Failure? then Failure(today.error)
            else Success(TrendingRepository(name, StrippedText(article.description),
                                            StrippedText(article.language), stars.value,
                                            forks.value, today.value, builtBy))
  {
  }

  /** An article whose heading link is blank still yields a record, with the empty name, when
      nothing else in it fails: the record's name can be empty. */
  lemma ExtractKeepsBlankName(article: Article, text: string)
    requires article.heading == Some(Heading(Some(text))) && AllSpace(text)
    requires forall i :: 0 <= i < |article.links| ==>
               article.links[i].href != "//stargazers" && article.links[i].href != "//forks"
    requires article.todayStars.None?
    ensures ExtractRepository(article).Success? && ExtractRepository(article).value.name == []
  {
    RepositoryNameBlank(text);
    assert StargazersHref([]) == "//stargazers" && ForksHref([]) == "//forks";
    LinkCountAbsent(article.links, "//stargazers");
    LinkCountAbsent(article.links, "//forks");
    TodayStarsRule(article.todayStars);
    ExtractSteps(article, [], Some(0), Some(0), Success(0), BuiltBy(article.contributors));
  }

  /** A stargazers link whose text is not a number drops the entry instead of counting 0 stars. */
  lemma ExtractRejectsBadStars(article: Article, i: nat)
    requires article.heading.Some? && article.heading.value.link.Some?
    requires i < |article.links|
    requires article.links[i].href == StargazersHref(RepositoryName(article.heading.value.link.value))
    requires forall j :: 0 <= j < i ==> article.links[j].href != article.links[i].href
    requires ParseCount(article.links[i].text).None?
    ensures ExtractRepository(article) == Failure(BadStars)
  {
    LinkCountRule(article.links, article.links[i].href, i);
  }

  /** The loop body of the source, with the "Built by" loop inside it. */
  method ParseArticle(article: Article) returns (r: Result<TrendingRepository, Skip>)
    ensures r == ExtractRepository(article)
  {
    var titleTag := article.heading;
    if titleTag.None? || titleTag.value.link.None? {
      return Failure(NoName);
    }
    var name := RepositoryName(titleTag.value.link.value);
    var description := StrippedText(article.description);
    var language := StrippedText(article.language);
    var stars := LinkCount(article.links, StargazersHref(name));
    if stars.None? {
      return Failure(BadStars);
    }
    var forks := LinkCount(article.links, ForksHref(name));
    if forks.None? {
      return Failure(BadForks);
    }
    var builtBy := CollectBuiltBy(article.contributors);
    var today := TodayStars(article.todayStars);
    if today.Failure? {
      return Failure(today.error);
    }
    r := Success(TrendingRepository(name, description, language, stars.value, forks.value,
                                    today.value, builtBy));
  }

  // ---------------------------------------------------------------------------------------------
  // The page

  /** `f` applied to each element, in order. */
  function MapSeq<A, B>(f: A -> B, s: seq<A>): (r: seq<B>)
    ensures |r| == |s|
    ensures forall i :: 0 <= i < |s| ==> r[i] == f(s[i])
  {
    seq(|s|, i requires 0 <= i < |s| => f(s[i]))
  }

  lemma MapSeqAppend<A, B>(f: A -> B, a: seq<A>, b: seq<A>)
    ensures MapSeq(f, a + b) == MapSeq(f, a) + MapSeq(f, b)
  {
    var r, r' := MapSeq(f, a + b), MapSeq(f, a) + MapSeq(f, b);
    forall i | 0 <= i < |r| ensures r[i] == r'[i] {
      if i < |a| {
        assert (a + b)[i] == a[i];
      } else {
        assert (a + b)[i] == b[i - |a|];
      }
    }
  }

  /** The outcome of each article of a page, in page order. */
  function Outcomes(articles: seq<Article>): (outcomes: seq<Result<TrendingRepository, Skip>>)
    ensures |outcomes| == |articles|
    ensures forall i :: 0 <= i < |articles| ==> outcomes[i] == ExtractRepository(articles[i])
  {
    MapSeq(ExtractRepository, articles)
  }

  /** The records among the outcomes, in order: each record kept, each skip dropped. */
  function Records(outcomes: seq<Result<TrendingRepository, Skip>>): (repos: seq<TrendingRepository>)
    ensures |repos| <= |outcomes|
  {
    if outcomes == [] then []
    else
      var last := outcomes[|outcomes| - 1];
      Records(outcomes[..|outcomes| - 1]) + (if last.Success? then [last.value] else [])
  }

  /** One more outcome adds its record, if it is one. */
  lemma RecordsStep(outcomes: seq<Result<TrendingRepository, Skip>>, k: nat)
    requires k < |outcomes|
    ensures Records(outcomes[..k + 1])
         == Records(outcomes[..k]) + (if outcomes[k].Success? then [outcomes[k].value] else [])
  {
    assert outcomes[..k + 1][..k] == outcomes[..k];
  }

  /** The records of a page: one per article that yields one, in page order. */
  function Assemble(articles: seq<Article>): (repos: seq<TrendingRepository>)
    ensures |repos| <= |articles|
  {
    Records(Outcomes(articles))
  }

  /** The records of two runs of outcomes are those of the first run, then those of the second. */
  lemma {:induction false} RecordsAppend(a: seq<Result<TrendingRepository, Skip>>,
                                         b: seq<Result<TrendingRepository, Skip>>)
    ensures Records(a + b) == Records(a) + Records(b)
  {
    if b == [] {
      assert a + b == a;
    } else {
      assert (a + b)[..|a + b| - 1] == a + b[..|b| - 1];
      RecordsAppend(a, b[..|b| - 1]);
    }
  }

  lemma OutcomesAppend(a: seq<Article>, b: seq<Article>)
    ensures Outcomes(a + b) == Outcomes(a) + Outcomes(b)
  {
    MapSeqAppend(ExtractRepository, a, b);
  }

  /** The records of two runs of articles are those of the first run, then those of the second. */
  lemma AssembleAppend(a: seq<Article>, b: seq<Article>)
    ensures Assemble(a + b) == Assemble(a) + Assemble(b)
  {
    OutcomesAppend(a, b);
    RecordsAppend(Outcomes(a), Outcomes(b));
  }

  /** An article that fails leaves the records of the articles before and after it untouched:
      one malformed entry never stops the batch. */
  lemma AssembleSkipsFailure(before: seq<Article>, article: Article, after: seq<Article>)
    requires ExtractRepository(article).Failure?
    ensures Assemble(before + [article] + after) == Assemble(before) + Assemble(after)
  {
    AssembleAppend(before + [article], after);
    AssembleAppend(before, [article]);
    assert Outcomes([article]) == [ExtractRepository(article)];
    assert Outcomes([article])[..0] == [];
  }

  /** An article that yields a record contributes exactly that record, in its place. */
  lemma AssembleKeepsSuccess(before: seq<Article>, article: Article, after: seq<Article>)
    requires ExtractRepository(article).Success?
    ensures Assemble(before + [article] + after)
         == Assemble(before) + [ExtractRepository(article).value] + Assemble(after)
  {
    AssembleAppend(before + [article], after);
    AssembleAppend(before, [article]);
    var e := ExtractRepository(article);
    assert Outcomes([article]) == [e];
    assert [e][..0] == [];
    assert Records([e]) == [e.value];
  }

  /** The positions of the outcomes that are records, in increasing order. */
  function Sources(outcomes: seq<Result<TrendingRepository, Skip>>): (idx: seq<nat>)
    ensures |idx| == |Records(outcomes)|
    ensures forall k :: 0 <= k < |idx| ==> idx[k] < |outcomes|
  {
    if outcomes == [] then []
    else
      var n := |outcomes| - 1;
      var prev := Sources(outcomes[..n]);
      if outcomes[n].Success? then prev + [n] else prev
  }

  /** The positions that records come from strictly increase: records keep page order and no two
      records come from the same article. */
  lemma {:induction false} SourcesIncrease(outcomes: seq<Result<TrendingRepository, Skip>>)
    ensures forall k, l :: 0 <= k < l < |Sources(outcomes)| ==> Sources(outcomes)[k] < Sources(outcomes)[l]
  {
    if outcomes != [] {
      SourcesIncrease(outcomes[..|outcomes| - 1]);
    }
  }

  /** Each record is the record of the outcome at its source position. */
  lemma {:induction false} SourcesRecords(outcomes: seq<Result<TrendingRepository, Skip>>)
    ensures forall k :: 0 <= k < |Sources(outcomes)| ==>
              outcomes[Sources(outcomes)[k]] == Success(Records(outcomes)[k])
  {
    if outcomes != [] {
      var n := |outcomes| - 1;
      var init := outcomes[..n];
      SourcesRecords(init);
      var prev, idx := Sources(init), Sources(outcomes);
      forall k | 0 <= k < |idx| ensures outcomes[idx[k]] == Success(Records(outcomes)[k]) {
        if k < |prev| {
          assert idx[k] == prev[k] && outcomes[prev[k]] == init[prev[k]];
          assert Records(outcomes)[k] == Records(init)[k];
        }
      }
    }
  }

  /** An outcome has a record in the output exactly when it is a record. */
  lemma {:induction false} SourcesComplete(outcomes: seq<Result<TrendingRepository, Skip>>)
    ensures forall i :: 0 <= i < |outcomes| ==> (i in Sources(outcomes) <==> outcomes[i].Success?)
  {
    if outcomes != [] {
      var n := |outcomes| - 1;
      var init := outcomes[..n];
      SourcesComplete(init);
      var prev := Sources(init);
      assert n !in prev by {
        forall k | 0 <= k < |prev| ensures prev[k] != n { }
      }
      forall i | 0 <= i < |outcomes| ensures i in Sources(outcomes) <==> outcomes[i].Success? {
        if i < n {
          assert outcomes[i] == init[i];
        }
      }
    }
  }

  /** The records of a page match, one to one and in order, the articles that yield a record:
      the k-th record is the record of the article at position `Sources(..)[k]`, these positions
      increase, and every article that yields a record has its position among them. */
  lemma AssembleTrace(articles: seq<Article>)
    ensures var idx := Sources(Outcomes(articles));
            |idx| == |Assemble(articles)| &&
            (forall k :: 0 <= k < |idx| ==>
               idx[k] < |articles| && ExtractRepository(articles[idx[k]]) == Success(Assemble(articles)[k])) &&
            (forall k, l :: 0 <= k < l < |idx| ==> idx[k] < idx[l]) &&
            (forall i :: 0 <= i < |articles| ==> (i in idx <==> ExtractRepository(articles[i]).Success?))
  {
    var outcomes := Outcomes(articles);
    SourcesIncrease(outcomes);
    SourcesRecords(outcomes);
    SourcesComplete(outcomes);
  }

  /** `get_trending_repositories`: the page for the language is fetched and split into articles by
      `fetch` (standing for the HTTP request, `raise_for_status` and the HTML parser). A failed fetch
      is the one error the caller sees; otherwise the loop keeps the record of every article that
      yields one, skips the others and goes on with the next. */
  method GetTrendingRepositories(language: Option<string>,
                                 fetch: string -> Result<seq<Article>, string>)
    returns (r: Result<seq<TrendingRepository>, string>)
    ensures fetch(TrendingUrl(language)).Failure? ==>
              r == Failure(FetchFailed + fetch(TrendingUrl(language)).error)
    ensures fetch(TrendingUrl(language)).Success? ==>
              r == Success(Assemble(fetch(TrendingUrl(language)).value))
  {
    var trendingUrl := TrendingUrl(language);
    var response := fetch(trendingUrl);
    if response.Failure? {
      return Failure(FetchFailed + response.error);
    }
    var repositoriesData := CollectRecords(response.value);
    return Success(repositoriesData);
  }

  /** The loop over the articles: each article's record is appended, an article that yields none
      is skipped (`continue`) and the loop goes on with the next. */
  method CollectRecords(repoArticles: seq<Article>) returns (repositoriesData: seq<TrendingRepository>)
    ensures repositoriesData == Assemble(repoArticles)
  {
    ghost var outcomes := Outcomes(repoArticles);
    repositoriesData := [];
    for rank := 0 to |repoArticles|
      invariant repositoriesData == Records(outcomes[..rank])
    {
      var entry := ParseArticle(repoArticles[rank]);
      RecordsStep(outcomes, rank);
      assert entry == outcomes[rank];
      if entry.Failure? {
        continue;
      }
      repositoriesData := repositoriesData + [entry.value];
    }
    assert outcomes[..|repoArticles|] == outcomes;
  }

  /** The detail of the HTTP 500 raised when the page cannot be fetched. */
  const FetchFailed: string := "Failed to fetch GitHub trending page: "
}

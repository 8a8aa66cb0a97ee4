# github-trending, modelled in Dafny

A model of the scraper at the heart of `main.py` of github-trending. `get_trending_repositories`
fetches `https://github.com/trending`, optionally followed by `/<language>` in lower case. It walks
the `<article class="Box-row">` entries of the page and turns each into a `TrendingRepository`
record. The record holds:

- the `owner/repo` name;
- the description and the language;
- the star and fork counts;
- the stars gained today;
- the "Built by" contributor handles.

An entry without a heading link is skipped. An entry whose numbers do not parse is swallowed by a
catch-all handler, and the loop goes on. Only a failed fetch reaches the caller, as an HTTP 500
error.

Files:

- `wrappers.dfy`: `Option` and `Result`.
- `text.dfy`: Python's `str.strip`, `str.split(sep)`, `str.split()`, `str.replace(c, '')` and
  `str.lower`, on ASCII text.
- `numbers.dfy`: Python's `int()` on digit strings, `float()` on plain decimal literals (kept
  exact), and the rendering of counts with thousands separators.
- `trending.dfy`: the record, the URL, and the per-field extraction rules. It also holds the loop
  body (`ParseArticle`, which contains the "Built by" loop `CollectBuiltBy`) and the page loop
  (`CollectRecords`, called by `GetTrendingRepositories`).

The HTML itself is not parsed. An `Article` is the record of what the scraper's `find` calls
return on one entry:

- the heading and the text of its first link;
- the description and language texts;
- every `<a>` with its `href` and text, in document order;
- the `alt` texts of the contributor avatars;
- the today-stars text.

The fetch together with BeautifulSoup's `find_all("article")` is a function parameter of
`GetTrendingRepositories`. It maps a URL to the page's articles or to an error message.

Where a reader might expect otherwise, the model follows the code:

- **The name can be empty.** A blank heading link yields a record whose name is empty
  (`ExtractKeepsBlankName`).
- **Every '/' splits the name.** The name is split on every '/', not only the first, and only the
  first two pieces are kept: `a/b/c` becomes `a/b` (`RepositoryNameDropsExtraPieces`).
- **The pieces are stripped after the split.** The owner and the repository are each stripped
  after splitting.
- **Counts are never negative, but only in the model.** Stars, forks and today's stars are natural
  numbers here only because the model reads digit strings. Python's `int()` would also accept a
  sign (see "Left out").

## Model

Functions that only compute are listed with the lemmas that state what they mean.

| member | source | states |
|---|---|---|
| `Trending.TrendingUrl` | main.py:105-107 | The URL starts with the trending base. It is exactly the base when the language is absent or empty; otherwise the base, then '/', then a text with no upper-case letter that equals the language ignoring case. |
| `Trending.UrlIgnoresCase` | main.py:105-107 | Two languages give the same URL exactly when they are equal ignoring letter case; the empty filter matches only itself. |
| `Text.Lower` | main.py:107 | `lower()` keeps the length and maps each character through the ASCII lower-casing; see `Text.LowerHasNoUpper` and `Text.LowerEqualIff`. |
| `Text.LowerHasNoUpper` | main.py:107 | The lower-cased language has no upper-case letter, and lower-casing it again changes nothing. |
| `Text.LowerEqualIff` | main.py:107 | Two texts lower-case to the same text exactly when they are equal ignoring case. |
| `Text.Strip` | main.py:127 | Stripping never lengthens a text. The result neither starts nor ends with whitespace. It keeps every non-whitespace character and adds none. |
| `Text.StripInfix` | main.py:127 | The result of `strip()` is the infix of the text with only whitespace before and after it; together with its ends being non-whitespace this determines it. |
| `Text.StripPadded` | main.py:141 | Stripping a text padded with whitespace on both sides returns the text, when the text itself neither starts nor ends with whitespace. |
| `Text.StripIdempotent` | main.py:133-135 | Stripping an already stripped text changes nothing. |
| `Text.RemoveChar` | main.py:127 | `replace(c, '')` never lengthens the text and leaves no `c`; see `Text.RemoveCharMembers` and `Text.RemoveCharAppend` for what it keeps and in which order. |
| `Text.RemoveCharMembers` | main.py:127 | Removing every occurrence of a character keeps exactly the other characters. |
| `Text.RemoveCharAppend` | main.py:127 | Removing a character from a concatenation removes it from each part, keeping the order. |
| `Text.Split` | main.py:129 | Splitting on '/' gives at least one piece. No piece holds a '/'. The pieces joined with '/' give back the text. |
| `Text.SplitJoin` | main.py:129 | Splitting the join of pieces that hold no '/' gives back those pieces. |
| `Trending.Squeeze` | main.py:127 | Removing every newline and every space leaves neither; `Trending.SqueezeAppend` and `Trending.SqueezeWord` say it works piecewise and leaves whitespace-free text alone. |
| `Trending.SqueezeAppend` | main.py:127 | Squeezing a concatenation squeezes each part. |
| `Trending.SqueezeWord` | main.py:127 | Text without whitespace is left unchanged. |
| `Trending.CleanTitle` | main.py:127 | The cleaned heading text holds no space and no newline. |
| `Trending.CleanTitleStripped` | main.py:127 | The cleaned heading text neither starts nor ends with whitespace. |
| `Trending.RepositoryName` | main.py:125-135 | The name rule; its meaning is stated by `Trending.RepositoryNameShape`, `Trending.RepositoryNameWhole`, `Trending.RepositoryNameFirstTwo`, `Trending.RepositoryNameTwoPieces`, `Trending.RepositoryNameDropsExtraPieces`, `Trending.RepositoryNameOfRendered` and `Trending.RepositoryNameBlank`. |
| `Trending.RepositoryNameShape` | main.py:125-135 | The name holds no space and no newline, and splits on '/' into at most two pieces. |
| `Trending.RepositoryNameWhole` | main.py:134-135 | When the cleaned text has no '/', the name is the cleaned text itself: the final `strip()` changes nothing. |
| `Trending.RepositoryNameOfRendered` | main.py:127-133 | A heading rendered as `owner / repo`, with any whitespace around the owner, the slash and the repository, gives exactly `owner/repo`. |
| `Trending.RepositoryNameDropsExtraPieces` | main.py:129-133 | A heading whose cleaned text is `a/b/` followed by anything (further pieces included) gives exactly `a/b` when `a` and `b` hold no whitespace, either of them possibly empty: only the first two pieces are kept. |
| `Trending.RepositoryNameFirstTwo` | main.py:129-133 | For any pieces, a cleaned text `a/b/` followed by anything names `strip(a)/strip(b)`: `/repo/x` names `/repo`, and a tab before the first '/' is stripped away. |
| `Trending.RepositoryNameTwoPieces` | main.py:129-133 | For any pieces, a cleaned text `a/b` names `strip(a)/strip(b)`. |
| `Trending.RepositoryNameOfPath` | main.py:129-133 | `a/b/c…` written without whitespace gives `a/b`, either piece possibly empty (`/b/c` gives `/b`, `a//c` gives `a/`). |
| `Trending.RepositoryNameBlank` | main.py:127-135 | A blank heading text gives the empty name. |
| `Trending.FindLink` | main.py:149-150 | `find("a", href=…)`; its meaning is stated by `Trending.FindLinkFirst`. |
| `Trending.FindLinkFirst` | main.py:149-150 | The link lookup finds nothing exactly when no link has the `href`. Otherwise it returns the text of the first link that has it. |
| `Trending.ParseCount` | main.py:151-152 | The count text rule; see `Trending.ParseCountChars` and `Trending.ParseCountRendered`. |
| `Trending.ParseCountChars` | main.py:151-152 | A count text that parses holds only digits, commas and whitespace. |
| `Trending.ParseCountRendered` | main.py:151-152 | A count printed with thousands separators and padded with whitespace parses back to the number. |
| `Numbers.WithThousandsDigits` | main.py:151-152 | Removing the commas from a thousands-separated rendering gives the digits of the same number. |
| `Numbers.ParseInt` | main.py:151-152 | `int()` succeeds exactly on a non-empty string of digits. |
| `Numbers.ShowNat` | main.py:151-152 | The decimal rendering of a number is non-empty, all digits, has no leading zero, and parses back to the number. |
| `Trending.StargazersHref` | main.py:149 | The `href` of the stargazers link, `/<name>/stargazers`; `Trending.LinkCountRule` and `Trending.ExtractedFields` state how the stars count reads it. |
| `Trending.ForksHref` | main.py:150 | The `href` of the forks link, `/<name>/forks`; `Trending.LinkCountRule` and `Trending.ExtractedFields` state how the forks count reads it. |
| `Trending.LinkCount` | main.py:149-152 | The stars or forks rule; see `Trending.LinkCountRule` and `Trending.LinkCountAbsent`. |
| `Trending.LinkCountRule` | main.py:149-152 | With a link to the `href`, the count is what the first such link's text parses to; a text that is not a number is a failure, never 0. |
| `Trending.LinkCountAbsent` | main.py:151-152 | Without a link to the `href`, the count is 0. |
| `Trending.TodayStars` | main.py:163-170 | The today-stars rule; see `Trending.TodayStarsRule` and the rendered-text lemmas below. |
| `Trending.TodayStarsRule` | main.py:163-170 | Without the span, today's stars are 0. Otherwise the entry fails only for one of two reasons: no first word, which happens exactly when the span's text is blank, or a first word that is not a number. |
| `Trending.TodayStarsToken` | main.py:167-170 | A first word that does not parse fails with the "bad today-stars" reason only. |
| `Text.Words` | main.py:166 | `split()`; its meaning is stated by `Text.WordsEmpty`, `Text.WordsAreWords`, `Text.WordsPrefix` and `Text.FirstWordOfPadded`. |
| `Text.WordsEmpty` | main.py:166 | A text has no words exactly when it is all whitespace. |
| `Text.WordsAreWords` | main.py:166 | Every word is non-empty and free of whitespace. |
| `Text.WordsPrefix` | main.py:166 | A word followed by whitespace or nothing is the first of the words, and the rest are the words of what follows. |
| `Text.FirstWordOfPadded` | main.py:166 | Stripping and splitting `blank + word + rest` gives `word` as the first word, when `rest` is empty or starts with whitespace. |
| `Trending.TodayStarsCount` | main.py:166-170 | `"1,234 stars today"`, padded with whitespace, gives 1234. |
| `Trending.TodayStarsKilo` | main.py:166-168 | `"whole.frack …"` gives `whole.frac` times 1000, truncated. |
| `Trending.TodayStarsWholeKilo` | main.py:167-168 | `"3k …"` gives 3000. |
| `Numbers.ParseDecimal` | main.py:168 | `float()` on a plain decimal literal; a success has fewer decimals than characters. `Numbers.ParseDecimalAccepts` says which texts it accepts, and `Numbers.ParseDecimalDigits` and `Numbers.ParseDecimalFraction` give the value of each. |
| `Numbers.ParseDecimalAccepts` | main.py:168 | `float()` succeeds exactly on a non-empty digit string, or on digit strings either side of one '.' with at least one digit in all; everything else is a `ValueError`. |
| `Numbers.ParseDecimalDigits` | main.py:168 | `float(w)` of any non-empty digit string, leading zeros included, is exactly its value. |
| `Numbers.ParseDecimalFraction` | main.py:168 | `float("w.frac")` of any digit strings with at least one digit (`.5`, `007.5`, `2.`) is exactly `w + frac / 10^len(frac)`. |
| `Numbers.ParseDecimalWhole` | main.py:168 | `float(str(n))` is exactly n. |
| `Numbers.Thousandths` | main.py:168 | `int(x * 1000)` is the largest whole number r with `r <= x * 1000`. |
| `Numbers.ThousandthsExact` | main.py:168 | With at most three decimals nothing is truncated: `2.5` gives 2500. |
| `Trending.Handle` | main.py:159-161 | The handle of one avatar: its `alt` text without the leading '@', when the text starts with '@'; its meaning is stated by `Trending.HandlesMember`. |
| `Trending.Handles` | main.py:158-161 | At most one handle per avatar; see `Trending.HandlesMember` and `Trending.HandlesAppend`. |
| `Trending.HandlesMember` | main.py:155-161 | A handle is listed exactly when some avatar's `alt` text is that handle behind an '@'. |
| `Trending.HandlesAppend` | main.py:158-161 | The handles of two runs of avatars are those of the first run, then those of the second, in document order. |
| `Trending.BuiltBy` | main.py:155-161 | No handles without the "Built by" span, otherwise the handles of its avatars; the loop `Trending.CollectBuiltBy` is proved equal to it. |
| `Trending.CollectBuiltBy` | main.py:155-161 | The "Built by" loop returns the handles of the avatars: none without the span; otherwise each '@'-prefixed `alt` text without its '@', in order, duplicates kept. |
| `Trending.StrippedText` | main.py:140-145 | The description or language: absent without its tag, otherwise the tag's text stripped; used in `Trending.ExtractedFields`. |
| `Trending.ExtractRepository` | main.py:123-181 | The loop body as a function; its meaning is stated by `Trending.ExtractSucceedsIff`, `Trending.ExtractFailureReason`, `Trending.ExtractedFields` and the lemmas below. |
| `Trending.ExtractWithoutName` | main.py:125-137 | An entry without a heading, or whose heading has no link, yields no record. |
| `Trending.ExtractSucceedsIff` | main.py:125-181 | An entry yields a record exactly when it has a heading link, its stargazers and forks counts (if any) are numbers, and the first whitespace-separated word of its today-stars text (if any) reads as a number: without a 'k', digits once every ',' is removed; with a 'k', a plain decimal once every 'k' is removed. A first word such as `12abc` or `1.5` drops the entry. |
| `Trending.ExtractFailureReason` | main.py:149-170 | The rules are tried in the source's order and the first that fails names the reason: stars, then forks, then today's stars. |
| `Trending.ExtractedFields` | main.py:125-181 | Each field of a record is what its rule reads from the entry: the name, the stripped description and language, the stargazers and forks counts for that name (0 without the link), today's stars, and the handles. |
| `Trending.ExtractIgnoresDescriptionAndLanguage` | main.py:139-145 | Changing the description or the language never changes whether an entry yields a record. It changes only those two fields of the record. |
| `Trending.ExtractRejectsBadStars` | main.py:149-151 | A first stargazers link whose text is not a number makes the entry fail instead of counting 0 stars. |
| `Trending.ExtractKeepsBlankName` | main.py:125-181 | An entry with a blank heading link and no counts still yields a record, with the empty name. |
| `Trending.ParseArticle` | main.py:123-181 | The loop body returns the record of the entry, or the reason it yields none. |
| `Trending.Outcomes` | main.py:122-186 | There is one outcome per entry, in page order, and each is that entry's record or skip reason. |
| `Trending.Records` | main.py:117-187 | The kept records, one per successful outcome at most; `Trending.RecordsAppend` and `Trending.AssembleTrace` state which and in what order. |
| `Trending.RecordsAppend` | main.py:117-187 | The records of two runs of outcomes are those of the first run, then those of the second. |
| `Trending.Assemble` | main.py:117-187 | The records of a page: never more than its entries; see the lemmas below. |
| `Trending.AssembleAppend` | main.py:117-187 | The records of two runs of entries are the records of the first run, then those of the second. |
| `Trending.AssembleSkipsFailure` | main.py:183-186 | An entry that fails leaves the records of the entries before and after it untouched. |
| `Trending.AssembleKeepsSuccess` | main.py:172-181 | An entry that yields a record contributes exactly that record, in its place. |
| `Trending.AssembleTrace` | main.py:117-187 | The records match, one to one and in page order, the entries that yield a record. The k-th record comes from the k-th such entry, the positions increase, and every entry that yields a record is among them. |
| `Trending.CollectRecords` | main.py:117-187 | The page loop returns the records of the entries, skipping each entry that yields none. |
| `Trending.GetTrendingRepositories` | main.py:100-115 | A failed fetch is the one error returned, with the source's message prefix. Otherwise the result is the records of the fetched entries. |

## Left out

- The HTTP request, `raise_for_status` and the User-Agent header (main.py:22-25, 111-112). They are I/O. A fetch function parameter stands in for them, together with the HTML parser.
- The model does not parse HTML with BeautifulSoup (main.py:113, 120, 125, 140, 144, 149-150, 156-158, 164). An `Article` records what each `find` returns.
- The FastAPI endpoints, the click CLI, JSON output and pydantic validation (main.py:27-98). They are framework wiring around `get_trending_repositories`.
- Logging, and the `prettify` in the handler's log line (main.py:13-20, 184). They have no effect on the result.
- `Numbers.Thousandths`: the value is computed exactly. The source first converts the number to a binary float, which keeps only about 16 significant digits, and then multiplies by 1000 in floating point. Short decimals can come out one unit low after truncation; longer ones can be off by more.
- `Numbers.Thousandths`: a number above about 1.8e305 (such as `2` followed by 305 zeros and `k`) overflows to infinity in the source. Either `float()` itself overflows (above about 1.8e308) or the product `x * 1000` does. `int()` of infinity raises `OverflowError`, and the catch-all handler (main.py:183-186) drops the entry. The model instead yields a record with the exact value.
- `Numbers.ParseDecimal`: does not model exponents, `inf`, `nan`, signs, underscores, surrounding whitespace or non-ASCII digits (such as `٢.٥`). `float()` also accepts these.
- `Numbers.ParseInt`: reads ASCII digits only. Python's `int()` also accepts a sign, underscores between digits, surrounding whitespace and non-ASCII digits. So the model never yields a negative count.
- `Numbers.ParseInt`: has no length limit. Since Python 3.11, `int()` raises `ValueError` on a text of more than 4300 digits (the default `int_max_str_digits`). Such a count (main.py:151, 152) or today-stars text (main.py:170) drops the entry in the source, while the model yields a record.
- `Text.Strip`: treats as whitespace only the ASCII characters that Python's `str.isspace()` accepts. Non-ASCII whitespace is not modelled.
- `Text.Lower`: lower-cases only ASCII letters. Unicode case mapping is not modelled.
- The loop's `rank` from `enumerate` (main.py:122) only steps the loop; no field of a record uses it, so no record carries a rank.

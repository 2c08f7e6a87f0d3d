# funny_newstitles in Dafny

funny_newstitles makes up news headlines with a word-level Markov chain
of order two. It also scrapes real headlines from news-site RSS feeds to
use as its corpus. This project models the computational core of both
scripts and proves properties of that model.

- `headline_generator.py`:
  - The corpus tokenizer (`generate_word_pool`) appends "." to every
    headline and splits it on whitespace.
  - The trigram index (`generate_dictionary`) maps each pair of adjacent
    tokens to the tokens seen after it.
  - The constrained random walk (`generate_headline`) starts from a key
    whose first token is capitalised. It stops at a token ending in ".",
    at a key with no entry, or after `headline_length` steps.
  - The acceptance loop of `main` tries once per input headline. It stops
    the whole run at the first empty, copied or too short headline.
- `scraper.py`:
  - The source-URL collection (`add_domain`, `get_domain_list`) keeps
    each source once, in order of first occurrence.
  - The title filter of `retrieve_headlines` keeps the text before an
    en dash ("–") of delimited titles. It drops invalid and repeated plain
    titles.

## Layout

| file | module | models |
|---|---|---|
| `wrappers.dfy` | `Wrappers` | `Option`, for Python's `None` |
| `seqs.dfy` | `Seqs` | `Distinct`: no element repeats |
| `text.dfy` | `Text` | `str.split()`, `str.strip()`, `" ".join`, `s[:-1]` and `str.isupper()` on one character |
| `word_pool.dfy` | `WordPool` | `generate_word_pool` |
| `trigram_index.dfy` | `TrigramIndex` | `generate_dictionary` |
| `generator.dfy` | `Generator` | `EOS` and `generate_headline` |
| `acceptance.dfy` | `Acceptance` | the acceptance loop of `main` and the whole pipeline |
| `scraper.dfy` | `Scraper` | `add_domain`, `get_domain_list` and the title loop of `retrieve_headlines` |

Each loop of the source is a `method` with a `while` or `for` loop, proved
equal to a recursive specification function: `GenerateWordPool` to `Pool`,
`GenerateDictionary` to `Dictionary`, `WalkLoop` to `Walk` (and so
`GenerateHeadline` to `Generate` and `Draws`), `SelectHeadlines` to
`Selected`, `GetDomainList` to `Domains` and `RetrieveHeadlines` to
`Titles`. The list comprehension of `generate_headline` is the recursive
function `Capitalized`. The properties are lemmas about those functions.

- **Randomness.** `random.choice` is an oracle `o`: `o(d, n)` is the index
  that draw number `d` picks from a list of length `n`. The only assumption
  is that the index is in range, so every property holds for every
  sequence of random draws.
- **The dictionary.** It is a value holding its keys in insertion order
  next to the map. Python dicts keep that order, and it decides which key
  a draw over `word_dict.keys()` picks.
- **The acceptance loop.** `Selected` and `Attempts` take the generator
  as two functions of the number of its first draw: `gen(d)` is the
  headline and `cost(d)` the number of draws. `Attempt` and `AttemptDraws`
  are those of `generate_headline`, and `Generates` ties a pair of
  functions to them.
- **The domain list.** The list that `add_domain` appends to in place is
  a `DomainList` object whose `items` field the method reassigns.

## Model

| member | source | states |
|---|---|---|
| Text.IsSpace | headline_generator.py:31 | the separator `" "` is whitespace, while "." and the en dash are not, so splitting and stripping never remove them |
| Text.IsUpper | headline_generator.py:51 | an upper-case character is neither whitespace nor "." |
| Text.Split | headline_generator.py:31 | every token `str.split()` produces is non-empty and free of whitespace |
| Text.SplitKeepsCharacters | headline_generator.py:31 | splitting loses only whitespace: the tokens put back together are the non-whitespace characters of the input |
| Text.SplitLastToken | headline_generator.py:30-31 | when the input ends with a non-whitespace character (the appended "."), there is a last token and it ends with that character |
| Text.JoinSpaces | headline_generator.py:74 | the join starts with the first token, and with two or more tokens a single space follows it |
| Text.SplitJoinSpaces | headline_generator.py:74 | splitting a single-space join of whitespace-free non-empty tokens gives back the same tokens |
| Text.JoinSpacesLength | headline_generator.py:74 | a join is as long as its tokens plus one separator between each two |
| Text.JoinSpacesLast | headline_generator.py:74-75 | a join ends with the last character of its last token |
| Text.DropLast | headline_generator.py:75 | `s[:-1]` followed by the last character of `s` is `s`, and the empty string stays empty |
| Text.Strip | scraper.py:96 | the stripped string is a slice of the input with only whitespace cut on either side, and it neither starts nor ends with whitespace |
| WordPool.HeadlineTokens | headline_generator.py:30-31 | a headline with "." appended yields at least one token, all whitespace-free words, and the last one ends with "." |
| WordPool.GenerateWordPool | headline_generator.py:27-33 | the pool is `Pool(headlines)`: each headline's tokens in input order, every entry a whitespace-free word |
| WordPool.PoolTokensAreWords | headline_generator.py:27-33 | every pool entry is a non-empty, whitespace-free token |
| WordPool.PoolAppend | headline_generator.py:29-32 | tokenizing two batches of headlines gives the first batch's pool followed by the second's |
| WordPool.PoolLength | headline_generator.py:29-32 | every headline contributes at least one token; the pool is empty exactly when the corpus is |
| WordPool.PoolEndsWithTerminator | headline_generator.py:30-32 | the pool of each non-empty prefix of the corpus ends with a token ending in "." and is a prefix of the whole pool |
| WordPool.PoolCharacters | headline_generator.py:30-32 | the characters of the pool are each headline's non-whitespace characters followed by "." |
| TrigramIndex.Insert | headline_generator.py:43-46 | appending a follower keeps the table valid: keys distinct, key order matching the map, no empty list |
| TrigramIndex.GenerateDictionary | headline_generator.py:36-47 | the loop builds `Dictionary(words)` and stops when fewer than three tokens remain; fewer than three tokens in all give an empty dictionary |
| TrigramIndex.DictionaryFollowers | headline_generator.py:38-46 | the dictionary is valid; it has a key exactly when that key has a follower in the pool, and the key's list is every such follower in pool order, repeats included |
| TrigramIndex.DictionaryHasTrigram | headline_generator.py:40-46 | every window of three tokens is recorded: its third token is among the followers of its first two |
| TrigramIndex.FollowersUpToFromPool | headline_generator.py:40-46 | every recorded follower is a token of the pool |
| TrigramIndex.DictionaryKeysAdjacent | headline_generator.py:40-43 | every key is a pair of adjacent pool tokens that starts a full window |
| TrigramIndex.InsertStoresOne | headline_generator.py:44-46 | each window stores exactly one more follower |
| TrigramIndex.DictionaryTotal | headline_generator.py:38-46 | the dictionary stores `max(0, len(words) - 2)` followers in all |
| Generator.EndsWithTerminator | headline_generator.py:59 | `w[-1] in EOS`, with `EOS = ["."]`, holds exactly when the token is non-empty and ends with "." |
| Generator.Pick | headline_generator.py:53 | `choice` returns an element of the list |
| Generator.Capitalized | headline_generator.py:51 | there are never more candidate start keys than keys |
| Generator.CapitalizedMembers | headline_generator.py:51 | the candidate start keys are exactly the keys whose first token starts with an upper-case character |
| Generator.Walk | headline_generator.py:64-73 | the walk appends at most `headline_length` tokens |
| Generator.WalkLoop | headline_generator.py:62-73 | the loop leaves the start key's two tokens followed by `Walk` in `word_list`, and makes one draw per appended token |
| Generator.GenerateHeadline | headline_generator.py:50-75 | the procedure returns `Generate` for its first draw and reports as used the draws `Draws` counts |
| Generator.GenerateFails | headline_generator.py:51-60 | there is no candidate exactly when no key is capitalised; an attempt returns `None` exactly when no key is capitalised or the drawn start key has a token ending in the terminator |
| Generator.WalkDrawn | headline_generator.py:64-73 | each token the walk appends is the follower that the next draw picks from the list of the two tokens before it |
| Generator.WalkStops | headline_generator.py:64-71 | the walk takes at most `headline_length` steps and never continues past a terminator; it ends at a terminator, when the budget is used up, or at a key with no entry |
| Generator.TokensShape | headline_generator.py:50-73 | a successful attempt starts with the drawn capitalised key, neither of whose tokens ends in ".", and then follows the table draw by draw until a proper stop |
| Generator.TokensFollowTable | headline_generator.py:66-69 | every appended token is a recorded follower of the two tokens before it |
| Generator.GenerateText | headline_generator.py:74-75 | the headline is the single-space join of the tokens with exactly its last character dropped, whether or not the walk ended at a terminator |
| Generator.TokensAreWords | headline_generator.py:62-69 | on a table of split tokens, every token of the walk is a whitespace-free word |
| Generator.GenerateRetokenizes | headline_generator.py:74-75 | when the walk ends at "." on a table of split tokens, appending "." to the headline and splitting it gives back exactly the walk's tokens |
| Acceptance.Acceptable | headline_generator.py:115-120 | with `headline_length` at most 3 the length check never rejects: a non-empty headline that is not an input is accepted |
| Acceptance.Attempts | headline_generator.py:113-114 | one result per attempt, each attempt drawing where the one before it stopped |
| Acceptance.SelectedAcceptable | headline_generator.py:113-121 | at most one headline per attempt, and every kept headline is non-empty, not an input headline and at least a third of `headline_length` long |
| Acceptance.SelectedAttempts | headline_generator.py:113-121 | the kept headlines are the acceptable attempts from the first one on, in order; when fewer than the number of inputs are kept, the attempt after them was rejected |
| Acceptance.SelectedStep | headline_generator.py:114-121 | one turn of the loop: an acceptable attempt is appended to the result, any other attempt ends the loop with the result as it is |
| Acceptance.GenerateAt | headline_generator.py:114 | the call of `generate_headline` returns the headline and the draw count of the generator that `gen` and `cost` describe |
| Acceptance.SelectHeadlines | headline_generator.py:112-121 | the loop's result is `Selected` of one attempt per input headline, starting at the first draw |
| Acceptance.DictionaryWellFormed | headline_generator.py:110-111 | the dictionary built from a word pool has non-empty whitespace-free tokens and no empty list, so the generator can walk it |
| Acceptance.Run | headline_generator.py:110-121 | the whole pipeline yields `Selected` with `generate_headline` on `Dictionary(Pool(headlines))`; when no key is capitalised the result is empty |
| Scraper.DomainList.constructor | scraper.py:48 | a new domain list is empty |
| Scraper.Added | scraper.py:33-35 | the URL is appended only when absent: the old list is a prefix, the URL is present afterwards, nothing else is added, and a duplicate-free list stays duplicate-free |
| Scraper.AddDomain | scraper.py:24-35 | the list object returned is the one given, mutated in place to `Added(old items, url)` |
| Scraper.GetDomainList | scraper.py:38-52 | the result is duplicate-free and holds exactly the `http://` + netloc URLs of the articles |
| Scraper.DomainsDistinct | scraper.py:48-52 | no source URL is listed twice |
| Scraper.DomainsMembers | scraper.py:49-51 | a URL is listed exactly when some article yields it |
| Scraper.DomainsPrefix | scraper.py:49-51 | the list for the first articles is a prefix of the final list |
| Scraper.DomainsOrder | scraper.py:48-52 | sources are in first-occurrence order: a source listed before the one first named by article `j` was named by an article before `j` |
| Scraper.BeforeDelimiter | scraper.py:96 | `split("–")[0]` is the longest prefix without "–"; it is shorter than the title exactly when the title contains "–" |
| Scraper.AddTitle | scraper.py:95-102 | one title extends the result by at most one entry: a delimited title by its stripped head; a plain title by itself exactly when it is neither invalid nor already present |
| Scraper.RetrieveHeadlines | scraper.py:89-103 | the loop's result is `Titles(titles)`, no longer than the number of items |
| Scraper.TitlesLength | scraper.py:92-103 | each item contributes at most one headline |
| Scraper.TitlesPrefix | scraper.py:93-102 | headlines are kept in item order: the headlines of the first items are a prefix of the result |
| Scraper.TitlesSound | scraper.py:95-102 | every headline is a delimited title's stripped head or a plain title that is neither "" nor "\n" |
| Scraper.TitleKept | scraper.py:95-102 | what any one item contributes (a delimited title's stripped head, or a valid plain title) is among the headlines |
| Scraper.TitlesComplete | scraper.py:95-102 | every delimited title's stripped head and every valid plain title is among the headlines |
| Scraper.TitlesCountDelimited | scraper.py:95-96 | delimited titles skip the repeat check: there are at least as many headlines as delimited titles |
| Scraper.TitlesRepeats | scraper.py:95-102 | in every feed a headline occurs at most once more than the delimited titles whose stripped head it is: plain titles are never added twice |
| Scraper.TitlesDistinct | scraper.py:97-102 | when no title is delimited, no headline repeats and none is "" or "\n" |

## Left out

- Reading the corpus is not modelled: `read_csv`, `read_json`, the argument parsing and the file handling of `main` (headline_generator.py:13-24, 78-109). The corpus is a sequence of strings.
- Writing the results is not modelled: the empty-result message and the CSV output with its timestamps (headline_generator.py:122-140).
- A non-numeric `--length` raises `ValueError` at `int(...)` (headline_generator.py:84); that exception is not modelled. A non-positive length is not rejected by the code, and the model follows the code: the walk takes no steps and the length check rejects nothing.
- Generator.GenerateHeadline: requires a table with non-empty tokens and no empty follower list, where Python would raise on `k[0][0]`, `first[-1]` or `choice([])`. Those exceptions are not modelled. Acceptance.DictionaryWellFormed proves that every dictionary built from a word pool meets this requirement.
- Acceptance.Acceptable: Python's `len(headline) < headline_length / 3` divides as floats; the model compares `3 * len(headline) < headline_length` over integers. The two agree for every `headline_length` below 2^53. Beyond that the float quotient is rounded, and a `headline_length` beyond the float range makes Python raise `OverflowError`; neither effect is modelled.
- Generator.Pick: `random.choice` is an oracle that picks an index in range. Its uniform distribution is not modelled, nor is the frequency bias that repeated followers give it. The properties hold for every choice.
- Text.IsUpper: `str.isupper()` is modelled for the upper-case letters of Basic Latin, Latin-1, basic Greek and basic Cyrillic only. Other Unicode capitals count as not upper-case.
- In scraper.py, the network, the NewsAPI client and the RSS fetch are not modelled: `scrap_feed`, `crawl_newsapi_resources`, `crawl_given_website` (scraper.py:55-76, 106-155). Also left out are `main` (scraper.py:158-194) and the `benchmark` timing decorator (scraper.py:12-21).
- Scraper.RetrieveHeadlines: takes the item titles as a sequence. The BeautifulSoup parsing that produces them (`findAll("item")`, `find("title").text`, scraper.py:91,94) is not modelled.
- Scraper.GetDomainList: an article is reduced to its `url` field. `urlparse(url).netloc` is a function passed in, not Python's URL parser. The result is the contents of the list rather than a list object.

# CARBON search engines in Dafny

CARBON is a small line-oriented text search service written in Go. It reads a
file into a list of lines, builds an inverted index over them, and answers
queries with the lines that match. The repository holds two engines, and this
project models the core of both:

- **The n-gram engine** (`concurrency_model/main.go`).
  - `createNGrams` cuts a word into all of its contiguous pieces of length `n`. A word shorter than `n` is kept whole.
  - `createIndex` lower-cases every whitespace-separated field of every line and files the line's position under each n-gram of the field.
  - `search` lower-cases the query and looks up each of its n-grams, one goroutine per n-gram feeding a channel. It then looks up the whole query, merges all the positions into a set, and returns one line per position.
- **The whole-word engine** (`main.go`).
  - `createIndex` files each line's position under every lower-cased field of the line.
  - `search` is one lookup of the lower-cased query. It returns the listed lines in list order, repetitions included.

Both index builders are the same fold: for every line, in order, append the
line's position under each of the line's keys. `InvertedIndex.Build` states that
fold once, over the per-line key lists, and its lemmas carry over to both
engines. For each key, `BuildSpec` gives:
- the positions of the key's list are valid and in corpus order;
- position `p` occurs under key `k` once for each occurrence of `k` among line `p`'s keys;
- a key is present exactly when some line produces it.

Modules:

| file | module | models |
|---|---|---|
| text.dfy | `Text` | `strings.ToLower`, `strings.Fields` |
| inverted_index.dfy | `InvertedIndex` | the shared "append position under key" fold, and turning positions into lines |
| ngram.dfy | `NGram` | `createNGrams` |
| ngram_index.dfy | `NGramIndex` | `createIndex` of the n-gram engine |
| ngram_search.dfy | `NGramSearch` | `search` of the n-gram engine |
| word_index.dfy | `WordIndex` | `createIndex` and `search` of the whole-word engine |
| ngram_examples.dfy | `NGramExamples` | worked queries on the corpus "the quick brown fox" / "jumps over the lazy dog" with `n = 5` |

Modelling choices:

- **Strings are `seq<char>` and are assumed to be ASCII.** Then one character is one byte, and Dafny's `|s|` and `s[i..j]` agree with Go's `len` and `s[i:j]`.
- **Lower-casing.** `strings.ToLower` maps `A`–`Z` to `a`–`z` and keeps every other character.
- **Field splitting.** `strings.Fields` splits on Go's ASCII white space: space, `\t`, `\n`, `\v`, `\f`, `\r`.
- **`n` is a natural number.** A negative `n` makes the slice `word[i:i+n]` panic. With `n = 0` every word yields `len(word)+1` empty n-grams, as the Go loop does.
- **Globals become parameters.** The global `index` and `lines` are passed explicitly.
- **Searches require a well-formed index.** Both searches ask that every stored position is a valid line number (`WellFormed`), because Go indexes `lines` with it and would panic otherwise. An index built by `CreateIndex` is always well formed (its contract says so).
- **Goroutines become a sequential union.** The goroutines and channel of the n-gram search only ever add positions to one set. `NGramSearch.Lookup` computes that union sequentially. `LookupOrderIrrelevant` shows the union is the same for any order or repetition of the keys looked up. Set union is also indifferent to the order in which the channel delivers positions; the model does not state that as a separate lemma.
- **Result order of the n-gram search.** The lines are produced by ranging over a Go map, so their order is unspecified. `NGramSearch.Search` picks positions from the set in an arbitrary order and returns that order next to the lines.
- **Searches cannot change their inputs.** Both searches are pure, so neither can change the index or the lines.

A word shorter than `n` is filed under itself (concurrency_model/main.go lines
42-43 and 60), so a query equal to such a word finds its line.
- `NGramExamples.ShortWordFindsItsLine`: with `n = 5`, the query "over" finds line 1.
- `NGramExamples.ShortPrefixFindsNothing`: "jum", a short prefix of a longer word, finds nothing.

## Model

| member | source | states |
|---|---|---|
| Text.LowerFixpoint | concurrency_model/main.go:57 | lower-casing leaves a string unchanged exactly when it has no upper-case letter, and lower-casing twice is lower-casing once |
| Text.Lower | concurrency_model/main.go:57 | lower-casing keeps the length, leaves no upper-case letter, and changes each character independently: A-Z become a-z and everything else is kept |
| Text.FieldsUnwords | main.go:42 | splitting non-empty, white-space-free words joined by single spaces gives back exactly those words |
| Text.Fields | main.go:42 | every field is non-empty and free of white space (splitting undoes joining single-spaced words, by FieldsUnwords) |
| InvertedIndex.AppendAllPostings | concurrency_model/main.go:59-61 | appending a position under each key of a line adds to key `k`'s list one copy of the position per occurrence of `k` among the keys, and leaves the rest of the list as it was |
| InvertedIndex.AppendAll | main.go:43-46 | appending one line's position under each of its keys leaves the keys that were present and adds exactly the line's keys (the lists themselves are described by AppendAllPostings) |
| InvertedIndex.BuildSpec | concurrency_model/main.go:52-65 | the index built from per-line key lists stores only valid positions, each list is non-decreasing, position `p` occurs under `k` as often as `k` occurs among line `p`'s keys, and the keys are exactly the keys some line has |
| InvertedIndex.Build | concurrency_model/main.go:53-63 | the fold over the lines stores only positions that name a line (the lists and keys it builds are described by BuildSpec and BuildMembership) |
| InvertedIndex.BuildMembership | main.go:39-49 | position `p` is listed under `k` exactly when `p` is a line number and `k` is one of line `p`'s keys |
| InvertedIndex.Materialize | main.go:76-79 | the lines produced from a list of positions follow the list one for one, in order |
| NGram.Windows | concurrency_model/main.go:44-47 | after `count` rounds of the loop there are `count` n-grams, and the `j`-th is the piece of length `n` starting at `j` |
| NGram.CreateNGrams | concurrency_model/main.go:40-50 | a word shorter than `n` gives exactly itself; otherwise there are `len(word)-n+1` n-grams, the `j`-th being the piece at offset `j`; every n-gram has length `min(len(word), n)`; with `n = len(word)` the result is the word alone |
| NGram.NGramMembership | concurrency_model/main.go:40-50 | a string is produced exactly when it is the whole word (for a word shorter than `n`) or a contiguous piece of the word of length `n` |
| NGram.NGramShape | concurrency_model/main.go:42-46 | every n-gram is at most `n` long, is lower case when the word is, and for `n >= 1` is non-empty and free of white space when the word is |
| NGramIndex.CreateIndex | concurrency_model/main.go:52-65 | `createIndex(lines, n)`: every position stored under any key is a valid index into the lines (its lists and keys are described by IndexSorted, IndexMembership, IndexMultiplicity and IndexKeyShape) |
| NGramIndex.IndexSorted | concurrency_model/main.go:54-61 | every list of positions is non-decreasing, following corpus order |
| NGramIndex.IndexMembership | concurrency_model/main.go:54-61 | position `p` is listed under `g` exactly when some field of line `p`, lower-cased, has `g` among its n-grams |
| NGramIndex.IndexMultiplicity | concurrency_model/main.go:54-61 | position `p` occurs under `g` once per n-gram equal to `g` that line `p` produces, and positions past the last line never occur |
| NGramIndex.IndexKeyShape | concurrency_model/main.go:42-46 | the keys are exactly the n-grams some line produces; each is lower case and at most `n` long, and for `n >= 1` non-empty and free of white space |
| NGramSearch.Lookup | concurrency_model/main.go:96-115 | a position is in the merged set exactly when it is listed under at least one of the looked-up keys; absent keys add nothing |
| NGramSearch.LookupOrderIrrelevant | concurrency_model/main.go:93-115 | looking up the same keys in any order, with any repetition, merges into the same set, so no goroutine schedule changes the result |
| NGramSearch.MatchPositions | concurrency_model/main.go:86-124 | the positions `search` collects: a position matches exactly when it is listed under the whole lower-cased query or under one of its n-grams; with none of those keys present nothing matches |
| NGramSearch.MatchPositionsBounded | concurrency_model/main.go:126-129 | on a well-formed index every matching position is a valid line number |
| NGramSearch.LinesOf | concurrency_model/main.go:126-130 | the returned positions are the given set without repetition, and the `j`-th line is the line at the `j`-th position |
| NGramSearch.Search | concurrency_model/main.go:85-131 | the result holds the line of each matching position exactly once, and nothing else |
| NGramSearch.SearchCaseInsensitive | concurrency_model/main.go:86 | the set of matching positions is the same for the query and for its lower-cased form |
| NGramSearch.SearchOnIndex | concurrency_model/main.go:52-131 | on an index built from the lines, a line is found exactly when one of its fields matches the query, i.e. the lower-cased field has the query or one of the query's n-grams among its n-grams |
| NGramSearch.SearchOnIndexAt | concurrency_model/main.go:52-131 | the same statement as SearchOnIndex for one position |
| NGramSearch.ExactWordMatch | concurrency_model/main.go:117-124 | a query equal to a field of a line (ignoring case) finds that line, whatever its length |
| NGramSearch.SubstringMatch | concurrency_model/main.go:96-105 | a query of exactly `n` characters that occurs inside a field (ignoring case) finds that field's line |
| NGramSearch.ShortQuery | concurrency_model/main.go:42-43 | a query shorter than `n` finds exactly the lines with a field equal to it (ignoring case) |
| NGramIndex.LineNGramsMembership | concurrency_model/main.go:55-59 | a line's keys are exactly the n-grams of its lower-cased fields |
| WordIndex.LowerFieldsMembership | main.go:42-45 | a line's keys are exactly its lower-cased fields |
| WordIndex.CreateIndex | main.go:39-49 | `createIndex(lines)`: every position stored under any key is a valid index into the lines (its lists and keys are described by IndexMembership, IndexMultiplicity and IndexKeyShape) |
| WordIndex.IndexMembership | main.go:41-46 | position `p` is listed under `k` exactly when some field of line `p` lower-cases to `k` |
| WordIndex.IndexMultiplicity | main.go:41-45 | every list is non-decreasing, and `p` occurs under `k` once per field of line `p` that lower-cases to `k`, so repeated words are kept |
| WordIndex.IndexKeyShape | main.go:42-45 | the keys are exactly the lower-cased fields of the lines; none is empty, contains white space or has an upper-case letter |
| WordIndex.Search | main.go:69-82 | the result has one line per position listed under the lower-cased query, in list order; it is empty when the lower-cased query is not a key |
| WordIndex.SearchCaseInsensitive | main.go:70 | the query and its lower-cased form give the same result |
| WordIndex.SearchOnIndex | main.go:39-82 | on an index built from the lines, every returned line has a field equal to the query (ignoring case), every such line is returned, and nothing is returned when no line has one |
| NGramExamples.CorpusFields | concurrency_model/main.go:55 | the example lines split into the expected words |
| NGramExamples.QuickFindsFirstLine | concurrency_model/main.go:85-124 | with `n = 5`, "quick" is found in line 0 only |
| NGramExamples.ShortPrefixFindsNothing | concurrency_model/main.go:117-124 | with `n = 5`, "jum" finds no line, although "jumps" begins with it |
| NGramExamples.ShortWordFindsItsLine | concurrency_model/main.go:42-43 | with `n = 5`, "over", a whole field shorter than `n`, finds line 1 |
| NGramExamples.QuickOnCorpus | concurrency_model/main.go:85-124 | on the example corpus itself, with `n = 5`, "quick" is found in line 0 only |
| NGramExamples.JumOnCorpus | concurrency_model/main.go:117-124 | on the example corpus itself, with `n = 5`, "jum" finds no line |
| NGramExamples.OverOnCorpus | concurrency_model/main.go:42-43 | on the example corpus itself, with `n = 5`, "over" finds line 1 |

## Left out

- Goroutines, `sync.WaitGroup`, the buffered channel and `sync.RWMutex` (concurrency_model/main.go lines 89-115, main.go lines 72-73). Their only effect on the result is the set union, which is modelled sequentially. Locking itself cannot be stated in a pure model.
- The order of the n-gram search result. It comes from ranging over a Go map, so the model returns the lines in an arbitrary order and specifies them as a set of positions.
- `readFile`, `main` and `searchHandler` in both files. They do file input, the HTTP server, the 400 response for a missing query, and JSON encoding.
- `GenerateRandomSentence` and `generate` in main.go, and the log generator program. They write random test data and have no stated behaviour.
- Non-ASCII text. Go's `strings.ToLower` and `strings.Fields` work on Unicode code points, with multi-byte characters and Unicode white space. The model covers ASCII only.
- NGramIndex.IndexKeyShape: keys are non-empty only for `n >= 1`. With `n = 0` the source itself files every line that has at least one field under the empty string, `|w|+1` times per field `w`.

# Book price prompts — a Dafny model

This project models the data-preparation core of a book price predictor. It turns raw
catalog records into training prompts of the form "How much does this book cost to the
nearest dollar? … Price is $20.00".

The core has two parts:

- **`BookItems.py`, one record.** The `BookItem` class cleans text with `clean_text`.
  `parse` assembles the record's sections in a fixed order: description, features,
  cleaned details, categories, author. It then applies a character gate (more than
  300 characters) and a character ceiling (1120 characters). It tokenizes the cleaned
  title and contents, applies a token gate (more than 150 tokens), keeps the first 160
  tokens and decodes them. `make_prompt` renders the prompt with the price rounded to
  whole dollars and records its token count. `test_prompt` cuts the prompt back to the
  price marker `Price is $`.
- **`BookLoader.py`, the whole data.** `from_datapoint` filters on price and builds the
  item. `from_chunk` keeps the accepted items of one chunk in order. `chunk_generator`
  partitions the data into contiguous chunks of 1000 records. `load_books_from_rawdata`
  concatenates the chunk results in chunk order.

The Dafny modules are:

| module | file | contents |
|---|---|---|
| `Wrappers` | `wrappers.dfy` | `Option` |
| `Seqs` | `seqs.dfy` | filter, filter-map, flatten and their lemmas |
| `Builtins` | `builtins.dfy` | the Python built-ins the core uses, written out |
| `BookItems` | `book_items.dfy` | `clean_text`, records, the `BookItem` class, the prompt |
| `BookLoader` | `book_loader.dfy` | the price gate, chunks, the loader |

The Python built-ins covered by `Builtins` are `str.strip`, `str.replace`, `str.split`,
`str.join`, `str(int)` and `round`. `Builtins.Find` is the search for the first
`Price is $` that `prompt.split(PREFIX)[0]` cuts at.

Modelling choices:

- **Tokenizer.** A `Tokenizer` value holds two uninterpreted functions, `encode` and
  `decode`. Nothing is assumed about how they relate.
- **Prices.** A price is an integer number of cents. The range `0.5 <= price <= 999.49`
  becomes `50 <= cents <= 99949`. Python's `round` on the dollar value is
  `RoundHalfEven`, which rounds to nearest with ties to even. This is proved to be the
  only function with that property.
- **Records.** A raw record is a datatype. An absent key is `None`. A free-text field
  is a string or a list of strings.
- **`BookItem`.** It is a class with the fields the source updates in place. `Parse`
  and `MakePrompt` are methods that modify it. `Build` is the value that a finished
  construction leaves, and the constructor is proved to produce it.
- **Loader output.** The result is a sequence of fresh `BookItem` objects. Its states
  are proved equal to a filter of the records.
- **`clean_text` is not idempotent.** The replace chain `" ," → ","`, `",,," → ","`,
  `",," → ","` runs once, in order. So five commas become `",,"`, and a second
  cleaning turns that into `","`. `CleanTextNotIdempotent` proves this, and no
  idempotence lemma is claimed.
- **A single price marker cannot be promised.** The decoded body may itself contain
  `Price is $`. The prompt lemmas therefore assume a marker-free body where they need
  one. `TestPromptOf` covers the general case: the prompt up to and including the
  first marker.

## Model

| member | source | states |
|---|---|---|
| `BookItems.CleanText` | BookItems.py:33-45 | Defined as `""` for an empty input, otherwise the three steps `CollapseNoise`, `RepairCommas` and `DropCodeWords` in order. Its properties are the contracts of `CleanTextTidy`, `CleanTextWords`, `CodeWordDropped` and `CleanTextNotIdempotent`. |
| `BookItems.CleanTextTidy` | BookItems.py:33-45 | An empty input gives `""`. Any output contains none of `: [ ] " { } 【 】` and no whitespace but single spaces, never at either end. None of its words is 7 or more characters long with a digit. |
| `BookItems.CleanTextWords` | BookItems.py:43-45 | The output's words are exactly the words of the normalised text that are shorter than 7 characters or have no digit. They keep their original order (a subsequence of the split), and no such word is lost. |
| `BookItems.Collapse` | BookItems.py:40 | The substitution `re.sub(r'[:\[\]"{}【】\s]+', ' ', …)`, defined by recursion: a noise character and the rest of its run become one space, and any other character is kept. Its exact result is the contract of `CollapseSpread`. |
| `BookItems.CollapseNoise` | BookItems.py:40 | Step 1, defined as `Strip(Collapse(s))`. Its exact result is the contract of `CollapseNoiseSpread`, and its shape is the contract of `CollapseNoiseTidy`. |
| `BookItems.CollapseSpread` | BookItems.py:40 | Write a text as noise gaps around non-empty, noise-free words, with the gaps between words non-empty. Collapsing gives the words joined by single spaces, with one extra space in front for a leading gap and one at the end for a trailing gap. |
| `BookItems.CollapseNoiseSpread` | BookItems.py:40 | For every text written that way, step 1 gives exactly `" ".join(words)`. Every noise run between two words leaves one space, and none at the ends. |
| `BookItems.CollapseNoiseTidy` | BookItems.py:40 | Step 1 leaves only single plain spaces, none at an end, and every non-noise character survives in order. Where the spaces go is stated by `CollapseNoiseSpread`. |
| `BookItems.CollapseKeepsText` | BookItems.py:40 | Collapsing noise runs changes nothing outside the noise characters. |
| `BookItems.CollapseTidy` | BookItems.py:40 | After collapsing, no whitespace but the plain space remains and no two spaces are adjacent. The result is empty exactly when the input is, and starts with a space exactly when the input starts with noise. |
| `BookItems.RepairCommas` | BookItems.py:41 | Step 2, defined as the three `Replace` calls in the source's order. `RepairCommasExactly` states its exact result. |
| `BookItems.SpaceCommaReplace` | BookItems.py:41 | `replace(" ,", ",")` deletes exactly the spaces that stand right before a comma (`DropSpacesBeforeCommas`, defined character by character), and nothing else. |
| `BookItems.MergeCommas` | BookItems.py:41 | `replace(",,,", ",")` and `replace(",,", ",")` make no run of commas disappear and start none. After squeezing every comma run to one comma, the text is the same as before. How long each run becomes is stated by `ReplacePasses`. |
| `BookItems.ReplacePasses` | BookItems.py:41 | Replacing `k ≥ 2` commas by one, scanning left to right, turns each maximal run of `n` commas into `PassRun(n, k)` commas and leaves every other character in place. |
| `BookItems.ReplaceRun` | BookItems.py:41 | Within one maximal run of `n` commas, the replacement of `k` commas leaves `PassRun(n, k)` of them. |
| `BookItems.PassRunThree` | BookItems.py:41 | The pass over `",,,"` turns a run of `n` commas into `n / 3 + n % 3` commas. |
| `BookItems.PassRunTwo` | BookItems.py:41 | The pass over `",,"` turns a run of `m` commas into `(m + 1) / 2` commas. |
| `BookItems.MergedRun` | BookItems.py:41 | What step 2 leaves of a maximal run of `n` commas: `(n / 3 + n % 3 + 1) / 2`. A run never disappears or grows, and runs of 1 to 4 commas become exactly one comma. |
| `BookItems.PassesMerge` | BookItems.py:41 | The pass over `",,,"` and then the pass over `",,"` equal `MergeRuns`. Each maximal run of `n` commas becomes `MergedRun(n)` commas. |
| `BookItems.RepairCommasExactly` | BookItems.py:41 | The exact result: `RepairCommas(s) == MergeRuns(DropSpacesBeforeCommas(s))`. The spaces right before commas are deleted, then each maximal run of `n` commas becomes `MergedRun(n)` commas. In particular, a text without commas is unchanged. |
| `BookItems.RepairCommasTidy` | BookItems.py:41 | On a step-1 result, step 2 keeps the text well spaced and noise-free, leaves no space before a comma, and changes nothing but spaces and commas. Which spaces go is stated by `RepairCommasExactly`. |
| `BookItems.DropCodeWords` | BookItems.py:43-45 | Step 3, defined as `" ".join` of the words of `split(' ')` that `KeepWord` accepts. Its properties are the contract of `DropCodeWordsTidy`. |
| `BookItems.DropCodeWordsTidy` | BookItems.py:43-45 | Splitting, filtering and joining gives a well-spaced text whose words are exactly the surviving words, or `""` when none survive. |
| `BookItems.CodeWordDropped` | BookItems.py:44 | A 9-character product code containing digits, such as `ABC123456`, is never a word of the output. |
| `BookItems.QuietNormalisation` | BookItems.py:40-41 | On a text with no noise characters, the first two steps reduce to the two comma replacements. |
| `BookItems.CleanTextNotIdempotent` | BookItems.py:41 | `clean_text(",,,,,") == ",,"`, and cleaning that again gives something different. |
| `BookItems.Contents` | BookItems.py:47-67 | Defined as the five sections in order: description, features, cleaned details, categories and author. Each is present only when the field is there and non-empty, and each ends in `'\n'`. Its properties are the contracts of `ContentsEndsWithNewline`, `DetailsLead` and `EmptyRecordExcluded`. |
| `BookItems.Build` | BookItems.py:26-79 | The state a constructed `BookItem` has. It is fixed by the constructor's contract, and its properties are the contracts of `GatesDecideInclusion`, `IncludedPrompt` and `TokenizedTextBounded`. |
| `BookItems.RenderPrompt` | BookItems.py:81-84 | Defined as the question, two newlines, the body, two newlines, `Price is $`, `str(round(price))` and `.00`. Its properties are the contracts of `RenderedPromptHasMarker`, `MarkerOnlyAfterBody`, `TestPromptWithholdsPrice` and `PromptAnswer`. |
| `BookItems.BookItem.constructor` | BookItems.py:26-30 | The new item's state is `Build(tok, data, price)`: title, price, category from `main_category` or `""`, then what `parse` sets. |
| `BookItems.BookItem.Parse` | BookItems.py:47-79 | `details` becomes the raw details. When both gates pass, the item is included with the rendered prompt and that prompt's token count. Otherwise `include`, `prompt` and `token_count` keep their values. Title, price and category are unchanged. |
| `BookItems.BookItem.MakePrompt` | BookItems.py:81-84 | `prompt` is the question, the text and `Price is $` with the rounded price and `.00`. `token_count` is that prompt's encoded length. No other field changes. |
| `BookItems.TestPromptOf` | BookItems.py:86-87 | The result ends with `Price is $`. With a marker in the prompt, it is a prefix of the prompt with no earlier marker. Without one, it is the prompt with the marker appended. |
| `BookItems.BookItem.TestPrompt` | BookItems.py:86-87 | The result ends with `Price is $`. When the prompt holds the marker, the result is a prefix of the prompt. |
| `BookItems.GatesDecideInclusion` | BookItems.py:59-79 | An item is included if and only if the content is longer than 300 characters and the encoded text is longer than 150 tokens. It is included if and only if it has a prompt. An excluded item counts 0 tokens. `details` holds the raw value regardless. |
| `BookItems.ShortRecordExcluded` | BookItems.py:69 | Content of at most 300 characters is excluded, whatever the tokenizer. |
| `BookItems.EmptyRecordExcluded` | BookItems.py:47-69 | A record without description, features, details, categories or author has empty content and is excluded. |
| `BookItems.ContentsEndsWithNewline` | BookItems.py:49-67 | Non-empty content ends in a newline, since every section is followed by `'\n'`. |
| `BookItems.DetailsLead` | BookItems.py:59-61 | With no description and no features, the content begins with the cleaned details and a newline. |
| `BookItems.TokenizedTextBounded` | BookItems.py:70-77 | The text that is tokenized is the cleaned title, a newline and the cleaned leading part of the content. That part is a prefix of at most 1120 characters. The body is decoded from a prefix of the encoded text that is at most 160 tokens long. |
| `BookItems.IncludedPrompt` | BookItems.py:78-84 | An included item's prompt is the rendered prompt of its body and price, and its token count is that prompt's encoded length. |
| `BookItems.RenderedPromptHasMarker` | BookItems.py:81-83 | Every rendered prompt holds `Price is $`, whatever the body. |
| `BookItems.TestPromptIsPrefix` | BookItems.py:86-87 | For any body, including one that holds the marker itself, the test prompt is a prefix of the prompt. It ends with `Price is $` and holds no earlier marker. |
| `BookItems.MarkerOnlyAfterBody` | BookItems.py:81-83 | With a marker-free body, `Price is $` occurs right after the question and body, and nowhere before. |
| `BookItems.TestPromptWithholdsPrice` | BookItems.py:81-87 | With a marker-free body, the test prompt is the question, the body and the marker. The full prompt is the test prompt followed by the rounded price and `.00`. |
| `BookItems.PromptAnswer` | BookItems.py:83-87 | After the test prompt come digits and then `.00`. The digits read back as a whole-dollar number within 50 cents of the price. |
| `BookItems.NineteenNinetyNine` | BookItems.py:83-87 | `$19.99` is answered `20.00` after the test prompt. |
| `BookItems.HalfDollarsToEven` | BookItems.py:83 | Ties round to even: 0.50 → 0, 2.50 → 2, 3.50 → 4. |
| `Builtins.StripLeading` | BookItems.py:40 | The result is a suffix of the input that does not start with whitespace. |
| `Builtins.StripLeadingRemovesSpaces` | BookItems.py:40 | Everything cut from the front is whitespace. |
| `Builtins.StripTrailing` | BookItems.py:40 | The result is a prefix of the input that does not end with whitespace. |
| `Builtins.StripTrailingRemovesSpaces` | BookItems.py:40 | Everything cut from the end is whitespace. |
| `Builtins.Strip` | BookItems.py:40 | The result neither starts nor ends with whitespace. |
| `Builtins.Replace` | BookItems.py:41 | `str.replace`, defined by recursion: each non-overlapping occurrence, scanning left to right, becomes `rep`. Its properties are the contracts of `ReplaceAbsent`, `ReplaceWithout`, `SpaceCommaReplace`, `MergeCommas` and `ReplacePasses`. |
| `Builtins.ReplaceAbsent` | BookItems.py:41 | A text that lacks one of the pattern's characters is left unchanged. |
| `Builtins.ReplaceWithout` | BookItems.py:41 | When the pattern and the replacement are made of characters of a set, the characters outside that set stay exactly as they were, in order. |
| `Builtins.Join` | BookItems.py:45 | `sep.join(words)`, defined by recursion. Its properties are the contracts of `JoinSplit`, `SplitJoin`, `JoinFirst` and `JoinLast`. |
| `Builtins.JoinFirst` | BookItems.py:45 | A join starts with its first word's first character. |
| `Builtins.JoinLast` | BookItems.py:45 | A join ends with its last word's last character. |
| `Builtins.StripPadded` | BookItems.py:40 | Stripping a text padded by at most one space on each side gives the text back. |
| `Builtins.Take` | BookItems.py:70-76 | `s[:n]` is a prefix of `s`: of length `n` when `s` is long enough, otherwise all of `s`. |
| `Builtins.Split` | BookItems.py:43 | `split(sep)` yields at least one piece. No piece contains `sep`, and every character of a piece comes from the input. |
| `Builtins.JoinSplit` | BookItems.py:43-45 | Joining the pieces of a split with the separator gives back the string. |
| `Builtins.SplitJoin` | BookItems.py:43-45 | Splitting a join of separator-free words gives back the words. |
| `Builtins.FindFrom` | BookItems.py:87 | The reported index is an occurrence with none before it. `None` means there is no occurrence at all. |
| `Builtins.FindFirst` | BookItems.py:87 | An occurrence with none before it is the one found. |
| `Builtins.IntToString` | BookItems.py:83 | `str(i)`: the digits of `i`, with a minus sign for a negative `i`. Its properties are the contract of `IntToStringValue`. |
| `Builtins.RoundHalfEven` | BookItems.py:83 | `round(cents / 100)`, computed from the quotient and remainder by 100. Its properties are the contracts of `RoundHalfEvenNearest` and `RoundHalfEvenUnique`. |
| `Builtins.NatToStringValue` | BookItems.py:83 | Reading back the decimal digits of `n` gives `n`. |
| `Builtins.IntToStringValue` | BookItems.py:83 | `str(i)` is the digits of `i`, or a minus sign and the digits of `-i`, and reads back as `i`. |
| `Builtins.RoundHalfEvenNearest` | BookItems.py:83 | `round` is within half a dollar of the price, and a tie goes to the even dollar. |
| `Builtins.RoundHalfEvenUnique` | BookItems.py:83 | Any integer with those two properties equals `RoundHalfEven`, so they specify `round` completely. |
| `BookLoader.Accept` | BookLoader.py:12-19 | What `from_datapoint` yields, as a value: nothing for an unconvertible or out-of-range price or an excluded item, otherwise the built item. Its properties are the contract of `AcceptSpec`, and `FromDatapoint` is proved to compute it. |
| `BookLoader.AcceptSpec` | BookLoader.py:12-19 | A record is accepted if and only if its price converts, lies in `[0.50, 999.49]`, and the item built from it is included. What is accepted is that item. |
| `BookLoader.FromDatapoint` | BookLoader.py:12-19 | The result is `None` exactly when the record is not accepted; otherwise it is a new `BookItem` whose state is the accepted item. |
| `BookLoader.Accepted` | BookLoader.py:21-22 | The accepted items of a record sequence, in record order, defined as the filter-map of `Accept`. Its properties are the contracts of `AcceptedSnoc` and `AcceptedExactly`, and `FromChunk` is proved to compute it. |
| `BookLoader.AcceptedSnoc` | BookLoader.py:22 | Filtering one more record appends its accepted item, if any. |
| `BookLoader.AcceptedExactly` | BookLoader.py:21-22 | There are no more items than records. Every record's accepted item is kept. Every kept item is the accepted item of some record, is included, and is priced in range. |
| `BookLoader.KeepAccepted` | BookLoader.py:22 | One step of the comprehension: the accepted item of the next record joins the end. |
| `BookLoader.FromChunk` | BookLoader.py:21-22 | The result's states are exactly the non-`None` results of `from_datapoint`, in chunk order, and every result is a new object. |
| `BookLoader.ChunkGenerator` | BookLoader.py:24-27 | With a positive size it yields the slices `[i, min(i + C, N))` for `i = 0, C, 2C, …`. With a negative size it yields nothing. |
| `BookLoader.Chunks` | BookLoader.py:24-27 | The slices `data[i..min(i + C, N)]` for `i = 0, C, 2C, …`, defined by recursion on the start position. Its properties are the contracts of `ChunksCover`, `ChunkLengths`, `ChunkAt` and `ChunkCount`, and `ChunkGenerator` is proved to compute it. |
| `BookLoader.ChunksCover` | BookLoader.py:24-27 | The chunks concatenated in order are the data: no gap and no overlap. |
| `BookLoader.ChunkLengths` | BookLoader.py:24-27 | The chunk lengths sum to `N`. Read as positions, the chunks run through `0, …, N-1`. |
| `BookLoader.ChunkAt` | BookLoader.py:26-27 | Chunk `k` is `data[kC..min(kC + C, N)]`. Each chunk is non-empty and at most `C` long, and all but the last are exactly `C` long. |
| `BookLoader.ChunkCount` | BookLoader.py:26 | There are `ceil(N / C)` chunks, none exactly when `N = 0`. |
| `BookLoader.AcceptedFlatten` | BookLoader.py:29-34 | Filtering chunk by chunk and concatenating is the same as filtering the concatenated records. |
| `BookLoader.AppendChunk` | BookLoader.py:32-33 | `results.extend(batch)`: a chunk's items join the end of the results. |
| `BookLoader.LoadBooks` | BookLoader.py:29-34 | The result's states are the chunk results concatenated in chunk order. This equals filtering the whole data record by record, in order, and every result is a new object. |

## Left out

- Tokenizer loading (`AutoTokenizer.from_pretrained`, `BASE_MODEL`): the tokenizer is a parameter, with `encode` and `decode` uninterpreted.
- The process pool, the worker count and the `tqdm` progress bar: chunks are processed sequentially. `pool.map` keeps submission order, so the result is the same. The progress total `len // CHUNK_SIZE + 1` only affects display.
- `Dataset.select(range(…))`: modelled as the sequence slice it selects.
- Float prices: `float(dp["price"])` is modelled as a field that either converts to whole cents or fails. Sub-cent prices, NaN and infinities are not modelled. The range `0.5..999.49` is `50..99949` cents.
- A missing `price` or `title` key raises `KeyError`, which the source does not catch. Every record in the model has both keys.
- `BookLoader.FromDatapoint`: an exception raised while constructing a `BookItem` (a `TypeError` from an unexpected field type) is not modelled. Only a failed price conversion yields `None`.
- `str()` on values that are neither strings nor lists of strings: fields are modelled as strings or lists of strings only.
- `BookItems.CleanText`: the `isinstance`/`str()` coercion at `BookItems.py:37-38` is not modelled, since every input is already a string.
- Unicode digit classes: `IsDigit` covers the ASCII digits only. Python's `isdigit` also accepts other Unicode digits. `IsSpace` is the `isspace` set, which `\s` on `str` matches.
- A `details` key present with the value `None`: details are modelled as a string or absent.
- `BookItems.BookItem.Parse`: it computes the content through `Contents`, a sum of sections, rather than by repeated `+=`. The text it builds is the same.
- The `if book` test in `from_chunk` is modelled as a null check, since a `BookItem` is always truthy.
- `BookLoader.ChunkGenerator`: a chunk size of 0 makes `range` raise `ValueError`. The model requires a non-zero size instead.
- `BookItems.BookItem.TestPrompt` assumes a prompt exists. In the source, calling it before a prompt exists raises `AttributeError` on `None`.
- `__repr__`: display only.
- An abstract tokenizer cannot bound the token count of a prompt (for example, `token_count > 0`), and it cannot promise exactly one price marker. The prompt lemmas assume a marker-free body where they speak of the marker.

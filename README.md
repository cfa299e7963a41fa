# Arabic RAG chatbot — a Dafny model of its text pipeline and analytics

This project models the core of an Arabic retrieval-augmented question answering
system and proves properties of the model. It covers:

- **Text normalization.** Arabic normalization strips surrogates, control characters,
  diacritics (tashkeel) and the elongation mark (tatweel), then collapses whitespace.
  Sentence splitting and sentence chunking follow.
- **Dataset preprocessing.** Each example is updated in place.
- **Indexing.** Two commands load a dataset split, flatten it into embedding texts and
  payloads, and upload them in batches.
- **Ingestion.** A user text gets a content-derived id laid out like a UUID.
- **Retrieval.** The question is normalized and searched. Hits are filtered by score.
  The hit texts are read from their payloads.
- **Prompt building and answer post-processing.** Both generator back-ends (T5 and GPT-2)
  assemble prompts under a token budget by greedy packing. GPT-2 output has its echo,
  answer tag and sentence stop cut away. Both paths end with the Arabic-only filter.
- **Evaluation.** Token F1 and corpus BLEU.
- **User roles.**
- **The analytics endpoints.** The log endpoint's validation ladder, filtering,
  the summary counts, and the per-day counts, which are sorted by day.

Model inference, the vector database, Django plumbing, tokenizers and hashing never run
inside the model. Anything the code calls into is a function-typed parameter:
- token counters;
- `clean_text`;
- the encoders;
- the index search;
- `sha256(...).hexdigest()`;
- `make_hash_id`;
- `json.loads`;
- `ChatEvent.objects.create`;
- the date parser for query parameters;
- `sacrebleu.corpus_bleu`.

## How the model is organised

The modules follow the Python files:

| module | file |
|---|---|
| `Utils` | `ragchat/utils.py` |
| `DataUtils` | `ragchat/data/utils.py` |
| `Preprocessing` | `ragchat/preprocessing.py` |
| `Evaluation` | `ragchat/evaluation.py` |
| `Generator` | `ragchat/generator.py` |
| `Embeddings` | `ragchat/embeddings.py` |
| `CoreEmbeddings` | `ragchat/core/embeddings.py` |
| `Retriever` | `ragchat/retriever.py` |
| `Pipeline` | `ragchat/pipeline.py` |
| `EmbedContextsCli` | `ragchat/cli/embed_contexts_cli.py` |
| `EmbedAnswersCli` | `ragchat/cli/embed_answers_cli.py` |
| `RagService` | `backend/api/services/rag_service.py` |
| `Users` | `backend/users/models.py` |
| `Analytics` | `backend/analytics/views.py` and `models.py` |

Shared support lives in five further modules:
- `Wrappers`: `Option`.
- `Strings`: Python's `strip`, `split()`, `" ".join`, `\s+` collapsing and substring search, over code points.
- `PyValue`: JSON-like values with Python truthiness and `dict.get`.
- `Ingest`: dataset splits, `ex.get("answers", {}).get("text", [])` and the batched upload loop shared by both commands.
- `Packing`: greedy packing with a stepwise specification. Both prompt builders use it.

The code is modelled in its own form:
- Loops in the source are methods with loop invariants, each proved equal to a specification function. These include:
  - `chunk_sentences`;
  - both prompt builders;
  - `extract_chunks` and `extract_answers`;
  - the upload loops;
  - the per-day counting loop.
- `preprocess_example` mutates the example dictionary. It is a method on an `Example` object whose field is a map.
- Everything else is functions and lemmas.

Some behaviour of the code is easy to misread. The model keeps it as written:
- The generator has no sentinel strings and no exception handling.
- Contexts are not deduplicated in the prompt.
- `similar_contexts` does not normalize the question; `ask` does.
- A hit's text is `context_text`, else `answer_text`, else `""`. It is never `raw_context`.
- Both prompt builders drop blank contexts before `clean_text` runs. A context that `clean_text` turns into `""` is therefore still packed. It changes where separators go: GPT-2 adds no `"\n- "` after an empty block, and T5 adds no ` </s> ` after the `": "` that ends the start.
- When no hit passes the 0.3 threshold, `ask` falls back to `hits[0]`. It returns `hits[:k]` as its contexts, not the contexts it gave the generator.
- `embed_batch` fails as a whole batch: every entry becomes an empty vector. It does not fail item by item.
- `chunk_sentences` with a group size below one gives a single chunk.
- The ingestion id is the first 32 hex characters of the digest in the 8-4-4-4-12 layout of section 3 of RFC 4122. No version or variant bits are set.

## Model

| member | source | states |
|---|---|---|
| Utils.CleanUnicode | ragchat/utils.py:4-7 | surrogates are dropped. Of the remaining characters, in order, each control character becomes a space and every other character is kept. The result holds no surrogate and no control character |
| Utils.CleanUnicodeAppend | ragchat/utils.py:4-7 | cleaning works character by character: cleaning a concatenation concatenates the cleaned halves |
| Utils.CleanUnicodeChar | ragchat/utils.py:4-7 | one character: a surrogate gives `""`, a control character a space, any other character itself |
| Utils.CleanUnicodeKeepsClean | ragchat/utils.py:4-7 | text without surrogates or control characters is returned unchanged |
| Utils.CleanUnicodeIdempotent | ragchat/utils.py:4-7 | cleaning twice is cleaning once |
| Utils.NormalizeArabicText | ragchat/utils.py:9-20 | empty text gives `""`. The result is canonical (no leading, trailing or doubled whitespace, and every whitespace is a single space). It holds no surrogate, control character, tashkeel or tatweel |
| Utils.NormalizeFixes | ragchat/utils.py:9-20 | canonical text made of characters normalization keeps is its own normal form |
| Utils.NormalizeIdempotent | ragchat/utils.py:9-20 | normalizing twice is normalizing once |
| Utils.NormalizeKeepsContent | ragchat/utils.py:9-20 | the non-space characters of the result are exactly the text without the characters normalization drops or turns into space, in order |
| Utils.StrippedPieces | ragchat/utils.py:30 | the kept pieces are stripped and non-empty, and there are no more of them than pieces |
| Utils.SplitIntoSentences | ragchat/utils.py:22-32 | empty text gives `[]`. Every sentence is non-empty, stripped and free of `.`, `!` and `؟` |
| Utils.SentencesKeepContent | ragchat/utils.py:22-32 | the non-space characters of the sentences are the text without delimiters and whitespace: only delimiters and whitespace are lost |
| Utils.SingleSentence | ragchat/utils.py:22-32 | a non-empty text without delimiters is one stripped sentence, or none when it is blank |
| Utils.GroupsFlatten | ragchat/utils.py:38-48 | the groups are non-empty and concatenate back to the sentences |
| Utils.GroupSizes | ragchat/utils.py:41-48 | with a positive group size every group but the last has exactly that many sentences, and the last at most that many |
| Utils.GroupCount | ragchat/utils.py:34-50 | with a positive group size the sentences form ceil(n / group_size) groups |
| Utils.ChunkCount | ragchat/utils.py:34-50 | with a positive group size there are ceil(n / group_size) chunks |
| Utils.LastGroupSize | ragchat/utils.py:41-48 | the last chunk holds n mod group_size sentences, or a full group when that is zero |
| Utils.OneChunkWhenSizeBelowOne | ragchat/utils.py:43-48 | with a group size below one, the sentences form one chunk |
| Utils.ChunksKeepText | ragchat/utils.py:34-50 | joining the chunks with spaces is joining the sentences with spaces |
| Utils.ChunkSentences | ragchat/utils.py:34-50 | the loop over the sentences returns exactly the specified chunks |
| DataUtils.CleanUnicode | ragchat/data/utils.py:5-14 | `None` gives `""`. A string is cleaned as by the plain `clean_unicode` |
| DataUtils.NormalizeArabicText | ragchat/data/utils.py:16-32 | `None` and `""` give `""`. A string is normalized as by the plain version. The result is canonical |
| DataUtils.NormalizeIdempotent | ragchat/data/utils.py:16-32 | normalizing the normalized text changes nothing |
| DataUtils.SplitIntoSentences | ragchat/data/utils.py:34-48 | `None` and `""` give `[]`. A string is split as by the plain version; the properties of the sentences carry over |
| DataUtils.ChunkSentences | ragchat/data/utils.py:51-74 | the guarded loop returns the same chunks as the plain version, `[]` for no sentences |
| Preprocessing.Example.constructor | ragchat/preprocessing.py:8 | the example holds the given dictionary |
| Preprocessing.NormalizeValue | ragchat/preprocessing.py:14-15 | a string is normalized. A falsy value gives `""`. A truthy non-string raises (`None`) |
| Preprocessing.NormalizedAnswers | ragchat/preprocessing.py:18-23 | definition without a contract: the `answers` entry after its first text is normalized, or `None` when that raises. Preprocessing.FirstAnswerNormalized and Preprocessing.PreprocessKeepsAnswers state its cases |
| Preprocessing.Preprocess | ragchat/preprocessing.py:13-34 | definition without a contract: the fields after the four writes, or `None` when a normalization raises first. The Preprocess lemmas below state its properties |
| Preprocessing.PreprocessFails | ragchat/preprocessing.py:13-40 | preprocessing raises exactly when the context, the question or the first answer is a truthy non-string |
| Preprocessing.PreprocessFields | ragchat/preprocessing.py:14-34 | the keys become the old keys plus the four written ones. Other keys keep their values. `context` and `question` become their normal forms. `chunks` are the chunked sentences of the normalized context |
| Preprocessing.PreprocessWritten | ragchat/preprocessing.py:14-34 | when nothing raises, the four keys get the normalized context and question, the normalized answers and the chunks |
| Preprocessing.PreprocessAnswers | ragchat/preprocessing.py:18-27 | the `answers` written back are the ones lines 18-23 computed |
| Preprocessing.FirstAnswerNormalized | ragchat/preprocessing.py:20-23 | on a `text` list that starts with a string, only that first item is replaced by its normal form |
| Preprocessing.PreprocessFirstAnswer | ragchat/preprocessing.py:18-23 | only `answers["text"][0]` is normalized. The other answer strings and the other keys of `answers` are unchanged |
| Preprocessing.PreprocessKeepsAnswers | ragchat/preprocessing.py:18-27 | a non-dict `answers`, or a missing, empty or non-list `text`, is kept as it was; a missing one becomes `{}` |
| Preprocessing.NormalizedAnswersIdempotent | ragchat/preprocessing.py:18-23 | normalizing the first answer of normalized answers changes nothing |
| Preprocessing.PreprocessIdempotent | ragchat/preprocessing.py:8-40 | preprocessing a preprocessed example changes nothing |
| Preprocessing.PreprocessExample | ragchat/preprocessing.py:8-40 | the same object is returned. Its dictionary is updated as specified, or left untouched when preprocessing raises |
| Evaluation.Lower | ragchat/evaluation.py:19 | `lower()` maps each character on its own and keeps the length |
| Evaluation.NormalizeText | ragchat/evaluation.py:9-23 | `None` and `""` give `""`. The result is canonical and made only of characters the kept class allows |
| Evaluation.NormalizeTextIdempotent | ragchat/evaluation.py:9-23 | normalizing a normalized answer changes nothing |
| Evaluation.WordRuns | ragchat/evaluation.py:28 | the maximal runs of word characters, in order. Every run is non-empty |
| Evaluation.WordRunsAreWords | ragchat/evaluation.py:28 | on text made of word characters and whitespace, the runs that `findall` returns are the whitespace-separated words |
| Evaluation.Tokenize | ragchat/evaluation.py:26-28 | the tokens are the words of the normalized text |
| Evaluation.Overlap | ragchat/evaluation.py:40-41 | definition without a contract: the size of the multiset intersection of the two token lists. Evaluation.OverlapBounds bounds it |
| Evaluation.OverlapBounds | ragchat/evaluation.py:40-41 | the multiset overlap is at most the length of either token list |
| Evaluation.F1Tokens | ragchat/evaluation.py:38-46 | definition without a contract: 0 when a list is empty or nothing overlaps, otherwise the harmonic mean of precision and recall. The F1 lemmas below state its properties |
| Evaluation.F1 | ragchat/evaluation.py:31-46 | definition without a contract: the token F1 of the two tokenized answers. Evaluation.F1OfSameAnswer is about it |
| Evaluation.F1ClosedForm | ragchat/evaluation.py:37-46 | F1 is 2·overlap / (\|p\| + \|g\|), and 0 when either list is empty |
| Evaluation.F1Bounds | ragchat/evaluation.py:37-46 | 0 ≤ F1 ≤ 1 |
| Evaluation.F1Symmetric | ragchat/evaluation.py:37-46 | F1 does not depend on which side is the prediction |
| Evaluation.F1Self | ragchat/evaluation.py:37-46 | a non-empty token list scores 1 against itself |
| Evaluation.F1Disjoint | ragchat/evaluation.py:40-43 | token lists with no token in common score 0 |
| Evaluation.F1OfSameAnswer | ragchat/evaluation.py:31-46 | two answers with the same normal form and at least one token score 1 |
| Evaluation.Bleu | ragchat/evaluation.py:49-60 | an empty side gives 0. Otherwise the corpus score of the predictions against the single reference stream |
| Packing.AcceptedFrom | ragchat/generator.py:65-71 | every item before the stopping point fits after its step, and the item at the stopping point does not |
| Packing.PackedIsGreedyPrefix | ragchat/generator.py:119-125 | greedy packing accepts exactly the longest prefix whose every step fits, and yields the fold of that prefix |
| Packing.PackedAll | ragchat/generator.py:119-125 | when every step fits, all items are packed |
| Packing.PackedNone | ragchat/generator.py:119-125 | when the first step does not fit, the start is returned unchanged |
| Packing.PackStep | ragchat/generator.py:65-71 | one loop step: accepting a fitting item extends the fold, and a non-fitting item ends packing with the current fold |
| Packing.PackEnd | ragchat/generator.py:65-71 | packing that runs to the end of the items folds all of them |
| Generator.ArabicOnly | ragchat/generator.py:14-17 | the result is canonical, and every character is a space or a kept non-space character |
| Generator.ArabicOnlyIdempotent | ragchat/generator.py:14-17 | filtering filtered text changes nothing |
| Generator.AfterAnswerTag | ragchat/generator.py:132-133 | definition without a contract: the text after the first `الإجابة:` and the whitespace after it, or the whole text without the tag. Generator.ExtractDropsThroughTag and Generator.ExtractWithoutTag state its effect |
| Generator.CutAtEcho | ragchat/generator.py:136 | the result is a prefix of the answer that ends at the first echoed prompt line, or is the whole answer when there is none |
| Generator.CutAtStop | ragchat/generator.py:138 | the result is the prefix before the first `.`, `!` or `؟` followed by whitespace |
| Generator.CutAtStopHasNoStop | ragchat/generator.py:138 | the cut text has no stop followed by whitespace |
| Generator.FinishAnswer | ragchat/generator.py:134-142 | the answer is stripped |
| Generator.ExtractAfterAnswerTag | ragchat/generator.py:130-142 | the answer is stripped |
| Generator.ExtractDropsThroughTag | ragchat/generator.py:132-133 | everything up to the first `الإجابة:` and the whitespace after it is dropped |
| Generator.ExtractWithoutTag | ragchat/generator.py:132-133 | text without the tag is processed whole |
| Generator.TruncateWords | ragchat/generator.py:139-141 | definition without a contract: more than 25 words are cut to the first 25, joined by single spaces. Generator.WordsOfTruncate gives the words of the result |
| Generator.WordsOfTruncate | ragchat/generator.py:139-141 | the words after truncation are the first 25 words, or all of them when there are at most 25 |
| Generator.FinishAnswerWords | ragchat/generator.py:137-142 | the answer has at most 25 words |
| Generator.NoStopJoinWords | ragchat/generator.py:139-141 | rejoining the words brings in no stop followed by whitespace |
| Generator.NoStopTruncate | ragchat/generator.py:139-141 | truncating to 25 words brings in no stop followed by whitespace |
| Generator.FinishAnswerNoStop | ragchat/generator.py:134-142 | the answer contains no `.`, `!` or `؟` followed by whitespace |
| Generator.UsableContexts | ragchat/generator.py:57 | blank contexts are dropped, so there are at most as many usable contexts as contexts |
| Generator.UsableContextsAllBlank | ragchat/generator.py:57 | there is no usable context exactly when every context is blank |
| Generator.GlueIsJoin | ragchat/generator.py:118-123 | gluing non-empty contexts one by one builds their `"\n- "`-join |
| Generator.Gpt2Prompt | ragchat/generator.py:101-128 | definition without a contract: the few-shot skeleton around the greedily packed usable contexts. Generator.Gpt2PromptShape and Generator.Gpt2Build are about it |
| Generator.Gpt2PromptShape | ragchat/generator.py:101-128 | when no cleaned usable context is empty, the GPT-2 prompt is the few-shot skeleton around the `"\n- "`-join of the longest prefix of usable contexts whose every step fits the token budget |
| Generator.Gpt2Build | ragchat/generator.py:101-128 | the loop builds exactly the specified GPT-2 prompt |
| Generator.T5Prompt | ragchat/generator.py:55-72 | definition without a contract: `question: q` when no context is usable, otherwise the greedily packed T5 input. Generator.T5PromptShape, Generator.T5PromptWithoutContexts and Generator.T5Build are about it |
| Generator.T5Build | ragchat/generator.py:55-72 | the loop builds exactly the specified T5 input. The budget is the encoder length minus 16, counting special tokens |
| Generator.T5PromptShape | ragchat/generator.py:55-72 | with usable contexts, each non-empty and none ending in a space, the input is `question: q context: ` followed by the ` </s> `-join of the longest prefix that fits |
| Generator.T5PromptWithoutContexts | ragchat/generator.py:58-60 | without usable contexts the input is exactly `question: q` |
| Generator.T5FoldExtends | ragchat/generator.py:65-69 | every T5 step only appends to the prompt |
| Generator.T5PromptStart | ragchat/generator.py:62-72 | with usable contexts the input starts with `question: q context: ` |
| Generator.T5FoldIsJoin | ragchat/generator.py:65-66 | after the starting `": "`, the first context is appended directly and later ones after ` </s> ` |
| Generator.StripEcho | ragchat/generator.py:163 | definition without a contract: the stripped continuation when the decoded text starts with the prompt, else the decoded text. The two lemmas below state both cases |
| Generator.StripEchoOfEcho | ragchat/generator.py:163 | a decoded text that repeats the prompt becomes its stripped continuation |
| Generator.StripEchoWithoutEcho | ragchat/generator.py:163 | any other decoded text is kept whole |
| Generator.Generate | ragchat/generator.py:168-174 | the model type picks the T5 or the GPT-2 path. Either way the answer has passed the Arabic-only filter: it is canonical and holds only kept characters |
| Embeddings.AddPrefix | ragchat/embeddings.py:43-45 | one text per input, each starting with `prefix: ` |
| Embeddings.DropAddPrefix | ragchat/embeddings.py:43-45 | removing the prefix gives back the original text |
| Embeddings.AddPrefixAppend | ragchat/embeddings.py:43-45 | prefixing distributes over concatenation |
| Embeddings.QueryIsNotPassage | ragchat/embeddings.py:56-66 | a query text never equals a passage text, whatever the inputs |
| Embeddings.EncodeQueries | ragchat/embeddings.py:56-60 | the `query: `-prefixed texts are encoded by the sentence-transformer when it loaded, and by the mean-pooling fallback otherwise |
| Embeddings.EncodePassages | ragchat/embeddings.py:62-66 | the same for `passage: `-prefixed texts |
| CoreEmbeddings.CleanForEmbedding | ragchat/core/embeddings.py:35 | cleaning before normalizing is plain normalization, and gives canonical text |
| CoreEmbeddings.CleanBatch | ragchat/core/embeddings.py:54 | each text of the batch is normalized in place of itself |
| CoreEmbeddings.EmbedText | ragchat/core/embeddings.py:29-46 | the vector of the normalized text, or `[]` when the encoder fails |
| CoreEmbeddings.EmbedBatch | ragchat/core/embeddings.py:48-67 | the vectors of the normalized batch, or one empty vector per text when the encoder fails |
| Retriever.PayloadText | ragchat/retriever.py:22 | `context_text` when truthy, else `answer_text` when truthy, else `""` |
| Retriever.ToRow | ragchat/retriever.py:19-24 | a row keeps the score. A hit without payload has `""` text and a null id; otherwise the text and id come from the payload |
| Retriever.Rows | ragchat/retriever.py:17-25 | one row per hit, in order |
| Retriever.SearchHits | ragchat/retriever.py:15-16 | an empty encoder result raises (`None`). Otherwise the index search of the first query vector with `top_k`, which may itself raise |
| Retriever.SimilarContexts | ragchat/retriever.py:14-25 | an empty encoder result or a search that raises gives `None`. Otherwise one row per hit, in order |
| Retriever.RowsWithinTopK | ragchat/retriever.py:16 | carries the index's `top_k` limit over to the rows: when the search returns at most `top_k` hits, there are at most `top_k` rows. The limit itself is the index's promise, taken as given |
| Retriever.RowsAppend | ragchat/retriever.py:18-24 | rows are computed hit by hit |
| Pipeline.PyTake | ragchat/pipeline.py:35 | `s[:k]` with Python's semantics for positive, zero and negative `k` |
| Pipeline.Passing | ragchat/pipeline.py:34 | no more hits are kept than were retrieved, and every kept hit scores above 0.3 |
| Pipeline.PassingMembership | ragchat/pipeline.py:34 | a hit passes exactly when it is a hit and scores above 0.3 |
| Pipeline.PassingAppend | ragchat/pipeline.py:34 | filtering distributes over concatenation, so order is kept |
| Pipeline.EffectiveK | ragchat/pipeline.py:33 | `k or top_k`: a missing or zero `k` falls back to `top_k` |
| Pipeline.GeneratorContexts | ragchat/pipeline.py:34-38 | no hits give no contexts. The texts of the first `k` passing hits are used, or the first hit's text when none of them remain |
| Pipeline.GeneratorContextsPositiveK | ragchat/pipeline.py:34-38 | with positive `k` there are at most `k` contexts, each the text of some hit |
| Pipeline.Ask | ragchat/pipeline.py:23-46 | `ask` raises (`None`) exactly when retrieval of the normalized question raises. Otherwise the answer names the normalized question and the first `k` hits, and is generated from the normalized question and the selected contexts |
| Pipeline.AskWithoutHits | ragchat/pipeline.py:37-46 | when retrieval succeeds with no hits, the generator gets no contexts and none are returned |
| Pipeline.AskNormalized | ragchat/pipeline.py:29 | asking the normalized question is asking the original one |
| Ingest.GetSplit | ragchat/cli/embed_contexts_cli.py:22-25 | a named split is found exactly when some entry has that name |
| Ingest.AnswerList | ragchat/cli/embed_contexts_cli.py:62 | a missing `answers` gives `[]`. A dict gives its `text` or `[]`. Anything else raises |
| Ingest.FirstItem | ragchat/cli/embed_contexts_cli.py:63 | `x[0]` of a truthy value: a list's first item, a string's first character, otherwise an error |
| Ingest.Upserts | ragchat/cli/embed_contexts_cli.py:105-115 | a batch size of 0 raises in `range`. A negative one uploads nothing |
| Ingest.UploadBatches | ragchat/cli/embed_contexts_cli.py:105-115 | the upload loop makes exactly the specified upserts |
| Ingest.BatchesPartition | ragchat/cli/embed_contexts_cli.py:105-106 | the batches concatenate back to the texts |
| Ingest.BatchSizes | ragchat/cli/embed_contexts_cli.py:105-106 | every batch holds between 1 and `batch_size` texts |
| Ingest.BatchStartAt | ragchat/cli/embed_contexts_cli.py:105 | batch `i` starts at `i * batch_size` |
| EmbedContextsCli.LoadDatasetSplit | ragchat/cli/embed_contexts_cli.py:11-29 | a single split is used as is. Otherwise `train` when present, else `validation`, else the first split |
| EmbedContextsCli.ChunkAnswer | ragchat/cli/embed_contexts_cli.py:62-63 | no answers give a null answer (`Null`), and a non-empty list gives its first item. A non-dict `answers` raises (`None`), as in Ingest.AnswerList |
| EmbedContextsCli.ChunkPayload | ragchat/cli/embed_contexts_cli.py:67-74 | the payload has exactly the keys `id`, `chunk_index`, `context_text`, `answer_text`, `raw_context` and `question`. They hold the example index, the chunk index, the chunk text, the answer, and the example’s `context` and `question` (null when missing) |
| EmbedContextsCli.ChunkPayloadsInOrder | ragchat/cli/embed_contexts_cli.py:65-74 | the payloads of one example all carry its index and the chunk index of their position, so their chunk indices strictly increase |
| EmbedContextsCli.Extracted | ragchat/cli/embed_contexts_cli.py:54-76 | one payload per text, each holding its text as `context_text` |
| EmbedContextsCli.ExtractedCount | ragchat/cli/embed_contexts_cli.py:59-74 | there are as many texts as chunks over all examples |
| EmbedContextsCli.ExtractedInOrder | ragchat/cli/embed_contexts_cli.py:59-74 | the payloads are in strictly increasing (example, chunk) order |
| EmbedContextsCli.ExtractChunks | ragchat/cli/embed_contexts_cli.py:54-76 | the loop returns exactly the specified texts and payloads |
| EmbedContextsCli.ContextUploads | ragchat/cli/embed_contexts_cli.py:86-120 | definition without a contract: `None` when no split loads, the split has no `chunks`, or extraction raises. Otherwise the batched upserts of the extracted chunks. EmbedContextsCli.EmbedContexts and EmbedContextsCli.ContextUploadsAligned are about it |
| EmbedContextsCli.EmbedContexts | ragchat/cli/embed_contexts_cli.py:86-120 | a split without `chunks` stops the command. Otherwise the extracted chunks are uploaded batch by batch |
| EmbedContextsCli.ContextUploadsAligned | ragchat/cli/embed_contexts_cli.py:105-115 | upload `i` starts at point id `i * batch_size` and carries the vectors and payloads of exactly that slice |
| EmbedAnswersCli.LoadDatasetSplit | ragchat/cli/embed_answers_cli.py:12-30 | a single split is used as is. Otherwise a non-empty `train`; else a non-empty `validation`; else the first split, and `None` when there is no split at all. A split chosen is always one of the named splits |
| EmbedAnswersCli.LoadersAgreeOnTrain | ragchat/cli/embed_answers_cli.py:24-28 | both commands pick the same split when `train` is present and non-empty |
| EmbedAnswersCli.LoadersDifferOnEmptyTrain | ragchat/cli/embed_answers_cli.py:24-28 | with an empty `train` before a non-empty `validation`, the contexts command takes `train` and the answers command takes `validation` |
| EmbedAnswersCli.NormalizeAnswer | ragchat/cli/embed_answers_cli.py:63 | a string is normalized. Any other value gives `""` |
| EmbedAnswersCli.AnswerPayload | ragchat/cli/embed_answers_cli.py:67-74 | the payload has exactly the keys `id`, `original_example_id`, `answer_text`, `context`, `question` and `hash`. It holds the hash as `id` and `hash`, the example index, the answer, and the example’s `context` and `question` (null when missing) |
| EmbedAnswersCli.Extracted | ragchat/cli/embed_answers_cli.py:55-76 | when no example raises, there is one text and one payload per example with answers |
| EmbedAnswersCli.ExtractedDescribed | ragchat/cli/embed_answers_cli.py:60-74 | each payload holds its answer, the answer's hash as `id` and `hash`, and an example index below the row count. Each answer is in normal form |
| EmbedAnswersCli.ExtractedIdsIncrease | ragchat/cli/embed_answers_cli.py:60-74 | `original_example_id` strictly increases, so no example contributes twice |
| EmbedAnswersCli.ExtractAnswers | ragchat/cli/embed_answers_cli.py:55-76 | the loop returns exactly the specified answers and payloads |
| EmbedAnswersCli.AnswerUploads | ragchat/cli/embed_answers_cli.py:86-123 | definition without a contract: the same for the answers, uploaded without start ids. EmbedAnswersCli.EmbedAnswers and EmbedAnswersCli.AnswerUploadsLeaveIds are about it |
| EmbedAnswersCli.EmbedAnswers | ragchat/cli/embed_answers_cli.py:86-123 | a split without `answers` stops the command. Otherwise the answers are uploaded batch by batch |
| EmbedAnswersCli.AnswerUploadsLeaveIds | ragchat/cli/embed_answers_cli.py:113-118 | answer uploads never set a start id |
| RagService.FormatUuid | backend/api/services/rag_service.py:21 | definition without a contract: the 8-4-4-4-12 slices of the digest joined by dashes. RagService.UuidLayout and RagService.UuidDropDashes state its layout |
| RagService.UuidLayout | backend/api/services/rag_service.py:21 | on a 32-character digest prefix the id has 36 characters, dashes at 8, 13, 18 and 23, and the digest characters in order elsewhere |
| RagService.UuidDropDashes | backend/api/services/rag_service.py:18-21 | dropping the dashes of the id gives back the first 32 hex digits |
| RagService.IsBlank | backend/api/services/rag_service.py:14 | definition without a contract: a missing text, or one that is only whitespace |
| RagService.IngestPayload | backend/api/services/rag_service.py:26-30 | the payload has exactly the keys `context_text`, `raw_context` and `source`. It stores the normalized text under the first two, and `user_ingest` as the source |
| RagService.IngestText | backend/api/services/rag_service.py:8-51 | a blank text is rejected with the error response and nothing is upserted. Otherwise the normalized text is upserted under its content id, with its embedding (or `[]`), and the ok response names that id and text |
| RagService.IngestIdempotent | backend/api/services/rag_service.py:17-21 | texts with the same normal form get the same id, point and response |
| RagService.IngestAgain | backend/api/services/rag_service.py:17-21 | ingesting the stored text again is ingesting the original |
| Users.IsRegularUser | backend/users/models.py:49-51 | definition without a contract: type `user` and not staff. The role lemmas below relate it to Users.IsAdminUser |
| Users.IsAdminUser | backend/users/models.py:53-55 | definition without a contract: type `admin` or staff |
| Users.NewUser | backend/users/models.py:15-20 | a new account is of type `user` |
| Users.NeverBoth | backend/users/models.py:49-55 | no account is both a regular user and an admin user |
| Users.RegularIffNotAdmin | backend/users/models.py:10-12 | for a type among the choices, regular is exactly not admin |
| Users.StaffIsAdmin | backend/users/models.py:53-55 | staff alone makes an account an admin user, whatever its type |
| Users.NewUserRole | backend/users/models.py:15-20 | a new account is regular exactly when it is not staff, and admin exactly when it is |
| Analytics.Keep | backend/analytics/views.py:30-42 | a filter keeps exactly the members satisfying the condition, and never more members than it started with |
| Analytics.KeepKeep | backend/analytics/views.py:30-42 | chained filters are one filter on the conjunction |
| Analytics.KeepPartition | backend/analytics/views.py:104-106 | a condition and its negation split the events between them |
| Analytics.FilterEvents | backend/analytics/views.py:14-44 | definition without a contract: the start, end, channel and success filters, each applied only when its parameter asks for it, in the view's order. Analytics.FilterEventsSelects and Analytics.FilterEventsMembership state what it keeps |
| Analytics.FilterEventsSelects | backend/analytics/views.py:14-44 | the filter chain keeps, in order, exactly the events meeting every active condition |
| Analytics.FilterEventsMembership | backend/analytics/views.py:14-44 | an event is kept exactly when it is an event and meets every active condition |
| Analytics.ChannelAllIgnored | backend/analytics/views.py:36-37 | a missing or empty channel, or `all`, filters nothing by channel |
| Analytics.OtherSuccessIgnored | backend/analytics/views.py:39-42 | a success parameter other than `true` or `false` filters nothing by outcome |
| Analytics.SuccessFilterOutcome | backend/analytics/views.py:39-42 | with `true` every kept event succeeded, and with `false` every one failed |
| Analytics.SuccessRate | backend/analytics/views.py:124 | rate × total = successful. The rate is 0 for no events, and lies between 0 and 1 |
| Analytics.SummaryOf | backend/analytics/views.py:104-124 | the total is the event count, successful + failed = total, and the rate is successful / total |
| Analytics.AnalyticsSummary | backend/analytics/views.py:98-129 | a method other than GET gets 405. Otherwise the summary of the filtered events |
| Analytics.Contains | backend/analytics/views.py:63-67 | Python `in`: key of a dict, element of a list, substring of a string, otherwise a `TypeError` |
| Analytics.Record | backend/analytics/views.py:76-88 | `channel`, `question`, `answer`, `latency_ms`, `num_contexts` and `top_score` take the payload's value when truthy and their default otherwise. `success` is the truthiness of the value, or true when the key is absent. `error_type` and `session_id` are the value as given, or `None` when the key is absent. `metadata` defaults to `{}` |
| Analytics.AnalyticsLog | backend/analytics/views.py:48-94 | definition without a contract: the reply of `analytics_log` for a method and body. The four AnalyticsLog lemmas below state its cases |
| Analytics.AnalyticsLogLadder | backend/analytics/views.py:48-67 | the first checks, in this order: 405 for a non-POST method; then 400 for a blank body; then 400 for invalid JSON. An empty JSON object gets the missing-question 400 |
| Analytics.AnalyticsLogMissingField | backend/analytics/views.py:63-67 | a JSON object without `question`, or with it but without `answer`, gets the matching 400 |
| Analytics.AnalyticsLogSaved | backend/analytics/views.py:48-90 | a saved event came from a POST with a non-empty JSON object holding both fields, and the stored record is built from that payload |
| Analytics.AnalyticsLogNonObject | backend/analytics/views.py:63-69 | a JSON value that is not an object either fails a field test or ends in an uncaught error; it is never saved |
| Analytics.SortDays | backend/analytics/views.py:152-154 | the distinct days, sorted strictly ascending, with the same members |
| Analytics.Days | backend/analytics/views.py:139-144 | a day is among the keys exactly when some event falls on it |
| Analytics.Tally | backend/analytics/views.py:141-150 | definition without a contract: the counters of one day after the events. Analytics.TallyAddsUp is about it |
| Analytics.CountByDay | backend/analytics/views.py:139-150 | the day keys in first-appearance order. Each day's counts are the tally of its events |
| Analytics.AnalyticsDaily | backend/analytics/views.py:133-156 | a method other than GET gets 405. Otherwise one row per day of the filtered events, sorted |
| Analytics.TallyAddsUp | backend/analytics/views.py:146-150 | each day's total is its successes plus its failures |
| Analytics.DailyRows | backend/analytics/views.py:139-154 | definition without a contract: one row per day in ascending order, with that day's counters. Analytics.DailyRowsShape and Analytics.DailyRowsCountAll state its properties |
| Analytics.DailyRowsShape | backend/analytics/views.py:139-154 | row days strictly ascend. A day has a row exactly when some event falls on it. Each row has total = success + failed ≥ 1 |
| Analytics.DailyRowsCountAll | backend/analytics/views.py:139-154 | the totals of the rows add up to the number of events |

## Left out

- Model loading, inference, sampling, beam search and decoding are left out. They are represented by `Model.complete`, and the tokenizers by token-count parameters.
- The GPU/CPU device choice and the generation settings are left out.
- `clean_text` is a parameter. It is imported from `ragchat/utils.py`, but that file does not define it.
- `_t5_build` tokenizes the bare prompt into `ids` at line 64 and never uses it. The model leaves it out.
- The `\w` class is approximated. It is ASCII letters, digits, `_`, Latin letters up to U+024F, and the letters and digits of the Arabic block. Python's full Unicode tables are not modelled.
- Evaluation.Lower: only ASCII letters are lower-cased, where Python's `lower()` covers all of Unicode.
- The F1 and BLEU scores are exact reals rather than floating point. The internals of `sacrebleu.corpus_bleu` are a parameter.
- SHA-256, UTF-8 encoding and `make_hash_id` are parameters. `make_hash_id` is imported from `ragchat/data/utils.py`, but that file does not define it.
- `json.loads` and `ChatEvent.objects.create` are parameters. The date parsing of the `start`/`end` query parameters is a parameter too. Days are integers.
- Analytics.FilterEvents: a malformed `start` or `end` date is not modelled. The date parser is total, so the validation error the database layer raises for such a date, and Django's error response for it, are left out of the summary and daily endpoints.
- Daily keys: the source sorts `str(day)` strings. The model sorts integer days, which is the same order for ISO dates with four-digit years.
- An event's timestamp is reduced to its day.
- Qdrant is left out: collection creation (`prepare_qdrant`, `prepare_qdrant_collection`), the search itself and the upsert transport.
- The index search is a parameter. It returns the hits, or `None` when it raises; the failure propagates through `similar_contexts` and `ask`.
- An upsert is recorded as a value: the vectors, payloads and start id of the call.
- Dataset loading from disk is left out; the model starts from the loaded splits.
- `DatasetDict` values are never `None`, so that case is left out.
- A `chunks` value that is not a list is treated as a failure of the command.
- The `try`/`except` blocks around logging, and errors that end a command, are modelled as the command stopping (`None`). The log messages are left out.
- Analytics.AnalyticsLog: an uncaught exception, such as `in` on a number or `.get` on a list, is `Crashed`. Django's error response for it is left out.
- Analytics.AnalyticsLog: the metadata serializability check (lines 69-74) is left out. Values produced by `json.loads` always serialize, so it cannot fail.
- `request.body.decode()` on invalid UTF-8 is left out.
- Analytics.AnalyticsSummary: the average latency, average score and per-channel breakdown of `analytics_summary` (lines 108-118, 125-127) are not modelled. They aggregate floating-point columns in the database.
- The top-questions, export and dashboard endpoints are not modelled. Neither is `staff_member_required`.
- The user profile fields, `Meta` and `__str__` are left out. `is_staff` is taken as given from Django's account model.
- Concurrency and the web server are left out.

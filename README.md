# Citation step of a retrieval-augmented chatbot, in Dafny

The chatbot answers a question with a language model over retrieved PDF pages.
Its `ask` function gets back the answer text and the source documents the
retriever returned. It then decides which citations to show:

- When the answer contains "I don't know" or "don't know", it shows no
  citations.
- Otherwise it walks the documents in retrieval order. Each document becomes
  the key `(basename(source), page)`. A missing `source` counts as `""` and a
  missing `page` as `"?"`.
- A `seen` set keeps each key only the first time it appears.

The chat loop reads questions until one is `exit` or `quit`. Case does not
matter, and neither does surrounding whitespace.

The model has three modules:

- `PyStrings` (`py_strings.dfy`) defines the Python string operations used:
  - `sub in s`;
  - `str.rfind`;
  - POSIX `os.path.basename`;
  - ASCII `str.lower`;
  - `str.strip` with Python's whitespace set.
- `StableDedup` (`stable_dedup.dfy`) defines keep-first de-duplication, `Dedup`. Its lemmas pin it down completely: no duplicates, the same values as its input, first-seen order, and uniqueness of any sequence with those three properties.
- `RagChatbot` (`rag_chatbot.dfy`) holds:
  - the documents and citations;
  - the refusal test;
  - the key of a document;
  - the specification `ExpectedReply` of what `ask` hands back;
  - `Ask` itself, a loop with a `seen` set proved equal to `ExpectedReply`;
  - the properties of the citations;
  - the exit test and the chat loop.

`ask` as written prints the citations and returns nothing. Its Streamlit
caller in `app.py` (line 18) calls `ask(user_input, return_data=True)` and
unpacks the result as `answer, citations`. But `def ask(question)`
(rag_chatbot.py line 81) takes no `return_data` parameter, so as written that
call raises `TypeError` before `ask` runs. The model's `Ask` returns the answer
together with the citations it would print, in print order. That is the shape
the caller expects.

`os.path.basename` raises `TypeError` on a `source` that is not text, for
example a number. `Ask` models that case as `SourceTypeError(i, printed)`.
Here `i` is the first such document and `printed` holds the citations already
printed for the documents before it. The refusal test runs before any
document is read, so a refusal never raises this error. The chat loop does
not catch the exception, so it ends there.

## Model

| member | source | states |
|---|---|---|
| RagChatbot.ExpectedReply | rag_chatbot.py:88-105 | The specification of what `ask` hands back. A refusal gives the answer with no citations. Otherwise, if some source is not text, the result is the TypeError at the first such document, carrying the de-duplicated keys of the documents before it. Otherwise the result is the answer with the keep-first de-duplication of all document keys. |
| RagChatbot.IsRefusal | rag_chatbot.py:89 | The refusal test: the answer contains "I don't know" or contains "don't know". |
| RagChatbot.HasTextSource | rag_chatbot.py:99 | The `source` that `os.path.basename` accepts: absent, so the default "" is used, or text. A number raises TypeError. |
| RagChatbot.Ask | rag_chatbot.py:88-105 | The loop with the `seen` set returns exactly `ExpectedReply`. A refusal gives no citations. A non-text source gives the TypeError at the first such document, with the citations printed before it. Otherwise the result is the keep-first de-duplication of the document keys. |
| RagChatbot.RefusalIsDontKnow | rag_chatbot.py:89 | The refusal test holds exactly when the answer contains "don't know"; the "I don't know" alternative adds nothing. |
| RagChatbot.NoCitationsExactlyWhen | rag_chatbot.py:88-105 | The reply is an answer with no citations if and only if the answer contains "don't know" or no document was retrieved. |
| RagChatbot.RefusalExample | rag_chatbot.py:88-92 | A refusal cites nothing even though a document was retrieved. |
| RagChatbot.Key | rag_chatbot.py:99-102 | A key's name never contains '/'. A missing source gives the name "". A missing page gives the page "?". A present page is kept unchanged. |
| RagChatbot.KeyOfJoinedPath | rag_chatbot.py:99 | A document whose source is `dir/name` is cited under `name`, whatever `dir` is. |
| RagChatbot.FirstBadSource | rag_chatbot.py:98-99 | It is `None` exactly when every source is absent or text. Otherwise it is the first index whose source is not text. |
| RagChatbot.Keys | rag_chatbot.py:98-102 | There is one key per document. |
| RagChatbot.KeysAt | rag_chatbot.py:98-102 | The key at position k is the key of document k. |
| RagChatbot.CitationsComeFromDocuments | rag_chatbot.py:98-105 | Every citation is the key of some retrieved document whose source is text. |
| RagChatbot.EveryKeyCitedOnce | rag_chatbot.py:96-105 | For a non-refusal with text sources, every document's key is cited. No citation repeats. There are as many citations as distinct keys. |
| RagChatbot.CitationsInFirstSeenOrder | rag_chatbot.py:96-105 | Citations appear in the order in which their keys first occur among the documents. |
| RagChatbot.CitationsShape | rag_chatbot.py:96-105 | No citation name contains '/'. There are at most as many citations as documents. No citation repeats. |
| RagChatbot.SourceTypeErrorExactlyWhen | rag_chatbot.py:89-105 | `ask` fails if and only if the answer is not a refusal and some source is not text. It fails at the first such document. The citations printed before the failure are exactly those `ask` gives for the documents before that one. |
| RagChatbot.CitationsStable | rag_chatbot.py:96-105 | De-duplicating the citations again leaves them unchanged. |
| RagChatbot.SameKeyTwiceCitedOnce | rag_chatbot.py:96-105 | Two documents with the same key and one without metadata give two citations: the shared key first, then ("", "?"). |
| RagChatbot.IsExitCommand | rag_chatbot.py:114 | The stop test: the line, lower-cased and then stripped, is "exit" or "quit". |
| RagChatbot.PaddedQuitStops | rag_chatbot.py:113-114 | The line "\tQUIT  ", as `input()` returns it without its newline, stops the loop. |
| RagChatbot.ExitWithMoreTextContinues | rag_chatbot.py:114 | The input "exit now" does not stop the loop. |
| RagChatbot.ExitCommandMeaning | rag_chatbot.py:114 | An input stops the loop if and only if it is whitespace, then "exit" or "quit" in any ASCII case, then whitespace. |
| RagChatbot.ExitCommandSplit | rag_chatbot.py:114 | An input that stops the loop splits into whitespace, an exit word in some case, and whitespace. |
| RagChatbot.ExitWordPadded | rag_chatbot.py:114 | An exit word in any ASCII case with whitespace around it stops the loop. |
| RagChatbot.ChatLoop | rag_chatbot.py:112-116 | The loop ends in one of three ways. It stops at an exit command. It stops when `ask` raises for a question, with that error. Otherwise it runs out of input, and only then have all the lines been answered. Each answered question before the end is not an exit command, and its reply is exactly `ask`'s. |
| PyStrings.Contains | rag_chatbot.py:89 | `sub in s` holds exactly when `sub` occurs at some index of `s`. |
| PyStrings.RFind | rag_chatbot.py:99 | Gives the last index holding the character, or -1 when the character does not occur. |
| PyStrings.Basename | rag_chatbot.py:99 | The result is a suffix of the path with no '/' in it. Either it is the whole path or a '/' stands right before it. |
| PyStrings.BasenameIsAfterLastSlash | rag_chatbot.py:99 | Basename is the part of the path after its last '/'. |
| PyStrings.BasenameUnique | rag_chatbot.py:99 | The properties in Basename's contract determine its result. |
| PyStrings.BasenameOfPlainName | rag_chatbot.py:99 | A name without '/' is its own basename. |
| PyStrings.BasenameOfJoin | rag_chatbot.py:99 | The basename of `dir + "/" + name` is `name`. |
| PyStrings.BasenameIdempotent | rag_chatbot.py:99 | Taking the basename twice gives the same result as taking it once. |
| PyStrings.Lower | rag_chatbot.py:114 | `str.lower` on ASCII: each of 'A'..'Z' becomes the matching 'a'..'z', and every other character is kept. The length is unchanged. |
| PyStrings.IsSpace | rag_chatbot.py:114 | Exactly the characters for which Python's `str.isspace` holds, which are the ones `str.strip()` removes: U+0009-U+000D, U+001C-U+0020, U+0085, U+00A0, U+1680, U+2000-U+200A, U+2028, U+2029, U+202F, U+205F and U+3000. |
| PyStrings.Strip | rag_chatbot.py:114 | `str.strip()`: drops the leading whitespace, then the trailing whitespace of what remains. |
| PyStrings.LeadingSpace | rag_chatbot.py:114 | Counts the whitespace characters at the start, stopping at the first non-whitespace character. |
| PyStrings.TrailingSpace | rag_chatbot.py:114 | Counts the whitespace characters at the end, stopping at the last non-whitespace character. |
| PyStrings.StripBounds | rag_chatbot.py:114 | `strip` removes whitespace on both sides and leaves a result that is empty or has non-whitespace ends. |
| PyStrings.StripUnique | rag_chatbot.py:114 | Whitespace, then a part with non-whitespace ends, then whitespace: that middle part is the result of `strip`. |
| StableDedup.FirstIndex | rag_chatbot.py:103-104 | Gives the first position of a value. |
| StableDedup.Dedup | rag_chatbot.py:96-105 | Keep-first de-duplication gives values from the input, none of them twice, and no more values than the input has. |
| StableDedup.DedupElements | rag_chatbot.py:96-105 | Every input value appears in the result, and no other value does. |
| StableDedup.DedupAppend | rag_chatbot.py:103-105 | One more value extends the result by that value exactly when it has not been seen. |
| StableDedup.DedupFirstSeenOrder | rag_chatbot.py:96-105 | The result keeps the order of first occurrence. |
| StableDedup.DedupCardinality | rag_chatbot.py:96-105 | There is one result entry per distinct input value. |
| StableDedup.FirstSeenOrderedUnique | rag_chatbot.py:96-105 | Two duplicate-free sequences with the same values, both in first-seen order, are equal. |
| StableDedup.DedupCharacterised | rag_chatbot.py:96-105 | No duplicates, the same values and first-seen order together define the de-duplication. |
| StableDedup.DedupOfDistinct | rag_chatbot.py:96-105 | A duplicate-free input is returned unchanged. |
| StableDedup.DedupIdempotent | rag_chatbot.py:96-105 | De-duplicating twice gives the same result as de-duplicating once. |
| StableDedup.DedupRepeatThenNew | rag_chatbot.py:103-105 | For a repeated value followed by a new one, the repeat is dropped. |

## Left out

- Building the question-answering chain is not modelled (rag_chatbot.py lines 1-78): embeddings, the Chroma store, the Groq model, the multi-query retriever and the prompt. It is foreign code. Its result, the answer text and the list of source documents, becomes the input of `Ask`.
- The call `qa({"query": question})` (line 82) is left out for the same reason.
- All printing is left out of `Ask` and `ChatLoop`: the answer, the "CITATIONS:" header, "No relevant sources found." and each `- name, p.page` line. The lines `Ask` would print are its citations, in order.
- `input()` is modelled as a sequence of turns. Each turn holds the line read and what the chain returns for it. Running out of input, which raises `EOFError` in Python, ends `ChatLoop` with `InputExhausted`.
- RagChatbot.ChatLoop: takes the chain call `qa(...)` (line 82) never to raise. The only exception from `ask` it models is the `TypeError` of `os.path.basename`. A failing chain call would also end the loop, after printing nothing for that question.
- Metadata values other than text and whole numbers are not modelled. Floats and booleans keep the page unchanged, and as a source they raise the same TypeError, just as numbers do. Metadata keys other than `source` and `page` are not modelled either; `ask` never reads them.
- PyStrings.Lower: lowercases ASCII only. Python's `str.lower` also maps other letters, and some of them change length. This does not change which inputs stop the loop. Outside ASCII, only two characters lower to an ASCII letter:
  - U+0130 lowers to 'i' followed by U+0307. U+0307 is neither whitespace nor a letter of "exit" or "quit", so `strip` keeps it and the result cannot be "exit" or "quit".
  - The Kelvin sign U+212A lowers to 'k', which is in neither word.
- PyStrings.Basename: models POSIX `os.path.basename` only. The Windows flavour, which also splits at '\\' and ':', is not modelled.
- Windows paths in general, bytes paths and `os.PathLike` sources are not modelled.
- `build_kb.py`, `inspect_db.py` and the Streamlit page `app.py` are not part of this model, apart from the reply shape `app.py` expects.

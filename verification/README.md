# Sentiment API core in Dafny

This project models the small stateful and text-processing core of an airline-tweet
sentiment service (a FastAPI app with a TF-IDF + logistic-regression model):

- **Wrong-prediction alerting** (`api/main.py`, module `FeedbackApi`). A `/feedback`
  request that says a prediction was wrong writes a `WRONG_PREDICTION` line to an
  append-only feedback log. Its time then joins `wrong_predictions_buffer`, a sliding
  window of recent wrong predictions. Times older than `now - 5 min` are popped from the
  front (strict `<`), `now` is appended, and while the window holds 3 or more times an
  `ALERT` line with that count is written. The module-level state is the class
  `FeedbackService`; `buffer` and `log` are its fields. A ghost history `calls` lets the
  invariant say that the buffer is exactly the window left by the calls so far
  (`Run(calls)`).
- **Text preprocessing** (`scripts/preprocessing.py`, module `Preprocessing`).
  - `normalize_basic` is a chain of `re.sub` rewrites: lower-case, drop URLs, mentions and
    every `"rt"`, blank symbols, collapse whitespace, strip. Each rewrite is a left-to-right
    scan like `re.sub`'s. Its output is proved to be lower-case letters, digits and single
    inner spaces, with no URL, mention or `"rt"` left. It is also proved idempotent.
  - `preprocess_bert` is proved well spaced, free of URLs and mentions, and idempotent.
    Every character it returns is a space or a character of its input, and on text without
    URLs and mentions it keeps every word as it is.
  - What the rewrites keep. The URL and mention rewrites copy the text before the first
    match unchanged, replace that match by one space and go on after it. The `"rt"`
    rewrite splits at every `"rt"` it meets. With the identity lemmas (match-free text
    is unchanged) this fixes each of the three rewrites on every input. No match crosses
    a whitespace character, so each of them also works separately on either side of one.
    Whitespace collapsing and stripping keep the words of `str.split()`.
  - The token filters are order-preserving filters (`Sequences.Keep`) with exact
    subsequence and multiplicity contracts.
  - `str.split()` and `" ".join` are proved to invert each other on words and on
    well-spaced text.
  - NLTK's tokenizer, lemmatizer and English stop-word list are parameters (datatype `Nltk`).
- **Model loader** (`api/model_loader.py`, module `ModelLoader`). The label threshold and
  `label_to_str` are pure functions. The load-once `_model` global is the class
  `ModelCache<M>`: whether the model file exists, and what it holds, are parameters.

Timestamps are integers in microseconds, the resolution of Python's `datetime`; the
window is `5 * 60 * 1_000_000`.

One behaviour worth knowing, proved as written:
- `Preprocessing.NegationsAfterRemoveStopwords` shows that `"no"`, although taken out of
  the stop words on purpose, never survives `remove_stopwords`, because of its
  `len(t) > 2` test. `"not"`, `"nor"` and `"never"` always survive.

## Model

| member | source | states |
|---|---|---|
| FeedbackApi.Expired | api/main.py:98-100 | lazy eviction pops exactly the leading times strictly older than the cutoff; the first time kept is at least the cutoff, so a time equal to it stays |
| FeedbackApi.Evict | api/main.py:98-100 | no contract of its own; `Expired`, `DropsOnlyExpired` and `ExpiredCallExcluded` state what it removes and keeps |
| FeedbackApi.Observe | api/main.py:98-102 | no contract of its own; characterised by `ObserveStaysInWindow`, `ObserveKeepsWindowSorted` and `DropsOnlyExpired` |
| FeedbackApi.Run | api/main.py:98-102 | no contract of its own; `TrailingStep` and `RunIsTrailingWindow` prove it is the suffix of the call times within 5 minutes of the latest |
| FeedbackApi.AlertFor | api/main.py:104-109 | an ALERT is written exactly when the window holds at least 3 times, at most one per call, carrying the window's size and 5 minutes |
| FeedbackApi.ObserveStaysInWindow | api/main.py:98-102 | after a call at `now` (times non-decreasing) every time in the window lies in `[now - 5 min, now]`; one at the cutoff is kept |
| FeedbackApi.ObserveKeepsWindowSorted | api/main.py:99-102 | with non-decreasing call times the window stays sorted |
| FeedbackApi.DropsOnlyExpired | api/main.py:99-102 | eviction removes only a prefix: the new window is a suffix of the calls so far plus `now`, and everything cut off is older than the cutoff |
| FeedbackApi.TrailingStep | api/main.py:98-102 | one call turns the trailing in-window part of the history into the trailing in-window part of the extended history |
| FeedbackApi.RunIsTrailingWindow | api/main.py:95-102 | with non-decreasing call times the buffer is exactly the suffix of the call times within 5 minutes of the latest call; it ends with the latest call |
| FeedbackApi.NoEvictionWithinWindow | api/main.py:98-102 | when every call is within the window of the latest one, nothing is evicted and the window counts every call |
| FeedbackApi.ExpiredCallExcluded | api/main.py:98-100 | a call older than the latest minus 5 minutes is no longer in the window, and neither is anything before it |
| FeedbackApi.SparseCallsNeverAlert | api/main.py:98-109 | calls more than 5 minutes apart leave only the latest call in the window and never alert |
| FeedbackApi.BurstAlertsOnEveryCall | api/main.py:98-109 | calls at t, t+1s, t+2s alert with count 3 (not before); a fourth at t+3s alerts again with count 4 (level-triggered) |
| FeedbackApi.LateCallAfterBurst | api/main.py:98-109 | after that burst, a call at t+6min finds all earlier calls expired: window of one, no alert |
| FeedbackApi.AppendCallLines | api/main.py:113-123 | appending a call's WRONG_PREDICTION line and its possible ALERT line adds exactly that call to the recorded history and keeps every alert right after its own event |
| FeedbackApi.FeedbackService.constructor | api/main.py:34 | the process starts with an empty buffer and has appended no log line yet |
| FeedbackApi.FeedbackService.AppendFeedbackLog | api/main.py:86-92 | the log gains exactly the one entry at its end; nothing else changes |
| FeedbackApi.FeedbackService.CheckAndUpdateAlerts | api/main.py:95-110 | the `pop(0)` loop plus append leaves the evicted window followed by `now`; the log gains exactly the alert for the new window's size |
| FeedbackApi.FeedbackService.LogWrongPrediction | api/main.py:113-123 | one WRONG_PREDICTION line, then at most one ALERT line, appended after the untouched old log; the buffer stays the window of all calls |
| FeedbackApi.FeedbackService.Feedback | api/main.py:74-83 | the reply is always "received"; a correct feedback changes nothing, a wrong one runs the alerting path |
| Preprocessing.NonSpaceRun | scripts/preprocessing.py:18 | the `\S*` prefix stays inside the text and stops only at whitespace or at the end |
| Preprocessing.NonSpaceRunIsRun | scripts/preprocessing.py:18 | that prefix holds no whitespace, so it is the longest such prefix |
| Preprocessing.WordRun | scripts/preprocessing.py:19 | the `\w*` prefix stays inside the text and stops only at a non-word character or at the end |
| Preprocessing.WordRunIsRun | scripts/preprocessing.py:19 | that prefix is all word characters |
| Preprocessing.SpaceRun | scripts/preprocessing.py:28 | the `\s*` prefix stays inside the text and stops only at a non-space character or at the end |
| Preprocessing.SpaceRunIsRun | scripts/preprocessing.py:28 | that prefix is all whitespace |
| Preprocessing.Lower | scripts/preprocessing.py:23 | same length, no upper-case letter left, only upper-case letters changed, and each A-Z becomes the matching a-z |
| Preprocessing.UrlMatch | scripts/preprocessing.py:18 | no contract of its own; its length is the greedy `\S` run of `NonSpaceRun`/`NonSpaceRunIsRun`, and `NoUrl` is "zero at every position" |
| Preprocessing.RemoveUrls | scripts/preprocessing.py:24 | no contract of its own; characterised by `RemoveUrlsFirstUrl` with `RemoveUrlsIdentity` (which together fix it on every input), `RemoveUrlsLeavesNoUrl`, `RemoveUrlsAtSpace` and `RemoveUrlsCharsFrom` |
| Preprocessing.RemoveUrlsCharsFrom | scripts/preprocessing.py:24 | every character of the rewrite is a space or a character of the input |
| Preprocessing.RemoveUrlsAtSpace | scripts/preprocessing.py:18-24 | for any whitespace character `c`, the URL rewrite of `u + [c] + v` is the rewrite of `u`, then `c`, then the rewrite of `v`: no URL match crosses whitespace |
| Preprocessing.RemoveUrlsFirstUrl | scripts/preprocessing.py:18-24 | when no URL starts inside `u` and one starts at `v`, the rewrite of `u + v` is `u` unchanged, one space for the URL's whole non-space run, then the rewrite of what follows it |
| Preprocessing.RemoveUrlsLeavesNoUrl | scripts/preprocessing.py:18-24 | no URL match survives the URL rewrite anywhere in the text |
| Preprocessing.MentionMatch | scripts/preprocessing.py:19 | no contract of its own; its length is `@` plus the `\w` run of `WordRun`/`WordRunIsRun`, and `RemoveMentionsLeavesNoMention` shows no match is left |
| Preprocessing.RemoveMentionsCharsFrom | scripts/preprocessing.py:25 | every character of the rewrite is a space or a character of the input |
| Preprocessing.RemoveMentions | scripts/preprocessing.py:25 | the rewrite starts with a space or with the input's first character; `RemoveMentionsFirstMention` with `RemoveMentionsIdentity` fix it on every input |
| Preprocessing.RemoveMentionsAtSpace | scripts/preprocessing.py:19-25 | for any whitespace character `c`, the mention rewrite of `u + [c] + v` is the rewrite of `u`, then `c`, then the rewrite of `v`: no mention crosses whitespace |
| Preprocessing.RemoveMentionsFirstMention | scripts/preprocessing.py:19-25 | when no mention starts inside `u` and one starts at `v`, the rewrite of `u + v` is `u` unchanged, one space for `@` and its word characters, then the rewrite of what follows (so `@united's` gives ` 's`) |
| Preprocessing.RemoveMentionsLeavesNoMention | scripts/preprocessing.py:19-25 | no `@` directly followed by a word character survives |
| Preprocessing.RemoveMentionsKeepsNoUrl | scripts/preprocessing.py:25 | removing mentions never creates a URL |
| Preprocessing.ReplaceRT | scripts/preprocessing.py:26 | the rewrite starts with a space or with the input's first character; `ReplaceRTAtRT` with `ReplaceRTIdentity` fix it on every input |
| Preprocessing.ReplaceRTAtSpace | scripts/preprocessing.py:26 | for any whitespace character `c`, the `"rt"` rewrite of `u + [c] + v` is the rewrite of `u`, then `c`, then the rewrite of `v` |
| Preprocessing.ReplaceRTAtRT | scripts/preprocessing.py:26 | the rewrite of `u + "rt" + v` is the rewrite of `u`, one space, then the rewrite of `v`: only the two letters are replaced (`"party"` gives `"pa y"`) |
| Preprocessing.ReplaceRTLeavesNoRT | scripts/preprocessing.py:26 | no `"rt"` substring survives |
| Preprocessing.ReplaceRTKeepsNoUrl | scripts/preprocessing.py:26 | replacing `"rt"` never creates a URL |
| Preprocessing.MaskSymbols | scripts/preprocessing.py:27 | same length; every character is a-z, 0-9 or whitespace; a-z, 0-9 and whitespace are kept where they stand, anything else becomes a space |
| Preprocessing.MaskSymbolsKeeps | scripts/preprocessing.py:27 | blanking never creates a URL, an `"rt"` or a mention |
| Preprocessing.CollapseSpaces | scripts/preprocessing.py:28 | the output starts with a space exactly where the input starts with whitespace; `CollapseSpacesKeepsWords` states that the words are kept |
| Preprocessing.CollapseSpacesCharsFrom | scripts/preprocessing.py:28 | every character of the rewrite is a space or a character of the input |
| Preprocessing.CollapseSpacesKeepsWords | scripts/preprocessing.py:28 | collapsing whitespace keeps the words of `str.split()` exactly |
| Preprocessing.CollapseSpacesSingle | scripts/preprocessing.py:28 | afterwards all whitespace is a plain ' ' and no two spaces are adjacent |
| Preprocessing.CollapseSpacesKeepsNoUrl | scripts/preprocessing.py:28 | collapsing whitespace never creates a URL |
| Preprocessing.CollapseSpacesKeepsPairs | scripts/preprocessing.py:28 | collapsing whitespace never creates an `"rt"` or a mention |
| Preprocessing.CollapseSpacesNormal | scripts/preprocessing.py:27-28 | masked text collapses to lower-case alphanumerics and ' ' only |
| Preprocessing.StripLeft | scripts/preprocessing.py:28 | `lstrip`: a suffix of the input, not starting with whitespace |
| Preprocessing.StripLeftRemovesSpace | scripts/preprocessing.py:28 | everything `lstrip` removes is whitespace |
| Preprocessing.StripRight | scripts/preprocessing.py:28 | `rstrip`: a prefix of the input, not ending with whitespace |
| Preprocessing.StripRightRemovesSpace | scripts/preprocessing.py:28 | everything `rstrip` removes is whitespace |
| Preprocessing.Strip | scripts/preprocessing.py:28 | no contract of its own; characterised by `StripIsSlice`, `StripEnds`, `StripIdentity`, `StripKeepsWords` and `StripCharsFrom` |
| Preprocessing.StripCharsFrom | scripts/preprocessing.py:28 | `strip` brings in no character |
| Preprocessing.StripKeepsWords | scripts/preprocessing.py:28 | `strip` keeps the words of `str.split()` exactly |
| Preprocessing.StripIsSlice | scripts/preprocessing.py:28 | `strip` returns a contiguous slice of its argument |
| Preprocessing.StripEnds | scripts/preprocessing.py:28 | what `strip` returns neither starts nor ends with whitespace |
| Preprocessing.StripWellSpaced | scripts/preprocessing.py:28 | stripping collapsed text leaves no space at either end and single inner spaces |
| Preprocessing.StripKeeps | scripts/preprocessing.py:28 | stripping never creates a URL, an `"rt"` or a mention, and text of only a-z, 0-9 and ' ' stays so |
| Preprocessing.LowerIdentity | scripts/preprocessing.py:23 | lower-casing leaves text without upper-case letters unchanged |
| Preprocessing.RemoveUrlsIdentity | scripts/preprocessing.py:24 | the URL rewrite leaves URL-free text unchanged |
| Preprocessing.RemoveMentionsIdentity | scripts/preprocessing.py:25 | the mention rewrite leaves mention-free text unchanged |
| Preprocessing.ReplaceRTIdentity | scripts/preprocessing.py:26 | the `"rt"` rewrite leaves `"rt"`-free text unchanged |
| Preprocessing.MaskSymbolsIdentity | scripts/preprocessing.py:27 | masking leaves alphanumeric-and-whitespace text unchanged |
| Preprocessing.CollapseSpacesIdentity | scripts/preprocessing.py:28 | collapsing leaves text with single ' ' spaces unchanged |
| Preprocessing.StripIdentity | scripts/preprocessing.py:28 | stripping leaves text without whitespace at its ends unchanged |
| Preprocessing.NoiseRemoved | scripts/preprocessing.py:23-26 | after the first four rewrites no URL and no `"rt"` is left |
| Preprocessing.MaskedAndCollapsed | scripts/preprocessing.py:27-28 | masking and collapsing keep those absences and leave only a-z, 0-9 and single spaces |
| Preprocessing.NormalizeBasic | scripts/preprocessing.py:22-29 | output is only a-z, 0-9 and ' ', well spaced (no leading, trailing or double space), with no URL, no `@` mention and no `"rt"` |
| Preprocessing.NormalizeBasicWords | scripts/preprocessing.py:22-29 | the output's words are exactly the words of the text after the lower-case, URL, mention, `"rt"` and symbol rewrites |
| Preprocessing.NoiseStepsFix | scripts/preprocessing.py:23-26 | the first four rewrites leave normalised text unchanged |
| Preprocessing.LayoutStepsFix | scripts/preprocessing.py:27-28 | masking, collapsing and stripping leave normalised text unchanged |
| Preprocessing.NormalizeBasicFixes | scripts/preprocessing.py:22-29 | text already in normalised shape is a fixed point of `normalize_basic` |
| Preprocessing.NormalizeBasicIdempotent | scripts/preprocessing.py:22-29 | normalising twice is normalising once |
| Preprocessing.PreprocessBert | scripts/preprocessing.py:70-78 | output is well spaced, with no URL and no mention |
| Preprocessing.PreprocessBertKeepsChars | scripts/preprocessing.py:70-78 | every output character is a space or a character occurring in the input |
| Preprocessing.PreprocessBertWords | scripts/preprocessing.py:74-76 | the output's words are exactly the words of the input with URLs and mentions replaced by spaces |
| Preprocessing.PreprocessBertKeepsWords | scripts/preprocessing.py:70-78 | on text without URLs and mentions the output has exactly the input's words, in order, case and punctuation included |
| Preprocessing.PreprocessBertFixes | scripts/preprocessing.py:74-76 | text already in that shape is a fixed point of `preprocess_bert` |
| Preprocessing.PreprocessBertIdempotent | scripts/preprocessing.py:70-78 | BERT preprocessing twice is preprocessing once |
| Preprocessing.Words | scripts/preprocessing.py:97 | no contract of its own; characterised by `WordsAreTokens`, `WordsJoinWords`, `JoinWordsWords` and `NoWordsIffBlank` |
| Preprocessing.JoinWords | scripts/preprocessing.py:56 | no contract of its own; `WordsJoinWords` and `JoinWordsWords` prove it inverse to `Words` |
| Preprocessing.WordsAreTokens | scripts/preprocessing.py:97 | `str.split()` yields non-empty words without whitespace |
| Preprocessing.WordsJoinWords | scripts/preprocessing.py:56 | splitting a `" ".join` of words gives the words back |
| Preprocessing.JoinWordsWords | scripts/preprocessing.py:56-67 | joining the words of well-spaced text gives the text back |
| Preprocessing.NoWordsIffBlank | scripts/preprocessing.py:97 | a text has no words exactly when it is all whitespace |
| Preprocessing.StopWords | scripts/preprocessing.py:10-13 | the stop set is the English list minus exactly the four negation words |
| Preprocessing.TokenizeText | scripts/preprocessing.py:32-33 | no contract of its own: it is the tokenizer parameter applied to the text |
| Preprocessing.RemoveStopwords | scripts/preprocessing.py:36-37 | in order, exactly the tokens not in the stop set and longer than 2, each with its full multiplicity |
| Preprocessing.NegationsAfterRemoveStopwords | scripts/preprocessing.py:36-37 | "not", "nor", "never" keep every occurrence; "no" is always dropped by the length test |
| Preprocessing.LemmatizeTokens | scripts/preprocessing.py:40-41 | one lemma per token, position by position |
| Preprocessing.LongTokens | scripts/preprocessing.py:65 | in order, exactly the tokens of length at least 2, each with its full multiplicity |
| Preprocessing.PreprocessSimple | scripts/preprocessing.py:47-56 | no contract of its own; characterised by `PreprocessSimpleWords` |
| Preprocessing.PreprocessSimpleWords | scripts/preprocessing.py:47-56 | when every lemma is a word, splitting the output gives back exactly the lemmas, in order, of the normalised-text tokens that are not stop words and longer than 2; there are no more words than tokens |
| Preprocessing.LongTokensRoundTrip | scripts/preprocessing.py:65-67 | joining the kept tokens with spaces and splitting again gives exactly the kept tokens |
| Preprocessing.PreprocessAdvanced | scripts/preprocessing.py:59-67 | no contract of its own; characterised by `PreprocessAdvancedWords` |
| Preprocessing.PreprocessAdvancedWords | scripts/preprocessing.py:59-67 | splitting the output gives back, in order and with multiplicity, exactly the tokens of length at least 2 |
| Preprocessing.Preprocess | scripts/preprocessing.py:81-89 | succeeds exactly for "simple", "advanced" and "bert", each dispatched to its function; any other mode is an error naming it |
| Preprocessing.WordCount | scripts/preprocessing.py:97 | no contract of its own; `NoWordsIffBlank` shows it is 0 exactly for a missing or blank cell, and `DropShortTexts` keeps rows by it |
| Preprocessing.DropShortTexts | scripts/preprocessing.py:92-110 | in order, exactly the rows with at least `min_len` whitespace-separated words, a missing cell counting 0; the input is a value and is not changed |
| Sequences.Keep | scripts/preprocessing.py:37 | a list comprehension with a filter: a subsequence, every element passes, each passing value keeps its multiplicity |
| ModelLoader.LabelToStr | api/model_loader.py:43-44 | 0 maps to "negative" and every other label to "positive", nothing else |
| ModelLoader.LabelFor | api/model_loader.py:38 | the label is 0 or 1, and 1 exactly when the score is at least 0.5 |
| ModelLoader.LabelStrOfScore | api/model_loader.py:38-44 | a score is called "positive" exactly when it reaches 0.5 |
| ModelLoader.ModelCache.constructor | api/model_loader.py:17 | the cache starts empty |
| ModelLoader.ModelCache.LoadModel | api/model_loader.py:20-29 | a cached model is returned unchanged without looking at the file; with nothing cached a missing file is an error that leaves the cache empty, otherwise the file's model is cached and returned |
| ModelLoader.ModelCache.PredictSentiment | api/model_loader.py:32-40 | errors exactly when nothing is cached and the file is missing; otherwise scores the simply-preprocessed text with the cached model and labels it 0 or 1 by the 0.5 threshold |
| ModelLoader.LoadTwice | api/model_loader.py:20-29 | once a load succeeds, a later load returns the same model whatever the file's state |

## Left out

- The FastAPI app, CORS middleware, the `/health` and `/predict` route wrappers, the lifespan hook and the creation of the `logs` directory: transport and start-up glue.
- `threading.Lock` around the window update: calls are modelled one at a time.
- `datetime.utcnow()`: the time is a parameter `now`. The source reads the clock two or three times per wrong prediction: for the WRONG_PREDICTION stamp (`api/main.py:88`), for the window update (`api/main.py:96`) and, only when an alert is written, for the ALERT stamp (`api/main.py:88` again). The model uses one `now` for all of them.
- The log file itself: `log` is the sequence of lines this process appends. `api/main.py:91` opens `logs/feedback.log` in append mode and never truncates it, so lines written by earlier runs stay before them; those earlier lines are not modelled, and the empty `log` at start means no line appended yet. ISO-8601 formatting, `json.dumps` and the French wording of the alert message are left out. The message's count and its minutes (`300 / 60`, printed as 5) are kept.
- `print` calls in `_check_and_update_alerts`, `load_model` and `drop_short_texts`: console output only.
- Preprocessing.Lower: `str.lower()` is modelled on ASCII A-Z only; other letters are left as they are.
- Preprocessing.MentionMatch: `\w` is modelled as ASCII `[A-Za-z0-9_]`; Python's `\w` also matches non-ASCII letters and digits.
- NLTK's tokenizer, WordNet lemmatizer and English stop-word corpus are parameters. Their contents are not modelled.
- The `isinstance(text, str)` / `str(text)` conversion in the three preprocessing modes: texts are strings in the model.
- pandas in `drop_short_texts`: a frame is a sequence of rows, and the text column is a function from a row to an optional string. `astype(str)` of non-string cells is not modelled. The `df.copy()` calls need no model, because sequences are values.
- joblib loading and scikit-learn's `predict_proba`: the stored model is an opaque value and the positive-class score is a function parameter.
- The default arguments `mode="simple"` and `min_len=2`: callers pass both.
- `app/streamlit_app.py` and its display truncation: user interface.
- The `/stats` and `/wrong_feedbacks` endpoints that `app/streamlit_app.py:10-11` calls: `api/main.py` does not define them, and it keeps no prediction counters, error rate or list of recent wrong predictions to model.

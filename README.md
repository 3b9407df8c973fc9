# Research assistant core: text utilities and the insight agent

This project models the deterministic core of a small research-assistant
pipeline (search papers, summarize them, synthesize an insight) and proves
properties of it in Dafny.

- `utils/helpers.py` has two string transforms, modelled in `helpers.dfy`
  (module `Helpers`):
  - `sanitize_text` replaces every whitespace run with one space and then
    strips the ends. It is a recursive collapse (`CollapseSpace`) followed by
    `Strip`, and it is proved equal to `" ".join(text.split())`. Falsy input
    (`None` or `""`) gives `""`.
  - `simple_moderation_filter` loops over the blacklist `password`, `ssn`,
    `secret` and redacts each word case-insensitively. It is a `method` whose
    `for` loop is proved against the left fold `RedactAll`, over the
    leftmost-non-overlapping substitution `Redact`.
- `agents/insight_agent.py` has `InsightAgent`, modelled in
  `insight_agent.dfy` (module `Insight`). It is a `class` with
  `modelName`, `providedClient` and the mutable field `client`.
  - `_create_client` is the pure ladder `CreateClient`.
  - `analyze` is the method `Analyze` (`modifies this`). It is proved equal to
    the step function `AnalyzeStep`, which returns the new client and the
    returned string.
  - The process environment is an input value `Env`: whether
    `huggingface_hub` imports, the value of `HUGGINGFACE_API_KEY`, and whether
    `InferenceClient(...)` raises.
  - The remote chat-completion call is a function from a client and a
    `Request` to an `Outcome` (`Success(content)` or `Failure`).
  - Module `InsightExamples` restates the two insight tests of
    `tests/test_extra.py` as lemmas.
- `py_str.dfy` (module `PyStr`) holds the Python string built-ins both files
  use:
  - `str.isspace`, which is also the `\s` class of a `str` regex;
  - `str.strip()`;
  - `str.join`;
  - `str.split()` with no argument, as the reference the sanitizer is
    compared against;
  - the slice `s[:n]`.
- `wrappers.dfy` holds `Option`.

A failed completion call returns the fixed failure marker from the `except`
branch and never reaches the offline path (agents/insight_agent.py:106-108);
`Analyze` and `AnalyzeStep` model that.

## Model

| member | source | states |
|---|---|---|
| Helpers.SanitizeText | utils/helpers.py:6-10 | `None` and `""` give `""`. Every result is normalized: no whitespace at either end, no two whitespace characters in a row, and no whitespace character other than `' '`. The result is never longer than the input. |
| Helpers.SanitizeIsSplitJoin | utils/helpers.py:6-10 | For every string, `sanitize_text` equals `" ".join(text.split())`: the words of the text, in order, with exactly one space between neighbours. |
| Helpers.SpaceBetweenWords | utils/helpers.py:10 | Two words around any non-empty whitespace run become the two words around one `' '`; the run is replaced, not deleted. |
| PyStr.Split | utils/helpers.py:10 | The reference definition of `str.split()`: every part is a non-empty run without whitespace, and there are no parts exactly when the text is all whitespace. |
| Helpers.CollapseTrimmed | utils/helpers.py:10 | For text that does not start with whitespace, the collapse gives its words joined by single spaces, followed by one space exactly when the text ends in whitespace. |
| Helpers.CollapseLead | utils/helpers.py:10 | A leading whitespace run becomes one space in front of the collapse of the rest. |
| Helpers.SingleSpacedMeaning | utils/helpers.py:10 | The recursive "single-spaced" shape holds exactly when the only whitespace is `' '` and no two neighbouring characters are both whitespace (both directions). |
| Helpers.CollapseSpace | utils/helpers.py:10 | `re.sub(r"\s+", " ", s)`: the result is empty exactly when `s` is, starts with whitespace exactly when `s` does, is single-spaced, and is no longer than `s`. `CollapseLead` and `CollapseTrimmed` give its exact output. |
| PyStr.AsciiSpace | utils/helpers.py:10 | Among ASCII characters, `\s` matches space, the controls `\t` to `\r` and the separators U+001C to U+001F, and nothing else. |
| Helpers.CollapseKeepsText | utils/helpers.py:10 | The collapse keeps every non-whitespace character in order: removing whitespace from the input and from the output gives the same string. |
| Helpers.SanitizeKeepsText | utils/helpers.py:6-10 | `sanitize_text` keeps every non-whitespace character of its input, in order. |
| Helpers.StripNormalizes | utils/helpers.py:10 | `strip()` of a single-spaced string is normalized. |
| Helpers.CollapseFixes | utils/helpers.py:10 | A single-spaced string is unchanged by the collapse. |
| Helpers.NormalizedFixes | utils/helpers.py:6-10 | A normalized string is its own sanitization. |
| Helpers.SanitizeIdempotent | utils/helpers.py:6-10 | Sanitizing twice equals sanitizing once. |
| Helpers.SimpleModerationFilter | utils/helpers.py:13-23 | The loop returns the fold of `Redact` over the blacklist. The result holds no blacklisted word in any ASCII letter case. It equals the input exactly when the input held none. |
| Helpers.ModerationOrder | utils/helpers.py:19-22 | The words are applied in order: "password", then "ssn", then "secret". |
| Helpers.LowerMeaning | utils/helpers.py:22 | Under `re.IGNORECASE` two characters match exactly when they are equal or are the same ASCII letter in the two cases. |
| Helpers.RedactFirst | utils/helpers.py:22 | The leftmost occurrence is replaced: the text before it is copied, the occurrence becomes "[REDACTED]", and the scan resumes after it. |
| Helpers.OverlapExample | utils/helpers.py:22 | "sssn" with the word "ssn" becomes "s[REDACTED]": a near-match overlapping the occurrence does not hide it. |
| Helpers.RedactUnchanged | utils/helpers.py:22 | One `re.sub` leaves text without a case-insensitive occurrence of the word unchanged. |
| Helpers.CopyPrefix | utils/helpers.py:22 | Characters that cannot start the word are copied as they are, and the scan continues after them. |
| Helpers.InsideWord | utils/helpers.py:22 | The pattern has no word boundaries: the word is redacted in the middle of a longer word. |
| Helpers.ClassnoteExample | utils/helpers.py:22 | "classnote" with the word "ssn" becomes "cla[REDACTED]ote". |
| Helpers.NoMatchAtStart | utils/helpers.py:22 | A substitution never creates a match of a letter word at the start of its output. |
| Helpers.RedactClean | utils/helpers.py:22 | After substituting `w`, the text holds no occurrence of `w`. It holds no occurrence of another blacklist-style word `v` either, if the input held none. |
| Helpers.CleanAfterRedaction | utils/helpers.py:22 | No occurrence of a blacklist word starts inside "[REDACTED]". |
| Helpers.ModerationClean | utils/helpers.py:19-23 | After the filter, none of the three words occurs in any ASCII letter case. |
| Helpers.ModerationUnchanged | utils/helpers.py:19-23 | The filter returns its input exactly when the input holds none of the words (both directions). |
| Helpers.ModerationIdempotent | utils/helpers.py:19-23 | Filtering twice equals filtering once. |
| PyStr.Strip | agents/insight_agent.py:104 | `str.strip()`: the result is the slice between the leading and trailing whitespace runs, with non-space edges. It is empty exactly when the input is all whitespace. |
| PyStr.StripFixes | agents/insight_agent.py:104 | A string with non-space edges is unchanged by `strip()`. |
| PyStr.StripPadded | agents/insight_agent.py:112 | `strip()` of whitespace + core + whitespace is the core, when the core has non-space edges. |
| Insight.CombineLayout | agents/insight_agent.py:70 | In the combined text, summary `i` sits at its offset, the next summary follows after exactly one "\n\n", and the last summary ends the text. |
| PyStr.JoinPart | agents/insight_agent.py:70 | Summary `i` appears in the joined text at its offset. The offset counts every earlier summary and one separator after each. |
| PyStr.JoinOffsetNext | agents/insight_agent.py:70 | Consecutive summaries are exactly one summary and one separator apart, so they appear in input order. |
| PyStr.JoinSeparator | agents/insight_agent.py:70 | Between summary `i` and summary `i + 1` stands exactly `"\n\n"`. |
| PyStr.JoinLength | agents/insight_agent.py:70 | The joined text ends with the last summary; nothing follows it. |
| PyStr.SliceTo | agents/insight_agent.py:112 | `s[:n]` is a prefix of `s`, of length `n` or all of `s`. |
| Insight.CreateClient | agents/insight_agent.py:35-57 | A provided client is returned before anything else is looked at. Otherwise a client exists exactly when the library is installed, the key is set and non-empty, and the constructor does not raise. That client is built from the model name and the key. |
| Insight.InsightAgent.constructor | agents/insight_agent.py:26-29 | The model name defaults to Mixtral-8x7B-Instruct. The provided client and the current client both start as the argument. |
| Insight.InsightAgent.Analyze | agents/insight_agent.py:59-113 | The new client and the returned string are exactly those of `AnalyzeStep`. A provided client is never replaced. |
| Insight.AnalyzeStep | agents/insight_agent.py:59-113 | An empty list gives "No summaries provided for analysis." and keeps the client. An existing client is kept; a missing one comes from the ladder. With a client, the result is the stripped content or the failure marker. Without one, it is the offline fallback of the joined summaries. |
| Insight.EmptyIgnoresEverything | agents/insight_agent.py:67-68 | An empty list's result depends on neither the client, the environment nor the remote model. |
| Insight.RetryAfterFailedCreation | agents/insight_agent.py:73-74 | A call that left the agent without a client is followed by a fresh creation attempt in the next call's environment. |
| Insight.ClientPersists | agents/insight_agent.py:73-74 | Once a client exists, it persists unchanged through any sequence of later calls, whatever the environment then says. |
| Insight.Offline | agents/insight_agent.py:112-113 | The result starts with "Offline insights (fallback): " and is at most prefix + 800 characters long. If the first 800 characters are blank, the rest is "No content.". Otherwise the rest is a slice of the joined text with non-space edges, preceded and followed within the window only by whitespace. |
| Insight.OfflineShort | agents/insight_agent.py:112-113 | Combined text of at most 800 characters with non-space edges comes back whole after the prefix. |
| Insight.OfflineWithoutLibrary | agents/insight_agent.py:38-42 | With no library and no provided client, a non-empty call keeps no client and returns the offline fallback. |
| Insight.ExitsDistinct | agents/insight_agent.py:106-113 | The offline answer is neither the failure marker nor the empty-input answer, so the three exits can be told apart. |
| Insight.RequestShape | agents/insight_agent.py:91-102 | `BuildRequest` carries the agent's model and two messages: the fixed system message, then the user message whose content is the prompt built from the combined summaries and begins with the fixed instructions. It sets 300 max tokens and temperature 0.7. |
| Insight.UserPrompt | agents/insight_agent.py:78-87 | The prompt is the fixed instructions, then the combined summaries unchanged, then the closing request, and nothing else. |
| Insight.PromptCarriesSummary | agents/insight_agent.py:78-87 | Every summary appears in the user prompt at its place in the joined text, after the fixed instructions. |
| InsightExamples.MockedClient | tests/test_extra.py:22-35 | A client whose completion is "  mocked insight  " makes `analyze` return "mocked insight". |
| InsightExamples.OfflineExample | tests/test_extra.py:12-19 | With no library, two summaries give "Offline insights (fallback): Paper A summary.\n\nPaper B summary.". |

## Left out

- agents/search_agent.py, agents/summarizer_agent.py, app.py, main.py and tests/conftest.py are not part of this model. They are HTTP and feed parsing, a wrapper around a summarization pipeline, UI and CLI printing, and import-path setup.
- tests/test_extra.py:38-73 expect a retrying search agent and summarizer options that the code does not have; they are not modelled.
- The `print` diagnostics, `load_dotenv` and `os.getenv` are left out. The environment they read is the input value `Env`.
- The real `InferenceClient` and the text the language model writes are left out. The call is an arbitrary function from a client and request to an `Outcome`.
- Helpers.Lower: `re.IGNORECASE` is modelled as ASCII case folding. Python's special folds, such as U+017F "ſ" matching "s" or U+212A KELVIN SIGN matching "k", are not modelled. So `ModerationClean` speaks of ASCII letter case only.
- Insight.CreateClient: a provided client is taken as truthy whenever it is present. A provided object that is falsy but not `None` would skip the ladder's first rung. It would still be stored in `client` and used, since `analyze` tests `is not None`; this case is not modelled.
- Insight.InsightAgent.Analyze: the response structure `response.choices[0].message["content"]` is abstracted. An exception raised while reading it is one more `Failure`.
- `sanitize_text` is modelled on `str` values and `None`. Other falsy arguments, such as an empty list, are outside its declared type and are not modelled.

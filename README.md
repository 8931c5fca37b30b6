# coding_agent — a Dafny model of its own logic

The application is a Streamlit front end to a group chat of seven language-model agents and
a user proxy. The agents are a requirement agent, a coding agent, a review agent, a
documentation agent, a test-case agent, a deploy agent and a UI agent; the user proxy `User`
has no language model. A user's request goes into the chat, and the chat stops when some
agent writes `PROJECT_COMPLETE`, in any letter case, or after at most 8 rounds.
Turn-taking, speaker selection and the round loop run inside the autogen library, which is
not part of this model. This project models what the repository itself computes:

- **Termination** (`termination.dfy`): `is_termination_msg`. The content is read with
  `msg.get("content", "")` and upper-cased, then searched for `PROJECT_COMPLETE`. Missing
  content is never terminal. `None`, list and dict content raise AttributeError in
  `.upper()`. The `isinstance` guard comes after that call, so it turns away only `bytes`.
- **Display** (`display.dfy`): after a build, the messages from index `previous_len` on are
  shown in log order, each under its `name`. Messages whose content is not a string are
  skipped. A string message without a `name` raises KeyError, and the bubbles shown before
  it stay on screen. The loop is a method, proved equal to a specification function.
- **Seed** (`seed.dfy`): the seed message is `"@RequirementAgent: "` followed by the stripped
  prompt. An empty prompt starts nothing.
- **Registry** (`registry.dfy`): the constant group-chat configuration. It holds the eight
  participants in order, their temperatures, `max_round = 8`, automatic speaker selection,
  repeated speakers allowed, and an empty message list.
- **Code extraction** (`code_extract.dfy`): the test suite's `extract_code` with
  ``PY_CODE_RE = re.compile(r"```python(.*?)```", re.S)``. `findall` is modelled as the
  regular-expression engine's left-to-right scan with a moving position. The scan is
  proved equal to an independent reference: the leftmost, non-overlapping matches that miss
  none. No other list of spans meets that reference.
- **Shared pieces**: `messages.dfy` holds messages as dictionaries with optional keys.
  `text.dfy` holds `upper`, `in`, `strip` and `join`.

Strings are `seq<char>`. `str.upper` is modelled on ASCII letters only. `str.strip()`
removes exactly the characters Python's `str.isspace` accepts.

The repository has no speaker selector, scheduler or error types of its own: it hands
`speaker_selection_method="auto"` to autogen (multi_agent_workflow.py:124). The model
follows the code.

## Model

| member | source | states |
|---|---|---|
| `Termination.TerminalIff` | multi_agent_workflow.py:129-134 | the check answers true exactly when the content is a string whose upper-cased form contains `PROJECT_COMPLETE` |
| `Termination.CaseInsensitive` | multi_agent_workflow.py:130-131 | for string content, the build ends exactly when some stretch of the text upper-cases to the sentinel |
| `Termination.LowerCaseSentinelTerminates` | multi_agent_workflow.py:130-131 | content containing `project_complete` ends the build |
| `Termination.CaseBlind` | multi_agent_workflow.py:130-131 | two texts equal up to ASCII letter case get the same answer |
| `Termination.MissingContentNeverTerminal` | multi_agent_workflow.py:130-134 | a message with no `content` key defaults to `""` and answers false |
| `Termination.NoUpperRaises` | multi_agent_workflow.py:130 | `None`, list or dict content raises AttributeError(`upper`) |
| `Termination.GuardOnlyRejectsBytes` | multi_agent_workflow.py:130-131 | for `str` content the `isinstance` guard always passes and the answer is the substring test; for `bytes` the answer is false |
| `Termination.GuardedAgrees` | multi_agent_workflow.py:129-134 | the guard-first check never raises, agrees with the check as written wherever that one does not raise, and answers false exactly where it raises |
| `Termination.NoneContentExample` | multi_agent_workflow.py:130 | a message with `None` content raises in the check as written and is not terminal in the guard-first check |
| `Text.ContainsUpper` | multi_agent_workflow.py:130-131 | finding a pattern in the upper-cased text is the same as finding a stretch of the text that upper-cases to it |
| `Text.StripKeepsCore` | multi_agent_workflow.py:179 | `strip()` keeps one slice. Only whitespace lies outside it, the kept text neither starts nor ends with whitespace, and nothing is kept exactly when the prompt is all whitespace |
| `Text.StripPadding` | multi_agent_workflow.py:179 | padding a text with whitespace on either side leaves its stripped form unchanged |
| `Text.StripIdempotent` | multi_agent_workflow.py:179 | stripping twice equals stripping once |
| `Text.JoinAppend` | tests/test_pipeline.py:63 | joining two non-empty lists puts exactly one separator between their joins |
| `Text.JoinLength` | tests/test_pipeline.py:63 | the join of a non-empty list is exactly as long as all its parts together plus one separator between each two neighbouring parts |
| `Display.DisplayNewMessages` | multi_agent_workflow.py:174-188 | the display loop, with its `continue` and its KeyError on a missing name, renders exactly the specification rendering of `messages[previous_len:]` |
| `Display.RenderStaysStopped` | multi_agent_workflow.py:184-188 | once `msg["name"]` has raised, later messages change nothing |
| `Display.TextIndices` | multi_agent_workflow.py:183-186 | the indices kept are in range, strictly increasing, and include every string-content index of the slice |
| `Display.RenderShowsTextMessages` | multi_agent_workflow.py:184-188 | the display finishes exactly when every string message is named. It then shows those messages in log order, each under its own name; otherwise it stops with KeyError(`name`) |
| `Display.RenderStopsAtFirstUnnamed` | multi_agent_workflow.py:185-187 | when the display stops, the screen shows the complete rendering of the messages before the first unnamed string message |
| `Display.NewMessagesExact` | multi_agent_workflow.py:174-188 | when every string message from `previous_len` on has a name, nothing before `previous_len` is shown, and every string message from there on is shown, in order, under its name |
| `Seed.SeedShape` | multi_agent_workflow.py:179 | the seed starts with `@RequirementAgent: `. The rest is a slice of the prompt with only whitespace around it, and it neither starts nor ends with whitespace |
| `Seed.BlankPromptSeedsPrefix` | multi_agent_workflow.py:168-179 | a non-empty prompt of only whitespace seeds the bare prefix |
| `Seed.SeedIgnoresStrippedWhitespace` | multi_agent_workflow.py:179 | stripping the prompt first does not change the seed |
| `Seed.SeedIgnoresPadding` | multi_agent_workflow.py:179 | a prompt padded with whitespace on either side seeds the same message as the bare prompt |
| `Seed.SeedAddressesRegisteredAgent` | multi_agent_workflow.py:176-179 | the seed starts with `@` and the name of the group chat's second participant |
| `Registry.IndexOf` | multi_agent_workflow.py:111-121 | lookup by name returns the first participant with that name, and returns nothing exactly when no participant has it |
| `Registry.LookupUnique` | multi_agent_workflow.py:111-121 | with distinct names, looking up a participant's name returns that participant's position |
| `Registry.GroupChatShape` | multi_agent_workflow.py:106-126 | eight participants, `User` first as a proxy that never asks for input and runs no code. All names differ, `max_round = 8`, selection is automatic, repeated speakers are allowed, and the message list starts empty |
| `Registry.OnlyUserIsProxy` | multi_agent_workflow.py:106-121 | only the first participant is a user proxy; every assistant uses the configured model |
| `Registry.Temperatures` | multi_agent_workflow.py:32-103 | the coding, test-case and UI agents run at 0.2; every other assistant runs at the default 0.0 |
| `Registry.PipelineAgentsRegistered` | tests/test_pipeline.py:38-48 | each agent of the expected pipeline order is registered, at its position after `User` |
| `CodeExtract.FindClose` | tests/test_pipeline.py:55 | any fence the lazy body's end search returns lies inside the text and is a closing fence |
| `CodeExtract.FindCloseFirst` | tests/test_pipeline.py:55 | the fence found is the first at or after the start, and none is found exactly when none exists |
| `CodeExtract.CanMatchIff` | tests/test_pipeline.py:55 | the scan's test at one position agrees with the reference: an opener there and a closing fence somewhere after it |
| `CodeExtract.MatchesAreLeftmost` | tests/test_pipeline.py:55 | every match is an opener, a fence-free body and a closing fence. Matches follow each other without overlap, and no match can start in any stretch the scan passes over |
| `CodeExtract.LeftmostMatchesUnique` | tests/test_pipeline.py:55 | the scan's result is the only list of spans that meets the leftmost-match reference |
| `CodeExtract.MatchesAreMatches` | tests/test_pipeline.py:55 | every span the scan reports is a match of the pattern |
| `CodeExtract.SnippetBetweenFences` | tests/test_pipeline.py:55 | each snippet is the text between an opener and the first closing fence after that opener |
| `CodeExtract.SnippetsHoldNoFence` | tests/test_pipeline.py:55 | no snippet contains a closing fence (the lazy `.*?`) |
| `CodeExtract.SnippetsInOrder` | tests/test_pipeline.py:55 | matches come left to right, and each ends before the next one opens |
| `CodeExtract.UnclosedOpenerContributesNothing` | tests/test_pipeline.py:55 | an opener with no closing fence after it starts no match, and no match opens after it |
| `CodeExtract.NoOpenerNoSnippets` | tests/test_pipeline.py:55 | a text without an opener yields no snippets |
| `CodeExtract.SnippetSpansLines` | tests/test_pipeline.py:55 | with `re.S` a body may contain newlines: one block spanning lines yields that multi-line body |
| `CodeExtract.FindCloseFrom` | tests/test_pipeline.py:55 | the search loop for the closing fence computes the specification's first fence |
| `CodeExtract.FindAll` | tests/test_pipeline.py:55-62 | the scanning loop with its moving position returns exactly the snippets of the specification |
| `CodeExtract.ExtractCode` | tests/test_pipeline.py:57-63 | the loop over messages with `parts.extend`, stopped by the first KeyError, returns the specification's result |
| `CodeExtract.CodePartsStopped` | tests/test_pipeline.py:60-62 | once a message has raised, the messages after it change nothing |
| `CodeExtract.CodePartsAppend` | tests/test_pipeline.py:59-62 | the parts of two stretches of the log come in log order, and the first exception wins |
| `CodeExtract.IgnoredMessage` | tests/test_pipeline.py:61-62 | removing a message from another sender, or the sender's non-string message, leaves the result unchanged |
| `CodeExtract.SenderMessageContributes` | tests/test_pipeline.py:61-62 | a string message of the sender contributes exactly its snippets, after those before it |
| `CodeExtract.ExtractedCodeAppend` | tests/test_pipeline.py:59-63 | the code of two stretches of the log, each with at least one snippet, is the first one's code, a blank line `"\n\n"`, then the second one's code |
| `CodeExtract.NoOpenerNoCode` | tests/test_pipeline.py:57-63 | a log where every message is named, the sender's messages have content, and none of the sender's string messages holds an opener, yields no parts and the empty string |
| `CodeExtract.ExtractCodeExample` | tests/test_pipeline.py:55-63 | with a block from the coding agent and another from the review agent, the coding agent's code is its own multi-line block body alone |

## Left out

- Autogen's `GroupChat`, `GroupChatManager` and `initiate_chat` (multi_agent_workflow.py:111-140, 177-180) are a foreign library: speaker selection (`"auto"` asks a language model), the round loop and round counting are not in the repository. Only the configuration handed to them is modelled.
- Whether `initiate_chat` clears the group chat's message list is library behaviour and is not modelled. A `previous_len` past the end is clamped, as Python's slice clamps it.
- Language-model calls and the agents' system-message texts (multi_agent_workflow.py:39-103) are non-deterministic external completions and prompt prose. The model keeps each agent's name, model name and temperature, not its text.
- Loading the API key and model name from the environment, with `st.error`/`st.stop` (multi_agent_workflow.py:14-23), is I/O. The model name is a parameter of `Registry.Agents`.
- Streamlit rendering, the echo of the user's prompt, the `session_state` bootstrap, the clear button and the sidebar (multi_agent_workflow.py:148-204) are UI. The display is modelled as the list of bubbles it would show.
- The sidebar's "Max rounds per build: 20" (multi_agent_workflow.py:199) contradicts `max_round=8` (line 123). The model uses 8.
- The `print` in the termination check (multi_agent_workflow.py:132) has no effect on the result.
- The tests that assert on model output (tests/test_pipeline.py:16-49, 71-106) need network runs of the pipeline. `extract_code` is modelled; the heuristics on its output are not.
- The `__main__` JSON dump (tests/test_pipeline.py:112-116) is file I/O.
- `Text.UpperChar`: models `str.upper` on ASCII letters only. Python also maps other letters, for example `ſ` to `S` and `ß` to `SS`. `Upper` therefore differs from `str.upper` on such text. The termination check's answer does not, because no character outside ASCII upper-cases to anything that can form part of `PROJECT_COMPLETE`.
- The regular-expression engine is modelled by its semantics for this one pattern, not as a general matcher.

## Findings

| source | as written | input that shows it | evidently intended | confidence | as-written member | corrected member |
|---|---|---|---|---|---|---|
| multi_agent_workflow.py:130-131 | `.upper()` is called before `isinstance(content, str)` is checked, so the guard can never protect that call | a message whose `content` is `None`, such as a tool-call message, raises AttributeError in the termination check | test that the content is a string first, and answer false for anything else | medium; not executed | `Termination.IsTerminationMsg` | `Termination.IsTerminationMsgGuarded` |

The as-written behaviour is exhibited by `Termination.NoneContentExample` and `Termination.NoUpperRaises`. `Termination.GuardedAgrees` proves the corrected check total and equal to the as-written one wherever the latter does not raise.

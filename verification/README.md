# nocap-api fact-check controller, in Dafny

This project models the control logic of `InstagramFactCheckCrew` in
`src/veritas_fact_check_api/crew.py`. That logic has two parts.

**The `run` controller.** It makes up to three pipeline attempts. Each attempt
rebuilds the agents and tasks and kicks off the two-stage crew (fact-checker,
then analysis writer). While the result is longer than 850 characters, the
writer alone is asked for a shorter version. Every exception in an attempt
lands in one handler:

- If its text contains `Ratelimit` and attempts remain, the controller sleeps
  `2 * 2^attempt` seconds and starts over.
- Otherwise it answers with a failure record carrying the exception text.

The agent framework is modelled as a script of outcomes, one per kickoff:
`Ok(text)` or `Err(message)`. Building the agents and tasks is one step that
may raise. The sleep becomes a trace event and the timestamp is a parameter.
With that, `run` is a pure function from the setup outcome and the script to
an envelope plus a trace, and the trace lemmas state what it does step by
step.

**Citation checking.**

- `validate_content` scans a report for `https?://[^\s<>"]+|www\.[^\s<>"]+`
  tokens, the way `re.findall` does. It passes the report when at least two
  tokens pass `validate_url`.
- `validate_url` takes the URL apart as CPython's `urlsplit` does. It requires a
  scheme, a host and an `http://` or `https://` prefix, then asks a HEAD probe.
- The probe, and the `ValueError` checks inside `urlparse`, are parameters: the
  `Network` datatype.

Files:

- `text.dfy` (`Text`): `Option`, the substring test `in`, and powers of two.
- `envelope.dfy` (`Envelopes`): the response records.
- `orchestrator.dfy` (`Orchestrator`): `run` itself.
- `run_properties.dfy` (`RunTraces`, `RunProperties`): the step relation over
  traces, the protocol theorem, its corollaries and worked scenarios.
- `url_scan.dfy` (`UrlScan`): the token scan.
- `url_check.dfy` (`UrlCheck`): `validate_url` and `validate_content`.

Consequences of the code as written:

- **Backoff.** Only 2 and 4 seconds are ever slept. On the third attempt
  `attempt < max_retries - 1` is false, so the third failure returns its own
  text from the handler. The fixed "Maximum retries reached" reply at line 197
  is unreachable (`RunProperties.MaxRetriesEnvelopeUnreachable`).
- **The marker is case-sensitive.** The code looks for `Ratelimit` with a
  lower-case `l`, so an exception whose text is just `RateLimitError` is not
  retried (`RunProperties.MarkerIsCaseSensitive`).
- **Setup errors are caught.** `create_agents` and `create_tasks` run inside
  the `try` (lines 131-132), so their exceptions are handled like any other
  (`RunProperties.SetupFailureNeverKicksOff`).

## Model

All source paths are in `src/veritas_fact_check_api/crew.py`.

| member | source | states |
|---|---|---|
| Orchestrator.RewriteLoop | src/veritas_fact_check_api/crew.py:144-170 | a rewrite loop that completes yields a text of at most 850 characters; an overlong input is never returned without at least one rewrite kickoff |
| Orchestrator.Attempt | src/veritas_fact_check_api/crew.py:130-170 | every attempt begins by rebuilding agents and tasks for that attempt number; a completed attempt's text fits the limit |
| Orchestrator.RunFrom | src/veritas_fact_check_api/crew.py:129-205 | from any attempt on, a returned envelope holds exactly one record stamped with the reply time; a failure record has status "failed"; content is at most 850 characters |
| Orchestrator.Run | src/veritas_fact_check_api/crew.py:125-205 | every reply of `run` is `{"message": [record]}` with one record, either content of at most 850 characters or an error with status "failed", stamped with the reply time |
| RunProperties.RunObeysProtocol | src/veritas_fact_check_api/crew.py:125-205 | every run's trace starts with the rebuild for attempt 0 and follows the controller's step relation; a rebuild raises exactly when the setup step fails, and then with the setup's own message; attempts are numbered 0, 1, ... with one backoff delay between neighbours; kickoffs consume a prefix of the script; the last event decides the envelope |
| RunProperties.SetupExceptionOnlyFromSetup | src/veritas_fact_check_api/crew.py:130-132 | a setup step that succeeds never raises in any attempt; one that fails raises right after the first rebuild, with its own message |
| RunProperties.MaxRetriesEnvelopeUnreachable | src/veritas_fact_check_api/crew.py:182-205 | no run returns from the statement after the attempt loop; every failure record carries the text of the exception the run ended with |
| RunProperties.AtMostThreeAttempts | src/veritas_fact_check_api/crew.py:126-139 | the attempts made are 0, then 1, then 2, never more; the two-stage crew starts at most once per attempt, always right after that attempt's rebuild of agents and tasks |
| RunProperties.SleepSchedule | src/veritas_fact_check_api/crew.py:182-185 | the sleeps are 2 then 4 seconds, one fewer than the attempts; each comes right after a rate-limit exception and right before the next attempt's rebuild; no sleep follows the third attempt |
| RunProperties.NonRateLimitEndsRun | src/veritas_fact_check_api/crew.py:181-195 | an exception without "Ratelimit" in its text is the last event, and the reply is the failure envelope carrying exactly that text |
| RunProperties.RateLimitRetriedUnlessLast | src/veritas_fact_check_api/crew.py:181-195 | a rate-limit exception is followed by a sleep and a new attempt, unless it ends the third attempt; then it is the last event and the reply carries its text |
| RunProperties.RewriteStopsAtFirstFit | src/veritas_fact_check_api/crew.py:141-179 | a kickoff result of at most 850 characters ends the run as the content of the reply; a longer one is followed by a rewrite kickoff (or the script ran out) |
| RunProperties.RewriteOnlyAfterOverlongResult | src/veritas_fact_check_api/crew.py:141-170 | a rewrite kickoff only ever follows a result longer than 850 characters, so a first result that fits is never rewritten |
| RunProperties.ScriptConsumedInOrder | src/veritas_fact_check_api/crew.py:141-167 | kickoffs consume the framework's outcomes in order, one each; a run that stops for want of outcomes has used them all and had a successful rebuild |
| RunProperties.SetupFailureNeverKicksOff | src/veritas_fact_check_api/crew.py:130-195 | when building agents and tasks raises, no crew is kicked off; a rate-limit text is retried with sleeps of 2 and 4 seconds, and the reply carries the text |
| RunProperties.FirstResultFits | src/veritas_fact_check_api/crew.py:141-179 | a first result that fits is returned unchanged after one kickoff |
| RunProperties.OneRewrite | src/veritas_fact_check_api/crew.py:144-179 | an overlong result followed by one that fits gives exactly one rewrite, whose text is the reply |
| RunProperties.RewriteRateLimitRestartsPipeline | src/veritas_fact_check_api/crew.py:129-185 | a rate-limit exception during a rewrite leads to a 2-second sleep and a fresh rebuild and two-stage kickoff, not another rewrite |
| RunProperties.ThreeRateLimits | src/veritas_fact_check_api/crew.py:126-195 | three rate-limit exceptions in a row give sleeps of 2 and 4 seconds and a reply carrying the third exception's own text |
| RunProperties.MarkerIsCaseSensitive | src/veritas_fact_check_api/crew.py:182 | an exception whose text is `RateLimitError` is not retried |
| RunProperties.LacksCharNotRateLimit | src/veritas_fact_check_api/crew.py:182 | a text lacking any one character of "Ratelimit" (such as "ratelimit") is not retried |
| RunProperties.MarkerFirstIsRateLimit | src/veritas_fact_check_api/crew.py:182 | a text that starts with "Ratelimit" is retried |
| Text.Contains | src/veritas_fact_check_api/crew.py:182 | Python's `in` on strings, as a scan over the suffixes of the text; `Text.ContainsIffOccurs` relates it to an occurrence at some offset |
| Orchestrator.IsRateLimit | src/veritas_fact_check_api/crew.py:182 | the retry test on the exception text; `RunProperties.MarkerFirstIsRateLimit`, `RunProperties.LacksCharNotRateLimit` and `RunProperties.MarkerIsCaseSensitive` pin down which texts pass |
| Orchestrator.Backoff | src/veritas_fact_check_api/crew.py:183 | the delay before the next attempt is never below the 2-second base delay |
| RunProperties.BackoffDoubles | src/veritas_fact_check_api/crew.py:183 | the delay is 2 seconds after attempt 0 and doubles with each attempt |
| Text.ContainsIffOccurs | src/veritas_fact_check_api/crew.py:182 | the scanning substring test holds exactly when the marker occurs at some offset of the text |
| Text.MissingCharNotContained | src/veritas_fact_check_api/crew.py:182 | a text lacking one of the marker's characters does not contain the marker |
| UrlScan.RunLength | src/veritas_fact_check_api/crew.py:116 | the greedy class repetition takes the longest prefix of class characters: all taken characters are in the class and the next one is not |
| UrlScan.MatchLength | src/veritas_fact_check_api/crew.py:116 | a match at the start of a text is non-empty and fits in the text; `UrlScan.MatchIsMaximalToken` says exactly which lengths match |
| UrlScan.FindAll | src/veritas_fact_check_api/crew.py:116 | the tokens `re.findall` returns, scanning left to right without overlap; `UrlScan.TokensAreUrlLike`, `UrlScan.TokensAreMaximalSubstrings` and `UrlScan.ExtractUrls` characterise them |
| UrlScan.RunIsUnique | src/veritas_fact_check_api/crew.py:116 | any maximal run of class characters is the one the repetition takes |
| UrlScan.MatchIsToken | src/veritas_fact_check_api/crew.py:116 | a match at the start of a text is a complete token that the next character cannot extend |
| UrlScan.MatchIsMaximalToken | src/veritas_fact_check_api/crew.py:116 | the pattern matches `n` characters at the start of a text exactly when they form a token (an opening plus at least one class character) that the next character cannot extend |
| UrlScan.TokensAreUrlLike | src/veritas_fact_check_api/crew.py:116 | every extracted token starts with `https://`, `http://` or `www.`, has at least one more character, and holds no whitespace, `<`, `>` or `"` |
| UrlScan.ExtractUrls | src/veritas_fact_check_api/crew.py:116 | the left-to-right scan loop, which takes the match at the current position or moves on by one character, yields the tokens of the recursive definition, each a complete token |
| UrlScan.NoTokenIffNoMatch | src/veritas_fact_check_api/crew.py:116-119 | the scan finds no token exactly when the pattern matches at no offset of the text |
| UrlScan.TokensAreMaximalSubstrings | src/veritas_fact_check_api/crew.py:116 | every token occurs in the text and is not followed there by a class character |
| UrlScan.FindAllSplitsAtSeparator | src/veritas_fact_check_api/crew.py:116 | a whitespace, `<`, `>` or `"` character splits the scan: the tokens of the whole are those of the part before it followed by those of the part after it |
| UrlScan.WordIsOneToken | src/veritas_fact_check_api/crew.py:116 | a text that is a single token scans to exactly that token |
| UrlScan.RepeatedCitationScansTwice | src/veritas_fact_check_api/crew.py:116 | the same URL cited twice is extracted twice; tokens are not de-duplicated |
| UrlCheck.UrlSplit | src/veritas_fact_check_api/crew.py:99 | the host `urlparse` reports holds no `/`, `?`, `#`, tab or line break |
| UrlCheck.SplitClean | src/veritas_fact_check_api/crew.py:99 | the host split from a sanitised URL holds no `/`, `?` or `#`, and no tab or line break when the input has none |
| UrlCheck.SplitCleanAfterScheme | src/veritas_fact_check_api/crew.py:99 | a scheme name followed by `://` gives a non-empty scheme and a host that is the text after the slashes up to the first `/`, `?` or `#` |
| UrlCheck.SplitOfHttpUrl | src/veritas_fact_check_api/crew.py:99-100 | for a URL starting with `http://` or `https://` the scheme is non-empty, and the host is empty exactly when the first character after the prefix (tabs and line breaks skipped) is missing or is `/`, `?` or `#` |
| UrlCheck.ValidateUrl | src/veritas_fact_check_api/crew.py:95-111 | a URL passes only if it starts with `http://` or `https://` and the HEAD probe answers 200 |
| UrlCheck.ValidUrlCharacterisation | src/veritas_fact_check_api/crew.py:95-111 | a URL passes exactly when `urlparse` does not raise, an `http://` or `https://` prefix is followed by a host, and the HEAD probe answers 200; any exception gives false |
| UrlCheck.NoProbeWithoutHttpPrefix | src/veritas_fact_check_api/crew.py:103-105 | a URL without an `http://` or `https://` prefix fails whatever the network answers, so `www.` tokens never pass |
| UrlCheck.ValidateContent | src/veritas_fact_check_api/crew.py:113-123 | a report passes only if it has at least two citation tokens |
| UrlCheck.ValidateContentIffTwoValidTokens | src/veritas_fact_check_api/crew.py:113-123 | a report passes exactly when two distinct token positions hold URLs that pass; a report with no token fails |
| UrlCheck.CountWhere | src/veritas_fact_check_api/crew.py:122 | the filtered list is no longer than the token list; `UrlCheck.CountAtLeastOne` and `UrlCheck.CountAtLeastTwo` relate its length to the kept positions |
| UrlCheck.ValidCount | src/veritas_fact_check_api/crew.py:122 | the number of passing tokens is at most the number of tokens |
| UrlCheck.CountAtLeastOne | src/veritas_fact_check_api/crew.py:122 | the filtered list is non-empty exactly when some position holds a kept URL |
| UrlCheck.CountAtLeastTwo | src/veritas_fact_check_api/crew.py:122-123 | the filtered list has at least two entries exactly when two distinct positions hold kept URLs |
| UrlCheck.NoCitationFails | src/veritas_fact_check_api/crew.py:116-119 | a text in which the pattern matches nowhere fails |
| UrlCheck.WwwCitationsNeverCount | src/veritas_fact_check_api/crew.py:103-123 | a report whose tokens all start with `www.` fails whatever the network answers |
| UrlCheck.DuplicateCitationCountsTwice | src/veritas_fact_check_api/crew.py:116-123 | one passing URL cited twice is enough for the report to pass |
| UrlCheck.OneCitationIsNotEnough | src/veritas_fact_check_api/crew.py:122-123 | a report that is a single token fails, however good the URL |

## Left out

- `load_config`, `load_dotenv` and the constructor are left out: they are file and environment I/O and YAML parsing.
- `create_search_tool`, `create_agents` and `create_tasks` become one setup step per attempt, which succeeds or raises with a message. The template rendering inside them is left out. The step is taken to behave the same on every attempt of one run, because it reads the same configuration and post data each time.
- `Crew`, `Task` and `crew.kickoff()` are left out: the agent framework and the LLM are a black box. Each kickoff consumes one scripted outcome. An exception from building a `Crew` or a rewrite `Task` counts as the next kickoff's `Err`.
- The rewrite loop has no iteration bound in the code. The model terminates only because the script is finite; when the script runs out, the run ends as `ScriptExhausted` rather than hanging.
- `time.sleep` becomes a trace event, and the sleeping itself is left out.
- `datetime.now().isoformat()` is left out: one opaque timestamp parameter stands for it. Different calls within one run are not distinguished.
- Exceptions outside `Exception` are left out: `KeyboardInterrupt` and `SystemExit` escape `run`, and the model has no such outcome.
- `requests.head` is left out: the network and redirects are an oracle, `Network.head`. A timeout or connection error is `ProbeRaised`. The oracle is a function of the URL, so every probe of one URL within a check gets the same answer.
- The `ValueError` checks inside `urlparse` are left out: unbalanced IPv6 brackets, invalid bracketed hosts and NFKC-changing hosts are an oracle, `Network.parseRejects`.
- The scheme and host split follows `urlsplit` as of CPython 3.12 and 3.11.4, the releases with the fix for CVE-2023-24329: leading C0 controls and spaces are stripped, and tabs and line breaks are deleted. CPython 3.11.0 to 3.11.3 do not strip leading C0 controls and spaces; security releases of 3.7 to 3.10 received the same fix.
- `validate_url` and `validate_content` are never called by `run` in this file. They are modelled as stand-alone operations.
- `wsgi.py` is left out: it is Flask and gunicorn serving configuration with no logic of its own.
- Concurrency between requests is left out: `run` is single-threaded.
- UrlCheck.ValidateUrl: its contract gives only the necessary conditions. The exact condition is `UrlCheck.ValidUrlCharacterisation`.
- UrlCheck.ValidateContent: its contract gives only the necessary condition. The exact condition is `UrlCheck.ValidateContentIffTwoValidTokens`.
- UrlCheck.DuplicateCitationCountsTwice: it assumes that the two HEAD probes of the repeated URL (line 122 calls `validate_url` once per token, and line 108 makes a request each time) answer the same, because `Network.head` is a function of the URL. A server that answers the two requests differently is not modelled.

# GINI Guardian chat tab: risk-keyword warnings

GINI Guardian is a Streamlit dashboard that warns retail investors against
impulsive trading. Its chat tab ("AI 상담") takes a message and first checks
that it is not blank. It then scans the message for seven risky trigger words:
몰빵 and 올인 (all-in), 빚투 (investing with borrowed money), 레버리지
(leverage), 물타기 (averaging down), 단타 (day-trading) and 추천 (tips). For
every trigger word found it shows a pulsing siren banner with one warning line
picked at random from that word's list, followed by the generic alert
"⚠️ 위험한 투자 패턴 감지!". Only after that does it show the language model's
reply.

This project models that detector in Dafny:

- `text.dfy` (module `Text`) holds the two string primitives. `Strip` is
  Python's `str.strip()`, with the `str.isspace()` character set written out.
  `Contains` is Python's `key in text`.
- `guardian.dfy` (module `Guardian`) holds the rest:
  - the table `WarningTable`, as rows in the dictionary's insertion order;
  - `MatchedKeys`, the pure function for which keys fire;
  - `ScanAlerts`, the loop that builds the alerts;
  - `Send`, the whole button press.

`random.choice` becomes a nondeterministic pick (`:|`) from the key's list.
The contracts say only that the line shown belongs to that list. The model's
reply is an opaque string parameter of `Send`.

The chat tab's only logic is the keyword table, the blank check and the
scan; everything else in `app.py` is page layout, market data and charts.

## Model

| member | source | states |
|---|---|---|
| `Text.IsWhitespace` | app.py:193 | the character set `strip()` removes, Python's `str.isspace()`: TAB to CR, FS to US, SPACE, NEL, NO-BREAK SPACE and the Unicode space and line/paragraph separators |
| `Text.Strip` | app.py:193 | `user_input.strip()`: never longer than the input, and a non-empty result neither starts nor ends with whitespace; `StripIsTrimmedSlice` and `StripEmptyIffBlank` characterise it fully |
| `Text.TrimStart` | app.py:193 | the left half of `strip()`: the result is a suffix of the input, everything cut off is whitespace, and the result does not start with whitespace |
| `Text.TrimEnd` | app.py:193 | the right half of `strip()`: the result is a prefix of the input, everything cut off is whitespace, and the result does not end with whitespace |
| `Text.StripIsTrimmedSlice` | app.py:193 | `strip()` returns a slice `s[i..j]` with only whitespace outside it, and that slice neither starts nor ends with whitespace |
| `Text.StripEmptyIffBlank` | app.py:193-194 | `strip() == ""` holds exactly when every character is whitespace, the empty message included |
| `Text.Contains` | app.py:198 | `k in user_input`: a key that is a prefix is found, and a found key is no longer than the text; `ContainsIffSubstring` characterises it fully |
| `Text.ContainsIffSubstring` | app.py:198 | `k in user_input` holds exactly when `k` occurs at some position as a contiguous, case-sensitive run of characters |
| `Text.SubstringOfExtension` | app.py:198 | an occurrence survives adding text before and after |
| `Guardian.WarningTableWellFormed` | app.py:82-90 | the constant `WarningTable`, the dictionary `경고_메시지` as its rows in insertion order, has seven distinct trigger words, and every list of warning lines is non-empty, so `random.choice` on it is defined |
| `Guardian.Lookup` | app.py:200 | `경고_메시지[k]` for a key of the table: the lines of the row at the key's position `IndexOf` |
| `Guardian.LookupRow` | app.py:197-200 | looking up the key met in the loop (`경고_메시지[k]`) gives that row's own list of lines |
| `Guardian.MatchedKeys` | app.py:197-198 | the keys for which `k in user_input` holds, in table order; at most one per row. `MatchedKeysMembers` and `MatchedKeysInTableOrder` fix the sequence exactly |
| `Guardian.MatchedKeysMembers` | app.py:197-198 | a word is among the matched keys exactly when it is a key of the table and `k in user_input` holds |
| `Guardian.FiresIffSubstring` | app.py:197-198 | a key fires exactly when it occurs as a substring of the message; there is no word-boundary check |
| `Guardian.MatchedKeysInTableOrder` | app.py:197-198 | matched keys come in the table's insertion order, so each key is reported at most once per message |
| `Guardian.ExtendingKeepsMatches` | app.py:198 | appending or prepending text never removes a matched key |
| `Guardian.EmbeddedKeyFires` | app.py:198 | a trigger word glued inside a longer word still fires |
| `Guardian.AllInExample` | app.py:197-198 | "지금 몰빵해서 다 사야겠어" fires 몰빵, although the word is glued to 해서, and fires no other key |
| `Guardian.AlertSequenceAppend` | app.py:199-203 | one loop step for a hit adds a siren banner with a line from that key's list, then the generic alert, and keeps the alert shape |
| `Guardian.ScanAlerts` | app.py:196-203 | the loop shows, for each matched key in table order, a siren banner whose line comes from that key's list, then the generic alert, and nothing else |
| `Guardian.AlertCounts` | app.py:197-203 | the number of generic "위험한 투자 패턴 감지" alerts, and the number of siren banners, each equal the number of matched keys |
| `Guardian.NoTriggerNoAlerts` | app.py:197-203 | a message containing none of the trigger words gets no matched key and no alert |
| `Guardian.Send` | app.py:192-214 | a blank message gets only the "메시지를 입력해주세요." warning: no scan, no request to the model and no reply. Any other message gets the scan's alerts, then one request carrying the message as typed, then the model's reply, so the scan never keeps the reply from being shown |
| `Guardian.AskCount` | app.py:196-212 | the scan's alerts contain no request to the model, so the only request shown for a non-blank message is the one `Send` places after the alerts, carrying the message as typed |

## Left out

- Page setup, CSS, tabs, sidebar and every `st.*` rendering call are left out (app.py:15-64, 133-183, 219-234). `Notice` records only which kind of box is shown and its text.
- The siren banner's markup is left out. The source wraps the chosen line as `<div class='warning-pulse'>🚨 …</div>`; `Siren(line)` keeps only the chosen line.
- The Groq client and the chat-completion call (app.py:69-77, 205-214) are network calls to a hosted model. `Ask(input)` records that the request is made with the raw message; the reply is the `reply` parameter of `Send`, shown as given. The fixed system prompt and model name are not recorded. A failing call is not modelled.
- The spinner text shown while waiting for the model is left out.
- `get_market_data` (yfinance, with a 5-minute cache), `mini_chart` (plotly) and the percentage display are network I/O, charting and floating-point formatting (app.py:95-128, 160-171).
- `random.choice` (app.py:200): only membership of the chosen line in the key's list is modelled, not its distribution.
- Case-sensitivity is exact character comparison. All seven keys are Hangul, which has no case, so no case-folding example applies to this table.

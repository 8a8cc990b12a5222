# GitLab AI assistant: command extraction, CDATA cleaning, truncation

The assistant is a single Streamlit script. It signs a user in, asks a hosted
chat service for Git commands that answer a question, runs the commands in a
local checkout, and asks the service to summarise the result. Everything
except one short chain of string operations is a call into AWS, a subprocess
or the UI. This project models that chain in Dafny and proves what it does:

1. **Command extraction** (`Extract`): the first `<command> … </command>` block
   of the chat reply is found with
   `re.search(r'<command>\s*(.*?)\s*</command>', reply, re.DOTALL).group(1)`.
   The model follows the regular-expression engine step by step. The search
   starts at the first opening tag (`FindFrom`). The greedy `\s*` takes the
   whole whitespace run (`SpaceRunEnd`). The lazy group then grows one
   character at a time until optional whitespace and the closing tag follow
   (`LazyEnd`). A lemma proves that this is the same as a plain description:
   the text between the first `<command>` and the first `</command>` after it,
   stripped (`FirstBlock`). When there is no such pair, `re.search` returns
   `None` and the script raises. The model returns `None` / `NoCommandBlock`.
2. **CDATA unwrapping** (`Cdata`): `clean_cdata` is
   `re.sub(r'<!\[CDATA\[(.*?)\]\]>', r'\1', text).strip()`. The scan runs left
   to right. A match at index `i` ends at the first `]]>` after the opener,
   and it fails if a line feed comes first, because `.` is used without
   DOTALL (`MatchAt`). The substitution (`Sub`) is written as recursion on
   the rest of the text: if the pattern matches at the front, the group is
   emitted and the scan resumes past the `]]>`, so replaced text is never
   rescanned; otherwise one character is copied. The pattern has no anchor
   and no look-behind, so whether and where it matches at an index depends
   only on the text from that index on (`MatchAtShift`); this is why the
   left-to-right scan over the whole text can be written as recursion on
   its suffixes.
3. **Truncation and follow-up prompt** (`FollowUp`): the command output is cut
   to its first 6740 characters. It is then placed, with the question and the
   command, into a fixed template.
4. **The chain** (`Pipeline`): extract, clean, run (`shell` is a parameter),
   truncate, and build the prompt.

Whitespace (`Text.IsSpace`) is Python's full whitespace set. Both `\s` in a
`str` pattern and `str.strip()` use it: U+0009–U+000D, U+001C–U+0020, U+0085,
U+00A0, U+1680, U+2000–U+200A, U+2028, U+2029, U+202F, U+205F and U+3000.
The general lemmas rely on `<` and `>`, the first and last characters of
every tag and of every CDATA section, not being whitespace; the worked
examples also rely on their own first and last characters not being
whitespace.

Three facts about the script shape the model:

- The executor returns standard output only. Standard error is captured and
  discarded. On a non-zero exit it returns the fixed prefix
  `An error occurred while executing the command: ` followed by the text of
  the exception.
- An empty extracted command is passed on like any other.
- A reply without a command block makes `.group` raise on `None`, which ends
  the run. The model makes this the `NoCommandBlock` outcome.

## Model

| member | source | states |
|---|---|---|
| `Text.IsSpace` | gitlab_ai_assistant.py:84 | the whitespace set shared by `str.strip()` here and by `\s` in the extraction pattern (line 149): Python's `str.isspace` characters, given by code point |
| `Text.FindFrom` | gitlab_ai_assistant.py:149 | the result is the first index at or after `i` where the tag occurs; `None` only when it occurs nowhere from `i` on |
| `Text.Strip` | gitlab_ai_assistant.py:84 | `strip()` gives a string with no whitespace at either end, never longer than its input |
| `Text.StripKeepsMiddle` | gitlab_ai_assistant.py:84 | what `strip()` keeps is a slice of the input, and everything cut off on either side is whitespace |
| `Text.StripUnique` | gitlab_ai_assistant.py:84 | for whitespace-only `a` and `b` and a stripped `r`, `strip(a + r + b)` is `r`; strip changes nothing inside the text |
| `Text.StripIdempotent` | gitlab_ai_assistant.py:84 | stripping twice equals stripping once |
| `Text.StripAllSpace` | gitlab_ai_assistant.py:84 | a string made only of whitespace strips to the empty string |
| `Cdata.MatchAt` | gitlab_ai_assistant.py:84 | a match at `i` leaves room for the 9-character opener before its group end and the 3-character closer after it |
| `Cdata.MatchAtMeaning` | gitlab_ai_assistant.py:84 | a match at `i` needs an opener at `i`; its group ends at the first `]]>` after the opener and holds no line feed; with an opener but no match, every later `]]>` has a line feed before it |
| `Cdata.MatchAtShift` | gitlab_ai_assistant.py:84 | whether and where the pattern matches at an index of `t` is the same inside any `a + t`: the pattern has no anchor and no look-behind |
| `Cdata.Sub` | gitlab_ai_assistant.py:84 | the substitution never lengthens the text |
| `Cdata.SubRemovesWholeMarkers` | gitlab_ai_assistant.py:84 | the text shrinks by a multiple of 12, by induction over `SubLengthStep` |
| `Cdata.SubLengthStep` | gitlab_ai_assistant.py:84 | one step of the scan: a match at the front emits exactly its group, drops the 9-character opener and the 3-character closer (12 characters) and resumes right after the closer; otherwise the first character is copied, nothing is dropped and the scan resumes at the next character |
| `Cdata.CleanCdata` | gitlab_ai_assistant.py:83-84 | `clean_cdata` returns text with no whitespace at either end, never longer than its input |
| `Cdata.NoMatchCons` | gitlab_ai_assistant.py:84 | a text has no match exactly when it has none at its first index and its tail has none |
| `Cdata.SubShrinks` | gitlab_ai_assistant.py:84 | if the pattern matches at any index, the output is at least 12 characters shorter |
| `Cdata.SubIdentityIffNoMatch` | gitlab_ai_assistant.py:84 | the substitution returns its input unchanged exactly when the pattern matches nowhere |
| `Cdata.CleanCdataWithoutMatch` | gitlab_ai_assistant.py:83-84 | on text without a match, `clean_cdata` is plain whitespace stripping |
| `Cdata.NoAngleNoMatch` | gitlab_ai_assistant.py:84 | text without `<` holds no match |
| `Cdata.SubCopiesFirst` | gitlab_ai_assistant.py:84 | a first character other than `<` is copied, and the scan goes on with the rest as if alone |
| `Cdata.SubPlainPrefix` | gitlab_ai_assistant.py:84 | text without `<` in front of `t` is copied through unchanged, and `t` is cleaned as if alone |
| `Cdata.SubWrappedPrefix` | gitlab_ai_assistant.py:84 | a leading `<![CDATA[x]]>` whose `x` has no line feed and no `]]>` becomes `x`, and the rest is cleaned as if alone |
| `Cdata.CleanCdataOfWrap` | gitlab_ai_assistant.py:83-84 | round trip: `clean_cdata(<![CDATA[x]]>)` is `strip(x)` for such `x` |
| `Cdata.MultiLineSectionNotMatched` | gitlab_ai_assistant.py:84 | a section whose content has a line feed is not matched at its opener, whatever follows |
| `Cdata.MultiLineSectionKept` | gitlab_ai_assistant.py:83-84 | such a section, with no other `<` in it, is returned by `clean_cdata` unchanged |
| `Cdata.NestedSectionUnwrapsOnce` | gitlab_ai_assistant.py:84 | for any `x` without a line feed and without `]]>`, `<![CDATA[<![CDATA[x]]>]]>` becomes `<![CDATA[x]]>`: the inner opener is content of the first match and is not rescanned |
| `Cdata.CleanCdataNotIdempotent` | gitlab_ai_assistant.py:83-84 | `clean_cdata` is not idempotent: on the nested section around any `x` without a line feed and without `]]>`, a second pass changes the result again |
| `Extract.SpaceRunEnd` | gitlab_ai_assistant.py:149 | the greedy `\s*` stops at the end of the whitespace run: all before it is whitespace and the character at it is not |
| `Extract.LazyEnd` | gitlab_ai_assistant.py:149 | a group end it returns is followed by a whitespace run and the closing tag |
| `Extract.RunStart` | gitlab_ai_assistant.py:149 | the start of the whitespace run that ends at `q`: everything from it to `q` is whitespace and the character before it is not |
| `Extract.LazyEndFirst` | gitlab_ai_assistant.py:149 | the lazy group ends at the first position after which a whitespace run and the closing tag follow |
| `Extract.LazyEndAtFirstClose` | gitlab_ai_assistant.py:149 | the lazy group ends where the whitespace run before the first closing tag begins |
| `Extract.CommandGroup` | gitlab_ai_assistant.py:149 | `re.search(r'<command>\s*(.*?)\s*</command>', reply, re.DOTALL).group(1)`, step by step: first opening tag, greedy `\s*`, lazy group; it has no ensures of its own, and its meaning is given by `CommandGroupIsFirstBlock` and `CommandFoundIff` |
| `Extract.FirstBlock` | gitlab_ai_assistant.py:149 | the reference definition the extraction lemmas are stated against: the stripped text between the first `<command>` and the first `</command>` at or after its end, `None` when either is missing |
| `Extract.CommandGroupIsFirstBlock` | gitlab_ai_assistant.py:149 | the engine-level group equals the stripped text between the first `<command>` and the first `</command>` after it, and both are absent together |
| `Extract.ExtractCommand` | gitlab_ai_assistant.py:149 | the command exists exactly when the group does; it is the cleaned group, has no whitespace at its ends and is no longer than the reply |
| `Extract.CommandFoundIff` | gitlab_ai_assistant.py:149 | extraction succeeds if and only if some `<command>` is followed, at or after its end, by a `</command>` |
| `Extract.CommandBetweenFirstTags` | gitlab_ai_assistant.py:149 | with `p` the first opening tag and `q` the first closing tag after it, the group is the stripped text between them |
| `Extract.CommandHasNoCloseTag` | gitlab_ai_assistant.py:149 | the group (before CDATA cleaning) never contains `</command>` |
| `Extract.FirstBlockWins` | gitlab_ai_assistant.py:149 | text appended after a complete block, further blocks included, does not change the group: the first match wins |
| `Extract.FirstBlockExtend` | gitlab_ai_assistant.py:149 | text appended after the first complete tag pair does not change the text between them |
| `Extract.CommandOfBlock` | gitlab_ai_assistant.py:149 | the reply `<command>x</command>`, with no closing tag inside `x`, yields `strip(x)`: line breaks and spacing inside are kept |
| `Extract.WrappedCloseTagReachesCommand` | gitlab_ai_assistant.py:149 | only the raw group is free of `</command>`: the reply `<command><![CDATA[</]]>command></command>` yields the command `</command>`, because CDATA cleaning runs after the search |
| `FollowUp.CommandOutput` | gitlab_ai_assistant.py:87-99 | success passes standard output through; a non-zero exit yields the fixed error prefix followed by the exception text, and nothing is raised |
| `FollowUp.Truncate` | gitlab_ai_assistant.py:154 | the result is the prefix of the input of length `min(len, 6740)`, so short input is returned unchanged |
| `FollowUp.TruncateIdempotent` | gitlab_ai_assistant.py:154 | truncating twice equals truncating once |
| `FollowUp.FollowUpPrompt` | gitlab_ai_assistant.py:157-164 | the prompt's length is the three fields plus the 162 template characters |
| `FollowUp.FollowUpFieldsRoundTrip` | gitlab_ai_assistant.py:157-164 | round trip: reading the prompt back finds the preamble, the `Question:`, `Git Command:` and `Git Response:` labels and the closing `Summary:` in place, and the question, the command and the response between them verbatim and in this order |
| `FollowUp.FollowUpInjective` | gitlab_ai_assistant.py:157-164 | for a fixed question and command, different responses give different prompts |
| `FollowUp.TruncatedPromptHeadroom` | gitlab_ai_assistant.py:154-164 | after truncation the prompt is at most question + command + 6740 + 162 characters; with long output it stays within 7000 if and only if question and command total at most 98 characters |
| `Pipeline.RunPipeline` | gitlab_ai_assistant.py:149-164 | the run stops with `NoCommandBlock` exactly when no tag pair exists; otherwise it runs the extracted command and the prompt carries its truncated output |
| `Pipeline.SingleBlockReply` | gitlab_ai_assistant.py:149-164 | a single block whose body has no `<` and no whitespace at its ends runs that body verbatim |
| `Pipeline.HelloWorldScenario` | gitlab_ai_assistant.py:149-164 | the five-line branch/add/commit/push sequence in one block is extracted exactly as written, and its output goes into the prompt |

## Left out

- Cognito sign-in, the SSO-OIDC token exchange, STS role assumption and the
  Amazon Q client (gitlab_ai_assistant.py:24-80) are calls into AWS with no
  local logic.
- Decoding the identity token without signature checking
  (gitlab_ai_assistant.py:109) is a library call.
- Both chat calls and their error handling (gitlab_ai_assistant.py:138-146,
  165-173) are network calls. The reply arrives as the `reply` parameter.
- The subprocess itself (gitlab_ai_assistant.py:89-96) is I/O. It runs the
  command unsandboxed through a shell in the fixed checkout. It is the `shell`
  parameter, whose result is either standard output or the exception text.
  Exceptions other than a non-zero exit are not modelled.
- The initial prompt (gitlab_ai_assistant.py:118-136) is a constant template
  that embeds the repository path and the question. Nothing downstream depends
  on its form.
- The Streamlit page, widgets and spinners, `st.stop`, the display of the
  command and of the summary (`st.code`, `st.write`), and the `PATH` change
  (gitlab_ai_assistant.py:10-18, 102-117, 150, 170) are UI and process setup.
- Cdata.Sub: the left-to-right scan of `re.sub` is defined only as
  recursion on suffixes. No index-based scan over the whole text is defined
  beside it, so the agreement of the two readings rests on `MatchAtShift`,
  not on a proved equality between them.

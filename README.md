# SlashPress, modelled in Dafny

SlashPress is a WordPress plugin that connects custom slash commands in
Mattermost or Slack to handlers that other plugins register. It exposes
one REST endpoint per service, `/slashpress/v1/<service_id>/<token|sig>`.
Every incoming command goes through the same steps:

1. **Authentication.** The caller proves who it is in one of two ways. With
   the `token` method, it sends a shared token in the body. With the `sig`
   method, it sends a timestamp header and an HMAC-SHA256 signature over
   the raw body.
2. **Construction.** The command object is built from the body. Building it
   validates the command name and the response URL.
3. **Help shortcut.** A command whose text is the help word (optionally
   followed by terms) goes straight to help.
4. **Dispatch.** Otherwise the command passes through two filter tiers:
   first the filters hooked for that command name, then the generic ones.
5. **Reply.** The reply depends on whether a handler marked the command
   `known` and `handled`. An unclaimed command gets help instead.

The settings page stores which tokens and secrets belong to which service
ids. Its sanitiser turns the posted rows into those two tables.

The project has one module per part of the plugin:

| file | module | models |
|---|---|---|
| `wrappers.dfy` | `Wrappers` | `Option` and `Result` |
| `strings.dfy` | `Strings` | `trim`, PCRE `\s`, `preg_replace('/\s+/', ' ')`, `empty()` on strings, ASCII case folding, `implode` |
| `assoc.dfy` | `Assoc` | PHP arrays as insertion-ordered association lists: `isset`/lookup, `$m[$k][] = $v`, `array_intersect_key`, `array_unique` |
| `php.dfy` | `Php` | request field values; the handler response value (string, other scalar, `null`, array, object): truthiness, `is_scalar`, `(string)` |
| `commands.dfy` | `Commands` | the `Command` class (`classes.php`) |
| `settings.dfy` | `Settings` | the settings `sanitize_callback` (`admin.php`) |
| `auth.dfy` | `Auth` | token and signature authentication |
| `dispatch.dfy` | `Dispatch` | the response filters and help actions, specific then generic |
| `help.dfy` | `Help` | the help-word pattern, topic selection, rendering |
| `pipeline.dfy` | `Pipeline` | the whole REST callback |

Code that changes state step by step is modelled as methods:

- the `Command` class with its setters and `addHelp`;
- the loop over secrets;
- the hook loops;
- the nested help-rendering loop;
- the sanitiser loops.

Each method is proved equal to a pure function: `Command.Snapshot`,
`Authenticate`, `RunFilters`, `Rendered` or `Sanitize`. The lemmas then
state what the plugin promises about that function.

A hooked handler is modelled as a pure function of what it is shown. It
returns the operations it performs on the command object: assigning a
property, or calling `addHelp`. A response filter also returns the new
response. Several parts of the outside world are parameters carried by the
`Env` record:

- the clock;
- HMAC-SHA256;
- WordPress's URL validation (`filter_var`);
- PHP's conversion of the timestamp header to a number.

The signature headers are plain request fields. The code reads them from
`X-Slack-Request-Timestamp` and `X-Slack-Signature`. An authentication
failure gets one of four messages, depending on which check failed:
"Invalid service ID.", "Invalid authentication.", "Unknown requester." or
"Unknown authentication method.". The model returns the same messages.

The `known` setter is modelled as written: it assigns `known` even when
`handled` is set. So a handler can leave a command handled but not known
(`Commands.KnownSetterCanBreakInvariant`). Such a command is then answered
with help, because the reply checks `known` first.

## Model

| member | source | states |
|---|---|---|
| Commands.ParseCommand | classes.php:15-37 | the constructor's checks and the parsed name and response URL, or the message it throws; its properties are the four `ParseCommand…` lemmas below |
| Commands.StripSlash | classes.php:19-20 | `preg_replace('#^/#', '', ...)`: at most one leading `/` removed; what the constructor makes of it is stated by `ParseCommandName` and `ParseCommandExamples` |
| Commands.ParseResponseUrl | classes.php:25-33 | the `response_url` check: no URL for an absent or empty field, the URL when it validates and contains `http:` or `https:`, otherwise "Response URL looks malformed."; stated by `ParseCommandResponseUrl` |
| Commands.ParseCommandRequiresCommandString | classes.php:16-18 | the constructor fails with "Invalid slash command." exactly when `command` is missing, empty (`""`/`"0"`/falsy) or not a string |
| Commands.ParseCommandName | classes.php:19-24 | exactly one leading `/` is removed; the result is rejected with "Empty slash command." exactly when the command was `/` alone; an accepted name is non-empty |
| Commands.ParseCommandExamples | classes.php:16-24 | `/deploy` gives `deploy`, `/` is rejected, `//x` gives `/x` |
| Commands.ParseCommandResponseUrl | classes.php:25-33 | a non-empty `response_url` is kept only if the validator accepts it and it contains `http:` or `https:`, otherwise "Response URL looks malformed."; an absent or empty one leaves no URL |
| Commands.InitialState | classes.php:11-36 | after construction both flags are false, help is empty, the service id is the argument, and `data` is the body with only `token` removed |
| Commands.Command.Init | classes.php:15-37 | the new object's state is the initial command state |
| Commands.Command.Create | classes.php:15-37 | `new Command(...)` yields a fresh object in the initial state, or the message the constructor throws |
| Commands.SetProp | classes.php:73-86 | the effect of `__set`: `handled` falls through to the `known` case after forcing `known` when truthy; other names change nothing (stated by the three lemmas below) |
| Commands.SetHandled | classes.php:75-81 | assigning `handled` sets it to the value's truthiness, forces `known` when truthy, and changes nothing else |
| Commands.SetKnown | classes.php:79-81 | assigning `known` changes `known` only |
| Commands.SetOtherProperty | classes.php:82-85 | assigning any other property changes nothing |
| Commands.Command.Set | classes.php:73-86 | the object's new state is the setter's effect; a warning is raised exactly for a name other than `handled` and `known` |
| Commands.OpsKeepHandledImpliesKnown | classes.php:73-86 | `handled` implies `known` survives every sequence of operations that never assigns a falsy `known` |
| Commands.KnownSetterCanBreakInvariant | classes.php:79-81 | assigning `handled` then a falsy `known` leaves a handled command that is not known |
| Commands.AddHelpTopics | classes.php:39-44 | `$this->help[$topic][] = $help_text` for each topic in order; what it leaves under each topic is stated by `AddHelpTopicsGet` and `AddHelpTopicsKeys` |
| Commands.AddHelpTopicsGet | classes.php:39-44 | `addHelp` appends the text to each listed topic's list once per listing, and leaves every other topic unchanged |
| Commands.AddHelpTopicsKeys | classes.php:39-44 | `addHelp` keeps the existing topics first and in order, and never repeats a topic |
| Commands.Command.AddHelp | classes.php:39-44 | the loop leaves the help array as the topic-by-topic append, and leaves the flags unchanged |
| Commands.Command.Apply | classes.php:39-86 | one handler operation performed on the object has the effect of the matching setter or `addHelp` |
| Commands.Command.ApplyAll | classes.php:39-86 | a handler's operations are performed on the object in order |
| Commands.Command.RespondDelayed | classes.php:45-59 | a post is attempted exactly when there is a response URL; it goes to that URL with the response as body; otherwise the "No URL to which a response can be sent" error |
| Commands.Command.CanRespondDelayed | classes.php:63-65 | `canRespondDelayed()`: a response URL is set; when that holds is stated by `DelayedResponseNeedsUrl` |
| Commands.DelayedResponseNeedsUrl | classes.php:25-33 | a constructed command can respond later exactly when the body had a non-empty `response_url` |
| Strings.Trim | admin.php:52 | the result is no longer than the input and neither end is a trimmed character; which piece of the input it is, is stated by `TrimIsInfix` |
| Strings.TrimIsInfix | admin.php:52 | what `trim` keeps is a contiguous piece of the input with only trimmed characters before and after it; with the ends above, exactly the longest trimmed prefix and suffix are removed |
| Strings.RemoveAll | admin.php:60 | no removed character remains, and a string without any is unchanged; what is kept, and in which order, is stated by `RemoveAllKeepsOthers` and `RemoveAllConcat` |
| Strings.RemoveAllKeepsOthers | admin.php:60 | every character not removed occurs in the result as often as in the input |
| Strings.RemoveAllConcat | admin.php:60 | removal works piece by piece: removing from `a + b` is removing from `a`, then from `b`, so the order of what is kept is the input's |
| Strings.Words | slashpress.php:122 | the words of a string: its maximal runs of characters outside `\s`, in order (reference definition for the two normalisations) |
| Strings.WordsShape | slashpress.php:122 | every word is non-empty and holds no white space |
| Strings.CollapseSpaces | slashpress.php:122 | `preg_replace('/\s+/', ' ')` leaves only single plain spaces, and keeps whether the string starts with white space |
| Strings.CollapseSpacesWords | slashpress.php:122 | `preg_replace('/\s+/', ' ')` gives the words joined by single spaces, with one space before if the input starts with white space and one after if it ends with white space; all-white-space input gives one space |
| Strings.CollapseKeepsWords | slashpress.php:122 | collapsing white space keeps every non-space character in order |
| Strings.NormalizeTerms | slashpress.php:177 | `trim(preg_replace('/\s+/', ' ', $t), ' ')`; its value is stated by `NormalizeTermsIsWords` |
| Strings.NormalizeTermsIsWords | slashpress.php:177 | the normalised help terms are exactly the words of the input joined by single spaces |
| Strings.WordsOfJoin | slashpress.php:122 | words joined by one white-space character, with only white space behind, split back into exactly those words |
| Strings.WordsOfSpacedJoin | slashpress.php:122 | the same with at most one white-space character in front: exactly the collapsed shape `preg_replace` produces |
| Strings.WordsOfCollapsed | slashpress.php:122 | collapsing white space runs to single spaces keeps the words of the text, in order |
| Strings.NormalizeCollapsed | slashpress.php:177 | normalising terms that were already collapsed gives the words of the original text joined by single spaces, so the second collapse changes nothing |
| Strings.NormalizeTermsShape | slashpress.php:177 | normalised help terms hold single plain spaces only, with none at either end |
| Strings.NormalizeTermsKeepsWords | slashpress.php:177 | normalising keeps every non-space character in order |
| Assoc.Get | slashpress.php:63-64 | a lookup finds a value exactly when the key is present, and the value is stored under that key |
| Assoc.AppendAt | admin.php:62 | `$m[$k][] = $v` (also classes.php:41); what it leaves under each key, the key order and key uniqueness are stated by `AppendAtGet`, `AppendAtKeys` and `AppendAtUnique` |
| Assoc.AppendAtGet | admin.php:62 | `$m[$k][] = $v` appends `v` to the list under `k`, starting a list if `k` is new, and leaves every other key unchanged |
| Assoc.AppendAtKeys | classes.php:41 | appending keeps the keys in order and adds `k` at the end exactly when it was absent |
| Assoc.AppendAtUnique | classes.php:41 | appending never repeats a key |
| Assoc.Restrict | slashpress.php:200-202 | `array_intersect_key($help, [$help_terms => null])`: only the entries under the topic; stated by `RestrictPresent` |
| Assoc.RestrictPresent | slashpress.php:200-202 | narrowing the help array to a present topic leaves exactly that topic with its list |
| Assoc.Dedup | admin.php:66 | `array_unique` leaves no duplicate and the same set of values |
| Assoc.DedupKeepsFirstOccurrenceOrder | admin.php:66 | `array_unique` keeps values in the order of their first occurrence |
| Assoc.DedupValues | admin.php:65-67 | `array_map('array_unique', ...)` keeps the keys in order and de-duplicates each list |
| Settings.ProcessRows | admin.php:58-67 | one table's rows cleaned, the kept ones stored, then `array_map('array_unique', ...)`; stated by `ProcessRowsGroups` and `ProcessRowsClean`, computed by `CollectRows` |
| Settings.Sanitize | admin.php:44-84 | the options built field by field in posted order; each stored field is tied to what was posted by `SanitizeVisible`, `SanitizeHelpWord`, `SanitizeTable` and `SanitizeWithoutTable`, other fields are dropped (`SanitizeIgnoresOtherFields`), and the loop `SanitizeOptions` computes it |
| Settings.Step | admin.php:47-81 | one pass of the `switch` on a posted field; its effect on the help word and on each table is stated by `StepHelpWord` and `StepTable` |
| Settings.StepHelpWord | admin.php:51-56 | one field changes the stored help word only when it is `help_word` with something left after trimming, and then to the trimmed text |
| Settings.StepTable | admin.php:57-80 | one field changes a stored table only when it is that table's field (`tokens` or `secrets`), and then by processing its rows into the table |
| Settings.CollectRows | admin.php:58-67 | the row loop and the following de-duplication compute the table function |
| Settings.SanitizeOptions | admin.php:44-84 | the callback's loop computes the sanitised options |
| Settings.SanitizeIgnoresOtherFields | admin.php:45-83 | a field under any name other than the four settings is dropped wherever it was posted: the options are those of the other fields |
| Settings.SanitizeVisible | admin.php:48-50 | `visible` is stored exactly when posted, as the truthiness of the posted value |
| Settings.SanitizeHelpWord | admin.php:51-56 | a posted `help_word` is stored trimmed when something is left after trimming, and not stored otherwise |
| Settings.SanitizeWithoutHelpWord | admin.php:45-83 | without a `help_word` field no help word is stored |
| Settings.SanitizeTable | admin.php:57-80 | with distinct field names, a posted `tokens` field is stored as its rows processed into an empty token table, and a posted `secrets` field likewise as the secret table |
| Settings.SanitizeWithoutTable | admin.php:45-83 | without a `tokens` field no token table is stored, and without a `secrets` field no secret table |
| Settings.AddEntriesGroups | admin.php:58-64 | the list under each key is the earlier list followed by the items of the stored entries with that key, in row order; a key appears exactly when it was there or such an entry exists |
| Settings.ProcessRowsGroups | admin.php:58-67 | after de-duplication, each key holds the duplicate-free form of its earlier list followed by its rows |
| Settings.DedupValuesGet | admin.php:65-67 | de-duplication keeps the keys and de-duplicates each key's list |
| Settings.ProcessRowsClean | admin.php:58-67 | one table's rows, added to a clean table, leave a clean table without duplicate items: tokens trimmed, service ids without white space or `/` |
| Settings.SanitizeCleansTables | admin.php:57-80 | every stored token and secret is trimmed, every stored service id has no white space or `/`, no key repeats, and no list holds a value twice |
| Auth.TokenVerdict | slashpress.php:59-70 | the `token` branch: "Invalid authentication.", "Unknown requester." or the service id; stated as an if-and-only-if by `TokenAuthentication` |
| Auth.SignatureStage | slashpress.php:72-84 | the `sig` checks before the secrets, in the code's order; stated by `SignatureHeaderChecks`, `StaleTimestampRejected`, `TimestampConversion` and `SignatureAuthentication` |
| Auth.Precheck | slashpress.php:55-99 | the `try` block up to the loop over secrets: the service-id check, then the `switch` on the method; stated through `Authenticate` by `MissingServiceId`, `UnknownMethodRejected`, `TokenAuthentication` and `SignatureAuthentication` |
| Auth.Authenticate | slashpress.php:55-99 | the verdict of the `try` block up to the construction; stated by the lemmas below and computed by `AuthenticateRequest` |
| Auth.VerifySignature | slashpress.php:85-95 | the loop over secrets accepts exactly when some secret produces the signature |
| Auth.AuthenticateRequest | slashpress.php:55-99 | the authentication switch computes the authentication verdict |
| Auth.AuthenticatedServiceIdFromUrl | slashpress.php:55-99 | a successful authentication always names the URL's service id |
| Auth.MissingServiceId | slashpress.php:55-57 | without a service id the answer is "Invalid service ID." |
| Auth.UnknownMethodRejected | slashpress.php:97-98 | any method other than `token` and `sig` gets "Unknown authentication method." |
| Auth.TokenAuthentication | slashpress.php:59-70 | token authentication succeeds exactly when the token is a non-empty string whose list holds the service id; an empty or non-string token gets "Invalid authentication."; a valid token without that pairing gets "Unknown requester." |
| Auth.SignatureAuthentication | slashpress.php:71-96 | signature authentication succeeds exactly when both headers are truthy, the timestamp is a number less than 300 s from the clock, the signature starts with `v0=` and some stored secret signs `v0:<ts>:<body>` as it |
| Auth.SignatureHeaderChecks | slashpress.php:72-81 | a falsy timestamp, a falsy signature, a timestamp 300 s or more away, or a missing `v0=` prefix each get "Invalid authentication." |
| Auth.SignatureUnknownRequester | slashpress.php:82-96 | past the header checks, a service without secrets or with no matching secret gets "Unknown requester." |
| Auth.StaleTimestampRejected | slashpress.php:75-81 | a timestamp 300 s or more from the clock is refused whatever the signature |
| Auth.FreshTimestampAccepted | slashpress.php:71-95 | a timestamp 299 s old with a matching secret, at any position in the list, is accepted |
| Auth.TimestampConversion | slashpress.php:72-78 | a truthy timestamp that does not convert to a number is an uncaught error; a falsy header is refused before any conversion |
| Dispatch.RunFilters | slashpress.php:134 | `apply_filters`: each filter sees the command as the previous ones left it and the previous response; computed by `RunFilterHook` |
| Dispatch.RunActions | slashpress.php:186 | `do_action`: each action sees the command as the previous ones left it; computed by `RunActionHook` |
| Dispatch.Dispatched | slashpress.php:134-145 | the specific filters from `''`, then the generic ones behind `!$slash->known`; stated by `GenericFiltersOnlyIfUnknown` and computed by `DispatchCommand` |
| Dispatch.HelpGathered | slashpress.php:186-197 | the specific help actions, then the generic ones behind `!$slash->help`; stated by `GenericHelpOnlyIfNoHelp` and computed by `GatherHelp` |
| Dispatch.RunFilterHook | slashpress.php:134 | the loop over a hook's filters computes the fold of the filters, threading the response |
| Dispatch.RunActionHook | slashpress.php:186 | the loop over a hook's help actions computes their fold |
| Dispatch.DispatchCommand | slashpress.php:134-145 | the two filter hooks compute the dispatch function |
| Dispatch.GatherHelp | slashpress.php:186-197 | the two help hooks compute the help-gathering function |
| Dispatch.GenericFiltersOnlyIfUnknown | slashpress.php:134-145 | when the specific filters leave the command known, the dispatch is the same whatever generic filters are hooked; when they leave it unknown, it is the generic filters' fold started from the specific response |
| Dispatch.ApplyOpsKeepsKnown | classes.php:73-86 | operations that never assign a falsy `known` keep a known command known, including a falsy `handled` |
| Dispatch.RunFiltersKeepsKnown | slashpress.php:134-145 | filters that never assign a falsy `known` keep a claimed command claimed, so the generic tier stays off |
| Dispatch.NothingHooked | slashpress.php:134-197 | with nothing hooked, the command is unchanged and the response is `''` |
| Dispatch.GenericHelpOnlyIfNoHelp | slashpress.php:186-197 | when the specific help actions add help, the gathered help is the same whatever generic actions are hooked; when they add none, it is the generic actions' fold on what the specific ones left |
| Dispatch.DispatchSameCommand | slashpress.php:134-197 | handlers cannot change the command's name, service id, response URL or data, and help topics stay unique |
| Dispatch.RunActionsKeepsHelp | classes.php:39-44 | once some help is added, later help actions never empty it |
| Help.TailMatch | slashpress.php:117 | the part of the pattern after the help word; stated by the `TailMatch…` lemmas |
| Help.MatchHelp | slashpress.php:115-121 | `preg_match` of the help pattern, backtracking `\s*` as PCRE does; stated by `MatchHelpAtWordStart` and `MatchHelpRecognises` |
| Help.MatchHelpAtWordStart | slashpress.php:115-121 | for a help word starting with a non-space, the text matches exactly when it starts with the help word (any ASCII case) after leading white space and the rest is accepted |
| Help.MatchHelpRecognises | slashpress.php:115-121 | white space, the help word in any case, then a rest: the rest alone decides the match |
| Help.TailMatchWithoutTerms | slashpress.php:117 | the rest is accepted without terms exactly when it is white space only |
| Help.TailMatchCaptures | slashpress.php:117 | white space, a phrase with non-space ends and no line feed, and trailing white space: the phrase is captured |
| Help.TailMatchCaptureShape | slashpress.php:117 | every capture is such a phrase, with at least one white-space character before it and only white space after it |
| Help.TailMatchNeedsSpace | slashpress.php:117 | a non-space right after the help word means no match |
| Help.HelpTerms | slashpress.php:122 | the captured group with white space collapsed, or `''` without one; its value is stated by `HelpTermsShape` |
| Help.HelpTermsShape | slashpress.php:122 | captured terms are the words of the phrase joined by single spaces |
| Help.HelpTermsNormal | slashpress.php:122 | after the `help_response` normalisation, the help terms of a match are the captured words joined by single spaces, or `''` when nothing was captured |
| Help.HelpWordAlone | slashpress.php:115-124 | the help word alone, in any ASCII case, with any white space around it, is a help request without terms |
| Help.HelpWordWithTerms | slashpress.php:115-124 | the help word, white space, then a phrase with non-space ends and no line feed: the phrase is captured without the surrounding white space |
| Help.HelpWordGlued | slashpress.php:115-124 | the help word directly followed by a non-space is not a help request |
| Help.SelectHelp | slashpress.php:198-210 | the topics shown; stated by `SelectNamedTopic`, `SelectOtherwise` and `RestrictPresent` |
| Help.SelectNamedTopic | slashpress.php:198-202 | terms naming an existing topic select that topic alone |
| Help.SelectOtherwise | slashpress.php:198-210 | no help at all gives the single "No help is available." text; other terms select every topic |
| Help.Rendered | slashpress.php:211-222 | the preamble if any, then every help text in order, joined by `"  \n"`; stated by `RenderedHoldsEveryLine` and computed by `RenderHelp` |
| Help.RenderHelp | slashpress.php:211-222 | the nested loop with the `$first` flag computes the lines (preamble if any, then every text in order) joined by `"  \n"` |
| Help.RenderedHoldsEveryLine | slashpress.php:211-222 | the rendered help starts with the preamble and contains every selected text |
| Help.RenderExampleNamed | slashpress.php:198-222 | with topics `a: x` and `b: y`, the terms `a` render as `x` |
| Help.RenderExampleAll | slashpress.php:198-222 | with topics `a: x` and `b: y`, no terms render as `x  \ny` |
| Help.RenderExampleNoHelp | slashpress.php:198-222 | with no help added, a preamble is followed by a line break and "No help is available." |
| Pipeline.Respond | slashpress.php:47-224 | the whole callback as a function of the request, the options and the hooked handlers; stated by the lemmas below and computed by `HandleRequest` |
| Pipeline.AfterDispatch | slashpress.php:147-174 | the flag checks after dispatch; every branch's reply is stated by `UnclaimedCommandGetsHelp` (unknown) and `ClaimedCommandResponse` (known, handled or not) |
| Pipeline.Answer | slashpress.php:113-174 | from `$initial_response = ''` on: the help shortcut, or dispatch and the flag checks; stated by `HelpRequestSkipsDispatch` and `PingAnswered`, and computed by `AnswerCommand` |
| Pipeline.HelpResponse | slashpress.php:176-223 | the `help_response` block: normalise the terms, gather help, select and render it; stated by `UnclaimedCommandGetsHelp` and computed by `HelpReply` |
| Pipeline.HandleRequest | slashpress.php:47-224 | the callback, run on a live command object, produces the outcome of the pure model of the callback |
| Pipeline.AnswerCommand | slashpress.php:113-174 | from `$initial_response = ''` on, the live object follows the help shortcut, or the dispatch and the flag checks |
| Pipeline.HelpReply | slashpress.php:176-223 | the `help_response` block on the live object: normalise the terms, gather, select and render the help |
| Pipeline.SslCheckIsSilent | slashpress.php:48-50 | an `ssl_check` request gets no output |
| Pipeline.AuthenticationFailureStopsEarly | slashpress.php:102-111 | a failed authentication gets its message (or an uncaught error) whatever is hooked |
| Pipeline.ConstructionFailureStopsEarly | slashpress.php:100-106 | a body the constructor refuses gets the constructor's message whatever is hooked |
| Pipeline.ArrayTextIsFatal | slashpress.php:115-120 | a built command whose `text` is an array ends in an uncaught error, whatever is hooked |
| Pipeline.StaleSignatureAnswered | slashpress.php:75-81 | a signed request 300 s or more stale is answered "Invalid authentication." |
| Pipeline.HelpRequestSkipsDispatch | slashpress.php:113-124 | once the command is built, a help request's answer does not depend on the response filters; it is plain text: the help selected for the captured words joined by single spaces (or for `''` without a capture), rendered with no preamble |
| Pipeline.HelpRequestAnswer | slashpress.php:113-124 | a help request's answer is the rendered help, with no preamble, for the captured words joined by single spaces, or for `''` without a capture |
| Pipeline.UnclaimedCommandGetsHelp | slashpress.php:147-155 | an unknown command is answered with exactly the help rendered under "Don't know what to do with that command. Type `<help word>` for help.": the preamble, then the selected entries joined by `"  \n"`, with the words of the whole command text joined by single spaces as terms; so it starts with the preamble and contains every selected text |
| Pipeline.ClaimedCommandResponse | slashpress.php:156-168 | a known command gets a serialised value (the response itself) exactly when it is handled and the response is truthy and not scalar; otherwise, handled, it gets the response as a string, with `''` replaced by "Command received." (so `null` gives "Command received.", `true` gives `1` and `[]` gives `Array`); not handled, a falsy response gives "Command was understood but no action was performed for some reason." and a truthy printable one gives the response as a string; an uncaught error exactly when an object reaches `echo` unhandled |
| Pipeline.PingAnswered | slashpress.php:113-168 | a built `ping` command whose filter sets `handled` and returns `pong` is answered `pong` |
| Pipeline.PingScenario | slashpress.php:47-224 | a `/ping` with a registered token and a filter that sets `handled` and returns `pong` is answered `pong` |

## Left out

- WordPress registration is not modelled: `add_action`, `register_rest_route`, `get_option`, and hiding the namespace from the REST index. It is framework glue.
- Routing is not modelled. The route pattern already restricts `auth_method` to `token` or `sig` and service ids to non-empty strings without white space or `/`. The model accepts any URL parameters and keeps the callback's own checks, including the default branch.
- `header()`, `echo` and `exit` become the `Outcome` datatype. `PlainText` stands for a `text/plain` body, `Json` for a value returned to WordPress for serialisation, and `Silent` for an empty exit.
- HMAC-SHA256 is an abstract function of the model. The constant-time property of `hash_equals` is not expressible, so it is modelled as string equality.
- `time()`, `filter_var` and PHP's string-to-number conversion of the timestamp are parameters in `Env`. A conversion that throws is the `Crashed` verdict. A timestamp with a fraction or an exponent is not distinguished from an integer.
- The `catch (\Exception)` branch that prints "Unknown error." is not modelled. No modelled step throws anything other than the constructor's visible messages.
- PHP loose comparison is modelled as exact equality. This covers `in_array` on service ids, `switch` on `auth_method`, the sanitiser's `switch ($option)` on field names and the skip test on rows. Numeric-looking strings that PHP compares as numbers are therefore not equated.
- PHP 8 semantics are assumed throughout. `preg_match` on an array `text` raises a `TypeError` (`Fatal`), and a timestamp that is not numeric makes `time() - $sig_time` raise a `TypeError` (`Crashed`). Earlier PHP versions, which warn and go on, are not modelled. Loose comparisons, including `switch`, are taken as exact, as the next line says.
- PHP's conversion of numeric-string array keys to integers is not modelled. Lookups convert the same way, so it does not change which key matches.
- A missing `text` field reads as the empty string, which is what `preg_match` makes of `null`. A `text` field that is not a string is taken to be an array, the only other value a form body holds; `preg_match` then raises a `TypeError` and the outcome is `Fatal`.
- An object response is taken to have no `__toString` method, so an object reaching `echo` is `Fatal`. An object that converts to a string is not modelled.
- The warning PHP raises when an array is converted to `Array` is not modelled; only the text `Array` is.
- In the sanitiser, a `help_word` that is not a string, or a `tokens`/`secrets` field that is not rows, is excluded by a precondition. These would be PHP type errors in `trim` and in indexing.
- `addHelp` takes its topics as a list. A single topic is a one-element list, which is what `(array) $topics` gives.
- `respondDelayedRich`, `json_encode` and `wp_remote_post` are left out; they are serialisation and network calls. Only the URL gate of `respondDelayed` is modelled, and `Posted` records the post that would be made.
- Hook priorities are not modelled. The handlers on each hook are a given ordered sequence.
- The admin page rendering and the settings sections are left out; they are user interface.
- Translation (`_x`) is not modelled. The messages are the untranslated string constants, so the default help word is `help`.
- PHP strings are byte strings; the model uses sequences of characters. Case folding for the `/i` pattern is ASCII only, which is what PCRE does without UTF mode.

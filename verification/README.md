# Reminders: a Dafny model of the correlation and templating core

`reminders.py` reads two spreadsheet tabs: users, and actions assigned to those
users. It groups the actions by user, fills in a message template for each
user, and mails each user a table of their open actions. This project models
the logic between reading the spreadsheet and sending the mail, and proves
properties of it:

- **Configuration** (`Config`): `update_config` merges an INI file into the
  current settings. An option the file sets replaces the current value. An
  option it leaves empty keeps the current value. The comma lists `cc` and
  `columns` are split and trimmed. `align` holds `header: value` entries and
  raises `ValueError` on a malformed one. `check_config` lists the required
  settings that are still missing, in a fixed order.
- **User lookup** (`Resolver`): `find_user` lower-cases and trims the query. It
  then collects every user that has some text field containing the query. It
  returns nothing for no match, the user for one match, and `AmbiguousUser`
  (carrying every match's row label) for two or more.
- **Correlation** (`Correlator`): `correlate` splits each action's assignee
  cell at `/` and looks up each name. It files the action under the found
  user's id, in first-seen order. Finally it looks up each id again to get the
  user back. This is modelled twice: as a function of three passes, and as a
  method with the source's loop. The method is proved equal to the function.
- **Templates** (`Template`): the placeholder pattern `\{.*\}` is greedy and
  does not cross line ends. On each line, one match therefore runs from the
  first `{` to the last `}`. `Scan` cuts a template into literal characters
  and matches. `Substitute` strips the outer pair of braces from each match,
  fills in `days` or a user field, and fails on an unknown name.
  `GetFields` strips every brace from each match instead.
- **Validation** (`Validator`): `validate_users` and `validate_actions` build
  one message per faulty record. A message lists every reason, not just the
  first, and missing names are sorted.
- **Table rows** (`Table`): `_create_table` builds one row per action and one
  cell per configured header. `_format` prints a timestamp as its date only.
- **Scenarios** (`Scenarios`, `Greetings`): concrete users, actions and
  templates on which the model's behaviour is spelled out. This includes the
  finding below and the greedy placeholder pattern meeting `{First} {Last}`.

Python values are modelled as follows:

- A spreadsheet cell is a `Value`: text, a timestamp, or any other object
  (kept only by its printed form).
- A record is a `map<string, Value>`. `dict.get` becomes `Records.Get`,
  which returns an `Option`.
- Exceptions become `Result` failures, with one error variant per exception
  the source raises.

Two behaviours of the code are easy to misread, and the model follows the
code in both:

- A placeholder ends at the last `}` of its line, not at the nearest one,
  because the pattern `\{.*\}` (reminders.py:32) is greedy.
- A missing table cell prints as `None`, because `_format` returns
  `str(value)` and `dict.get` gives `None` for a missing header
  (reminders.py:291-298, 340).

## Model

| member | source | states |
|---|---|---|
| Resolver.FindUser | reminders.py:245-267 | nothing is returned exactly when no user has a text field containing the trimmed, lower-cased query; a returned user is the only match; `AmbiguousUser` is raised exactly when two users match, with the query and the row labels of all matches (at least two) |
| Resolver.CandidatesTwo | reminders.py:261-265 | the match list has two or more entries exactly when two distinct positions of the user list match |
| Resolver.CandidatesOne | reminders.py:264-267 | a one-entry match list holds the single user that matches |
| Resolver.CandidatesAppend | reminders.py:251-259 | the matches of a concatenated user list are the matches of each part, in order |
| Resolver.OwnFieldFindsUser | test_reminders.py:44-72 | looking a user up by the full text of one of its own fields never finds nothing, and any user found is that user |
| Strings.Strip | reminders.py:250 | `strip()` removes exactly the leading and trailing Python whitespace, and the result neither starts nor ends with whitespace |
| Strings.StripIdempotent | reminders.py:250 | stripping twice is stripping once |
| Strings.Lower | reminders.py:250 | `lower()` keeps the length and lower-cases every character in place |
| Strings.LowerIdempotent | reminders.py:256 | lower-casing twice is lower-casing once |
| Strings.Split | reminders.py:279 | `split` on one character gives at least one piece, no piece holds the separator, and joining the pieces with it gives back the input |
| Strings.SplitJoin | reminders.py:279 | splitting a joined list of separator-free pieces gives back the list |
| Strings.SplitTrimmed | reminders.py:178-180 | the split-and-strip comprehension keeps exactly the stripped forms of the pieces that are not blank; each kept item is non-empty, already stripped, and free of the separator |
| Strings.SplitTrimmedOne | reminders.py:178-180 | text without a separator gives one stripped item, or none when it is blank |
| Strings.SplitTrimmedAppend | reminders.py:178-180 | items keep the order of the text: splitting at the first separator gives the items before it followed by the items after it |
| Strings.SplitTrimmedJoin | reminders.py:178-180 | split-and-strip of a comma-joined list of clean items gives back the items |
| Strings.SortDistinct | reminders.py:476 | `sorted(set)` holds exactly the given names, strictly increasing |
| Strings.SortedUnique | reminders.py:476 | two strictly sorted lists with the same members are equal, so the sorted listing is unique |
| Strings.IntToStringRoundTrip | reminders.py:320-321 | reading back `str(days)` gives `days`, negative numbers included |
| Strings.ZeroPadRoundTrip | reminders.py:297 | a zero-padded date or time component reads back as the number it came from |
| Records.Get | reminders.py:472 | `dict.get` gives a value exactly when the key is present, and then the stored one |
| Records.DateTextRoundTrip | reminders.py:296-297 | the `YYYY-MM-DD` text of a date reads back as that year, month and day |
| Config.Override | reminders.py:160-173 | `given or current` is empty only when both are; a non-empty file value wins and an empty one keeps the current value |
| Config.OverrideList | reminders.py:174-180 | a comma list with some non-blank item replaces the current list by exactly those items; one with none keeps the current list |
| Config.ParseAlignOutcome | reminders.py:184-187 | the `align` entries parse exactly when every entry has two non-blank parts; otherwise the result is the `ValueError` message |
| Config.ParseAlignMap | reminders.py:184-190 | the parsed map has exactly the headers named by some entry, each mapped to the value of its last entry |
| Config.UpdateConfig | reminders.py:159-190 | merging fails exactly when `align` has entries and one of them is not two non-blank parts, with the fixed `ValueError` message; on success each of the fifteen text options the file sets replaces the current value and an empty one keeps it, `cc` and `columns` become their non-blank stripped items or keep the current list when there are none, and the alignment map is kept when `align` has no entries and otherwise maps exactly the named headers, each to the value of the last entry naming it |
| Config.UpdateEmpty | reminders.py:159-191 | a file that sets nothing leaves every setting unchanged |
| Config.UpdateIdempotent | reminders.py:159-191 | merging the same file twice gives the same settings as merging it once |
| Config.MergeTwice | reminders.py:159-180 | applying the non-`align` options twice is applying them once |
| Config.ColumnsRoundTrip | reminders.py:178-180 | a `columns` option written as a comma-joined list of clean headers becomes exactly that header list |
| Config.CheckConfigSpec | reminders.py:199-223 | each of the eleven messages is reported exactly when its setting is missing, nothing else is reported, and messages come in check order |
| Config.CheckConfig | reminders.py:199-223 | each of the eleven messages is in the result exactly when its check fails, and no other text is |
| Config.CheckConfigEmpty | reminders.py:199-223 | no message is reported exactly when every required setting is filled |
| Config.UnsetLacksAll | reminders.py:86-104 | freshly constructed settings fail every one of the eleven checks |
| Config.UpdateFlags | reminders.py:159-191 | merging a file never makes a filled required setting missing again |
| Config.UpdateOnlyFills | reminders.py:159-223 | after merging a file, every message `check_config` reports was already reported before |
| Correlator.Assignees | reminders.py:279 | the assignee cell splits exactly when it holds text, the pieces joined with `/` give back the cell, and a non-text cell is an error naming it |
| Correlator.ResolveOutcome | reminders.py:280-283 | one assignee name resolves to its only matching user; `MissingUser` (with name, action id and row) comes exactly when no user matches; `AmbiguousUser` comes exactly when two match |
| Correlator.StepPairs | reminders.py:279-286 | a filed action yields one (id, user, action) pair per assignee name, each user from the list and keyed by that user's id field |
| Correlator.AssignPairs | reminders.py:278-286 | every pair filed by the whole pass holds one of the actions and one of the users, keyed by that user's id field |
| Correlator.AssignFailFast | reminders.py:278-282 | the pass fails exactly when some action fails, and then it fails with the first failing action's error and `correlate` raises that error |
| Correlator.Keys | reminders.py:284-286 | the dictionary keys are distinct and are exactly the ids of the filed pairs |
| Correlator.GatherOld | reminders.py:284-286 | filing an action under a known id appends it to that id's list and changes nothing else |
| Correlator.GatherNew | reminders.py:284-286 | filing an action under a new id adds one entry at the end |
| Correlator.GatherTotal | reminders.py:278-286 | the dictionary holds as many actions, counted with repeats, as pairs were filed |
| Correlator.PairsFiled | reminders.py:284-286 | every filed pair's action appears in its id's list |
| Correlator.CollectMembers | reminders.py:284-286 | an id's list holds exactly the actions of the pairs filed under that id |
| Correlator.KeysFirstSeen | reminders.py:284-289 | ids come out in the order they were first filed |
| Correlator.Regroup | reminders.py:289 | the second lookup of an id succeeds exactly when the id is text that at most one user matches; it keeps the actions, finds a user exactly when some user matches, and that user is the only match; it fails with the `AmbiguousUser` naming the id and every matching row, or with `UserIdNotText` for an id that is not text |
| Correlator.Materialize | reminders.py:289 | the final list succeeds exactly when every id's lookup does, with one group per id in order, and otherwise fails with the first failing lookup's error |
| Correlator.FileTokens | reminders.py:279-286 | the inner loop over one action's names extends the dictionary exactly as filing all of its resolved pairs would, and stops at the first name that fails |
| Correlator.FileAction | reminders.py:279-286 | one action's pass extends the dictionary by its pairs, or fails with that action's error |
| Correlator.Correlate | reminders.py:269-289 | the loop-based method gives exactly the three-pass definition: assign every name, gather by id, look each id up again |
| Correlator.Correlation | reminders.py:269-289 | `correlate` fails with the assignment pass's first error; otherwise it succeeds exactly when every gathered id is text that at most one user matches, with one group per id holding that id's actions in filing order; when a second lookup fails, the error is that of the first id whose lookup fails |
| Correlator.CorrelationGroups | reminders.py:269-289 | a successful result has one group per dictionary entry, with the entry's actions and a user from the list whose id field is the entry's id |
| Template.MatchEndSpec | reminders.py:32 | a match starting at a `{` ends at the last `}` before the line break, so no longer match exists; there is no match when the line has no later `}` |
| Template.Scan | reminders.py:32 | the pieces of a template spell it out again, and every match piece is braced with no line break inside |
| Template.LineBreak | reminders.py:32 | matches never cross a line end: scanning two lines is scanning each |
| Template.SingleLine | reminders.py:32 | a line is literal up to its first `{`, one match up to its last `}`, then literal again |
| Template.NoPlaceholder | reminders.py:32 | text with no `{` before a `}` has no match |
| Template.JoinText | reminders.py:322-326 | joining the replacements succeeds exactly when every one of them is text; otherwise it fails naming a non-text one |
| Template.Substitute | reminders.py:308-326 | substitution succeeds exactly when every match names `days` or a text field of the user, and then gives each match replaced by its text; a `ValueError` comes exactly when some name is unknown, and names the leftmost such match; otherwise the `TypeError` carries a non-text field value; a template without matches comes back unchanged |
| Template.SubstituteLine | reminders.py:308-326 | on one line, the stretch from the first `{` to the last `}` becomes the decimal `days` or the field's text and the rest is kept; an unknown name or a non-text field fails naming that one match |
| Template.SubstituteLineBreak | reminders.py:308-326 | lines are filled in independently: two lines succeed exactly when each does, giving both results around the newline; an unknown name on the first line is the one reported, else one on the second |
| Template.ReplacementsFirst | reminders.py:317-326 | `re.sub` stops at the leftmost match whose name is unknown, and the failure carries that name |
| Template.SubstituteKnown | reminders.py:317-324 | `substitute` raises `ValueError` exactly when some match names neither `days` nor a key of the user |
| Template.FirstUnknownUnique | reminders.py:317-326 | the leftmost unknown match is unique, so the name reported is determined by the template and the user |
| Template.ReplacementsOutcome | reminders.py:317-324 | the replacements exist exactly when every name is `days` or a key of the user; a failure names a field the user lacks |
| Template.SubstituteIdentity | reminders.py:308-326 | a user whose every asked-for field holds the placeholder's own text turns the template into itself |
| Template.GetFields | reminders.py:448-449 | the field set holds exactly each match with every brace removed |
| Template.NamesAgree | reminders.py:319 | the name `substitute` looks up equals the one `get_fields` reports exactly when the inside of the match holds no brace |
| Template.UnbracedAppend | reminders.py:449 | removing braces works piece by piece |
| Template.UnbracedShorter | reminders.py:449 | text with a brace gets shorter when braces are removed |
| Validator.MissingNames | reminders.py:474-476 | the missing names are strictly sorted and are exactly the required names the record lacks |
| Validator.MissingReason | reminders.py:474-476 | there is a missing-fields reason exactly when some required name is absent, and it lists them sorted |
| Validator.UserFields | reminders.py:465-467 | a user must carry exactly the template names other than `days` and the email header |
| Validator.UserReasons | reminders.py:470-476 | a user has no reason exactly when its email is non-empty text and it has every required field; there is one reason per failed check, `missing email` first, then the missing-fields reason listing the absent names sorted |
| Validator.ValidateUsers | reminders.py:461-480 | no message exactly when every user passes |
| Validator.ValidateUsersAppend | reminders.py:469-480 | the messages for two user lists are those of each, in order |
| Validator.ValidateUsersOne | reminders.py:470-478 | one user gives one `Report` message `user (row) error(s): ...` listing its reasons, or none |
| Validator.ReportCons | reminders.py:478 | a report names the record and its row label, then the reasons' texts in their order, separated by `, ` |
| Validator.ValidUserSubstitutes | reminders.py:461-480 | a user that passes validation, with text fields and brace-free names, can have the preamble and close filled in |
| Validator.ActionReasons | reminders.py:489-497 | an action has no reason exactly when its assignee is non-empty text, its due date is a date, and it has every table column; there is one reason per failed check, in the order assignment, due date, then the missing table fields sorted |
| Validator.ValidateActions | reminders.py:482-501 | no message exactly when every action passes |
| Validator.ValidateActionsAppend | reminders.py:488-501 | the messages for two action lists are those of each, in order |
| Validator.ValidateActionsOne | reminders.py:489-499 | one action gives one `Report` message `id (row) error(s): ...` listing its reasons, or none |
| Validator.ValidActionHasColumns | reminders.py:483-497 | an action that passes has a value for every table header, the assignee and due headers included |
| Validator.ValidActionAssignable | reminders.py:491 | an action that passes has an assignee cell `correlate` can split |
| Table.Format | reminders.py:291-298 | anything but a timestamp prints as `str(value)`, so a missing cell prints `None` |
| Table.FormatDate | reminders.py:296-297 | a timestamp prints as ten characters `YYYY-MM-DD` that read back as its date, whatever its time of day |
| Table.FormatPrefixOfShow | reminders.py:296-298 | the date a table shows is a strict prefix of the full timestamp text |
| Table.Row | reminders.py:340 | a row has one cell per header, each the formatted value under that header |
| Table.Rows | reminders.py:338-341 | the table has one row per action, in action order |
| Table.ValidActionRow | reminders.py:338-341 | each cell of a validated action's row shows a real value of the action |
| Table.MissingCellIsNone | reminders.py:340 | a missing cell prints `None`, like a cell holding the text `None` |
| Greetings.DaysOnly | reminders.py:320-321 | the template `{days}` is one match and becomes the decimal form of `days` for any user |
| Greetings.TwoOnOneLine | reminders.py:32 | the line `{x}sep{y}` is one match, not two |
| Greetings.TwoFieldsNames | reminders.py:319 | for that line `get_fields` reports `x sep y`, while `substitute` looks up `x}sep{y` |
| Greetings.Unfillable | reminders.py:317-324 | so `substitute` fails on that line naming `x}sep{y`, whatever fields `x` and `y` the user has |
| Greetings.JoinedNameBlamed | reminders.py:465-476 | `validate_users` blames a user for lacking the field `x sep y`, which substitution never reads |
| Greetings.ValidatedButUnfillable | reminders.py:461-480 | a user carrying `x sep y` passes validation, yet its greeting cannot be filled in |
| Scenarios.AliasFindsAnn | reminders.py:245-267 | the alias `AX` finds only Ann in a sheet of Ann and Joanne |
| Scenarios.IdFindsBoth | reminders.py:245-267 | the query `Ann` matches Ann and, inside `joanne`, Joanne, so `find_user` raises `AmbiguousUser` with both row labels in sheet order |
| Scenarios.SecondLookupAmbiguous | reminders.py:289 | the action assigned to `AX` resolves to Ann, yet `correlate` raises `AmbiguousUser` for the query `Ann` with the row labels `Users:1` and `Users:2` when it looks Ann up again; keeping the user gives the single group of Ann |
| Scenarios.AmbiguousSecond | reminders.py:283-289 | whenever all names resolve to one user whose id matches two users, `correlate` raises exactly the `AmbiguousUser` that looking up that id raises |
| Correlator.CorrelationKept | reminders.py:269-289 | grouping that keeps each id's first-found user instead of looking the id up again fails exactly when some assignee name fails, and every group holds a user from the list |
| Correlator.KeptGroups | reminders.py:269-289 | that grouping fails exactly when an assignee fails; otherwise it has one group per id, holding the id's actions and a user whose id field is the group's id |
| Correlator.KeptAgrees | reminders.py:289 | whenever the source's second lookup succeeds, keeping the users gives the same result |
| Scenarios.KeptOne | reminders.py:283-289 | keeping the users, one filed pair gives one group with that pair's user |

## Left out

- Reading the spreadsheet (`sheet_to_dict`) is left out. It is I/O and
  pandas. Records arrive as maps, with the `_row` label already present.
- Parsing the command line and the INI file (`parse_args`, `parse_config`,
  `SafeConfigParser`) is left out. The file is a map from (section, option)
  to text. An absent option reads as the empty string, as
  `SafeConfigParser.get` returns.
- Sending mail (SMTP login, `sendmail`), the interactive prompt
  (`prompt_for_what`) and the `run` driver are left out. They are I/O.
- `_create_table` is modelled only as far as its row cells. The alignment
  settings and the HTML, JSON, CSV and text rendering are `prettytable`'s
  code, which is not part of this model.
- Settings that are `None` before any file is read are modelled as the
  empty string, the empty list or the empty map. `check_config` treats
  `None` and empty the same way. `get_fields(None)` would raise
  `TypeError`; the model scans the empty template instead.
- Config.UpdateConfig: on a malformed `align` entry, the source has already
  overwritten the other settings before it raises, and its alignment map
  holds only the entries before the malformed one (reminders.py:182-190).
  The model returns only the error, not that partly updated state.
- Strings.Lower: lower-cases ASCII and Latin-1 letters only. Python's
  `lower()` covers all of Unicode.
- Validator.ValidDate: accepts only timestamps. Plain `datetime.date`
  values, which the source also accepts, are not a distinct kind of `Value`.
- Records.Show: prints values other than text and timestamps by a stored
  printed form, without modelling Python's `str` of them.
- Resolver.FindUser: every record is taken to carry a text `_row` label, as
  `sheet_to_dict` always sets one (reminders.py:240). With a non-text label,
  `', '.join` in `AmbiguousUser` (reminders.py:67) would raise `TypeError`
  instead; the model reports `AmbiguousUser` whatever the labels are.
- Template.Substitute: a `TypeError` is stated to carry the value of some
  placeholder whose field is not text. Python's message names the first
  such value, and the model does not promise which one it carries.
- Correlator.Regroup: a looked-up id that is not text would make
  `find_user` raise `AttributeError`. The model reports it as the error
  `UserIdNotText`. A non-text assignee cell is reported likewise as
  `AssigneeNotText`.

## Findings

| source | as written | input that shows it | evidently intended | confidence | as-written member | corrected member |
|---|---|---|---|---|---|---|
| reminders.py:289 | after filing every action under its user's id, `correlate` finds each user again by looking up that id as a substring query | users Ann (`User` = `Ann`, `Alias` = `AX`, row `Users:1`) and Joanne (`User` = `Joanne`, empty `Alias`, row `Users:2`); one action assigned to `AX`: the first lookup finds only Ann, but the query `ann` also matches `joanne`, so `AmbiguousUser` is raised | the group keeps the user the first lookup found, so a run whose every assignee resolved uniquely cannot fail while grouping | high, not executed | Scenarios.SecondLookupAmbiguous | Correlator.CorrelationKept |

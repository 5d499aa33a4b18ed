# Linear approval workflow — a Dafny model

This project models the core of a small approval-workflow web page. A
workflow is an ordered list of actions. Each action has an assignee, a name,
a list of requirement names, a status (`ToDo`, `InProgress`, `Done`,
`Skipped`) and a memo. The actions are worked through in list order:

- `start` puts the first action in progress.
- `update_state` finalizes the action in progress as `Done` or `Skipped`,
  replaces its memo, and puts the next action in progress.
- Only the assignee of the action in progress gets the Done, Skip and Update
  buttons.
- The action table can be edited. Its diff against the current table
  (`check_diff_df`) is staged as a proposal when only assignees and memos
  changed. The Update button applies the proposal, mapping display names
  `"Full Name (username)"` back to usernames.

The repository holds the same logic twice: `app.py` (a pydantic draft) and
`stream_app.py` (a dataclass draft). The model states the shared logic once.
The parts where the drafts differ have their own members: the dataclass
draft's diff records carry both rows, its editor shows four columns, and its
review assigns the refusal text to a misspelt variable.

Modules:

- `Wrappers` (`wrappers.dfy`): `Option`.
- `Users` (`users.dfy`): the user directory, `format_fullname`, the reverse
  table, and their round trip.
- `Actions` (`actions.dfy`): statuses, action records, table rows,
  `to_dataframe`, and the flow-chart edges.
- `Progress` (`progress.dfy`): the state machine over the action list as
  functions. It covers `get_action_in_progress`, `start`, `update_state` (as
  written, and corrected) and `finished`, with the invariants these keep.
- `Diffing` (`diffing.dfy`): `check_diff_df` as nested loops proved against a
  specification of the diff.
- `Review` (`review.dfy`): the staging rule and the warning text above the
  Update button.
- `Apply` (`apply.dfy`): the Update loop's effect on the actions.
- `Engine` (`engine.dfy`): the class `Workflow`. It holds the action list and
  the staged proposal (the session's `task_diffs`). Its methods are the
  in-place transitions and the two page handlers.

The code differs from a reading of the workflow as an engine with its own
error kinds, and the model follows the code:

- Authorization is checked in the page handler, not in `update_state`.
- `update_state` returns silently when nothing is in progress.
- `update_state` looks the finalized action up again by value to find its
  successor.
- `start` does not look at the first action's status.
- Display names are reverse-mapped when a proposal is applied, not when it
  is staged.
- A rejected proposal leaves an earlier staged proposal in place.

## Model

| member | source | states |
|---|---|---|
| Users.FormatFullname | app.py:43-45 | The display form exists exactly when the user is in the directory; the username can be parsed back out of it when it holds no `(` |
| Users.ReverseOfFormat | app.py:48 | For every known user, the reverse table maps the user's display form back to the username (dictionary keys distinct, usernames without `(`) |
| Users.ReverseTable | app.py:48 | The display form of every directory entry is a key of the reverse table |
| Users.FormatOfReverse | stream_app.py:48 | Every display form in the reverse table belongs to a known user, and formatting that user gives the same display form |
| Actions.ToFrame | app.py:92-96 | The table exists exactly when the list is non-empty and every assignee is known (an empty list or an unknown assignee raises `KeyError`); it has one row per action, in order, holding that action's fields with the assignee in display form |
| Actions.FrameRoundTrip | stream_app.py:94-97 | For a non-empty list with known assignees, reading each row's assignee back through the reverse table, and its other cells as they are, gives back the action list |
| Actions.GraphEdges | app.py:226-230 | Every edge ends at the name of some action |
| Actions.GraphEdgesExact | app.py:226-230 | An edge `(r, n)` is drawn if and only if some action named `n` lists `r` as a requirement; dangling names are drawn too |
| Progress.FirstInProgress | stream_app.py:73-77 | The result is the least position whose action is in progress, or none when no action is in progress |
| Progress.IndexOf | app.py:83 | `list.index` returns the first position holding a record equal to the argument |
| Progress.Started | app.py:65-69 | `start` puts the first action in progress and changes no other action and no other field |
| Progress.Advanced | app.py:77-90 | The intended `update_state` keeps the length and every assignee, name and requirement list; only statuses and memos change |
| Progress.AdvancedAsWritten | app.py:81-90 | `update_state` as written, with the successor found by `list.index`, likewise changes only statuses and memos |
| Progress.StartLeavesOnlyFirstInProgress | app.py:65-69 | From a list with nothing in progress, `start` leaves exactly one action in progress, the first, and it is the one found by the scan |
| Progress.AdvanceHandsOver | app.py:77-90 | For the intended `update_state` (the code, on a list with distinct names; see Progress.AsWrittenIsAdvancedOnDistinctNames): with at most one action in progress, finalizing it puts exactly its successor in progress, or nothing when it was the last; at most one stays in progress |
| Progress.AdvanceIdleIsNoOp | app.py:78-80 | With nothing in progress `update_state` changes nothing; an unfinished list in that state has an action still to do |
| Progress.AdvanceFrame | stream_app.py:83-90 | The intended `update_state` (the code, on a list with distinct names) sets the status and memo of the action in progress, puts only its successor in progress, and leaves every other action alone |
| Progress.LinearHasAtMostOneInProgress | app.py:65-90 | A list that is not started, running at one position, or finished has at most one action in progress |
| Progress.StartKeepsLinear | app.py:157-162 | When the page offers Start on such a list, every action is still to do, and `start` leaves it running at position 0 |
| Progress.AdvanceKeepsLinear | app.py:81-90 | The intended `update_state` (the code, on a list with distinct names) keeps the list in that shape: running at `k` becomes running at `k + 1`, or finished with nothing in progress after the last action |
| Progress.FinalizingLastFinishes | app.py:84-86 | For the intended `update_state` (the code, on a list with distinct names), finalizing the last action when every earlier one is finalized leaves nothing in progress and the workflow finished |
| Progress.Finished | app.py:103-104 | `finished` holds if and only if nothing is in progress and nothing is still to do |
| Progress.AsWrittenAgreesOnDistinctNames | app.py:81-90 | When no earlier action shares the finalized action's name, the `list.index` lookup finds the scanned position, so the as-written transition equals the corrected one |
| Progress.AsWrittenKeepsAtMostOne | app.py:81-90 | `update_state` as written, with the successor found by `list.index`, keeps at most one action in progress on every list |
| Progress.AsWrittenIsAdvancedOnDistinctNames | app.py:81-90 | On a list whose names are distinct, `update_state` as written is the intended transition, and the names stay distinct |
| Progress.AsWrittenReopensFinalizedAction | app.py:83-88 | A concrete list where the as-written transition puts the just-finalized action back in progress and never reaches the next one |
| Diffing.CheckDiffDf | app.py:117-126 | The nested loops build exactly the specified diff of the zipped row pairs |
| Diffing.FrameDiffs | app.py:117-126 | Every record of the diff names a row pair that `zip` forms: its 1-based index is at most the shorter table's length |
| Diffing.FrameDiffsExact | app.py:119-125 | A record is in the diff if and only if it records a change of a column present in both rows of a row pair, with 1-based index and both cells; the records come in row-then-column order |
| Diffing.SameFrameNoDiff | app.py:123 | A table compared with itself has an empty diff |
| Diffing.CheckDiffDfTraced | stream_app.py:113-123 | The dataclass draft's loops give the same records in the same order, each carrying the before and after rows of its index |
| Diffing.NoRequirementsDiff | stream_app.py:173-190 | With the four-column editor, no diff record ever names the requirements column |
| Review.FirstDisallowed | stream_app.py:195-199 | The position where the review loop breaks: every earlier change is of an assignee or memo, and it is the list's length exactly when the proposal is acceptable |
| Review.ReviewText | app.py:206-218 | The warning opens with the confirmation header exactly when every change is of an assignee or memo |
| Review.ReviewTextAsWritten | stream_app.py:191-203 | The dataclass draft's warning always opens with the confirmation header |
| Review.ReviewDiffs | app.py:206-218 | The review accepts exactly when every change is of an assignee or memo; an accepted proposal lists every change under the confirmation header, a rejected one shows only the refusal |
| Review.ReviewDiffsAsWritten | stream_app.py:191-203 | The dataclass draft's review accepts the same proposals, but its warning is always the header plus the changes before the first disallowed one |
| Review.RejectedProposalReadsAsConfirmation | stream_app.py:196-201 | For every rejected proposal the as-written warning opens with the request to press Update and is never the refusal; the corrected review shows the refusal |
| Review.AsWrittenReviewAgreesOnAccepted | stream_app.py:194-203 | On an accepted proposal the as-written and corrected warnings are the same |
| Review.RenameProposalExample | stream_app.py:194-201 | A single change of an action's name: the as-written warning is the bare confirmation header, the corrected one the refusal |
| Apply.FrameDiffsFit | app.py:119-124 | A stageable diff of the current table only names rows of the workflow and the assignee or memo column, with text values |
| Apply.ApplyOneFrame | app.py:152-155 | One Update step fails exactly on an unknown display name; otherwise it writes the reverse-mapped assignee or the memo into the named row and changes nothing else |
| Apply.ApplyOne | app.py:152-155 | One Update step raises exactly when the new assignee display name is missing from the reverse table; otherwise the action list keeps its length |
| Apply.ApplyAll | app.py:150-155 | The Update loop keeps the number of actions, whether it completes or stops at a failed lookup |
| Apply.ApplyAllSucceeds | app.py:150-155 | Applying a proposal succeeds exactly when every new assignee display name is in the reverse table |
| Apply.ApplyAllKeepsProgress | stream_app.py:147-151 | Applying a proposal never changes a status, a name or a requirement list |
| Apply.ApplyAllUntouched | app.py:155 | An assignee or memo that no staged diff names keeps its value |
| Apply.ApplyAllUntouchedRow | stream_app.py:151 | An action that no staged diff names is left whole |
| Apply.ApplyAllLands | app.py:151-155 | After a successful apply, each diff that no later diff overrides has put its new memo, or the username behind its new display name, in place |
| Engine.Workflow.GetActionInProgress | app.py:71-75 | The scanning loop returns the position of the first action in progress, or none |
| Engine.Workflow.Start | app.py:65-69 | `start` fails its assertion when an action is in progress and raises on an empty list, changing nothing; otherwise it puts the first action in progress |
| Engine.Workflow.UpdateState | stream_app.py:79-92 | `update_state` turns the list into the as-written transition, with the successor found by `list.index`, and keeps at most one action in progress; on a list with distinct names it is the intended transition |
| Engine.Workflow.ApplyStaged | app.py:148-156 | The Update branch clears the stage and applies the staged diffs in order; an unknown display name stops it with the earlier diffs applied |
| Engine.Workflow.ActionForm | app.py:128-162 | Only the assignee of the action in progress changes anything with Done, Skip or Update; Done and Skip run `update_state` as written; Start acts only when nothing is in progress and the workflow is unfinished; every button keeps at most one action in progress; on a list with distinct names the names stay distinct and the linear shape is kept |
| Engine.Workflow.ActionList | app.py:194-218 | A non-empty diff is shown for review and staged only when every change is of an assignee or memo; otherwise the earlier stage stays; a `KeyError` from `to_dataframe` (an empty list or an unknown assignee) stops the page |
| Engine.Workflow.StreamActionList | stream_app.py:167-203 | With the four-column editor no diff names the requirements column; the warning is the draft's as written (the header and the changes before the first disallowed one); only an acceptable proposal is staged |

## Findings

| source | as written | input that shows it | evidently intended | confidence | as-written member | corrected member |
|---|---|---|---|---|---|---|
| app.py:83-90 (and stream_app.py:85-92) | After finalizing, the successor is found with `actions.index(action)`, which compares records by value | `[X(Done, "m"), X(InProgress, ""), Y(ToDo)]` where the two `X` share assignee, name and requirements; `update_state("Done", "m")` | Put the action after the finalized one in progress | medium; not executed; needs two actions with the same name | Progress.AsWrittenReopensFinalizedAction | Progress.AdvanceHandsOver |
| stream_app.py:198 | The refusal text is assigned to `ouput`, so `output` keeps the confirmation header | One proposed change of an action's name (`Diff(1, name, "test", "renamed")`) | The warning shows "You only allow to update assigned_user or memo" | high; not executed | Review.RejectedProposalReadsAsConfirmation | Review.ReviewDiffs |

With the first input, the as-written transition gives `[X(Done, "m"), X(InProgress, "m"), Y(ToDo)]`. The finalized action is reopened, and the third action is never reached. `Engine.Workflow.UpdateState` runs the transition as written. `Progress.AsWrittenIsAdvancedOnDistinctNames` shows that it is the intended one on a list with distinct names. The workflow's own list has distinct names, and no button changes a name.

With the second input, the dataclass draft's page shows the bare confirmation header and stages nothing. `Engine.Workflow.StreamActionList` shows that warning; `Engine.Workflow.ActionList`, like the pydantic draft, shows the refusal.

## Left out

- Streamlit widgets, columns, text areas, `st.rerun`, warnings' styling, `add_style_to_df`, `STATUS_COLOR` and the graphviz nodes: these are UI. A pressed button is the `press` parameter, the typed memo is `memoText`, the edited table is `edited`, and `st.rerun` is the end of a handler.
- `save`, `get_task`, `BASE_TASK` and the session store: persistence. `save` is a no-op here, and the session's `task_diffs` is the `staged` field.
- The current username: a parameter. The cookie lookup is I/O, and `get_username` and `USER_FULLNAMES`, which `app.py` imports from `streamlit_utility.py`, are not defined in that file. The directory is a parameter of the model.
- The database engine, `DATABASE_URL`, `dotenv`, the SQLModel `User` table and model.py: persistence and foreign libraries with no workflow logic.
- `Workflow.from_dataframe`: nothing in the core calls it.
- The editor's disabled columns (`name`, `status`) are not modelled. The edited table may change any column, and the review then rejects the change.
- pandas cell typing: a cell is text, a list of names, or a status. NaN, dtype coercion and list-to-string conversions by the editor are not modelled.
- The dataclass draft's `requirements: None` is read as the empty list. `to_dataframe` puts `None` itself in the requirements cell, where the model's rows hold `[]`. The `None` cell never reaches a diff or an apply: the four-column editor has no requirements column, no staged diff may name it, and the flow chart reads it through `or []`.
- Engine.Workflow.StreamActionList: stages the diff records without the two rows that the dataclass draft attaches to them. The records are computed by `Diffing.CheckDiffDfTraced`, but nothing reads the rows back.
- The two drafts' page handlers differ only in widget layout: the dataclass draft shows the memo box before the assignee check. `Engine.Workflow.ActionForm` stands for both.
- The pydantic draft's arrow in the warning is the mis-decoded `â‡’` (U+00E2 U+2021 U+2019) and is modelled as written. The dataclass draft's arrow is U+21D2.

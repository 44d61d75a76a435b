# Verse-drill session engine

B-Anki is a Streamlit app for memorising Bible verses. A deck is a CSV file
with one verse per row. The learner steps through the deck one card at a
time. They reveal a verse, then skip it, hide it again to retry, or mark it
memorised. When the traversal is used up, the cards they skipped can be
drilled again in a second pass.

This project models the session engine behind that loop, in `app.py`
(`init_session_state` and the body of `main()`). The engine keeps its state
between reruns in the session state. Here that state is the class
`Drill.Session`, with these fields:

- `order`: the traversal order, a list of card ids. A card id is a row number, 0 .. n-1.
- `idx`: the cursor into `order`.
- `completed` and `skipped`: sets of card ids.
- `showVerse`: whether the current verse is shown.
- `n`: the deck size.
- `started`, `loadedFile`, `loadedVersion`, `prevShuffle`: the bookkeeping that decides when to re-initialise or reshuffle.

Each step of a rerun is one method, and so is each button press. A button
press becomes a call whose `requires` is the condition under which the app
shows that button.

- `ids.dfy` (module `Ids`): the list operations the engine uses, as functions
  with their contracts. These are `range`, the "not yet completed"
  comprehension and ascending `sort`. The module also holds the lemmas about
  duplicate-free listings.
- `drill.dfy` (module `Drill`): the session invariant `Coherent`, the lemmas
  about it, the find-next loop `NextPending`, and the class `Session`.

The invariant `Coherent` says the following:

- `order` is duplicate-free and holds only ids below `n`.
- `completed` and `skipped` are disjoint.
- The positions from the cursor on hold neither completed nor skipped ids.
- Together, completed, skipped and the pending positions cover the deck exactly.

Every method keeps this invariant. `Tally` turns it into a count:
`|completed| + |skipped| + (|order| - idx) == n`. From that count, the
progress caption reaches `n / n` exactly when the order is used up and no
card is left skipped. At that point every card of the deck is completed.

Randomness is modelled as a parameter. `random.shuffle` and the iteration
order of `list(set)` become a sequence the caller passes in. The only
constraint on it is a `multiset` precondition: it must be a rearrangement of
what the app would shuffle. The model says nothing about the distribution.

One consequence of the invariant: in every state the app can reach, no
position at or after the cursor holds a completed id. So the find-next loop
(app.py:106-107) never actually moves the cursor. It only guards against a
state that cannot arise. `Session.AdvanceCursor` proves this
(`ensures idx == old(idx)`). `NextPending` still models the loop in general
and proves its full contract.

The finish check follows app.py:110-112:

- The pass is over when `idx >= len(order)` (app.py:110).
- The second pass is offered when `skipped` is non-empty (app.py:112).
- `Coherent` makes `completed` and `skipped` disjoint, so no skipped card is also completed.

## Model

| member | source | states |
|---|---|---|
| `Ids.Range` | app.py:26 | The identity order of a deck of `n` cards has length `n` and holds id `i` at position `i`. |
| `Ids.RangeListsDeck` | app.py:26 | The identity order is duplicate-free and ascending. It lists exactly the ids below `n`. |
| `Ids.SameMultisetNoDup` | app.py:27-28 | A shuffle of a duplicate-free listing is duplicate-free and lists the same ids. |
| `Ids.Unfinished` | app.py:84-87 | The remainder comprehension lists exactly the ids of its input that are not completed. It keeps a duplicate-free input duplicate-free and is no longer than its input. |
| `Ids.SortAsc` | app.py:90-91 | The sorted remainder is ascending and is a rearrangement of the remainder. |
| `Ids.AscendingUnique` | app.py:90-91 | Two ascending rearrangements of the same ids are equal. So with the toggle off, the rebuilt remainder is determined by its ids. |
| `Ids.ListingOfSet` | app.py:115-118 | Any listing of the skipped set, shuffled or not, is duplicate-free. It lists exactly that set and has its size. |
| `Drill.Tally` | app.py:97-100 | Every card of the deck is counted once: completed, skipped, or pending from the cursor on. |
| `Drill.AllCompletedIffFinished` | app.py:110-113 | The completed count equals the deck size exactly when the order is used up and nothing is skipped. That holds exactly when every card is completed. |
| `Drill.NextPending` | app.py:103-107 | The find-next loop stops at the first position at or after the cursor whose id is not completed, or at the end. It never moves back, and every position it passes holds a completed id. |
| `Drill.PendingStep` | app.py:145-162 | The current id is neither completed nor skipped. Stepping past it removes exactly that id from the pending part of the order. |
| `Drill.RebuiltRemainderCoherent` | app.py:84-94 | Replacing the part from the cursor on by any rearrangement of its not-completed ids keeps the session invariant and the consumed prefix. |
| `Drill.Session.constructor` | app.py:64-65 | Before the first rerun the session is not started, and no toggle has been seen. |
| `Drill.Session.Init` | app.py:25-34 | The order is the identity order, or the supplied shuffle of it when the toggle is on. Either way it is a permutation of `0..n-1`. The cursor is 0, both sets are empty, the verse is hidden and the session is started. |
| `Drill.Session.EnsureStarted` | app.py:64-73 | The session is re-initialised exactly when it was never started, or the selected file or version differs from the loaded one. Then the loaded file and version are recorded. Otherwise nothing changes. |
| `Drill.Session.Restart` | app.py:75-79 | The restart button re-initialises unconditionally and records the loaded file and version. |
| `Drill.Session.ReshuffleRemaining` | app.py:84-94 | The prefix before the cursor is unchanged. The new remainder is the old remainder's not-completed ids: ascending when the toggle is off, the supplied shuffle of them when it is on. The cursor and both sets are unchanged. |
| `Drill.Session.SyncShuffle` | app.py:82-94 | The remainder is rebuilt exactly when the toggle differs from the one last seen, and the toggle is then recorded. Otherwise the order is unchanged. |
| `Drill.Session.Progress` | app.py:97-100 | The caption shows `|completed|` out of `n`, and never more than `n`. The two are equal exactly when the order is used up and nothing is skipped. |
| `Drill.Session.AdvanceCursor` | app.py:103-108 | Afterwards the cursor is at the end of the order or on a non-completed id, and it never moved back. In a coherent session it does not move at all. |
| `Drill.Session.Finished` | app.py:110-113 | The pass is over exactly when the cursor is past the end, and the second pass is offered exactly when cards are also skipped. A finished session with nothing skipped has every card completed. |
| `Drill.Session.BeginSkippedPass` | app.py:114-122 | The order becomes a duplicate-free listing of exactly the old skipped set. The cursor is 0, skipped is empty, the verse is hidden and completed is unchanged. |
| `Drill.Session.Reveal` | app.py:133-138 | Only the reveal flag changes, and it becomes true. |
| `Drill.Session.Retry` | app.py:152-154 | Only the reveal flag changes, and it becomes false. |
| `Drill.Session.Skip` | app.py:145-149 | The current, non-completed id is added to skipped. The cursor moves up by exactly one and the verse is hidden. The order and completed are unchanged. |
| `Drill.Session.Complete` | app.py:157-162 | The current id is added to completed and removed from skipped. The cursor moves up by exactly one and the verse is hidden. The two sets stay disjoint. |

## Left out

- `load_csv` and `get_available_files` (app.py:14-22) read files and list directories. They are I/O and are not modelled. The deck enters the model only as its size.
- The early returns when no CSV file exists or the chosen version's column is missing (app.py:43-45, 59-61) are not modelled. The same goes for the `BIBLE_VERSIONS` lookup. They are configuration checks with no effect on the session state.
- Streamlit rendering is not modelled: title, select boxes, toggle, buttons, markdown, columns, caption and messages. `st.rerun` is not modelled either. A button press is a method call, and the rerun is the caller calling the step methods in order.
- Fetching the current card's row and verse text (app.py:125-127) is display only.
- The distribution of `random.shuffle` and the iteration order of `list(set)` are not modelled. Only "some rearrangement" is kept.
- The floating-point value given to the progress bar (app.py:99) is not modelled. `Drill.Session.Progress` gives the integer count and the total it is divided by. It also shows the count never exceeds the total, so the bar value stays within 0..1, and a total of 0 forces a count of 0.
- `Drill.Session.BeginSkippedPass` takes no shuffle flag. Both `list(skipped)` and the optional shuffle give an arbitrary order, so one listing parameter covers both branches.
- `Drill.Session.EnsureStarted`: when no re-initialisation happens, the deck size passed in is not compared with `n`. A CSV file rewritten on disk under the same name between reruns is not modelled.

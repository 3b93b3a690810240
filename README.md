# Typewriter role cycler of the portfolio hero banner

The hero banner of the portfolio site shows a rotating "role" line ("Frontend
Developer", "React Developer", "MERN Stack Developer"). The line is typed one
character at a time. When the whole role is shown it holds for two seconds.
Then it is deleted one character at a time and the next role starts. After the
last role it wraps around to the first, forever.

The source drives this with a React effect over three state fields: the role
index, the displayed text and the deleting flag. Each run of that effect,
together with the timeout it schedules, is one **tick**. The model has two
modules:

- `Typewriter` (`typewriter.dfy`) holds the state triple `State(index, text,
  deleting)` and the mount state `Init`. `PhaseOf` picks the branch of a tick in
  the source's order: hold, advance, then delete or type. The spec function
  `Next` gives the state after one tick, and `TickDelay` gives the delay that
  tick schedules. The one-tick lemmas state what each branch does. The class
  `Cycler` holds the three fields as mutable state. Its `Tick` method updates
  them as the effect does and returns the delay instead of waiting.
- `TypewriterProgress` (`progress.dfy`) holds `Run`, which is `k` ticks in a row.
  Its lemmas show three things. The invariant holds in every state reachable
  from `Init`. Typing reaches the whole role in exactly `|role| - |text|` ticks,
  and deleting reaches the empty text. One full cycle moves to the next role,
  and a round of `|roles|` cycles returns to the starting role.

The role list is generalised to any non-empty sequence of strings. The
non-emptiness is a precondition of the functions and part of `Cycler.Valid()`.
The source's list is the constant `HeroRoles`.

Points where the model follows the code in detail:

- The source's role list is a non-empty constant, and there is no error path
  for an empty list. The model requires a non-empty list.
- The hold delay is computed as `isDeleting ? 500 : 2000`, but the hold branch
  only runs when not deleting. The model keeps both values (`PauseTime`), and
  `PauseAlwaysFull` proves that only 2000 is ever used.
- The advance branch schedules no timeout. Its delay is 0.
- The text length stays the same on the hold tick as well as on the advance
  tick. It changes by exactly one on every other tick.
- `slice(0, -1)` on the empty string gives the empty string. `slice(0, k)` clamps
  `k` to the length of the string. `DropLast` and `GrowPrefix` model both, even
  though neither case is reachable.
- JavaScript's `%` and Dafny's `%` agree on the non-negative operands used here.

## Model

| member | source | states |
|---|---|---|
| Typewriter.NextIndex | src/components/Hero.tsx:34 | the next index is below the list length; it is `i + 1` before the last role and wraps to 0 after it |
| Typewriter.DropLast | src/components/Hero.tsx:41 | the result is the prefix of the text one character shorter, and the empty text stays empty (prefix and length determine it) |
| Typewriter.DropLastRemovesLast | src/components/Hero.tsx:41 | on non-empty text, appending the removed last character gives back the old text |
| Typewriter.GrowPrefix | src/components/Hero.tsx:42 | the result is the prefix of the role one character longer than the old text, clamped to the role's length (prefix and length determine it) |
| Typewriter.GrowPrefixExtends | src/components/Hero.tsx:42 | on a proper prefix of the role, the result is the old text followed by the role's next character |
| Typewriter.TypingSpeed | src/components/Hero.tsx:23 | the character-step delay: 50 ms while deleting, 100 ms while typing |
| Typewriter.PauseTime | src/components/Hero.tsx:24 | the hold delay as computed: 500 ms when deleting, 2000 ms otherwise |
| Typewriter.PhaseOf | src/components/Hero.tsx:26-44 | the branch order: hold exactly when typing and the text is the whole role, advance exactly when deleting and the text is empty, delete exactly when deleting non-empty text, type exactly when typing an incomplete role |
| Typewriter.TickDelay | src/components/Hero.tsx:23-44 | the delay a tick schedules is 2000 ms on hold, 0 on advance (no timeout), 50 ms on delete and 100 ms on type |
| Typewriter.Next | src/components/Hero.tsx:21-47 | a tick keeps the role index in range |
| Typewriter.PauseAlwaysFull | src/components/Hero.tsx:24-27 | the hold branch always waits 2000 ms; the 500 ms alternative is dead |
| Typewriter.DelayOrder | src/components/Hero.tsx:23-44 | the delays are ordered hold > type > delete > advance = 0 |
| Typewriter.TypeTick | src/components/Hero.tsx:38-44 | a typing tick from an incomplete prefix shows `role[..|text|+1]` and changes nothing else |
| Typewriter.DeleteTick | src/components/Hero.tsx:38-44 | a deleting tick with non-empty text removes exactly the last character; the length drops by one |
| Typewriter.StartsDeletingExactlyAtHold | src/components/Hero.tsx:26-28 | from a non-deleting state the flag becomes true if and only if the text equals the role, and then text and index are unchanged |
| Typewriter.StopsDeletingExactlyWhenEmpty | src/components/Hero.tsx:31-35 | from a deleting state the flag becomes false if and only if the text is empty |
| Typewriter.IndexMovesOnlyOnAdvance | src/components/Hero.tsx:31-35 | deleting with empty text gives `(next index, "", false)`; every other tick keeps the index |
| Typewriter.NextKeepsInv | src/components/Hero.tsx:22-44 | a tick keeps the index in range and the text a prefix of the current role |
| Typewriter.LengthChange | src/components/Hero.tsx:26-44 | from a reachable state the text grows by one on type, shrinks by one on delete, stays on hold and is empty after advance |
| Typewriter.TickChangesState | src/components/Hero.tsx:21-47 | every tick from a reachable state changes the index, the text or the flag, so one of the effect's dependencies changes and the effect fires again |
| Typewriter.Cycler.constructor | src/components/Hero.tsx:16-18 | a new cycler is at `(0, "", false)` over the given non-empty roles and satisfies the invariant |
| Typewriter.Cycler.Tick | src/components/Hero.tsx:21-47 | one effect run moves the fields to `Next` of the old state, returns `TickDelay` of the old state and keeps the invariant |
| TypewriterProgress.Run | src/components/Hero.tsx:21-47 | any number of ticks keeps the role index in range |
| TypewriterProgress.RunKeepsInv | src/components/Hero.tsx:21-47 | any number of ticks keeps the index in range and the text a prefix of the current role |
| TypewriterProgress.Reachable | src/components/Hero.tsx:16-44 | every state reachable from `(0, "", false)` has its index in range and its text a prefix of the current role |
| TypewriterProgress.NeverStops | src/components/Hero.tsx:21-47 | from the mount state, tick `k + 1` always differs from tick `k`, so the animation never stops on its own |
| TypewriterProgress.TypingProgress | src/components/Hero.tsx:38-44 | `j` typing ticks from prefix `t` show `role[..|t|+j]` while the role is not complete |
| TypewriterProgress.TypingReachesHold | src/components/Hero.tsx:26-44 | exactly `|role| - |text|` ticks from a typing state show the whole role and reach the hold branch; every earlier tick is a typing tick |
| TypewriterProgress.DeletingProgress | src/components/Hero.tsx:38-44 | `j` deleting ticks remove the last `j` characters |
| TypewriterProgress.FullCycle | src/components/Hero.tsx:21-47 | `2|role| + 2` ticks from `(i, "", false)` type, hold, delete and advance to `(next index, "", false)` |
| TypewriterProgress.IndexAfterRound | src/components/Hero.tsx:34 | `|roles|` advances from any index return to it |
| TypewriterProgress.Rotation | src/components/Hero.tsx:31-35 | `k` full cycles from the start of role `i` end at the start of the role `k` advances later |
| TypewriterProgress.WholeRound | src/components/Hero.tsx:31-35 | one round of `|roles|` full cycles returns to the starting role with empty text, not deleting |
| TypewriterProgress.FirstRoleShown | src/components/Hero.tsx:16-44 | after mounting, the first role is typed out in full within `|roles[0]|` ticks and nothing is deleted before that |
| TypewriterProgress.HeroBanner | src/components/Hero.tsx:6-10 | with the site's three roles, "Frontend Developer" is shown after 18 ticks and one round returns to the mount state |

## Left out

- Real timers and their `clearTimeout` cleanup: a tick returns its delay in milliseconds instead of waiting. Wall-clock time and event-loop interleaving are not modelled.
- React re-rendering: the effect re-runs only when one of its dependencies (index, text, flag) changes. This is modelled by applying `Next` to the updated state again. That is sound because every tick changes at least one of them (`TickChangesState`, `NeverStops`). The two setters of the advance branch are one atomic update, as React batches them.
- Text is modelled as a sequence of characters (Unicode scalar values). The source's `length` and `slice` count UTF-16 code units. The two agree on roles without characters outside the Basic Multilingual Plane, such as the site's three roles. For a role with such a character (an emoji, say), the source takes two typing ticks for it and briefly shows half of a surrogate pair, where the model takes one. The tick counts in `TypingReachesHold`, `DeletingProgress` and `FullCycle` count characters in this sense.
- Rendering the displayed text into the page is not modelled.
- Determinism is not stated as a lemma. `Next` and `Run` are functions, so equal roles and equal tick counts give equal states by construction.
- TypewriterProgress.Rotation: states the index after `k` cycles as `k` iterated advances (`IndexAfter`), not as `(i + k) mod |roles|`. This avoids nonlinear remainder arithmetic.
- The mouse parallax, the entrance and floating-shape animations and the rest of `Hero.tsx`'s markup: floating-point DOM geometry and a foreign animation library.
- The other components (about, skills, projects, experience, contact form, navbar, footer, toggle group, page composition): static content, animation library calls and one-field UI toggles with no logic to prove.

# Skill-exchange matchmaking, modelled in Dafny

VibeCode is a small skill-exchange web application. Each user lists, as
free comma-separated text, the skills they offer and the skills they want.
The one algorithmic part of the application is matchmaking:

- **The skill normalizer** `normalize_skills` turns a skill text into a list
  of tokens. It splits on `,`, strips and lower-cases each piece, and drops
  the pieces that are blank.
- **The `/match` handler** compares the logged-in user with every other
  user. For each candidate it computes two sets:
  - the skills the candidate offers that the user wants;
  - the skills the candidate wants that the user offers.

  The score is the total size of the two sets. The handler keeps the
  candidates with a positive score, lists each one's two sets in sorted
  order, and sorts the candidates by score, highest first. The sort is
  stable, so equal scores keep the order of the candidate rows.

Around these sit three small value rules of other handlers:

- the rating score is clamped to 1..5;
- a session with a blank skill gets the name "Skill Exchange";
- a blank message is refused.

The project has five modules:

- `Wrappers` (`wrappers.dfy`): `Option` and `Result`.
- `Text` (`text.dfy`): the parts of Python's `str` that the code relies on.
  - `Strip` is `str.strip()`, over the exact set of characters for which
    `str.isspace()` holds.
  - `Lower` is `str.lower()` on the ASCII letters.
  - `Split` is `str.split(",")`.
  - `Less` is the order of `str` values: lexicographic by code point.
- `Skills` (`skills.dfy`): `normalize_skills` and `set(normalize_skills(...))`.
- `Matching` (`matching.dfy`): the body of `match`.
  - The `for` loop that builds `matches` is the method `Match`.
  - `sorted(list(...))` is the method `SortedList`.
  - The in-place `matches.sort(...)` is the array method `SortByScore`, a
    stable insertion sort.
  - Each method is proved against ghost specification functions:
    - `Collected` is the list before sorting;
    - `SortedOf` is the ascending list of a set;
    - `StableSortOf` says what a stable sort by descending score returns.
- `Handlers` (`handlers.dfy`): the rating clamp, the session skill default
  and the empty-message check.

`normalize_skills` returns a list that keeps order and duplicates; only
the callers in `match` wrap it in `set(...)`. So `NormalizeSkills` returns a
list and `SkillSet` is the set the matcher uses.

## Model

| member | source | states |
|---|---|---|
| Text.StripStart | VibeCode/app/main.py:50 | The index where `lstrip` cuts: every character before it is whitespace, and the character at it is not. |
| Text.StripEnd | VibeCode/app/main.py:50 | The index where `rstrip` cuts: every character from it on is whitespace, and the one before it is not. |
| Text.Strip | VibeCode/app/main.py:50 | `strip()` is never longer than its input. It is empty exactly when the input is all whitespace; otherwise its first and last characters are not whitespace. |
| Text.StripSurrounds | VibeCode/app/main.py:50 | The input is whitespace, then the stripped string, then whitespace. |
| Text.StripIdempotent | VibeCode/app/main.py:50 | Stripping twice is stripping once. |
| Text.Lower | VibeCode/app/main.py:50 | `lower()` keeps the length and leaves no upper-case letter. |
| Text.LowerKeeps | VibeCode/app/main.py:50 | Lower-casing keeps whitespace and commas where they are, and leaves a lower-case string unchanged. |
| Text.Split | VibeCode/app/main.py:50 | `split(",")` gives one more piece than there are commas, and no piece holds a comma. |
| Text.JoinSplit | VibeCode/app/main.py:50 | Joining the pieces of `split(",")` with commas gives back the text. |
| Text.SplitJoin | VibeCode/app/main.py:50 | Splitting comma-free pieces joined with commas gives back the pieces. |
| Text.LessIrreflexive | VibeCode/app/main.py:200-201 | No string sorts before itself. |
| Text.LessTransitive | VibeCode/app/main.py:200-201 | The order `sorted` uses is transitive. |
| Text.LessTotal | VibeCode/app/main.py:200-201 | Of two different strings, one sorts before the other. |
| Text.LessAsymmetric | VibeCode/app/main.py:200-201 | Two strings never each sort before the other. |
| Skills.NormalizeSkills | VibeCode/app/main.py:49-50 | Every token is a well-formed skill: non-empty, no whitespace at either end, lower case, comma-free. There are at most as many tokens as comma-separated pieces. An absent text counts as empty. |
| Skills.TokensWellFormed | VibeCode/app/main.py:50 | The comprehension yields at most one token per piece, and each token is well formed. |
| Skills.CanonicalIsToken | VibeCode/app/main.py:50 | `s.strip().lower()` of a non-blank, comma-free piece is a well-formed token. |
| Skills.FilterMapLength | VibeCode/app/main.py:50 | A filtered comprehension has one element per accepted input element. |
| Skills.FilterMapInOrder | VibeCode/app/main.py:50 | The accepted element at index `i` appears at the position that counts the accepted elements before it. |
| Skills.FilterMapFrom | VibeCode/app/main.py:50 | Every element of a filtered comprehension is the image of an accepted element at that position. |
| Skills.FilterMapEmpty | VibeCode/app/main.py:50 | A filtered comprehension is empty exactly when no element is accepted. |
| Skills.TokensLength | VibeCode/app/main.py:50 | There is exactly one token per non-blank piece. |
| Skills.TokensInOrder | VibeCode/app/main.py:50 | A non-blank piece gives its canonical form at the index that counts the non-blank pieces before it, so order is kept. |
| Skills.TokensFromPieces | VibeCode/app/main.py:50 | Every token is the canonical form of a non-blank piece, and it sits where that piece's rank among the non-blank pieces says. |
| Skills.TokensEmpty | VibeCode/app/main.py:50 | No token comes out exactly when every piece is blank. |
| Skills.SplitAllBlank | VibeCode/app/main.py:50 | Every piece of `split(",")` is blank exactly when the text is only whitespace and commas. |
| Skills.NormalizeEmpty | VibeCode/app/main.py:50 | The normalizer returns the empty list exactly when the text is absent or holds only whitespace and commas. |
| Skills.EmptyExamples | VibeCode/app/main.py:50 | `None`, `""`, `"   "` and `",,,"` all give the empty list. |
| Skills.NormalizeExample | VibeCode/app/main.py:50 | `"Python, COOKING , python"` gives `["python", "cooking", "python"]`: trimmed, lower-cased, duplicates kept. |
| Skills.SkillSetExample | VibeCode/app/main.py:186-187 | The set of that list is `{"python", "cooking"}`. |
| Skills.SkillSet | VibeCode/app/main.py:186-187 | `set(normalize_skills(...))` holds only well-formed tokens and has at most as many elements as the list. |
| Skills.ElemsSize | VibeCode/app/main.py:186-187 | `set(xs)` has at most `len(xs)` elements. |
| Skills.ElemsEmpty | VibeCode/app/main.py:186-187 | `set(xs)` is empty exactly when `xs` is. |
| Matching.Insert | VibeCode/app/main.py:200-201 | Inserting a new string into a strictly ascending list gives a strictly ascending list one longer, holding exactly the old elements and the new one. |
| Matching.SortedList | VibeCode/app/main.py:200-201 | `sorted(list(s))` is strictly ascending, holds exactly the elements of `s`, and has length `len(s)`. |
| Matching.SortedExists | VibeCode/app/main.py:200-201 | Every finite set of strings has an ascending listing. |
| Matching.AscendingDistinct | VibeCode/app/main.py:200-201 | A strictly ascending list has no duplicates: its set has its length. |
| Matching.SortedUnique | VibeCode/app/main.py:200-201 | Two strictly ascending lists with the same elements are equal, so the sorted list does not depend on the order the set is iterated in. |
| Matching.SortedOf | VibeCode/app/main.py:200-201 | The ascending list of a set is strictly ascending, holds exactly the set's elements, and has its size. |
| Matching.SortedOfSingle | VibeCode/app/main.py:200-201 | A one-element set sorts to that one-element list. |
| Matching.CollectFromKept | VibeCode/app/main.py:191-203 | Every appended entry belongs to a candidate that passed the test. |
| Matching.CollectHasKept | VibeCode/app/main.py:191-203 | Every candidate that passes the test has its entry appended. |
| Matching.CollectOnce | VibeCode/app/main.py:191-203 | When no two rows are equal and no other row yields the same entry, a kept row's entry is collected exactly once. |
| Matching.CollectStep | VibeCode/app/main.py:191-203 | One turn of the loop appends the current candidate's entry if it passes the test, and nothing otherwise. |
| Matching.EntryWellFormed | VibeCode/app/main.py:192-203 | The entry of a kept candidate is another user than the caller. Its two lists are the two intersections, sorted, and its score is their total length and positive. |
| Matching.ScoreSymmetric | VibeCode/app/main.py:194-196 | The score is symmetric: swapping the candidate and the user swaps the two intersections and keeps the score. |
| Matching.MutualMatch | VibeCode/app/main.py:194-196 | When the candidate offers exactly what the user wants and wants exactly what the user offers, both intersections are whole and the score is the size of both sets. |
| Matching.GuitarSpanishExample | VibeCode/app/main.py:192-203 | A candidate offering "spanish" and wanting "guitar", against a user offering "guitar" and wanting "spanish", is kept with `offer_match = ["spanish"]`, `want_match = ["guitar"]` and score 2. |
| Matching.CollectedFacts | VibeCode/app/main.py:190-203 | Every collected entry is the well-formed entry of a kept candidate from the rows. Every kept candidate has its entry collected, and with distinct ids exactly once. |
| Matching.CountWithScore | VibeCode/app/main.py:204 | An entry occurs as often in a list as among the list's entries of the same score. |
| Matching.StableSortPermutes | VibeCode/app/main.py:204 | A stable sort by score is a permutation of its input. |
| Matching.StableSortUnique | VibeCode/app/main.py:204 | Any two lists that are sorted by score and keep the input order within each score are equal: the stable sort's result is determined. |
| Matching.RankingExample | VibeCode/app/main.py:204 | Entries scored 3, 1, 2 come out in the order 3, 2, 1. |
| Matching.TieExample | VibeCode/app/main.py:204 | Entries scored 1, 2, 1 come out as the 2, then the first 1, then the second 1. |
| Matching.WithScoreConcat | VibeCode/app/main.py:204 | The entries of one score in a concatenation are those of each part, in order. |
| Matching.PlaceSorted | VibeCode/app/main.py:204 | An entry placed after every entry with a score at least as high and before every lower one keeps the list sorted by score. |
| Matching.PlaceStable | VibeCode/app/main.py:204 | That placement leaves the order within every score as if the entry had been appended. |
| Matching.InsertionStep | VibeCode/app/main.py:204 | One insertion step turns a stable sort of a prefix into a stable sort of the prefix with one more entry. |
| Matching.ShiftIntoPlace | VibeCode/app/main.py:204 | Moves one entry left past the entries with a strictly lower score, shifting them right. It lands after an entry with a score at least as high, and the rest of the array is unchanged. |
| Matching.SortByScore | VibeCode/app/main.py:204 | `matches.sort(key=score, reverse=True)` in place: the array ends sorted by score, highest first, and for every score its entries keep their old order. |
| Matching.Match | VibeCode/app/main.py:184-205 | The result is the stable sort by descending score of the kept candidates' entries in row order. Every entry belongs to a row other than the caller and is well formed: both sorted intersections, their total as score, score positive. Every kept candidate appears, and with distinct ids exactly once. |
| Matching.EntryComputed | VibeCode/app/main.py:197-203 | The dictionary the loop appends is the candidate's specified entry. |
| Matching.RankedFacts | VibeCode/app/main.py:196-204 | Any stable sort of the collected list holds exactly the well-formed entries of the kept candidates, each once when the ids are distinct. |
| Handlers.ClampRating | VibeCode/app/main.py:309 | The stored score lies in 1..5. It is the input when that is in range, 1 below the range and 5 above it. |
| Handlers.ClampIdempotent | VibeCode/app/main.py:309 | Clamping a clamped score changes nothing. |
| Handlers.ClampMonotone | VibeCode/app/main.py:309 | A higher input never gives a lower stored score. |
| Handlers.SessionSkill | VibeCode/app/main.py:288 | The session's skill is the stripped input, or "Skill Exchange" when the input is blank. Either way it is non-empty with no whitespace at its ends. |
| Handlers.MessageContent | VibeCode/app/main.py:248-254 | A message is refused exactly when its content is blank. Otherwise it is stored stripped: non-empty, with no whitespace at its ends. |

## Left out

- Database access is not modelled: queries, `commit`, `get_db` and the `.limit(100)` of other handlers.
  - The candidate query of `match` becomes a sequence of user rows, in the order the database returns them.
  - Its filter `User.id != user.id` is the id test inside the loop.
- Authentication is not modelled. The `match` handler's `require_login` is replaced by the caller's row passed in as `me`.
- Cookies and sessions are left out, and so are password hashing with passlib/bcrypt and its calls into that library.
- Template rendering, redirects and HTTP exceptions are transport.
  - `MessageContent` returns an error value where the handler renders the thread page with status 400.
  - The 404 for an unknown peer, partner or ratee is not modelled.
- The `ilike` catalog search (main.py:167-177) runs inside the database, not in this code.
- The mean rating with `statistics.mean` (main.py:159) is floating-point arithmetic.
- VibeCode/app/models.py only declares tables. From it the model takes two facts: both skill columns may be NULL, hence `Option<string>`; and `id` is the primary key of `users`, which is what `DistinctIds` states.
- Text.Lower: lower-cases only the ASCII letters. Python's `str.lower()` also maps other upper-case letters, and some of them to several characters, which the model does not reproduce.
- Matching.SortByScore: an insertion sort stands in for Python's Timsort. Both are stable sorts, and `StableSortUnique` shows that any two stable sorts by score return the same list, so the result is the same.
- Matching.SortedList: the iteration order of a Python set is not modelled. The insertion order is arbitrary, and `SortedUnique` shows the sorted list does not depend on it.
- Matching.Match: states "exactly once" only when the ids are distinct. The primary key of `users` guarantees that, but the model takes it as a hypothesis rather than an assumption about every input.
- Matching.Match: the result dictionaries are `MatchEntry` values. The candidate's full row is reduced to the id and the two skill fields.

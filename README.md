# hg-relay arena map and leaderboard, modelled in Dafny

The hg-relay server (`server.js`) keeps the latest Hunger Games state posted to its
`/state` endpoint. Every ten seconds it renders that state into a Discord
embed. This project models the deterministic part of that rendering:

- `arrow(deg)` (module `Compass`) turns a tribute's heading into one of eight
  compass-arrow emoji. It first brings the angle into [0, 360) with JavaScript's
  truncating `%`, spelled out as `JsRemTurn`.
- `renderMap(tributes)` (module `ArenaMap`) draws a 10 x 10 grid of ⬛ cells.
  Each living tribute that has a position is drawn at row `floor(z * 9)`,
  column `floor(x * 9)`. `RenderMap` fills an `array2` in place with the same
  loop as the source. It is proved equal to `RenderText`, a specification that
  gives each cell the heading of the last tribute drawn there.
- The "Top Sponsors" text built inside `updateEmbed` (module `Leaderboard`) has
  one line `**{i+1}.** {name} — {votes}💎` per entry. The lines are joined with
  newlines, and an empty result becomes "None".
- `JsText` models `Array.prototype.join` and the decimal rendering of integers.
  It also holds `Split` and `ParseNat`. The source never calls these two; they
  are the inverses that `Join` and `ShowNat` are proved against.

This model covers only the rendering in `server.js`.

Strings are sequences of Unicode scalar values. Each arrow is its base symbol
followed by U+FE0F. Headings are integers. Positions are exact reals.

## Model

| member | source | states |
|---|---|---|
| `Compass.JsRemTurn` | server.js:36 | JavaScript `a % 360` truncates: the result lies strictly between -360 and 360, has the sign of `a` and is congruent to `a` modulo 360 |
| `Compass.Normalize` | server.js:36 | `((deg % 360) + 360) % 360` lies in [0, 360) for every integer, negatives included, and equals the mathematical residue of `deg` modulo 360 |
| `Compass.Arrow` | server.js:35-45 | the if-chain always returns one of the eight arrows, namely arrow number `floor(d / 45)` for the normalised angle `d` |
| `Compass.ArrowsDistinct` | server.js:37-44 | the eight arrows are pairwise different strings |
| `Compass.ArrowPeriodic` | server.js:36 | adding any whole number of turns, positive or negative, changes neither the normalised angle nor the arrow |
| `Compass.ArrowSector` | server.js:37-44 | `arrow` returns the k-th arrow if and only if the normalised angle lies in [45k, 45k + 45), for k = 0..7 |
| `Compass.ArrowDefault` | server.js:35 | the default heading 0 gives ⬆️ |
| `ArenaMap.Scale` | server.js:55-56 | no contract; `Math.floor(v * 9)`, characterised by `ScaleIsFloor` |
| `ArenaMap.ScaleIsFloor` | server.js:55-56 | the grid index of a coordinate `v` is the greatest integer not above `9v` |
| `ArenaMap.Drawn` | server.js:54 | no contract; a tribute is drawn when alive and placed, characterised by `BlankIffUntargeted` and `IgnoredTributeMap` |
| `ArenaMap.Row` | server.js:56 | no contract; the row of a placed tribute, `Math.floor(z * 9)`, characterised by `UnitSquareInArena` and `AppendTribute` |
| `ArenaMap.Column` | server.js:55 | no contract; the column of a placed tribute, `Math.floor(x * 9)`, characterised by `UnitSquareInArena` and `AppendTribute` |
| `ArenaMap.Targets` | server.js:57 | no contract; the tribute writes `grid[z][x]`, characterised by `AppendTribute` and `LastWriterWins` |
| `ArenaMap.InArena` | server.js:57 | no contract; every drawn tribute lands inside the grid, the precondition of `RenderMap`, met by positions in the unit square (`UnitSquareInArena`) |
| `ArenaMap.Heading` | server.js:57 | a tribute is drawn as one of the eight arrows; a tribute without a rotation is drawn as ⬆️ |
| `ArenaMap.CellAt` | server.js:53-58 | after drawing a list of tributes, every cell holds either ⬛ or one of the eight arrows |
| `ArenaMap.RenderMap` | server.js:47-61 | with every drawn tribute inside the grid, filling the 10 x 10 array in place and joining it gives exactly the specified map text |
| `ArenaMap.Grid` | server.js:49-58 | no contract; the 10 x 10 grid after drawing, characterised by `MapShape` and `RenderMap` |
| `ArenaMap.Rows` | server.js:60 | no contract; each grid row with its cells joined, characterised by `MapShape` |
| `ArenaMap.RenderText` | server.js:60 | no contract; the rows joined with newlines, characterised by `MapShape` and `RenderMap` |
| `ArenaMap.BlankIsNoArrow` | server.js:50 | an empty cell ⬛ can never be mistaken for an arrow |
| `ArenaMap.AppendTribute` | server.js:57 | drawing one more tribute changes only the cell at its (row, column), and that cell becomes the tribute's arrow |
| `ArenaMap.BlankIffUntargeted` | server.js:49-58 | a cell stays ⬛ if and only if no living, placed tribute in the list lands on it |
| `ArenaMap.LastWriterWins` | server.js:53-58 | when several tributes land on one cell, the cell shows the arrow of the last of them in list order |
| `ArenaMap.IgnoredTributeCell` | server.js:54 | inserting a dead or unplaced tribute anywhere in the list changes no cell |
| `ArenaMap.IgnoredTributeMap` | server.js:54 | inserting a dead or unplaced tribute anywhere in the list leaves the rendered map text unchanged |
| `ArenaMap.UnitSquareInArena` | server.js:55-56 | a position with 0 <= x, z <= 1 always lands on a row and a column in 0..9 |
| `ArenaMap.CellHasNoNewline` | server.js:50 | no cell contains a newline |
| `ArenaMap.MapShape` | server.js:48-60 | the map text splits on newlines into exactly the 10 grid rows, and every grid row has 10 cells |
| `ArenaMap.MapNewlines` | server.js:60 | the map text has exactly 9 newlines |
| `JsText.Join` | server.js:71 | no contract; `Array.prototype.join`, characterised by `SplitJoin` |
| `JsText.SplitJoin` | server.js:60 | joining newline-free parts with a one-character separator and splitting on it gives back the parts |
| `JsText.SplitCount` | server.js:60 | splitting gives one piece more than the number of separators |
| `JsText.ShowNat` | server.js:70 | a non-negative number is written as at least one decimal digit, with no leading zero |
| `JsText.ShowInt` | server.js:70 | an integer is written as decimal digits with no leading zero, with a leading minus sign exactly when it is negative |
| `JsText.ParseShowNat` | server.js:70 | reading back the digits written for `n` gives `n` |
| `JsText.ParseShowInt` | server.js:70 | reading back the numeral written for a vote count gives that count |
| `Leaderboard.Line` | server.js:70 | no contract; the template line of one entry, characterised by `LineRank`, `LinesDistinct` and `LineHasNoNewline` |
| `Leaderboard.Lines` | server.js:69-70 | no contract; the template line of every entry, in input order, characterised by `TextLines` |
| `Leaderboard.Text` | server.js:78 | no contract; the joined lines or "None", characterised by `TextNone` and `TextLines` |
| `Leaderboard.LineRank` | server.js:70 | line `i` starts with `**` followed by a rank that reads back as `i + 1` |
| `Leaderboard.LinesDistinct` | server.js:70 | lines at different positions are different, whatever the entries |
| `Leaderboard.LineHasNoNewline` | server.js:70 | a line contains a newline only if the entry's name does |
| `Leaderboard.TextNone` | server.js:78 | the sponsors text is "None" if and only if the leaderboard is empty |
| `Leaderboard.TextLines` | server.js:69-71 | with newline-free names, the text has exactly one line per entry, in input order, and line `i` is `**{i+1}.** {name} — {votes}💎` |

## Left out

- The `POST /state` handler (server.js:29-33) is left out: it is an Express route with a shared-secret check and a file write, which is I/O.
- The I/O of `updateEmbed` (server.js:63-96) is left out: the file check, the JSON parse, the Discord fetch, edit and send, and the ISO timestamp. The embed's title and the code fence around the map (server.js:74, 82) are left out with it.
- The timers, the event handler, `app.listen` and the login (server.js:98-105) are left out: they are the event loop and the network.
- discord.js is not part of this model. It is Discord plumbing on a timer, and it reads a global `latestState` that it never defines.
- Floating point is left out. Positions are exact reals, so the `Math.floor(v * 9)` in the model has no IEEE-754 rounding. Headings are integers, so fractional degrees are not modelled.
- A rotation JavaScript cannot coerce to a number (such as `"abc"` or an object) is left out. It makes the angle NaN, every comparison fails, and the result is ↖️. Coercible non-numbers are not modelled either: `true` gives ⬆️ and `"90"` gives ➡️. The model's rotation is an optional integer. An absent one gives the default 0, and so does `null`, because `null % 360` is 0.
- `RenderMap` requires every drawn tribute's row and column to be in 0..9. Outside that range the source throws when reading the row (server.js:57), or it writes a non-index property or past the end of a row. Those cases are excluded rather than modelled.
- Truthiness is simplified: `alive` is a boolean, and `position` is present or absent. In JavaScript any present position object counts as true.
- Strings are sequences of Unicode scalar values, not UTF-16 code units. This changes lengths but not any property stated here.
- `JsText.ShowInt`: vote counts are JavaScript doubles, so the model matches the source only for |votes| <= 2^53. Above 2^53, `${v}` prints the shortest digits that round-trip, padded with zeros. For example, `${2**60}` is "1152921504606847000", while the model writes "1152921504606846976". From 10^21 on, JavaScript switches to exponent notation. The model always writes the exact decimal digits.
- The elements of `tributes` and of the leaderboard are assumed to be records. A `null` element makes the source throw (`t.alive` at server.js:54, `l.name` at server.js:70). A non-object element is skipped in the map and printed as "undefined" in the leaderboard. The model's `Tribute` and `Entry` types cannot express either case.
- A leaderboard entry without a `name` or `votes` field is left out. JavaScript would print "undefined" in its place; in the model both fields are always present.
- `Leaderboard.TextLines` assumes newline-free names. A name containing a newline adds lines to the text, and the model does not describe those lines.

# Player-info widget, modelled in Dafny

This project models the logic of the radar's player-info overlay, `PlayerInfoWidget`. Once per
frame the widget:

- keeps the players that are human, hostile and active;
- orders them by squared distance to the local player;
- sizes itself to one line for the header plus one line per listed player;
- draws its frame, a header row, and one fixed-width text row per listed player, in a paint
  chosen from the player's focus and type.

A minimized widget draws only its frame.

The rows come from a fixed-width formatter:

- `MakeRow` writes six columns of widths 4, 7, 12, 8, 6 and 5 into a 42-character buffer.
- Each column is written by `WriteAligned`. It copies the first `min(len, width)` characters, pads
  with spaces and advances a cursor by the width.

The modules are:

- `Text`: `Truncate`, fixed-width cells, decimal text of integers.
- `RowLayout`: `WriteAligned` and `MakeRow` on an `array<char>` buffer, with the row they build
  specified by the function `Row`.
- `Linq`: `Where` and a stable `OrderBy`.
- `Players`: the per-frame view of a player, the six column texts of its row, and `GetTextPaint`.
- `Widget`: the canvas as the list of commands drawn on it, and `PlayerInfoWidget.Draw`.

The padding slice in `WriteAligned` starts at `pos + value.Length` even when nothing is padded.
So a field longer than the space left in the buffer throws, after its visible prefix was copied.
Only the distance can do this: it is cut to 6 characters, but its column is the last one and is
5 wide. An observed player 100000 or more units away therefore makes `MakeRow` throw. The model
keeps this behaviour as an error path:

- `WriteAligned` returns `ok = false`;
- `MakeRow` returns `None`;
- `Draw` returns `completed = false`, with the header and the earlier rows already drawn.

The in-hands text is cut to 15 characters although its column is 12 wide. It does not bleed into
the next column, because `WriteAligned` copies at most the column width (`HandsColumnNoBleed`).

## Model

| member | source | states |
|---|---|---|
| Text.Truncate | src/UI/Skia/PlayerInfoWidget.cs:151-156 | the result is the prefix of the input of length min(length, maxLength); an input no longer than maxLength (the empty one included) comes back unchanged |
| Text.CellShape | src/UI/Skia/PlayerInfoWidget.cs:78-91 | a cell is exactly as wide as its column; a short value is kept whole and followed by spaces, a long one is cut to the width with no padding |
| Text.NatText | src/UI/Skia/PlayerInfoWidget.cs:137 | the decimal text of a whole number is non-empty and made of digits only |
| Text.NatTextLength | src/UI/Skia/PlayerInfoWidget.cs:137 | a number of at least 10^k has more than k digits |
| Text.NatTextShort | src/UI/Skia/PlayerInfoWidget.cs:137 | a number below 10^k has at most k digits |
| Text.NatTextRoundTrip | src/UI/Skia/PlayerInfoWidget.cs:137 | the decimal text of a whole number spells that number, and has no leading zero unless the number is 0 |
| Text.DecimalText | src/UI/Skia/PlayerInfoWidget.cs:126 | the text of a negative number is a minus sign followed by decimal digits that spell its magnitude, without leading zero; the text of any other number is decimal digits that spell it, without leading zero, and 0 is "0" |
| Text.DecimalTextNotPlaceholder | src/UI/Skia/PlayerInfoWidget.cs:126 | the text of a group id, cut to 2 or more characters, is never the placeholder "--" |
| RowLayout.WriteAligned | src/UI/Skia/PlayerInfoWidget.cs:78-91 | succeeds exactly when pos + length(value) stays inside the buffer; then the column holds the value cut or padded to its width and the cursor moves by the width; otherwise the prefix is copied, the call throws and the cursor stays; cells past the column never change |
| RowLayout.MakeRow | src/UI/Skia/PlayerInfoWidget.cs:60-76 | the buffer filled column by column is exactly the specified row, or nothing when a column throws |
| RowLayout.Row | src/UI/Skia/PlayerInfoWidget.cs:60-76 | a row is produced exactly when every field fits its column's slice, and it is then 42 characters long |
| RowLayout.JoinLength | src/UI/Skia/PlayerInfoWidget.cs:62-63 | laid-out cells are as long as their widths add up to |
| RowLayout.JoinColumn | src/UI/Skia/PlayerInfoWidget.cs:68-73 | cell k of a layout sits at the sum of the widths before it |
| RowLayout.OffsetsAreSums | src/UI/Skia/PlayerInfoWidget.cs:62-63 | the columns start at 0, 4, 11, 23, 31 and 37, and the row ends at 42 |
| RowLayout.RowColumns | src/UI/Skia/PlayerInfoWidget.cs:60-76 | in a produced row, column k holds field k cut or padded to its width, in the order group, name, hands, secure, value, distance |
| RowLayout.NoRow | src/UI/Skia/PlayerInfoWidget.cs:88 | one field past its slice is enough for no row to be produced |
| RowLayout.HeaderRow | src/UI/Skia/PlayerInfoWidget.cs:108 | the header row fits and reads "Grp Name   In Hands    Secure  Value Dist " (42 characters) |
| Linq.Where | src/UI/Skia/PlayerInfoWidget.cs:96 | every kept element satisfies the predicate, and no more elements come out than went in |
| Linq.WhereCount | src/UI/Skia/PlayerInfoWidget.cs:96 | an element satisfying the predicate is kept as often as it occurs; any other element is dropped |
| Linq.WhereSnoc | src/UI/Skia/PlayerInfoWidget.cs:96 | the kept elements stay in input order: filtering one more element at the end appends it exactly when it satisfies the predicate |
| Linq.WhereWithKey | src/UI/Skia/PlayerInfoWidget.cs:96 | the kept elements with any one key are the input elements with that key that satisfy the predicate, in input order |
| Linq.OrderBy | src/UI/Skia/PlayerInfoWidget.cs:97 | the result is as long as the input; `OrderBySorted`, `OrderByPermutes` and `OrderByStable` state that it is the input stably sorted by key |
| Linq.OrderBySorted | src/UI/Skia/PlayerInfoWidget.cs:97 | the keys of the result never decrease |
| Linq.OrderByPermutes | src/UI/Skia/PlayerInfoWidget.cs:97 | the result is a permutation of the input |
| Linq.OrderByStable | src/UI/Skia/PlayerInfoWidget.cs:97 | elements with equal keys keep their input order |
| Players.DistanceSquared | src/UI/Skia/PlayerInfoWidget.cs:97 | the sort key is zero exactly for the local player's own position |
| Players.Isqrt | src/UI/Skia/PlayerInfoWidget.cs:137 | the shown distance r is the straight-line distance with its fraction dropped: r*r <= n < (r+1)*(r+1) for the squared distance n |
| Players.Distance | src/UI/Skia/PlayerInfoWidget.cs:137 | the shown distance d is the straight-line distance with its fraction dropped (d*d <= squared distance < (d+1)*(d+1)), and it is 0 exactly at the local player's own position |
| Players.Fields | src/UI/Skia/PlayerInfoWidget.cs:125-138 | name is the name (or "--") cut to 8; a player that is not observed shows "--" for hands, secure, value and distance; an observed one shows hands cut to 15, secure to 8, the formatted value (0 without equipment) to 6 and the distance text to 6; the length bounds follow |
| Players.GroupColumn | src/UI/Skia/PlayerInfoWidget.cs:126 | the group column is "--" exactly when the group id is -1, and otherwise the id's decimal text cut to 4 |
| Players.RowFitsIffShortDistance | src/UI/Skia/PlayerInfoWidget.cs:125-140 | a player's row is produced exactly when its distance text has at most 5 characters |
| Players.DistanceOverflow | src/UI/Skia/PlayerInfoWidget.cs:137-140 | a player's row throws exactly when it is observed and 100000 or more units away |
| Players.HandsColumnNoBleed | src/UI/Skia/PlayerInfoWidget.cs:133 | the hands column shows the item name cut or padded to 12 characters, although the text was cut to 15 |
| Players.GetTextPaint | src/UI/Skia/PlayerInfoWidget.cs:158-171 | focused players get the focused paint whatever their type; the others get the PMC, player-scav or plain overlay paint by type, each in both directions |
| Widget.Canvas.DrawText | src/UI/Skia/PlayerInfoWidget.cs:116-120 | drawing text appends one text command and changes nothing else on the canvas |
| Widget.ListedPlayersSpec | src/UI/Skia/PlayerInfoWidget.cs:94-98 | the listed players are exactly the human, hostile, active input players, each as often as in the input, by nondecreasing squared distance; the listed players at any one squared distance are the input players at that distance that are human, hostile and active, in input order |
| Widget.ListedPlayers | src/UI/Skia/PlayerInfoWidget.cs:94-98 | no more players are listed than are given; `ListedPlayersSpec` and `ListedPlayerFrom` state which players are listed and in what order |
| Widget.ListedPlayerFrom | src/UI/Skia/PlayerInfoWidget.cs:94-98 | every listed player comes from the input and is human, hostile and active |
| Widget.CommandsSnoc | src/UI/Skia/PlayerInfoWidget.cs:123-147 | after rows that all fit, the next player's row is drawn at the next line, or nothing if it throws |
| Widget.RowStep | src/UI/Skia/PlayerInfoWidget.cs:123-147 | one pass of the row loop extends the drawn text by the next line's row; a row that throws leaves the table as drawn so far and means not every row fits |
| Widget.CommandsStop | src/UI/Skia/PlayerInfoWidget.cs:140 | once a row throws, no later row is drawn |
| Widget.CommandsAll | src/UI/Skia/PlayerInfoWidget.cs:123-147 | when every row fits, exactly one text command is drawn per line, in order, at consecutive lines |
| Widget.PlayerRowsDrawn | src/UI/Skia/PlayerInfoWidget.cs:123-147 | when every row fits, table line i + 1 is player i's row in that player's paint |
| Widget.AllRowsDrawn | src/UI/Skia/PlayerInfoWidget.cs:123-147 | every listed row is drawn exactly when no human, hostile, active, observed player is 100000 or more units away |
| Widget.MakeHeader | src/UI/Skia/PlayerInfoWidget.cs:108 | the header made by `MakeRow` is the 42-character header text |
| Widget.DrawRows | src/UI/Skia/PlayerInfoWidget.cs:123-147 | the loop draws the listed players' rows in order from line 1, up to the first row that throws, and reports whether all were drawn |
| Widget.DrawPlayerRow | src/UI/Skia/PlayerInfoWidget.cs:125-146 | one pass of the loop draws the player's row at its line in its paint, or nothing when the row throws |
| Widget.PlayerInfoWidget.constructor | src/UI/Skia/PlayerInfoWidget.cs:43-49 | the widget starts with the given minimized state and size |
| Widget.PlayerInfoWidget.DrawFrame | src/UI/Skia/PlayerInfoWidget.cs:114 | the base frame is drawn with the widget's current state and size |
| Widget.PlayerInfoWidget.DrawTable | src/UI/Skia/PlayerInfoWidget.cs:100-147 | for the listed players, the height becomes 1 + n lines before the frame is drawn; then come the header in the plain paint at line 0 and the listed players' rows from line 1; the result says whether every row was drawn |
| Widget.PlayerInfoWidget.Draw | src/UI/Skia/PlayerInfoWidget.cs:52-148 | a minimized widget draws only its frame, no text, and keeps its size; otherwise the height becomes 1 + the number of listed players, the frame and the header are drawn, then the rows of the listed players in order up to the first that throws, and the result says whether every row was drawn; the minimized flag never changes |

## Left out

- The Skia surface: fonts, `MeasureText`, paints as objects, draw positions and the `drawPt` offsets. Paints are an enumeration. A drawn line is identified by its index below the top of the table.
- `Size`: only its height in lines is modelled. The width (the measured header length plus padding) and the font spacing are floating point.
- Positions are whole-unit integer coordinates. The sort key is the exact squared distance. The shown distance is its integer square root, standing for the `(int)` cast of the floating-point `Vector3.Distance`; float rounding is not modelled.
- Players.Distance: is an unbounded whole number. The `(int)` cast of a distance of 2^31 or more overflows, and C# leaves its result unspecified (on x64 before .NET 9 it is `int.MinValue`, whose text cut to 6 is "-21474"; from .NET 9 the conversion saturates to `int.MaxValue`, whose text cut to 6 is "214748"). The model does not capture that value. In every case the distance text has 6 characters, so the row throws.
- `Utilities.FormatNumberKM` is not part of this model. It is a parameter `int -> string` of `Fields` and `Draw`.
- Players are a snapshot record: name, position, group id, the `IsHumanHostileActive` and `IsFocused` flags, a type, and, for observed players, the optional equipment. Player types other than PMC and player scav are one case, because the paint does not tell them apart.
- Text.Truncate: a `null` input is not modelled (strings are never null here, and the widget never passes null); a negative `maxLength` cannot be expressed (`nat`).
- RowLayout.MakeRow: the six `WriteAligned` calls are written as one loop over the table of column widths, and `string.Create` as a fresh `char` array.
- Widget.PlayerInfoWidget.Draw: the exception that a throwing row raises is modelled as the result `completed = false`, with the commands drawn before it kept. Unwinding into the caller is not modelled.
- The base widget (`AbstractSKWidget`): hit-testing, minimize toggling and the frame's appearance. `SetScaleFactor` only calls the base class and is left out.
- Strings are sequences of Unicode scalar values, while C# counts UTF-16 code units. So text with characters outside the Basic Multilingual Plane is cut and padded differently, and a surrogate pair split by `Substring` or `AsSpan` cannot be represented. `ToString()` is modelled with the invariant-culture minus sign `-`.
- The pooled list (`ToPooledList`, `using`) is a plain sequence.

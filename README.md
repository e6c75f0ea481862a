# Lunacy keybinding extraction, modelled in Dafny

Lunacy is a small terminal viewer for LeftWM keybindings. It reads the
window manager's `config.ron`. It matches every line against one fixed
pattern, `(command: C, value: "V", modifier: [M], key: "K")`, and keeps one
keybinding record per matching line. It then shows a table with a header
row and one row per record: a human-readable description of the command,
the modifier keys joined with `", "`, and the key.

This project models that pipeline and proves its properties.

- `optional.dfy`: the `Option` type.
- `gostrings.dfy` (module `GoStrings`): the Go `strings` functions the program uses.
  - `Split` with a one-rune separator.
  - `Join`.
  - `ReplaceAll` of one rune by nothing, as `RemoveAll`.
  - `TrimSpace`, with the white-space set of `unicode.IsSpace`.
- `pattern.dfy` (module `LinePattern`): an explicit matcher for the keybinding pattern, with Go's leftmost-first semantics.
  - The match starts at the leftmost position where the pattern can match at all.
  - `\w+` and `[^\]]*` are maximal, because the literal that follows them forces it.
  - The lazy value is the shortest one that lets the rest match, then the key is the shortest one.
  - `.` is any rune but a newline, and `\w` is the ASCII word class.
  - A match is characterised by decomposition: the template rebuilt from the four captures occurs in the line.
  - Proved about the matcher: soundness, completeness, uniqueness, and a round trip for quote-free fields.
- `descriptions.dfy` (module `Resolver`): the description table, copied verbatim with its slips, and the description rule.
- `config.dfy` (module `Config`): the extraction loop of `parseConfig`.
  - It is a method with loops.
  - It is proved equal to a specification function, `Extract`.
  - Further lemmas cover the order, the count, and the membership of records, plus modifier normalisation.
- `display.dfy` (module `Display`): the row loop of `main`.
  - It fills an array of rows.
  - The modifier column is proved to read back to the modifier list.
- `scenarios.dfy` (module `Scenarios`): worked configuration lines, followed through extraction and into their rows.

Strings are sequences of runes (`seq<char>`). The input is the sequence of
lines the scanner yields.

## Model

| member | source | states |
|---|---|---|
| GoStrings.Join | main.go:137 | `strings.Join`: no contract of its own; described by `JoinSplit`, `SplitJoin` and `ModifierColumnRoundTrip` |
| GoStrings.IsSpace | main.go:162 | the rune set of `unicode.IsSpace` that `TrimSpace` removes; described by `TrimSpace` and `TrimSpacePadded` |
| GoStrings.Split | main.go:160 | splitting on a rune gives one more piece than the string has separators, and no piece holds the separator |
| GoStrings.JoinSplit | main.go:160 | joining the pieces of a split with the separator gives back the string |
| GoStrings.SplitJoin | main.go:160 | splitting a separator-free list joined with the separator gives back the list |
| GoStrings.RemoveAll | main.go:162 | deleting every occurrence of a rune leaves no occurrence, shortens the string by the occurrence count, adds no rune, and leaves a string without the rune unchanged |
| GoStrings.RemoveAllMultiset | main.go:162 | deleting a rune keeps every other rune with its multiplicity |
| GoStrings.RemoveAllAppend | main.go:162 | deleting a rune works piece by piece over a concatenation |
| GoStrings.TrimSpace | main.go:162 | the result is a contiguous slice of the input, and what is cut off at either end is white space; the result has no white space at either end |
| GoStrings.TrimSpacePadded | main.go:162 | trimming a trimmed text with white space around it gives the text back |
| LinePattern.Template | main.go:154 | the literal text of the pattern around the four captures; described by `FindSpec` and `RoundTrip` |
| LinePattern.MatchTail | main.go:154 | `[^\]]*` and the lazy key after the value; described by `MatchTailSound` and `MatchTailComplete` |
| LinePattern.MatchAt | main.go:154 | the pattern anchored at one position; described by `MatchAtSound` and `MatchAtComplete` |
| LinePattern.FindFrom | main.go:154-158 | the leftmost anchored match from a position on; described by `FindSpec` |
| LinePattern.Find | main.go:158 | `re.FindStringSubmatch`: no contract of its own; described by `FindSpec`, `ReportedUnique` and `RoundTrip` |
| LinePattern.LazyEnd | main.go:154 | the lazy `.*?` end is the first position from which the rest can match, and there is none when no newline-free position works |
| LinePattern.MatchTailSound | main.go:154 | the modifier-and-key part found fits the tail of the pattern and has the shortest key among all fits |
| LinePattern.MatchTailComplete | main.go:154 | whenever some modifier and key fit the tail of the pattern, the matcher finds one |
| LinePattern.MatchAtSound | main.go:154 | a match found at a position fits the template and is the preferred one: the shortest value, then the shortest key |
| LinePattern.MatchAtComplete | main.go:154 | if any captures fit the template at a position, the matcher finds a match there |
| LinePattern.FindSpec | main.go:154-158 | `FindStringSubmatch`: a reported match is the preferred one at the leftmost position where any match starts, and its template occurs in the line at that position; there is no match exactly when no captures fit anywhere |
| LinePattern.PreferredUnique | main.go:154 | at most one set of captures is preferred at a position |
| LinePattern.ReportedUnique | main.go:154 | a line has at most one reported match |
| LinePattern.QuoteFreePreferred | main.go:154 | captures whose value and key hold no quote are the preferred ones wherever they fit |
| LinePattern.RoundTrip | main.go:154-158 | the line written from well-formed quote-free captures is matched at position 0 with exactly those captures |
| Resolver.Descriptions | main.go:63-99 | the description table, entry for entry; described by `GetDescription` and `TableSlipsKept` |
| Resolver.GetDescription | main.go:101-118 | `MoveToTag`, `GotoTag` and `Execute` give their fixed prefix followed by the value; any other command in the table gives its table text; any other command gives itself |
| Resolver.ValueShownExactlyWhenInterpolated | main.go:101-118 | two values give the same description for a command exactly when they are equal or the command is not one of the three interpolated ones |
| Resolver.InterpolatedValueShown | main.go:102-112 | for `MoveToTag`, `GotoTag` and `Execute`, equal descriptions mean equal values |
| Resolver.OtherValueIgnored | main.go:114-117 | for any other command, the value never changes the description |
| Resolver.ShadowedEntries | main.go:63-112 | the table entries of `GotoTag` and `Execute` are never shown |
| Resolver.DescriptionNonEmpty | main.go:101-118 | a non-empty command never gets an empty description |
| Resolver.TableSlipsKept | main.go:91-96 | `MoveWindowToPreviousWorkspace` shows "Move Window To Next Workspace" and `IncreaseMainCount` shows "Decrease Main Count", as the table has them |
| Config.KeyBind | main.go:56-61 | the keybinding record with its four fields; described by `RecordOfLine` |
| Config.CleanModifier | main.go:162 | a cleaned piece holds no quote, has no white space at either end, and holds only runes of the raw piece |
| Config.NormalizeModifiers | main.go:160-163 | the modifier list has one more element than the raw capture has commas; no element holds a quote or a comma or has white space at either end; no element holds `]` when the capture has none |
| Config.EmptyModifierList | main.go:160-163 | an empty modifier capture gives the one-element list `[""]` |
| Config.CleanQuoted | main.go:162 | a quoted name with white space around it cleans to the bare name |
| Config.QuotedModifiersRoundTrip | main.go:160-163 | a comma-joined list of quoted names normalises back to the names |
| Config.Record | main.go:164-169 | the record built from the four captures, with the normalised modifier list; described by `RecordOfLine` and `Scenarios.LineGives` |
| Config.ExtractLine | main.go:158-170 | the record one line gives, if it matches; described by `ExtractOne`, `RecordOfLine` and `NoMatchNoRecord` |
| Config.Extract | main.go:157-171 | the records of all lines in file order; described by `ParseConfig`, `ExtractAppend` and `ExtractFromMatchingLines` |
| Config.FilterMap | main.go:157-170 | there are never more records than lines |
| Config.ParseConfig | main.go:157-171 | scanning the lines in order, normalising each matching line's modifier pieces in place and appending its record, yields exactly `Extract(lines)` |
| Config.ExtractAppend | main.go:157-171 | the records of a concatenation of line runs are the records of the first run followed by those of the second |
| Config.ExtractOne | main.go:158-170 | a matching line gives exactly one record, that of its match, and any other line gives none |
| Config.ExtractFromMatchingLines | main.go:157-170 | the k-th record is the record of the k-th matching line; matching lines are listed in increasing order; a line index is listed exactly when its line matches |
| Config.RecordOfLine | main.go:154-169 | every record has a non-empty word as its command and at least one clean modifier without `]`, and comes from the reported match of its line, whose template occurs in the line |
| Config.NoMatchNoRecord | main.go:158-159 | a line gives no record exactly when no captures fit the pattern anywhere in it |
| Config.NoCloseNoRecord | main.go:154-159 | a line without `)` gives no record |
| Config.SkippedLineKeepsScanning | main.go:157-171 | a line that gives no record changes nothing: the lines around it give the same records as without it |
| Display.Header | main.go:130-132 | the header row `Command` / `Modifier` / `Key`; described by `FillTable` |
| Display.RowFor | main.go:136-138 | the three cells of one record's row; described by `FillTable`, `ModifierColumnRoundTrip` and `ScenarioRows` |
| Display.FillTable | main.go:129-139 | row 0 is the header `Command` / `Modifier` / `Key`; row i + 1 holds the description, the comma-space-joined modifiers and the key of the i-th record |
| Display.KeybindTable | main.go:121-139 | the table has one row more than there are matching lines, at most one more than there are lines, and the row after the header for the k-th matching line is the row of that line's record |
| Display.ModifierColumnRoundTrip | main.go:137 | splitting the modifier column at commas and trimming the pieces gives back a list of comma-free trimmed modifiers |
| Display.RowModifiersReadBack | main.go:137 | the modifier column of every extracted record reads back to its modifier list |
| Scenarios.ExecuteLine | main.go:154-169 | an `Execute` line with one quoted modifier gives the record with the bare modifier |
| Scenarios.GotoTagLine | main.go:154-169 | a `GotoTag` line with two quoted modifiers gives both, in order |
| Scenarios.ToggleFullScreenLine | main.go:154-169 | a `ToggleFullScreen` line with an empty value gives its record |
| Scenarios.UnknownCommandLine | main.go:154-169 | a line with an unknown command and an empty modifier list gives the modifier list `[""]` |
| Scenarios.UnclosedLineSkipped | main.go:157-171 | a line cut short before its closing `")` gives no record, and the lines around it are read as if it were absent |
| Scenarios.ScenarioRows | main.go:134-139 | the rows of those records: "Execute rofi -show drun", "Go to Tag 1" with "modkey, Shift", "Toggle Fullscreen", and "UnknownCmd" with an empty modifier column |

## Left out

- Opening `$HOME/.config/leftwm/config.ron` and the panic when it cannot be opened or scanned (main.go:148-152, 172-174) are I/O. `ParseConfig` receives the lines.
- How `bufio.Scanner` splits the file into lines (it drops a trailing carriage return) and its 64 KiB token limit (a longer line ends the scan with an error) are I/O and are not modelled.
- The tview application, table styling, expansion weights, title, borders and the event loop (main.go:122-128, 141-144) are a foreign library. A row is modelled as the triple of its cell texts.
- Go strings are UTF-8 bytes, while the model works on runes. Lines that are not valid UTF-8 are not modelled. For valid text, the pattern and the `strings` functions used act rune by rune, so the two agree.
- The regular expression engine itself is not reimplemented. The matcher models this one pattern's leftmost-first result, as decomposition plus preference.
- The Go slice `modifierStrings` is rewritten in place (main.go:161-163). The model rewrites a sequence value, so aliasing of the slice's backing array is not captured; nothing else holds that array.

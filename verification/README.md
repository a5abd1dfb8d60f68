# Explorink logic, modelled and proved in Dafny

Explorink is firmware for an e-ink map device, with Python scripts that generate part of its
source at build time. This project models the parts of it that carry real logic, one Dafny module
per source file or component, and proves what each of them keeps, computes or preserves. Code that
changes state in place is modelled by classes and methods with loops, each proved against a
specification function; what the source promises is then proved about those functions, for every
input or every run. Pure code is modelled by functions and lemmas.

Check everything with `dafny verify dfyconfig.toml`.

| module | what it models | main results |
|---|---|---|
| `DayFile` | day numbers, civil dates, day-file names | the closed form is the Gregorian calendar counted day by day; names tell and sort days |
| `PinIcons` | silhouette fill, dilation, head circle, bit packing | a cell stays unset exactly when a path of free cells joins it to the border; the fill is extensive, monotone, idempotent |
| `Utf8`, `CppLiterals` | UTF-8; what a C++ compiler reads from string literals | the reference the string tables are measured against |
| `YamlValues`, `I18nEscape`, `I18nWrap`, `I18nExact`, `I18nStrings` | the string-table compiler and the firmware's lookup | for every text, the exact condition to survive escaping and wrapping; for every table, exactly when every key of every language shows its translation |
| `MissingTilePriority`, `MissingTilesStore` | the fetch order; the bounded list and its copy on the card | strict weak order, exactly when sorting has one outcome; in every run across boots and failing writes, exactly when list and card agree |
| `HomeKey`, `HintTouch`, `MappedInputManager` | gestures of the home key; presses of on-screen boxes; the 32-bit code | every outcome of the 32-bit code characterised by the event history, and every tap accounted for; it refines the recogniser on a true clock exactly when no tap is late and no stamp is stored as 0 |
| `DebugInput` | the queue of injected presses | order, alternation and timing of edges in every run; exactly when presses are over in the frames they may take |
| `EpdFont` | glyph, kerning and ligature lookup; text measurement | the box encloses every glyph and moves with the text; rounding stays within half a pixel a step |
| `StyleVariants`, `ModeMasks`, `MapStyle` | the style-variant resolver and its two consumers | when resolving fails, what a field becomes, exactly which `when` survives; a bit in the read mask is a drawn road in the selected style |
| `CardRootMigration` | the move of the card's root directory | no content is lost in any run of boots, crashes, wrong answers and foreign writes; exactly when a boot migrates |
| `DebugTouchLog` | loop-gap recorder and run-length rows | the ten longest gaps and full histogram of the whole history; a lossless, unique run-length code |
| `CrossPointState` | the ring of recent sleep images | the ring answers for exactly the last values pushed |

## Where the code and its comments differ

The model follows the code; each difference has a lemma.

- `src/DayFile.cpp:29-34` says names are checked rather than cut, but the check counts the "noclock"
  name, one character shorter than a dated one: `DayFile.NameIsComplete` gives the exact bound and
  `DayFile.NameCanBeCut` a buffer in which a name loses its last character.
- `src/MissingTilePriority.h:84-86` calls the order total. It is on zooms 11 to 13
  (`TotalOnTheTiers`) and not elsewhere, because z itself is never compared (`NotTotalOffTheTiers`).
- The header of the missing-tile store lists the retry delays without the 48 minutes that follow
  the sixth refusal (`ScheduleInMinutes`).
- `scripts/gen_mode_masks.py:109-112` says its mask mirrors the road widths exactly. It does unless a
  class is hidden by one rule and shown again by a later one (`MapStyle.MaskIsDrawnExactly`), which both
  scripts accept for every class (`MaskCanMissDrawn`).
- `scripts/gen_mapstyle.py:1676-1680` says only a hand-edited generator can move the marker anchor. A
  root-level `when` entry on `device` does too (`MapStyle.RootPatchMovesAnchor`); `AnchorIsBase` says
  exactly when.
- `scripts/gen_i18n.py:407` says no cut falls in the middle of an escape. `I18nWrap` gives the two
  shapes that are cut, and `ForcedCutSplitsHex` a whole family of texts that have one of them.
- A backslash in a translation is taken for an escape again when it is printed
  (`I18nEscape.BackslashIsReinterpreted`, `YamlValues.EscapedBackslashIsLost`); one such text among
  the translations is always seen on some key (`I18nStrings.FirmwareShowsExactly`).
- A zero clock reading doubles as "no tap waiting" and "no refractory time" in the home-key code:
  `MappedInputManager.SpacingLostExactly` and `EarlyConfirmExactly` say exactly when that shows.
- The refractory stamp of the home key is never cleared, so a tap more than half a turn of the clock
  after it is ignored and wipes out a waiting one: `MappedInputManager.NoTapLostExactly` gives the
  exact condition, `LateTapIsLost` a run. `RunRefines` says that late taps and stamps stored as 0 are
  all that separates the code from the recogniser on a true clock.
- `src/MissingTilesStore.h:113-117` promises that a forgotten tile is not asked for after a restart.
  The guard against emptying an unread file can refuse that write: `ForgottenTileComesBack` is such a
  run, `GoodFlushListsExactly` says when a flush leaves the card with the tiles of the list.
- `scripts/mapstyle_variants.py:156-158` says a resolved style holds no `when`. One inside a patch value
  survives unless a merge drops it or a later matching entry covers it (`StyleVariants.ResolvedIsPlain`).
- The Hebrew mark placements of `lib/EpdFont/EpdFontData.h:53-66` are unreachable from the measuring
  loop, which treats only other codepoints as combining (`EpdFont.MarksAreRaised`).

## Model

| member | source | states |
|---|---|---|
| DayFile.YearOfEraFormula | src/DayFile.cpp:16 | for every century, leap cycle, year and day of an era, the division formula gives back the year |
| DayFile.PartsRanges | src/DayFile.cpp:13-19 | the era, day of era, year of era, day of year and month number lie in their commented ranges, and each is the calendar quantity its name says |
| DayFile.PartsStep | src/DayFile.cpp:13-18 | one day more moves to the next day of the same year, or to day 0 of the next year after 365 or 366 days by the 4/100/400 rule |
| DayFile.CivilStep | src/DayFile.cpp:12-25 | the date of day n+1 is the calendar successor of the date of day n, and every date exists |
| DayFile.CivilIsCalendar | src/DayFile.cpp:12-25 | for every day number, the closed form is counting forward from 1970-01-01 one Gregorian day at a time |
| DayFile.CivilIsMonotone | src/DayFile.cpp:12-25 | later days have later dates |
| DayFile.EveryDateIsReached | src/DayFile.cpp:12-25 | every existing date from the epoch on is the date of some day number |
| DayFile.NameIsComplete | src/DayFile.cpp:29-46 | a buffer the code accepts holds the whole name exactly when there is no clock or it has 14 bytes beyond the prefix |
| DayFile.NameCanBeCut | src/DayFile.cpp:29-46 | a buffer the check accepts in which a dated name loses its last character |
| DayFile.NamesTellDaysApart | src/DayFile.cpp:27-48 | in any accepted buffer, two dated names of one prefix are equal exactly for the same day |
| DayFile.NamesSortAsDays | src/DayFile.cpp:27-48 | names of one prefix are ordered lexicographically as their days are |
| DayFile.Snprintf | src/DayFile.cpp:38-46 | the buffer holds what fits, one NUL, and its old content behind it |
| DayFile.DayFileName | src/DayFile.cpp:27-48 | succeeds exactly for non-null arguments and an accepted size, leaves the name cut to the buffer, the whole name with 14 bytes beyond the prefix, and an untouched buffer on failure |
| PinIcons.Silhouette | scripts/gen_pin_icons.py:159-186 | a cell is unset exactly when a path of 4-adjacent free cells joins it to a free border cell |
| PinIcons.SilhouetteExtensive | scripts/gen_pin_icons.py:159-186 | ink stays set |
| PinIcons.SilhouetteMonotone | scripts/gen_pin_icons.py:159-186 | more ink gives a larger silhouette |
| PinIcons.SilhouetteIdempotent | scripts/gen_pin_icons.py:159-186 | filling twice is filling once |
| PinIcons.MarkOutside | scripts/gen_pin_icons.py:166-184 | a free unmarked cell is marked and queued once, any other changes nothing |
| PinIcons.SeedBorder | scripts/gen_pin_icons.py:163-174 | every free border cell is marked and queued, and only outside cells are |
| PinIcons.VisitNeighbours | scripts/gen_pin_icons.py:175-184 | after a visit every free neighbour of the cell is marked, and every marked cell is settled or queued |
| PinIcons.Flood | scripts/gen_pin_icons.py:163-184 | when the queue is empty the marked cells are the outside, all of it |
| PinIcons.FillSilhouette | scripts/gen_pin_icons.py:159-186 | for every rectangular grid the loop ends with the reachability silhouette |
| PinIcons.DilationAdds | scripts/gen_pin_icons.py:108-123 | growing by a and then by b is growing by a + b, so nothing is lost at the edges |
| PinIcons.Stamp | scripts/gen_pin_icons.py:114-122 | sets exactly the cells within the radius of one cell, clipped to the grid |
| PinIcons.DilateInto | scripts/gen_pin_icons.py:113-122 | the array shows every cell within the radius of some set cell |
| PinIcons.Dilate | scripts/gen_pin_icons.py:108-123 | every cell within Chebyshev distance r of a set cell, and no change for a radius of 0 or less |
| PinIcons.HeadCircle | scripts/gen_pin_icons.py:189-212 | the circle comes from a widest interior run, centre and radius included; no interior is reported exactly when there is none |
| PinIcons.PackByte | scripts/gen_pin_icons.py:219-228 | a byte shows its eight cells in order, with cells past the row undrawn |
| PinIcons.Pack | scripts/gen_pin_icons.py:215-229 | reading the packed bits gives the grid back, and the padding of every row is undrawn |
| Utf8.EncodeChar | scripts/gen_i18n.py:349-352 | one to four bytes; ASCII is one byte of its own value, anything else has only bytes from 0x80 on |
| Utf8.EncodeIsInjective | scripts/gen_i18n.py:657-659 | no two texts have the same UTF-8 bytes |
| Utf8.NoNulByte | scripts/gen_i18n.py:657-659 | a text without U+0000 has no zero byte |
| YamlValues.UnescapeYamlValue | scripts/gen_i18n.py:44-67 | the loop computes the recursive reading, refusals with line and character included |
| YamlValues.QuotedIsReadBack | scripts/gen_i18n.py:44-67 | for every text, its writing with the three documented escapes is read back unchanged |
| YamlValues.RefusedExactly | scripts/gen_i18n.py:44-67 | a value is refused exactly when an escape in it, not itself escaped, is none of the three |
| YamlValues.BackslashComesFromWriting | scripts/gen_i18n.py:44-67 | the text has a backslash exactly when the value has two side by side or one at its end |
| YamlValues.PlainValueIsPrinted | scripts/gen_i18n.py:44-67 | a value that writes no backslash reads back from its printed segments as its UTF-8 bytes and one NUL |
| YamlValues.EscapedBackslashIsLost | scripts/gen_i18n.py:44-67 | two different values, an escaped backslash before n and an escaped newline, are printed as the same bytes |
| I18nEscape.EscapeCppString | scripts/gen_i18n.py:302-359 | the loop computes the recursive segments |
| I18nEscape.EmitBytes | scripts/gen_i18n.py:350-352 | one escape per byte, each closing its segment |
| I18nEscape.EscapeMeans | scripts/gen_i18n.py:325-359 | at every point of the loop, the segments still to come mean the open segment followed by the meaning of the rest |
| I18nEscape.EntryMeans | scripts/gen_i18n.py:788-796 | for every text, what a C++ compiler reads from the segments and the separator, mangled backslashes included |
| I18nEscape.BackslashFreeIsHarmless | scripts/gen_i18n.py:328-344 | a text without backslashes meets the exact condition below |
| I18nEscape.MeaningIsNoLonger | scripts/gen_i18n.py:302-359 | reading an entry back never gives more bytes than the text and its separator have |
| I18nEscape.EntryRoundTrips | scripts/gen_i18n.py:302-359 | for every text, the segments read back as its UTF-8 bytes and one NUL exactly when each backslash is followed by a character that makes no escape of it |
| I18nEscape.BackslashIsReinterpreted | scripts/gen_i18n.py:333-337 | the two characters backslash and n come out as one newline byte |
| I18nWrap.FindCut | scripts/gen_i18n.py:388-411 | the scan and the forced break compute the specified cut |
| I18nWrap.FormatCppStringLiteral | scripts/gen_i18n.py:362-416 | the nested loops end and compute the wrapped lines |
| I18nWrap.WrappingKeepsCharacters | scripts/gen_i18n.py:362-416 | for every list of segments, the lines joined are the segments joined, and no line has more than 114 characters |
| I18nWrap.ScanFindsSpaces | scripts/gen_i18n.py:389-399 | the scan misses no space in its range and every space it finds ends a whole token |
| I18nWrap.SafeCutIsBoundary | scripts/gen_i18n.py:401-411 | with a space in the first 114 characters, or without either of the two bad shapes, the cut falls between tokens |
| I18nWrap.UnsafeCutIsWorse | scripts/gen_i18n.py:404-411 | otherwise the lines are refused by the compiler or carry an extra byte |
| I18nWrap.WrappingKeepsMeaningExactly | scripts/gen_i18n.py:362-416 | for every list of well-formed segments, the wrapped lines mean the same bytes exactly when no cut splits an escaped backslash or a hexadecimal escape |
| I18nWrap.EscapeGivesSegments | scripts/gen_i18n.py:302-359 | what escaping yields is made of whole tokens, with at most one hexadecimal escape or separator, at the end |
| I18nWrap.AppendStringDataEntry | scripts/gen_i18n.py:783-796 | appends the lines of the text and its separator, for the empty text too |
| I18nExact.SegmentReads | scripts/gen_i18n.py:370-416 | for every segment, wherever it is cut, lines that are not refused read as its plain tokens and its last escape, whole or as a digit and a character |
| I18nExact.TokensOf | scripts/gen_i18n.py:325-359 | whatever the lines of a text are read as is a sequence of tokens of it, each read as itself, with bytes lost or swapped, or cut in two; if all are read as themselves the text is harmless |
| I18nExact.NeverCatchesUp | scripts/gen_i18n.py:328-352 | once escapes have made the bytes read fall behind the text, no token that follows, cut or escape, lets them catch up |
| I18nExact.ServingIsExact | scripts/gen_i18n.py:328-352 | bytes read that begin with the text, or lack only its last separator, read every token as itself |
| I18nExact.PrintedEntryRoundTrips | scripts/gen_i18n.py:783-796 | for every text, the printed lines read back as its bytes and one NUL exactly when every backslash in it is harmless and every cut is safe |
| I18nWrap.SpacedTextRoundTrips | scripts/gen_i18n.py:783-796 | a backslash-free text whose over-long remainders have a space among their first 114 characters is printed without loss |
| I18nWrap.ForcedCutSplitsHex | scripts/gen_i18n.py:404-411 | every space-free text of 110 plain ASCII characters and one other character is printed as something else |
| I18nStrings.EnglishOffsets | scripts/gen_i18n.py:652-666 | each offset is the size of the strings before it, and the size is that of the blob |
| I18nStrings.OtherOffsets | scripts/gen_i18n.py:667-678 | shared strings get the flagged English offset, the others the size of the own strings before them; the blob holds the others in order |
| I18nStrings.BlobLines | scripts/gen_i18n.py:685-691 | the data lines of all strings, or of one empty string when there is none |
| I18nStrings.GenerateStringsCpp | scripts/gen_i18n.py:644-702 | written exactly when every blob has at most 32767 bytes; otherwise the first language whose blob has more |
| I18nStrings.StringInBlob | scripts/gen_i18n.py:655-659 | a NUL-free string is found, whole, where the strings before it end |
| I18nStrings.LookupFindsTranslation | lib/I18n/I18n.cpp:15-28 | for every NUL-free table that fits, language and key: the offset fits 16 bits, bit 15 is set exactly for a string shared with English, and the lookup yields exactly the translation's bytes |
| I18nStrings.LanguageRoundTrips | scripts/gen_i18n.py:685-693 | the data lines of a language whose texts have harmless backslashes and safe cuts, compiled, are its blob |
| I18nStrings.FirmwareShowsTranslation | scripts/gen_i18n.py:640-702 | for every written table of NUL-free texts with harmless backslashes and safe cuts, compiling the literals and looking up any key in any language gives exactly that translation |
| I18nStrings.FindingServes | lib/I18n/I18n.cpp:15-28 | where every string is found at its place, the memory is the blob, up to its last separator and what follows |
| I18nStrings.FoundArePrintable | scripts/gen_i18n.py:685-693 | a compiled blob in which every string is found at its place comes from texts with harmless backslashes and safe cuts only |
| I18nStrings.FirmwareShowsExactly | scripts/gen_i18n.py:640-702 | for every table that is written, every key in every language looks up as its translation exactly when every translation is free of NULs, with harmless backslashes and safe cuts |
| MissingTilePriority.TierRank | src/MissingTilePriority.h:25-36 | zoom 12 comes first, zoom 11 second, zoom 13 third, and any other zoom last |
| MissingTilePriority.StrictWeakOrder | src/MissingTilePriority.h:93-110 | for every anchor: irreflexive, asymmetric, transitive, and ties are transitive |
| MissingTilePriority.TiesAreOffTier | src/MissingTilePriority.h:93-110 | two different tiles tie exactly when both are off the three zooms, at one place and equally often hit |
| MissingTilePriority.SortExists | src/MissingTilesStore.cpp:144-152 | every list has an ordered permutation |
| MissingTilePriority.SortedOnce | src/MissingTilesStore.cpp:144-152 | two ordered permutations of one list without ties are the same list |
| MissingTilePriority.TiedEntriesSwap | src/MissingTilesStore.cpp:144-152 | two tied entries may stand in either order |
| MissingTilePriority.OrderIsDetermined | src/MissingTilePriority.h:84-86 | sorting has one outcome, whatever the list's order before, exactly when no two different entries tie |
| MissingTilePriority.TotalOnTheTiers | src/MissingTilePriority.h:84-86 | on unique keys with zooms 11, 12 and 13 sorting has one outcome |
| MissingTilePriority.NotTotalOffTheTiers | src/MissingTilePriority.h:84-86 | two tiles with different keys that sort either way |
| MissingTilesStore.RefusalDelayMs | src/MissingTilesStore.cpp:87-97 | for every 32-bit base and cap: min(base * 2^(n-1), cap), 0 for no refusal, except just under an odd cap where it is the cap; nothing overflows |
| MissingTilesStore.RefusalDelay | src/MissingTilesStore.cpp:87-97 | with the two constants of the source the closed form holds at every refusal count |
| MissingTilesStore.ScheduleInMinutes | src/MissingTilesStore.cpp:87-97 | 1.5, 3, 6, 12, 24 and 48 minutes, then an hour for good |
| MissingTilesStore.RefusedWhileDelayRuns | src/MissingTilesStore.cpp:106-120 | on a wrapping 32-bit clock the tile is refused at elapsed e exactly when e is below the delay, one more if the stamp lands on 0, for all e up to half a turn later |
| MissingTilesStore.Card.Write | src/MissingTilesStore.cpp:183-186 | the card holds the new list, the old one, or something unreadable, as the write came out |
| MissingTilesStore.MissingTilesStore.ToJson | src/MissingTilesStore.cpp:13-22 | the saved list has zoom, place and count of every entry in order |
| MissingTilesStore.MissingTilesStore.FromJson | src/MissingTilesStore.cpp:24-46 | the first 200 entries are taken over with no refusals, and the list counts as known |
| MissingTilesStore.MissingTilesStore.LoadFromFile | src/MissingTilesStore.cpp:24-46 | a readable file is loaded, anything else changes nothing |
| MissingTilesStore.MissingTilesStore.Record | src/MissingTilesStore.cpp:48-85 | a known tile is counted, a new one appended, or put in the place of the first least-hit entry of a full list; dirty exactly on a change of membership |
| MissingTilesStore.MissingTilesStore.MarkRefused | src/MissingTilesStore.cpp:99-111 | the tile's refusals grow up to 255 and its stamp is set off zero; nothing else changes |
| MissingTilesStore.MissingTilesStore.IsRefused | src/MissingTilesStore.cpp:113-121 | a known tile with a stamp still ahead of the clock |
| MissingTilesStore.MissingTilesStore.Forget | src/MissingTilesStore.cpp:123-142 | the tile is removed, the order of the others kept, the list dirty; an unknown tile changes nothing |
| MissingTilesStore.MissingTilesStore.SortByFetchPriority | src/MissingTilesStore.cpp:144-161 | an ordered permutation of the list, flags unchanged |
| MissingTilesStore.MissingTilesStore.FlushIfDirty | src/MissingTilesStore.cpp:163-190 | writes a dirty list unless it is empty and unread, clears the flag only after a good write, and says whether the list is safe |
| MissingTilesStore.EvictsLeastHit | src/MissingTilesStore.cpp:71-81 | on a full list a new tile replaces one minimum-count entry and touches no other |
| MissingTilesStore.StepKeepsConsistent | src/MissingTilesStore.cpp:24-190 | every operation, failed write and reboot keeps the invariants of the next row |
| MissingTilesStore.LoadedAllExactly | src/MissingTilesStore.cpp:33-42 | a load takes over the tiles of the file exactly when every tile past the 200th repeats one of the first 200 |
| MissingTilesStore.RunKeepsConsistent | src/MissingTilesStore.cpp:24-190 | in every run from a boot on a file whose loaded part is duplicate-free: unique keys, at most 200 entries, and a clean synced list has the key set a load of the card would give |
| MissingTilesStore.RunsAgreeExactly | src/MissingTilesStore.cpp:24-190 | for every such file: in all runs a clean synced list has the key set of the card exactly when every tile of the file past the 200th repeats one of the first 200 |
| MissingTilesStore.UnsyncedIsEmpty | src/MissingTilesStore.cpp:163-190 | in every run, a clean list is empty while the file was neither absent at boot, nor read, nor written |
| MissingTilesStore.CleanAgreesExactly | src/MissingTilesStore.cpp:24-190 | in every world of every run, a clean list has the tiles of the card exactly when a load would cut none off, if it is synced, or the card lists nothing, if it is not |
| MissingTilesStore.GoodFlushListsExactly | src/MissingTilesStore.cpp:163-190 | in every world of every run, a flush whose write succeeds leaves list and card with the same tiles exactly when a dirty list is written or the card lists nothing, and for a clean one as in the row above |
| MissingTilesStore.ForgottenTileComesBack | src/MissingTilesStore.h:110-118 | for every tile, a run that records, saves and forgets it, whose second flush is refused, and where it is back after a reboot |
| MissingTilesStore.LoadKeepsDuplicates | src/MissingTilesStore.cpp:31-42 | loaded keys are unique exactly when the first 200 stored ones are |
| MissingTilesStore.UnreadFileIsNotEmptied | src/MissingTilesStore.cpp:165-182 | while the file has not been read, no run turns it into an empty list |
| MissingTilesStore.CardChangesOnlyByFlush | src/MissingTilesStore.cpp:163-190 | the card changes only in a flush of a dirty list that was read or is not empty |
| HomeKey.StateAlwaysFits | src/MappedInputManager.cpp:167-239 | after every run the three fields are told by the history: the waiting tap, the last gesture, whether the press was made a tap |
| HomeKey.SingleTapResolves | src/MappedInputManager.cpp:225-238 | on an unbounded clock, a single tap resolves at a frame exactly when one waits, nothing arrives and its window is over; it selects exactly on an unlocked panel |
| HomeKey.DoubleTapResolves | src/MappedInputManager.cpp:202-215 | on an unbounded clock, a double tap is an accepted tap while another waits, and nothing else |
| HomeKey.ConsumedMeansTap | src/MappedInputManager.cpp:174-203 | the flag means that the current press was already made a tap |
| HomeKey.HoldResolves | src/MappedInputManager.cpp:184-200 | on a double-tap board a hold is believed exactly when its press was not made a tap |
| HomeKey.TapOutcomesAreSpaced | src/MappedInputManager.cpp:204-209 | on an unbounded clock, a tap outcome comes at least the refractory time after any earlier gesture |
| HomeKey.TapsAreSpentOnce | src/MappedInputManager.cpp:167-239 | on an unbounded clock, accepted taps are those spent by outcomes, those cancelled by a hold or a board flip, and the waiting one |
| HintTouch.DownMeansHeld | src/MappedInputManager.cpp:298-343 | within a frame a box is down exactly when a press of it began and has been held on it since |
| HintTouch.ReleaseClosesPress | src/MappedInputManager.cpp:313-323 | a release is reported exactly for a tap on the box whose press is still on |
| HintTouch.OneReleasePerPress | src/MappedInputManager.cpp:313-323 | a press that was released holds no more |
| HintTouch.DownWhileOnBox | src/MappedInputManager.cpp:324-342 | after a frame a box is down exactly while the finger has stayed on it |
| MappedInputManager.Manager.PumpHomeKey | src/MappedInputManager.cpp:167-239 | the 32-bit fields and the three flags after one frame |
| MappedInputManager.Manager.PumpHintTouch | src/MappedInputManager.cpp:283-344 | the three buttons after one frame |
| MappedInputManager.Manager.EnsureHintTouchPumped | src/MappedInputManager.cpp:159-165 | both pumps run once per frame number, further queries change nothing |
| MappedInputManager.StampsAlwaysFit | src/MappedInputManager.cpp:167-239 | in every run of the 32-bit code the stored stamps are those of the last gesture and of the waiting tap |
| MappedInputManager.CodeReports | src/MappedInputManager.cpp:167-239 | for every run of the 32-bit code, on any clock, each outcome characterised by the frames before it |
| MappedInputManager.TapsAreAccountedFor | src/MappedInputManager.cpp:167-239 | in every run of the 32-bit code, on any clock, the taps it takes are those spent by outcomes, those cancelled, those lost, and the waiting one |
| MappedInputManager.LostExactly | src/MappedInputManager.cpp:202-209 | a frame loses a tap exactly when one waits and the frame's tap lies past a half turn of the clock after the last gesture's end, stored as no 0 |
| MappedInputManager.NoTapLostExactly | src/MappedInputManager.cpp:202-209 | in every run no tap is lost exactly when no waiting tap and the tap after it straddle such a half turn |
| MappedInputManager.EarlyTapsAreKept | src/MappedInputManager.cpp:202-209 | no tap is lost when every tap comes within half a turn of the last gesture's end |
| MappedInputManager.LateTapIsLost | src/MappedInputManager.cpp:202-209 | a run with gaps below 2^31 ms and no stamp 0 that loses a tap and reports no double tap |
| MappedInputManager.StepRefines | src/MappedInputManager.cpp:167-239 | a step of the wrapping code is a step of the ideal recogniser exactly when the frame is no late tap and stores no stamp as 0 |
| MappedInputManager.RunRefines | src/MappedInputManager.cpp:167-239 | over every run with gaps below 2^31 ms, the code does frame by frame what the ideal recogniser does exactly when no tap is late and no stamp is stored as 0 |
| MappedInputManager.GapsAreEnough | src/MappedInputManager.cpp:229 | with clock gaps below 2^31 ms a frame comes within one turn of the clock after a waiting tap |
| MappedInputManager.CodeReportsGestures | src/MappedInputManager.cpp:167-239 | over every run with gaps below 2^31 ms, up to the first late tap or stamp stored as 0, each reported flag told by the taps and times of the true clock |
| MappedInputManager.CodeOutcomesAreSpaced | src/MappedInputManager.cpp:204-237 | in every run of the 32-bit code, on any gaps, a tap outcome comes at least the refractory time after every gesture before it, when the last of them was not stored as 0 |
| MappedInputManager.OneOutcomePerFrame | src/MappedInputManager.cpp:167-239 | from any state at most one flag is reported, and a locked panel never confirms |
| MappedInputManager.IgnoredExactly | src/MappedInputManager.cpp:204-209 | when a tap e ms after a gesture is ignored, for every e, and never if the stamp is 0 |
| MappedInputManager.SpacingLostExactly | src/MappedInputManager.cpp:206 | two taps inside the refractory time double-tap again exactly when the stamp is 0 |
| MappedInputManager.EarlyConfirmExactly | src/MappedInputManager.cpp:217-230 | a tap confirms before its window is over exactly at clock 0 with the next frame in the same millisecond |
| DebugInput.Injector.constructor | src/DebugInput.cpp:16-33 | nothing queued, nothing held, no frame seen |
| DebugInput.Injector.Reset | src/DebugInput.cpp:128-139 | back to the initial state |
| DebugInput.Injector.Queue | src/DebugInput.cpp:48-54 | a known button goes to the end of a queue that has room; otherwise refused and unchanged |
| DebugInput.Injector.Pump | src/DebugInput.cpp:56-94 | a repeated frame number changes nothing; otherwise one step of the press cycle |
| DebugInput.Injector.StartNext | src/DebugInput.cpp:83-93 | takes the oldest press off the ring and presses its button |
| DebugInput.Injector.Button | src/DebugInput.cpp:96-99 | answers only for the held button |
| DebugInput.Injector.Active | src/DebugInput.cpp:113-116 | down or releasing, so the release frame still tells the held time |
| DebugInput.RunConsistent | src/DebugInput.cpp:48-94 | after every run of queue calls and frames the state is told by the log of the run |
| DebugInput.AcceptedInOrder | src/DebugInput.cpp:48-94 | in every run the started presses followed by the queue are the accepted presses in order |
| DebugInput.EdgesAlternate | src/DebugInput.cpp:56-94 | press and release edges alternate on one button, each release in the first later frame with enough held time, an edge-free frame after it |
| DebugInput.QueriesTellFrames | src/DebugInput.cpp:101-111 | in every run the pressed and released queries answer for the edge of the last frame, and the down query from a press edge up to its release |
| DebugInput.FrameIsProgress | src/DebugInput.cpp:56-94 | a frame at least 1 ms later uses up one of the frames the queue may take |
| DebugInput.PumpsProgress | src/DebugInput.cpp:56-94 | a run of frames uses up as many of them as it has frames |
| DebugInput.SlowPresses | src/DebugInput.cpp:56-94 | at one millisecond a frame the presses take exactly the sum of max(1, hold) + 2 frames |
| DebugInput.MissedRelease | src/DebugInput.cpp:72-78 | a hold that does not fit the frame gaps is carried past the clock's wrap by a legal gap, and the button stays down |
| DebugInput.PressesFinish | src/DebugInput.cpp:48-94 | for every queue and every bound on the frame gaps: on all legal clocks the presses are over within the sum of max(1, hold) + 2 frames exactly when each hold is 0 or, with the bound, at most 2^32 ms |
| DebugInput.LongHoldCanBeMissed | src/DebugInput.cpp:73 | from the reset state, for every hold and bound that pass 2^32 ms together, a legal run of hold + 2 frames that leaves the press unfinished |
| DebugInput.ConsolePressesFinish | src/main.cpp:3622-3631 | the console, its one caller, caps holds at 10000 ms, so its presses finish on every clock with gaps up to 2^32 - 10000 ms |
| EpdFont.GlyphOfInterval | lib/EpdFont/EpdFont.cpp:158-190 | the glyph of the one interval that holds the codepoint; otherwise the loaded one, then the replacement glyph, then none |
| EpdFont.KernClassIsListed | lib/EpdFont/EpdFont.cpp:84-102 | in a sorted table a listed codepoint gets its class and any other class 0 |
| EpdFont.LigatureOfPair | lib/EpdFont/EpdFont.cpp:118-138 | a ligature is found exactly when the table lists the pair, and no two pairs share a key |
| EpdFont.LigatedMerges | lib/EpdFont/EpdFont.cpp:140-156 | what the loop takes merges pair by pair into its result, and no further pair ligates |
| EpdFont.LigatedIsUnique | lib/EpdFont/EpdFont.cpp:140-156 | merging and stopping admit only that outcome |
| EpdFont.ApplyLigatures | lib/EpdFont/EpdFont.cpp:140-156 | the loop consumes exactly the merged codepoints and puts the next one back |
| EpdFont.MeasureNext | lib/EpdFont/EpdFont.cpp:25-72 | one turn of the loop: consumed codepoints, cursor state and box |
| EpdFont.GetTextBounds | lib/EpdFont/EpdFont.cpp:7-73 | the box is that of the laid-out items, from the start point |
| EpdFont.GrowIsTight | lib/EpdFont/EpdFont.cpp:60-63 | the box encloses the start and every placed glyph, and each side touches one of them |
| EpdFont.LayoutMoves | lib/EpdFont/EpdFont.cpp:7-73 | laying out from a moved start places the same glyphs moved |
| EpdFont.BoundsMove | lib/EpdFont/EpdFont.cpp:7-73 | the measured box moves with its start point |
| EpdFont.LayoutIsChain | lib/EpdFont/EpdFont.cpp:35-57 | every item stands one rounded step, of the previous advance and the kern, after the last base |
| EpdFont.RoundingStaysSmall | lib/EpdFont/EpdFont.cpp:52-70 | after n steps the cursor is within n/2 pixels of the exact fixed-point sum |
| EpdFont.SpacingIsPerPair | lib/EpdFont/EpdFont.cpp:50-53 | adjacent bases are a distance apart that depends only on the two |
| EpdFont.MarksAreRaised | lib/EpdFont/EpdFontData.h:53-66 | every codepoint the loop treats as a mark is centred and raised |
| StyleVariants.WalkSucceeds | scripts/mapstyle_variants.py:64-150 | resolving succeeds exactly for a tree whose `when` blocks are allowed, lists and well formed, at any place |
| StyleVariants.ResolveFailsWithBase | scripts/mapstyle_variants.py:145-174 | at every legal mode and rung `resolve` fails exactly when `base` fails |
| StyleVariants.PlainStyleIsFixed | scripts/mapstyle_variants.py:121-150 | a tree without `when` resolves to itself |
| StyleVariants.UnmatchedIsBase | scripts/mapstyle_variants.py:145-150 | a place that matches no entry gives `base` |
| StyleVariants.BannedIsInvariant | scripts/mapstyle_variants.py:132-140 | where `when` is banned the place makes no difference |
| StyleVariants.ResolvedField | scripts/mapstyle_variants.py:128-150 | a field is its own resolved value with the patches of the matching entries applied one by one |
| StyleVariants.LastScalarWins | scripts/mapstyle_variants.py:111-118 | the last patch that names a field decides it if it gives no object |
| StyleVariants.PatchedField | scripts/mapstyle_variants.py:128-150 | the field of the last matching entry that names it, or its own resolved value if none does |
| StyleVariants.DeviceIsBase | scripts/mapstyle_variants.py:132-140 | `device` is that of the base under the root's matching patches, and the base's own when none names it |
| StyleVariants.RootPatchReachesDevice | scripts/mapstyle_variants.py:121-150 | a style whose root entry changes one field of its `device` object at every place |
| StyleVariants.MergedPresent | scripts/mapstyle_variants.py:111-118 | something is at a path of a patched value exactly when the patch brings it, or it was there and the patch does not touch the path; merging objects drops their `modes` and `steps` |
| StyleVariants.FieldPresent | scripts/mapstyle_variants.py:143-150 | something is at a path of a patched field exactly when some patch, or the field itself, brought it and no later patch touches the path |
| StyleVariants.ResolvedPresent | scripts/mapstyle_variants.py:121-150 | for every style, place and path, something is there after resolving exactly when the tree or a matching entry brings it and it survives the matching entries after |
| StyleVariants.ResolvedIsPlain | scripts/mapstyle_variants.py:156-158 | a resolved style holds no `when` exactly when every `when` inside the patch value of a matching entry is dropped by a merge or covered by a later matching entry |
| StyleVariants.WhenComesFromEntry | scripts/mapstyle_variants.py:128-150 | a `when` in a resolved style was inside a patch value of an entry that matches the place |
| StyleVariants.ResolveIsIdempotent | scripts/mapstyle_variants.py:153-164 | where no matching entry has a `when` inside, the resolved style is plain and resolving it again at any place changes nothing |
| StyleVariants.NestedWhenSurvives | scripts/mapstyle_variants.py:118 | a `when` that a matching entry brings to a path of a field, in lists or objects, stays if no later matching entry touches the path |
| StyleVariants.ObjectPatchKeepsWhen | scripts/mapstyle_variants.py:111-118 | an object patch with a `when` of its own, last to name its field, leaves that `when` in the resolved style |
| StyleVariants.MergeInto | scripts/mapstyle_variants.py:111-118 | in whatever order the keys come, the result is the recursive merge |
| StyleVariants.ApplyEntries | scripts/mapstyle_variants.py:143-150 | fails exactly when some entry is malformed, matching or not; otherwise the matching ones merged in order |
| StyleVariants.WalkNode | scripts/mapstyle_variants.py:121-150 | the loops compute the recursive walk |
| ModeMasks.ComputeMasks | scripts/gen_mode_masks.py:81-103 | succeeds exactly when every mode lists known classes and at least one, and maps each mode to them |
| ModeMasks.ComputeModeMask | scripts/gen_mode_masks.py:92-102 | the classes of one mode |
| ModeMasks.ComputeDrawnMask | scripts/gen_mode_masks.py:106-127 | the classes no rule hides, none with the layer off, or a stopped build |
| ModeMasks.ClearHidden | scripts/gen_mode_masks.py:117-127 | the loop clears exactly the classes some rule hides, and stops exactly on a rule it cannot read |
| ModeMasks.ComputeReadMask | scripts/gen_mode_masks.py:145-153 | the classes both of the mode and drawn at the place, or a stopped build |
| ModeMasks.ComputeTable | scripts/gen_mode_masks.py:130-155 | every mode and rung has its mask; a stopped build has a place that fails |
| MapStyle.ApplyRule | scripts/gen_mapstyle.py:151-174 | sets exactly the classes it names, to 0 when it hides them and to at least 1 otherwise; fails exactly when a value cannot be used |
| MapStyle.ComputeRoadWidths | scripts/gen_mapstyle.py:121-212 | the widths the rules leave in order over the default, 0 in reserved slots, or a stopped build |
| MapStyle.LastNamingDecides | scripts/gen_mapstyle.py:147-174 | a class has the width of the last rule that names it, or the default |
| MapStyle.RuleHidesByZero | scripts/gen_mapstyle.py:156-174 | a rule that names a class gives it width 0 exactly when it hides it |
| MapStyle.BitMeansWidth | scripts/gen_mode_masks.py:106-127 | a drawn bit means a width, and the two differ exactly for a class hidden and later shown |
| MapStyle.MaskMeansDrawn | scripts/gen_mode_masks.py:106-127 | on every style both accept, a class in the drawn mask has a non-zero width |
| MapStyle.MaskIsDrawnExactly | scripts/gen_mode_masks.py:109-112 | the mask is the set of drawn classes exactly when the layer is off or no class is hidden by one rule and shown by the last that names it |
| MapStyle.MaskCanMissDrawn | scripts/gen_mode_masks.py:109-112 | for every class, a style both scripts accept whose mask leaves out the class though it is drawn |
| MapStyle.TextTellsWidths | scripts/gen_mapstyle.py:1167-1191 | styles with the same generated text have the same width lines and the same text after them |
| MapStyle.PlaceVariant | scripts/gen_mapstyle.py:1666-1674 | the place gets a slot holding its own style, a new one only for a new text |
| MapStyle.ComputeBundle | scripts/gen_mapstyle.py:1662-1666 | the resolved and compiled style of one place |
| MapStyle.BuildTable | scripts/gen_mapstyle.py:1657-1674 | every place is served by a slot with its own style, no two slots share a style, and there are at most as many as places |
| MapStyle.ReadMeansDrawn | scripts/gen_mapstyle.py:1657-1674 | across both generators, a class in the read mask of a place has a non-zero width in the slot its index selects |
| MapStyle.DeviceFieldIsLeft | scripts/mapstyle_variants.py:111-118 | what patches of `device` leave in one of its fields, told on that field alone |
| MapStyle.AnchorIsBase | scripts/gen_mapstyle.py:1676-1692 | for every style whose base has an anchor, the anchor of a place is the base's exactly when the root's matching patches leave `device` an object whose two fields round to the same pixels |
| MapStyle.UnpatchedAnchor | scripts/gen_mapstyle.py:1676-1692 | without a matching root entry on `device` the anchor is the base's |
| MapStyle.RootPatchMovesAnchor | scripts/gen_mapstyle.py:1676-1680 | a style whose base and places all have an anchor, and where a root entry moves it |
| CardRootMigration.Storage.Rename | src/CardRootMigration.cpp:24 | a rename moves the directory, fails, leaves an empty destination, or loses power before or after its effect |
| CardRootMigration.Storage.Rmdir | src/CardRootMigration.cpp:28 | removes only an empty directory |
| CardRootMigration.Storage.TryMove | src/CardRootMigration.cpp:23-38 | the card after the move, its rescue and its retry; success means the legacy root is gone |
| CardRootMigration.Storage.MigrateCardRootDir | src/CardRootMigration.cpp:41-95 | the card after one boot |
| CardRootMigration.BootOutcome | src/CardRootMigration.cpp:41-95 | a boot keeps all content, whatever its three exists calls answer; it migrates a waiting card exactly when the card is ready, the legacy root is seen, nothing foreign is under the new root, and the move goes through; where nothing waits it can only clear an empty new root, exactly when it sees a legacy root that is not there and the clearing goes through |
| CardRootMigration.ConflictIsLeftAlone | src/CardRootMigration.cpp:86-93 | with both roots and the new one not empty, no boot changes anything |
| CardRootMigration.RunStaysWhole | src/CardRootMigration.cpp:23-95 | over every run of boots, crashes, half-done renames, wrong answers of exists and foreign writes the legacy content is whole under one root and no foreign file is lost |
| CardRootMigration.OneGoodBootIsEnough | src/CardRootMigration.h:43-60 | without foreign writes, a run with one boot whose operations succeed ends migrated, or with neither root if there was nothing to move |
| CardRootMigration.StrandedForGood | src/CardRootMigration.cpp:72-85 | a foreign write before the move leaves the legacy content where it is in every later run |
| DebugTouchLog.BucketOf | src/DebugTouchLog.cpp:357-363 | the first bucket whose edge the gap does not pass |
| DebugTouchLog.BucketsAddUp | src/DebugTouchLog.cpp:356-364 | every gap is in one bucket, so the counts sum to the number of gaps |
| DebugTouchLog.RankedFacts | src/DebugTouchLog.cpp:366-378 | the ranking of a history is a descending permutation of its non-zero gaps |
| DebugTouchLog.TopTenStep | src/DebugTouchLog.cpp:369-378 | inserting among the ten and dropping the eleventh gives the ten longest of the longer history |
| DebugTouchLog.GapRecorder.constructor | src/DebugTouchLog.cpp:340-344 | an empty history |
| DebugTouchLog.GapRecorder.MakeRoom | src/DebugTouchLog.cpp:370-375 | exactly the slots with shorter gaps move down by one |
| DebugTouchLog.GapRecorder.InsertWorst | src/DebugTouchLog.cpp:370-378 | the slots become the ten with the gap inserted behind the ones at least as long |
| DebugTouchLog.GapRecorder.CountGap | src/DebugTouchLog.cpp:357-364 | exactly the gap's own bucket grows by one |
| DebugTouchLog.GapRecorder.NoteUpdate | src/DebugTouchLog.cpp:348-379 | the history grows by the wrapped gap, or not at all without a predecessor; slots, buckets and total stay those of the history |
| DebugTouchLog.GapRecorder.ReportGaps | src/DebugTouchLog.cpp:381-408 | back to the empty history |
| DebugTouchLog.EncodeRuns | src/DebugTouchLog.cpp:298-317 | the rows decode to the status and level of every sample, adjacent rows differ, repeats sum to the sample count, and each row starts at its first sample |
| DebugTouchLog.EncodingIsUnique | src/DebugTouchLog.cpp:298-317 | rows that differ from their neighbours are the maximal runs of what they decode to |
| CrossPointState.SleepRing.constructor | src/CrossPointState.h:14-19 | nothing remembered |
| CrossPointState.SleepRing.IsRecentSleep | src/CrossPointState.cpp:8-15 | true exactly for a value among the newest `checkCount` remembered |
| CrossPointState.SleepRing.PushRecentSleep | src/CrossPointState.cpp:17-21 | the value becomes the newest and the oldest drops out of a full ring |
| CrossPointState.SleepRing.ToJson | src/CrossPointState.cpp:23-35 | the saved document is one that loads back, at this capacity, to everything remembered in order, without the old single image |
| CrossPointState.SleepRing.FromJson | src/CrossPointState.cpp:37-63 | any document leaves a valid ring, remembering what its slots say, or its legacy image |
| CrossPointState.SaveLoadKeepsRecent | src/CrossPointState.cpp:23-63 | saving and loading with one capacity keeps everything remembered, in order |
| CrossPointState.WindowIsHistory | src/CrossPointState.cpp:17-21 | from an empty ring the remembered values are the last min(capacity, pushes) ones, newest first |
| CrossPointState.RecentIsAmongLast | src/CrossPointState.cpp:8-21 | for any capacity a value is recent exactly when it is among the last min(k, capacity, pushes) pushed |

## Left out

- SD card, JSON library, serial port, touch controller and panel: the card is an abstract value whose operations may fail, documents are values, events are inputs of a frame. Conversions the JSON library makes on ill-typed numbers are not modelled.
- lib/Utf8/Utf8.h is not part of this model beyond the range of combining marks: texts to measure are sequences of codepoints, and line-break classes enter only where kerning asks for them.
- Fonts: the handler that loads glyphs on demand is a pure function of the codepoint; font tables are taken to be sorted and in range, as their generator writes them.
- EpdFont.GetTextBounds: does not model 32-bit overflow of coordinates, because texts that wide do not occur on a panel.
- Masks are sets of class ids, not integers; a style is a tree whose objects are maps, so key order and the path texts of error messages are not kept.
- Class lists that are not lists of strings count as unreadable, where Python would iterate any iterable.
- MapStyle.ComputeRoadWidths: checks of casing, dash, mark, tick and tone are one parameter, because they decide only whether the build stops, never a width.
- MapStyle.TextTellsWidths: only the width lines of the generated text are modelled line by line, because the lines of the other layers are one opaque string.
- MapStyle.BuildTable: the layers other than roads are one parameter compared as a value, because their text emission adds nothing to the table's logic.
- `std::sort` is any ordered permutation; which one is proved to be determined exactly when no entries tie.
- MissingTilesStore.MissingTilesStore.LoadFromFile: why a read fails is an input, because the card is outside the model.
- HomeKey.SingleTapResolves: speaks of the recogniser on an unbounded clock, because MappedInputManager.CodeReports says what the 32-bit code does.
- HomeKey.TapOutcomesAreSpaced: speaks of the recogniser on an unbounded clock, because MappedInputManager.CodeOutcomesAreSpaced says what the 32-bit code does.
- HomeKey.DoubleTapResolves: speaks of the recogniser on an unbounded clock, because MappedInputManager.CodeReports says what the 32-bit code does.
- HomeKey.TapsAreSpentOnce: speaks of the recogniser on an unbounded clock, because the 32-bit code can also lose a tap, which MappedInputManager.TapsAreAccountedFor counts.
- Touch geometry, button maps and held-time bookkeeping of the input manager: which box an event hits is an input.
- The names of debug buttons and the raw held time they report.
- Source characters a compiler treats specially besides quote, backslash and newline, such as a lone carriage return, in translations.
- The tables of language codes, names and character sets, the header files and the YAML line format of gen_i18n.py.
- DayFile.DayFileName: does not model a prefix so long that adding 13 overflows size_t.
- Rasterising, font rendering, EPUB and BMP generators, settings, Wi-Fi, OPDS and log stores: plumbing, clamps and bounded lists that would only add easier members.

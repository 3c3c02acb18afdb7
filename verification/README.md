# telkom_bot: greeting, report caption and section keyboard

This project models the deterministic part of a Telegram bot. The bot screenshots a
Looker Studio dashboard, sends it to a chat, and offers buttons that each crop one
named section of the MSA/WSA dashboard. The model covers the following:

- **Greeting by hour** (`get_greeting`). Hours 5–11 get "Selamat pagi", 12–14
  "Selamat siang", 15–17 "Selamat sore" and every other hour "Selamat malam".
- **Report caption** (`get_formatted_greeting_with_time`). The caption is the greeting,
  ", berikut laporan %s terbaru pada ", the day, the Indonesian month name, the year,
  a zero-padded `HH:MM` and "WIB". Its one `%s` slot is filled later with the report
  name (`caption % "MSA/WSA"`).
- **Section catalog**. These are the `SECTION_COORDINATES` crop boxes and the
  `SECTION_LABELS` display names.
- **Section keyboard** (`send_section_buttons`). It removes `fulldashboard` and lays the
  remaining keys out two per row.
- **Section callback** (`section_callback`). It rejects an unknown key. For a known
  key it crops the capture with exactly the catalog box.

`get_greeting` and `get_formatted_greeting_with_time` are written identically in
try.py and utils.py, so one definition models both. The clock is a parameter: a
`Moment` holds the year, month, day, hour and minute that `datetime.now` returns in
Asia/Jakarta.

Modules:

- `Wrappers` (wrappers.dfy) holds `Option`, used for Python's exceptions.
- `Numerals` (numerals.dfy) renders decimals: `str(n)` and the two-digit `%H`/`%M` fields.
- `Greetings` (greetings.dfy) holds the greeting, the caption and Python's `%` formatting with one string argument.
- `Sections` (sections.dfy) holds the catalog and the crop size.
- `Keyboard` (keyboard.dfy) holds `list.remove` and the row layout, a method with a loop.
- `Callback` (callback.dfy) holds the steps of `section_callback`.

The model follows the code as written:

- The code does not clamp a crop box to the image size. It has no empty-region error and no unknown-section error type.
- An unknown key gets a chat message.
- The screenshot step never scrapes a "last updated" value.

## Model

| member | source | states |
|---|---|---|
| `Greetings.Greeting` | try.py:51-59 | the greeting is always one of the four Indonesian greetings |
| `Greetings.GreetingBands` | try.py:53-59 | for every hour: "Selamat pagi" exactly for 5..11, "Selamat siang" exactly for 12..14, "Selamat sore" exactly for 15..17, "Selamat malam" exactly otherwise (both directions) |
| `Greetings.GreetingPartition` | utils.py:9-16 | the hours of a day greeted with each greeting are exactly its band; together the four sets cover 0..23 and are pairwise disjoint, so every hour gets exactly one greeting and the final `return` covers all unguarded hours |
| `Greetings.GreetingChangesOnlyAtBoundaries` | utils.py:10-15 | between consecutive hours of a day the greeting changes exactly at 5, 12, 15 and 18 |
| `Greetings.MonthNamesDistinct` | utils.py:20-21 | the month table has 12 entries (so `bulan[month-1]` is in range for months 1..12) and no two months share a name |
| `Greetings.MonthName` | utils.py:20-22 | `bulan[month-1]` for a month 1..12; no other month has the same name, so the printed name identifies the month |
| `Greetings.Stamp` | utils.py:22 | the text after the `%s` slot (day, month name, year, `HH:MM`, " WIB") contains no `%` and ends with the zero-padded time and " WIB" |
| `Greetings.CaptionWith` | utils.py:22 | the caption around a greeting is laid out as: the greeting, ", berikut laporan ", `%s`, then the stamp |
| `Greetings.Caption` | utils.py:18-22 | the caption from one clock reading begins with the greeting of the hour it prints at its end |
| `Greetings.CaptionTwoReads` | try.py:61-65 | the caption as the code builds it begins with the greeting of the second clock read and ends with the time of the first |
| `Greetings.CaptionPlaceholder` | utils.py:22 | the caption starts with the greeting for its hour followed by ", berikut laporan ", then `%s`; that is the only `%` in the caption |
| `Greetings.PlaceholderWith` | utils.py:22 | around any greeting without `%`, the caption's only `%` is the start of the `%s` slot after ", berikut laporan " |
| `Greetings.TwoReadsPlaceholder` | try.py:62-65 | the two-read caption the code builds also has exactly one `%`, the start of the `%s` slot after its greeting and ", berikut laporan " |
| `Greetings.CaptionClock` | try.py:65 | the caption ends with zero-padded `HH:MM` and " WIB"; the printed digits read back as the hour and minute, and the greeting at the front is the greeting of the printed hour |
| `Greetings.TwoReadsDisagree` | try.py:61-65 | with the two clock reads of the code, 11:59 followed by 12:00 yields a caption that greets "Selamat siang" while printing 11:59, unlike the one-read caption |
| `Greetings.Interpolate` | handlers.py:101 | Python `%` formatting with one string argument: a format with no `%` is copied unchanged once the argument was used, and fails ("not all arguments converted") otherwise |
| `Greetings.Format` | handlers.py:106 | `fmt % arg` fails on a format that has no `%` at all |
| `Greetings.InterpolateLiteral` | handlers.py:101 | in `fmt % arg`, text without `%` is copied through unchanged ahead of the rest |
| `Greetings.FormatSingleSlot` | handlers.py:101 | `fmt % arg` on a format with exactly one `%s` and no other `%` succeeds and puts `arg` in the slot |
| `Greetings.FillWith` | utils.py:22 | for any greeting without `%`, filling the slot succeeds and yields the greeting, ", berikut laporan ", the report name and the stamp |
| `Greetings.CaptionFill` | try.py:164-172 | `caption % "MSA/WSA"` and `caption % "PI LATEN"` (try.py:167,172; handlers.py:101,106) on the one-read caption always succeed and put the report name after "berikut laporan " |
| `Greetings.TwoReadsFill` | handlers.py:98-106 | `caption % report` on the two-read caption the code actually builds (handlers.py:98, try.py:164) always succeeds and puts the report name after the second read's greeting and "berikut laporan " |
| `Numerals.Decimal` | utils.py:22 | `str(n)` is a non-empty string of decimal digits with no leading zero |
| `Numerals.DecimalRoundTrip` | utils.py:22 | reading back the digits of `str(n)` gives `n` |
| `Numerals.TwoDigits` | utils.py:22 | the `%H`/`%M` field is exactly two digits and reads back as the number |
| `Sections.CropSize` | try.py:146 | the crop of a well-formed box has positive width and height spanning exactly from x1 to x2 and y1 to y2, with no clamping |
| `Sections.DictOf` | try.py:26-36 | a dict display holds exactly the listed keys, each with one of its listed values, and the last entry's value for its key (a later entry overrides an earlier one) |
| `Sections.DictOfEntry` | try.py:26-48 | with distinct keys every entry of a dict display is found under its own key |
| `Sections.CatalogKeys` | try.py:97 | `list(SECTION_COORDINATES.keys())` has nine keys, `fulldashboard` first |
| `Sections.CatalogKeysDistinct` | try.py:26-36 | the catalog keys are distinct |
| `Sections.LabelsCoverCoordinates` | try.py:26-48 | `SECTION_LABELS` lists the same keys as `SECTION_COORDINATES` in the same order, so every label lookup on a coordinate key (try.py:101,106,141,154,187) is defined |
| `Sections.BoxesWellFormed` | try.py:26-36 | every catalog box has x1 < x2 and y1 < y2 |
| `Sections.CoordinateLookup` | try.py:26-36 | each coordinate entry is what `SECTION_COORDINATES` holds for its key |
| `Sections.LabelLookup` | try.py:38-48 | each label entry has the coordinate key at the same place and is what `SECTION_LABELS` holds for it |
| `Sections.MsaQualityCrop` | try.py:35 | `msaquality` crops to 469 by 276 pixels and is labelled "MSA QUALITY" |
| `Keyboard.RemoveFirst` | try.py:98 | `list.remove(x)` succeeds exactly when `x` is in the list (otherwise ValueError) |
| `Keyboard.RemoveFirstAt` | try.py:98 | when the first `x` is at index `i`, `remove` leaves exactly the elements before and after it, in order |
| `Keyboard.ButtonsFor` | try.py:101-102 | one button per key, in order, labelled `SECTION_LABELS[key]` with the key as callback data |
| `Keyboard.LayoutRows` | try.py:99-106 | the rows read in order give exactly one button per key; there are ⌈n/2⌉ rows; every row has two buttons except a last row of one when n is odd; every `keys[i+1]` access is in range |
| `Keyboard.RemoveFullDashboard` | try.py:97-98 | removing `fulldashboard` from the catalog keys succeeds and leaves the other keys in catalog order |
| `Keyboard.FullDashboardListedOnce` | try.py:98 | no key left after the removal is `fulldashboard` |
| `Keyboard.ShownKeysLabelled` | try.py:101-106 | every key left after the removal is a section with a label |
| `Keyboard.SectionButtons` | try.py:96-106 | the keyboard has 4 rows of 2 buttons, offering the 8 non-full-dashboard sections exactly once each in catalog order, each with its label |
| `Callback.SectionCallback` | try.py:133-161 | every callback begins by editing the message; it ends after that single step exactly when the key is not in `SECTION_COORDINATES` |
| `Callback.KnownSectionSteps` | try.py:141-161 | a known section announces "Mengambil bagian laporan: " + label, captures into `key_base.png`, and ends by showing the keyboard again when a file was produced or with "Gagal mengambil screenshot." otherwise |
| `Callback.Delivery` | try.py:145-158 | the crop is taken from `key_base.png` with the given box, the photo sent is the cropped file captioned "Laporan: " + label, and both files are removed afterwards |
| `Callback.UnknownKeyRejected` | try.py:137-139 | an unknown key yields only the message "Bagian laporan tidak dikenali."; nothing is captured or cropped |
| `Callback.KnownSectionImageWork` | try.py:141-161 | a known section is captured once and, if a file was produced, cropped once with its box; otherwise nothing is cropped |
| `Callback.KnownKeyCropsCatalogBox` | try.py:143-148 | for a catalog key the only crop is with exactly `SECTION_COORDINATES[key]`, unclamped |
| `Callback.KnownSectionPhoto` | try.py:150-155 | a delivered section sends the cropped file, and every photo it sends is captioned "Laporan: " + label |
| `Callback.KnownKeyCaption` | try.py:150-155 | for a catalog key the photo sent is the crop, and every photo is captioned "Laporan: " + `SECTION_LABELS[key]` |

## Left out

- `get_looker_studio_screenshot` (try.py:67-85, utils.py:24-42) is left out. It is browser automation: launch, navigation, fixed waits, a DOM query and a screenshot. `Callback.SectionCallback` takes whether it produced a file as the parameter `captured`.
- The PIL `Image.open`, `crop` and `save` calls are left out. Only the box arithmetic is modelled (`Sections.CropSize`).
- Telegram I/O is left out: `query.answer()`, message texts of the other handlers, keyboard objects and `set_my_commands`. The steps of `section_callback` are abstract `Step` values.
- `start`, `msawsa`, `pilaten`, `send_all_snapshots` and `main` are chat and scheduling glue. Only the caption substitution they perform is modelled (`Greetings.CaptionFill`).
- handlers.py, config.py and main.py are not part of this model, beyond the caption substitution at handlers.py:101,106.
- File existence checks, `os.remove` and `asyncio.sleep` are not modelled as effects. `os.remove` appears only as a `Remove` step.
- The wall clock is not read. The time is a `Moment` parameter.
- `Greetings.Interpolate` models Python's `%` formatting only for literal characters, `%%` and `%s`. Every other conversion (for example `%r` or `%5s`) yields `None`. The caption contains none of them.
- `Keyboard.LayoutRows` requires a label for every key. Python would raise KeyError otherwise. `Sections.LabelsCoverCoordinates` shows that the catalog meets this requirement.
- `Greetings.ValidMoment` bounds the day by 31. It does not bound the day by the length of the month, because the caption does not depend on that.

## Findings

| source | as written | input that shows it | evidently intended | confidence | as-written member | corrected member |
|---|---|---|---|---|---|---|
| try.py:61-65 (same in utils.py:18-22) | the printed time comes from `now`, but `get_greeting()` reads the clock a second time | `now` = 11:59:59.999 and the second read at 12:00:00 produce "Selamat siang, … 11:59 WIB" | the greeting agrees with the printed hour | low, not executed | `Greetings.TwoReadsDisagree` (on `Greetings.CaptionTwoReads`) | `Greetings.CaptionClock` (on `Greetings.Caption`) |

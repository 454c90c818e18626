# fluxsnap core, modelled in Dafny

fluxsnap is a small X11 helper. When its hotkey is pressed, or when a new
normal window is mapped, it tiles every managed window of the current
desktop. First it reads the work area of the
current desktop and the visible monitors (the Xinerama screens clipped to
that work area). Each client window goes into the bucket of the monitor
holding its centre. Then each bucket is laid out as up to three columns of
stacked rows, with a fixed gap around and between the windows. A small
`key = value` configuration file sets the hotkey modifier and the gap.

The model covers these pieces:

- `geometry.dfy` (module `Geometry`): rectangles, `rect_intersection` and
  `monitor_index_for_point`.
- `monitors.dfy` (module `Monitors`): `get_workarea` over the
  `_NET_WORKAREA` and `_NET_CURRENT_DESKTOP` property arrays, which are
  sequences of 32-bit cardinals. It also covers `get_visible_monitors`:
  - the screen list is a sequence;
  - an empty list means Xinerama is absent or inactive;
  - the monitors are written into a fixed buffer of `MaxMonitors` entries.
- `layout.dfy` (module `Layout`): `layout_bucket`. Its output is the
  sequence of placements that `apply_rect` would send, in order. The
  column geometry, the round-robin dealing into a two-dimensional array
  and the row stacking are methods with loops. Each is proved against
  specification functions.
- `tiling.dfy` (module `Tiling`): the bucketing loop of `tile_all_windows`,
  including the 1024-window cap per bucket, and the whole
  `tile_all_windows`.
- `config.dfy` (module `ConfigFile`): `trim` on a NUL-terminated character
  buffer, written in place; `parse_modifier`; and the per-line logic of
  `load_config_file`, which updates a `Config` record.
- `wrappers.dfy` (module `Wrappers`): an `Option` type.

Some properties are about a single operation: what the result is, the
invariant it keeps, or the part of the state it leaves alone. These are
stated as contracts. Properties that relate several operations are stated
as lemmas. Examples of the latter:

- every client is placed exactly once;
- dealing into columns is a permutation;
- cells in one bucket never overlap;
- trimming is idempotent;
- configuration lines keep the settings valid.

## Model

| member | source | states |
|---|---|---|
| Geometry.Intersection | src/fluxsnap.c:297-304 | The intersection is either the all-zero "invalid" rectangle or a valid rectangle at least 1×1 inside both inputs; it is valid exactly when its origin lies in both rectangles |
| Geometry.IntersectionPixels | src/fluxsnap.c:297-304 | A pixel lies in the intersection exactly when it lies in both rectangles |
| Geometry.IntersectionValidIff | src/fluxsnap.c:297-304 | When some pixel is in both rectangles, the intersection is valid and spans from the larger origin to the smaller far edge |
| Geometry.FirstContaining | src/fluxsnap.c:333-337 | The scan stops at the first rectangle, from a given index on, that contains the point, or at the end |
| Geometry.MonitorIndexForPoint | src/fluxsnap.c:332-339 | The result is the first monitor containing the point, or 0 when none contains it; it is in range whenever there is a monitor |
| Monitors.AsInt | src/fluxsnap.c:219-222 | The `(int)` cast of a cardinal is the 32-bit two's-complement value congruent to it |
| Monitors.SelectedDesktop | src/fluxsnap.c:203-216 | The desktop index is `_NET_CURRENT_DESKTOP[0]` when that is below the number of work areas, otherwise 0; its quadruple is always in range |
| Monitors.GetWorkarea | src/fluxsnap.c:196-229 | The work area is valid. It is the full display when there is no complete quadruple, otherwise the selected quadruple when that has positive size, and the full display in any other case; it has positive size whenever the display does |
| Monitors.OutOfRangeDesktopIsFirst | src/fluxsnap.c:216 | An out-of-range current desktop gives the same work area as desktop 0 or as an absent property |
| Monitors.Clipped | src/fluxsnap.c:316-321 | The kept monitors number at most the screens; each is valid, at least 1×1 and inside the work area |
| Monitors.ClippedKeepsOrder | src/fluxsnap.c:316-321 | Each kept monitor is the intersection of the work area with its source screen; source screens are increasing; every screen dropped has an invalid intersection |
| Monitors.NoOverlapClipsNothing | src/fluxsnap.c:316-328 | When no screen overlaps the work area, no monitor is kept |
| Monitors.ClippedPrefix | src/fluxsnap.c:318-321 | The monitors kept from a prefix of the screens are a prefix of those kept from all of them |
| Monitors.CappedPrefix | src/fluxsnap.c:318 | Stopping the scan once 16 monitors are kept gives the first 16 kept monitors |
| Monitors.VisibleMonitorsShape | src/fluxsnap.c:307-330 | There are 1 to 16 visible monitors, all inside the work area and valid when it is; with no overlap the list is exactly the work area; otherwise every monitor is at least 1×1 |
| Monitors.GetVisibleMonitors | src/fluxsnap.c:307-330 | The loop over the fixed buffer returns exactly the specified visible monitors |
| Layout.PartOffsetClosed | src/fluxsnap.c:430-433 | The parts before part k add up to k·(total/parts) plus min(k, total%parts) |
| Layout.PartsFill | src/fluxsnap.c:431-433 | The sizes of all parts add up to the total |
| Layout.PartSizes | src/fluxsnap.c:430-433 | A part gets the extra pixel exactly when its index is below the remainder; two parts differ by at most one; every part is at least 1 when the total is at least the number of parts |
| Layout.Usable | src/fluxsnap.c:426-428 | The usable extent equals the extent minus the gaps whenever that leaves at least one pixel per part, and is exactly the number of parts otherwise |
| Layout.SegmentStartClosed | src/fluxsnap.c:435-438 | Column x and row y are origin + gap + the earlier sizes + one gap per earlier item |
| Layout.SegmentsTile | src/fluxsnap.c:435-438 | The first item starts one gap in; each next item starts one gap after the previous one ends; the last ends one gap before the far edge when the usable extent was not clamped |
| Layout.SegmentsOrdered | src/fluxsnap.c:435-438 | An earlier column or row ends at least one gap before a later one starts |
| Layout.SegmentInside | src/fluxsnap.c:426-438 | With enough room, every column or row lies within the area less its outer gaps |
| Layout.ColumnOfIsRoundRobin | src/fluxsnap.c:444 | The column chosen for window i is i mod 3, and it exists |
| Layout.DealtAt | src/fluxsnap.c:443-446 | Column c receives ⌈(n−c)/3⌉ windows, and its j-th window is window 3j+c |
| Layout.DealtNonEmpty | src/fluxsnap.c:448-449 | A column is used exactly when it receives at least one window |
| Layout.DealtPermutation | src/fluxsnap.c:443-446 | The three columns together hold exactly the bucket's windows, as a multiset |
| Layout.EmittedAt | src/fluxsnap.c:448-464 | The j-th placement of an earlier column sits at that column's start offset plus j in the emitted sequence |
| Layout.LayoutPlacesEachWindowOnce | src/fluxsnap.c:443-464 | The windows placed are the columns in order; there is one placement per window; as a multiset they are the bucket's windows |
| Layout.LayoutWindowsAreColumns | src/fluxsnap.c:448-464 | The windows are emitted column by column, each column top to bottom |
| Layout.LayoutPlacementOf | src/fluxsnap.c:443-461 | Window i is placed in column i mod 3, row i div 3, at that cell |
| Layout.PlacementAt | src/fluxsnap.c:443-461 | The placement of window 3j+c is row j of column c |
| Layout.CellsDisjoint | src/fluxsnap.c:426-462 | With a non-negative gap, two different cells of a bucket share no pixel |
| Layout.CellInsideArea | src/fluxsnap.c:426-462 | With enough room, every cell is at least 1×1 and inside the bucket's area |
| Layout.ColumnGeometry | src/fluxsnap.c:426-438 | The column width and x arrays hold each used column's size and start |
| Layout.DealColumns | src/fluxsnap.c:440-446 | The 3×n array and the counts hold each column's windows in dealing order |
| Layout.DealtColumns | src/fluxsnap.c:443-446 | An array filled with window 3j+d at row d, slot j holds exactly the dealt columns |
| Layout.StackColumn | src/fluxsnap.c:448-463 | Stacking one column appends exactly that column's placements |
| Layout.LayoutBucket | src/fluxsnap.c:416-465 | The placements emitted are the specified bucket layout; an empty bucket emits nothing |
| Tiling.MonitorOf | src/fluxsnap.c:484-496 | A client whose attributes cannot be read goes to monitor 0; otherwise it goes to the first monitor containing its centre, or 0 |
| Tiling.AssignedMembers | src/fluxsnap.c:479-500 | A window is among those assigned to a monitor exactly when some client is tagged with that window and monitor |
| Tiling.BucketCap | src/fluxsnap.c:498-500 | A bucket holds at most 1024 windows and is a prefix of the windows assigned to it; it is all of them when there are at most 1024, otherwise exactly 1024 |
| Tiling.BucketSnoc | src/fluxsnap.c:498-500 | One more client extends its monitor's bucket only while that bucket is below the cap |
| Tiling.BucketsStep | src/fluxsnap.c:498-500 | One loop step appends the client to its own bucket, if below the cap, and changes no other bucket |
| Tiling.BucketWindows | src/fluxsnap.c:476-501 | The bucketing loop yields one bucket per monitor, each the capped list of the windows assigned to it |
| Tiling.BucketsPartition | src/fluxsnap.c:479-501 | Gathering the assigned windows of all monitors gives every client window once, as a multiset |
| Tiling.AllLayoutsWindows | src/fluxsnap.c:503-505 | Laying out the buckets of the first k monitors places exactly the windows assigned to them |
| Tiling.BucketsPlaceEachClientOnce | src/fluxsnap.c:476-505 | With at most 1024 clients, the layouts of all buckets place each client window exactly once |
| Tiling.TiledPlacesEachClientOnce | src/fluxsnap.c:467-505 | `tile_all_windows` places every managed client exactly once, and nothing else |
| Tiling.LayoutMonitors | src/fluxsnap.c:503-505 | The layout loop emits the buckets' layouts monitor by monitor |
| Tiling.TileAllWindows | src/fluxsnap.c:467-508 | The placements are the specified tiling; they place every client window exactly once |
| ConfigFile.StrEnd | src/fluxsnap.c:74 | `strlen`: the first NUL from the index on, with no NUL before it |
| ConfigFile.Find | src/fluxsnap.c:116-117 | `strchr`: absent exactly when the character does not occur; otherwise the offset of its first occurrence |
| ConfigFile.IsSpace | src/fluxsnap.c:72-75 | C-locale `isspace`: exactly the space and the control characters 9 to 13 (tab, newline, vertical tab, form feed, carriage return); no character outside ASCII, and never NUL |
| ConfigFile.SkipSpaces | src/fluxsnap.c:72 | The leading scan stops at the first character that is not white space, or at the end |
| ConfigFile.BackSkip | src/fluxsnap.c:75 | The trailing scan stops after the last character that is not white space, or at its lower bound |
| ConfigFile.TrimSeq | src/fluxsnap.c:71-77 | The trimmed string is no longer than the input; when non-empty, it begins and ends with a character that is not white space |
| ConfigFile.TrimEmptyIff | src/fluxsnap.c:72-73 | Trimming gives the empty string exactly when the input is all white space |
| ConfigFile.TrimRemovesOnlySpace | src/fluxsnap.c:71-77 | Only white space is removed, on either side of the kept sub-range |
| ConfigFile.TrimIdempotent | src/fluxsnap.c:71-77 | Trimming a trimmed string changes nothing |
| ConfigFile.Trim | src/fluxsnap.c:71-77 | Returns where the trimmed string starts: the string's start plus its leading white space. The C string there is the trimmed original. The leading white space stays in the buffer as it was, every position from the new terminator up to the old one holds NUL, and nothing outside the original string changes |
| ConfigFile.SkipLeading | src/fluxsnap.c:72-73 | The leading scan stops at the first character of the C string that is not white space, where the trimmed string starts; that character is the terminator exactly when the string is all white space, and then the trimmed string is empty |
| ConfigFile.TrimTrailing | src/fluxsnap.c:74-76 | NULs written from the last character down over white space, never over the first kept character, leave the trimmed string as the C string at the start; the leading white space and everything outside the string stay as they were |
| ConfigFile.Lower | src/fluxsnap.c:80-95 | C-locale `tolower`: `A`..`Z` become the letter at the same place in `a`..`z`, every other character is unchanged, and no result is an upper-case letter |
| ConfigFile.EqualsIgnoreCase | src/fluxsnap.c:80-95 | `strcasecmp(a, b) == 0`: the strings are equal exactly when they are equal once every character is folded by the C-locale `tolower`, so only `A`..`Z` fold |
| ConfigFile.ParseModifier | src/fluxsnap.c:79-97 | A result of Mod4, Mod1, Control or Shift is given only for that mask's names, compared case-insensitively. The result is a known mask. Nothing is returned exactly when the value names no modifier |
| ConfigFile.ParseModifierIgnoresCase | src/fluxsnap.c:80-95 | Values that differ only in letter case parse alike |
| ConfigFile.LeadingInt | src/fluxsnap.c:132 | `strtol`: negative only after a leading minus sign; a string of digits gives its decimal value |
| ConfigFile.LeadingIntSplit | src/fluxsnap.c:132 | For leading white space, a sign (none, `+` or `-`), a digit run and a rest that does not continue the digits, `strtol` gives the decimal value of the digits, negated after `-`; the rest is ignored, and with no digits the value is 0 |
| ConfigFile.LeadingIntNegative | src/fluxsnap.c:132 | `-5` reads as -5 |
| ConfigFile.LeadingIntStopsAtUnit | src/fluxsnap.c:132 | `20px` reads as 20 |
| ConfigFile.LeadingIntNoDigits | src/fluxsnap.c:132 | `abc` reads as 0 |
| ConfigFile.LeadingIntPlus | src/fluxsnap.c:132 | ` +7` reads as 7 |
| ConfigFile.SkippedLinesChangeNothing | src/fluxsnap.c:113-117 | Blank lines, comment lines and lines without `=` leave the settings unchanged |
| ConfigFile.ApplyLineSplits | src/fluxsnap.c:116-121 | A line with a key is applied as the pair split at the first `=` |
| ConfigFile.ApplyPairChanges | src/fluxsnap.c:123-134 | A `gap` key whose value reads as 0..300 sets the gap to that value, and a `modifier` key naming a known modifier sets that mask, each leaving the other setting alone. Conversely the gap changes only that way, the modifier only that way, and never both at once |
| ConfigFile.GapOutOfRangeIgnored | src/fluxsnap.c:131-133 | A `gap` value outside 0..300 changes nothing |
| ConfigFile.UnknownModifierIgnored | src/fluxsnap.c:123-134 | A `modifier` value that names no modifier changes nothing |
| ConfigFile.ApplyLineValid | src/fluxsnap.c:112-134 | One line keeps the settings valid: a known modifier mask and a gap in 0..300 |
| ConfigFile.ApplyLinesValid | src/fluxsnap.c:112-135 | Any sequence of lines keeps valid settings valid |
| ConfigFile.DefaultsValid | src/fluxsnap.c:99-104 | The default settings (Mod4, gap 10) are valid |
| ConfigFile.CStrHead | src/fluxsnap.c:114 | The C string at p is empty exactly when the character at p is NUL; otherwise that character is its first |
| ConfigFile.SplitAt | src/fluxsnap.c:116-121 | Writing NUL over the `=` and trimming both sides yields the trimmed key and the trimmed value |
| ConfigFile.Config.constructor | src/fluxsnap.c:99-104 | The settings start as Mod4 and gap 10 |
| ConfigFile.Config.ApplyPairInPlace | src/fluxsnap.c:123-134 | The key dispatch updates the record to the specified effect of the pair |
| ConfigFile.Config.ProcessTrimmed | src/fluxsnap.c:114-134 | Once the line is trimmed, a blank line, a comment or a line without `=` leaves the record as it is; any other line updates it to the effect of its trimmed key and value |
| ConfigFile.Config.ProcessPair | src/fluxsnap.c:116-134 | Splitting at the `=` and dispatching updates the record to the effect of the trimmed pair |
| ConfigFile.Config.ProcessLine | src/fluxsnap.c:113-134 | One pass of the line loop updates the record to the specified effect of the line, read up to its first NUL |
| ConfigFile.Config.LoadLines | src/fluxsnap.c:112-135 | The line loop updates the record to the effect of all lines, in order |

## Left out

- X11 I/O is not modelled. This covers reading window properties and
  attributes, translating coordinates, sending the moveresize message and
  `XMoveResizeWindow` in `apply_rect`, and `XSync`. Their results (the
  property arrays, screens, centres and client list) are inputs. Their
  effect is the placement sequence.
- `load_client_list` is not modelled: filtering by window type and the
  hints `is_normal_window` reads needs the X server. The cap of 1024
  managed windows it enforces becomes the precondition `|clients| <= 1024`
  of `TileAllWindows`.
- These parts of the program are not part of this model:
  - `grab_hotkey`, the error handler and the event loop in `main`;
  - `clear_maximized_state` and `frame_window_for_client`;
  - `load_config`'s choice of configuration path.
- Opening and reading the configuration file is not modelled. The lines
  are given as strings, each passed whole. `fgets` would split a line
  longer than 511 characters into several chunks; that is not modelled.
- The `hotkey` key is not modelled: `XStringToKeysym` needs the X library.
  The trigger key and its name are not part of the settings, and a
  `hotkey` line leaves the modelled settings unchanged.
- LeadingInt: does not clamp on overflow as `strtol` does. Every value
  that would overflow lies outside 0..300 either way, so the effect on the
  settings is the same.
- C `int` overflow in the layout arithmetic is not modelled: coordinates
  and sizes are unbounded integers. The `(int)` casts of property values
  are modelled as 32-bit wrap-around.
- Geometry.Intersection: computes far edges without 32-bit overflow.
- Buckets are sequences in the model, not the fixed
  `MonitorBucket[16]` / `Window[1024]` buffers of the source. The cap
  check and the order of insertion are modelled exactly. The monitor list
  keeps its fixed buffer of 16 entries. The column array `cols` of
  `layout_bucket` is a 3×n array, not 3×1024, because a column never
  holds more than the bucket's n windows.

# Colour picker: favourites list and hex colour model

A Dafny model of the logic inside `ColorPickerApp` (`color-picker.py`), a
desktop tool that samples the screen pixel under the cursor, shows it as a
`#RRGGBB` code, and keeps a list of labelled favourite colours.

- `HexColor` (`hex_color.dfy`): the `#rrggbb` string built from a sampled
  pixel, its upper-case display form, `lstrip('#')`, and the three base-16
  channel reads of `is_dark_color`. It proves that parsing recovers the
  pixel from both forms, and that parsing ignores letter case.
- `Luminance` (`luminance.dfy`): `is_dark_color` as the exact-real comparison
  `0.299 R/255 + 0.587 G/255 + 0.114 B/255 < 0.5`. It proves that this is the
  integer inequality `299 R + 587 G + 114 B < 127500`, that black is dark and
  white is light, and that raising a channel never makes a light colour dark.
- `Favorites` (`favorites.dfy`): the favourites list as a sequence of
  `(label, hex)` records, duplicates allowed. It defines the first-match
  search and what deleting or relabelling the first match does to the list,
  and proves how those operations act on duplicates.
- `PickerApp` (`picker_app.dfy`): the class `ColorPickerApp`. Its fields are
  the favourites list, the hex entry's text, the rows of the favourites table
  and the content of the favourites file. Its methods mirror the source's
  loops: picking a colour, adding, deleting, relabelling, saving and
  refreshing the table. Each method states the whole new state in terms of
  the old one and the functions above.
- `Wrappers` (`wrappers.dfy`): `Option`, for cancelled dialogs and empty
  selections.

Inputs from the outside world are parameters. The sampled pixel is an `Rgb`
of three bytes. A dialog answer is an `Option<string>`, with `None` for
Cancel. The confirmation prompt is a `bool`. The selected table row is an
`Option<Favorite>`. Whether writing `favorites.json` succeeded is a `bool`.
The list that `load_favorites` read is the constructor's argument.

The refresh loop stops at the first favourite whose hex `is_dark_color`
cannot parse, as the source's `ValueError` does. The rows added before it
stay in the table. The add, delete and relabel commands that call the
refresh have by then already changed and saved the list, and the model keeps
that state. The window's constructor is the exception: there the error ends
the program (see "## Left out").

## Model

| member | source | states |
|---|---|---|
| HexColor.DigitValue | color-picker.py:172-174 | a base-16 digit of either case has a value below 16 |
| HexColor.LowerDigit | color-picker.py:193 | the `x` format digit for a value below 16 is a lower-case hex digit that reads back as that value |
| HexColor.FormatByte | color-picker.py:193 | `{:02x}` of a byte is exactly two lower-case hex digits whose base-16 value is the byte |
| HexColor.FormatColor | color-picker.py:193 | the formatted colour is `#` and six lower-case hex digits, two per channel in r, g, b order, each pair reading back as its channel |
| HexColor.ToUpper | color-picker.py:197 | upper-casing keeps the length and upper-cases each character in place |
| HexColor.StripHashes | color-picker.py:169 | `lstrip('#')` is no longer than its input and does not start with `#` |
| HexColor.StripHashesSuffix | color-picker.py:169 | `lstrip('#')` keeps a suffix of the input, and everything it drops is `#` |
| HexColor.UpperDigit | color-picker.py:172-174 | upper-casing a hex digit gives an upper-case hex digit of the same value |
| HexColor.StripHashesToUpper | color-picker.py:169 | stripping `#` and upper-casing commute |
| HexColor.ParseIgnoresCase | color-picker.py:169-174 | a parsable colour string stays parsable when upper-cased and reads back the same channels |
| HexColor.FormatColorRoundTrip | color-picker.py:169-174 | the string built at line 193 is parsable and reads back as the sampled pixel |
| HexColor.DisplayHexRoundTrip | color-picker.py:193-197 | the displayed colour is `#` and six upper-case hex digits, and reads back as the sampled pixel |
| HexColor.FormatColorInjective | color-picker.py:193 | two different pixels never format to the same string |
| Luminance.TextColor | color-picker.py:281 | the row text is "white" exactly when the colour is dark and "black" exactly when it is not |
| Luminance.DarkIffWeightedBelow | color-picker.py:172-181 | the colour is dark exactly when 299 R + 587 G + 114 B < 127500 |
| Luminance.SampledDarkIff | color-picker.py:172-181 | a sampled pixel is dark exactly when its weighted sum is below 127500, in formatted and displayed form alike |
| Luminance.BlackIsDark | color-picker.py:166-181 | `#000000` is parsable and dark |
| Luminance.WhiteIsLight | color-picker.py:166-181 | `#FFFFFF` is parsable and not dark |
| Luminance.BrighterNeverDarker | color-picker.py:178-181 | if every channel of one colour is at least that of another, and the first is dark, so is the second |
| Favorites.FirstMatch | color-picker.py:322-323 | the search returns the least index holding a record with the selected label and hex, or the length if there is none |
| Favorites.FirstMatchFound | color-picker.py:322-323 | the search finds a record exactly when the selected record is in the list |
| Favorites.FirstMatchAfter | color-picker.py:322-323 | when no copy of the selected record precedes position p and one sits at p, the search returns p |
| Favorites.RemoveFirstSplit | color-picker.py:322-325 | deleting from `pre + [sel] + post` with no `sel` in `pre` gives `pre + post`: the first copy goes, later duplicates stay, order is kept |
| Favorites.RemoveFirstAbsent | color-picker.py:322-325 | deleting a record that is not in the list leaves it unchanged |
| Favorites.RemoveFirstLength | color-picker.py:322-325 | the length drops by one exactly when a matching record exists, and is unchanged otherwise |
| Favorites.RemoveFirstMultiset | color-picker.py:322-325 | deleting removes exactly one copy of the selected record, if there is one, and keeps every other record |
| Favorites.RelabelFirstSplit | color-picker.py:357-360 | relabelling `pre + [sel] + post` with no `sel` in `pre` changes only the label of that one record |
| Favorites.RelabelFirstKeeps | color-picker.py:357-360 | relabelling keeps the length and every hex, changes no record other than the first match, and changes nothing when no record matches |
| Favorites.AddThenDelete | color-picker.py:322-325 | appending a record and then deleting it gives back the old list when there was no earlier duplicate; otherwise the earlier copy is the one deleted and the new record stays at the end |
| Favorites.AddThenDeleteMultiset | color-picker.py:322-325 | appending a record and then deleting it leaves the same records as before, duplicates or not |
| PickerApp.RowShowsFavorite | color-picker.py:270-282 | a row shows the favourite's label and hex, has the hex as background and the tag `hex_True` or `hex_False`, and white text exactly when the hex is dark, black otherwise, that is exactly when 299 R + 587 G + 114 B < 127500 for the parsed channels |
| PickerApp.FirstMalformed | color-picker.py:270-272 | every favourite before the returned index has a parsable hex, and the one at it, if any, does not |
| PickerApp.ColorPickerApp.constructor | color-picker.py:11-164 | the window starts with the loaded list (empty if none), the entry `#FFFFFF`, the file as loaded, and the table showing the list |
| PickerApp.ColorPickerApp.PickColor | color-picker.py:183-201 | the entry shows the upper-cased `#rrggbb` of the sampled pixel, which is seven characters long and reads back as that pixel |
| PickerApp.ColorPickerApp.SaveFavorites | color-picker.py:252-262 | a successful write leaves the file holding the whole current list; a failed one leaves no list known to be in the file |
| PickerApp.ColorPickerApp.RefreshFavoritesList | color-picker.py:264-282 | the table shows the favourites in list order, each with its label, hex and text colour, up to the first hex that cannot be parsed; the result says whether every hex could be parsed |
| PickerApp.ColorPickerApp.AddToFavorites | color-picker.py:209-237 | a cancelled label changes nothing; otherwise exactly one record with that label and the entry's hex is appended, earlier records unchanged, and the list is saved and shown |
| PickerApp.ColorPickerApp.DeleteFavorite | color-picker.py:305-330 | with no selection or no confirmation nothing changes; otherwise the first record equal to the selected label and hex is removed, and the list is saved and shown |
| PickerApp.ColorPickerApp.EditFavoriteLabel | color-picker.py:332-365 | with no selection or a cancelled label nothing changes; otherwise only the label of the first record equal to the selected label and hex changes, and the list is saved and shown |

## Left out

- Window, frame, style, Treeview and context-menu construction (`show_context_menu`) are presentation only. The table is modelled as its sequence of rows.
- The lookup of the selected Treeview row is not modelled. The selected row is an input pair of strings. Tkinter's `Treeview.item(..., 'values')` returns integer-looking labels as Python `int`s. Such a label then never equals the stored string, so deleting or relabelling it does nothing. The model does not capture this, because it is library behaviour outside this file.
- `load_selected_color`, `copy_to_clipboard` and `copy_selected_hex` are not modelled. They only copy a row's hex into the entry or onto the clipboard through `pyperclip`, a foreign call.
- The cursor position, the screenshot, `iconify`, `deiconify` and the `after` delays are screen I/O. The pixel is an input.
- The F2 hotkey registration (`keyboard.add_hotkey`) is a foreign call with no logic.
- The JSON file is represented only by `persisted`: the list it holds, or `None`. Building the file path, JSON encoding, and records in a loaded file that lack a `label` or `hex` key are not modelled.
- The status-bar texts and the `messagebox` pop-ups are not modelled. They change no state the model tracks.
- The colour swatch's background (`color_frame.config`) is not modelled.
- PickerApp.ColorPickerApp.RefreshFavoritesList: does not model Tk's own check of the background colour passed to `tag_configure`. Tk rejects some hexes that `is_dark_color` accepts, such as `"FFFFFF"` (no `#`) or `"##ffffff"`, and raises `TclError` there. That favourite's row has already been inserted, so the source's table ends with that row. The model goes on with the later favourites. For `[("a", "FFFFFF"), ("b", "#000000")]` the source shows one row and raises, while the model shows two rows with `ok == true`.
- Luminance.IsDarkColor: uses exact real arithmetic. Python's floating-point rounding of the brightness could decide differently for a colour whose weighted sum is within rounding of 127500.
- HexColor.WellFormedHex: accepts exactly six leading hex digits after the `#`s. Python's `int(_, 16)` also accepts a two-character slice with a space, a sign or a non-ASCII digit, for example `" 1"`. The model treats such a slice as unparsable.
- HexColor.WellFormedHex: rejects a string that has exactly five hex digits after the `#`s, such as `"#12345"`. There the source's slice `[4:6]` is the one character `"5"`, which `int(_, 16)` parses, so `is_dark_color` returns. The source inserts that row before Tk rejects the colour in `tag_configure`, so its refresh stops one row later than the model's.
- PickerApp.ColorPickerApp.RefreshFavoritesList: stops with `ok == false` where the source raises `ValueError`. The exception's escape from the calling command, which then skips setting the status text, is not modelled.
- PickerApp.ColorPickerApp.constructor: opens the window with the rows before the first unparsable hex when the loaded list holds one. In the source, the refresh at the end of `__init__` raises `ValueError` there. The exception leaves `ColorPickerApp(root)` in `main`, and the program stops before `mainloop`.
- HexColor.ToUpper: upper-cases ASCII letters only. It is applied only to strings of `#` and hex digits, where this agrees with `str.upper`.

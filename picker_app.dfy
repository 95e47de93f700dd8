/**
 * The state of the colour picker window that its commands change: the
 * favourites list, the hex entry, the rows of the favourites table and the
 * favourites file as last written.
 */
module PickerApp {
  import opened Wrappers
  import opened HexColor
  import opened Luminance
  import opened Favorites

  /** One row of the favourites table: its two column values, its tag, and the tag's colours. */
  datatype Row = Row(name: string, hex: string, tag: string, background: string, foreground: string)

  /** The tag name `f"{hex_code}_{is_dark}"`, with Python's spelling of the boolean. */
  function TagName(hex: string, isDark: bool): string {
    hex + "_" + (if isDark then "True" else "False")
  }

  /** The row the table shows for one favourite (RowShowsFavorite says what it holds). */
  function RowOf(f: Favorite): Row
    requires WellFormedHex(f.hex)
  {
    var isDark := IsDarkColor(f.hex);
    Row(f.name, f.hex, TagName(f.hex, isDark), f.hex, TextColor(f.hex))
  }

  /** A row shows its favourite's label and hex on that colour, in white exactly when the colour is dark. */
  lemma RowShowsFavorite(f: Favorite)
    requires WellFormedHex(f.hex)
    ensures RowOf(f).name == f.name && RowOf(f).hex == f.hex && RowOf(f).background == f.hex
    ensures RowOf(f).foreground == "white" <==> IsDarkColor(f.hex)
    ensures RowOf(f).foreground == "black" <==> !IsDarkColor(f.hex)
    ensures RowOf(f).tag == f.hex + (if IsDarkColor(f.hex) then "_True" else "_False")
    ensures RowOf(f).foreground == "white" <==> Weighted(ParseRgb(f.hex)) < 127500
  {
    DarkIffWeightedBelow(f.hex);
  }

  /** Index of the first favourite whose hex `is_dark_color` cannot parse, or `|favs|` if none. */
  function FirstMalformed(favs: seq<Favorite>): (i: nat)
    ensures i <= |favs|
    ensures forall k :: 0 <= k < i ==> WellFormedHex(favs[k].hex)
    ensures i < |favs| ==> !WellFormedHex(favs[i].hex)
  {
    if favs == [] then 0
    else if !WellFormedHex(favs[0].hex) then 0
    else 1 + FirstMalformed(favs[1..])
  }

  /**
   * The table shows the favourites in list order, one row each, up to the
   * first one whose hex cannot be parsed (where the refresh stops with an error).
   */
  ghost predicate Displays(rows: seq<Row>, favs: seq<Favorite>) {
    |rows| == FirstMalformed(favs) &&
    forall k :: 0 <= k < |rows| ==> rows[k] == RowOf(favs[k])
  }

  class ColorPickerApp {
    /** `self.favorites`: the saved colours, in order, duplicates allowed. */
    var favorites: seq<Favorite>
    /** `self.hex_var`: the text of the hex entry, which the picker sets and the user may edit. */
    var hexValue: string
    /** The rows of the favourites table, top to bottom. */
    var rows: seq<Row>
    /** What `favorites.json` holds: `None` when no usable list is known to be there. */
    var persisted: Option<seq<Favorite>>

    /**
     * Opening the window with the list `load_favorites` read (`None` when the
     * file is missing or unreadable, which leaves the list empty).
     */
    constructor (loaded: Option<seq<Favorite>>)
      ensures favorites == loaded.GetOr([])
      ensures hexValue == "#FFFFFF"
      ensures persisted == loaded
      ensures Displays(rows, favorites)
    {
      favorites := loaded.GetOr([]);
      hexValue := "#FFFFFF";
      rows := [];
      persisted := loaded;
      new;
      var _ := RefreshFavoritesList();
    }

    /** `pick_color`: the entry shows the sampled pixel as `#RRGGBB`. */
    method PickColor(pixel: Rgb)
      modifies this`hexValue
      ensures hexValue == DisplayHex(pixel)
      ensures |hexValue| == 7 && WellFormedHex(hexValue) && ParseRgb(hexValue) == pixel
    {
      var hexColor := FormatColor(pixel);
      hexValue := ToUpper(hexColor);
      DisplayHexRoundTrip(pixel);
    }

    /** `save_favorites`: rewrite the file with the whole list; `writeOk` is whether the write succeeded. */
    method SaveFavorites(writeOk: bool)
      modifies this`persisted
      ensures persisted == if writeOk then Some(favorites) else None
    {
      if writeOk {
        persisted := Some(favorites);
      } else {
        persisted := None;
      }
    }

    /**
     * `refresh_favorites_list`: clear the table, then add one row per
     * favourite in order. `ok` is false when a hex could not be parsed, in
     * which case the rows before that favourite are the ones shown.
     */
    method RefreshFavoritesList() returns (ok: bool)
      modifies this`rows
      ensures ok <==> FirstMalformed(favorites) == |favorites|
      ensures Displays(rows, favorites)
    {
      rows := [];
      var favs := favorites;
      var i := 0;
      while i < |favs|
        invariant 0 <= i <= |favs|
        invariant forall k :: 0 <= k < i ==> WellFormedHex(favs[k].hex)
        invariant |rows| == i
        invariant forall k :: 0 <= k < i ==> rows[k] == RowOf(favs[k])
      {
        var favorite := favs[i];
        var hexCode := favorite.hex;
        if !WellFormedHex(hexCode) {
          return false;
        }
        // the row's values, its `{hex}_{is_dark}` tag and that tag's colours
        rows := rows + [RowOf(favorite)];
        i := i + 1;
      }
      return true;
    }

    /**
     * `add_to_favorites`: a cancelled label dialog (`answer` is `None`) changes nothing;
     * otherwise the entry's colour is appended under that label, saved and shown.
     */
    method AddToFavorites(answer: Option<string>, writeOk: bool)
      modifies this
      ensures hexValue == old(hexValue)
      ensures answer.None? ==> favorites == old(favorites) && rows == old(rows) && persisted == old(persisted)
      ensures answer.Some? ==> favorites == old(favorites) + [Favorite(answer.value, hexValue)]
      ensures answer.Some? ==> persisted == (if writeOk then Some(favorites) else None)
      ensures answer.Some? ==> Displays(rows, favorites)
    {
      if answer.None? {
        return;
      }
      var favorite := Favorite(answer.value, hexValue);
      favorites := favorites + [favorite];
      SaveFavorites(writeOk);
      var _ := RefreshFavoritesList();
    }

    /**
     * `delete_favorite`: with a selected row and a confirmed prompt, the first
     * favourite equal to the row's (label, hex) is removed, then the list is
     * saved and shown; with no selection or no confirmation nothing changes.
     */
    method DeleteFavorite(selected: Option<Favorite>, confirmed: bool, writeOk: bool)
      modifies this
      ensures hexValue == old(hexValue)
      ensures selected.None? || !confirmed ==>
        favorites == old(favorites) && rows == old(rows) && persisted == old(persisted)
      ensures selected.Some? && confirmed ==> favorites == RemoveFirst(old(favorites), selected.value)
      ensures selected.Some? && confirmed ==> persisted == (if writeOk then Some(favorites) else None)
      ensures selected.Some? && confirmed ==> Displays(rows, favorites)
    {
      if selected.None? || !confirmed {
        return;
      }
      var values := selected.value;
      var i := 0;
      while i < |favorites|
        invariant 0 <= i <= |favorites|
        invariant favorites == old(favorites)
        invariant forall k :: 0 <= k < i ==> favorites[k] != values
      {
        if favorites[i].name == values.name && favorites[i].hex == values.hex {
          favorites := favorites[..i] + favorites[i + 1..];
          break;
        }
        i := i + 1;
      }
      SaveFavorites(writeOk);
      var _ := RefreshFavoritesList();
    }

    /**
     * `edit_favorite_label`: with a selected row and a new label that was not
     * cancelled, the first favourite equal to the row's (label, hex) gets the
     * new label, then the list is saved and shown; otherwise nothing changes.
     */
    method EditFavoriteLabel(selected: Option<Favorite>, newLabel: Option<string>, writeOk: bool)
      modifies this
      ensures hexValue == old(hexValue)
      ensures selected.None? || newLabel.None? ==>
        favorites == old(favorites) && rows == old(rows) && persisted == old(persisted)
      ensures selected.Some? && newLabel.Some? ==>
        favorites == RelabelFirst(old(favorites), selected.value, newLabel.value)
      ensures selected.Some? && newLabel.Some? ==> persisted == (if writeOk then Some(favorites) else None)
      ensures selected.Some? && newLabel.Some? ==> Displays(rows, favorites)
    {
      if selected.None? || newLabel.None? {
        return;
      }
      var values := selected.value;
      var i := 0;
      while i < |favorites|
        invariant 0 <= i <= |favorites|
        invariant favorites == old(favorites)
        invariant forall k :: 0 <= k < i ==> favorites[k] != values
      {
        var favorite := favorites[i];
        if favorite.name == values.name && favorite.hex == values.hex {
          favorites := favorites[i := Favorite(newLabel.value, favorite.hex)];
          break;
        }
        i := i + 1;
      }
      SaveFavorites(writeOk);
      var _ := RefreshFavoritesList();
    }
  }
}

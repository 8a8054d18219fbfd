/**
 * The state behind the Beadify window: the pixel grid read from the source
 * image, the table from each distinct pixel colour to its nearest catalogue
 * colours, and the editor state the buttons and clicks change (which option
 * each colour uses, the focused pixel, the drawing style). Everything that
 * draws on a canvas is left out; what the drawings look up is modelled.
 */
module Gui {
  import opened Wrappers
  import opened ListSort
  import opened Color
  import opened PyDict

  /** `K`: how many catalogue options are kept and offered per colour. */
  const K: nat := 5

  /** `AVAIALABLE_ONLY`: the window only offers catalogue colours marked available. */
  const AvailableOnly: bool := true

  /** A pixel as the image's pixel access object yields it, `(r, g, b, a)`. */
  datatype Rgba = Rgba(r: int, g: int, b: int, a: int)

  /**
   * An opened image as load_src_img reads it: `image.size` and the pixel
   * access `pixels[x, y]` (column x, row y).
   */
  datatype Image = Image(width: nat, height: nat, pixel: (nat, nat) -> Rgba)

  /** The colour string of a pixel: `rgb_to_hex((r, g, b))`, alpha dropped. */
  function PixelHex(p: Rgba): string
  {
    RgbToHex(Rgb(p.r, p.g, p.b))
  }

  // ----- the grid and its distinct colours -----

  /** The columns of the grid one after another. */
  function Flatten<T>(cols: seq<seq<T>>): seq<T>
  {
    if cols == [] then [] else Flatten(cols[..|cols| - 1]) + cols[|cols| - 1]
  }

  /** The distinct strings of `s` in the order they first occur: the key order of a dict filled from `s`. */
  function Dedup<T(==)>(s: seq<T>): seq<T>
  {
    if s == [] then []
    else
      var d := Dedup(s[..|s| - 1]);
      if s[|s| - 1] in d then d else d + [s[|s| - 1]]
  }

  /** The position of the first occurrence of `x` in `s`. */
  function FirstIndex<T(==)>(s: seq<T>, x: T): (i: nat)
    requires x in s
    ensures i < |s| && s[i] == x
    ensures forall j :: 0 <= j < i ==> s[j] != x
  {
    if x in s[..|s| - 1] then FirstIndex(s[..|s| - 1], x)
    else
      assert forall j :: 0 <= j < |s| - 1 ==> s[..|s| - 1][j] == s[j];
      |s| - 1
  }

  lemma FlattenSnoc<T>(cols: seq<seq<T>>, col: seq<T>)
    ensures Flatten(cols + [col]) == Flatten(cols) + col
  {
    assert (cols + [col])[..|cols|] == cols;
  }

  /** A value occurs in the flattened grid exactly when some cell holds it. */
  lemma {:induction false} FlattenMembers<T(!new)>(cols: seq<seq<T>>)
    ensures forall x :: x in Flatten(cols) <==>
      exists i, j :: 0 <= i < |cols| && 0 <= j < |cols[i]| && cols[i][j] == x
  {
    if cols != [] {
      var n := |cols| - 1;
      var init := cols[..n];
      FlattenMembers(init);
      assert forall i :: 0 <= i < n ==> init[i] == cols[i];
      forall x | x in Flatten(cols)
        ensures exists i, j :: 0 <= i < |cols| && 0 <= j < |cols[i]| && cols[i][j] == x
      {
        if x in Flatten(init) {
          var i, j :| 0 <= i < |init| && 0 <= j < |init[i]| && init[i][j] == x;
          assert cols[i][j] == x;
        } else {
          assert x in cols[n];
          var j :| 0 <= j < |cols[n]| && cols[n][j] == x;
        }
      }
      forall x | exists i, j :: 0 <= i < |cols| && 0 <= j < |cols[i]| && cols[i][j] == x
        ensures x in Flatten(cols)
      {
        var i, j :| 0 <= i < |cols| && 0 <= j < |cols[i]| && cols[i][j] == x;
        if i < n {
          assert init[i][j] == x;
        } else {
          assert cols[n][j] == x;
        }
      }
    }
  }

  lemma DedupSnoc<T>(s: seq<T>, x: T)
    ensures Dedup(s + [x]) == if x in Dedup(s) then Dedup(s) else Dedup(s) + [x]
  {
    assert (s + [x])[..|s|] == s;
  }

  /** The key order holds exactly the strings that occur, and each once. */
  lemma {:induction false} DedupElements<T>(s: seq<T>)
    ensures forall x :: x in Dedup(s) <==> x in s
    ensures Distinct(Dedup(s))
  {
    if s != [] {
      var init := s[..|s| - 1];
      DedupElements(init);
      assert s == init + [s[|s| - 1]];
      DistinctSnoc(Dedup(init), s[|s| - 1]);
    }
  }

  /** The key order is the order of first occurrence. */
  lemma {:induction false} DedupFirstSeen<T>(s: seq<T>)
    ensures forall x :: x in Dedup(s) ==> x in s
    ensures forall i, j :: 0 <= i < j < |Dedup(s)| ==> FirstIndex(s, Dedup(s)[i]) < FirstIndex(s, Dedup(s)[j])
  {
    DedupElements(s);
    if s != [] {
      var n := |s| - 1;
      var init := s[..n];
      DedupFirstSeen(init);
      DedupElements(init);
      var d := Dedup(init);
      forall x | x in init
        ensures FirstIndex(s, x) == FirstIndex(init, x)
      {
        assert x in s[..n];
      }
      if s[n] !in d {
        var x := s[n];
        assert x !in s[..n];
        assert FirstIndex(s, x) == n;
        forall i | 0 <= i < |d|
          ensures FirstIndex(s, d[i]) < n
        {
          assert d[i] in init;
        }
      }
    }
  }

  // ----- load_src_img and prepare_pxl_map -----

  /** The first n pixels of column x, top to bottom, each as `cell` shows it. */
  function ColumnPrefix<T>(img: Image, x: nat, n: nat, cell: Rgba -> T): seq<T>
  {
    if n == 0 then [] else ColumnPrefix(img, x, n - 1, cell) + [cell(img.pixel(x, n - 1))]
  }

  /** The first n columns of the image, each cell as `cell` shows it. */
  function GridPrefix<T>(img: Image, n: nat, cell: Rgba -> T): seq<seq<T>>
  {
    if n == 0 then [] else GridPrefix(img, n - 1, cell) + [ColumnPrefix(img, n - 1, img.height, cell)]
  }

  /** Cell y of column x shows pixel (x, y). */
  lemma {:induction false} ColumnPrefixAt<T>(img: Image, x: nat, n: nat, cell: Rgba -> T)
    ensures |ColumnPrefix(img, x, n, cell)| == n
    ensures forall y :: 0 <= y < n ==> ColumnPrefix(img, x, n, cell)[y] == cell(img.pixel(x, y))
  {
    if n > 0 {
      ColumnPrefixAt(img, x, n - 1, cell);
    }
  }

  /** Cell (x, y) of the grid shows pixel (x, y). */
  lemma {:induction false} GridPrefixAt<T>(img: Image, n: nat, cell: Rgba -> T)
    ensures |GridPrefix(img, n, cell)| == n
    ensures forall x :: 0 <= x < n ==> |GridPrefix(img, n, cell)[x]| == img.height
    ensures forall x, y :: 0 <= x < n && 0 <= y < img.height ==> GridPrefix(img, n, cell)[x][y] == cell(img.pixel(x, y))
  {
    if n > 0 {
      GridPrefixAt(img, n - 1, cell);
      ColumnPrefixAt(img, n - 1, img.height, cell);
    }
  }

  /** Every key of the table still waits for its options: its value is None. */
  predicate Unmatched<K, V>(values: map<K, Option<V>>)
  {
    forall k :: k in values ==> values[k] == None
  }

  /** One step of load_src_img's inner loop: record colour `h` as a key with no value yet. */
  method Record<T(==,!new), V>(uniq: Dict<T, Option<V>>, h: T, ghost read: seq<T>)
    requires uniq.Valid() && uniq.keys == Dedup(read) && Unmatched(uniq.values)
    modifies uniq
    ensures uniq.Valid() && uniq.keys == Dedup(read + [h]) && Unmatched(uniq.values)
  {
    DedupSnoc(read, h);
    uniq.Put(h, None);
  }

  /**
   * The body of load_src_img's loop over columns: read column x top to bottom
   * into `row_pxls`, each pixel as `cell` shows it, adding each value not seen
   * yet as a new key with no value. `before` is the sequence of cells read
   * before this column.
   */
  method ReadColumn<T(==,!new), V>(img: Image, x: nat, cell: Rgba -> T, uniq: Dict<T, Option<V>>, ghost before: seq<T>)
    returns (rowPxls: seq<T>)
    requires uniq.Valid() && uniq.keys == Dedup(before)
    requires Unmatched(uniq.values)
    modifies uniq
    ensures rowPxls == ColumnPrefix(img, x, img.height, cell)
    ensures uniq.Valid() && uniq.keys == Dedup(before + rowPxls)
    ensures Unmatched(uniq.values)
  {
    rowPxls := [];
    ghost var read := before;
    assert before + rowPxls == read;
    for y := 0 to img.height
      invariant rowPxls == ColumnPrefix(img, x, y, cell)
      invariant uniq.Valid()
      invariant read == before + rowPxls
      invariant uniq.keys == Dedup(read)
      invariant Unmatched(uniq.values)
    {
      var hexStr := cell(img.pixel(x, y));
      Record(uniq, hexStr, read);
      rowPxls := rowPxls + [hexStr];
      read := read + [hexStr];
    }
  }

  /** `src_pxls` as load_src_img builds it: column x, row y holds the colour string of pixel (x, y). */
  function Grid(img: Image): (g: seq<seq<string>>)
    ensures |g| == img.width && forall x :: 0 <= x < |g| ==> |g[x]| == img.height
  {
    GridPrefixAt(img, img.width, PixelHex);
    GridPrefix(img, img.width, PixelHex)
  }

  /** The grid has one column per image column, one cell per pixel, and each cell is its pixel's colour. */
  lemma GridCells(img: Image)
    ensures |Grid(img)| == img.width
    ensures forall x :: 0 <= x < img.width ==> |Grid(img)[x]| == img.height
    ensures forall x, y :: 0 <= x < img.width && 0 <= y < img.height ==> Grid(img)[x][y] == PixelHex(img.pixel(x, y))
  {
    GridPrefixAt(img, img.width, PixelHex);
  }

  /**
   * `load_src_img`: read the pixels column by column into `src_pxls[x][y]`
   * and record every colour as a key of `uniq_src_pxls`, in first-seen order,
   * with no value yet.
   */
  method LoadSrcImg<L>(img: Image) returns (srcPxls: seq<seq<string>>, uniq: Dict<string, Option<seq<Match<L>>>>)
    ensures srcPxls == Grid(img)
    ensures fresh(uniq) && uniq.Valid()
    ensures uniq.keys == Dedup(Flatten(srcPxls))
    ensures Unmatched(uniq.values)
  {
    srcPxls := [];
    uniq := new Dict();
    for x := 0 to img.width
      invariant srcPxls == GridPrefix(img, x, PixelHex)
      invariant fresh(uniq) && uniq.Valid()
      invariant uniq.keys == Dedup(Flatten(srcPxls))
      invariant Unmatched(uniq.values)
    {
      var rowPxls := ReadColumn(img, x, PixelHex, uniq, Flatten(srcPxls));
      FlattenSnoc(srcPxls, rowPxls);
      srcPxls := srcPxls + [rowPxls];
    }
  }

  /** The keys load_src_img records are exactly the colours of the grid's cells. */
  lemma KeysAreGridColours(cols: seq<seq<string>>)
    ensures forall h :: h in Dedup(Flatten(cols)) <==>
      exists x, y :: 0 <= x < |cols| && 0 <= y < |cols[x]| && cols[x][y] == h
  {
    DedupElements(Flatten(cols));
    FlattenMembers(cols);
  }

  /** The options the window offers for colour `h`. */
  function Options<L>(repository: seq<Entry<L>>, hexToLab: string -> L, dist: (L, L) -> real, h: string): (r: seq<Match<L>>)
    ensures |r| <= K
  {
    ClosestColors(repository, hexToLab(h), K, AvailableOnly, dist)
  }

  /** The table prepare_pxl_map leaves: every key mapped to its options. */
  function Matched<L>(keys: seq<string>, repository: seq<Entry<L>>, hexToLab: string -> L, dist: (L, L) -> real): (m: map<string, Option<seq<Match<L>>>>)
    ensures forall k :: k in m <==> k in keys
  {
    map k | k in keys :: Some(Options(repository, hexToLab, dist, k))
  }

  /**
   * `prepare_pxl_map`: for each key in order, convert it to Lab and store its
   * K nearest available catalogue colours. The dict is updated in place and
   * keeps its keys and their order.
   */
  method PreparePxlMap<L>(uniq: Dict<string, Option<seq<Match<L>>>>, repository: seq<Entry<L>>, hexToLab: string -> L, dist: (L, L) -> real)
    requires uniq.Valid()
    modifies uniq
    ensures uniq.Valid() && uniq.keys == old(uniq.keys)
    ensures uniq.values == Matched(uniq.keys, repository, hexToLab, dist)
  {
    var keys := uniq.keys;
    for i := 0 to |keys|
      invariant uniq.Valid() && uniq.keys == keys
      invariant forall k :: k in uniq.values ==>
        uniq.values[k] == if k in keys[..i] then Some(Options(repository, hexToLab, dist, k)) else old(uniq.values[k])
    {
      var hexStr := keys[i];
      var labColor := hexToLab(hexStr);
      var closestColors := FindClosestColors(repository, labColor, K, AvailableOnly, dist);
      assert keys[..i + 1] == keys[..i] + [hexStr];
      uniq.Put(hexStr, Some(closestColors));
    }
    assert keys[..|keys|] == keys;
  }

  /** For the options of any colour, K options are present exactly when the catalogue has K eligible colours. */
  lemma OptionsLength<L>(repository: seq<Entry<L>>, hexToLab: string -> L, dist: (L, L) -> real, h: string)
    ensures |Options(repository, hexToLab, dist, h)| == Min(K, |EligibleIndices(repository, AvailableOnly)|)
    ensures forall m :: m in Options(repository, hexToLab, dist, h) ==> IsAvailable(m.row)
  {
    ClosestLength(repository, hexToLab(h), K, AvailableOnly, dist);
    ClosestFromRepository(repository, hexToLab(h), K, AvailableOnly, dist);
  }

  // ----- the lookups the drawings make -----

  /** Python's `xs[i]` on a list of length `n`: the position meant, or None for IndexError. */
  function PyIndex(n: nat, i: int): (j: Option<nat>)
    ensures j.Some? <==> -(n as int) <= i < n
    ensures j.Some? ==> j.value < n && j.value as int == if i >= 0 then i else n + i
  {
    if 0 <= i < n then Some(i) else if -(n as int) <= i < 0 then Some(n + i) else None
  }

  /**
   * `get_mapped_color_row(pxl_map, orig_hex_str, sub_idx)`: the row of option
   * `sub_idx` for a colour; a missing colour is a KeyError, a colour not yet
   * matched (value None) a TypeError, an option out of range an IndexError.
   */
  function GetMappedColorRow<L>(pxlMap: map<string, Option<seq<Match<L>>>>, h: string, subIdx: int): (r: Result<Row>)
    ensures r.Ok? <==> h in pxlMap && pxlMap[h].Some? && PyIndex(|pxlMap[h].value|, subIdx).Some?
    ensures r.Ok? ==> r.value in set m | m in pxlMap[h].value :: m.row
    ensures r.Ok? ==> r.value == pxlMap[h].value[PyIndex(|pxlMap[h].value|, subIdx).value].row
  {
    if h !in pxlMap then Err(KeyError)
    else match pxlMap[h]
      case None => Err(TypeError)
      case Some(ms) =>
        match PyIndex(|ms|, subIdx)
        case None => Err(IndexError)
        case Some(j) => Ok(ms[j].row)
  }

  /**
   * `get_all_mapped_color_rows(pxl_map, orig_hex_str)`: the rows of all the
   * options of a colour, in option order.
   */
  function GetAllMappedColorRows<L>(pxlMap: map<string, Option<seq<Match<L>>>>, h: string): (r: Result<seq<Row>>)
    ensures r.Err? <==> h !in pxlMap || pxlMap[h].None?
    ensures r.Err? ==> r.error == if h !in pxlMap then KeyError else TypeError
    ensures r.Ok? ==> |r.value| == |pxlMap[h].value|
    ensures r.Ok? ==> forall i :: 0 <= i < |r.value| ==> r.value[i] == pxlMap[h].value[i].row
  {
    if h !in pxlMap then Err(KeyError)
    else match pxlMap[h]
      case None => Err(TypeError)
      case Some(ms) => Ok(seq(|ms|, i requires 0 <= i < |ms| => ms[i].row))
  }

  /** Element i of all the rows is the row get_mapped_color_row gives for option i, and an error there is the same error. */
  lemma AllRowsAreMappedRows<L>(pxlMap: map<string, Option<seq<Match<L>>>>, h: string)
    ensures GetAllMappedColorRows(pxlMap, h).Err? ==>
      forall i :: GetMappedColorRow(pxlMap, h, i) == Err(GetAllMappedColorRows(pxlMap, h).error)
    ensures GetAllMappedColorRows(pxlMap, h).Ok? ==>
      var rows := GetAllMappedColorRows(pxlMap, h).value;
      (forall i :: 0 <= i < |rows| ==> GetMappedColorRow(pxlMap, h, i) == Ok(rows[i])) &&
      (forall i :: 0 <= i < |rows| ==> GetMappedColorRow(pxlMap, h, i - |rows|) == Ok(rows[i])) &&
      (forall i :: (i < -|rows| || |rows| <= i) ==> GetMappedColorRow(pxlMap, h, i) == Err(IndexError))
  {
    if h in pxlMap && pxlMap[h].Some? {
      var ms := pxlMap[h].value;
      var rows := GetAllMappedColorRows(pxlMap, h).value;
      forall i | 0 <= i < |rows|
        ensures GetMappedColorRow(pxlMap, h, i) == Ok(rows[i])
        ensures GetMappedColorRow(pxlMap, h, i - |rows|) == Ok(rows[i])
      {
        assert rows[i] == ms[i].row;
      }
    }
  }

  /**
   * The focus palette draws options 0 .. K-1 of the focused colour. Once the
   * table is prepared, it can draw them all exactly when the catalogue has at
   * least K available colours.
   */
  lemma PaletteIsComplete<L>(keys: seq<string>, repository: seq<Entry<L>>, hexToLab: string -> L, dist: (L, L) -> real, h: string)
    requires h in keys
    ensures (forall i :: 0 <= i < K ==> GetMappedColorRow(Matched(keys, repository, hexToLab, dist), h, i).Ok?)
      <==> |EligibleIndices(repository, AvailableOnly)| >= K
  {
    OptionsLength(repository, hexToLab, dist, h);
    var n := |Options(repository, hexToLab, dist, h)|;
    if n < K {
      assert !GetMappedColorRow(Matched(keys, repository, hexToLab, dist), h, n).Ok?;
    }
  }

  // ----- the editor state -----

  /**
   * The variables of the window that its callbacks change: `var_map_choice`
   * (the option index chosen per colour), the focused pixel `var_fx`,
   * `var_fy`, and the style flags `var_label`, `var_outline`. The grid, the
   * key order and the prepared table do not change once the window is up.
   */
  class Editor<L> {
    const srcPxls: seq<seq<string>>
    const keys: seq<string>
    const pxlMap: map<string, Option<seq<Match<L>>>>
    var mapChoice: map<string, int>
    var fx: int
    var fy: int
    var showLabel: bool
    var showOutline: bool

    ghost predicate Valid()
      reads this
    {
      && Distinct(keys)
      && (forall k :: k in pxlMap <==> k in keys)
      && (forall x, y :: 0 <= x < |srcPxls| && 0 <= y < |srcPxls[x]| ==> srcPxls[x][y] in pxlMap)
      && mapChoice.Keys == pxlMap.Keys
      && showLabel == showOutline
    }

    /** `{hex_str: 0 for hex_str in pxl_map}`: every colour on its nearest option. */
    function InitialChoices(): (m: map<string, int>)
      reads this
      ensures Valid() ==> m.Keys == pxlMap.Keys
      ensures forall k :: k in m ==> m[k] == 0
    {
      map k | k in keys :: 0
    }

    /** `src_pxls[var_fx][var_fy]`: the colour of the focused pixel, or None where indexing raises IndexError. */
    function FocusKey(): (r: Option<string>)
      reads this
      ensures r.Some? <==> PyIndex(|srcPxls|, fx).Some? && PyIndex(|srcPxls[PyIndex(|srcPxls|, fx).value]|, fy).Some?
      ensures Valid() && r.Some? ==> r.value in pxlMap && r.value in mapChoice
    {
      match PyIndex(|srcPxls|, fx)
      case None => None
      case Some(x) =>
        match PyIndex(|srcPxls[x]|, fy)
        case None => None
        case Some(y) => Some(srcPxls[x][y])
    }

    /** The row the result image draws for colour `k`: its chosen option. */
    function ChosenRow(k: string): Result<Row>
      reads this
      requires k in mapChoice
    {
      GetMappedColorRow(pxlMap, k, mapChoice[k])
    }

    /** Every colour's chosen option exists, so the result image can be drawn. */
    predicate ChoicesValid()
      reads this
    {
      forall k :: k in mapChoice ==> ChosenRow(k).Ok?
    }

    /** The window's start-up state (the assignments right after prepare_pxl_map). */
    constructor (srcPxls: seq<seq<string>>, pxlMap: Dict<string, Option<seq<Match<L>>>>)
      requires pxlMap.Valid()
      requires forall x, y :: 0 <= x < |srcPxls| && 0 <= y < |srcPxls[x]| ==> srcPxls[x][y] in pxlMap.values
      ensures Valid()
      ensures this.srcPxls == srcPxls && keys == pxlMap.keys && this.pxlMap == pxlMap.values
      ensures mapChoice == InitialChoices()
      ensures fx == 0 && fy == 0 && showLabel && showOutline
    {
      this.srcPxls := srcPxls;
      keys := pxlMap.keys;
      this.pxlMap := pxlMap.values;
      mapChoice := map k | k in pxlMap.keys :: 0;
      fx, fy := 0, 0;
      showLabel, showOutline := true, true;
    }

    /** `change_focus_lambda(x, y)`: move the focus; nothing else changes. */
    method ChangeFocus(x: int, y: int)
      requires Valid()
      modifies this
      ensures Valid()
      ensures fx == x && fy == y
      ensures mapChoice == old(mapChoice) && showLabel == old(showLabel) && showOutline == old(showOutline)
    {
      fx, fy := x, y;
    }

    /**
     * `change_map_choice_lambda(new_val)`: choose option `new_val` for the
     * focused colour. A focus outside the grid raises IndexError before
     * anything changes; otherwise only that colour's choice changes, and the
     * result image stays drawable exactly when the new option exists.
     */
    method ChangeMapChoice(newVal: int) returns (r: Result<string>)
      requires Valid()
      modifies this
      ensures Valid()
      ensures fx == old(fx) && fy == old(fy) && showLabel == old(showLabel) && showOutline == old(showOutline)
      ensures FocusKey().None? ==> r == Err(IndexError) && mapChoice == old(mapChoice)
      ensures FocusKey().Some? ==> r == Ok(FocusKey().value) && mapChoice == old(mapChoice)[r.value := newVal]
      ensures r.Ok? ==> ChosenRow(r.value) == GetMappedColorRow(pxlMap, r.value, newVal)
      ensures r.Ok? ==> forall k :: k in mapChoice && k != r.value ==> ChosenRow(k) == old(ChosenRow(k))
      ensures old(ChoicesValid()) && r.Ok? ==> (ChoicesValid() <==> GetMappedColorRow(pxlMap, r.value, newVal).Ok?)
    {
      var key := FocusKey();
      if key.None? {
        return Err(IndexError);
      }
      var origHexStr := key.value;
      mapChoice := mapChoice[origHexStr := newVal];
      r := Ok(origHexStr);
    }

    /**
     * `reset_all_map_choice`: put every colour back on option 0, visiting the
     * keys in order. The choices end as they started, whatever they were, so
     * a second reset changes nothing; the result image is then drawable
     * exactly when every colour has at least one option.
     */
    method ResetAllMapChoice()
      requires Valid()
      modifies this
      ensures Valid()
      ensures mapChoice == InitialChoices()
      ensures fx == old(fx) && fy == old(fy) && showLabel == old(showLabel) && showOutline == old(showOutline)
      ensures ChoicesValid() <==> forall k :: k in pxlMap ==> GetMappedColorRow(pxlMap, k, 0).Ok?
    {
      for i := 0 to |keys|
        invariant mapChoice.Keys == old(mapChoice).Keys
        invariant forall k :: k in mapChoice ==> mapChoice[k] == if k in keys[..i] then 0 else old(mapChoice)[k]
        invariant fx == old(fx) && fy == old(fy) && showLabel == old(showLabel) && showOutline == old(showOutline)
      {
        assert keys[..i + 1] == keys[..i] + [keys[i]];
        mapChoice := mapChoice[keys[i] := 0];
      }
      assert keys[..|keys|] == keys;
    }

    /** `change_style_lambda`: toggle labels and outlines together. */
    method ChangeStyle()
      requires Valid()
      modifies this
      ensures Valid()
      ensures showLabel == !old(showLabel) && showOutline == !old(showOutline)
      ensures mapChoice == old(mapChoice) && fx == old(fx) && fy == old(fy)
    {
      showLabel := !showLabel;
      showOutline := !showOutline;
    }
  }

  /**
   * The start of `main` once an image is chosen: load it, prepare the table
   * against the catalogue, and set up the editor. Every pixel's colour is a
   * key with its K options, and the initial image is drawable exactly when
   * the image is empty or the catalogue has an available colour.
   */
  method OpenImage<L>(img: Image, repository: seq<Entry<L>>, hexToLab: string -> L, dist: (L, L) -> real)
    returns (editor: Editor<L>)
    ensures fresh(editor) && editor.Valid()
    ensures editor.srcPxls == Grid(img)
    ensures editor.keys == Dedup(Flatten(editor.srcPxls))
    ensures editor.pxlMap == Matched(editor.keys, repository, hexToLab, dist)
    ensures editor.mapChoice == editor.InitialChoices()
    ensures editor.fx == 0 && editor.fy == 0 && editor.showLabel && editor.showOutline
    ensures editor.ChoicesValid() <==> editor.keys == [] || |EligibleIndices(repository, AvailableOnly)| > 0
  {
    var srcPxls, uniqSrcPxls := LoadSrcImg<L>(img);
    PreparePxlMap(uniqSrcPxls, repository, hexToLab, dist);
    KeysAreGridColours(srcPxls);
    editor := new Editor(srcPxls, uniqSrcPxls);
    if editor.keys != [] {
      OptionsLength(repository, hexToLab, dist, editor.keys[0]);
      if |EligibleIndices(repository, AvailableOnly)| == 0 {
        assert !editor.ChosenRow(editor.keys[0]).Ok?;
      } else {
        forall k | k in editor.mapChoice
          ensures editor.ChosenRow(k).Ok?
        {
          OptionsLength(repository, hexToLab, dist, k);
        }
      }
    }
  }
}

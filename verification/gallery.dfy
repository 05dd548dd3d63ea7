/** The screenshot gallery's grid: images are laid out in rows of a fixed
    number of columns, a row re-flows when an image drops out of it, buttons
    are placed left to right inside a centred row, and each tab's image loader
    remembers what it has loaded. */
module Gallery {
  import opened Base

  const EntrySpacing := 4
  const EntryWidth := 100
  const EntryHeight := 75
  const MarginLeftRight := 10

  // ---------------------------------------------------------------------------
  // Grid geometry
  // ---------------------------------------------------------------------------

  /** `init`'s column count: the screen width less both margins, plus one
      spacing, less 13 pixels kept free for the scrollbar, in whole columns of
      one entry and one spacing (Java's truncating division). */
  function ColumnCount(width: int): (c: int)
    ensures width - 29 >= 0 ==>
      c >= 0 && c * (EntryWidth + EntrySpacing) <= width - 29 < (c + 1) * (EntryWidth + EntrySpacing)
    ensures width - 29 < 0 ==> c <= 0
  {
    JavaDiv(width - MarginLeftRight * 2 + EntrySpacing - 13, EntryWidth + EntrySpacing)
  }

  /** `ImageList`'s row width: the columns with a spacing between neighbours. */
  function RowWidth(columns: int): int {
    columns * (EntryWidth + EntrySpacing) - EntrySpacing
  }

  /** `getRowLeft`: the row is centred in the list. */
  function RowLeft(listX: int, listWidth: int, rowWidth: int): int {
    listX + JavaDiv(listWidth, 2) - JavaDiv(rowWidth, 2)
  }

  function Sum(ws: seq<int>): int {
    if |ws| == 0 then 0 else Sum(ws[..|ws| - 1]) + ws[|ws| - 1]
  }

  /** `repositionButtons`: buttons are placed left to right from the row's left
      edge, each one spacing after the previous button's right edge. */
  method Reposition(left: int, widths: seq<int>) returns (xs: seq<int>)
    ensures |xs| == |widths|
    ensures forall k :: 0 <= k < |xs| ==> xs[k] == left + Sum(widths[..k]) + k * EntrySpacing
  {
    xs := [];
    var x := left;
    var i := 0;
    while i < |widths|
      invariant 0 <= i <= |widths| && |xs| == i
      invariant x == left + Sum(widths[..i]) + i * EntrySpacing
      invariant forall k :: 0 <= k < i ==> xs[k] == left + Sum(widths[..k]) + k * EntrySpacing
    {
      xs := xs + [x];
      assert widths[..i + 1][..i] == widths[..i];
      x := x + widths[i] + EntrySpacing;
      i := i + 1;
    }
  }

  lemma {:induction false} SumConstant(ws: seq<int>, w: int)
    requires forall k :: 0 <= k < |ws| ==> ws[k] == w
    ensures Sum(ws) == |ws| * w
  {
    if |ws| > 0 {
      SumConstant(ws[..|ws| - 1], w);
    }
  }

  /** With every button the standard entry width, the k-th button sits at
      `left + k * (width + spacing)`, and a full row of `c` buttons ends exactly
      `RowWidth(c)` to the right of its left edge. */
  lemma FullRowFits(left: int, xs: seq<int>, widths: seq<int>)
    requires |xs| == |widths| > 0
    requires forall k :: 0 <= k < |widths| ==> widths[k] == EntryWidth
    requires forall k :: 0 <= k < |xs| ==> xs[k] == left + Sum(widths[..k]) + k * EntrySpacing
    ensures forall k :: 0 <= k < |xs| ==> xs[k] == left + k * (EntryWidth + EntrySpacing)
    ensures xs[|xs| - 1] + EntryWidth == left + RowWidth(|xs|)
  {
    forall k | 0 <= k < |xs|
      ensures xs[k] == left + k * (EntryWidth + EntrySpacing)
    {
      SumConstant(widths[..k], EntryWidth);
    }
  }

  // ---------------------------------------------------------------------------
  // Rows
  // ---------------------------------------------------------------------------

  function Flatten<T>(rows: seq<seq<T>>): seq<T> {
    if |rows| == 0 then [] else rows[0] + Flatten(rows[1..])
  }

  /** The grid invariant: no row is empty, none holds more than `size` images,
      and every row but the last is full. */
  predicate Shaped<T>(rows: seq<seq<T>>, size: int) {
    forall j :: 0 <= j < |rows| ==> RowShaped(rows, j, size)
  }

  predicate RowShaped<T>(rows: seq<seq<T>>, j: int, size: int)
    requires 0 <= j < |rows|
  {
    0 < |rows[j]| <= size && (j < |rows| - 1 ==> |rows[j]| == size)
  }

  predicate NonEmpty<T>(rows: seq<seq<T>>) {
    forall j :: 0 <= j < |rows| ==> |rows[j]| > 0
  }

  /** The grid invariant with row `i` one image short: the shape in the middle
      of a re-flow. */
  predicate Deficit<T>(rows: seq<seq<T>>, i: int, size: int) {
    && size >= 2 && 0 <= i < |rows|
    && (forall j :: 0 <= j < |rows| && j != i ==> RowShaped(rows, j, size))
    && 0 < |rows[i]| < size
    && (i < |rows| - 1 ==> |rows[i]| == size - 1)
  }

  lemma {:induction false} FlattenConcat<T>(a: seq<seq<T>>, b: seq<seq<T>>)
    ensures Flatten(a + b) == Flatten(a) + Flatten(b)
    decreases |a|
  {
    if |a| == 0 {
      assert a + b == b;
    } else {
      assert (a + b)[1..] == a[1..] + b;
      FlattenConcat(a[1..], b);
    }
  }

  lemma {:induction false} FlattenAt<T>(rows: seq<seq<T>>, i: int)
    requires 0 <= i < |rows|
    ensures Flatten(rows) == Flatten(rows[..i]) + rows[i] + Flatten(rows[i + 1..])
  {
    if i == 0 {
      assert rows[..0] == [];
    } else {
      FlattenAt(rows[1..], i - 1);
      assert rows[..i][1..] == rows[1..][..i - 1];
      assert rows[1..][i - 1] == rows[i];
      assert rows[1..][i..] == rows[i + 1..];
    }
  }

  /** `rows` cuts `images` into rows of `c`: as many rows as `c` needs,
      rounded up, and row `k` holds the images from `k * c` on, `c` of them
      or as many as remain. */
  ghost predicate RowsOf<T>(images: seq<T>, c: int, rows: seq<seq<T>>)
    requires c > 0
  {
    && |rows| == (|images| + c - 1) / c
    && forall k :: 0 <= k < |rows| ==>
         0 <= k * c < |images| && rows[k] == images[k * c .. k * c + MinInt(c, |images| - k * c)]
  }

  /** `loadTab`'s loop with a positive column count: consecutive slices of
      `c` images. */
  function Chunk<T>(images: seq<T>, c: int): (r: seq<seq<T>>)
    requires c > 0
    ensures RowsOf(images, c, r)
    decreases |images|
  {
    if |images| == 0 then []
    else
      var n := MinInt(c, |images|);
      var rest := Chunk(images[n..], c);
      ChunkStep(images, c, rest);
      [images[..n]] + rest
  }

  /** Row `k + 1` of the whole list is row `k` of what follows the first row. */
  lemma {:induction false} ChunkStep<T>(images: seq<T>, c: int, rest: seq<seq<T>>)
    requires c > 0 && |images| > 0
    requires RowsOf(images[MinInt(c, |images|)..], c, rest)
    ensures RowsOf(images, c, [images[..MinInt(c, |images|)]] + rest)
  {
    var n := MinInt(c, |images|);
    var r := [images[..n]] + rest;
    if |images| <= c {
      DivUnique(c - 1, c, 0, c - 1);
      assert |rest| == 0;
      CeilOne(|images|, c);
    } else {
      CeilStep(|images| - 1, c);
      forall k | 0 <= k < |r|
        ensures 0 <= k * c < |images| && r[k] == images[k * c .. k * c + MinInt(c, |images| - k * c)]
      {
        if k > 0 {
          LaterChunk(images, c, rest, k);
        }
      }
    }
  }

  /** A later row of the whole list, given the rows after the first. */
  lemma LaterChunk<T>(images: seq<T>, c: int, rest: seq<seq<T>>, k: int)
    requires 0 < c < |images| && 0 < k <= |rest|
    requires RowsOf(images[c..], c, rest)
    ensures 0 <= k * c < |images|
    ensures ([images[..c]] + rest)[k] == images[k * c .. k * c + MinInt(c, |images| - k * c)]
  {
    assert ([images[..c]] + rest)[k] == rest[k - 1];
    LaterRow(images, c, k - 1);
  }

  lemma CeilOne(m: int, c: int)
    requires 0 < m <= c
    ensures (m + c - 1) / c == 1
  {
  }

  lemma {:induction false} CeilStep(a: int, c: int)
    requires c > 0 && a >= 0
    ensures (a + c) / c == a / c + 1
  {
    var q, r := a / c, a % c;
    assert a + c == (q + 1) * c + r;
    DivUnique(a + c, c, q + 1, r);
  }

  /** Division is determined by a quotient and a remainder in range. */
  lemma {:induction false} DivUnique(x: int, c: int, q: int, r: int)
    requires c > 0 && 0 <= r < c && x == q * c + r
    ensures x / c == q
  {
    var q', r' := x / c, x % c;
    assert (q - q') * c == r' - r;
    assert (q' - q) * c == r - r';
    MulAtLeast(q - q', c);
    MulAtLeast(q' - q, c);
  }

  lemma MulAtLeast(d: int, c: int)
    requires c > 0
    ensures d >= 1 ==> d * c >= c
  {
  }

  /** Row `j` after the first full row is row `j + 1` of the whole list. */
  lemma LaterRow<T>(images: seq<T>, c: int, j: int)
    requires c > 0 && c < |images| && 0 <= j && j * c < |images| - c
    ensures 0 <= (j + 1) * c < |images|
    ensures images[c..][j * c .. j * c + MinInt(c, |images| - c - j * c)]
      == images[(j + 1) * c .. (j + 1) * c + MinInt(c, |images| - (j + 1) * c)]
  {
    assert (j + 1) * c == j * c + c;
  }

  lemma {:induction false} ChunkShape<T>(images: seq<T>, c: int)
    requires c > 0
    ensures Flatten(Chunk(images, c)) == images
    ensures Shaped(Chunk(images, c), c)
    decreases |images|
  {
    if |images| > 0 {
      var n := MinInt(c, |images|);
      var rest := Chunk(images[n..], c);
      ChunkShape(images[n..], c);
      FlattenConcat([images[..n]], rest);
      assert Flatten([images[..n]]) == images[..n] + Flatten([]);
      assert images[..n] + images[n..] == images;
      var rows := [images[..n]] + rest;
      forall j | 0 <= j < |rows|
        ensures RowShaped(rows, j, c)
      {
        if j > 0 {
          assert rows[j] == rest[j - 1];
          assert RowShaped(rest, j - 1, c);
        } else if |rest| > 0 {
          assert |images[n..]| > 0;
        }
      }
    }
  }

  /** `loadTab`: rows of `columnCount` images in list order, the last one
      possibly shorter. With no columns the loop never advances, so it only
      finishes for an empty list. */
  function LoadTab<T>(images: seq<T>, columnCount: int): (r: Option<seq<seq<T>>>)
    ensures columnCount > 0 ==> r.Some? && Flatten(r.value) == images && Shaped(r.value, columnCount)
    ensures columnCount <= 0 ==> (r.Some? <==> |images| == 0)
    ensures r.Some? && |images| == 0 ==> r.value == []
  {
    if |images| == 0 then Some([])
    else if columnCount <= 0 then None
    else
      ChunkShape(images, columnCount);
      Some(Chunk(images, columnCount))
  }

  // ---------------------------------------------------------------------------
  // Removing an image
  // ---------------------------------------------------------------------------

  /** `shiftEntries` on a short row `cur` followed by the rows `tail`: the
      last row is left alone; otherwise the next row gives up its first image
      (`pop`), which joins the end of `cur`. The next row is dropped if that
      empties it, or re-flows in turn if it is now short. */
  function Cascade<T>(cur: seq<T>, tail: seq<seq<T>>, size: int): seq<seq<T>>
    requires NonEmpty(tail)
    decreases |tail|, 1
  {
    if |tail| == 0 then [cur] else [cur + [tail[0][0]]] + AfterPop(tail, size)
  }

  /** The rows after the one that received an image: the row that gave it up
      (dropped if now empty, re-flowed if now short) and the rest. */
  function AfterPop<T>(tail: seq<seq<T>>, size: int): seq<seq<T>>
    requires NonEmpty(tail) && |tail| > 0
    decreases |tail|, 0
  {
    var rest := tail[0][1..];
    if |rest| == 0 then tail[1..]
    else if |rest| < size then Cascade(rest, tail[1..], size)
    else [rest] + tail[1..]
  }

  /** Re-flowing moves images between rows but keeps them all, in order, and
      leaves no row empty. */
  lemma {:induction false} CascadeKeeps<T>(cur: seq<T>, tail: seq<seq<T>>, size: int)
    requires NonEmpty(tail)
    ensures Flatten(Cascade(cur, tail, size)) == cur + Flatten(tail)
    ensures |cur| > 0 ==> NonEmpty(Cascade(cur, tail, size))
    decreases |tail|, 1
  {
    var r := Cascade(cur, tail, size);
    if |tail| == 0 {
      assert Flatten([cur]) == cur + Flatten([]);
    } else {
      var after := AfterPop(tail, size);
      AfterPopKeeps(tail, size);
      assert r == [cur + [tail[0][0]]] + after;
      assert r[1..] == after;
      assert Flatten(r) == cur + [tail[0][0]] + Flatten(after);
      assert Flatten(tail) == tail[0] + Flatten(tail[1..]);
      assert tail[0] == [tail[0][0]] + tail[0][1..];
    }
  }

  lemma {:induction false} AfterPopKeeps<T>(tail: seq<seq<T>>, size: int)
    requires NonEmpty(tail) && |tail| > 0
    ensures Flatten(AfterPop(tail, size)) == tail[0][1..] + Flatten(tail[1..])
    ensures NonEmpty(AfterPop(tail, size))
    decreases |tail|, 0
  {
    var rest := tail[0][1..];
    if |rest| == 0 {
    } else if |rest| < size {
      CascadeKeeps(rest, tail[1..], size);
    } else {
      assert ([rest] + tail[1..])[1..] == tail[1..];
    }
  }

  /** `shiftEntries` on row `i` of the list: the rows before it are not touched. */
  function Shift<T>(rows: seq<seq<T>>, i: int, size: int): (r: seq<seq<T>>)
    requires 0 <= i < |rows| && NonEmpty(rows)
    ensures Flatten(r) == Flatten(rows)
    ensures NonEmpty(r)
  {
    var tail := rows[i + 1..];
    var c := Cascade(rows[i], tail, size);
    CascadeKeeps(rows[i], tail, size);
    FlattenAt(rows, i);
    FlattenConcat(rows[..i], c);
    rows[..i] + c
  }

  /** `ImageListEntry.remove`: take the image out of row `rowIndex`; an
      emptied row leaves the list, a short row re-flows from the rows after
      it. An image that has already moved on to another row is not found,
      and the row is left as it is. */
  function Remove<T(==)>(rows: seq<seq<T>>, rowIndex: int, e: T, size: int): (r: seq<seq<T>>)
    requires 0 <= rowIndex < |rows| && NonEmpty(rows)
    ensures NonEmpty(r)
    ensures Flatten(r) == Flatten(rows[..rowIndex]) + RemoveFirst(rows[rowIndex], e) + Flatten(rows[rowIndex + 1..])
  {
    var row := RemoveFirst(rows[rowIndex], e);
    FlattenAt(rows, rowIndex);
    if |row| == 0 then
      var r := rows[..rowIndex] + rows[rowIndex + 1..];
      FlattenConcat(rows[..rowIndex], rows[rowIndex + 1..]);
      r
    else
      var mod := rows[rowIndex := row];
      FlattenAt(mod, rowIndex);
      assert mod[..rowIndex] == rows[..rowIndex] && mod[rowIndex + 1..] == rows[rowIndex + 1..];
      if |row| < size then Shift(mod, rowIndex, size) else mod
  }

  /** An image that is not in the row it names changes nothing. */
  lemma RemoveStale<T>(rows: seq<seq<T>>, rowIndex: int, e: T, size: int)
    requires 0 <= rowIndex < |rows| && NonEmpty(rows) && Shaped(rows, size)
    requires e !in rows[rowIndex]
    ensures Remove(rows, rowIndex, e, size) == rows
  {
    assert RowShaped(rows, rowIndex, size);
    assert rows[rowIndex := rows[rowIndex]] == rows;
    if |rows[rowIndex]| < size {
      assert rowIndex == |rows| - 1;
      assert rows[rowIndex + 1..] == [];
      assert rows[..rowIndex] + [rows[rowIndex]] == rows;
    }
  }

  /** A row one short of full (or any short last row) followed by a well
      shaped tail re-flows into a well shaped list. */
  lemma {:induction false} CascadeShape<T>(cur: seq<T>, tail: seq<seq<T>>, size: int)
    requires NonEmpty(tail) && Shaped(tail, size) && size >= 2
    requires 0 < |cur| < size && (|tail| > 0 ==> |cur| == size - 1)
    ensures Shaped(Cascade(cur, tail, size), size)
    decreases |tail|
  {
    if |tail| > 0 {
      var rest := tail[0][1..];
      assert RowShaped(tail, 0, size);
      var after := AfterPop(tail, size);
      assert Shaped(tail[1..], size) by {
        forall j | 0 <= j < |tail[1..]|
          ensures RowShaped(tail[1..], j, size)
        {
          assert RowShaped(tail, j + 1, size);
        }
      }
      if |rest| == 0 {
        assert |tail| == 1;
      } else {
        CascadeShape(rest, tail[1..], size);
      }
      var r := Cascade(cur, tail, size);
      forall j | 0 <= j < |r|
        ensures RowShaped(r, j, size)
      {
        if j > 0 {
          assert r[j] == after[j - 1];
          assert RowShaped(after, j - 1, size);
        }
      }
    }
  }

  lemma ShiftShape<T>(rows: seq<seq<T>>, i: int, size: int)
    requires 0 <= i < |rows| && NonEmpty(rows) && size >= 2
    requires forall j :: 0 <= j < |rows| && j != i ==> RowShaped(rows, j, size)
    requires 0 < |rows[i]| < size && (i < |rows| - 1 ==> |rows[i]| == size - 1)
    ensures Shaped(Shift(rows, i, size), size)
  {
    var tail := rows[i + 1..];
    assert Shaped(tail, size) by {
      forall j | 0 <= j < |tail|
        ensures RowShaped(tail, j, size)
      {
        assert RowShaped(rows, i + 1 + j, size);
      }
    }
    CascadeShape(rows[i], tail, size);
    var c := Cascade(rows[i], tail, size);
    var r := rows[..i] + c;
    forall j | 0 <= j < |r|
      ensures RowShaped(r, j, size)
    {
      if j < i {
        assert RowShaped(rows, j, size);
      } else {
        assert r[j] == c[j - i];
        assert RowShaped(c, j - i, size);
      }
    }
  }

  /** Removing an image that is in the row keeps the grid invariant: emptied
      rows disappear and every row but the last stays full. */
  lemma RemoveShape<T>(rows: seq<seq<T>>, rowIndex: int, e: T, size: int)
    requires 0 <= rowIndex < |rows| && NonEmpty(rows) && Shaped(rows, size)
    requires e in rows[rowIndex]
    ensures Shaped(Remove(rows, rowIndex, e, size), size)
  {
    var row := RemoveFirst(rows[rowIndex], e);
    assert RowShaped(rows, rowIndex, size);
    if |row| == 0 {
      var r := rows[..rowIndex] + rows[rowIndex + 1..];
      if rowIndex < |rows| - 1 {
        assert |rows[rowIndex]| == size == 1;
      }
      forall j | 0 <= j < |r|
        ensures RowShaped(r, j, size)
      {
        if j < rowIndex {
          assert r[j] == rows[j];
          assert RowShaped(rows, j, size);
        } else {
          assert r[j] == rows[j + 1];
          assert RowShaped(rows, j + 1, size);
        }
      }
    } else {
      var mod := rows[rowIndex := row];
      forall j | 0 <= j < |mod| && j != rowIndex
        ensures RowShaped(mod, j, size)
      {
        assert RowShaped(rows, j, size);
      }
      ShiftShape(mod, rowIndex, size);
    }
  }

  // ---------------------------------------------------------------------------
  // The tab's loader
  // ---------------------------------------------------------------------------

  /** One image lookup: what it returns, the cache afterwards, and whether the
      underlying loader ran. */
  datatype Lookup<K, V> = Lookup(value: V, cache: map<K, V>, called: bool)

  /** The loader `Tab.of` wraps around a tab's real loader: a cached image is
      returned as is; otherwise the real loader runs, and its image is cached
      unless it throws, in which case the exception passes through. */
  function CachedLoad<K, V>(cache: map<K, V>, key: K, loader: K -> Result<V, string>): (r: Result<Lookup<K, V>, string>)
    ensures key in cache ==> r == Ok(Lookup(cache[key], cache, false))
    ensures key !in cache && loader(key).Err? ==> r == Err(loader(key).error)
    ensures key !in cache && loader(key).Ok? ==> r == Ok(Lookup(loader(key).value, cache[key := loader(key).value], true))
  {
    if key in cache then Ok(Lookup(cache[key], cache, false))
    else
      match loader(key)
      case Err(e) => Err(e)
      case Ok(v) => Ok(Lookup(v, cache[key := v], true))
  }

  /** A run of lookups: the images in order, the final cache, and the keys the
      real loader was asked for. */
  datatype Session<K, V> = Session(values: seq<V>, cache: map<K, V>, calls: seq<K>)

  function LoadAll<K, V>(cache: map<K, V>, keys: seq<K>, loader: K -> Result<V, string>): (r: Result<Session<K, V>, string>)
    ensures r.Ok? ==> |r.value.values| == |keys|
    decreases |keys|
  {
    if |keys| == 0 then Ok(Session([], cache, []))
    else
      match CachedLoad(cache, keys[0], loader)
      case Err(e) => Err(e)
      case Ok(l) =>
        match LoadAll(l.cache, keys[1..], loader)
        case Err(e) => Err(e)
        case Ok(s) => Ok(Session([l.value] + s.values, s.cache, (if l.called then [keys[0]] else []) + s.calls))
  }

  /** A run fails exactly when some key it asks for is not cached and its
      loader throws. */
  lemma {:induction false} LoadAllFails<K, V>(cache: map<K, V>, keys: seq<K>, loader: K -> Result<V, string>)
    ensures LoadAll(cache, keys, loader).Err? <==> exists k :: k in keys && k !in cache && loader(k).Err?
    decreases |keys|
  {
    if |keys| > 0 {
      var h := CachedLoad(cache, keys[0], loader);
      if h.Ok? {
        var l := h.value;
        LoadAllFails(l.cache, keys[1..], loader);
        assert forall k :: k in keys[1..] ==> k in keys;
        if LoadAll(cache, keys, loader).Err? {
          var k :| k in keys[1..] && k !in l.cache && loader(k).Err?;
        } else {
          forall k | k in keys && k !in cache
            ensures loader(k).Ok?
          {
            if k != keys[0] {
              assert k in keys[1..];
            }
          }
        }
      } else {
        assert keys[0] in keys;
      }
    }
  }

  /** However often a key is asked for, the real loader runs for it at most
      once, and only if it was not cached to begin with; every key asked for
      ends up cached. */
  lemma {:induction false} LoaderRunsOnce<K, V>(cache: map<K, V>, keys: seq<K>, loader: K -> Result<V, string>)
    requires LoadAll(cache, keys, loader).Ok?
    ensures var s := LoadAll(cache, keys, loader).value;
      && (forall i, j :: 0 <= i < j < |s.calls| ==> s.calls[i] != s.calls[j])
      && (forall k :: k in s.calls ==> k !in cache)
      && (forall k :: k in keys ==> k in s.cache)
      && (forall k :: k in cache ==> k in s.cache && s.cache[k] == cache[k])
    decreases |keys|
  {
    if |keys| > 0 {
      var l := CachedLoad(cache, keys[0], loader).value;
      LoaderRunsOnce(l.cache, keys[1..], loader);
      var s := LoadAll(l.cache, keys[1..], loader).value;
      var calls := (if l.called then [keys[0]] else []) + s.calls;
      assert LoadAll(cache, keys, loader).value.calls == calls;
      forall k | k in keys
        ensures k in s.cache
      {
        if k != keys[0] {
          assert k in keys[1..];
        }
      }
      if l.called {
        assert keys[0] !in cache && keys[0] in l.cache;
        forall i, j | 0 <= i < j < |calls|
          ensures calls[i] != calls[j]
        {
          if i == 0 {
            assert calls[j] == s.calls[j - 1];
          } else {
            assert calls[i] == s.calls[i - 1] && calls[j] == s.calls[j - 1];
          }
        }
      }
    }
  }

  /** Each image in a run is the one the cache holds for its key afterwards. */
  lemma {:induction false} LoadAllConsistent<K, V>(cache: map<K, V>, keys: seq<K>, loader: K -> Result<V, string>)
    requires LoadAll(cache, keys, loader).Ok?
    ensures var s := LoadAll(cache, keys, loader).value;
      forall i :: 0 <= i < |keys| ==> keys[i] in s.cache && s.values[i] == s.cache[keys[i]]
    decreases |keys|
  {
    if |keys| > 0 {
      var l := CachedLoad(cache, keys[0], loader).value;
      LoadAllConsistent(l.cache, keys[1..], loader);
      LoaderRunsOnce(l.cache, keys[1..], loader);
      var s := LoadAll(l.cache, keys[1..], loader).value;
      assert keys[0] in l.cache;
      forall i | 0 <= i < |keys|
        ensures keys[i] in s.cache && LoadAll(cache, keys, loader).value.values[i] == s.cache[keys[i]]
      {
        if i > 0 {
          assert keys[i] == keys[1..][i - 1];
        }
      }
    }
  }
}

/** The scoreboard HUD's sidebar: which scores are shown (the visible ones,
    best first, at most 15), how wide and tall the box is, and where the
    title and each row are drawn. Text widths come from the font and are
    given. */
module Scoreboard {
  import opened Base

  const MaxRows := 15
  const LineHeight := 9

  /** One score of the objective: its holder, its value, whether it is
      hidden, and the font widths of its decorated name and its number. */
  datatype Entry = Entry(owner: string, value: int, hidden: bool, nameWidth: nat, scoreWidth: nat)

  // ---------------------------------------------------------------------------
  // Ordering
  // ---------------------------------------------------------------------------

  /** Lexicographic order on character codes, a shorter prefix first. */
  predicate LexLe(a: string, b: string)
    decreases |a|
  {
    |a| == 0 || (|b| > 0 && (a[0] < b[0] || (a[0] == b[0] && LexLe(a[1..], b[1..]))))
  }

  lemma {:induction false} LexLeTotal(a: string, b: string)
    ensures LexLe(a, b) || LexLe(b, a)
    decreases |a|
  {
    if |a| > 0 && |b| > 0 && a[0] == b[0] {
      LexLeTotal(a[1..], b[1..]);
    }
  }

  lemma {:induction false} LexLeTrans(a: string, b: string, c: string)
    requires LexLe(a, b) && LexLe(b, c)
    ensures LexLe(a, c)
    decreases |a|
  {
    if |a| > 0 && a[0] == b[0] && b[0] == c[0] {
      LexLeTrans(a[1..], b[1..], c[1..]);
    }
  }

  /** The sidebar's order: higher value first, then the holder's name
      compared ignoring case (for the ASCII letters). */
  predicate RankLe(a: Entry, b: Entry) {
    a.value > b.value || (a.value == b.value && LexLe(LowerStr(a.owner), LowerStr(b.owner)))
  }

  lemma RankLeTotal(a: Entry, b: Entry)
    ensures RankLe(a, b) || RankLe(b, a)
  {
    LexLeTotal(LowerStr(a.owner), LowerStr(b.owner));
  }

  lemma RankLeTrans(a: Entry, b: Entry, c: Entry)
    requires RankLe(a, b) && RankLe(b, c)
    ensures RankLe(a, c)
  {
    if a.value == b.value == c.value {
      LexLeTrans(LowerStr(a.owner), LowerStr(b.owner), LowerStr(c.owner));
    }
  }

  ghost predicate Ranked(s: seq<Entry>) {
    forall i, j :: 0 <= i < j < |s| ==> RankLe(s[i], s[j])
  }

  /** Insert `x` before the first entry it ranks no worse than. */
  function InsertRank(x: Entry, s: seq<Entry>): seq<Entry> {
    if |s| == 0 || RankLe(x, s[0]) then [x] + s else [s[0]] + InsertRank(x, s[1..])
  }

  /** A stable sort into the sidebar's order. */
  function SortRank(s: seq<Entry>): seq<Entry> {
    if |s| == 0 then [] else InsertRank(s[0], SortRank(s[1..]))
  }

  lemma {:induction false} InsertRankKeeps(x: Entry, s: seq<Entry>)
    ensures multiset(InsertRank(x, s)) == multiset(s) + multiset{x}
    ensures |InsertRank(x, s)| == |s| + 1
    decreases |s|
  {
    if |s| > 0 && !RankLe(x, s[0]) {
      InsertRankKeeps(x, s[1..]);
      assert s == [s[0]] + s[1..];
    }
  }

  lemma {:induction false} InsertRankRanked(x: Entry, s: seq<Entry>)
    requires Ranked(s)
    ensures Ranked(InsertRank(x, s))
    decreases |s|
  {
    if |s| == 0 {
    } else if RankLe(x, s[0]) {
      forall e | e in s
        ensures RankLe(x, e)
      {
        var j :| 0 <= j < |s| && s[j] == e;
        if j > 0 {
          RankLeTrans(x, s[0], e);
        }
      }
      RankedCons(x, s);
    } else {
      RankLeTotal(x, s[0]);
      RankedTail(s);
      InsertRankRanked(x, s[1..]);
      InsertRankAbove(x, s);
      RankedCons(s[0], InsertRank(x, s[1..]));
    }
  }

  lemma RankedTail(s: seq<Entry>)
    requires Ranked(s) && |s| > 0
    ensures Ranked(s[1..])
  {
    forall i, j | 0 <= i < j < |s[1..]|
      ensures RankLe(s[1..][i], s[1..][j])
    {
      assert s[1..][i] == s[i + 1] && s[1..][j] == s[j + 1];
    }
  }

  /** Inserting into the tail after its head keeps every element ranked at
      or after the head. */
  lemma InsertRankAbove(x: Entry, s: seq<Entry>)
    requires Ranked(s) && |s| > 0 && RankLe(s[0], x)
    ensures forall e :: e in InsertRank(x, s[1..]) ==> RankLe(s[0], e)
  {
    var t := InsertRank(x, s[1..]);
    InsertRankKeeps(x, s[1..]);
    forall e | e in t
      ensures RankLe(s[0], e)
    {
      assert e in multiset(t);
      if e != x {
        assert e in multiset(s[1..]);
        var j :| 0 <= j < |s[1..]| && s[1..][j] == e;
        assert s[j + 1] == e;
      }
    }
  }

  /** A ranked list behind a head ranked at or before all of it. */
  lemma RankedCons(h: Entry, t: seq<Entry>)
    requires Ranked(t)
    requires forall e :: e in t ==> RankLe(h, e)
    ensures Ranked([h] + t)
  {
    var r := [h] + t;
    forall i, j | 0 <= i < j < |r|
      ensures RankLe(r[i], r[j])
    {
      if i == 0 {
        assert r[j] == t[j - 1] && r[j] in t;
      } else {
        assert r[i] == t[i - 1] && r[j] == t[j - 1];
      }
    }
  }

  lemma SortRankCorrect(s: seq<Entry>)
    ensures Ranked(SortRank(s))
    ensures multiset(SortRank(s)) == multiset(s)
    ensures |SortRank(s)| == |s|
  {
    SortRankRanked(s);
    SortRankKeeps(s);
  }

  lemma {:induction false} SortRankRanked(s: seq<Entry>)
    ensures Ranked(SortRank(s))
    decreases |s|
  {
    if |s| > 0 {
      var t := SortRank(s[1..]);
      assert SortRank(s) == InsertRank(s[0], t);
      SortRankRanked(s[1..]);
      InsertRankRanked(s[0], t);
    }
  }

  lemma {:induction false} SortRankKeeps(s: seq<Entry>)
    ensures multiset(SortRank(s)) == multiset(s)
    ensures |SortRank(s)| == |s|
    decreases |s|
  {
    if |s| > 0 {
      var t := SortRank(s[1..]);
      assert SortRank(s) == InsertRank(s[0], t);
      SortRankKeeps(s[1..]);
      InsertRankKeeps(s[0], t);
      assert s == [s[0]] + s[1..];
    }
  }

  // ---------------------------------------------------------------------------
  // Selection
  // ---------------------------------------------------------------------------

  /** The scores that are not hidden, in their order. */
  function Visible(s: seq<Entry>): seq<Entry> {
    if |s| == 0 then []
    else if s[0].hidden then Visible(s[1..])
    else [s[0]] + Visible(s[1..])
  }

  /** Exactly the scores that are not hidden are kept, each as often as it
      occurs. */
  lemma {:induction false} VisibleKeeps(s: seq<Entry>)
    ensures forall i :: 0 <= i < |Visible(s)| ==> !Visible(s)[i].hidden
    ensures forall e: Entry :: !e.hidden ==> multiset(Visible(s))[e] == multiset(s)[e]
    ensures forall e: Entry :: e.hidden ==> multiset(Visible(s))[e] == 0
    decreases |s|
  {
    if |s| > 0 {
      VisibleKeeps(s[1..]);
      assert s == [s[0]] + s[1..];
    }
  }

  /** The rows shown: the visible scores, best first, cut to 15. */
  function Select(s: seq<Entry>): (r: seq<Entry>)
    ensures |r| == MinInt(MaxRows, |Visible(s)|)
    ensures Ranked(r)
  {
    var sorted := SortRank(Visible(s));
    SortRankCorrect(Visible(s));
    if |sorted| <= MaxRows then sorted
    else
      CutKeepsBest(sorted, MaxRows);
      sorted[..MaxRows]
  }

  /** The rows are visible scores in the sidebar's order, at most 15 of them
      (all of them when there are no more), and no visible score left out
      ranks above one shown. */
  lemma {:induction false} SelectIsTopScores(s: seq<Entry>)
    ensures var r := Select(s);
      && |r| == MinInt(MaxRows, |Visible(s)|)
      && Ranked(r)
      && multiset(r) <= multiset(Visible(s))
      && (forall i :: 0 <= i < |r| ==> !r[i].hidden)
      && (forall e :: e in Visible(s) && e !in r ==> forall i :: 0 <= i < |r| ==> RankLe(r[i], e))
  {
    var v := Visible(s);
    var sorted := SortRank(v);
    SortRankCorrect(v);
    VisibleKeeps(s);
    var r := Select(s);
    if |sorted| > MaxRows {
      CutKeepsBest(sorted, MaxRows);
    } else {
      assert forall e :: e in v ==> e in r by {
        forall e | e in v
          ensures e in r
        {
          assert e in multiset(sorted);
        }
      }
    }
    forall i | 0 <= i < |r|
      ensures !r[i].hidden
    {
      assert r[i] in multiset(v);
    }
  }

  /** Cutting a ranked sequence keeps entries that rank no worse than any it
      drops. */
  lemma CutKeepsBest(sorted: seq<Entry>, n: nat)
    requires Ranked(sorted) && n <= |sorted|
    ensures Ranked(sorted[..n])
    ensures multiset(sorted[..n]) <= multiset(sorted)
    ensures forall e :: e in multiset(sorted) && e !in sorted[..n] ==> forall i :: 0 <= i < n ==> RankLe(sorted[i], e)
  {
    var r := sorted[..n];
    assert sorted == r + sorted[n..];
    assert multiset(sorted) == multiset(r) + multiset(sorted[n..]);
    forall e | e in multiset(sorted) && e !in r
      ensures forall i :: 0 <= i < n ==> RankLe(sorted[i], e)
    {
      assert e in multiset(sorted[n..]);
      var k :| n <= k < |sorted| && sorted[k] == e;
    }
  }

  // ---------------------------------------------------------------------------
  // Layout
  // ---------------------------------------------------------------------------

  /** A row's width: its name, plus ": " and its number when scores are shown
      and the number is not empty. */
  function RowWidth(e: Entry, colonWidth: nat, showScores: bool): nat {
    e.nameWidth + (if e.scoreWidth > 0 && showScores then colonWidth + e.scoreWidth else 0)
  }

  /** The widest of the title and the rows, plus 3. */
  function MaxWidth(titleWidth: nat, rows: seq<Entry>, colonWidth: nat, showScores: bool): (w: nat)
    ensures w >= titleWidth + 3
    ensures forall i :: 0 <= i < |rows| ==> w >= RowWidth(rows[i], colonWidth, showScores) + 3
    ensures w == titleWidth + 3 || exists i :: 0 <= i < |rows| && w == RowWidth(rows[i], colonWidth, showScores) + 3
  {
    if |rows| == 0 then titleWidth + 3
    else
      var rest := MaxWidth(titleWidth, rows[1..], colonWidth, showScores);
      assert forall i :: 1 <= i < |rows| ==> rows[i] == rows[1..][i - 1];
      if RowWidth(rows[0], colonWidth, showScores) + 3 > rest then RowWidth(rows[0], colonWidth, showScores) + 3
      else
        assert rest == titleWidth + 3 || exists i :: 1 <= i < |rows| && rest == RowWidth(rows[i], colonWidth, showScores) + 3 by {
          if rest != titleWidth + 3 {
            var i :| 0 <= i < |rows[1..]| && rest == RowWidth(rows[1..][i], colonWidth, showScores) + 3;
            assert rows[1..][i] == rows[i + 1];
          }
        }
        rest
  }

  /** The box's height for `n` rows: tall enough for the rows, the title
      line and the padding above and below it, with the title starting two
      pixels below the top padding. */
  function BoxHeight(n: nat, topPadding: nat): (h: nat)
    ensures h >= (n + 1) * LineHeight + 2 * topPadding
    ensures TitleY(h, n, topPadding) == topPadding + 2
  {
    n * LineHeight + 10 + topPadding * 2 + 1
  }

  /** The HUD's size, updated only when it changed; the flag says whether the
      bounds have to be recomputed. */
  function Resize(width: int, height: int, newWidth: int, newHeight: int): (r: (int, int, bool))
    ensures r.0 == newWidth && r.1 == newHeight
    ensures r.2 <==> (width, height) != (newWidth, newHeight)
  {
    (newWidth, newHeight, newHeight != height || newWidth != width)
  }

  /** The top of row `v` of `n`, counted up from the box's bottom. */
  function RowY(yEnd: int, n: nat, v: nat): (r: int)
    requires v < n
    ensures yEnd - n * LineHeight <= r && r + LineHeight <= yEnd
    ensures r == yEnd - n * LineHeight + v * LineHeight
  {
    yEnd - (n - v) * LineHeight
  }

  /** The title's top: one line and the padding above the rows. */
  function TitleY(yEnd: int, n: nat, topPadding: nat): (r: int)
    ensures r + LineHeight + topPadding == yEnd - n * LineHeight
  {
    yEnd - n * LineHeight - LineHeight - topPadding
  }

  /** The title's left edge, centred in the text column with Java's integer
      halves. */
  function TitleX(textX: int, maxWidth: nat, titleWidth: nat): (r: int)
    ensures titleWidth <= maxWidth ==> textX <= r && r + titleWidth <= textX + maxWidth
    ensures -1 <= (textX + maxWidth - (r + titleWidth)) - (r - textX) <= 1
  {
    textX + maxWidth / 2 - titleWidth / 2
  }

  /** In a box of the computed height, the title and every row lie inside
      the box, the rows are stacked a line apart with the last one ending at
      the bottom, and the title ends above the first row. */
  lemma LayoutFits(y: int, n: nat, topPadding: nat)
    ensures var yEnd := y + BoxHeight(n, topPadding);
      && y <= TitleY(yEnd, n, topPadding)
      && TitleY(yEnd, n, topPadding) + LineHeight <= yEnd - n * LineHeight
      && (forall v :: 0 <= v < n ==> y <= RowY(yEnd, n, v) && RowY(yEnd, n, v) + LineHeight <= yEnd)
      && (forall v :: 0 <= v < n - 1 ==> RowY(yEnd, n, v + 1) == RowY(yEnd, n, v) + LineHeight)
      && (n > 0 ==> RowY(yEnd, n, n - 1) + LineHeight == yEnd)
  {
    var yEnd := y + BoxHeight(n, topPadding);
    forall v | 0 <= v < n
      ensures y <= RowY(yEnd, n, v) && RowY(yEnd, n, v) + LineHeight <= yEnd
    {
      assert (n - v) * LineHeight <= n * LineHeight;
      assert (n - v) * LineHeight >= LineHeight;
    }
  }

  /** Resizing a second time to the size just set reports no further
      update, so the bounds are recomputed at most once per change. */
  lemma ResizeSettles(width: int, height: int, newWidth: int, newHeight: int)
    ensures var r := Resize(width, height, newWidth, newHeight);
      Resize(r.0, r.1, newWidth, newHeight) == (newWidth, newHeight, false)
  {
  }

  /** After the HUD resizes itself to the box height for its rows, the title
      and every row lie inside its new bounds, a line apart, with the last
      row ending at the bottom. */
  lemma ResizedLayoutFits(y: int, width: int, height: int, newWidth: int, n: nat, topPadding: nat)
    ensures var yEnd := y + Resize(width, height, newWidth, BoxHeight(n, topPadding)).1;
      && y <= TitleY(yEnd, n, topPadding)
      && TitleY(yEnd, n, topPadding) + LineHeight <= yEnd - n * LineHeight
      && (forall v :: 0 <= v < n ==> y <= RowY(yEnd, n, v) && RowY(yEnd, n, v) + LineHeight <= yEnd)
      && (n > 0 ==> RowY(yEnd, n, n - 1) + LineHeight == yEnd)
  {
  }

  /** The centred title stays within the text column. */
  lemma TitleCentred(textX: int, titleWidth: nat, rows: seq<Entry>, colonWidth: nat, showScores: bool)
    ensures var w := MaxWidth(titleWidth, rows, colonWidth, showScores);
      textX <= TitleX(textX, w, titleWidth) && TitleX(textX, w, titleWidth) + titleWidth <= textX + w
  {
  }
}

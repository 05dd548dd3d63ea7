/** The client API's two pieces of string handling: normalising a player's
    UUID to its 32-character undashed form, and building a request's URL from
    the base address, the route, the path segments and the query. */
module Api {
  import opened Base

  // ---------------------------------------------------------------------------
  // UUIDs
  // ---------------------------------------------------------------------------

  /** `validateUUID`: anything but 32 characters is rejected. */
  function ValidateUuid(uuid: string): (r: Result<string, string>)
    ensures r.Ok? <==> |uuid| == 32
    ensures r.Ok? ==> r.value == uuid
  {
    if |uuid| != 32 then Err("IllegalArgumentException") else Ok(uuid)
  }

  /** `sanitizeUUID`: dashes are removed, then the length is checked. */
  function SanitizeUuid(uuid: string): (r: Result<string, string>)
    ensures r.Ok? <==> |RemoveChar(uuid, '-')| == 32
    ensures r.Ok? ==> r.value == RemoveChar(uuid, '-') && |r.value| == 32 && '-' !in r.value
  {
    ReplaceDash(uuid);
    DashFound(uuid);
    if ContainsStr(uuid, "-") then ValidateUuid(ReplaceAll(uuid, "-", ""))
    else ValidateUuid(uuid)
  }

  /** `contains("-")` finds a dash exactly when there is one. */
  lemma DashFound(s: string)
    ensures Contains(s, "-") <==> '-' in s
  {
    if '-' in s {
      var i :| 0 <= i < |s| && s[i] == '-';
      assert s[i..i + 1] == "-";
      assert OccursAt(s, "-", i);
    }
    if Contains(s, "-") {
      var i :| 0 <= i <= |s| - 1 && OccursAt(s, "-", i);
      assert s[i..i + 1][0] == s[i];
    }
  }

  /** `replace("-", "")` removes exactly the dashes. */
  lemma {:induction false} ReplaceDash(s: string)
    ensures ReplaceAll(s, "-", "") == RemoveChar(s, '-')
  {
    if |s| > 0 {
      ReplaceDash(s[1..]);
      assert s[..1] == [s[0]];
    }
  }

  /** Sanitising twice is sanitising once: an accepted UUID is accepted again
      unchanged. */
  lemma SanitizeIdempotent(uuid: string)
    requires SanitizeUuid(uuid).Ok?
    ensures SanitizeUuid(SanitizeUuid(uuid).value) == SanitizeUuid(uuid)
  {
  }

  /** The dashed form `8-4-4-4-12` and the plain 32 hex digits give the same
      UUID. */
  lemma DashesDoNotMatter(a: string, b: string, c: string, d: string, e: string)
    requires |a| == 8 && |b| == 4 && |c| == 4 && |d| == 4 && |e| == 12
    requires '-' !in a && '-' !in b && '-' !in c && '-' !in d && '-' !in e
    ensures SanitizeUuid(a + "-" + b + "-" + c + "-" + d + "-" + e) == Ok(a + b + c + d + e)
  {
    var ab := a + "-" + b;
    var abc := ab + "-" + c;
    var abcd := abc + "-" + d;
    DashJoin(a, b);
    DashJoin(ab, c);
    DashJoin(abc, d);
    DashJoin(abcd, e);
  }

  /** Two dash-free pieces around one dash. */
  lemma DashJoin(p: string, q: string)
    ensures RemoveChar(p + "-" + q, '-') == RemoveChar(p, '-') + RemoveChar(q, '-')
  {
    RemoveCharConcat(p + "-", q);
    RemoveCharConcat(p, "-");
  }

  lemma {:induction false} RemoveCharConcat(p: string, q: string)
    ensures RemoveChar(p + q, '-') == RemoveChar(p, '-') + RemoveChar(q, '-')
  {
    if |p| > 0 {
      var rest := RemoveChar(p[1..], '-');
      assert (p + q)[0] == p[0];
      assert (p + q)[1..] == p[1..] + q;
      RemoveCharConcat(p[1..], q);
      if p[0] != '-' {
        assert [p[0]] + (rest + RemoveChar(q, '-')) == ([p[0]] + rest) + RemoveChar(q, '-');
      }
    } else {
      assert p + q == q;
    }
  }

  // ---------------------------------------------------------------------------
  // Request URLs
  // ---------------------------------------------------------------------------

  /** One query entry, in the order the request's query map yields them. */
  datatype Param = Param(key: string, value: string)

  /** The base address, the route's path, then "/" and each path segment. */
  function PathPart(base: string, route: string, path: seq<string>): (s: string)
    ensures |s| >= |base| + |route| && s[..|base| + |route|] == base + route
    decreases |path|
  {
    if |path| == 0 then base + route
    else
      var p := PathPart(base, route, path[..|path| - 1]) + "/" + path[|path| - 1];
      assert p[..|base| + |route|] == PathPart(base, route, path[..|path| - 1])[..|base| + |route|];
      p
  }

  /** `getUrl` as written: after the "?", each entry first appends "&" if the
      text so far ends in "?", then "key=value". Only the first entry is
      preceded by "&"; later ones are glued to the previous value. */
  function GetUrlAsWritten(base: string, route: string, path: seq<string>, query: seq<Param>): (url: string)
    ensures |query| == 0 ==> url == PathPart(base, route, path)
    ensures |query| > 0 ==> url == PathPart(base, route, path) + "?" + QueryAsWritten(PathPart(base, route, path) + "?", query)
  {
    var p := PathPart(base, route, path);
    if |query| == 0 then p else p + "?" + QueryAsWritten(p + "?", query)
  }

  /** The text the query loop appends after `prefix`. */
  function QueryAsWritten(prefix: string, query: seq<Param>): string
    decreases |query|
  {
    if |query| == 0 then ""
    else
      var pair := Sep(prefix) + Entry(query[0]);
      pair + QueryAsWritten(prefix + pair, query[1..])
  }

  /** The loop's check on the text so far. */
  function Sep(prefix: string): string {
    if |prefix| > 0 && prefix[|prefix| - 1] == '?' then "&" else ""
  }

  /** The query entries, "key=value" each, separated by "&". */
  function JoinParams(query: seq<Param>): string
    decreases |query|
  {
    if |query| == 0 then ""
    else if |query| == 1 then query[0].key + "=" + query[0].value
    else query[0].key + "=" + query[0].value + "&" + JoinParams(query[1..])
  }

  /** `getUrl` as the separator is evidently meant: "?" then the entries
      joined by "&". */
  function GetUrl(base: string, route: string, path: seq<string>, query: seq<Param>): (url: string)
    ensures |query| == 0 ==> url == PathPart(base, route, path)
    ensures |query| > 0 ==> url == PathPart(base, route, path) + "?" + JoinParams(query)
  {
    var p := PathPart(base, route, path);
    if |query| == 0 then p else p + "?" + JoinParams(query)
  }

  /** Cutting a text at each "&". */
  function SplitAmp(s: string): (parts: seq<string>)
    ensures |parts| > 0
    decreases |s|
  {
    if |s| == 0 then [""]
    else
      var rest := SplitAmp(s[1..]);
      if s[0] == '&' then [""] + rest
      else [[s[0]] + rest[0]] + rest[1..]
  }

  lemma {:induction false} SplitPlain(x: string, t: string)
    requires '&' !in x
    ensures SplitAmp(x + t)[0] == x + SplitAmp(t)[0]
    ensures SplitAmp(x + t)[1..] == SplitAmp(t)[1..]
    decreases |x|
  {
    if |x| > 0 {
      assert (x + t)[1..] == x[1..] + t;
      assert x[1..] + t == (x + t)[1..];
      SplitPlain(x[1..], t);
      assert x == [x[0]] + x[1..];
    } else {
      assert x + t == t;
    }
  }

  function Entry(p: Param): string {
    p.key + "=" + p.value
  }

  predicate NoAmp(query: seq<Param>) {
    forall i :: 0 <= i < |query| ==> '&' !in Entry(query[i])
  }

  /** With the separator in place, cutting the query at "&" gives back the
      entries one by one, whenever no key or value holds an "&" itself. */
  lemma {:induction false} JoinSplits(query: seq<Param>)
    requires |query| > 0 && NoAmp(query)
    ensures |SplitAmp(JoinParams(query))| == |query|
    ensures forall i :: 0 <= i < |query| ==> SplitAmp(JoinParams(query))[i] == Entry(query[i])
    decreases |query|
  {
    var e := Entry(query[0]);
    assert '&' !in e;
    if |query| == 1 {
      SplitPlain(e, "");
      assert e + "" == e;
      assert SplitAmp(e) == [e];
    } else {
      var rest := JoinParams(query[1..]);
      assert NoAmp(query[1..]) by {
        forall i | 0 <= i < |query[1..]|
          ensures '&' !in Entry(query[1..][i])
        {
          assert query[1..][i] == query[i + 1];
        }
      }
      JoinSplits(query[1..]);
      assert JoinParams(query) == e + ("&" + rest);
      SplitPlain(e, "&" + rest);
      assert ("&" + rest)[1..] == rest;
      assert SplitAmp("&" + rest) == [""] + SplitAmp(rest);
      var S := SplitAmp(JoinParams(query));
      assert S[0] == e + "";
      assert S[1..] == SplitAmp(rest);
      forall i | 0 <= i < |query|
        ensures S[i] == Entry(query[i])
      {
        if i > 0 {
          assert S[i] == S[1..][i - 1];
          assert query[i] == query[1..][i - 1];
        }
      }
    }
  }

  /** As written, a query of several entries holds a single "&" however many
      entries there are (when no key or value holds one or ends in "?"), so
      the entries cannot be told apart. */
  lemma {:induction false} AsWrittenOneAmp(prefix: string, query: seq<Param>)
    requires |prefix| > 0 && prefix[|prefix| - 1] != '?' && NoAmp(query)
    requires forall i :: 0 <= i < |query| ==> |query[i].value| > 0 && query[i].value[|query[i].value| - 1] != '?'
    ensures QueryAsWritten(prefix, query) == Glued(query)
    ensures '&' !in QueryAsWritten(prefix, query)
    decreases |query|
  {
    if |query| > 0 {
      var pair := Entry(query[0]);
      assert Sep(prefix) == "";
      assert Sep(prefix) + pair == pair;
      var next := prefix + pair;
      assert next[|next| - 1] == query[0].value[|query[0].value| - 1];
      AsWrittenOneAmp(next, query[1..]);
      assert NoAmp(query[1..]) by {
        forall i | 0 <= i < |query[1..]|
          ensures '&' !in Entry(query[1..][i])
        {
          assert query[1..][i] == query[i + 1];
        }
      }
      assert '&' !in pair;
    }
  }

  /** The entries run together with no separator. */
  function Glued(query: seq<Param>): string
    decreases |query|
  {
    if |query| == 0 then "" else Entry(query[0]) + Glued(query[1..])
  }

  /** Query values the as-written loop treats uniformly: no "&" anywhere in an
      entry, and no value empty or ending in "?". */
  predicate PlainQuery(query: seq<Param>) {
    && NoAmp(query)
    && forall i :: 0 <= i < |query| ==> |query[i].value| > 0 && query[i].value[|query[i].value| - 1] != '?'
  }

  /** As written, the query text is "&" followed by the entries run together,
      so cutting it at "&" yields an empty piece and one glued piece, never
      the entries. */
  lemma {:induction false} GetUrlAsWrittenGluesEntries(base: string, route: string, path: seq<string>, query: seq<Param>)
    requires |query| > 0 && PlainQuery(query)
    ensures var p := PathPart(base, route, path);
      GetUrlAsWritten(base, route, path, query) == p + "?" + ("&" + Glued(query))
    ensures SplitAmp("&" + Glued(query)) == ["", Glued(query)]
  {
    QueryAfterQuestion(PathPart(base, route, path) + "?", query);
    AmpThenPlain(query);
  }

  lemma {:induction false} QueryAfterQuestion(p: string, query: seq<Param>)
    requires |p| > 0 && p[|p| - 1] == '?'
    requires |query| > 0 && PlainQuery(query)
    ensures QueryAsWritten(p, query) == "&" + Glued(query)
  {
    var next := p + ("&" + Entry(query[0]));
    FirstEntryAfterQuestion(p, query);
    NextDoesNotEndInQuestion(p, query);
    TailPlain(query);
    AsWrittenOneAmp(next, query[1..]);
  }

  lemma FirstEntryAfterQuestion(p: string, query: seq<Param>)
    requires |p| > 0 && p[|p| - 1] == '?' && |query| > 0
    ensures QueryAsWritten(p, query) == ("&" + Entry(query[0])) + QueryAsWritten(p + ("&" + Entry(query[0])), query[1..])
    ensures "&" + Glued(query) == ("&" + Entry(query[0])) + Glued(query[1..])
  {
    assert Sep(p) == "&";
  }

  lemma NextDoesNotEndInQuestion(p: string, query: seq<Param>)
    requires |query| > 0 && PlainQuery(query)
    ensures var next := p + ("&" + Entry(query[0])); |next| > 0 && next[|next| - 1] != '?'
  {
    var e := Entry(query[0]);
    LastOf(p, "&" + e);
    LastOf("&", e);
    LastOf(query[0].key + "=", query[0].value);
  }

  lemma TailPlain(query: seq<Param>)
    requires |query| > 0 && PlainQuery(query)
    ensures PlainQuery(query[1..])
  {
    var tail := query[1..];
    forall i | 0 <= i < |tail|
      ensures '&' !in Entry(tail[i]) && |tail[i].value| > 0 && tail[i].value[|tail[i].value| - 1] != '?'
    {
      assert tail[i] == query[i + 1];
    }
  }

  lemma LastOf(a: string, b: string)
    requires |b| > 0
    ensures (a + b)[|a + b| - 1] == b[|b| - 1]
  {
  }

  lemma AmpThenPlain(query: seq<Param>)
    requires NoAmp(query)
    ensures SplitAmp("&" + Glued(query)) == ["", Glued(query)]
  {
    var g := Glued(query);
    GluedPlain(query);
    SplitPlain(g, "");
    assert g + "" == g;
    assert ("&" + g)[1..] == g;
    assert SplitAmp(g) == [g];
  }

  lemma {:induction false} GluedPlain(query: seq<Param>)
    requires NoAmp(query)
    ensures '&' !in Glued(query)
    decreases |query|
  {
    if |query| > 0 {
      assert '&' !in Entry(query[0]);
      assert NoAmp(query[1..]) by {
        forall i | 0 <= i < |query[1..]|
          ensures '&' !in Entry(query[1..][i])
        {
          assert query[1..][i] == query[i + 1];
        }
      }
      GluedPlain(query[1..]);
    }
  }

  /** So the first piece a server reads from the as-written query is empty,
      while the intended query's first piece is the first entry. */
  lemma {:induction false} GetUrlAsWrittenDiffers(query: seq<Param>)
    requires |query| > 0 && PlainQuery(query)
    ensures SplitAmp("&" + Glued(query))[0] == ""
    ensures SplitAmp(JoinParams(query))[0] == Entry(query[0]) != ""
  {
    GetUrlAsWrittenGluesEntries("", "", [], query);
    JoinSplits(query);
    assert |Entry(query[0])| > 0;
  }
}

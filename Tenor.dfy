/** The GIF picker's dealings with the Tenor API that can be stated without
    the network: which URL of a result is shown (app.js:60-71) and which
    query parameters a request carries (app.js:73-86). */
module Tenor {
  import opened Optional

  /** The `url` of each rendition in a result's `media_formats`; None when
      the rendition or its `url` is missing. */
  datatype MediaFormats = MediaFormats(
    nanogif: Option<string>, tinygif: Option<string>, gif: Option<string>, mediumgif: Option<string>)

  /** A search result; `media_formats` may be missing. */
  datatype TenorItem = TenorItem(mediaFormats: Option<MediaFormats>)

  /** The renditions in the order they are preferred: the smallest first. */
  function Preference(fm: MediaFormats): (cs: seq<Option<string>>)
    ensures |cs| == 4
  {
    [fm.nanogif, fm.tinygif, fm.gif, fm.mediumgif]
  }

  /** The index of the first usable entry of `cs`, or `|cs|` if none is. */
  function FirstTruthy(cs: seq<Option<string>>): (k: nat)
    ensures k <= |cs|
    ensures k < |cs| ==> Truthy(cs[k])
    ensures forall j :: 0 <= j < k ==> !Truthy(cs[j])
  {
    if cs == [] then 0
    else if Truthy(cs[0]) then 0
    else 1 + FirstTruthy(cs[1..])
  }

  /** `pickTenorUrl(item)`: the first of nanogif, tinygif, gif, mediumgif
      whose URL is non-empty, or null (None); a null item counts as having
      no formats. */
  function PickTenorUrl(item: Option<TenorItem>): (r: Option<string>)
    ensures item.None? || item.value.mediaFormats.None? ==> r.None?
    ensures r.Some? ==> r.value != []
  {
    if item.None? || item.value.mediaFormats.None? then None
    else
      var fm := item.value.mediaFormats.value;
      if Truthy(fm.nanogif) then fm.nanogif
      else if Truthy(fm.tinygif) then fm.tinygif
      else if Truthy(fm.gif) then fm.gif
      else if Truthy(fm.mediumgif) then fm.mediumgif
      else None
  }

  /** The chain of `||` picks the most preferred usable rendition: the one at
      `FirstTruthy` in preference order, and nothing when none is usable. */
  lemma PickIsMostPreferred(fm: MediaFormats)
    ensures var cs := Preference(fm);
      var k := FirstTruthy(cs);
      PickTenorUrl(Some(TenorItem(Some(fm)))) == (if k < 4 then cs[k] else None)
  {
    var cs := Preference(fm);
    var c1, c2, c3 := cs[1..], cs[2..], cs[3..];
    assert c1[1..] == c2 && c2[1..] == c3 && c3[1..] == [];
    if !Truthy(fm.nanogif) && !Truthy(fm.tinygif) {
      if Truthy(fm.gif) {
        assert FirstTruthy(c2) == 0;
      } else {
        assert FirstTruthy(c3) == (if Truthy(fm.mediumgif) then 0 else 1);
        assert FirstTruthy(c2) == 1 + FirstTruthy(c3);
      }
      assert FirstTruthy(c1) == 1 + FirstTruthy(c2);
    }
  }

  /** The query parameters a Tenor request can carry. */
  datatype ParamName = Key | Limit | MediaFilter | ContentFilter | SearchFilter | Query | Cursor

  /** How each parameter is spelled in the URL. */
  function ParamText(n: ParamName): string {
    match n
    case Key => "key"
    case Limit => "limit"
    case MediaFilter => "media_filter"
    case ContentFilter => "contentfilter"
    case SearchFilter => "searchfilter"
    case Query => "q"
    case Cursor => "pos"
  }

  /** A request to Tenor: the endpoint and the query parameters in the order
      they are set. */
  datatype Request = Request(endpoint: string, params: seq<(ParamName, string)>)

  /** The value of the first parameter called `name`. */
  function Param(params: seq<(ParamName, string)>, name: ParamName): Option<string> {
    if params == [] then None
    else if params[0].0 == name then Some(params[0].1)
    else Param(params[1..], name)
  }

  /** No parameter is set twice: the first is not set again further on, and
      the same holds for the rest. */
  predicate DistinctNames(params: seq<(ParamName, string)>)
    decreases |params|
  {
    params == [] || (Param(params[1..], params[0].0).None? && DistinctNames(params[1..]))
  }

  /** `DistinctNames` means that no two positions carry the same name. */
  lemma {:induction false} DistinctNamesPairwise(params: seq<(ParamName, string)>)
    decreases |params|
    ensures DistinctNames(params) <==> forall i, j :: 0 <= i < j < |params| ==> params[i].0 != params[j].0
  {
    if params != [] {
      var rest := params[1..];
      DistinctNamesPairwise(rest);
      ParamAbsent(rest, params[0].0);
      assert forall k :: 0 <= k < |rest| ==> rest[k] == params[k + 1];
      if DistinctNames(params) {
        forall i, j | 0 <= i < j < |params| ensures params[i].0 != params[j].0 {
          if i > 0 {
            assert rest[i - 1].0 != rest[j - 1].0;
          }
        }
      }
      if forall i, j :: 0 <= i < j < |params| ==> params[i].0 != params[j].0 {
        forall k | 0 <= k < |rest| ensures rest[k].0 != params[0].0 {
          assert params[0].0 != params[k + 1].0;
        }
        forall i, j | 0 <= i < j < |rest| ensures rest[i].0 != rest[j].0 {
          assert params[i + 1].0 != params[j + 1].0;
        }
      }
    }
  }

  /** The parameters set only in some requests, in the order they are set:
      the sticker filter, the query and the pagination cursor. */
  function OptionalParams(kind: string, q: string, pos: Option<string>): seq<(ParamName, string)> {
    var cursor := if Truthy(pos) then [(Cursor, pos.value)] else [];
    var query := if q != [] then [(Query, q)] + cursor else cursor;
    if kind == "stickers" then [(SearchFilter, "sticker")] + query else query
  }

  /** The optional parameters are distinct, none of the fixed ones is among
      them, and each is present exactly in its case. */
  lemma OptionalParamsFacts(kind: string, q: string, pos: Option<string>)
    ensures var t := OptionalParams(kind, q, pos);
      DistinctNames(t) &&
      Param(t, Key).None? && Param(t, Limit).None? && Param(t, MediaFilter).None? && Param(t, ContentFilter).None? &&
      Param(t, SearchFilter) == (if kind == "stickers" then Some("sticker") else None) &&
      Param(t, Query) == (if q != [] then Some(q) else None) &&
      Param(t, Cursor) == (if Truthy(pos) then pos else None)
  {
    var cursor := if Truthy(pos) then [(Cursor, pos.value)] else [];
    var query := if q != [] then [(Query, q)] + cursor else cursor;
    var posPair := (Cursor, if Truthy(pos) then pos.value else "");
    ParamCons(posPair, []);
    assert [posPair] + [] == [posPair];
    ParamCons((Query, q), cursor);
    ParamCons((SearchFilter, "sticker"), query);
  }

  /** The parameters `fetchTenor` sets, in the order it sets them: the API
      key (or "" without one), the fixed limit and filters, then the
      optional ones. */
  function Params(kind: string, q: string, pos: Option<string>, apiKey: Option<string>): seq<(ParamName, string)> {
    [(Key, if apiKey.Some? then apiKey.value else "")] + ([(Limit, "24")] + ([(MediaFilter, "gif")] +
      ([(ContentFilter, "high")] + OptionalParams(kind, q, pos))))
  }

  /** What each name looks up to in the full parameter list, and that no
      name is set twice. */
  lemma ParamsFacts(kind: string, q: string, pos: Option<string>, apiKey: Option<string>)
    ensures var ps := Params(kind, q, pos, apiKey);
      DistinctNames(ps) &&
      Param(ps, Key) == Some(if apiKey.Some? then apiKey.value else "") &&
      Param(ps, Limit) == Some("24") &&
      Param(ps, MediaFilter) == Some("gif") &&
      Param(ps, ContentFilter) == Some("high") &&
      Param(ps, SearchFilter) == (if kind == "stickers" then Some("sticker") else None) &&
      Param(ps, Query) == (if q != [] then Some(q) else None) &&
      Param(ps, Cursor) == (if Truthy(pos) then pos else None)
  {
    var t := OptionalParams(kind, q, pos);
    OptionalParamsFacts(kind, q, pos);
    var p4 := [(ContentFilter, "high")] + t;
    var p3 := [(MediaFilter, "gif")] + p4;
    var p2 := [(Limit, "24")] + p3;
    ParamCons((ContentFilter, "high"), t);
    ParamCons((MediaFilter, "gif"), p4);
    ParamCons((Limit, "24"), p3);
    ParamCons((Key, if apiKey.Some? then apiKey.value else ""), p2);
  }

  /** The request `fetchTenor` builds for a kind, a (trimmed) query, a
      pagination cursor and the API key. */
  function TenorRequest(kind: string, q: string, pos: Option<string>, apiKey: Option<string>): (r: Request)
    ensures r.endpoint == (if q != [] then "search" else "featured")
    ensures DistinctNames(r.params)
    ensures Param(r.params, Key) == Some(if apiKey.Some? then apiKey.value else "")
    ensures Param(r.params, Limit) == Some("24")
    ensures Param(r.params, MediaFilter) == Some("gif")
    ensures Param(r.params, ContentFilter) == Some("high")
    ensures Param(r.params, SearchFilter) == (if kind == "stickers" then Some("sticker") else None)
    ensures Param(r.params, Query) == (if q != [] then Some(q) else None)
    ensures Param(r.params, Cursor) == (if Truthy(pos) then pos else None)
  {
    ParamsFacts(kind, q, pos, apiKey);
    Request(if q != [] then "search" else "featured", Params(kind, q, pos, apiKey))
  }

  /** Looking a name up in a list that starts with `p`, and what the first
      parameter adds to distinctness. */
  lemma ParamCons(p: (ParamName, string), rest: seq<(ParamName, string)>)
    ensures forall name :: Param([p] + rest, name) == if p.0 == name then Some(p.1) else Param(rest, name)
    ensures DistinctNames([p] + rest) <==> DistinctNames(rest) && Param(rest, p.0).None?
  {
    assert ([p] + rest)[1..] == rest;
  }

  /** A name is absent exactly when no parameter carries it. */
  lemma {:induction false} ParamAbsent(params: seq<(ParamName, string)>, name: ParamName)
    ensures Param(params, name).None? <==> forall k :: 0 <= k < |params| ==> params[k].0 != name
  {
    if params != [] {
      ParamAbsent(params[1..], name);
      assert forall k :: 1 <= k < |params| ==> params[k] == params[1..][k - 1];
    }
  }
}

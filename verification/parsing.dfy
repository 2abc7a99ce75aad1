/** What decoding a request computes, stated as functions: the query and
    form-urlencoded items, the multipart boundary, the cookie list, the
    bracketed form-item views, and the effect of `parseBody` on a request. The
    methods of `HttpRequests.HttpRequest` are proved to compute these. */
module RequestParsing {
  import opened Options
  import opened Text
  import opened MultiMap
  import opened Collaborators
  import opened HttpMethods

  // ---------------------------------------------------------------------
  // name=value pairs (query string and form-urlencoded body)

  /** The name field of a `name=value` segment: the text before the first `=`. */
  function NameField(segment: string): string
  {
    Split(segment, '=')[0]
  }

  /** The value field: the text between the first and second `=`, or empty. */
  function ValueField(segment: string): string
  {
    Field(Split(segment, '='), 1)
  }

  /** The item one segment adds: none when its name field is empty, otherwise
      the decoded name and value. */
  function SegmentItem(segment: string, decode: string -> string): seq<Item>
  {
    if NameField(segment) == "" then []
    else [(decode(NameField(segment)), decode(ValueField(segment)))]
  }

  /** The items a list of segments adds, in order. */
  function PairItems(segments: seq<string>, decode: string -> string): seq<Item>
  {
    if |segments| == 0 then []
    else
      var n := |segments| - 1;
      PairItems(segments[..n], decode) + SegmentItem(segments[n], decode)
  }

  /** The segments whose name field is not empty, in order. */
  function NamedSegments(segments: seq<string>): (r: seq<string>)
    ensures forall i :: 0 <= i < |r| ==> NameField(r[i]) != ""
    ensures forall x :: x in r <==> x in segments && NameField(x) != ""
  {
    if |segments| == 0 then []
    else
      var n := |segments| - 1;
      NamedSegments(segments[..n]) + (if NameField(segments[n]) == "" then [] else [segments[n]])
  }

  /** How many segments have a non-empty name that decodes to `name`. */
  function CountNamed(segments: seq<string>, decode: string -> string, name: string): nat
  {
    if |segments| == 0 then 0
    else
      (if NameField(segments[0]) != "" && decode(NameField(segments[0])) == name then 1 else 0)
      + CountNamed(segments[1..], decode, name)
  }

  /** The form items of an `application/x-www-form-urlencoded` body. */
  function FormUrlEncodedItems(body: string, decode: string -> string): (items: seq<Item>)
    ensures body != "" ==> |items| == |NamedSegments(Split(body, '&'))|
  {
    PairItemsAreNamedSegments(Split(body, '&'), decode);
    if body == "" then [] else PairItems(Split(body, '&'), decode)
  }

  /** The query string: the text between the first and second `?` of the path. */
  function QueryString(path: string): string
  {
    Field(Split(path, '?'), 1)
  }

  /** The non-empty `&`-segments of the query string. */
  function QuerySegments(path: string): seq<string>
  {
    SkipEmpty(Split(QueryString(path), '&'))
  }

  /** The query items of a path. */
  function QueryItems(path: string, decode: string -> string): (items: seq<Item>)
    ensures QueryString(path) != "" ==> |items| == |NamedSegments(QuerySegments(path))|
  {
    PairItemsAreNamedSegments(QuerySegments(path), decode);
    if QueryString(path) == "" then [] else PairItems(QuerySegments(path), decode)
  }

  /** The items are exactly the decoded named segments, one each, in order. */
  lemma {:induction false} PairItemsAreNamedSegments(segments: seq<string>, decode: string -> string)
    ensures var items, named := PairItems(segments, decode), NamedSegments(segments);
      && |items| == |named|
      && forall j :: 0 <= j < |named| ==>
           items[j] == (decode(NameField(named[j])), decode(ValueField(named[j])))
  {
    if |segments| > 0 {
      PairItemsAreNamedSegments(segments[..|segments| - 1], decode);
    }
  }

  lemma {:induction false} CountNamedAppend(a: seq<string>, b: seq<string>, decode: string -> string, name: string)
    ensures CountNamed(a + b, decode, name) == CountNamed(a, decode, name) + CountNamed(b, decode, name)
    decreases |a|
  {
    if |a| > 0 {
      CountNamedAppend(a[1..], b, decode, name);
      assert (a + b)[1..] == a[1..] + b;
    } else {
      assert a + b == b;
    }
  }

  /** Every named segment adds an item, duplicates included: a name has as
      many values as there are segments whose name decodes to it. */
  lemma {:induction false} PairItemsKeepDuplicates(segments: seq<string>, decode: string -> string, name: string)
    ensures |Values(PairItems(segments, decode), name)| == CountNamed(segments, decode, name)
  {
    PairItemsCount(segments, decode, name);
    ValuesOfName(PairItems(segments, decode), name);
  }

  lemma {:induction false} PairItemsCount(segments: seq<string>, decode: string -> string, name: string)
    ensures Count(PairItems(segments, decode), name) == CountNamed(segments, decode, name)
  {
    if |segments| > 0 {
      var n := |segments| - 1;
      var init := segments[..n];
      PairItemsCount(init, decode, name);
      CountAppend(PairItems(init, decode), SegmentItem(segments[n], decode), name);
      CountNamedAppend(init, [segments[n]], decode, name);
      assert init + [segments[n]] == segments;
    }
  }

  /** A segment `name=value=rest` adds the decoded name and value; whatever
      follows a second `=` is dropped. */
  lemma SegmentDropsAfterSecondEquals(name: string, value: string, rest: string, decode: string -> string)
    requires name != "" && '=' !in name && '=' !in value
    ensures SegmentItem(name + "=" + value + "=" + rest, decode) == [(decode(name), decode(value))]
  {
    SplitAppend(name, value + "=" + rest, '=');
    SplitAppend(value, rest, '=');
    SplitWithoutSeparator(name, '=');
    SplitWithoutSeparator(value, '=');
    assert name + "=" + value + "=" + rest == name + ['='] + (value + ['='] + rest);
  }

  /** A segment without `=` is a name with an empty value. */
  lemma SegmentWithoutValue(name: string, decode: string -> string)
    requires name != "" && '=' !in name
    ensures SegmentItem(name, decode) == [(decode(name), decode(""))]
  {
    SplitWithoutSeparator(name, '=');
  }

  /** An empty form body adds no item. */
  lemma EmptyBodyAddsNothing(decode: string -> string)
    ensures FormUrlEncodedItems("", decode) == []
  {
  }

  /** The form items of a body are its decoded named `&`-segments, and a name
      has one value per segment that names it. */
  lemma FormItemsOfBody(body: string, decode: string -> string, name: string)
    requires body != ""
    ensures var items, named := FormUrlEncodedItems(body, decode), NamedSegments(Split(body, '&'));
      && |items| == |named|
      && (forall j :: 0 <= j < |named| ==>
            items[j] == (decode(NameField(named[j])), decode(ValueField(named[j]))))
      && |Values(items, name)| == CountNamed(Split(body, '&'), decode, name)
  {
    PairItemsAreNamedSegments(Split(body, '&'), decode);
    PairItemsKeepDuplicates(Split(body, '&'), decode, name);
  }

  /** The query string is the text between the first and second `?`. */
  lemma QueryStringBetweenMarks(before: string, query: string, after: string)
    requires '?' !in before && '?' !in query
    ensures QueryString(before + "?" + query) == query
    ensures QueryString(before + "?" + query + "?" + after) == query
  {
    SplitAppend(before, query, '?');
    SplitWithoutSeparator(before, '?');
    SplitWithoutSeparator(query, '?');
    SplitAppend(query, after, '?');
    SplitAppend(before, query + "?" + after, '?');
    assert before + "?" + query + "?" + after == before + ['?'] + (query + ['?'] + after);
  }

  /** A path without `?` has no query items. */
  lemma NoQueryWithoutMark(path: string, decode: string -> string)
    requires '?' !in path
    ensures QueryItems(path, decode) == []
  {
    SplitWithoutSeparator(path, '?');
  }

  /** The query items are the decoded named non-empty segments, and a name has
      one value per segment that names it. */
  lemma QueryItemsOfPath(path: string, decode: string -> string, name: string)
    ensures var items, named := QueryItems(path, decode), NamedSegments(QuerySegments(path));
      && |items| == |named|
      && (forall j :: 0 <= j < |named| ==>
            items[j] == (decode(NameField(named[j])), decode(ValueField(named[j]))))
      && |Values(items, name)| == CountNamed(QuerySegments(path), decode, name)
  {
    PairItemsAreNamedSegments(QuerySegments(path), decode);
    PairItemsKeepDuplicates(QuerySegments(path), decode, name);
    if QueryString(path) == "" {
      assert Split("", '&') == [""];
      assert QuerySegments(path) == [];
    }
  }

  /** Text free of the query delimiters `?`, `&` and `=`. */
  predicate Plain(s: string)
  {
    '?' !in s && '&' !in s && '=' !in s
  }

  /** A `name=value` segment of plain texts adds that decoded pair. */
  lemma SegmentWithValue(name: string, value: string, decode: string -> string)
    requires name != "" && Plain(name) && Plain(value)
    ensures SegmentItem(name + "=" + value, decode) == [(decode(name), decode(value))]
  {
    SplitAppend(name, value, '=');
    SplitWithoutSeparator(name, '=');
    SplitWithoutSeparator(value, '=');
  }

  /** A `name=value` segment of plain texts holds neither `&` nor `?`. */
  lemma PlainSegment(name: string, value: string)
    requires Plain(name) && Plain(value)
    ensures '&' !in name + "=" + value && '?' !in name + "=" + value
  {
    assert forall c :: c in name + "=" + value ==> c in name || c == '=' || c in value;
  }

  /** Two non-empty `&`-free segments joined by `&` split back into both. */
  lemma TwoSegments(p1: string, p2: string)
    requires p1 != "" && p2 != "" && '&' !in p1 && '&' !in p2
    ensures SkipEmpty(Split(p1 + "&" + p2, '&')) == [p1, p2]
  {
    assert p1 + "&" + p2 == p1 + ['&'] + p2;
    SplitAppend(p1, p2, '&');
    SplitWithoutSeparator(p1, '&');
    SplitWithoutSeparator(p2, '&');
    SkipEmptyOfTwo(p1, p2);
  }

  lemma SkipEmptyOfTwo(p1: string, p2: string)
    requires p1 != "" && p2 != ""
    ensures SkipEmpty([p1] + [p2]) == [p1, p2]
  {
    var parts := [p1] + [p2];
    assert parts[..1] == [p1] && [p1][..0] == [];
    assert SkipEmpty([p1]) == [p1];
  }

  /** Two segments add the items of the first, then those of the second. */
  lemma PairItemsOfTwo(p1: string, p2: string, decode: string -> string)
    ensures PairItems([p1, p2], decode) == SegmentItem(p1, decode) + SegmentItem(p2, decode)
  {
    var segs := [p1, p2];
    assert segs[..1] == [p1] && [p1][..0] == [];
    assert PairItems([p1], decode) == PairItems([], decode) + SegmentItem(p1, decode);
    assert PairItems(segs, decode) == PairItems([p1], decode) + SegmentItem(p2, decode);
  }

  /** A query `n1=v1&n2=v2` adds its two pairs, in order, even when the
      names are the same. */
  lemma TwoPairQuery(before: string, n1: string, v1: string, n2: string, v2: string, decode: string -> string)
    requires '?' !in before
    requires n1 != "" && n2 != "" && Plain(n1) && Plain(v1) && Plain(n2) && Plain(v2)
    ensures QueryItems(before + "?" + n1 + "=" + v1 + "&" + n2 + "=" + v2, decode)
      == [(decode(n1), decode(v1)), (decode(n2), decode(v2))]
  {
    var p1, p2 := n1 + "=" + v1, n2 + "=" + v2;
    var q := p1 + "&" + p2;
    PlainSegment(n1, v1);
    PlainSegment(n2, v2);
    assert '?' !in q by {
      assert forall c :: c in q ==> c in p1 || c == '&' || c in p2;
    }
    QueryStringBetweenMarks(before, q, "");
    assert before + "?" + n1 + "=" + v1 + "&" + n2 + "=" + v2 == before + "?" + q;
    TwoSegments(p1, p2);
    PairItemsOfTwo(p1, p2, decode);
    SegmentWithValue(n1, v1, decode);
    SegmentWithValue(n2, v2, decode);
  }

  lemma PlainChar(c: char)
    requires c != '?' && c != '&' && c != '='
    ensures Plain([c])
  {
  }

  /** The query `a=1&a=2` adds the pairs `(a, 1)` and `(a, 2)`, in order. */
  lemma RepeatedQueryItems(decode: string -> string)
    requires decode("a") == "a" && decode("1") == "1" && decode("2") == "2"
    ensures QueryItems("/x?a=1&a=2", decode) == [("a", "1"), ("a", "2")]
  {
    PlainChar('a'); PlainChar('1'); PlainChar('2');
    TwoPairQuery("/x", "a", "1", "a", "2", decode);
    var path := "/x" + "?" + "a" + "=" + "1" + "&" + "a" + "=" + "2";
    assert |path| == 10;
    assert path == "/x?a=1&a=2";
  }

  /** With a query `a=1&a=2` both values are kept; the one that answers
      `queryItemValue("a")` is the later, `2`. */
  lemma RepeatedQueryName(decode: string -> string)
    requires decode("a") == "a" && decode("1") == "1" && decode("2") == "2"
    ensures var items := QueryItems("/x?a=1&a=2", decode);
      && Values(items, "a") == ["2", "1"]
      && Value(items, "a") == "2"
  {
    RepeatedQueryItems(decode);
    RepeatedNameValues([("a", "1"), ("a", "2")]);
  }

  lemma RepeatedNameValues(items: seq<Item>)
    requires items == [("a", "1"), ("a", "2")]
    ensures Values(items, "a") == ["2", "1"] && Value(items, "a") == "2"
  {
    assert items[..1] == [("a", "1")] && items[..1][..0] == [];
  }

  // ---------------------------------------------------------------------
  // multipart boundary

  const MultipartType: string := "multipart/form-data"
  const JsonType: string := "application/json"
  const BoundaryPrefix: string := "boundary="

  /** A `;`-segment that names the boundary once trimmed. */
  predicate IsBoundaryParam(segment: string)
  {
    StartsWithIgnoreCase(Trim(segment, IsTextSpace), BoundaryPrefix)
  }

  /** The index of the first boundary segment, or `|segments|` if none. */
  function FirstBoundaryParam(segments: seq<string>): (k: nat)
    ensures k <= |segments|
    ensures forall j :: 0 <= j < k ==> !IsBoundaryParam(segments[j])
    ensures k < |segments| ==> IsBoundaryParam(segments[k])
  {
    if |segments| == 0 then 0
    else if IsBoundaryParam(segments[0]) then 0
    else 1 + FirstBoundaryParam(segments[1..])
  }

  /** The first boundary segment is the one no earlier segment precedes. */
  lemma {:induction false} FirstBoundaryParamAt(segments: seq<string>, k: nat)
    requires k <= |segments|
    requires forall j :: 0 <= j < k ==> !IsBoundaryParam(segments[j])
    requires k < |segments| ==> IsBoundaryParam(segments[k])
    ensures FirstBoundaryParam(segments) == k
    decreases k
  {
    if k > 0 {
      assert !IsBoundaryParam(segments[0]);
      FirstBoundaryParamAt(segments[1..], k - 1);
    }
  }

  /** The non-empty `;`-segments of the trimmed content type. */
  function ContentTypeParams(contentType: string): seq<string>
  {
    SkipEmpty(Split(Trim(contentType, IsByteSpace), ';'))
  }

  /** `boundary()` for the content-type field `contentType`. */
  function BoundaryOf(contentType: string): (boundary: string)
    ensures boundary != "" ==> |boundary| >= 2 && boundary[..2] == "--"
    ensures !StartsWithIgnoreCase(Trim(contentType, IsByteSpace), MultipartType) ==> boundary == ""
  {
    var ct := Trim(contentType, IsByteSpace);
    if !StartsWithIgnoreCase(ct, MultipartType) then ""
    else
      BoundaryOfParams(ContentTypeParams(contentType))
  }

  /** `--` and the text after `boundary=` in the first boundary segment, or
      the empty text when no segment names the boundary. */
  function BoundaryOfParams(params: seq<string>): string
  {
    var k := FirstBoundaryParam(params);
    if k == |params| then "" else "--" + Trim(params[k], IsTextSpace)[|BoundaryPrefix|..]
  }

  /** The boundary is empty unless the content type is multipart and some
      segment names the boundary; then it is `--` and the text after
      `boundary=` in the first such segment. */
  lemma BoundaryCharacterization(contentType: string)
    ensures var ct, params := Trim(contentType, IsByteSpace), ContentTypeParams(contentType);
      && (BoundaryOf(contentType) != "" <==>
            StartsWithIgnoreCase(ct, MultipartType) && exists j :: 0 <= j < |params| && IsBoundaryParam(params[j]))
      && (BoundaryOf(contentType) != "" ==>
            exists j ::
              && 0 <= j < |params| && IsBoundaryParam(params[j])
              && (forall i :: 0 <= i < j ==> !IsBoundaryParam(params[i]))
              && BoundaryOf(contentType) == "--" + Trim(params[j], IsTextSpace)[|BoundaryPrefix|..])
  {
    var params := ContentTypeParams(contentType);
    var k := FirstBoundaryParam(params);
    if StartsWithIgnoreCase(Trim(contentType, IsByteSpace), MultipartType) && k < |params| {
      assert BoundaryOf(contentType) == "--" + Trim(params[k], IsTextSpace)[|BoundaryPrefix|..];
    }
  }

  // ---------------------------------------------------------------------
  // cookies

  /** The cookies one `;`-segment of the Cookie field yields. */
  function SegmentCookies(segment: string, parseCookies: string -> seq<Cookie>): seq<Cookie>
  {
    var t := Trim(segment, IsByteSpace);
    if t == "" then [] else parseCookies(t)
  }

  /** The name test of `cookie(name)`: the cookie's name is a byte array,
      and comparing it with the text `name` converts it first, which stops at
      its first NUL byte. */
  predicate NameMatches(c: Cookie, name: string)
  {
    UpToNul(c.name) == name
  }

  /** `cookies()` for the Cookie field `field`: the cookies parsed from each
      trimmed, non-empty `;`-segment, in order. */
  function CookiesOf(field: string, parseCookies: string -> seq<Cookie>): (cookies: seq<Cookie>)
    ensures ';' !in field ==> cookies == SegmentCookies(field, parseCookies)
  {
    var f := segment => SegmentCookies(segment, parseCookies);
    assert ';' !in field ==> Split(field, ';') == [field] by {
      if ';' !in field {
        SplitWithoutSeparator(field, ';');
      }
    }
    FlatMapSingle(field, f);
    FlatMap(Split(field, ';'), f)
  }

  /** Two Cookie fields joined by `;` give the cookies of the first followed
      by those of the second. */
  lemma CookiesOfJoin(a: string, b: string, parseCookies: string -> seq<Cookie>)
    ensures CookiesOf(a + ";" + b, parseCookies) == CookiesOf(a, parseCookies) + CookiesOf(b, parseCookies)
  {
    SplitAppend(a, b, ';');
    FlatMapAppend(Split(a, ';'), Split(b, ';'), segment => SegmentCookies(segment, parseCookies));
  }

  /** A segment that is blank once trimmed yields no cookie, whatever the
      cookie parser does. */
  lemma BlankSegmentHasNoCookies(segment: string, parseCookies: string -> seq<Cookie>)
    requires forall i :: 0 <= i < |segment| ==> IsByteSpace(segment[i])
    ensures SegmentCookies(segment, parseCookies) == []
  {
    TrimBlank(segment, IsByteSpace);
  }

  // ---------------------------------------------------------------------
  // bracketed form-item names

  /** The key `formItemList(key)` looks up: `key` with `[]` appended unless it
      already ends in `[]`. */
  function ListKey(key: string): (k: string)
    ensures EndsWith(k, "[]")
    ensures EndsWith(key, "[]") ==> k == key
    ensures !EndsWith(key, "[]") ==> k == key + "[]"
  {
    if EndsWith(key, "[]") then key else key + "[]"
  }

  /** Normalising a list key twice is normalising it once. */
  lemma ListKeyIdempotent(key: string)
    ensures ListKey(ListKey(key)) == ListKey(key)
  {
  }

  /** A sub-key: non-empty and without brackets. */
  predicate IsSubKey(s: string)
  {
    s != "" && '[' !in s && ']' !in s
  }

  /** The sub-key `s` when `name` is exactly `key[s]`. */
  function SubKey(key: string, name: string): Option<string>
  {
    if |name| >= |key| + 3 && name[..|key|] == key && name[|key|] == '[' && name[|name| - 1] == ']'
       && IsSubKey(name[|key| + 1..|name| - 1])
    then Some(name[|key| + 1..|name| - 1])
    else None
  }

  /** `name` has sub-key `s` exactly when it is `key + "[" + s + "]"` with `s`
      a non-empty text without brackets. */
  lemma SubKeyExact(key: string, name: string, s: string)
    ensures SubKey(key, name) == Some(s) <==> name == key + "[" + s + "]" && IsSubKey(s)
  {
    if name == key + "[" + s + "]" {
      assert name[..|key|] == key;
      assert name[|key| + 1..|name| - 1] == s;
    }
    if SubKey(key, name) == Some(s) {
      assert name == name[..|key|] + [name[|key|]] + name[|key| + 1..|name| - 1] + [name[|name| - 1]];
    }
  }

  /** `formItems(key)`: each sub-key `s` of a form item named `key[s]` mapped
      to a value; Qt visits repeated names from newest to oldest and each
      insertion overwrites, so the oldest value wins. */
  function SubItems(items: seq<Item>, key: string): (m: map<string, string>)
    ensures forall s :: s in m ==> IsSubKey(s)
  {
    if |items| == 0 then map[]
    else
      var rest := SubItems(items[1..], key);
      match SubKey(key, items[0].0)
      case None => rest
      case Some(s) => rest[s := items[0].1]
  }

  /** A sub-key is present exactly when some form item is named `key[s]`,
      and its value is that of the first such item. */
  lemma {:induction false} SubItemsCharacterization(items: seq<Item>, key: string, s: string)
    ensures s in SubItems(items, key) <==>
      IsSubKey(s) && exists j :: 0 <= j < |items| && items[j].0 == key + "[" + s + "]"
    ensures s in SubItems(items, key) ==>
      exists j ::
        && 0 <= j < |items| && items[j] == (key + "[" + s + "]", SubItems(items, key)[s])
        && forall i :: 0 <= i < j ==> items[i].0 != key + "[" + s + "]"
  {
    var full := key + "[" + s + "]";
    if |items| > 0 {
      var rest := items[1..];
      SubItemsCharacterization(rest, key, s);
      SubKeyExact(key, items[0].0, s);
      if items[0].0 == full && IsSubKey(s) {
        assert SubItems(items, key)[s] == items[0].1;
      } else {
        assert SubKey(key, items[0].0) != Some(s);
        assert s in SubItems(items, key) <==> s in SubItems(rest, key);
        if s in SubItems(items, key) {
          assert SubItems(items, key)[s] == SubItems(rest, key)[s];
        }
        if exists j :: 0 <= j < |items| && items[j].0 == full {
          var j :| 0 <= j < |items| && items[j].0 == full;
          if IsSubKey(s) { assert rest[j - 1].0 == full; }
        }
        if exists j :: 0 <= j < |rest| && rest[j].0 == full {
          var j :| 0 <= j < |rest| && rest[j].0 == full;
          assert items[j + 1].0 == full;
        }
        if s in SubItems(items, key) {
          var j :|
            && 0 <= j < |rest| && rest[j] == (full, SubItems(rest, key)[s])
            && forall i :: 0 <= i < j ==> rest[i].0 != full;
          assert items[j + 1] == rest[j];
          assert forall i :: 0 <= i < j + 1 ==> items[i].0 != full by {
            forall i | 0 <= i < j + 1 ensures items[i].0 != full {
              if i > 0 { assert items[i] == rest[i - 1]; }
            }
          }
        }
      }
    }
  }

  // ---------------------------------------------------------------------
  // parseBody

  /** The input handed to the multipart decoder. */
  datatype MultipartSource = MultipartSource(body: string, boundary: string)

  /** What decoding stores in a request besides its header. */
  datatype RequestContent = RequestContent(
    queryItems: seq<Item>,
    formItems: seq<Item>,
    multipartFormData: Option<MultipartSource>,
    jsonData: Option<string>)   // the body handed to the JSON parser

  const EmptyContent: RequestContent := RequestContent([], [], None, None)

  /** The POST-specific part of `parseBody`: the body decoded according to
      the trimmed content type. A multipart type replaces the form items with
      the decoder's and records the body with its boundary; a JSON type hands
      the body to the JSON parser; any other type appends the body's
      form-urlencoded items. The query items are left alone. */
  function PostBodyEffect(c: RequestContent, h: Header, body: string, codecs: Codecs): (r: RequestContent)
    ensures r.queryItems == c.queryItems
    ensures var ctype, b := Trim(h.contentType, IsByteSpace), BoundaryOf(h.rawHeader("content-type"));
      StartsWithIgnoreCase(ctype, MultipartType) ==>
        && r.formItems == codecs.multipartFormItems(body, b)
        && r.multipartFormData == Some(MultipartSource(body, b))
        && r.jsonData == c.jsonData
    ensures var ctype := Trim(h.contentType, IsByteSpace);
      !StartsWithIgnoreCase(ctype, MultipartType) && StartsWithIgnoreCase(ctype, JsonType) ==>
        && r.jsonData == Some(body)
        && r.formItems == c.formItems
        && r.multipartFormData == c.multipartFormData
    ensures var ctype := Trim(h.contentType, IsByteSpace);
      !StartsWithIgnoreCase(ctype, MultipartType) && !StartsWithIgnoreCase(ctype, JsonType) ==>
        && r.formItems == c.formItems + FormUrlEncodedItems(body, codecs.fromUrlEncoding)
        && r.multipartFormData == c.multipartFormData
        && r.jsonData == c.jsonData
  {
    var ctype := Trim(h.contentType, IsByteSpace);
    if StartsWithIgnoreCase(ctype, MultipartType) then
      var b := BoundaryOf(h.rawHeader("content-type"));
      c.(multipartFormData := Some(MultipartSource(body, b)), formItems := codecs.multipartFormItems(body, b))
    else if StartsWithIgnoreCase(ctype, JsonType) then
      c.(jsonData := Some(body))
    else
      c.(formItems := c.formItems + FormUrlEncodedItems(body, codecs.fromUrlEncoding))
  }

  /** `parseBody`: dispatch on the method as resolved from the current query
      items; a POST decodes its body and then, like a GET, its query; any
      other method changes nothing. */
  function ParseBodyEffect(c: RequestContent, h: Header, body: string, codecs: Codecs): (r: RequestContent)
    ensures var m := Resolve(h.methodToken, c.queryItems);
      && r.queryItems == c.queryItems + (if m == Post || m == Get then QueryItems(h.path, codecs.fromUrlEncoding) else [])
      && (m != Post ==> r.formItems == c.formItems && r.multipartFormData == c.multipartFormData && r.jsonData == c.jsonData)
  {
    match Resolve(h.methodToken, c.queryItems)
    case Post =>
      var p := PostBodyEffect(c, h, body, codecs);
      p.(queryItems := p.queryItems + QueryItems(h.path, codecs.fromUrlEncoding))
    case Get =>
      c.(queryItems := c.queryItems + QueryItems(h.path, codecs.fromUrlEncoding))
    case _ => c
  }

  /** The content of a request constructed from a header and a body. */
  function DecodeRequest(h: Header, body: string, codecs: Codecs): RequestContent
  {
    ParseBodyEffect(EmptyContent, h, body, codecs)
  }

  /** Only POST and GET add items; every other method leaves the content as
      it was. A POST always parses the query after its body, and a GET
      touches nothing but the query items. */
  lemma ParseBodyDispatch(c: RequestContent, h: Header, body: string, codecs: Codecs)
    ensures var m, r := Resolve(h.methodToken, c.queryItems), ParseBodyEffect(c, h, body, codecs);
      && (m != Post && m != Get ==> r == c)
      && (m == Get ==> r == c.(queryItems := c.queryItems + QueryItems(h.path, codecs.fromUrlEncoding)))
      && (m == Post ==> r.queryItems == c.queryItems + QueryItems(h.path, codecs.fromUrlEncoding))
  {
  }

  /** A new request dispatches on the header verb alone: a `_method` item in
      its own query cannot redirect the decoding. Verbs other than GET and POST
      leave both item lists empty. */
  lemma DecodeDispatchesOnVerb(h: Header, body: string, codecs: Codecs)
    ensures var verb, r := VerbKey(h.methodToken), DecodeRequest(h, body, codecs);
      && (verb != "get" && verb != "post" ==> r == EmptyContent)
      && (verb == "get" ==> r == EmptyContent.(queryItems := QueryItems(h.path, codecs.fromUrlEncoding)))
      && (verb == "post" ==> r.queryItems == QueryItems(h.path, codecs.fromUrlEncoding))
  {
    ResolveWithoutQuery(h.methodToken);
    TableEntryNames(VerbKey(h.methodToken));
  }

  /** A multipart POST gets the multipart decoder's items as its form items
      and keeps the body with the boundary of its content-type field. */
  lemma DecodeMultipartPost(h: Header, body: string, codecs: Codecs)
    requires VerbKey(h.methodToken) == "post"
    requires StartsWithIgnoreCase(Trim(h.contentType, IsByteSpace), MultipartType)
    ensures var b, r := BoundaryOf(h.rawHeader("content-type")), DecodeRequest(h, body, codecs);
      && r.formItems == codecs.multipartFormItems(body, b)
      && r.multipartFormData == Some(MultipartSource(body, b))
      && r.jsonData == None
  {
    ResolveWithoutQuery(h.methodToken);
  }

  /** A JSON POST hands its body to the JSON parser and has no form items
      and no multipart data. */
  lemma DecodeJsonPost(h: Header, body: string, codecs: Codecs)
    requires VerbKey(h.methodToken) == "post"
    requires !StartsWithIgnoreCase(Trim(h.contentType, IsByteSpace), MultipartType)
    requires StartsWithIgnoreCase(Trim(h.contentType, IsByteSpace), JsonType)
    ensures DecodeRequest(h, body, codecs).jsonData == Some(body)
    ensures DecodeRequest(h, body, codecs).formItems == []
    ensures DecodeRequest(h, body, codecs).multipartFormData == None
  {
    ResolveWithoutQuery(h.methodToken);
  }

  /** A form-urlencoded POST gets its body's items as form items. */
  lemma DecodeFormPost(h: Header, body: string, codecs: Codecs)
    requires VerbKey(h.methodToken) == "post"
    requires !StartsWithIgnoreCase(Trim(h.contentType, IsByteSpace), MultipartType)
    requires !StartsWithIgnoreCase(Trim(h.contentType, IsByteSpace), JsonType)
    ensures DecodeRequest(h, body, codecs).formItems == FormUrlEncodedItems(body, codecs.fromUrlEncoding)
    ensures DecodeRequest(h, body, codecs).multipartFormData == None
    ensures DecodeRequest(h, body, codecs).jsonData == None
  {
    ResolveWithoutQuery(h.methodToken);
  }
}

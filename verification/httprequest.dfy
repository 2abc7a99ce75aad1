/** `THttpRequest`: a request decoded from a header and a body. The
    constructor fills the query and form items in place through `ParseBody`;
    the accessors read them; `Generate` frames a buffer of pipelined requests. */
module HttpRequests {
  import opened Options
  import opened Text
  import opened MultiMap
  import opened Collaborators
  import opened HttpMethods
  import opened RequestParsing
  import opened Framing

  class HttpRequest {
    var header: Header
    var queryItems: seq<Item>
    var formItems: seq<Item>
    var multipartFormData: Option<MultipartSource>
    var jsonData: Option<string>

    /** Everything decoding stores, as one value. */
    function Content(): RequestContent
      reads this
    {
      RequestContent(queryItems, formItems, multipartFormData, jsonData)
    }

    /** Builds the request for `header` and `body` and decodes the body. */
    constructor (header: Header, body: string, codecs: Codecs)
      ensures this.header == header
      ensures Content() == DecodeRequest(header, body, codecs)
    {
      this.header := header;
      queryItems := [];
      formItems := [];
      multipartFormData := None;
      jsonData := None;
      new;
      ParseBody(body, codecs);
    }

    /** `method()`. */
    function Method(): (m: HttpMethod)
      reads this
      ensures m == Invalid <==> VerbKey(header.methodToken) !in MethodTable
      ensures m != Invalid ==> m in MethodTable.Values
    {
      ResolveInvalid(header.methodToken, queryItems);
      Resolve(header.methodToken, queryItems)
    }

    /** `parseBody`: a POST decodes its body by content type and then, like a
        GET, its query string; other methods leave the request as it is. */
    method ParseBody(body: string, codecs: Codecs)
      modifies this
      ensures header == old(header)
      ensures Content() == ParseBodyEffect(old(Content()), header, body, codecs)
    {
      var m := Method();
      if m == Post {
        var ctype := Trim(header.contentType, IsByteSpace);
        if StartsWithIgnoreCase(ctype, MultipartType) {
          var b := Boundary();
          multipartFormData := Some(MultipartSource(body, b));
          formItems := codecs.multipartFormItems(body, b);
        } else if StartsWithIgnoreCase(ctype, JsonType) {
          jsonData := Some(body);
        } else if body != "" {
          AddFormItems(body, codecs.fromUrlEncoding);
        }
      }
      if m == Post || m == Get {
        AddQueryItems(codecs.fromUrlEncoding);
      }
    }

    /** The form-urlencoded loop of `parseBody`: one item per `&`-segment
        with a non-empty name, appended in order. */
    method AddFormItems(body: string, decode: string -> string)
      modifies this
      ensures formItems == old(formItems) + PairItems(Split(body, '&'), decode)
      ensures header == old(header) && queryItems == old(queryItems)
      ensures multipartFormData == old(multipartFormData) && jsonData == old(jsonData)
    {
      var formdata := Split(body, '&');
      var i := 0;
      while i < |formdata|
        invariant 0 <= i <= |formdata|
        invariant formItems == old(formItems) + PairItems(formdata[..i], decode)
        invariant header == old(header) && queryItems == old(queryItems)
        invariant multipartFormData == old(multipartFormData) && jsonData == old(jsonData)
      {
        var nameval := Split(formdata[i], '=');
        if nameval[0] != "" {
          var key := decode(nameval[0]);
          var val := decode(Field(nameval, 1));
          formItems := formItems + [(key, val)];
        }
        assert formdata[..i + 1][..i] == formdata[..i];
        i := i + 1;
      }
      assert formdata[..i] == formdata;
    }

    /** The query loop of `parseBody`: the text between the first and second
        `?` of the path, split on `&` without empty parts, one item per pair
        with a non-empty name. */
    method AddQueryItems(decode: string -> string)
      modifies this
      ensures queryItems == old(queryItems) + QueryItems(header.path, decode)
      ensures header == old(header) && formItems == old(formItems)
      ensures multipartFormData == old(multipartFormData) && jsonData == old(jsonData)
    {
      var data := Split(header.path, '?');
      var getdata := Field(data, 1);
      if getdata != "" {
        var pairs := SkipEmpty(Split(getdata, '&'));
        var i := 0;
        while i < |pairs|
          invariant 0 <= i <= |pairs|
          invariant queryItems == old(queryItems) + PairItems(pairs[..i], decode)
          invariant header == old(header) && formItems == old(formItems)
          invariant multipartFormData == old(multipartFormData) && jsonData == old(jsonData)
        {
          var s := Split(pairs[i], '=');
          if s[0] != "" {
            var key := decode(s[0]);
            var val := decode(Field(s, 1));
            queryItems := queryItems + [(key, val)];
          }
          assert pairs[..i + 1][..i] == pairs[..i];
          i := i + 1;
        }
        assert pairs[..i] == pairs;
      }
    }

    /** `hasQueryItem(name)`: some query item carries the name. */
    predicate HasQueryItem(name: string)
      reads this
      ensures HasQueryItem(name) <==> Count(queryItems, name) > 0
    {
      ValuesOfName(queryItems, name);
      Contains(queryItems, name)
    }

    /** `queryItemValue(name)`. */
    function QueryItemValue(name: string): (v: string)
      reads this
      ensures HasQueryItem(name) ==> v == AllQueryItemValues(name)[0]
      ensures !HasQueryItem(name) ==> v == ""
    {
      ValuesOfName(queryItems, name);
      Value(queryItems, name)
    }

    /** `queryItemValue(name, defaultValue)`. */
    function QueryItemValueOr(name: string, defaultValue: string): (v: string)
      reads this
      ensures v == if AllQueryItemValues(name) == [] then defaultValue else AllQueryItemValues(name)[0]
    {
      ValueOr(queryItems, name, defaultValue)
    }

    /** `allQueryItemValues(name)`. */
    function AllQueryItemValues(name: string): (values: seq<string>)
      reads this
      ensures |values| == Count(queryItems, name)
      ensures values == [] <==> !HasQueryItem(name)
      ensures forall j :: 0 <= j < |values| ==> InsertedBefore(queryItems, name, values[j], j)
    {
      ValuesOfName(queryItems, name);
      ValuesInOrder(queryItems, name);
      Values(queryItems, name)
    }

    /** `hasFormItem(name)`: some form item carries the name. */
    predicate HasFormItem(name: string)
      reads this
      ensures HasFormItem(name) <==> Count(formItems, name) > 0
    {
      ValuesOfName(formItems, name);
      Contains(formItems, name)
    }

    /** `formItemValue(name)`. */
    function FormItemValue(name: string): (v: string)
      reads this
      ensures HasFormItem(name) ==> v == AllFormItemValues(name)[0]
      ensures !HasFormItem(name) ==> v == ""
    {
      ValuesOfName(formItems, name);
      Value(formItems, name)
    }

    /** `formItemValue(name, defaultValue)`. */
    function FormItemValueOr(name: string, defaultValue: string): (v: string)
      reads this
      ensures v == if AllFormItemValues(name) == [] then defaultValue else AllFormItemValues(name)[0]
    {
      ValueOr(formItems, name, defaultValue)
    }

    /** `allFormItemValues(name)`. */
    function AllFormItemValues(name: string): (values: seq<string>)
      reads this
      ensures |values| == Count(formItems, name)
      ensures values == [] <==> !HasFormItem(name)
      ensures forall j :: 0 <= j < |values| ==> InsertedBefore(formItems, name, values[j], j)
    {
      ValuesOfName(formItems, name);
      ValuesInOrder(formItems, name);
      Values(formItems, name)
    }

    /** `formItemList(key)`: the values of `key[]`, whether or not `key`
        already carries the brackets. */
    function FormItemList(key: string): (values: seq<string>)
      reads this
      ensures |values| == Count(formItems, ListKey(key))
      ensures values == [] <==> !HasFormItem(ListKey(key))
    {
      AllFormItemValues(ListKey(key))
    }

    /** Asking for `key` or for `key[]` gives the same list. */
    lemma FormItemListBracketed(key: string)
      ensures FormItemList(ListKey(key)) == FormItemList(key)
    {
      ListKeyIdempotent(key);
    }

    /** `allParameters()`: the query items united with the form items. */
    function AllParameters(): (params: seq<Item>)
      reads this
      ensures |params| == |queryItems| + |formItems|
      ensures forall name :: Values(params, name) == AllFormItemValues(name) + AllQueryItemValues(name)
    {
      UniteValuesAll(queryItems, formItems);
      Unite(queryItems, formItems)
    }

    /** `parameter(name)`: a form item wins over a query item of that name. */
    function Parameter(name: string): (v: string)
      reads this
      ensures v == if HasFormItem(name) then FormItemValue(name) else QueryItemValue(name)
    {
      UniteValue(queryItems, formItems, name);
      Value(AllParameters(), name)
    }

    /** `formItems(key)`: the form items named `key[s]`, keyed by `s`. Qt
        walks the items sorted by name, repeated names newest first, so the
        walk from the newest item to the oldest here inserts the values of
        each name in the same order. */
    method FormItems(key: string) returns (m: map<string, string>)
      ensures m == SubItems(formItems, key)
    {
      m := map[];
      var i := |formItems|;
      while i > 0
        invariant 0 <= i <= |formItems|
        invariant m == SubItems(formItems[i..], key)
      {
        i := i - 1;
        assert formItems[i..][1..] == formItems[i + 1..];
        match SubKey(key, formItems[i].0) {
          case Some(s) => m := m[s := formItems[i].1];
          case None =>
        }
      }
    }

    /** `boundary()`: `--` and the boundary token of a multipart content type,
        or the empty text. */
    method Boundary() returns (boundary: string)
      ensures boundary == BoundaryOf(header.rawHeader("content-type"))
    {
      boundary := "";
      var contentType := Trim(header.rawHeader("content-type"), IsByteSpace);
      if StartsWithIgnoreCase(contentType, MultipartType) {
        boundary := FirstBoundary(SkipEmpty(Split(contentType, ';')));
      }
    }

    /** The loop of `boundary()` over the content-type segments `lst`. */
    static method FirstBoundary(lst: seq<string>) returns (boundary: string)
      ensures boundary == BoundaryOfParams(lst)
    {
      boundary := "";
      var i := 0;
      while i < |lst|
        invariant 0 <= i <= |lst|
        invariant forall j :: 0 <= j < i ==> !IsBoundaryParam(lst[j])
      {
        var s := Trim(lst[i], IsTextSpace);
        if StartsWithIgnoreCase(s, BoundaryPrefix) {
          boundary := "--" + s[|BoundaryPrefix|..];
          break;
        }
        i := i + 1;
      }
      FirstBoundaryParamAt(lst, i);
    }

    /** `cookies()`: the cookies of every trimmed, non-empty `;`-segment of
        the Cookie field, in order. */
    method Cookies(parseCookies: string -> seq<Cookie>) returns (result: seq<Cookie>)
      ensures result == CookiesOf(header.rawHeader("Cookie"), parseCookies)
    {
      result := [];
      var cookieStrings := Split(header.rawHeader("Cookie"), ';');
      var i := 0;
      while i < |cookieStrings|
        invariant 0 <= i <= |cookieStrings|
        invariant result == FlatMap(cookieStrings[..i], segment => SegmentCookies(segment, parseCookies))
      {
        var ba := Trim(cookieStrings[i], IsByteSpace);
        if ba != "" {
          result := result + parseCookies(ba);
        }
        assert cookieStrings[..i + 1][..i] == cookieStrings[..i];
        i := i + 1;
      }
      assert cookieStrings[..i] == cookieStrings;
    }

    /** `cookie(name)`: the value of the first cookie called `name`, or the
        empty value when there is none. */
    method CookieValue(name: string, parseCookies: string -> seq<Cookie>) returns (value: string)
      ensures var list := CookiesOf(header.rawHeader("Cookie"), parseCookies);
        && ((forall j :: 0 <= j < |list| ==> !NameMatches(list[j], name)) ==> value == "")
        && (forall j :: (0 <= j < |list| && NameMatches(list[j], name)
              && (forall k :: 0 <= k < j ==> !NameMatches(list[k], name))) ==> value == list[j].value)
    {
      var list := Cookies(parseCookies);
      value := FirstCookieValue(list, name);
    }

    /** The scan of `cookie(name)` over the parsed cookie list. */
    static method FirstCookieValue(list: seq<Cookie>, name: string) returns (value: string)
      ensures (forall j :: 0 <= j < |list| ==> !NameMatches(list[j], name)) ==> value == ""
      ensures forall j :: (0 <= j < |list| && NameMatches(list[j], name)
        && (forall k :: 0 <= k < j ==> !NameMatches(list[k], name))) ==> value == list[j].value
    {
      var i := 0;
      while i < |list|
        invariant 0 <= i <= |list|
        invariant forall k :: 0 <= k < i ==> !NameMatches(list[k], name)
      {
        if NameMatches(list[i], name) {
          return list[i].value;
        }
        i := i + 1;
      }
      return "";
    }

    /** `generate`: one request per separator found at an index greater than
        0, each built from the header at the scan position and the body after
        the separator; the scan resumes after that body. */
    static method Generate(buf: string, codecs: Codecs) returns (reqs: seq<HttpRequest>)
      requires Advances(codecs.parseHeader)
      ensures var frames := Frames(buf, 0, codecs.parseHeader);
        && |reqs| == |frames|
        && forall i :: 0 <= i < |reqs| ==> reqs[i].DecodedFrom(frames[i], codecs)
    {
      reqs := [];
      var from: nat := 0;
      ghost var all := Frames(buf, 0, codecs.parseHeader);
      var headidx := IndexOf(buf, Separator, from);
      while headidx > 0
        invariant headidx == IndexOf(buf, Separator, from)
        invariant |reqs| <= |all| && all[|reqs|..] == Frames(buf, from, codecs.parseHeader)
        invariant forall i :: 0 <= i < |reqs| ==> reqs[i].DecodedFrom(all[i], codecs)
        decreases if from <= |buf| then |buf| - from + 1 else 0
      {
        var req, next := RequestAt(buf, from, headidx, codecs);
        ghost var reqs0 := reqs;
        reqs := reqs + [req];
        assert all[|reqs|..] == all[|reqs0|..][1..];
        forall i | 0 <= i < |reqs|
          ensures reqs[i].DecodedFrom(all[i], codecs)
        {
          if i < |reqs0| {
            assert reqs[i] == reqs0[i];
          }
        }
        from := next;
        headidx := IndexOf(buf, Separator, from);
      }
    }

    /** The request holds the header of `frame` and what decoding its body
        stores. */
    ghost predicate DecodedFrom(frame: Frame, codecs: Codecs)
      reads this
    {
      header == frame.header && Content() == DecodeRequest(frame.header, frame.body, codecs)
    }

    /** One step of `generate`: the request built from the header at `from`
        and the body after the separator at `headidx`, and the position where
        the scan resumes. */
    static method RequestAt(buf: string, from: nat, headidx: int, codecs: Codecs) returns (req: HttpRequest, next: nat)
      requires Advances(codecs.parseHeader)
      requires headidx == IndexOf(buf, Separator, from) && headidx > 0
      ensures fresh(req)
      ensures from < next && from < |buf|
      ensures var frames := Frames(buf, from, codecs.parseHeader);
        && |frames| > 0
        && frames[1..] == Frames(buf, next, codecs.parseHeader)
        && req.DecodedFrom(frames[0], codecs)
    {
      var bodyStart := headidx + |Separator|;
      var header := codecs.parseHeader(MidRest(buf, from));
      var contlen := header.contentLength;
      if contlen <= 0 {
        req := new HttpRequest(header, "", codecs);
      } else {
        req := new HttpRequest(header, Mid(buf, bodyStart, contlen), codecs);
      }
      next := bodyStart + contlen;
      FramesTail(buf, from, codecs.parseHeader, headidx, contlen, next);
    }
  }
}

/** Resolution of the request method: the header verb looked up, lower-cased,
    in a fixed table, and for a POST the `_method` query item as override. */
module HttpMethods {
  import opened Text
  import opened MultiMap

  datatype HttpMethod = Invalid | Get | Head | Post | Options | Put | Delete | Trace | Patch

  /** The method table: eight lower-case verbs. */
  const MethodTable: map<string, HttpMethod> := map[
    "get" := Get, "head" := Head, "post" := Post, "options" := Options,
    "put" := Put, "delete" := Delete, "trace" := Trace, "patch" := Patch]

  /** The name of the query item that overrides a POST. */
  const OverrideItem: string := "_method"

  /** The key the verb is looked up by: the header's byte array lower-cased
      byte by byte, then converted to a `QString`, which ends at its first
      NUL byte. */
  function VerbKey(token: string): string
  {
    UpToNul(ToLower(token))
  }

  /** `method()`: the header verb, lower-cased, looked up in the table; a POST
      whose query holds `_method` with a value that is a table key (as is,
      not lower-cased) becomes that method. */
  function Resolve(token: string, queryItems: seq<Item>): (m: HttpMethod)
    ensures m == Invalid || m in MethodTable.Values
    ensures VerbKey(token) in MethodTable && MethodTable[VerbKey(token)] != Post ==> m == MethodTable[VerbKey(token)]
  {
    var s := VerbKey(token);
    if s !in MethodTable then Invalid
    else
      var m := MethodTable[s];
      if m == Post && Contains(queryItems, OverrideItem) && Value(queryItems, OverrideItem) in MethodTable
      then MethodTable[Value(queryItems, OverrideItem)]
      else m
  }

  /** The method is Invalid exactly when the lower-cased verb is not in the
      table; otherwise it is a table entry. */
  lemma ResolveInvalid(token: string, queryItems: seq<Item>)
    ensures Resolve(token, queryItems) == Invalid <==> VerbKey(token) !in MethodTable
    ensures Resolve(token, queryItems) != Invalid ==> Resolve(token, queryItems) in MethodTable.Values
  {
    assert Invalid !in MethodTable.Values by {
      forall k | k in MethodTable ensures MethodTable[k] != Invalid { }
    }
  }

  /** A verb that is not POST is never overridden. */
  lemma ResolveWithoutOverride(token: string, queryItems: seq<Item>)
    requires VerbKey(token) in MethodTable && MethodTable[VerbKey(token)] != Post
    ensures Resolve(token, queryItems) == MethodTable[VerbKey(token)]
  {
  }

  /** For a POST the result differs from Post exactly when `_method` is a
      query item whose latest value is a table key, and then it is that entry. */
  lemma ResolveOverride(token: string, queryItems: seq<Item>)
    requires VerbKey(token) in MethodTable && MethodTable[VerbKey(token)] == Post
    ensures var v := Value(queryItems, OverrideItem);
      Resolve(token, queryItems)
        == if Contains(queryItems, OverrideItem) && v in MethodTable then MethodTable[v] else Post
  {
  }

  /** The verb is compared case-insensitively: any casing of a table key gives
      its entry when there is no override. */
  lemma {:induction false} ResolveIgnoresCase(token: string, queryItems: seq<Item>)
    requires VerbKey(token) == "delete"
    ensures Resolve(token, queryItems) == Delete
  {
  }

  /** The `_method` value is not lower-cased: `DELETE` leaves a POST a POST,
      while `delete` turns it into a DELETE. */
  lemma OverrideIsCaseSensitive()
    ensures Resolve("POST", [(OverrideItem, "DELETE")]) == Post
    ensures Resolve("POST", [(OverrideItem, "delete")]) == Delete
  {
    assert ToLower("POST") == "post";
    assert VerbKey("POST") == "post";
    assert Contains([(OverrideItem, "DELETE")], OverrideItem) by {
      assert [(OverrideItem, "DELETE")][0].0 == OverrideItem;
    }
    assert Contains([(OverrideItem, "delete")], OverrideItem) by {
      assert [(OverrideItem, "delete")][0].0 == OverrideItem;
    }
  }

  /** Only `get` maps to Get and only `post` to Post. */
  lemma TableEntryNames(verb: string)
    ensures verb in MethodTable && MethodTable[verb] == Get <==> verb == "get"
    ensures verb in MethodTable && MethodTable[verb] == Post <==> verb == "post"
  {
  }

  /** With no query items the override cannot apply: the method is the table
      entry of the lower-cased verb. */
  lemma ResolveWithoutQuery(token: string)
    ensures Resolve(token, []) == if VerbKey(token) in MethodTable then MethodTable[VerbKey(token)] else Invalid
  {
  }

  /** The verb is cut at its first NUL byte before the lookup: `GET\0x`
      resolves to Get. */
  lemma VerbCutAtNul()
    ensures Resolve("GET\0x", []) == Get
  {
    assert ToLower("GET\0x") == "get\0x";
    assert UpToNul("get\0x") == "get" by {
      assert UpToNul("\0x") == [];
      assert UpToNul("t\0x") == "t";
      assert UpToNul("et\0x") == "et";
    }
    assert VerbKey("GET\0x") == "get";
  }
}

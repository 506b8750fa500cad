// JSON documents and JSON Pointers (sections 3 and 4 of RFC 6901).
module JsonPointer {
  import opened Order

  /** A JSON value; a number also carries its text in the database and in the browser. */
  datatype Json =
    | JNull
    | JBool(flag: bool)
    | JNumber(number: real, sqlText: string, browserText: string)
    | JString(text: string)
    | JArray(items: seq<Json>)
    | JObject(members: map<string, Json>)

  function EscapeToken(key: string): string {
    if key == "" then ""
    else (if key[0] == '~' then "~0" else if key[0] == '/' then "~1" else [key[0]]) + EscapeToken(key[1..])
  }

  function UnescapeToken(token: string): string
    decreases |token|
  {
    if token == "" then ""
    else if token[0] == '~' && |token| >= 2 && token[1] == '0' then "~" + UnescapeToken(token[2..])
    else if token[0] == '~' && |token| >= 2 && token[1] == '1' then "/" + UnescapeToken(token[2..])
    else [token[0]] + UnescapeToken(token[1..])
  }

  function Pointer(key: string): string { "/" + EscapeToken(key) }

  /** Where a reference token ends: at the next slash or the end of the pointer. */
  function TokenEnd(path: string): (n: nat)
    ensures n <= |path|
  {
    if path == "" || path[0] == '/' then 0 else 1 + TokenEnd(path[1..])
  }

  function Member(json: Json, key: string): Option<Json> {
    if json.JObject? && key in json.members then Some(json.members[key]) else None
  }

  /** The value a pointer names, token by token. */
  function Resolve(path: string, json: Json): Option<Json>
    decreases |path|
  {
    if path == "" then Some(json)
    else if path[0] != '/' then None
    else
      var end := TokenEnd(path[1..]);
      var next := Member(json, UnescapeToken(path[1..][..end]));
      if next.None? then None else Resolve(path[1..][end..], next.value)
  }

  lemma {:induction false} EscapedReads(key: string)
    ensures UnescapeToken(EscapeToken(key)) == key
    ensures TokenEnd(EscapeToken(key)) == |EscapeToken(key)|
  {
    if key != "" {
      EscapedReads(key[1..]);
      var s := EscapeToken(key);
      if key[0] == '~' || key[0] == '/' {
        assert s[1..][1..] == s[2..] == EscapeToken(key[1..]);
      } else {
        assert s[1..] == EscapeToken(key[1..]);
      }
      assert [key[0]] + key[1..] == key;
    }
  }

  /** The pointer built for a key names exactly the member with that literal key, dots, slashes and tildes included. */
  lemma PointerNamesKey(key: string, json: Json)
    ensures Resolve(Pointer(key), json) == Member(json, key)
  {
    EscapedReads(key);
    var path, token := Pointer(key), EscapeToken(key);
    assert path[1..] == token && token[..|token|] == token && token[|token|..] == "";
  }

  /** The escapes of section 3 of RFC 6901. */
  lemma PointerEscapes()
    ensures Pointer("~/.") == "/~0~1."
  {
    assert "~/."[1..] == "/." && "/."[1..] == "." && "."[1..] == "";
  }
}

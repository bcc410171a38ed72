/** The JSON text the cache adapter stores: `json.dumps` on write and
    `json.loads` on read. The model covers the JSON values this service
    writes (null, booleans, strings, arrays and objects), prints them with the
    default separators of `json.dumps` (", " and ": ") and reads them back
    with a recursive-descent decoder that accepts whitespace between tokens. */
module Json {
  import opened Wrappers

  /** A decoded JSON value. Objects keep their members in text order. */
  datatype Json =
    | JNull
    | JBool(b: bool)
    | JStr(s: string)
    | JArr(items: seq<Json>)
    | JObj(members: seq<Field>)

  /** One `"key": value` member of an object. */
  datatype Field = Field(key: string, value: Json)

  /** Python truthiness of a decoded value: None, False, "", [] and {} are false. */
  predicate Truthy(j: Json) {
    match j
    case JNull => false
    case JBool(b) => b
    case JStr(s) => s != []
    case JArr(items) => items != []
    case JObj(members) => members != []
  }

  /** The value an object holds under `key`; as with `json.loads`, the last
      occurrence of a repeated key wins. */
  function Lookup(members: seq<Field>, key: string): (r: Option<Json>)
    ensures r.None? <==> forall i :: 0 <= i < |members| ==> members[i].key != key
    ensures r.Some? ==> exists i :: 0 <= i < |members| && members[i] == Field(key, r.value)
                          && forall k :: i < k < |members| ==> members[k].key != key
  {
    if members == [] then None
    else if members[|members| - 1].key == key then Some(members[|members| - 1].value)
    else Lookup(members[..|members| - 1], key)
  }

  // ---------------------------------------------------------------- encoding

  /** String contents with the quote and the backslash escaped. */
  function Escape(s: string): string {
    if s == [] then []
    else (if s[0] == '"' || s[0] == '\\' then ['\\', s[0]] else [s[0]]) + Escape(s[1..])
  }

  function Quote(s: string): string {
    "\"" + Escape(s) + "\""
  }

  /** The text `json.dumps` produces for `j`. */
  function Encode(j: Json): (text: string)
    decreases j
    ensures text != [] && text[0] in "ntf\"[{"
  {
    match j
    case JNull => "null"
    case JBool(b) => if b then "true" else "false"
    case JStr(s) => Quote(s)
    case JArr(items) => "[" + EncodeItems(items) + "]"
    case JObj(members) => "{" + EncodeMembers(members) + "}"
  }

  function EncodeItems(items: seq<Json>): (text: string)
    decreases items
    ensures items != [] ==> text != [] && text[0] in "ntf\"[{"
  {
    if items == [] then ""
    else if |items| == 1 then Encode(items[0])
    else Encode(items[0]) + ", " + EncodeItems(items[1..])
  }

  function EncodeMembers(members: seq<Field>): (text: string)
    decreases members
    ensures members != [] ==> text != [] && text[0] == '"'
  {
    if members == [] then ""
    else if |members| == 1 then Quote(members[0].key) + ": " + Encode(members[0].value)
    else Quote(members[0].key) + ": " + Encode(members[0].value) + ", " + EncodeMembers(members[1..])
  }

  // ---------------------------------------------------------------- decoding

  predicate IsSpace(c: char) {
    c == ' ' || c == '\t' || c == '\n' || c == '\r'
  }

  function SkipSpace(s: string): (r: string)
    ensures |r| <= |s|
  {
    if s != [] && IsSpace(s[0]) then SkipSpace(s[1..]) else s
  }

  /** Text made of whitespace alone is skipped entirely. */
  lemma {:induction false} SkipAllSpace(s: string)
    ensures (forall i :: 0 <= i < |s| ==> IsSpace(s[i])) ==> SkipSpace(s) == []
  {
    if s != [] {
      SkipAllSpace(s[1..]);
      assert forall i :: 0 <= i < |s[1..]| ==> s[1..][i] == s[i + 1];
    }
  }

  /** Reads string contents up to the closing quote (the opening quote is
      already consumed); returns the contents and the text after the quote. */
  function ParseString(s: string): (r: Option<(string, string)>)
    ensures r.Some? ==> |r.value.1| < |s|
  {
    if s == [] then None
    else if s[0] == '"' then Some(([], s[1..]))
    else if s[0] == '\\' then
      if |s| >= 2 && (s[1] == '"' || s[1] == '\\') then
        match ParseString(s[2..])
        case None => None
        case Some((t, rest)) => Some(([s[1]] + t, rest))
      else None
    else
      match ParseString(s[1..])
      case None => None
      case Some((t, rest)) => Some(([s[0]] + t, rest))
  }

  /** Reads one value after optional whitespace; returns it and the text after it. */
  function ParseValue(s: string): (r: Option<(Json, string)>)
    decreases |s|, 0
    ensures r.Some? ==> |r.value.1| < |s|
  {
    var t := SkipSpace(s);
    if t == [] then None
    else if t[0] == 'n' then
      if |t| >= 4 && t[..4] == "null" then Some((JNull, t[4..])) else None
    else if t[0] == 't' then
      if |t| >= 4 && t[..4] == "true" then Some((JBool(true), t[4..])) else None
    else if t[0] == 'f' then
      if |t| >= 5 && t[..5] == "false" then Some((JBool(false), t[5..])) else None
    else if t[0] == '"' then
      match ParseString(t[1..])
      case None => None
      case Some((str, rest)) => Some((JStr(str), rest))
    else if t[0] == '[' then
      var u := SkipSpace(t[1..]);
      if u != [] && u[0] == ']' then Some((JArr([]), u[1..]))
      else
        match ParseItems(u)
        case None => None
        case Some((items, rest)) => Some((JArr(items), rest))
    else if t[0] == '{' then
      var u := SkipSpace(t[1..]);
      if u != [] && u[0] == '}' then Some((JObj([]), u[1..]))
      else
        match ParseMembers(u)
        case None => None
        case Some((members, rest)) => Some((JObj(members), rest))
    else None
  }

  /** Reads the elements of a non-empty array and its closing bracket. */
  function ParseItems(s: string): (r: Option<(seq<Json>, string)>)
    decreases |s|, 1
    ensures r.Some? ==> |r.value.1| < |s|
  {
    match ParseValue(s)
    case None => None
    case Some((v, rest)) =>
      var u := SkipSpace(rest);
      if u == [] then None
      else if u[0] == ']' then Some(([v], u[1..]))
      else if u[0] == ',' then
        match ParseItems(u[1..])
        case None => None
        case Some((vs, rest')) => Some(([v] + vs, rest'))
      else None
  }

  /** Reads one `"key": value` member. */
  function ParseField(s: string): (r: Option<(Field, string)>)
    decreases |s|, 1
    ensures r.Some? ==> |r.value.1| < |s|
  {
    var t := SkipSpace(s);
    if t == [] || t[0] != '"' then None
    else
      match ParseString(t[1..])
      case None => None
      case Some((key, rest)) =>
        var u := SkipSpace(rest);
        if u == [] || u[0] != ':' then None
        else
          match ParseValue(u[1..])
          case None => None
          case Some((v, rest')) => Some((Field(key, v), rest'))
  }

  /** Reads the members of a non-empty object and its closing brace. */
  function ParseMembers(s: string): (r: Option<(seq<Field>, string)>)
    decreases |s|, 2
    ensures r.Some? ==> |r.value.1| < |s|
  {
    match ParseField(s)
    case None => None
    case Some((f, rest)) =>
      var w := SkipSpace(rest);
      if w == [] then None
      else if w[0] == '}' then Some(([f], w[1..]))
      else if w[0] == ',' then
        match ParseMembers(w[1..])
        case None => None
        case Some((fs, rest')) => Some(([f] + fs, rest'))
      else None
  }

  /** `json.loads`: one value, optionally surrounded by whitespace. None where
      the text is not of that form; unlike `json.loads`, raw control characters
      inside a string are accepted. */
  function Decode(text: string): (r: Option<Json>)
    ensures (forall i :: 0 <= i < |text| ==> IsSpace(text[i])) ==> r.None?
  {
    SkipAllSpace(text);
    match ParseValue(text)
    case None => None
    case Some((j, rest)) => if SkipSpace(rest) == [] then Some(j) else None
  }

  // ---------------------------------------------------------------- round trip

  // The round trip is proved by mutual induction over the value. Each step of
  // the parser it relies on (a comma, a colon, a quoted key, regrouping a
  // concatenation) is a lemma of its own, so that every proof obligation
  // stays small for the solver; several of them hold by unfolding alone.

  lemma {:induction false} ParseQuoted(s: string, rest: string)
    ensures ParseString(Escape(s) + "\"" + rest) == Some((s, rest))
  {
    if s == [] {
      assert Escape(s) + "\"" + rest == "\"" + rest;
    } else {
      ParseQuoted(s[1..], rest);
      var prefix := if s[0] == '"' || s[0] == '\\' then ['\\', s[0]] else [s[0]];
      var tail := Escape(s[1..]) + "\"" + rest;
      assert Escape(s) == prefix + Escape(s[1..]);
      Regroup(prefix, Escape(s[1..]), "\"", rest);
      assert tail == Escape(s[1..]) + ("\"" + rest);
      if s[0] == '"' || s[0] == '\\' {
        ParseStringEscaped(s[0], tail, s[1..], rest);
      } else {
        ParseStringPlain(s[0], tail, s[1..], rest);
      }
      assert [s[0]] + s[1..] == s;
    }
  }

  lemma ParseStringEscaped(c: char, tail: string, t: string, rest: string)
    requires c == '"' || c == '\\'
    requires ParseString(tail) == Some((t, rest))
    ensures ParseString(['\\', c] + tail) == Some(([c] + t, rest))
  {
    assert (['\\', c] + tail)[2..] == tail;
  }

  lemma ParseStringPlain(c: char, tail: string, t: string, rest: string)
    requires c != '"' && c != '\\'
    requires ParseString(tail) == Some((t, rest))
    ensures ParseString([c] + tail) == Some(([c] + t, rest))
  {
    assert ([c] + tail)[1..] == tail;
  }

  lemma SkipSpaceStop(s: string)
    requires s != [] && !IsSpace(s[0])
    ensures SkipSpace(s) == s
  {
  }

  lemma {:induction false} ParseEncoded(j: Json, rest: string)
    decreases j, 0
    ensures ParseValue(Encode(j) + rest) == Some((j, rest))
  {
    var s := Encode(j) + rest;
    SkipSpaceStop(s);
    match j
    case JNull =>
      assert s[4..] == rest;
    case JBool(b) =>
      if b { assert s[4..] == rest; } else { assert s[5..] == rest; }
    case JStr(str) =>
      assert s[1..] == Escape(str) + "\"" + rest;
      ParseQuoted(str, rest);
    case JArr(items) =>
      ParseEncodedArray(items, rest);
    case JObj(members) =>
      ParseEncodedObject(members, rest);
  }

  lemma {:induction false} ParseEncodedArray(items: seq<Json>, rest: string)
    decreases items, 3
    ensures ParseValue(Encode(JArr(items)) + rest) == Some((JArr(items), rest))
  {
    var s := Encode(JArr(items)) + rest;
    SkipSpaceStop(s);
    assert s == "[" + (EncodeItems(items) + ("]" + rest));
    if items == [] {
      assert s[1..] == "]" + rest;
      SkipSpaceStop(s[1..]);
      assert s[1..][1..] == rest;
    } else {
      assert s[1..] == EncodeItems(items) + ("]" + rest);
      SkipSpaceStop(s[1..]);
      ParseEncodedItems(items, rest);
    }
  }

  lemma {:induction false} ParseEncodedObject(members: seq<Field>, rest: string)
    decreases members, 3
    ensures ParseValue(Encode(JObj(members)) + rest) == Some((JObj(members), rest))
  {
    var s := Encode(JObj(members)) + rest;
    SkipSpaceStop(s);
    assert s == "{" + (EncodeMembers(members) + ("}" + rest));
    if members == [] {
      assert s[1..] == "}" + rest;
      SkipSpaceStop(s[1..]);
      assert s[1..][1..] == rest;
    } else {
      assert s[1..] == EncodeMembers(members) + ("}" + rest);
      SkipSpaceStop(s[1..]);
      ParseEncodedMembers(members, rest);
    }
  }

  lemma ParseValueAfterSpace(s: string)
    ensures ParseValue(" " + s) == ParseValue(s)
  {
  }

  lemma ParseFieldAfterSpace(s: string)
    ensures ParseField(" " + s) == ParseField(s)
  {
  }

  lemma ParseMembersAfterSpace(s: string)
    ensures ParseMembers(" " + s) == ParseMembers(s)
  {
    ParseFieldAfterSpace(s);
  }

  lemma ParseItemsAfterSpace(s: string)
    ensures ParseItems(" " + s) == ParseItems(s)
  {
    ParseValueAfterSpace(s);
  }

  lemma ParseItemsLast(s: string, v: Json, rest: string)
    requires ParseValue(s) == Some((v, "]" + rest))
    ensures ParseItems(s) == Some(([v], rest))
  {
  }

  lemma ParseItemsNext(s: string, v: Json, tail: string, vs: seq<Json>, rest: string)
    requires ParseValue(s) == Some((v, ", " + tail))
    requires ParseItems(tail) == Some((vs, rest))
    ensures ParseItems(s) == Some(([v] + vs, rest))
  {
    CommaThenItems(tail, vs, rest);
    ParseItemsComma(s, v, ", " + tail, vs, rest);
  }

  /** After an element, a comma that needs no skipping and more elements. */
  lemma ParseItemsComma(s: string, v: Json, w: string, vs: seq<Json>, rest: string)
    requires ParseValue(s) == Some((v, w))
    requires w != [] && SkipSpace(w) == w && w[0] == ','
    requires ParseItems(w[1..]) == Some((vs, rest))
    ensures ParseItems(s) == Some(([v] + vs, rest))
  {
  }

  lemma CommaThenItems(tail: string, vs: seq<Json>, rest: string)
    requires ParseItems(tail) == Some((vs, rest))
    ensures var w := ", " + tail; SkipSpace(w) == w && w[0] == ',' && ParseItems(w[1..]) == Some((vs, rest))
  {
    var w := ", " + tail;
    SkipSpaceStop(w);
    assert w[1..] == " " + tail;
    ParseItemsAfterSpace(tail);
  }

  lemma EncodeItemsSplit(items: seq<Json>, rest: string)
    requires items != []
    ensures EncodeItems(items) + ("]" + rest) ==
              if |items| == 1 then Encode(items[0]) + ("]" + rest)
              else Encode(items[0]) + (", " + (EncodeItems(items[1..]) + ("]" + rest)))
  {
    if |items| > 1 {
      Regroup(Encode(items[0]), ", ", EncodeItems(items[1..]), "]" + rest);
    }
  }

  lemma {:induction false} ParseEncodedItems(items: seq<Json>, rest: string)
    requires items != []
    decreases items, 2
    ensures ParseItems(EncodeItems(items) + ("]" + rest)) == Some((items, rest))
  {
    var x := items[0];
    var s := EncodeItems(items) + ("]" + rest);
    EncodeItemsSplit(items, rest);
    if |items| == 1 {
      assert s == Encode(x) + ("]" + rest);
      ParseEncoded(x, "]" + rest);
      ParseItemsLast(s, x, rest);
      assert items == [x];
    } else {
      var tail := EncodeItems(items[1..]) + ("]" + rest);
      assert s == Encode(x) + (", " + tail);
      ParseEncoded(x, ", " + tail);
      ParseEncodedItems(items[1..], rest);
      ParseItemsNext(s, x, tail, items[1..], rest);
      assert [x] + items[1..] == items;
    }
  }

  lemma {:induction false} ParseEncodedField(f: Field, after: string)
    decreases f, 1
    ensures ParseField(Quote(f.key) + ": " + Encode(f.value) + after) == Some((f, after))
  {
    ParseEncoded(f.value, after);
    ParseFieldOf(f.key, Encode(f.value) + after, f.value, after);
    Regroup(Quote(f.key), ": ", Encode(f.value), after);
  }

  /** A quoted key, the colon and a value that parses make a member. */
  lemma ParseFieldOf(key: string, w: string, value: Json, after: string)
    requires ParseValue(w) == Some((value, after))
    ensures ParseField(Quote(key) + (": " + w)) == Some((Field(key, value), after))
  {
    QuotedKey(key, ": " + w);
    ColonValue(w, value, after);
    ParseFieldParts(Quote(key) + (": " + w), key, ": " + w, value, after);
  }

  lemma QuotedKey(key: string, tail: string)
    ensures var s := Quote(key) + tail;
      s != [] && SkipSpace(s) == s && s[0] == '"' && ParseString(s[1..]) == Some((key, tail))
  {
    var s := Quote(key) + tail;
    assert s == "\"" + (Escape(key) + "\"" + tail);
    SkipSpaceStop(s);
    assert s[1..] == Escape(key) + "\"" + tail;
    ParseQuoted(key, tail);
  }

  lemma ColonValue(w: string, value: Json, after: string)
    requires ParseValue(w) == Some((value, after))
    ensures var u := ": " + w;
      u != [] && SkipSpace(u) == u && u[0] == ':' && ParseValue(u[1..]) == Some((value, after))
  {
    var u := ": " + w;
    SkipSpaceStop(u);
    assert u[1..] == " " + w;
    ParseValueAfterSpace(w);
  }

  /** A quote, the key's contents, a colon and a value make a member. */
  lemma ParseFieldParts(s: string, key: string, u: string, value: Json, after: string)
    requires s != [] && SkipSpace(s) == s && s[0] == '"'
    requires ParseString(s[1..]) == Some((key, u))
    requires u != [] && SkipSpace(u) == u && u[0] == ':'
    requires ParseValue(u[1..]) == Some((value, after))
    ensures ParseField(s) == Some((Field(key, value), after))
  {
  }

  lemma ParseMembersLast(s: string, f: Field, rest: string)
    requires ParseField(s) == Some((f, "}" + rest))
    ensures ParseMembers(s) == Some(([f], rest))
  {
  }

  lemma ParseMembersNext(s: string, f: Field, tail: string, fs: seq<Field>, rest: string)
    requires ParseField(s) == Some((f, ", " + tail))
    requires ParseMembers(tail) == Some((fs, rest))
    ensures ParseMembers(s) == Some(([f] + fs, rest))
  {
    CommaThenMembers(tail, fs, rest);
    ParseMembersComma(s, f, ", " + tail, fs, rest);
  }

  /** After a member, a comma that needs no skipping and more members. */
  lemma ParseMembersComma(s: string, f: Field, w: string, fs: seq<Field>, rest: string)
    requires ParseField(s) == Some((f, w))
    requires w != [] && SkipSpace(w) == w && w[0] == ','
    requires ParseMembers(w[1..]) == Some((fs, rest))
    ensures ParseMembers(s) == Some(([f] + fs, rest))
  {
  }

  lemma CommaThenMembers(tail: string, fs: seq<Field>, rest: string)
    requires ParseMembers(tail) == Some((fs, rest))
    ensures var w := ", " + tail; SkipSpace(w) == w && w[0] == ',' && ParseMembers(w[1..]) == Some((fs, rest))
  {
    var w := ", " + tail;
    SkipSpaceStop(w);
    assert w[1..] == " " + tail;
    ParseMembersAfterSpace(tail);
  }

  lemma Regroup(a: string, b: string, c: string, d: string)
    ensures a + b + c + d == a + (b + (c + d))
  {
  }

  lemma EncodeMembersSplit(members: seq<Field>, rest: string)
    requires members != []
    ensures var head := Quote(members[0].key) + ": " + Encode(members[0].value);
      EncodeMembers(members) + ("}" + rest) ==
        if |members| == 1 then head + ("}" + rest)
        else head + (", " + (EncodeMembers(members[1..]) + ("}" + rest)))
  {
    var head := Quote(members[0].key) + ": " + Encode(members[0].value);
    if |members| > 1 {
      Regroup(head, ", ", EncodeMembers(members[1..]), "}" + rest);
    }
  }

  lemma {:induction false} ParseEncodedMembers(members: seq<Field>, rest: string)
    requires members != []
    decreases members, 2
    ensures ParseMembers(EncodeMembers(members) + ("}" + rest)) == Some((members, rest))
  {
    var f := members[0];
    if |members| == 1 {
      ParseEncodedField(f, "}" + rest);
      EncodedMembersLast(members, rest);
    } else {
      var tail := EncodeMembers(members[1..]) + ("}" + rest);
      ParseEncodedField(f, ", " + tail);
      ParseEncodedMembers(members[1..], rest);
      EncodedMembersNext(members, rest);
    }
  }

  lemma EncodedMembersLast(members: seq<Field>, rest: string)
    requires |members| == 1
    requires ParseField(Quote(members[0].key) + ": " + Encode(members[0].value) + ("}" + rest))
               == Some((members[0], "}" + rest))
    ensures ParseMembers(EncodeMembers(members) + ("}" + rest)) == Some((members, rest))
  {
    var s := EncodeMembers(members) + ("}" + rest);
    EncodeMembersSplit(members, rest);
    ParseMembersLast(s, members[0], rest);
    assert members == [members[0]];
  }

  lemma EncodedMembersNext(members: seq<Field>, rest: string)
    requires |members| > 1
    requires var tail := EncodeMembers(members[1..]) + ("}" + rest);
      ParseField(Quote(members[0].key) + ": " + Encode(members[0].value) + (", " + tail))
        == Some((members[0], ", " + tail))
    requires ParseMembers(EncodeMembers(members[1..]) + ("}" + rest)) == Some((members[1..], rest))
    ensures ParseMembers(EncodeMembers(members) + ("}" + rest)) == Some((members, rest))
  {
    var tail := EncodeMembers(members[1..]) + ("}" + rest);
    var head := Quote(members[0].key) + ": " + Encode(members[0].value);
    EncodeMembersCons(members, rest);
    ParseMembersNext(head + (", " + tail), members[0], tail, members[1..], rest);
    FirstAndRest(members);
  }

  lemma FirstAndRest<T>(s: seq<T>)
    requires s != []
    ensures [s[0]] + s[1..] == s
  {
  }

  lemma EncodeMembersCons(members: seq<Field>, rest: string)
    requires |members| > 1
    ensures EncodeMembers(members) + ("}" + rest) ==
              Quote(members[0].key) + ": " + Encode(members[0].value) +
              (", " + (EncodeMembers(members[1..]) + ("}" + rest)))
  {
    Regroup(Quote(members[0].key) + ": " + Encode(members[0].value), ", ", EncodeMembers(members[1..]), "}" + rest);
  }

  /** What `json.dumps` writes, `json.loads` reads back unchanged. */
  lemma DecodeEncode(j: Json)
    ensures Decode(Encode(j)) == Some(j)
  {
    ParseEncoded(j, []);
    assert Encode(j) + [] == Encode(j);
  }
}

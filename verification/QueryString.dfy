/** The query strings sent to the Vault (src/vault_client.rs), read back by the rules of section 2.1 of
    RFC 3986 and by splitting at `&` and `=`. */
module QueryString {
  import opened Bits
  import opened Collections
  import Hex

  predicate Kept(b: Byte) {
    || 'A' as int <= b <= 'Z' as int || 'a' as int <= b <= 'z' as int || '0' as int <= b <= '9' as int
    || b == '-' as int || b == '_' as int || b == '.' as int || b == '~' as int || b == ',' as int
  }

  /** The bytes sent as they are: the unreserved characters of section 2.3 of RFC 3986, by their codes, and the
      comma. */
  lemma KeptExactly(b: Byte)
    ensures Kept(b) <==> 0x41 <= b <= 0x5a || 0x61 <= b <= 0x7a || 0x30 <= b <= 0x39 ||
                         b == 0x2d || b == 0x2e || b == 0x5f || b == 0x7e || b == 0x2c
  {
  }

  function UpperDigit(n: Hex.Nibble): char {
    if n < 10 then ('0' as int + n) as char else ('A' as int + n - 10) as char
  }

  function EncodedByte(b: Byte): string {
    if Kept(b) then [b as char] else ['%', UpperDigit(b / 16), UpperDigit(b % 16)]
  }

  function Encoded(raw: seq<Byte>): string {
    if raw == [] then "" else Encoded(raw[..|raw| - 1]) + EncodedByte(raw[|raw| - 1])
  }

  /** `urlencode`: what comes out reads back as what went in, and cannot be taken for a separator. */
  method UrlEncode(raw: seq<Byte>) returns (out: string)
    ensures out == Encoded(raw)
    ensures PercentDecoded(out) == Some(raw)
    ensures '&' !in out && '=' !in out && '#' !in out && '+' !in out && ' ' !in out
  {
    out := "";
    for i := 0 to |raw|
      invariant out == Encoded(raw[..i])
    {
      assert raw[..i + 1][..i] == raw[..i];
      var b := raw[i];
      if Kept(b) {
        out := out + [b as char];
      } else {
        out := out + ['%', UpperDigit(b / 16), UpperDigit(b % 16)];
      }
    }
    assert raw[..|raw|] == raw;
    DecodeEncoded(raw);
    EncodedPlain(raw);
  }

  /** `None` for an escape that is cut short or not hexadecimal, or for a character that is no byte. */
  function PercentDecoded(s: string): Option<seq<Byte>> {
    if s == "" then Some([])
    else if s[0] == '%' then
      if |s| < 3 then None
      else
        var high, low, rest := Hex.ValueOf(s[1]), Hex.ValueOf(s[2]), PercentDecoded(s[3..]);
        if high == None || low == None || rest == None then None
        else Some([Hex.Joined(high.value, low.value)] + rest.value)
    else if s[0] as int >= 256 then None
    else
      var rest := PercentDecoded(s[1..]);
      if rest == None then None else Some([s[0] as int] + rest.value)
  }

  lemma UpperValue(n: Hex.Nibble)
    ensures Hex.ValueOf(UpperDigit(n)) == Some(n)
  {
  }

  /** Decoding takes one encoded byte off the front. */
  lemma {:induction false} DecodeByte(b: Byte, s: string)
    requires PercentDecoded(s).Some?
    ensures PercentDecoded(EncodedByte(b) + s) == Some([b] + PercentDecoded(s).value)
  {
    hide Hex.ValueOf, UpperDigit, Hex.Joined;
    var t := EncodedByte(b) + s;
    if Kept(b) {
      assert t[0] == b as char && t[1..] == s;
    } else {
      assert t[0] == '%' && t[1] == UpperDigit(b / 16) && t[2] == UpperDigit(b % 16) && t[3..] == s;
      UpperValue(b / 16);
      UpperValue(b % 16);
      Hex.Nibbles(b / 16, b % 16, b);
    }
  }

  lemma {:induction false} DecodeOnto(raw: seq<Byte>, s: string)
    requires PercentDecoded(s).Some?
    ensures PercentDecoded(Encoded(raw) + s) == Some(raw + PercentDecoded(s).value)
  {
    hide EncodedByte, PercentDecoded;
    if raw == [] {
      assert Encoded(raw) + s == s && raw + PercentDecoded(s).value == PercentDecoded(s).value;
    } else {
      var front, b := raw[..|raw| - 1], raw[|raw| - 1];
      DecodeByte(b, s);
      DecodeOnto(front, EncodedByte(b) + s);
      assert Encoded(raw) + s == Encoded(front) + (EncodedByte(b) + s);
      assert raw + PercentDecoded(s).value == front + ([b] + PercentDecoded(s).value);
    }
  }

  lemma {:induction false} DecodeEncoded(raw: seq<Byte>)
    ensures PercentDecoded(Encoded(raw)) == Some(raw)
  {
    DecodeOnto(raw, "");
    assert Encoded(raw) + "" == Encoded(raw) && raw + [] == raw;
  }

  predicate Plain(c: char) { c == '%' || (c as int < 256 && Kept(c as int)) }

  lemma {:induction false} EncodedPlain(raw: seq<Byte>)
    ensures forall c :: c in Encoded(raw) ==> Plain(c)
  {
    if raw != [] {
      EncodedPlain(raw[..|raw| - 1]);
      BytePlain(raw[|raw| - 1]);
    }
  }

  lemma BytePlain(b: Byte)
    ensures forall c :: c in EncodedByte(b) ==> Plain(c)
  {
  }

  // ---------------------------------------------------------------- whole queries

  datatype Field = Field(name: string, value: seq<Byte>)

  function FieldText(f: Field): string { f.name + "=" + Encoded(f.value) }

  function Query(fs: seq<Field>): string
    requires fs != []
  {
    if |fs| == 1 then FieldText(fs[0]) else FieldText(fs[0]) + "&" + Query(fs[1..])
  }

  function ParseField(s: string): Option<Field> {
    match SplitOnce(s, '=')
    case None => None
    case Some(parts) =>
      match PercentDecoded(parts.1)
      case None => None
      case Some(value) => Some(Field(parts.0, value))
  }

  function ParseQuery(s: string): Option<seq<Field>>
    decreases |s|
  {
    SplitShorter(s, '&');
    match SplitOnce(s, '&')
    case None =>
      var f := ParseField(s);
      if f == None then None else Some([f.value])
    case Some(parts) =>
      var f, rest := ParseField(parts.0), ParseQuery(parts.1);
      if f == None || rest == None then None else Some([f.value] + rest.value)
  }

  predicate NameOk(name: string) { '&' !in name && '=' !in name }

  lemma FieldReadsBack(f: Field)
    requires NameOk(f.name)
    ensures ParseField(FieldText(f)) == Some(f) && '&' !in FieldText(f)
  {
    EncodedPlain(f.value);
    assert '&' !in Encoded(f.value);
    hide PercentDecoded, Encoded, SplitOnce;
    SplitAtFirst(f.name, '=', Encoded(f.value));
    DecodeEncoded(f.value);
  }

  /** Every field arrives: names and values, in order, whatever bytes the values hold. */
  lemma {:induction false} QueryReadsBack(fs: seq<Field>)
    requires fs != [] && forall f :: f in fs ==> NameOk(f.name)
    ensures ParseQuery(Query(fs)) == Some(fs)
    decreases |fs|
  {
    hide ParseField, FieldText, SplitOnce, NameOk;
    FieldReadsBack(fs[0]);
    if |fs| == 1 {
      NoSplit(Query(fs), '&');
      assert [fs[0]] == fs;
    } else {
      SplitAtFirst(FieldText(fs[0]), '&', Query(fs[1..]));
      QueryReadsBack(fs[1..]);
      assert [fs[0]] + fs[1..] == fs;
    }
  }

  lemma {:induction false} QueryAppended(fs: seq<Field>, gs: seq<Field>)
    requires fs != [] && gs != []
    ensures Query(fs + gs) == Query(fs) + "&" + Query(gs)
    decreases |fs|
  {
    hide FieldText;
    var all := fs + gs;
    if |fs| == 1 {
      assert all[1..] == gs;
    } else {
      assert all[1..] == fs[1..] + gs;
      QueryAppended(fs[1..], gs);
      assert FieldText(fs[0]) + "&" + (Query(fs[1..]) + "&" + Query(gs))
          == FieldText(fs[0]) + "&" + Query(fs[1..]) + "&" + Query(gs);
    }
  }

  predicate KeptChar(c: char) { c as int < 256 && Kept(c as int) }

  predicate Unreserved(s: string) { forall i :: 0 <= i < |s| ==> KeptChar(s[i]) }

  /** The bytes of a text that needs no escape. */
  function Bytes(s: string): seq<Byte>
    requires Unreserved(s)
  {
    if s == "" then [] else Bytes(s[..|s| - 1]) + [s[|s| - 1] as int]
  }

  lemma {:induction false} UnreservedUnchanged(s: string)
    requires Unreserved(s)
    ensures Encoded(Bytes(s)) == s
    decreases |s|
  {
    if s == "" {
      assert Encoded(Bytes(s)) == "";
    } else {
      var n := |s| - 1;
      assert Bytes(s) == Bytes(s[..n]) + [s[n] as int];
      assert EncodedByte(s[n] as int) == [s[n]];
      hide *;
      UnreservedUnchanged(s[..n]);
      EncodedAppended(Bytes(s[..n]), s[n] as int);
      assert s == s[..n] + [s[n]];
    }
  }

  lemma {:induction false} EncodedAppended(raw: seq<Byte>, b: Byte)
    ensures Encoded(raw + [b]) == Encoded(raw) + EncodedByte(b)
  {
    assert (raw + [b])[..|raw|] == raw;
  }

  // ---------------------------------------------------------------- `fetch_ips`

  datatype Name = Groups | Since | IncludeDeleted | IncludeTotal | Limit | Offset

  function NameText(n: Name): string {
    match n
    case Groups => "groups"
    case Since => "since"
    case IncludeDeleted => "include_deleted"
    case IncludeTotal => "include_total"
    case Limit => "limit"
    case Offset => "offset"
  }

  lemma NameTextOk(n: Name)
    ensures NameOk(NameText(n))
  {
  }

  function True(): (s: string)
    ensures Unreserved(s)
  {
    "true"
  }

  function Literal(n: Name, value: string): Field
    requires Unreserved(value)
  {
    Field(NameText(n), Bytes(value))
  }

  /** What a request asks for: the groups and, for a delta, the time it starts from, then the page. Only
      the first page asks for the total. */
  function Fields(groups: seq<Byte>, since: Option<string>, first: bool, limit: string, offset: string): seq<Field>
    requires (since.Some? ==> Unreserved(since.value)) && Unreserved(limit) && Unreserved(offset)
  {
    [Field(NameText(Groups), groups)] +
    (if since.Some? then [Literal(Since, since.value), Literal(IncludeDeleted, True())] else []) +
    (if first then [Literal(IncludeTotal, True())] else []) +
    [Literal(Limit, limit), Literal(Offset, offset)]
  }

  /** What the server finds: these parameters, by name, each once and no other. */
  ghost predicate AsksFor(fs: seq<Field>, groups: seq<Byte>, since: Option<string>, first: bool, limit: string, offset: string)
    requires (since.Some? ==> Unreserved(since.value)) && Unreserved(limit) && Unreserved(offset)
  {
    var yes := [0x74, 0x72, 0x75, 0x65];
    && Field("groups", groups) in fs && Field("limit", Bytes(limit)) in fs && Field("offset", Bytes(offset)) in fs
    && (since.Some? ==> Field("since", Bytes(since.value)) in fs && Field("include_deleted", yes) in fs)
    && (first ==> Field("include_total", yes) in fs)
    && |fs| == 3 + (if since.Some? then 2 else 0) + (if first then 1 else 0)
  }

  lemma TrueBytes()
    ensures Unreserved("true") && Bytes("true") == [0x74, 0x72, 0x75, 0x65]
  {
    var s := "true";
    assert s[..3] == "tru" && "tru"[..2] == "tr" && "tr"[..1] == "t" && "t"[..0] == "";
    assert Bytes("t") == [0x74];
    assert Bytes("tr") == [0x74, 0x72];
    assert Bytes("tru") == [0x74, 0x72, 0x75];
  }

  lemma {:induction false} FieldsAsk(groups: seq<Byte>, since: Option<string>, first: bool, limit: string, offset: string)
    requires (since.Some? ==> Unreserved(since.value)) && Unreserved(limit) && Unreserved(offset)
    ensures AsksFor(Fields(groups, since, first, limit, offset), groups, since, first, limit, offset)
  {
    TrueBytes();
    hide Bytes, Unreserved;
    var fs := Fields(groups, since, first, limit, offset);
    var n := |fs|;
    assert fs[0] == Field("groups", groups) && fs[n - 2] == Field("limit", Bytes(limit)) && fs[n - 1] == Field("offset", Bytes(offset));
    assert since.Some? ==> fs[1] == Field("since", Bytes(since.value)) && fs[2] == Field("include_deleted", Bytes("true"));
    assert first ==> fs[n - 3] == Field("include_total", Bytes("true"));
  }

  method AppendField(query: string, name: Name, value: string, ghost fs: seq<Field>) returns (longer: string)
    requires fs != [] && query == Query(fs) && Unreserved(value)
    ensures longer == Query(fs + [Literal(name, value)])
  {
    hide Encoded, Bytes, NameText, Unreserved, Query;
    UnreservedUnchanged(value);
    QueryAppended(fs, [Literal(name, value)]);
    OneField(Literal(name, value));
    longer := query + "&" + NameText(name) + "=" + value;
    Regrouped(query + "&", NameText(name), "=", value);
  }

  lemma Regrouped(a: string, b: string, c: string, d: string)
    ensures a + b + c + d == a + (b + c + d)
  {
  }

  lemma OneField(f: Field)
    ensures Query([f]) == f.name + "=" + Encoded(f.value)
  {
  }

  /** The query of one page, as the client assembles it (its numerals in decimal): a server that splits
      and decodes it finds the groups and the page exactly as asked for, under the names it knows. */
  method PageQuery(groups: seq<Byte>, since: Option<string>, first: bool, limit: string, offset: string)
    returns (query: string)
    requires (since.Some? ==> Unreserved(since.value)) && Unreserved(limit) && Unreserved(offset)
    ensures ParseQuery(query) == Some(Fields(groups, since, first, limit, offset))
    ensures AsksFor(ParseQuery(query).value, groups, since, first, limit, offset)
  {
    hide Query, Bytes, Encoded, Unreserved, ParseQuery, NameText, Literal, PercentDecoded, NameOk, True, AsksFor;
    FieldsAsk(groups, since, first, limit, offset);
    var text := UrlEncode(groups);
    query := NameText(Groups) + "=" + text;
    ghost var fs := [Field(NameText(Groups), groups)];
    OneField(fs[0]);
    if since.Some? {
      UnreservedUnchanged(since.value);
      var at := UrlEncode(Bytes(since.value));
      query := AppendField(query, Since, at, fs);
      fs := fs + [Literal(Since, at)];
      query := AppendField(query, IncludeDeleted, True(), fs);
      fs := fs + [Literal(IncludeDeleted, True())];
    }
    if first {
      query := AppendField(query, IncludeTotal, True(), fs);
      fs := fs + [Literal(IncludeTotal, True())];
    }
    query := AppendField(query, Limit, limit, fs);
    fs := fs + [Literal(Limit, limit)];
    query := AppendField(query, Offset, offset, fs);
    fs := fs + [Literal(Offset, offset)];
    FieldNamesOk(groups, since, first, limit, offset);
    assert fs == Fields(groups, since, first, limit, offset);
    QueryReadsBack(fs);
  }

  lemma FieldNamesOk(groups: seq<Byte>, since: Option<string>, first: bool, limit: string, offset: string)
    requires (since.Some? ==> Unreserved(since.value)) && Unreserved(limit) && Unreserved(offset)
    ensures forall f :: f in Fields(groups, since, first, limit, offset) ==> NameOk(f.name)
  {
    forall n ensures NameOk(NameText(n)) { NameTextOk(n); }
    hide NameText, NameOk, Bytes, True, Unreserved;
  }
}

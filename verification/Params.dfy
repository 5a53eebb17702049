/**
 * Request parameters: the scanner for key=value lists, the map that compares keys ignoring case,
 * and the request that parses its query and its body once, when a parameter is first asked for.
 */
module Params {
  import opened Bytes
  import opened UrlCoding

  type Text = seq<byte>
  type Field = (Text, Text)

  // ----- Keys -----

  /** What strcasecmp sees of a string: lower case, up to the first NUL. */
  function Fold(s: Text): Text {
    if s == [] || s[0] == 0 then [] else [Lower(s[0])] + Fold(s[1..])
  }

  function At(s: Text): byte { if s == [] then 0 else s[0] }

  /** strcasecmp on NUL-terminated strings. */
  function StrCaseCmp(a: Text, b: Text): int
    decreases |a|
  {
    var x, y := Lower(At(a)), Lower(At(b));
    if x != y then x - y
    else if x == 0 then 0
    else StrCaseCmp(a[1..], b[1..])
  }

  lemma LowerIsZero(c: byte)
    ensures Lower(c) == 0 <==> c == 0
  {
  }

  /** The map's order: two keys count as the same exactly if they are equal once folded. */
  lemma {:induction false} SameKey(a: Text, b: Text)
    ensures StrCaseCmp(a, b) == 0 <==> Fold(a) == Fold(b)
    decreases |a|
  {
    LowerIsZero(At(a));
    LowerIsZero(At(b));
    if At(a) != 0 && At(b) != 0 {
      assert Fold(a)[0] == Lower(a[0]) && Fold(b)[0] == Lower(b[0]);
      assert Fold(a)[1..] == Fold(a[1..]) && Fold(b)[1..] == Fold(b[1..]);
      if Lower(At(a)) == Lower(At(b)) { SameKey(a[1..], b[1..]); }
    }
  }

  lemma {:induction false} OrderIsStrict(a: Text, b: Text)
    ensures StrCaseCmp(a, b) < 0 <==> StrCaseCmp(b, a) > 0
    decreases |a|
  {
    if Lower(At(a)) == Lower(At(b)) && At(a) != 0 { OrderIsStrict(a[1..], b[1..]); }
  }

  lemma {:induction false} OrderIsTransitive(a: Text, b: Text, c: Text)
    requires StrCaseCmp(a, b) <= 0 && StrCaseCmp(b, c) <= 0
    ensures StrCaseCmp(a, c) <= 0
    ensures StrCaseCmp(a, c) == 0 ==> StrCaseCmp(a, b) == 0 && StrCaseCmp(b, c) == 0
    decreases |a|
  {
    if Lower(At(a)) == Lower(At(b)) == Lower(At(c)) && At(a) != 0 { OrderIsTransitive(a[1..], b[1..], c[1..]); }
  }

  // ----- The map -----

  /** A map under that order: one entry for each folded key, with the key as first inserted. */
  type Map = map<Text, Field>

  /** std::map::insert keeps the entry that is there. */
  function Insert(m: Map, f: Field): Map { if Fold(f.0) in m then m else m[Fold(f.0) := f] }

  function InsertAll(m: Map, fields: seq<Field>): Map
    decreases |fields|
  {
    if fields == [] then m else InsertAll(Insert(m, fields[0]), fields[1..])
  }

  function Lookup(m: Map, key: Text, def: Text): Text { if Fold(key) in m then m[Fold(key)].1 else def }

  /** The first field whose key is the same as the given one. */
  function First(fields: seq<Field>, key: Text): (k: nat)
    ensures k <= |fields|
    ensures k < |fields| ==> Fold(fields[k].0) == Fold(key)
    ensures forall i | 0 <= i < k :: Fold(fields[i].0) != Fold(key)
  {
    if fields == [] || Fold(fields[0].0) == Fold(key) then 0 else 1 + First(fields[1..], key)
  }

  /** Earlier entries win: those of the map, then the first field with the key. */
  lemma {:induction false} InsertAllIs(m: Map, fields: seq<Field>, key: Text)
    ensures var k := First(fields, key);
            && (Fold(key) in InsertAll(m, fields) <==> Fold(key) in m || k < |fields|)
            && (Fold(key) in m ==> InsertAll(m, fields)[Fold(key)] == m[Fold(key)])
            && (Fold(key) !in m && k < |fields| ==> InsertAll(m, fields)[Fold(key)] == fields[k])
    decreases |fields|
  {
    if fields != [] { InsertAllIs(Insert(m, fields[0]), fields[1..], key); }
  }

  // ----- The scanner -----

  /** Where the first key and the first value of a list end. */
  function KeyEnd(s: Text): (e: nat)
    ensures e <= |s|
  {
    Find(EQ, s)
  }

  function ValueEnd(s: Text): (a: nat)
    requires KeyEnd(s) < |s|
    ensures KeyEnd(s) < a <= |s|
  {
    KeyEnd(s) + Find(AMP, s[KeyEnd(s)..])
  }

  /**
   * The fields of a list: a key up to the next equals sign, a value up to the next ampersand after
   * that; what has no equals sign at the end is dropped.
   */
  function Fields(s: Text): seq<Field>
    decreases |s|
  {
    if KeyEnd(s) == |s| then []
    else
      var field := FieldAt(s, KeyEnd(s), ValueEnd(s));
      if ValueEnd(s) == |s| then [field] else [field] + Fields(s[ValueEnd(s) + 1..])
  }

  function FieldAt(s: Text, e: nat, a: nat): Field
    requires e < a <= |s|
  {
    (Decode(s[..e], true), Decode(s[e + 1..a], true))
  }

  function FieldsAfter(s: Text, a: nat): seq<Field>
    requires a <= |s|
  {
    if a == |s| then [] else Fields(s[a + 1..])
  }

  lemma FieldsUnfold(s: Text)
    ensures KeyEnd(s) == |s| ==> Fields(s) == []
    ensures KeyEnd(s) < |s| ==> Fields(s) == [FieldAt(s, KeyEnd(s), ValueEnd(s))] + FieldsAfter(s, ValueEnd(s))
  {
    hide FieldAt, Find;
  }

  lemma Slice(str: Text, pos: nat, i: nat, j: nat)
    requires pos <= |str| && i <= j && pos + j <= |str|
    ensures str[pos..][i..j] == str[pos + i..pos + j] && str[pos..][i..] == str[pos + i..]
  {
  }

  /** One turn of the scanner, by positions in the whole text. */
  lemma FieldsFrom(str: Text, pos: nat)
    requires pos <= |str|
    ensures var e := pos + Find(EQ, str[pos..]);
            && e <= |str|
            && (e == |str| ==> Fields(str[pos..]) == [])
            && (e < |str| ==>
                  var a := e + Find(AMP, str[e..]);
                  && e < a <= |str|
                  && Fields(str[pos..]) == [(Decode(str[pos..e], true), Decode(str[e + 1..a], true))]
                                           + if a == |str| then [] else Fields(str[a + 1..]))
  {
    hide Decode, Find, Fields;
    var s := str[pos..];
    var k := KeyEnd(s);
    FieldsUnfold(s);
    if k < |s| {
      var a := ValueEnd(s);
      Slice(str, pos, k, k);
      Slice(str, pos, 0, k);
      Slice(str, pos, k + 1, a);
      if a < |s| { Slice(str, pos, a + 1, a + 1); }
    }
  }

  // ----- Building a list and parsing it -----

  function Pair(f: Field): Text { Encode(f.0, true) + [EQ] + Encode(f.1, true) }

  function Join(fields: seq<Field>): Text
    decreases |fields|
  {
    if fields == [] then []
    else if |fields| == 1 then Pair(fields[0])
    else Pair(fields[0]) + [AMP] + Join(fields[1..])
  }

  lemma FindIs(c: byte, a: Text, b: Text)
    requires c !in a && (b != [] ==> b[0] == c)
    ensures Find(c, a + b) == |a|
  {
    var s := a + b;
    assert forall i | 0 <= i < |a| :: s[i] == a[i];
    assert b != [] ==> s[|a|] == b[0];
  }

  lemma Cuts(key: Text, value: Text, rest: Text)
    ensures var s, e := key + [EQ] + value + rest, |key|;
            && s[..e] == key && s[e..] == [EQ] + value + rest && s[e + 1..e + 1 + |value|] == value
            && (rest != [] ==> s[e + 1 + |value| + 1..] == rest[1..])
            && s == key + ([EQ] + value + rest)
  {
  }

  lemma EndsAre(key: Text, value: Text, rest: Text)
    requires EQ !in key && AMP !in value && (rest != [] ==> rest[0] == AMP)
    ensures var s := key + [EQ] + value + rest;
            KeyEnd(s) == |key| && |key| < |s| && ValueEnd(s) == |key| + 1 + |value|
  {
    hide Find;
    Cuts(key, value, rest);
    FindIs(EQ, key, [EQ] + value + rest);
    FindIs(AMP, [EQ] + value, rest);
  }

  lemma FieldIs(key: Text, value: Text, rest: Text)
    requires EQ !in key && AMP !in value && (rest != [] ==> rest[0] == AMP)
    ensures Fields(key + [EQ] + value + rest)
         == [(Decode(key, true), Decode(value, true))] + if rest == [] then [] else Fields(rest[1..])
  {
    hide KeyEnd, ValueEnd, Decode, Fields;
    FieldsUnfold(key + [EQ] + value + rest);
    EndsAre(key, value, rest);
    Cuts(key, value, rest);
  }

  /** One pair at the start of a list, its key without an equals sign, is one field. */
  lemma FirstField(f: Field, rest: Text)
    requires EQ !in f.0 && (rest != [] ==> rest[0] == AMP)
    ensures Fields(Pair(f) + rest) == [f] + if rest == [] then [] else Fields(rest[1..])
  {
    hide Encode, Decode, Fields;
    var key, value := Encode(f.0, true), Encode(f.1, true);
    EncodedAlphabet(f.0, true);
    EncodedAlphabet(f.1, true);
    RoundTrip(f.0, true, true);
    RoundTrip(f.1, true, true);
    FieldIs(key, value, rest);
  }

  lemma {:induction false} JoinedFields(fields: seq<Field>)
    requires forall i | 0 <= i < |fields| :: EQ !in fields[i].0
    ensures Fields(Join(fields)) == fields
    decreases |fields|
  {
    hide Fields, Pair;
    if fields == [] {
      NoFields();
    } else if |fields| == 1 {
      FirstField(fields[0], []);
      assert Pair(fields[0]) + [] == Pair(fields[0]);
    } else {
      FirstField(fields[0], [AMP] + Join(fields[1..]));
      assert Pair(fields[0]) + [AMP] + Join(fields[1..]) == Pair(fields[0]) + ([AMP] + Join(fields[1..]));
      assert ([AMP] + Join(fields[1..]))[1..] == Join(fields[1..]);
      JoinedFields(fields[1..]);
    }
  }

  lemma NoFields()
    ensures Fields([]) == []
  {
  }

  /** What a field with an equals sign in its key is read as: the key ends there. */
  function Cut(f: Field): Field {
    var e := Find(EQ, f.0);
    if e == |f.0| then f else (f.0[..e], f.0[e + 1..] + [EQ] + f.1)
  }

  lemma EncodeThree(a: Text, b: Text)
    ensures Encode(a + [EQ] + b, true) == Encode(a, true) + [EQ] + Encode(b, true)
  {
    EncodeConcat(a + [EQ], b, true);
    EncodeConcat(a, [EQ], true);
    assert Encode([EQ][1..], true) == [];
  }

  lemma CutIsSame(f: Field)
    ensures Pair(Cut(f)) == Pair(f) && EQ !in Cut(f).0 && (Cut(f) == f <==> EQ !in f.0)
  {
    hide Encode, Find;
    var e := Find(EQ, f.0);
    if e < |f.0| {
      var a, b := f.0[..e], f.0[e + 1..];
      assert f.0 == a + [EQ] + b;
      EncodeThree(a, b);
      EncodeThree(b, f.1);
    }
  }

  function CutAll(fields: seq<Field>): seq<Field> { seq(|fields|, i requires 0 <= i < |fields| => Cut(fields[i])) }

  lemma {:induction false} JoinCut(fields: seq<Field>)
    ensures Join(CutAll(fields)) == Join(fields)
    decreases |fields|
  {
    hide Pair, Cut;
    if fields != [] {
      CutIsSame(fields[0]);
      JoinCut(fields[1..]);
      assert CutAll(fields)[1..] == CutAll(fields[1..]);
    }
  }

  /** Parsing a built list gives its fields, each cut at the first equals sign of its key. */
  lemma JoinedFieldsAre(fields: seq<Field>)
    ensures Fields(Join(fields)) == CutAll(fields)
  {
    hide Join, Fields, Cut, Pair;
    JoinCut(fields);
    forall i | 0 <= i < |fields|
      ensures EQ !in CutAll(fields)[i].0
    {
      CutIsSame(fields[i]);
    }
    JoinedFields(CutAll(fields));
  }

  /** The round trip holds exactly for lists in which no key has an equals sign. */
  lemma RoundTripIsExact(fields: seq<Field>)
    ensures Fields(Join(fields)) == fields <==> forall i | 0 <= i < |fields| :: EQ !in fields[i].0
  {
    hide Join, Fields, Cut, Pair;
    JoinedFieldsAre(fields);
    forall i | 0 <= i < |fields|
      ensures CutAll(fields)[i] == fields[i] <==> EQ !in fields[i].0
    {
      CutIsSame(fields[i]);
    }
    if forall i | 0 <= i < |fields| :: EQ !in fields[i].0 {
      assert CutAll(fields) == fields;
    }
  }

  /** The key "a=b" with the value "c" comes back as "a" with the value "b=c". */
  lemma KeyIsCut()
    ensures Fields(Join([([97, EQ, 98], [99])])) == [([97], [98, EQ, 99])]
  {
    var f: Field := ([97, EQ, 98], [99]);
    JoinedFieldsAre([f]);
    FindIs(EQ, [97], [EQ, 98]);
    assert [97] + [EQ, 98] == f.0;
    assert f.0[..1] == [97] && f.0[2..] == [98];
    assert [98] + [EQ] + [99] == [98, EQ, 99];
    assert Cut(f) == ([97], [98, EQ, 99]);
  }

  /** Each key, compared ignoring case, is mapped to the value of its first field, and no other key is mapped. */
  lemma EveryKeyFindsItsValue(fields: seq<Field>, key: Text, def: Text)
    requires forall i | 0 <= i < |fields| :: EQ !in fields[i].0
    ensures var m, k := InsertAll(map[], Fields(Join(fields))), First(fields, key);
            Lookup(m, key, def) == if k < |fields| then fields[k].1 else def
  {
    RoundTripIsExact(fields);
    InsertAllIs(map[], fields, key);
  }

  // ----- The request -----

  /** "content-type" and "application/x-www-form-urlencoded". */
  const CONTENT_TYPE: Text := [99, 111, 110, 116, 101, 110, 116, 45, 116, 121, 112, 101]
  const FORM: Text :=
    [97, 112, 112, 108, 105, 99, 97, 116, 105, 111, 110, 47, 120, 45, 119, 119, 119, 45, 102, 111, 114, 109, 45,
     117, 114, 108, 101, 110, 99, 111, 100, 101, 100]

  predicate IsAt(s: Text, i: nat, part: Text) { i + |part| <= |s| && s[i..i + |part|] == part }

  predicate Contains(s: Text, part: Text) { exists i | 0 <= i <= |s| :: IsAt(s, i, part) }

  /** strcasestr. */
  predicate HasIgnoringCase(s: Text, part: Text) { Contains(Fold(s), Fold(part)) }

  predicate IsForm(headers: Map) { HasIgnoringCase(Lookup(headers, CONTENT_TYPE, []), FORM) }

  /** The body is a form if and only if the type occurs in the value of that field, in any case. */
  lemma FormIs(headers: Map)
    ensures IsForm(headers) <==>
            Contains(Fold(Lookup(headers, Ascii("content-type"), [])), Ascii("application/x-www-form-urlencoded"))
  {
    hide Contains, Lookup;
    NamesAre();
    FormIsSmall();
    FoldKeeps(FORM);
  }

  lemma NamesAre()
    ensures CONTENT_TYPE == Ascii("content-type") && FORM == Ascii("application/x-www-form-urlencoded")
  {
  }

  lemma FormIsSmall()
    ensures forall i | 0 <= i < |FORM| :: FORM[i] != 0 && !(65 <= FORM[i] <= 90)
  {
  }

  lemma {:induction false} FoldKeeps(s: Text)
    requires forall i | 0 <= i < |s| :: s[i] != 0 && !(65 <= s[i] <= 90)
    ensures Fold(s) == s
  {
    if s != [] { FoldKeeps(s[1..]); }
  }

  /** The parameters once query and body have been looked at, each at most once. */
  function AfterQuery(params: Map, query: Text, done: bool): Map {
    if done then params else InsertAll(params, Fields(query))
  }

  function AfterBody(params: Map, headers: Map, body: Text, done: bool): Map {
    if done || !IsForm(headers) then params else InsertAll(params, Fields(body))
  }

  /** Inserting two lists one after the other is inserting their concatenation. */
  lemma {:induction false} InsertBoth(m: Map, a: seq<Field>, b: seq<Field>)
    ensures InsertAll(InsertAll(m, a), b) == InsertAll(m, a + b)
    decreases |a|
  {
    if a == [] {
      assert a + b == b;
    } else {
      assert (a + b)[1..] == a[1..] + b;
      InsertBoth(Insert(m, a[0]), a[1..], b);
    }
  }

  /** Parameters of a form: those of the query come first, then those of the body. */
  lemma QueryComesFirst(query: seq<Field>, body: seq<Field>, headers: Map, key: Text, def: Text)
    requires forall i | 0 <= i < |query| :: EQ !in query[i].0
    requires forall i | 0 <= i < |body| :: EQ !in body[i].0
    ensures var m := AfterBody(AfterQuery(map[], Join(query), false), headers, Join(body), false);
            var all := if IsForm(headers) then query + body else query;
            var k := First(all, key);
            Lookup(m, key, def) == if k < |all| then all[k].1 else def
  {
    hide Fields, Join, IsForm;
    RoundTripIsExact(query);
    RoundTripIsExact(body);
    InsertBoth(map[], query, body);
    InsertAllIs(map[], if IsForm(headers) then query + body else query, key);
  }

  class HttpRequest {
    var query: Text
    var body: Text
    var headers: Map
    var params: Map
    /** Bits 0x1 and 0x2 of the parser flag. */
    var queryDone: bool
    var bodyDone: bool

    constructor (query: Text, body: Text, headers: Map)
      ensures this.query == query && this.body == body && this.headers == headers
      ensures params == map[] && !queryDone && !bodyDone
    {
      this.query, this.body, this.headers := query, body, headers;
      params, queryDone, bodyDone := map[], false, false;
    }

    /** The scanner's loop; the position moves on with every field. */
    method ParseParam(str: Text)
      modifies this`params
      ensures params == InsertAll(old(params), Fields(str))
    {
      hide InsertAll, Insert, Decode, Find, Fields;
      var pos := 0;
      ghost var done: seq<Field> := [];
      assert str[0..] == str;
      NothingInserted(params);
      while true
        invariant pos <= |str|
        invariant done + Fields(str[pos..]) == Fields(str)
        invariant params == InsertAll(old(params), done)
        decreases |str| - pos
      {
        var last := pos;
        FieldsFrom(str, pos);
        var key := pos + Find(EQ, str[pos..]);
        if key == |str| {
          break;
        }
        pos := key + Find(AMP, str[key..]);
        var k := UrlDecode(str[last..key], true);
        var v := UrlDecode(str[key + 1..pos], true);
        params := Insert(params, (k, v));
        InsertedOne(old(params), done, (k, v));
        done := done + [(k, v)];
        if pos == |str| {
          break;
        }
        pos := pos + 1;
      }
      assert done == Fields(str);
    }

    method InitQueryParam()
      modifies this`params, this`queryDone
      ensures queryDone && params == AfterQuery(old(params), query, old(queryDone))
    {
      if queryDone {
        return;
      }
      ParseParam(query);
      queryDone := true;
    }

    method InitBodyParam()
      modifies this`params, this`bodyDone
      ensures bodyDone && params == AfterBody(old(params), headers, body, old(bodyDone))
    {
      if bodyDone {
        return;
      }
      if !IsForm(headers) {
        bodyDone := true;
        return;
      }
      ParseParam(body);
      bodyDone := true;
    }

    method GetParam(key: Text, def: Text) returns (value: Text)
      modifies this`params, this`queryDone, this`bodyDone
      ensures queryDone && bodyDone
      ensures params == AfterBody(AfterQuery(old(params), query, old(queryDone)), headers, body, old(bodyDone))
      ensures value == Lookup(params, key, def)
    {
      InitQueryParam();
      InitBodyParam();
      value := Lookup(params, key, def);
    }
  }

  lemma NothingInserted(m: Map)
    ensures InsertAll(m, []) == m
  {
  }

  lemma InsertedOne(m: Map, fields: seq<Field>, f: Field)
    ensures InsertAll(m, fields + [f]) == Insert(InsertAll(m, fields), f)
  {
    InsertBoth(m, fields, [f]);
    assert [f][1..] == [];
  }
}

/**
 * PHP's `serialize`/`unserialize` for the values of `PhpValue`:
 *   N;   b:0;   b:1;   i:<int>;   s:<len>:"<chars>";   a:<count>:{<key><value>...}
 * The writer is given in "followed by" form (`SerializeTo(v, rest)` is the
 * encoding of `v` with `rest` after it), which is how the reader consumes
 * its input. The reader is strict: it accepts exactly what the writer
 * produces, so the codec round-trips in both directions.
 */
module Serial {
  import opened Results
  import opened Numerals
  import opened PhpValue

  /** `<len>:"<x>";` followed by `rest`. */
  function StringTo(x: string, rest: string): (r: string)
    ensures |r| > |x| + |rest|
  {
    NatToString(|x|) + (":\"" + (x + ("\";" + rest)))
  }

  function KeyTo(k: Key, rest: string): (r: string)
    ensures |r| > |rest|
  {
    match k
    case IntKey(i) => "i:" + (IntToString(i) + (";" + rest))
    case StrKey(x) => "s:" + StringTo(x, rest)
  }

  /** The serialisation of `v` followed by `rest`. */
  function SerializeTo(v: Value, rest: string): (r: string)
    ensures |r| > |rest|
    decreases v, 1
  {
    match v
    case Scalar(Null) => "N;" + rest
    case Scalar(Bool(b)) => "b:" + ((if b then "1;" else "0;") + rest)
    case Scalar(Int(i)) => "i:" + (IntToString(i) + (";" + rest))
    case Str(x) => "s:" + StringTo(x, rest)
    case Arr(es) => "a:" + (NatToString(|es|) + (":{" + EntriesTo(es, "}" + rest)))
  }

  function EntriesTo(es: seq<Entry>, rest: string): (r: string)
    ensures |r| >= |rest|
    decreases es, 0
  {
    if es == [] then rest
    else
      assert es[0] in es && es[0].val < es[0];
      KeyTo(es[0].key, SerializeTo(es[0].val, EntriesTo(es[1..], rest)))
  }

  /** PHP `serialize`. */
  function Serialize(v: Value): string
  {
    SerializeTo(v, "")
  }

  /** Consumes the literal `lit` at the front of `s`. */
  function Expect(lit: string, s: string): (r: Option<string>)
    ensures r.Some? ==> s == lit + r.value
  {
    if |s| >= |lit| && s[..|lit|] == lit then
      assert s == s[..|lit|] + s[|lit|..];
      Some(s[|lit|..])
    else None
  }

  lemma ExpectOf(lit: string, rest: string)
    ensures Expect(lit, lit + rest) == Some(rest)
  {
    var s := lit + rest;
    assert s[..|lit|] == lit && s[|lit|..] == rest;
  }

  /** Reads `<len>:"<len chars>";` (what follows `s:`). */
  function ReadString(s: string): (r: Option<(string, string)>)
    ensures r.Some? ==> s == StringTo(r.value.0, r.value.1)
  {
    match ReadNat(s)
    case None => None
    case Some((n, r1)) =>
      match Expect(":\"", r1)
      case None => None
      case Some(r2) =>
        if |r2| < n then None
        else
          var x := r2[..n];
          assert r2 == x + r2[n..];
          match Expect("\";", r2[n..])
          case None => None
          case Some(r3) => Some((x, r3))
  }

  lemma ReadStringOf(x: string, rest: string)
    ensures ReadString(StringTo(x, rest)) == Some((x, rest))
  {
    var r1 := ":\"" + (x + ("\";" + rest));
    ReadNatOf(|x|, r1);
    var r2 := x + ("\";" + rest);
    ExpectOf(":\"", r2);
    assert r2[..|x|] == x && r2[|x|..] == "\";" + rest;
    ExpectOf("\";", rest);
  }

  /** Reads an array key. */
  function ParseKey(s: string): (r: Option<(Key, string)>)
    ensures r.Some? ==> s == KeyTo(r.value.0, r.value.1)
  {
    if |s| < 2 then None
    else
      var tag := s[..2];
      var body := s[2..];
      assert s == tag + body;
      if tag == "i:" then
        match ReadInt(body)
        case None => None
        case Some((i, r1)) =>
          match Expect(";", r1)
          case None => None
          case Some(r2) => Some((IntKey(i), r2))
      else if tag == "s:" then
        match ReadString(body)
        case None => None
        case Some((x, r1)) => Some((StrKey(x), r1))
      else None
  }

  lemma ParseKeyOf(k: Key, rest: string)
    ensures ParseKey(KeyTo(k, rest)) == Some((k, rest))
  {
    var s := KeyTo(k, rest);
    match k
    case IntKey(i) =>
      assert s[..2] == "i:" && s[2..] == IntToString(i) + (";" + rest);
      ReadIntOfIntToString(i, ";" + rest);
      ExpectOf(";", rest);
    case StrKey(x) =>
      assert s[..2] == "s:" && s[2..] == StringTo(x, rest);
      ReadStringOf(x, rest);
  }

  /** Reads a serialised `null`, boolean, integer or string after its two-character tag. */
  function ParseAtom(tag: string, body: string): (r: Option<(Value, string)>)
    ensures r.Some? ==> !r.value.0.Arr? && tag + body == SerializeTo(r.value.0, r.value.1)
  {
    if tag == "N;" then Some((Scalar(Null), body))
    else if tag == "b:" then
      match Expect("0;", body)
      case Some(r1) => Some((Scalar(Bool(false)), r1))
      case None =>
        match Expect("1;", body)
        case Some(r1) => Some((Scalar(Bool(true)), r1))
        case None => None
    else if tag == "i:" then
      match ReadInt(body)
      case None => None
      case Some((i, r1)) =>
        match Expect(";", r1)
        case None => None
        case Some(r2) => Some((Scalar(Int(i)), r2))
    else if tag == "s:" then
      match ReadString(body)
      case None => None
      case Some((x, r1)) => Some((Str(x), r1))
    else None
  }

  /**
   * Reads one serialised value at the front of `s`; returns it and the
   * unread rest. What it reads is exactly the serialisation of what it
   * returns.
   */
  function Parse(s: string): (r: Option<(Value, string)>)
    ensures r.Some? ==> s == SerializeTo(r.value.0, r.value.1)
    decreases |s|, 1
  {
    if |s| < 2 then None
    else
      var tag := s[..2];
      var body := s[2..];
      assert s == tag + body;
      if tag == "a:" then ParseArray(body) else ParseAtom(tag, body)
  }

  /** Reads `<count>:{<entries>}` (what follows `a:`). */
  function ParseArray(body: string): (r: Option<(Value, string)>)
    ensures r.Some? ==> "a:" + body == SerializeTo(r.value.0, r.value.1)
    decreases |body|, 0
  {
    match ReadNat(body)
    case None => None
    case Some((n, r1)) =>
      match Expect(":{", r1)
      case None => None
      case Some(r2) =>
        match ParseEntries(n, r2)
        case None => None
        case Some((es, r3)) =>
          match Expect("}", r3)
          case None => None
          case Some(r4) => Some((Arr(es), r4))
  }

  /** Reads `n` key/value pairs. */
  function ParseEntries(n: nat, s: string): (r: Option<(seq<Entry>, string)>)
    ensures r.Some? ==> |r.value.0| == n && s == EntriesTo(r.value.0, r.value.1)
    decreases |s|, 2
  {
    if n == 0 then Some(([], s))
    else
      match ParseKey(s)
      case None => None
      case Some((k, r1)) =>
        match Parse(r1)
        case None => None
        case Some((v, r2)) =>
          match ParseEntries(n - 1, r2)
          case None => None
          case Some((es, r3)) =>
            var all := [Entry(k, v)] + es;
            assert all[1..] == es;
            Some((all, r3))
  }

  lemma {:induction false} ParseSerializeTo(v: Value, rest: string)
    ensures Parse(SerializeTo(v, rest)) == Some((v, rest))
    decreases v, 1
  {
    var s := SerializeTo(v, rest);
    match v
    case Scalar(Null) =>
      assert s[..2] == "N;" && s[2..] == rest;
    case Scalar(Bool(b)) =>
      assert s[..2] == "b:" && s[2..] == (if b then "1;" else "0;") + rest;
      if b {
        ExpectOf("1;", rest);
        assert Expect("0;", "1;" + rest).None?;
      } else {
        ExpectOf("0;", rest);
      }
    case Scalar(Int(i)) =>
      assert s[..2] == "i:" && s[2..] == IntToString(i) + (";" + rest);
      ReadIntOfIntToString(i, ";" + rest);
      ExpectOf(";", rest);
    case Str(x) =>
      assert s[..2] == "s:" && s[2..] == StringTo(x, rest);
      ReadStringOf(x, rest);
    case Arr(es) =>
      var r2 := EntriesTo(es, "}" + rest);
      assert s[..2] == "a:" && s[2..] == NatToString(|es|) + (":{" + r2);
      ReadNatOf(|es|, ":{" + r2);
      ExpectOf(":{", r2);
      ParseEntriesOf(es, "}" + rest);
      ExpectOf("}", rest);
  }

  lemma {:induction false} ParseEntriesOf(es: seq<Entry>, rest: string)
    ensures ParseEntries(|es|, EntriesTo(es, rest)) == Some((es, rest))
    decreases es, 0
  {
    if es != [] {
      var tail := EntriesTo(es[1..], rest);
      var r1 := SerializeTo(es[0].val, tail);
      assert es[0] in es && es[0].val < es[0];
      assert EntriesTo(es, rest) == KeyTo(es[0].key, r1);
      ParseKeyOf(es[0].key, r1);
      ParseSerializeTo(es[0].val, tail);
      ParseEntriesOf(es[1..], rest);
      assert [Entry(es[0].key, es[0].val)] + es[1..] == es;
    }
  }

  /** PHP `unserialize`, failing (PHP's `false`) unless all of `s` is one value. */
  function Unserialize(s: string): (r: Option<Value>)
    ensures r.Some? ==> Serialize(r.value) == s
  {
    match Parse(s)
    case Some((v, rest)) => if rest == [] then Some(v) else None
    case None => None
  }

  /** A value whose type letter is none of `N`, `b`, `i`, `s` and `a` (a float, an object) is not read. */
  lemma ParseOtherTag(s: string)
    requires |s| >= 2 && s[0] != 'N' && s[0] != 'b' && s[0] != 'i' && s[0] != 's' && s[0] != 'a'
    ensures Parse(s) == None
  {
    assert s[..2][0] == s[0];
  }

  /** `@unserialize` succeeds: `s` is the encoding of one value. */
  predicate IsSerialized(s: string)
  {
    Unserialize(s).Some?
  }

  /** A character of the class `[0-9.E+-]` that WordPress allows in a scalar. */
  predicate ScalarChar(c: char)
  {
    IsDigit(c) || c == '.' || c == 'E' || c == '+' || c == '-'
  }

  /** `s` starts with a type letter, ':', at least one digit, then ':'. */
  predicate LengthHeader(s: string)
  {
    |s| >= 2 && var (d, rest) := DigitRun(s[2..]); |d| >= 1 && rest != [] && rest[0] == ':'
  }

  /**
   * WordPress `is_serialized` in strict mode: a test of the text's shape,
   * not a parse. "N;" passes; otherwise the text needs at least 4
   * characters, ':' second, and ';' or '}' last. A string (`s`) also needs
   * '"' next to last and, like an array (`a`), an object (`O`) or an enum
   * (`E`), a digit header `t:<digits>:`; a boolean, integer or float
   * (`b`, `i`, `d`) must be `t:` then characters of `[0-9.E+-]` then ';'.
   */
  predicate LooksSerialized(s: string)
  {
    if s == "N;" then true
    else if |s| < 4 || s[1] != ':' || (s[|s| - 1] != ';' && s[|s| - 1] != '}') then false
    else if s[0] == 's' then s[|s| - 2] == '"' && LengthHeader(s)
    else if s[0] == 'a' || s[0] == 'O' || s[0] == 'E' then LengthHeader(s)
    else if s[0] == 'b' || s[0] == 'i' || s[0] == 'd' then
      s[|s| - 1] == ';' && forall k :: 2 <= k < |s| - 1 ==> ScalarChar(s[k])
    else false
  }

  lemma HeaderOf(t: char, n: nat, tail: string)
    requires tail != [] && tail[0] == ':'
    ensures LengthHeader([t, ':'] + NatToString(n) + tail)
  {
    var s := [t, ':'] + NatToString(n) + tail;
    assert s[2..] == NatToString(n) + tail;
    DigitRunOf(NatToString(n), tail);
  }

  lemma IntScalarChars(i: int)
    ensures forall k :: 0 <= k < |IntToString(i)| ==> ScalarChar(IntToString(i)[k])
  {
    if i < 0 {
      assert forall k :: 1 <= k < |IntToString(i)| ==> IntToString(i)[k] == NatToString(-i)[k - 1];
    }
  }

  lemma StrLooks(x: string)
    ensures LooksSerialized(Serialize(Str(x)))
  {
    var tail := ":\"" + x + "\";";
    var s := ['s', ':'] + NatToString(|x|) + tail;
    SerializeStr(x);
    assert Serialize(Str(x)) == s;
    HeaderOf('s', |x|, tail);
    assert s[|s| - 1] == ';' && s[|s| - 2] == '"';
  }

  lemma ArrayShapeLooks(n: nat, tail: string)
    requires tail != [] && tail[0] == ':' && tail[|tail| - 1] == '}'
    ensures LooksSerialized(['a', ':'] + (NatToString(n) + tail))
  {
    assert ['a', ':'] + (NatToString(n) + tail) == ['a', ':'] + NatToString(n) + tail;
    HeaderOf('a', n, tail);
  }

  lemma ArrLooks(es: seq<Entry>)
    ensures LooksSerialized(Serialize(Arr(es)))
  {
    var body := EntriesTo(es, "}");
    var tail := ":{" + body;
    assert "}" + "" == "}";
    EntriesToAppend(es, "}");
    assert body[|body| - 1] == '}';
    assert Serialize(Arr(es)) == ['a', ':'] + (NatToString(|es|) + tail);
    ArrayShapeLooks(|es|, tail);
  }

  lemma IntLooks(i: int)
    ensures LooksSerialized(Serialize(Scalar(Int(i))))
  {
    var d := IntToString(i);
    var s := "i:" + d + ";";
    assert Serialize(Scalar(Int(i))) == s;
    IntScalarChars(i);
    assert forall k :: 2 <= k < |s| - 1 ==> s[k] == d[k - 2];
  }

  /** A key's encoding starts with its type letter and ends where `rest` ends. */
  lemma KeyToEnds(k: Key, rest: string)
    requires rest != []
    ensures var e := KeyTo(k, rest); (e[0] == 'i' || e[0] == 's') && e[|e| - 1] == rest[|rest| - 1]
  {
    match k
    case IntKey(i) =>
    case StrKey(x) => assert StringTo(x, rest)[|StringTo(x, rest)| - 1] == rest[|rest| - 1];
  }

  /** The parser stops at an array whose first value is a float. */
  lemma FloatEntryNotParsed(n: nat, k: Key, rest: string)
    requires rest != []
    ensures Parse("a:" + (NatToString(n) + (":{" + KeyTo(k, "d:" + rest)))) == None
  {
    var float := "d:" + rest;
    var e := KeyTo(k, float);
    var tail := ":{" + e;
    var s := "a:" + (NatToString(n) + tail);
    ParseOtherTag(float);
    ParseKeyOf(k, float);
    if n == 0 {
      KeyToEnds(k, float);
      assert Expect("}", e) == None;
    }
    ReadNatOf(n, tail);
    ExpectOf(":{", e);
    assert ParseArray(NatToString(n) + tail) == None;
    assert s[..2] == "a:" && s[2..] == NatToString(n) + tail;
  }

  /**
   * An array whose first value is a float (`d:`) passes WordPress's test
   * but is not read here, since the model has no floats.
   */
  lemma FloatEntryUnread(n: nat, k: Key, rest: string)
    requires rest != [] && rest[|rest| - 1] == '}'
    ensures var s := "a:" + (NatToString(n) + (":{" + KeyTo(k, "d:" + rest)));
      LooksSerialized(s) && !IsSerialized(s)
  {
    var float := "d:" + rest;
    var e := KeyTo(k, float);
    var tail := ":{" + e;
    KeyToEnds(k, float);
    assert tail[|tail| - 1] == e[|e| - 1];
    ArrayShapeLooks(n, tail);
    FloatEntryNotParsed(n, k, rest);
  }

  /**
   * A string whose length header overstates its length passes WordPress's
   * test but is not read: PHP's `@unserialize` refuses it too.
   */
  lemma LongHeaderUnread(m: nat, x: string)
    requires m > |x|
    ensures var s := "s:" + (NatToString(m) + (":\"" + (x + "\";")));
      LooksSerialized(s) && !IsSerialized(s)
  {
    LongHeaderLooks(m, x);
    LongHeaderNotRead(m, x);
  }

  lemma LongHeaderLooks(m: nat, x: string)
    ensures LooksSerialized("s:" + (NatToString(m) + (":\"" + (x + "\";"))))
  {
    var tail := ":\"" + (x + "\";");
    var s := "s:" + (NatToString(m) + tail);
    assert ['s', ':'] + NatToString(m) + tail == s;
    HeaderOf('s', m, tail);
    assert s[|s| - 1] == ';' && s[|s| - 2] == '"';
  }

  lemma LongHeaderNotRead(m: nat, x: string)
    requires m > |x|
    ensures Parse("s:" + (NatToString(m) + (":\"" + (x + "\";")))) == None
  {
    var body := NatToString(m) + (":\"" + (x + "\";"));
    var s := "s:" + body;
    LongBodyNotRead(m, x);
    assert ParseAtom("s:", body) == None;
    assert s[..2] == "s:" && s[2..] == body;
  }

  lemma LongBodyNotRead(m: nat, x: string)
    requires m > |x|
    ensures ReadString(NatToString(m) + (":\"" + (x + "\";"))) == None
  {
    var r2 := x + "\";";
    var tail := ":\"" + r2;
    ReadNatOf(m, tail);
    ExpectOf(":\"", r2);
    if |r2| >= m {
      assert |r2[m..]| < 2;
      assert Expect("\";", r2[m..]) == None;
    }
  }

  /** Every encoding the writer produces passes WordPress's test. */
  lemma SerializedLooks(v: Value)
    ensures LooksSerialized(Serialize(v))
  {
    match v
    case Scalar(Null) =>
    case Scalar(Bool(b)) =>
      assert Serialize(v) == if b then "b:1;" else "b:0;";
    case Scalar(Int(i)) => IntLooks(i);
    case Str(x) => StrLooks(x);
    case Arr(es) => ArrLooks(es);
  }

  /** `false` encodes as "b:0;", what PHP writes for a failed decode. */
  lemma SerializeFalse()
    ensures Serialize(Scalar(Bool(false))) == "b:0;"
  {
  }

  /** Whatever `@unserialize` accepts, WordPress's test accepts too. */
  lemma DecodableLooks(s: string)
    requires IsSerialized(s)
    ensures LooksSerialized(s)
  {
    SerializedLooks(Decode(s));
  }

  /** The value a serialised string decodes to; it re-encodes to exactly `s`. */
  function Decode(s: string): (v: Value)
    requires IsSerialized(s)
    ensures Serialize(v) == s
    ensures Unserialize(s) == Some(v)
  {
    Unserialize(s).value
  }

  /** Decoding what was encoded gives the value back. */
  lemma UnserializeSerialize(v: Value)
    ensures Unserialize(Serialize(v)) == Some(v)
    ensures IsSerialized(Serialize(v)) && Decode(Serialize(v)) == v
  {
    ParseSerializeTo(v, "");
  }

  /** `KeyTo` is the key's encoding followed by `rest`. */
  lemma KeyToAppend(k: Key, rest: string)
    ensures KeyTo(k, rest) == KeyTo(k, "") + rest
  {
  }

  lemma Assoc(a: string, b: string, c: string)
    ensures a + (b + c) == (a + b) + c
  {
  }

  /** Moving `rest` out of a right-nested concatenation of four pieces and a tail. */
  lemma Nest(a: string, b: string, c: string, d: string, e: string, rest: string)
    ensures a + (b + (c + (d + (e + rest)))) == (a + (b + (c + (d + e)))) + rest
  {
    Assoc(d, e, rest);
    Assoc(c, d + e, rest);
    Assoc(b, c + (d + e), rest);
    Assoc(a, b + (c + (d + e)), rest);
  }

  /** `SerializeTo` is the value's encoding followed by `rest`. */
  lemma {:induction false} SerializeToAppend(v: Value, rest: string)
    ensures SerializeTo(v, rest) == Serialize(v) + rest
    decreases v, 1
  {
    match v
    case Arr(es) =>
      AppendEmpty("}");
      EntriesToAppend(es, "}" + rest);
      EntriesToAppend(es, "}");
      Nest("a:", NatToString(|es|), ":{", EntriesTo(es, ""), "}", rest);
    case Str(x) =>
      AppendEmpty("\";");
      Nest("s:", NatToString(|x|), ":\"", x, "\";", rest);
    case Scalar(Int(i)) =>
      AppendEmpty(";");
      Assoc(IntToString(i), ";", rest);
      Assoc("i:", IntToString(i) + ";", rest);
    case Scalar(Bool(b)) =>
      var lit := if b then "1;" else "0;";
      AppendEmpty(lit);
      Assoc("b:", lit, rest);
    case Scalar(Null) =>
      AppendEmpty("N;");
  }

  lemma {:induction false} EntriesToAppend(es: seq<Entry>, rest: string)
    ensures EntriesTo(es, rest) == EntriesTo(es, "") + rest
    decreases es, 0
  {
    if es != [] {
      assert es[0] in es && es[0].val < es[0];
      var t0 := EntriesTo(es[1..], "");
      var v0 := Serialize(es[0].val);
      var k0 := KeyTo(es[0].key, "");
      EntriesToAppend(es[1..], rest);
      SerializeToAppend(es[0].val, t0 + rest);
      SerializeToAppend(es[0].val, t0);
      KeyToAppend(es[0].key, v0 + (t0 + rest));
      KeyToAppend(es[0].key, v0 + t0);
      Assoc(v0, t0, rest);
      Assoc(k0, v0 + t0, rest);
    }
  }

  lemma Concat5(a: string, b: string, c: string, d: string, e: string)
    ensures a + (b + (c + (d + e))) == (((a + b) + c) + d) + e
  {
  }

  lemma AppendEmpty(a: string)
    ensures a + "" == a
  {
  }

  /** The encoding of a string holds the string itself between a header and a trailer. */
  lemma SerializeStr(x: string)
    ensures Serialize(Str(x)) == ("s:" + NatToString(|x|) + ":\"") + x + "\";"
  {
    AppendEmpty("\";");
    Concat5("s:", NatToString(|x|), ":\"", x, "\";");
  }

  /** The encoding of an array holds the encodings of its entries between a header and "}". */
  lemma SerializeArr(es: seq<Entry>)
    ensures Serialize(Arr(es)) == ("a:" + NatToString(|es|) + ":{") + EntriesTo(es, "") + "}"
  {
    AppendEmpty("}");
    EntriesToAppend(es, "}");
    Concat5("a:", NatToString(|es|), ":{", EntriesTo(es, ""), "}");
  }

  /** The entries' encoding is the first key, the first value, then the others. */
  lemma EntriesHead(es: seq<Entry>)
    requires es != []
    ensures EntriesTo(es, "") == KeyTo(es[0].key, "") + Serialize(es[0].val) + EntriesTo(es[1..], "")
  {
    var t0 := EntriesTo(es[1..], "");
    SerializeToAppend(es[0].val, t0);
    KeyToAppend(es[0].key, SerializeTo(es[0].val, t0));
  }
}

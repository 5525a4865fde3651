/**
 * The rewriting engine of the cloner: the guarded `replace`, and the
 * mutually recursive `replace_recursive` / `try_replace`, which decode
 * serialised strings (once, or twice for double serialisation), rewrite
 * every string leaf, and re-encode symmetrically.
 */
module Rewrite {
  import opened Results
  import opened Strings
  import opened PhpValue
  import opened Serial

  /**
   * PHP's loose comparison `false == $pos`: it holds both when `strpos`
   * found nothing and when it found the needle at index 0.
   */
  predicate LooselyFalse(pos: Option<nat>)
  {
    pos.None? || pos.value == 0
  }

  /**
   * MUCD `replace`: a non-string comes back unchanged; a string is passed
   * through `str_replace` unless `to` already occurs in it at an index
   * greater than 0.
   */
  function Replace(v: Value, from: string, to: string): (r: Value)
    ensures !v.Str? ==> r == v
    ensures v.Str? && Contains(v.s, to) && !OccursAt(v.s, to, 0) ==> r == v
    ensures v.Str? && !(Contains(v.s, to) && !OccursAt(v.s, to, 0)) ==>
              r == Str(StrReplace(v.s, from, to))
  {
    if v.Str? && LooselyFalse(StrPos(v.s, to)) then Str(StrReplace(v.s, from, to)) else v
  }

  /**
   * The guard only protects a string that carries `to` past its first
   * character: a value that starts with the replacement is rewritten
   * again, one that carries it later is left alone.
   */
  lemma ReplaceGuardAtStart()
    ensures Replace(Str("ab/c"), "a", "ab") == Str("abb/c")
    ensures Replace(Str("/ab/c"), "a", "ab") == Str("/ab/c")
  {
    assert OccursAt("ab/c", "ab", 0);
    assert OccursAt("/ab/c", "ab", 1);
    assert "/ab/c"[0..2][0] != "ab"[0];
    assert StrReplace("ab/c", "a", "ab") == "ab" + StrReplace("b/c", "a", "ab");
    assert StrReplace("b/c", "a", "ab") == "b" + StrReplace("/c", "a", "ab");
    assert StrReplace("/c", "a", "ab") == "/" + StrReplace("c", "a", "ab");
    assert StrReplace("c", "a", "ab") == "c" + StrReplace("", "a", "ab");
  }

  /**
   * `replace` as its documentation describes it ("if `to` is already in
   * the value, no replacement is made"): the strict comparison
   * `false === $pos`.
   */
  function ReplaceAsDocumented(v: Value, from: string, to: string): (r: Value)
    ensures !v.Str? ==> r == v
    ensures v.Str? && Contains(v.s, to) ==> r == v
    ensures v.Str? && !Contains(v.s, to) ==> r == Str(StrReplace(v.s, from, to))
  {
    if v.Str? && StrPos(v.s, to).None? then Str(StrReplace(v.s, from, to)) else v
  }

  /**
   * The code and its documentation differ exactly on strings that start
   * with `to` (and that `str_replace` then changes): there the code
   * rewrites a value that already carries the replacement.
   */
  lemma ReplaceVersusDocumented(v: Value, from: string, to: string)
    ensures !(v.Str? && OccursAt(v.s, to, 0)) ==> Replace(v, from, to) == ReplaceAsDocumented(v, from, to)
    ensures v.Str? && OccursAt(v.s, to, 0) ==>
              ReplaceAsDocumented(v, from, to) == v && Replace(v, from, to) == Str(StrReplace(v.s, from, to))
  {
    if v.Str? && OccursAt(v.s, to, 0) {
      assert Contains(v.s, to);
    }
  }

  /** A string without `from` (or with a harmless pair) is left as it is. */
  lemma ReplaceInert(x: string, from: string, to: string)
    requires Inert(x, from, to)
    ensures Replace(Str(x), from, to) == Str(x)
  {
    InertUnchanged(x, from, to);
  }

  /**
   * MUCD `try_replace` applied to one value: a serialised string is
   * decoded, decoded again when the result is itself a serialised string,
   * rewritten, and encoded as many times as it was decoded; a string that
   * WordPress's test takes for serialised data but that does not decode
   * is left as it is; an array goes through `ReplaceRecursive`; anything
   * else through `Replace`.
   */
  function TryReplace(v: Value, from: string, to: string): (r: Value)
    ensures v.Str? ==> r.Str?
    ensures v.Scalar? ==> r == v
    ensures v.Str? && LooksSerialized(v.s) && !IsSerialized(v.s) ==> r == v
    ensures v.Str? && !LooksSerialized(v.s) ==> r == Replace(v, from, to)
    ensures v.Arr? ==> r == ReplaceRecursive(v, from, to) && KeysOf(r.entries) == KeysOf(v.entries)
    decreases |Serialize(v)|, 3
  {
    match v
    case Str(s) =>
      if IsSerialized(s) then
        var once := Decode(s);
        SerializeStr(s);
        DecodableLooks(s);
        if once.Str? && IsSerialized(once.s) then
          var twice := Decode(once.s);
          SerializeStr(once.s);
          Str(Serialize(Str(Serialize(RewriteDecoded(twice, from, to)))))
        else
          Str(Serialize(RewriteDecoded(once, from, to)))
      else if LooksSerialized(s) then
        v
      else
        Replace(v, from, to)
    case Arr(_) => ReplaceRecursive(v, from, to)
    case Scalar(_) => Replace(v, from, to)
  }

  /** The rewrite `try_replace` applies to a value it has just decoded. */
  function RewriteDecoded(d: Value, from: string, to: string): (r: Value)
    ensures !d.Arr? ==> r == Replace(d, from, to)
    ensures d.Arr? ==> r.Arr? && KeysOf(r.entries) == KeysOf(d.entries)
    decreases |Serialize(d)|, 2
  {
    if d.Arr? then ReplaceRecursive(d, from, to) else Replace(d, from, to)
  }

  /**
   * MUCD `replace_recursive`: an array keeps its keys and their order,
   * and each element goes through `TryReplace`; anything else goes through
   * `Replace`. (The source's `$unset` list is never filled, so no key is
   * ever removed.)
   */
  function ReplaceRecursive(v: Value, from: string, to: string): (r: Value)
    ensures v.Arr? <==> r.Arr?
    ensures v.Arr? ==> KeysOf(r.entries) == KeysOf(v.entries)
    ensures !v.Arr? ==> r == Replace(v, from, to)
    decreases |Serialize(v)|, 1
  {
    match v
    case Arr(es) =>
      SerializeArr(es);
      Arr(RewriteEntries(es, from, to))
    case _ => Replace(v, from, to)
  }

  function RewriteEntries(es: seq<Entry>, from: string, to: string): (r: seq<Entry>)
    ensures |r| == |es|
    ensures forall k :: 0 <= k < |es| ==> r[k].key == es[k].key
    decreases |EntriesTo(es, "")|, 0
  {
    if es == [] then []
    else
      EntriesHead(es);
      assert |Serialize(es[0].val)| < |EntriesTo(es, "")| && |EntriesTo(es[1..], "")| < |EntriesTo(es, "")|;
      var head := TryReplace(es[0].val, from, to);
      [Entry(es[0].key, head)] + RewriteEntries(es[1..], from, to)
  }

  /** Each array element is replaced by `TryReplace` of the element, key kept. */
  lemma {:induction false} RewriteEntriesElementwise(es: seq<Entry>, from: string, to: string)
    ensures forall k :: 0 <= k < |es| ==>
      RewriteEntries(es, from, to)[k] == Entry(es[k].key, TryReplace(es[k].val, from, to))
    decreases |es|
  {
    if es != [] {
      RewriteEntriesElementwise(es[1..], from, to);
    }
  }

  /**
   * `replace_recursive` on an array: same length, same keys in the same
   * order, each value rewritten by `try_replace`.
   */
  lemma ReplaceRecursiveArray(es: seq<Entry>, from: string, to: string)
    ensures ReplaceRecursive(Arr(es), from, to).Arr?
    ensures var r := ReplaceRecursive(Arr(es), from, to).entries;
            |r| == |es| &&
            forall k :: 0 <= k < |es| ==> r[k].key == es[k].key && r[k].val == TryReplace(es[k].val, from, to)
  {
    RewriteEntriesElementwise(es, from, to);
  }

  /**
   * `try_replace` on a string that does not decode: plain text goes
   * through `replace`, guard included; text that only looks serialised is
   * left as it is.
   */
  lemma TryReplacePlain(s: string, from: string, to: string)
    requires !IsSerialized(s)
    ensures !LooksSerialized(s) ==> TryReplace(Str(s), from, to) == Replace(Str(s), from, to)
    ensures !LooksSerialized(s) && Contains(s, to) && !OccursAt(s, to, 0) ==> TryReplace(Str(s), from, to) == Str(s)
    ensures !LooksSerialized(s) && !(Contains(s, to) && !OccursAt(s, to, 0)) ==>
              TryReplace(Str(s), from, to) == Str(StrReplace(s, from, to))
    ensures LooksSerialized(s) ==> TryReplace(Str(s), from, to) == Str(s)
  {
  }

  /**
   * `try_replace` on a string field as lines 277-315 write it: WordPress's
   * test decides whether to decode, and an `@unserialize` that fails
   * yields `false`, which `replace` keeps and `serialize` writes as "b:0;"
   * (encoded a second time when it is the inner decode that fails).
   */
  function TryReplaceFieldAsWritten(s: string, from: string, to: string): (r: Value)
    ensures LooksSerialized(s) && !IsSerialized(s) ==> r == Str("b:0;")
    ensures !LooksSerialized(s) ==> r == Replace(Str(s), from, to)
  {
    SerializeFalse();
    if LooksSerialized(s) then
      match Unserialize(s)
      case None => Str(Serialize(Replace(Scalar(Bool(false)), from, to)))
      case Some(once) =>
        if once.Str? && LooksSerialized(once.s) then
          match Unserialize(once.s)
          case None => Str(Serialize(Str(Serialize(Replace(Scalar(Bool(false)), from, to)))))
          case Some(twice) => Str(Serialize(Str(Serialize(RewriteDecoded(twice, from, to)))))
        else
          Str(Serialize(RewriteDecoded(once, from, to)))
    else
      Replace(Str(s), from, to)
  }

  /**
   * The source and the model agree on every field except text that
   * WordPress's test accepts but `@unserialize` rejects, at the outer or
   * the inner level: the source turns an outer such field into "b:0;", the
   * model leaves it as it is.
   */
  lemma TryReplaceVersusAsWritten(s: string, from: string, to: string)
    ensures !LooksSerialized(s) ==> TryReplaceFieldAsWritten(s, from, to) == TryReplace(Str(s), from, to)
    ensures IsSerialized(s) && !(Decode(s).Str? && LooksSerialized(Decode(s).s) && !IsSerialized(Decode(s).s)) ==>
              TryReplaceFieldAsWritten(s, from, to) == TryReplace(Str(s), from, to)
    ensures LooksSerialized(s) && !IsSerialized(s) ==>
              TryReplaceFieldAsWritten(s, from, to) == Str("b:0;") && TryReplace(Str(s), from, to) == Str(s)
  {
    if IsSerialized(s) {
      DecodableLooks(s);
      var once := Decode(s);
      if once.Str? && IsSerialized(once.s) {
        DecodableLooks(once.s);
      }
    }
  }

  /**
   * A field holding an array whose first value is a float: the text passes
   * WordPress's test but is not read here, so the model keeps the field
   * whole, where PHP would decode it and rewrite the strings inside.
   */
  lemma FloatFieldKept(n: nat, k: Key, rest: string, from: string, to: string)
    requires rest != [] && rest[|rest| - 1] == '}'
    ensures var s := "a:" + (Numerals.NatToString(n) + (":{" + KeyTo(k, "d:" + rest)));
      TryReplace(Str(s), from, to) == Str(s)
  {
    FloatEntryUnread(n, k, rest);
  }

  /**
   * A field whose length header overstates the string, such as
   * "s:9:\"http://a\";": the source writes "b:0;" over it, the model keeps
   * it.
   */
  lemma MalformedFieldOverwritten(m: nat, x: string, from: string, to: string)
    requires m > |x|
    ensures var s := "s:" + (Numerals.NatToString(m) + (":\"" + (x + "\";")));
      && TryReplaceFieldAsWritten(s, from, to) == Str("b:0;")
      && TryReplace(Str(s), from, to) == Str(s)
  {
    LongHeaderUnread(m, x);
  }

  /**
   * Single serialisation: the field is decoded once, rewritten, encoded
   * once, and decoding the result gives the rewritten value.
   */
  lemma TryReplaceSingle(s: string, from: string, to: string)
    requires IsSerialized(s)
    requires !(Decode(s).Str? && IsSerialized(Decode(s).s))
    ensures var w := RewriteDecoded(Decode(s), from, to);
            TryReplace(Str(s), from, to) == Str(Serialize(w))
            && Unserialize(TryReplace(Str(s), from, to).s) == Some(w)
  {
    UnserializeSerialize(RewriteDecoded(Decode(s), from, to));
  }

  /**
   * Double serialisation: the field is decoded twice, rewritten, encoded
   * twice, and decoding the result twice gives the rewritten value.
   */
  lemma TryReplaceDouble(s: string, from: string, to: string)
    requires IsSerialized(s)
    requires Decode(s).Str? && IsSerialized(Decode(s).s)
    ensures var w := RewriteDecoded(Decode(Decode(s).s), from, to);
            var r := TryReplace(Str(s), from, to);
            r == Str(Serialize(Str(Serialize(w))))
            && Unserialize(r.s) == Some(Str(Serialize(w)))
            && Unserialize(Serialize(w)) == Some(w)
  {
    var w := RewriteDecoded(Decode(Decode(s).s), from, to);
    UnserializeSerialize(w);
    UnserializeSerialize(Str(Serialize(w)));
  }

  /**
   * Every value stored doubly serialised is taken through the double
   * branch: the field `serialize(serialize(v))` becomes
   * `serialize(serialize(v'))` where `v'` is `v` rewritten.
   */
  lemma TryReplaceDoubleOf(v: Value, from: string, to: string)
    ensures TryReplace(Str(Serialize(Str(Serialize(v)))), from, to)
            == Str(Serialize(Str(Serialize(RewriteDecoded(v, from, to)))))
  {
    UnserializeSerialize(Str(Serialize(v)));
    UnserializeSerialize(v);
  }

  /**
   * When the replacement pair is harmless for the whole encoded value
   * (`from` is empty, equal to `to`, or absent from the encoding),
   * `try_replace` returns the value unchanged, down to nested and doubly
   * serialised strings.
   */
  lemma {:induction false} TryReplaceInert(v: Value, from: string, to: string)
    requires Inert(Serialize(v), from, to)
    ensures TryReplace(v, from, to) == v
    decreases |Serialize(v)|, 4
  {
    match v
    case Scalar(_) =>
    case Arr(_) => ReplaceRecursiveInert(v, from, to);
    case Str(s) =>
      SerializeStr(s);
      InertInfix("s:" + Numerals.NatToString(|s|) + ":\"", s, "\";", from, to);
      TryReplaceStrInert(s, from, to);
  }

  /**
   * The same for a database field: a field in which the pair is harmless
   * comes back from `try_replace` unchanged, serialised or not.
   */
  lemma {:induction false} TryReplaceStrInert(s: string, from: string, to: string)
    requires Inert(s, from, to)
    ensures TryReplace(Str(s), from, to) == Str(s)
    decreases |Serialize(Str(s))|, 3
  {
    SerializeStr(s);
    if IsSerialized(s) {
      var once := Decode(s);
      if once.Str? && IsSerialized(once.s) {
        var twice := Decode(once.s);
        SerializeStr(once.s);
        InertInfix("s:" + Numerals.NatToString(|once.s|) + ":\"", once.s, "\";", from, to);
        RewriteDecodedInert(twice, from, to);
      } else {
        RewriteDecodedInert(once, from, to);
      }
    } else if !LooksSerialized(s) {
      ReplaceInert(s, from, to);
    }
  }

  lemma {:induction false} RewriteDecodedInert(d: Value, from: string, to: string)
    requires Inert(Serialize(d), from, to)
    ensures RewriteDecoded(d, from, to) == d
    decreases |Serialize(d)|, 2
  {
    if d.Arr? {
      ReplaceRecursiveInert(d, from, to);
    } else if d.Str? {
      SerializeStr(d.s);
      InertInfix("s:" + Numerals.NatToString(|d.s|) + ":\"", d.s, "\";", from, to);
      ReplaceInert(d.s, from, to);
    }
  }

  lemma {:induction false} ReplaceRecursiveInert(v: Value, from: string, to: string)
    requires Inert(Serialize(v), from, to)
    ensures ReplaceRecursive(v, from, to) == v
    decreases |Serialize(v)|, 1
  {
    match v
    case Arr(es) =>
      SerializeArr(es);
      InertInfix("a:" + Numerals.NatToString(|es|) + ":{", EntriesTo(es, ""), "}", from, to);
      RewriteEntriesInert(es, from, to);
    case Str(s) =>
      SerializeStr(s);
      InertInfix("s:" + Numerals.NatToString(|s|) + ":\"", s, "\";", from, to);
      ReplaceInert(s, from, to);
    case Scalar(_) =>
  }

  lemma {:induction false} RewriteEntriesInert(es: seq<Entry>, from: string, to: string)
    requires Inert(EntriesTo(es, ""), from, to)
    ensures RewriteEntries(es, from, to) == es
    decreases |EntriesTo(es, "")|, 0
  {
    if es != [] {
      EntriesHead(es);
      var k := KeyTo(es[0].key, "");
      var rest := EntriesTo(es[1..], "");
      InertInfix(k, Serialize(es[0].val), rest, from, to);
      assert k + Serialize(es[0].val) + rest == (k + Serialize(es[0].val)) + rest + "";
      InertInfix(k + Serialize(es[0].val), rest, "", from, to);
      TryReplaceInert(es[0].val, from, to);
      RewriteEntriesInert(es[1..], from, to);
      assert [es[0]] + es[1..] == es;
    }
  }
}

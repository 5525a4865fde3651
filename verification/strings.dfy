/**
 * String primitives of PHP used by the cloner: `strpos`, `str_replace`,
 * and the reference pair `explode`/`implode`. The left-to-right split of
 * a subject is characterised on its own (`IsSplit`), shown unique and
 * equal to `explode`, and `str_replace` is the join of that split.
 */
module Strings {
  import opened Results

  /** `f` occurs in `s` starting at index `i`. */
  predicate OccursAt(s: string, f: string, i: int)
  {
    0 <= i && i + |f| <= |s| && s[i..i + |f|] == f
  }

  /** `f` is a substring of `s` (SQL `LIKE '%f%'`, ignoring collation). */
  ghost predicate Contains(s: string, f: string)
  {
    exists i :: OccursAt(s, f, i)
  }

  /** Search for `f` in `s` from index `i` onwards. */
  function IndexFrom(s: string, f: string, i: nat): (r: Option<nat>)
    ensures r.Some? ==> i <= r.value && OccursAt(s, f, r.value)
    ensures r.Some? ==> forall j :: i <= j < r.value ==> !OccursAt(s, f, j)
    ensures r.None? ==> forall j :: i <= j ==> !OccursAt(s, f, j)
    decreases |s| - i
  {
    if i + |f| > |s| then None
    else if s[i..i + |f|] == f then Some(i)
    else IndexFrom(s, f, i + 1)
  }

  /**
   * PHP `strpos($s, $f)`: the first index of `f` in `s`, or `false`
   * (here `None`). An empty needle is found at index 0.
   */
  function StrPos(s: string, f: string): (r: Option<nat>)
    ensures r.None? <==> !Contains(s, f)
    ensures r.Some? ==> OccursAt(s, f, r.value)
                        && forall j :: 0 <= j < r.value ==> !OccursAt(s, f, j)
  {
    IndexFrom(s, f, 0)
  }

  /**
   * PHP `str_replace($f, $t, $s)` for string arguments: every
   * non-overlapping occurrence of `f`, scanning left to right, is replaced
   * by `t`; an empty search string leaves the subject unchanged.
   */
  function StrReplace(s: string, f: string, t: string): string
    decreases |s|
  {
    if f == [] || |s| < |f| then s
    else if s[..|f|] == f then t + StrReplace(s[|f|..], f, t)
    else [s[0]] + StrReplace(s[1..], f, t)
  }

  /**
   * PHP `explode($f, $s)`: the pieces of `s` between the non-overlapping
   * occurrences of `f`, found left to right.
   */
  function Explode(s: string, f: string): (r: seq<string>)
    requires f != []
    ensures |r| >= 1
    decreases |s|
  {
    if |s| < |f| then [s]
    else if s[..|f|] == f then [""] + Explode(s[|f|..], f)
    else
      var p := Explode(s[1..], f);
      [[s[0]] + p[0]] + p[1..]
  }

  /** PHP `implode($g, $ps)`: the pieces joined with `g` between them. */
  function Implode(ps: seq<string>, g: string): string
    requires |ps| >= 1
    decreases |ps|
  {
    if |ps| == 1 then ps[0] else ps[0] + g + Implode(ps[1..], g)
  }

  /** Joining pieces whose first one was extended at the front. */
  lemma {:induction false} ImplodeConsHead(c: char, ps: seq<string>, g: string)
    requires |ps| >= 1
    ensures Implode([[c] + ps[0]] + ps[1..], g) == [c] + Implode(ps, g)
  {
    var qs := [[c] + ps[0]] + ps[1..];
    assert qs[1..] == ps[1..];
  }

  /**
   * `str_replace` is `implode($t, explode($f, $s))`: an independent
   * description of which parts of the subject are kept and which replaced.
   */
  lemma {:induction false} StrReplaceIsImplodeExplode(s: string, f: string, t: string)
    requires f != []
    ensures StrReplace(s, f, t) == Implode(Explode(s, f), t)
    decreases |s|
  {
    if |s| < |f| {
    } else if s[..|f|] == f {
      StrReplaceIsImplodeExplode(s[|f|..], f, t);
      var ps := [""] + Explode(s[|f|..], f);
      assert ps[1..] == Explode(s[|f|..], f);
    } else {
      StrReplaceIsImplodeExplode(s[1..], f, t);
      ImplodeConsHead(s[0], Explode(s[1..], f), t);
    }
  }

  /** Joining a piece in front of at least one other. */
  lemma ImplodeCons(p: string, ps: seq<string>, g: string)
    requires |ps| >= 1
    ensures Implode([p] + ps, g) == p + g + Implode(ps, g)
  {
    assert ([p] + ps)[1..] == ps;
  }

  /** Joining the pieces of `explode` with the separator gives back the subject. */
  lemma {:induction false} ImplodeExplode(s: string, f: string)
    requires f != []
    ensures Implode(Explode(s, f), f) == s
    decreases |s|
  {
    if |s| < |f| {
    } else if s[..|f|] == f {
      var tail := s[|f|..];
      ImplodeExplode(tail, f);
      ImplodeCons("", Explode(tail, f), f);
      assert "" + f + tail == s[..|f|] + tail;
      assert s == s[..|f|] + tail;
    } else {
      ImplodeExplode(s[1..], f);
      ImplodeConsHead(s[0], Explode(s[1..], f), f);
      assert s == [s[0]] + s[1..];
    }
  }

  /**
   * `f` is found in `p + f` only at its end: scanning left to right, the
   * first occurrence after the piece `p` is the separator that ends it.
   */
  predicate EndsAtSeparator(p: string, f: string)
  {
    forall j :: 0 <= j < |p| ==> !OccursAt(p + f, f, j)
  }

  /**
   * `ps` is the left-to-right split of `s` at `f`: joining the pieces with
   * `f` gives `s`, each piece but the last is ended by the first
   * occurrence of `f` after it, and the last piece holds no `f`.
   */
  ghost predicate IsSplit(ps: seq<string>, s: string, f: string)
  {
    && |ps| >= 1
    && Implode(ps, f) == s
    && (forall k :: 0 <= k < |ps| - 1 ==> EndsAtSeparator(ps[k], f))
    && !Contains(ps[|ps| - 1], f)
  }

  /** A string shorter than `f` holds no occurrence of it. */
  lemma ShortAbsent(s: string, f: string)
    requires |s| < |f|
    ensures !Contains(s, f)
  {
  }

  /** The prefix of length `|f|` of `p + f + q` is that of `p + f`. */
  lemma PrefixOfJoin(p: string, f: string, q: string)
    ensures (p + f + q)[..|f|] == (p + f)[..|f|]
  {
  }

  /** An occurrence one character in is an occurrence in the tail. */
  lemma OccursShift(c: char, x: string, f: string, j: int)
    requires 1 <= j && OccursAt([c] + x, f, j)
    ensures OccursAt(x, f, j - 1)
  {
    assert ([c] + x)[j..j + |f|] == x[j - 1..j - 1 + |f|];
  }

  /** An occurrence in the tail is an occurrence one character in. */
  lemma OccursUnshift(c: char, x: string, f: string, j: int)
    requires OccursAt(x, f, j)
    ensures OccursAt([c] + x, f, j + 1)
  {
    assert ([c] + x)[j + 1..j + 1 + |f|] == x[j..j + |f|];
  }

  /** `explode` produces the left-to-right split. */
  lemma {:induction false} ExplodeSplits(s: string, f: string)
    requires f != []
    ensures IsSplit(Explode(s, f), s, f)
    decreases |s|
  {
    ImplodeExplode(s, f);
    var ps := Explode(s, f);
    if |s| < |f| {
      ShortAbsent(s, f);
    } else if s[..|f|] == f {
      var tail := s[|f|..];
      ExplodeSplits(tail, f);
      var qs := Explode(tail, f);
      assert ps == [""] + qs;
      forall k | 0 <= k < |ps| - 1
        ensures EndsAtSeparator(ps[k], f)
      {
        if k > 0 {
          assert ps[k] == qs[k - 1];
        }
      }
      assert ps[|ps| - 1] == qs[|qs| - 1];
    } else {
      var c := s[0];
      var tail := s[1..];
      ExplodeSplits(tail, f);
      var qs := Explode(tail, f);
      assert ps == [[c] + qs[0]] + qs[1..];
      assert s == [c] + tail;
      var p0 := [c] + qs[0];
      if |qs| == 1 {
        assert ps[0] == p0 && tail == qs[0];
        if Contains(p0, f) {
          var j :| OccursAt(p0, f, j);
          if j != 0 {
            OccursShift(c, qs[0], f, j);
          }
        }
      } else {
        ImplodeCons(qs[0], qs[1..], f);
        assert qs == [qs[0]] + qs[1..];
        assert tail == qs[0] + f + Implode(qs[1..], f);
        assert s == p0 + f + Implode(qs[1..], f);
        forall j | 0 <= j < |p0|
          ensures !OccursAt(p0 + f, f, j)
        {
          if j == 0 {
            PrefixOfJoin(p0, f, Implode(qs[1..], f));
          } else if OccursAt(p0 + f, f, j) {
            assert p0 + f == [c] + (qs[0] + f);
            OccursShift(c, qs[0] + f, f, j);
          }
        }
        forall k | 1 <= k < |ps| - 1
          ensures EndsAtSeparator(ps[k], f)
        {
          assert ps[k] == qs[k];
        }
        assert ps[|ps| - 1] == qs[|qs| - 1];
      }
    }
  }

  /** A string without `f` explodes into itself alone. */
  lemma {:induction false} ExplodeAbsent(s: string, f: string)
    requires f != [] && !Contains(s, f)
    ensures Explode(s, f) == [s]
    decreases |s|
  {
    if |s| >= |f| {
      assert !OccursAt(s, f, 0);
      var tail := s[1..];
      if Contains(tail, f) {
        var i :| OccursAt(tail, f, i);
        OccursInSuffix(s, f, 1, i);
      }
      ExplodeAbsent(tail, f);
      assert s == [s[0]] + tail;
    }
  }

  /** The left-to-right split is unique, so it is what `explode` returns. */
  lemma {:induction false} SplitUnique(ps: seq<string>, s: string, f: string)
    requires f != [] && IsSplit(ps, s, f)
    ensures Explode(s, f) == ps
    decreases |s|
  {
    if |ps| == 1 {
      ExplodeAbsent(s, f);
    } else {
      var p := ps[0];
      var rest := ps[1..];
      var after := Implode(rest, f);
      ImplodeCons(p, rest, f);
      assert ps == [p] + rest;
      assert s == p + f + after;
      assert IsSplit(rest, after, f) by {
        forall k | 0 <= k < |rest| - 1
          ensures EndsAtSeparator(rest[k], f)
        {
          assert rest[k] == ps[k + 1];
        }
      }
      if p == [] {
        assert s[..|f|] == f;
        assert s[|f|..] == after;
        SplitUnique(rest, after, f);
      } else {
        var c := p[0];
        var p1 := p[1..];
        assert p == [c] + p1;
        PrefixOfJoin(p, f, after);
        assert !OccursAt(p + f, f, 0);
        assert s[..|f|] != f;
        var qs := [p1] + rest;
        assert s[1..] == p1 + f + after;
        assert IsSplit(qs, s[1..], f) by {
          ImplodeCons(p1, rest, f);
          assert qs[1..] == rest;
          forall j | 0 <= j < |p1|
            ensures !OccursAt(p1 + f, f, j)
          {
            if OccursAt(p1 + f, f, j) {
              assert p + f == [c] + (p1 + f);
              OccursUnshift(c, p1 + f, f, j);
            }
          }
          forall k | 1 <= k < |qs| - 1
            ensures EndsAtSeparator(qs[k], f)
          {
            assert qs[k] == ps[k];
          }
          assert qs[|qs| - 1] == ps[|ps| - 1];
        }
        SplitUnique(qs, s[1..], f);
        assert Explode(s, f) == [[c] + qs[0]] + qs[1..];
      }
    }
  }

  /**
   * `str_replace` described without reference to its own recursion: for
   * the left-to-right split of the subject at `f`, it joins the pieces
   * with `t`.
   */
  lemma StrReplaceBySplit(ps: seq<string>, s: string, f: string, t: string)
    requires f != [] && IsSplit(ps, s, f)
    ensures StrReplace(s, f, t) == Implode(ps, t)
  {
    SplitUnique(ps, s, f);
    StrReplaceIsImplodeExplode(s, f, t);
  }

  /** Replacing a string by itself changes nothing. */
  lemma {:induction false} StrReplaceSame(s: string, f: string)
    ensures StrReplace(s, f, f) == s
    decreases |s|
  {
    if f == [] || |s| < |f| {
    } else if s[..|f|] == f {
      StrReplaceSame(s[|f|..], f);
      assert s == s[..|f|] + s[|f|..];
    } else {
      StrReplaceSame(s[1..], f);
      assert s == [s[0]] + s[1..];
    }
  }

  /** An occurrence in a suffix is an occurrence in the whole string. */
  lemma OccursInSuffix(s: string, f: string, k: nat, i: int)
    requires k <= |s| && OccursAt(s[k..], f, i)
    ensures OccursAt(s, f, k + i)
  {
    assert s[k..][i..i + |f|] == s[k + i..k + i + |f|];
  }

  /** When the search string does not occur, `str_replace` returns the subject. */
  lemma {:induction false} StrReplaceAbsent(s: string, f: string, t: string)
    requires !Contains(s, f)
    ensures StrReplace(s, f, t) == s
    decreases |s|
  {
    if f == [] || |s| < |f| {
    } else {
      assert !OccursAt(s, f, 0);
      assert s[..|f|] != f;
      forall i | OccursAt(s[1..], f, i)
        ensures false
      {
        OccursInSuffix(s, f, 1, i);
      }
      StrReplaceAbsent(s[1..], f, t);
      assert s == [s[0]] + s[1..];
    }
  }

  /** An occurrence inside `x` is an occurrence inside `p + x + q`. */
  lemma OccursInInfix(p: string, x: string, q: string, f: string, i: int)
    requires OccursAt(x, f, i)
    ensures OccursAt(p + x + q, f, |p| + i)
  {
    var w := p + x + q;
    assert w[|p|..|p| + |x|] == x;
    assert w[|p| + i..|p| + i + |f|] == x[i..i + |f|];
  }

  /** Absence of `f` carries over from a string to each of its infixes. */
  lemma AbsentFromInfix(p: string, x: string, q: string, f: string)
    requires !Contains(p + x + q, f)
    ensures !Contains(x, f)
  {
    if Contains(x, f) {
      var i :| OccursAt(x, f, i);
      OccursInInfix(p, x, q, f, i);
    }
  }

  /**
   * `str_replace(f, t, x)` certainly leaves `x` unchanged: the search
   * string is empty, equal to its replacement, or absent from `x`.
   */
  ghost predicate Inert(x: string, f: string, t: string)
  {
    f == [] || f == t || !Contains(x, f)
  }

  lemma InertUnchanged(x: string, f: string, t: string)
    requires Inert(x, f, t)
    ensures StrReplace(x, f, t) == x
  {
    if f == [] {
    } else if f == t {
      StrReplaceSame(x, f);
    } else {
      StrReplaceAbsent(x, f, t);
    }
  }

  lemma InertInfix(p: string, x: string, q: string, f: string, t: string)
    requires Inert(p + x + q, f, t)
    ensures Inert(x, f, t)
  {
    if f != [] && f != t {
      AbsentFromInfix(p, x, q, f);
    }
  }
}

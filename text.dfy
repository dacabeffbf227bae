/**
 * The string helpers the views rely on: Python's `str.strip()` and the
 * case-insensitive substring test behind the ORM's `icontains` lookup.
 */
module Text {

  /** The characters Python's `str.isspace()` accepts (and so `str.strip()` removes). */
  predicate IsSpace(c: char) {
    || c == ' '
    || '\t' <= c <= '\r'
    || '\U{1c}' <= c <= '\U{1f}'
    || c == '\U{85}' || c == '\U{a0}' || c == '\U{1680}'
    || '\U{2000}' <= c <= '\U{200a}'
    || c == '\U{2028}' || c == '\U{2029}' || c == '\U{202f}' || c == '\U{205f}' || c == '\U{3000}'
  }

  predicate AllSpace(s: string) {
    forall i :: 0 <= i < |s| ==> IsSpace(s[i])
  }

  /** `s.lstrip()`: the suffix of `s` left after dropping its leading whitespace. */
  function TrimLeft(s: string): (r: string)
    ensures |r| <= |s| && r == s[|s| - |r|..]
    ensures AllSpace(s[..|s| - |r|])
    ensures r == [] || !IsSpace(r[0])
  {
    if |s| > 0 && IsSpace(s[0]) then
      var r := TrimLeft(s[1..]);
      assert s[..|s| - |r|] == [s[0]] + s[1..][..|s| - 1 - |r|];
      r
    else s
  }

  /** `s.rstrip()`: the prefix of `s` left after dropping its trailing whitespace. */
  function TrimRight(s: string): (r: string)
    ensures |r| <= |s| && r == s[..|r|]
    ensures AllSpace(s[|r|..])
    ensures r == [] || !IsSpace(r[|r| - 1])
  {
    if |s| > 0 && IsSpace(s[|s| - 1]) then
      var r := TrimRight(s[..|s| - 1]);
      assert s[|r|..] == s[..|s| - 1][|r|..] + [s[|s| - 1]];
      r
    else s
  }

  /** `r` is the slice of `s` at index `i`, with only whitespace before and after it. */
  predicate MiddleAt(s: string, r: string, i: int) {
    0 <= i <= |s| - |r| && r == s[i..i + |r|] && AllSpace(s[..i]) && AllSpace(s[i + |r|..])
  }

  /** `s.strip()`. */
  function Strip(s: string): (r: string)
    ensures r == [] <==> AllSpace(s)
    ensures r == [] || (!IsSpace(r[0]) && !IsSpace(r[|r| - 1]))
    ensures |r| <= |s|
    ensures exists i :: MiddleAt(s, r, i)
  {
    StripEmptyIffAllSpace(s);
    StripKeepsMiddle(s);
    TrimRight(TrimLeft(s))
  }

  /** Stripping keeps the part of `s` between its leading and its trailing whitespace. */
  lemma StripKeepsMiddle(s: string)
    ensures exists i :: MiddleAt(s, TrimRight(TrimLeft(s)), i)
  {
    var left := TrimLeft(s);
    var r := TrimRight(left);
    var i := |s| - |left|;
    assert r == s[i..i + |r|] by {
      assert left == s[i..];
      assert r == left[..|r|];
    }
    assert s[i + |r|..] == left[|r|..];
    assert MiddleAt(s, r, i);
  }

  lemma StripEmptyIffAllSpace(s: string)
    ensures TrimRight(TrimLeft(s)) == [] <==> AllSpace(s)
    ensures TrimRight(TrimLeft(s)) != [] ==> TrimRight(TrimLeft(s))[0] == TrimLeft(s)[0]
  {
    var left := TrimLeft(s);
    var r := TrimRight(left);
    if r == [] {
      assert left == left[|r|..];
      assert left == [];
      assert s == s[..|s| - |left|];
    }
  }

  /** Stripping twice is stripping once. */
  lemma StripIdempotent(s: string)
    ensures Strip(Strip(s)) == Strip(s)
  {
    var r := Strip(s);
    assert TrimLeft(r) == r by {
      if r != [] { assert !IsSpace(r[0]); }
    }
    assert TrimRight(r) == r by {
      if r != [] { assert !IsSpace(r[|r| - 1]); }
    }
  }

  /** The case folding the model uses for `icontains`: ASCII upper case to lower case. */
  function Lower(c: char): char {
    if 'A' <= c <= 'Z' then (c as int + 32) as char else c
  }

  function Fold(s: string): (r: string)
    ensures |r| == |s|
    ensures forall i :: 0 <= i < |s| ==> r[i] == Lower(s[i])
  {
    if s == [] then [] else [Lower(s[0])] + Fold(s[1..])
  }

  /** Folding is idempotent, so a query may be given in any case. */
  lemma FoldIdempotent(s: string)
    ensures Fold(Fold(s)) == Fold(s)
  {
  }

  /** `t` occurs in `s` starting at index `i`. */
  predicate OccursAt(s: string, t: string, i: nat) {
    i + |t| <= |s| && s[i..i + |t|] == t
  }

  /** Python's `t in s` for strings, by scanning the start positions of `s`. */
  function Contains(s: string, t: string): bool {
    t <= s || (|s| > 0 && Contains(s[1..], t))
  }

  /** The scan finds `t` exactly when `t` occurs at some index of `s`. */
  lemma {:induction false} ContainsIff(s: string, t: string)
    ensures Contains(s, t) <==> exists i: nat :: i <= |s| && OccursAt(s, t, i)
  {
    if t <= s {
      assert OccursAt(s, t, 0);
    } else if |s| == 0 {
      assert t != [];
    } else {
      ContainsIff(s[1..], t);
      if Contains(s[1..], t) {
        var i: nat :| i <= |s[1..]| && OccursAt(s[1..], t, i);
        assert s[i + 1..i + 1 + |t|] == s[1..][i..i + |t|];
        assert OccursAt(s, t, i + 1);
      } else {
        forall i: nat | i <= |s| ensures !OccursAt(s, t, i) {
          if i == 0 {
            assert !(t <= s);
          } else if OccursAt(s, t, i) {
            assert s[1..][i - 1..i - 1 + |t|] == s[i..i + |t|];
            assert OccursAt(s[1..], t, i - 1);
          }
        }
      }
    }
  }

  /** The ORM's `field__icontains=query`: `query` occurs in `field` ignoring ASCII case. */
  predicate IContains(field: string, query: string) {
    Contains(Fold(field), Fold(query))
  }

  /** `icontains` does not depend on the case of either side. */
  lemma IContainsIgnoresCase(field: string, query: string)
    ensures IContains(field, query) == IContains(Fold(field), Fold(query))
  {
    FoldIdempotent(field);
    FoldIdempotent(query);
  }
}

/**
 * The Python string builtins that the transcript code relies on:
 * `str.isspace` (through `strip`), `str.strip`, `str.startswith`,
 * `str.endswith`, the substring test `sub in s` and `sep.join(parts)`.
 * Strings are sequences of code points, as Python 3 `str` values are.
 */
module PyStr {

  /** Python's `c.isspace()`: the code points `str.strip()` removes when
      called without arguments (bidirectional class WS, B or S, or general
      category Zs). */
  predicate IsSpace(c: char) {
    || ('\t' <= c <= '\r')            // tab, line feed, vertical tab, form feed, carriage return
    || ('\U{1C}' <= c <= '\U{1F}')    // file, group, record and unit separators
    || c == ' '
    || c == '\U{85}'                  // next line
    || c == '\U{A0}'                  // no-break space
    || c == '\U{1680}'
    || ('\U{2000}' <= c <= '\U{200A}')
    || c == '\U{2028}' || c == '\U{2029}'
    || c == '\U{202F}' || c == '\U{205F}' || c == '\U{3000}'
  }

  /** Every character of `s` is whitespace (vacuously true of ""). */
  predicate AllSpace(s: string) {
    forall k :: 0 <= k < |s| ==> IsSpace(s[k])
  }

  /** `s` has no leading and no trailing whitespace. */
  predicate Stripped(s: string) {
    s == [] || (!IsSpace(s[0]) && !IsSpace(s[|s| - 1]))
  }

  /** Python's `s.lstrip()`: the suffix left after dropping leading whitespace. */
  function StripLeft(s: string): (r: string)
    ensures |r| <= |s| && r == s[|s| - |r|..]
    ensures AllSpace(s[..|s| - |r|])
    ensures r == [] || !IsSpace(r[0])
  {
    if s != [] && IsSpace(s[0]) then StripLeft(s[1..]) else s
  }

  /** Python's `s.rstrip()`: the prefix left after dropping trailing whitespace. */
  function StripRight(s: string): (r: string)
    ensures |r| <= |s| && r == s[..|r|]
    ensures AllSpace(s[|r|..])
    ensures r == [] || !IsSpace(r[|r| - 1])
  {
    if s != [] && IsSpace(s[|s| - 1]) then StripRight(s[..|s| - 1]) else s
  }

  /** `rstrip` never removes a non-whitespace character or anything before it. */
  lemma {:induction false} StripRightKeeps(s: string, k: nat)
    requires k < |s| && !IsSpace(s[k])
    ensures k < |StripRight(s)|
  {
    if IsSpace(s[|s| - 1]) {
      assert k < |s| - 1;
      assert s[..|s| - 1][k] == s[k];
      StripRightKeeps(s[..|s| - 1], k);
    }
  }

  /** Python's `s.strip()`. */
  function Strip(s: string): (r: string)
    ensures Stripped(r)
  {
    StripRight(StripLeft(s))
  }

  /** Stripping a line that starts, after blanks, with a word bounded by
      non-whitespace characters leaves that word at the front. */
  lemma StripKeepsPrefix(indent: string, word: string, rest: string)
    requires AllSpace(indent) && word != [] && !IsSpace(word[0]) && !IsSpace(word[|word| - 1])
    ensures StartsWith(Strip(indent + word + rest), word)
  {
    var t := word + rest;
    assert StripLeft(indent + word + rest) == t by {
      assert indent + word + rest == indent + t;
      StripLeftSkips(indent, t);
      assert t[0] == word[0];
    }
    var r := StripRight(t);
    assert |word| <= |r| by {
      assert t[|word| - 1] == word[|word| - 1];
      StripRightKeeps(t, |word| - 1);
    }
    assert r[..|word|] == word by {
      assert r == t[..|r|];
      assert t[..|word|] == word;
    }
  }

  /** `s.strip()` is a window of `s` with only whitespace outside it. */
  lemma StripWindow(s: string) returns (i: nat, j: nat)
    ensures i <= j <= |s| && Strip(s) == s[i..j]
    ensures AllSpace(s[..i]) && AllSpace(s[j..])
  {
    var l := StripLeft(s);
    var r := StripRight(l);
    i := |s| - |l|;
    j := i + |r|;
    assert l == s[i..];
    assert r == l[..|r|];
    assert s[i..j] == r;
    assert s[j..] == l[|r|..];
  }

  lemma {:induction false} StripLeftSkips(a: string, t: string)
    requires AllSpace(a)
    ensures StripLeft(a + t) == StripLeft(t)
  {
    if a != [] {
      assert (a + t)[0] == a[0] && IsSpace(a[0]);
      assert (a + t)[1..] == a[1..] + t;
      assert AllSpace(a[1..]);
      StripLeftSkips(a[1..], t);
    } else {
      assert a + t == t;
    }
  }

  lemma {:induction false} StripRightSkips(t: string, b: string)
    requires AllSpace(b)
    ensures StripRight(t + b) == StripRight(t)
  {
    if b != [] {
      var n := |b| - 1;
      assert (t + b)[|t + b| - 1] == b[n] && IsSpace(b[n]);
      assert (t + b)[..|t + b| - 1] == t + b[..n];
      assert AllSpace(b[..n]);
      StripRightSkips(t, b[..n]);
    } else {
      assert t + b == t;
    }
  }

  /** Reference definition of `strip`: whatever surrounds a stripped core,
      as long as it is whitespace, is removed and nothing else is. */
  lemma StripUnique(a: string, m: string, b: string)
    requires AllSpace(a) && AllSpace(b) && Stripped(m)
    ensures Strip(a + m + b) == m
  {
    var mb := m + b;
    assert a + m + b == a + mb;
    StripLeftSkips(a, mb);
    assert StripLeft(a + m + b) == StripLeft(mb);
    if m == [] {
      assert mb == b + [];
      StripLeftSkips(b, []);
      assert StripLeft(mb) == [];
    } else {
      assert mb[0] == m[0];
      assert StripLeft(mb) == mb;
      StripRightSkips(m, b);
      assert StripRight(m) == m;
    }
  }

  /** A string already stripped is its own `strip()`: stripping is idempotent. */
  lemma StripStripped(s: string)
    requires Stripped(s)
    ensures Strip(s) == s
  {
    StripUnique([], s, []);
    assert [] + s + [] == s;
  }

  /** `not s.strip()` holds exactly when `s` is empty or all whitespace. */
  lemma StripBlank(s: string)
    ensures Strip(s) == [] <==> AllSpace(s)
  {
    if AllSpace(s) {
      StripUnique(s, [], []);
      assert s + [] + [] == s;
    } else {
      var i, j := StripWindow(s);
      if i == j {
        forall k | 0 <= k < |s| ensures IsSpace(s[k]) {
          if k < i { assert s[..i][k] == s[k]; } else { assert s[j..][k - j] == s[k]; }
        }
      }
    }
  }

  /** Python's `s.startswith(prefix)`. */
  predicate StartsWith(s: string, prefix: string) {
    |prefix| <= |s| && s[..|prefix|] == prefix
  }

  /** Python's `s.endswith(suffix)`. */
  predicate EndsWith(s: string, suffix: string) {
    |suffix| <= |s| && s[|s| - |suffix|..] == suffix
  }

  /** `sub` occurs in `s` starting at position `i`. */
  predicate OccursAt(s: string, sub: string, i: int) {
    0 <= i && i + |sub| <= |s| && s[i..i + |sub|] == sub
  }

  /** Python's `sub in s`, scanning the start positions of `s` in order. */
  predicate Contains(s: string, sub: string) {
    StartsWith(s, sub) || (s != [] && Contains(s[1..], sub))
  }

  /** `sub in s` holds exactly when `sub` occurs at some position of `s`. */
  lemma {:induction false} ContainsAt(s: string, sub: string)
    ensures Contains(s, sub) <==> exists i :: OccursAt(s, sub, i)
  {
    if StartsWith(s, sub) {
      assert OccursAt(s, sub, 0);
    } else if s == [] {
      assert forall i :: !OccursAt(s, sub, i);
    } else {
      var tail := s[1..];
      ContainsAt(tail, sub);
      if Contains(tail, sub) {
        var i :| OccursAt(s[1..], sub, i);
        assert s[1..][i..i + |sub|] == s[i + 1..i + 1 + |sub|];
        assert OccursAt(s, sub, i + 1);
      } else {
        forall i | i > 0 && OccursAt(s, sub, i) ensures OccursAt(tail, sub, i - 1) {
          assert tail[i - 1..i - 1 + |sub|] == s[i..i + |sub|];
        }
      }
    }
  }

  /** `sub in s` fails when some character of `sub` appears nowhere in `s`. */
  lemma MissingChar(s: string, sub: string, k: nat)
    requires k < |sub| && forall i :: 0 <= i < |s| ==> s[i] != sub[k]
    ensures !Contains(s, sub)
  {
    ContainsAt(s, sub);
    forall i ensures !OccursAt(s, sub, i) {
      if 0 <= i && i + |sub| <= |s| {
        assert s[i..i + |sub|][k] == s[i + k] != sub[k];
      }
    }
  }

  /** Python's `sep.join(parts)`. */
  function Join(sep: string, parts: seq<string>): string {
    if parts == [] then []
    else if |parts| == 1 then parts[0]
    else parts[0] + sep + Join(sep, parts[1..])
  }

  /** Joining two non-empty runs of parts puts one separator between them. */
  lemma {:induction false} JoinAppend(sep: string, xs: seq<string>, ys: seq<string>)
    requires xs != [] && ys != []
    ensures Join(sep, xs + ys) == Join(sep, xs) + sep + Join(sep, ys)
  {
    if |xs| == 1 {
      assert (xs + ys)[1..] == ys;
    } else {
      assert (xs + ys)[1..] == xs[1..] + ys;
      JoinAppend(sep, xs[1..], ys);
    }
  }

  /** The joined text starts with the first part and ends with the last. */
  lemma {:induction false} JoinEnds(sep: string, parts: seq<string>)
    requires parts != []
    ensures StartsWith(Join(sep, parts), parts[0])
    ensures EndsWith(Join(sep, parts), parts[|parts| - 1])
  {
    if |parts| > 1 {
      JoinEnds(sep, parts[1..]);
      var rest := Join(sep, parts[1..]);
      assert Join(sep, parts) == parts[0] + (sep + rest);
      assert Join(sep, parts) == (parts[0] + sep) + rest;
    }
  }

  /** Joining non-empty parts gives "" exactly when there are no parts. */
  lemma JoinEmpty(sep: string, parts: seq<string>)
    requires forall k :: 0 <= k < |parts| ==> parts[k] != []
    ensures Join(sep, parts) == [] <==> parts == []
  {
    if parts != [] {
      JoinEnds(sep, parts);
    }
  }

  /** Joining non-empty stripped parts with any separator gives stripped text. */
  lemma JoinStripped(sep: string, parts: seq<string>)
    requires forall k :: 0 <= k < |parts| ==> parts[k] != [] && Stripped(parts[k])
    ensures Stripped(Join(sep, parts))
  {
    if parts != [] {
      JoinEnds(sep, parts);
      var s := Join(sep, parts);
      var first, last := parts[0], parts[|parts| - 1];
      assert s[0] == s[..|first|][0] == first[0];
      assert s[|s| - 1] == s[|s| - |last|..][|last| - 1] == last[|last| - 1];
    }
  }
}

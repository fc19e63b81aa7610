/**
 * Strings as sequences of code points: the ordering Python's `<` and `max` use on
 * `str` values, and the handful of `str` methods the scripts call.
 */
module Text {
  import opened Wrappers

  /** `a < b` on Python strings: code-point lexicographic, a proper prefix first. */
  predicate Below(a: string, b: string)
    decreases |a|
  {
    if |a| == 0 then |b| > 0
    else if |b| == 0 then false
    else a[0] < b[0] || (a[0] == b[0] && Below(a[1..], b[1..]))
  }

  lemma {:induction false} BelowIrreflexive(a: string)
    ensures !Below(a, a)
    decreases |a|
  {
    if |a| > 0 {
      BelowIrreflexive(a[1..]);
    }
  }

  lemma {:induction false} BelowTransitive(a: string, b: string, c: string)
    requires Below(a, b) && Below(b, c)
    ensures Below(a, c)
    decreases |a|
  {
    if |a| > 0 && a[0] == b[0] && b[0] == c[0] {
      BelowTransitive(a[1..], b[1..], c[1..]);
    }
  }

  lemma {:induction false} BelowTotal(a: string, b: string)
    ensures a == b || Below(a, b) || Below(b, a)
    decreases |a|
  {
    if |a| > 0 && |b| > 0 && a[0] == b[0] {
      BelowTotal(a[1..], b[1..]);
      if a[1..] == b[1..] {
        assert a == [a[0]] + a[1..] && b == [b[0]] + b[1..];
      }
    }
  }

  lemma {:induction false} BelowAsymmetric(a: string, b: string)
    requires Below(a, b)
    ensures !Below(b, a)
  {
    if Below(b, a) {
      BelowTransitive(a, b, a);
      BelowIrreflexive(a);
    }
  }

  /** `max(xs)` over non-empty Python strings: the greatest one by `Below`. */
  function MaxText(xs: seq<string>): (m: string)
    requires |xs| > 0
    ensures m in xs
    ensures forall x :: x in xs ==> !Below(m, x)
  {
    if |xs| == 1 then BelowIrreflexive(xs[0]); xs[0]
    else
      var rest := MaxText(xs[1..]);
      BelowTotal(xs[0], rest);
      if Below(xs[0], rest) then
        assert forall x :: x in xs ==> x == xs[0] || x in xs[1..];
        BelowAsymmetric(xs[0], rest);
        rest
      else
        assert forall x :: x in xs[1..] && Below(xs[0], x) ==> Below(rest, x) by {
          forall x | x in xs[1..] && Below(xs[0], x) ensures Below(rest, x) {
            if rest != xs[0] {
              BelowTransitive(rest, xs[0], x);
            }
          }
        }
        BelowIrreflexive(xs[0]);
        assert forall x :: x in xs ==> x == xs[0] || x in xs[1..];
        xs[0]
  }

  /** `sep.join(parts)`. */
  function Join(parts: seq<string>, sep: string): (r: string)
  {
    if |parts| == 0 then ""
    else if |parts| == 1 then parts[0]
    else parts[0] + sep + Join(parts[1..], sep)
  }

  predicate AllSpace(s: string) {
    forall i :: 0 <= i < |s| ==> IsSpace(s[i])
  }

  /** Joining with a whitespace separator gives whitespace only exactly when every part is whitespace only. */
  lemma {:induction false} JoinAllSpace(parts: seq<string>, sep: string)
    requires AllSpace(sep)
    ensures AllSpace(Join(parts, sep)) <==> forall p :: p in parts ==> AllSpace(p)
  {
    if |parts| > 1 {
      JoinAllSpace(parts[1..], sep);
      var j := Join(parts[1..], sep);
      assert forall p :: p in parts ==> p == parts[0] || p in parts[1..];
      AppendAllSpace(parts[0], sep);
      AppendAllSpace(parts[0] + sep, j);
    }
  }

  lemma AppendAllSpace(a: string, b: string)
    ensures AllSpace(a + b) <==> AllSpace(a) && AllSpace(b)
  {
    if AllSpace(a + b) {
      assert forall i :: 0 <= i < |a| ==> (a + b)[i] == a[i];
      assert forall i :: 0 <= i < |b| ==> (a + b)[|a| + i] == b[i];
    }
  }

  /**
   * Python's whitespace (`str.isspace`), which `str.strip()`, `float()` and the regex
   * class `\s` use alike.
   */
  predicate IsSpace(c: char) {
    || ('\t' <= c <= '\r')
    || ('\U{001C}' <= c <= '\U{001F}')
    || c == ' ' || c == '\U{0085}' || c == '\U{00A0}' || c == '\U{1680}'
    || ('\U{2000}' <= c <= '\U{200A}')
    || c == '\U{2028}' || c == '\U{2029}' || c == '\U{202F}' || c == '\U{205F}' || c == '\U{3000}'
  }

  function StripLeft(s: string): (r: string)
    ensures |r| <= |s| && r == s[|s| - |r|..]
    ensures |r| > 0 ==> !IsSpace(r[0])
    ensures forall i :: 0 <= i < |s| - |r| ==> IsSpace(s[i])
  {
    if |s| > 0 && IsSpace(s[0]) then StripLeft(s[1..]) else s
  }

  function StripRight(s: string): (r: string)
    ensures |r| <= |s| && r == s[..|r|]
    ensures |r| > 0 ==> !IsSpace(r[|r| - 1])
    ensures forall i :: |r| <= i < |s| ==> IsSpace(s[i])
  {
    if |s| > 0 && IsSpace(s[|s| - 1]) then StripRight(s[..|s| - 1]) else s
  }

  /** `r` is `s` from position `i` on, with only whitespace before and after it. */
  predicate CutFrom(s: string, r: string, i: int) {
    && 0 <= i <= |s| - |r| && r == s[i..i + |r|]
    && (forall j :: 0 <= j < i ==> IsSpace(s[j]))
    && (forall j :: i + |r| <= j < |s| ==> IsSpace(s[j]))
  }

  /** `s.strip()`: no leading or trailing whitespace remains, and only whitespace was cut. */
  function Strip(s: string): (r: string)
    ensures |r| > 0 ==> !IsSpace(r[0]) && !IsSpace(r[|r| - 1])
    ensures exists i :: CutFrom(s, r, i)
  {
    StripCut(s);
    StripRight(StripLeft(s))
  }

  lemma StripCut(s: string)
    ensures CutFrom(s, StripRight(StripLeft(s)), |s| - |StripLeft(s)|)
  {
    var l := StripLeft(s);
    CutBoth(s, l, StripRight(l), |s| - |l|);
  }

  /** Cutting whitespace from the front, then from the back, cuts only whitespace from each end. */
  lemma CutBoth(s: string, l: string, r: string, i: int)
    requires 0 <= i <= |s| && l == s[i..] && (forall j :: 0 <= j < i ==> IsSpace(s[j]))
    requires |r| <= |l| && r == l[..|r|] && (forall k :: |r| <= k < |l| ==> IsSpace(l[k]))
    ensures CutFrom(s, r, i)
  {
    assert s[i..i + |r|] == l[..|r|];
    forall j | i + |r| <= j < |s| ensures IsSpace(s[j]) {
      assert s[j] == l[j - i];
    }
  }


  /** Text that neither starts nor ends with whitespace is its own `strip()`. */
  lemma StripTrimmed(s: string)
    requires |s| > 0 && !IsSpace(s[0]) && !IsSpace(s[|s| - 1])
    ensures Strip(s) == s
  {
    assert StripLeft(s) == s;
  }

  /** `s.strip()` is empty exactly when `s` is whitespace only. */
  lemma StripEmpty(s: string)
    ensures Strip(s) == "" <==> AllSpace(s)
  {
  }

  /** `s.replace(c, "")` for a one-character `c`: every occurrence removed, nothing else. */
  function RemoveChar(s: string, c: char): (r: string)
    ensures c !in r
    ensures forall x :: x != c ==> (x in r <==> x in s)
    ensures |r| <= |s|
  {
    if |s| == 0 then ""
    else if s[0] == c then RemoveChar(s[1..], c)
    else [s[0]] + RemoveChar(s[1..], c)
  }

  /** Keeps exactly the characters satisfying `keep`, in order (a regex class substitution). */
  function KeepChars(s: string, keep: char -> bool): (r: string)
    ensures forall x :: x in r <==> x in s && keep(x)
    ensures |r| <= |s|
  {
    if |s| == 0 then ""
    else if keep(s[0]) then [s[0]] + KeepChars(s[1..], keep)
    else KeepChars(s[1..], keep)
  }

  /** Removing a character from joined text removes it from each part. */
  lemma {:induction false} RemoveCharAppend(a: string, b: string, c: char)
    ensures RemoveChar(a + b, c) == RemoveChar(a, c) + RemoveChar(b, c)
  {
    if |a| > 0 {
      assert (a + b)[1..] == a[1..] + b;
      RemoveCharAppend(a[1..], b, c);
    } else {
      assert a + b == b;
    }
  }

  /** Text without the character is left as it is. */
  lemma {:induction false} RemoveCharAbsent(s: string, c: char)
    requires c !in s
    ensures RemoveChar(s, c) == s
  {
    if |s| > 0 {
      RemoveCharAbsent(s[1..], c);
      assert [s[0]] + s[1..] == s;
    }
  }

  /** Filtering joined text filters each part. */
  lemma {:induction false} KeepCharsAppend(a: string, b: string, keep: char -> bool)
    ensures KeepChars(a + b, keep) == KeepChars(a, keep) + KeepChars(b, keep)
  {
    if |a| > 0 {
      assert (a + b)[1..] == a[1..] + b;
      KeepCharsAppend(a[1..], b, keep);
    } else {
      assert a + b == b;
    }
  }

  /** Text whose characters are all kept is left as it is. */
  lemma {:induction false} KeepCharsAll(s: string, keep: char -> bool)
    requires forall i :: 0 <= i < |s| ==> keep(s[i])
    ensures KeepChars(s, keep) == s
  {
    if |s| > 0 {
      KeepCharsAll(s[1..], keep);
      assert [s[0]] + s[1..] == s;
    }
  }

  /** Whitespace stays whitespace when a character is removed. */
  lemma RemoveCharSpace(s: string, c: char)
    requires AllSpace(s)
    ensures AllSpace(RemoveChar(s, c))
  {
    var r := RemoveChar(s, c);
    forall i | 0 <= i < |r| ensures IsSpace(r[i]) {
      assert r[i] in r;
      assert r[i] in s;
    }
  }

  predicate EndsWith(s: string, suffix: string) {
    |suffix| <= |s| && s[|s| - |suffix|..] == suffix
  }

  /** `s.split(c, 1)`: the text before the first `c`, and the rest after it if there is one. */
  function SplitFirst(s: string, c: char): (r: (string, Option<string>))
    ensures c !in r.0
    ensures r.1.None? ==> r.0 == s && c !in s
    ensures r.1.Some? ==> s == r.0 + [c] + r.1.value
  {
    if |s| == 0 then ("", None)
    else if s[0] == c then ("", Some(s[1..]))
    else
      var (h, t) := SplitFirst(s[1..], c);
      ([s[0]] + h, t)
  }
}

/**
 * The Python string operations the scraper relies on: `str.strip()`,
 * `re.sub(r'\s+', ' ', s)`, `str.replace(' ', '%20')` and the substring
 * test behind `column LIKE '%search%'`, written out character by character.
 */
module Strings {

  /** The characters Python's `str.isspace()` (and `\s` on str patterns) accepts. */
  predicate IsSpace(c: char) {
    (c <= '\U{a0}' && IsLatin1Space(c)) || ('\U{a0}' < c && IsWideSpace(c))
  }

  predicate IsLatin1Space(c: char) {
    c == ' ' || ('\t' <= c <= '\r') || ('\U{1c}' <= c <= '\U{1f}') || c == '\U{85}' || c == '\U{a0}'
  }

  predicate IsWideSpace(c: char) {
    || c == '\U{1680}'
    || ('\U{2000}' <= c <= '\U{200a}')
    || c == '\U{2028}' || c == '\U{2029}' || c == '\U{202f}'
    || c == '\U{205f}' || c == '\U{3000}'
  }

  /** No leading and no trailing whitespace. */
  predicate IsStripped(s: string) {
    s == [] || (!IsSpace(s[0]) && !IsSpace(s[|s| - 1]))
  }

  /** No two adjacent whitespace characters. */
  predicate NoDoubleSpace(s: string) {
    forall i :: 0 <= i < |s| - 1 ==> !(IsSpace(s[i]) && IsSpace(s[i + 1]))
  }

  /** Every whitespace character is a plain space. */
  predicate PlainSpaces(s: string) {
    forall i :: 0 <= i < |s| && IsSpace(s[i]) ==> s[i] == ' '
  }

  /** The shape of a normalised description. */
  predicate Normal(s: string) {
    IsStripped(s) && NoDoubleSpace(s) && PlainSpaces(s)
  }

  /** `r` is `s` with a whitespace-only margin of `a` characters cut on the left
      and a whitespace-only margin cut on the right. */
  predicate StrippedInfix(s: string, r: string, a: nat) {
    && a + |r| <= |s|
    && s[a..a + |r|] == r
    && (forall i :: 0 <= i < a ==> IsSpace(s[i]))
    && (forall i :: a + |r| <= i < |s| ==> IsSpace(s[i]))
  }

  function TrimStart(s: string): (r: string)
    ensures |r| <= |s| && r == s[|s| - |r|..]
    ensures forall i :: 0 <= i < |s| - |r| ==> IsSpace(s[i])
    ensures r == [] || !IsSpace(r[0])
    decreases |s|
  {
    if s != [] && IsSpace(s[0]) then
      var r := TrimStart(s[1..]);
      SpaceBeforeSuffix(s, r);
      r
    else s
  }

  /** A whitespace-led suffix of `s[1..]` is one of `s` when `s[0]` is whitespace. */
  lemma SpaceBeforeSuffix(s: string, r: string)
    requires s != [] && IsSpace(s[0])
    requires |r| <= |s| - 1 && r == s[1..][|s| - 1 - |r|..]
    requires forall i :: 0 <= i < |s| - 1 - |r| ==> IsSpace(s[1..][i])
    ensures r == s[|s| - |r|..]
    ensures forall i :: 0 <= i < |s| - |r| ==> IsSpace(s[i])
  {
    assert forall i :: 1 <= i < |s| - |r| ==> s[i] == s[1..][i - 1];
  }

  function TrimEnd(s: string): (r: string)
    ensures |r| <= |s| && r == s[..|r|]
    ensures forall i :: |r| <= i < |s| ==> IsSpace(s[i])
    ensures r == [] || !IsSpace(r[|r| - 1])
    decreases |s|
  {
    if s != [] && IsSpace(s[|s| - 1]) then
      var r := TrimEnd(s[..|s| - 1]);
      SpaceAfterPrefix(s, s[..|s| - 1], r);
      r
    else s
  }

  /** A prefix of `s[..|s| - 1]` followed by whitespace is one of `s` when the
      last character of `s` is whitespace. */
  lemma SpaceAfterPrefix(s: string, p: string, r: string)
    requires s != [] && IsSpace(s[|s| - 1]) && p == s[..|s| - 1]
    requires |r| <= |p| && r == p[..|r|]
    requires forall i :: |r| <= i < |p| ==> IsSpace(p[i])
    ensures r == s[..|r|]
    ensures forall i :: |r| <= i < |s| ==> IsSpace(s[i])
  {
    assert forall i :: |r| <= i < |p| ==> s[i] == p[i];
  }

  /** Python's `s.strip()`. */
  function Trim(s: string): (r: string)
    ensures IsStripped(r)
    ensures StrippedInfix(s, r, |s| - |TrimStart(s)|)
  {
    var t := TrimStart(s);
    var r := TrimEnd(t);
    CutMargins(s, t, r);
    r
  }

  /** Cutting a whitespace prefix and then a whitespace suffix leaves an infix. */
  lemma CutMargins(s: string, t: string, r: string)
    requires |t| <= |s| && t == s[|s| - |t|..] && forall i :: 0 <= i < |s| - |t| ==> IsSpace(s[i])
    requires |r| <= |t| && r == t[..|r|] && forall i :: |r| <= i < |t| ==> IsSpace(t[i])
    requires (t == [] || !IsSpace(t[0])) && (r == [] || !IsSpace(r[|r| - 1]))
    ensures IsStripped(r) && StrippedInfix(s, r, |s| - |t|)
  {
    var a := |s| - |t|;
    PrefixOfSuffix(s, t, r);
    assert r != [] ==> r[0] == t[0];
    forall i | a + |r| <= i < |s|
      ensures IsSpace(s[i])
    {
      assert s[i] == t[i - a];
    }
  }

  /** A prefix `r` of a suffix `t` of `s` sits in `s` at `|s| - |t|`. */
  lemma PrefixOfSuffix<T>(s: seq<T>, t: seq<T>, r: seq<T>)
    requires |t| <= |s| && t == s[|s| - |t|..]
    requires |r| <= |t| && r == t[..|r|]
    ensures s[|s| - |t|..|s| - |t| + |r|] == r
    ensures forall i :: |s| - |t| + |r| <= i < |s| ==> s[i] == t[i - (|s| - |t|)]
  {
  }

  /** Whitespace in front of the first non-space character, or all of `s`. */
  lemma {:induction false} SpacePrefixIsTrimmed(s: string, a: nat)
    requires a <= |s| && forall i :: 0 <= i < a ==> IsSpace(s[i])
    requires a == |s| || !IsSpace(s[a])
    ensures TrimStart(s) == s[a..]
    decreases a
  {
    if a > 0 {
      var t := s[1..];
      assert forall i :: 0 <= i < a - 1 ==> t[i] == s[i + 1];
      SpacePrefixIsTrimmed(t, a - 1);
      assert t[a - 1..] == s[a..];
    }
  }

  /** Whitespace after the last non-space character, or all of `s`. */
  lemma {:induction false} SpaceSuffixIsTrimmed(s: string, b: nat)
    requires b <= |s| && forall i :: b <= i < |s| ==> IsSpace(s[i])
    requires b == 0 || !IsSpace(s[b - 1])
    ensures TrimEnd(s) == s[..b]
    decreases |s| - b
  {
    if b < |s| {
      var p := s[..|s| - 1];
      assert forall i :: b <= i < |p| ==> p[i] == s[i];
      SpaceSuffixIsTrimmed(p, b);
      assert p[..b] == s[..b];
    }
  }

  /** `strip()` is the only way to cut whitespace margins off `s` and leave a
      stripped string. */
  lemma TrimIsUniqueStrip(s: string, r: string, a: nat)
    requires IsStripped(r) && StrippedInfix(s, r, a)
    ensures r == Trim(s)
  {
    if r == [] {
      SpacePrefixIsTrimmed(s, |s|);
    } else {
      InfixMargins(s, r, a);
      SpacePrefixIsTrimmed(s, a);
      SpaceSuffixIsTrimmed(s[a..], |r|);
    }
  }

  /** The margins around a non-empty stripped infix, seen from the cut point. */
  lemma InfixMargins(s: string, r: string, a: nat)
    requires IsStripped(r) && StrippedInfix(s, r, a) && r != []
    ensures !IsSpace(s[a])
    ensures forall i :: |r| <= i < |s| - a ==> IsSpace(s[a..][i])
    ensures s[a..][..|r|] == r && !IsSpace(s[a..][|r| - 1])
  {
    assert s[a] == r[0];
    assert forall i :: |r| <= i < |s| - a ==> s[a..][i] == s[a + i];
    assert s[a..][..|r|] == s[a..a + |r|];
  }

  /** Python's `re.sub(r'\s+', ' ', s)`: every maximal whitespace run becomes one space. */
  function CollapseWhitespace(s: string): (r: string)
    ensures NoDoubleSpace(r) && PlainSpaces(r)
    ensures r == [] <==> s == []
    ensures r != [] ==> (IsSpace(r[0]) <==> IsSpace(s[0]))
    decreases |s|
  {
    if s == [] then []
    else if IsSpace(s[0]) then " " + CollapseWhitespace(TrimStart(s))
    else [s[0]] + CollapseWhitespace(s[1..])
  }

  /** The description normalisation: collapse whitespace runs, then `strip()`. */
  function Normalize(s: string): (r: string)
    ensures Normal(r)
  {
    var c := CollapseWhitespace(s);
    InfixKeepsCollapsed(c, Trim(c), |c| - |TrimStart(c)|);
    Trim(c)
  }

  /** Cutting margins off a collapsed string leaves it collapsed. */
  lemma InfixKeepsCollapsed(c: string, r: string, a: nat)
    requires NoDoubleSpace(c) && PlainSpaces(c) && StrippedInfix(c, r, a)
    ensures NoDoubleSpace(r) && PlainSpaces(r)
  {
    assert forall k :: 0 <= k < |r| ==> r[k] == c[a + k];
  }

  /** A string that is already collapsed is left alone by the collapse. */
  lemma {:induction false} CollapseFixesCollapsed(s: string)
    requires NoDoubleSpace(s) && PlainSpaces(s)
    ensures CollapseWhitespace(s) == s
    decreases |s|
  {
    if s != [] {
      var t := s[1..];
      assert NoDoubleSpace(t) && PlainSpaces(t) by {
        assert forall i :: 0 <= i < |t| ==> t[i] == s[i + 1];
      }
      CollapseFixesCollapsed(t);
      if IsSpace(s[0]) {
        assert t == [] || !IsSpace(t[0]);
        SpacePrefixIsTrimmed(s, 1);
        assert s == " " + t;
      }
    }
  }

  /** A stripped string is left alone by `strip()`. */
  lemma StrippedIsTrimmed(s: string)
    requires IsStripped(s)
    ensures Trim(s) == s
  {
    TrimIsUniqueStrip(s, s, 0);
  }

  /** Normal strings are exactly the fixed points of the normalisation. */
  lemma NormalIffFixed(s: string)
    ensures Normal(s) <==> Normalize(s) == s
  {
    if Normal(s) {
      CollapseFixesCollapsed(s);
      StrippedIsTrimmed(s);
    }
  }

  lemma NormalizeIdempotent(s: string)
    ensures Normalize(Normalize(s)) == Normalize(s)
  {
    NormalIffFixed(Normalize(s));
  }

  /** The non-whitespace characters of `s`, in order: the text the
      whitespace handling must not lose. */
  function NonSpace(s: string): (r: string)
    ensures |r| <= |s|
  {
    if s == [] then [] else (if IsSpace(s[0]) then [] else [s[0]]) + NonSpace(s[1..])
  }

  lemma {:induction false} NonSpaceConcat(a: string, b: string)
    ensures NonSpace(a + b) == NonSpace(a) + NonSpace(b)
    decreases |a|
  {
    if a == [] {
      assert a + b == b;
    } else {
      assert (a + b)[1..] == a[1..] + b;
      NonSpaceConcat(a[1..], b);
    }
  }

  /** A whitespace-only stretch of `s` holds none of the text. */
  lemma {:induction false} SpacesHoldNoText(s: string, lo: nat, hi: nat)
    requires lo <= hi <= |s|
    requires forall i :: lo <= i < hi ==> IsSpace(s[i])
    ensures NonSpace(s[lo..hi]) == []
    decreases hi - lo
  {
    if lo < hi {
      assert s[lo..hi][0] == s[lo];
      assert s[lo..hi][1..] == s[lo + 1..hi];
      SpacesHoldNoText(s, lo + 1, hi);
    }
  }

  /** The text of `s` is the text of its three parts around `a` and `b`. */
  lemma NonSpaceSplit(s: string, a: nat, b: nat)
    requires a <= b <= |s|
    ensures NonSpace(s) == NonSpace(s[..a]) + NonSpace(s[a..b]) + NonSpace(s[b..])
  {
    SliceParts(s, a, b);
    calc {
      NonSpace(s);
    == { NonSpaceConcat(s[..a], s[a..b] + s[b..]); }
      NonSpace(s[..a]) + NonSpace(s[a..b] + s[b..]);
    == { NonSpaceConcat(s[a..b], s[b..]); }
      NonSpace(s[..a]) + (NonSpace(s[a..b]) + NonSpace(s[b..]));
    }
  }

  lemma SliceParts(s: string, a: nat, b: nat)
    requires a <= b <= |s|
    ensures s == s[..a] + (s[a..b] + s[b..])
  {
    var tail := s[a..];
    assert tail == s[a..b] + s[b..] by {
      assert tail[..b - a] == s[a..b] && tail[b - a..] == s[b..];
    }
    assert s == s[..a] + tail;
  }

  /** Cutting whitespace-only margins keeps the text. */
  lemma InfixKeepsText(s: string, r: string, a: nat)
    requires StrippedInfix(s, r, a)
    ensures NonSpace(r) == NonSpace(s)
  {
    var b := a + |r|;
    NonSpaceSplit(s, a, b);
    SpacesHoldNoText(s, 0, a);
    SpacesHoldNoText(s, b, |s|);
    assert s[..a] == s[0..a] && s[b..] == s[b..|s|];
  }

  /** Cutting leading whitespace keeps the text. */
  lemma TrimStartKeepsText(s: string)
    ensures NonSpace(TrimStart(s)) == NonSpace(s)
  {
    var n := |s| - |TrimStart(s)|;
    NonSpaceSplit(s, n, |s|);
    SpacesHoldNoText(s, 0, n);
    assert s[..n] == s[0..n] && s[|s|..] == [];
  }

  /** `strip()` keeps the text. */
  lemma TrimKeepsText(s: string)
    ensures NonSpace(Trim(s)) == NonSpace(s)
  {
    InfixKeepsText(s, Trim(s), |s| - |TrimStart(s)|);
  }

  /** `re.sub(r'\s+', ' ', s)` keeps every non-whitespace character, in order. */
  lemma {:induction false} CollapseKeepsText(s: string)
    ensures NonSpace(CollapseWhitespace(s)) == NonSpace(s)
    decreases |s|
  {
    if s != [] {
      if IsSpace(s[0]) {
        var t := TrimStart(s);
        assert |t| < |s|;
        CollapseKeepsText(t);
        NonSpaceConcat(" ", CollapseWhitespace(t));
        TrimStartKeepsText(s);
      } else {
        CollapseKeepsText(s[1..]);
        NonSpaceConcat([s[0]], CollapseWhitespace(s[1..]));
      }
    }
  }

  /** The normalised description keeps the text of the raw one. */
  lemma NormalizeKeepsText(s: string)
    ensures NonSpace(Normalize(s)) == NonSpace(s)
  {
    CollapseKeepsText(s);
    TrimKeepsText(CollapseWhitespace(s));
  }

  /** Leading whitespace is cut up to the first non-space character, which
      stays in place when more text follows. */
  lemma {:induction false} TrimStartOfConcat(x: string, y: string)
    requires x != [] && !IsSpace(x[|x| - 1])
    ensures TrimStart(x + y) == TrimStart(x) + y
    ensures TrimStart(x) != [] && TrimStart(x)[|TrimStart(x)| - 1] == x[|x| - 1]
    decreases |x|
  {
    DropFirst(x, y);
    if IsSpace(x[0]) {
      var x' := x[1..];
      assert x'[|x'| - 1] == x[|x| - 1];
      TrimStartOfConcat(x', y);
      assert TrimStart(x) == TrimStart(x');
      assert TrimStart(x + y) == TrimStart(x' + y);
    }
  }

  lemma Associative<T>(a: seq<T>, w: seq<T>, b: seq<T>)
    ensures a + w + b == a + (w + b)
  {
  }

  lemma DropFirst<T>(x: seq<T>, y: seq<T>)
    requires x != []
    ensures (x + y)[0] == x[0] && (x + y)[1..] == x[1..] + y
  {
  }

  /** The collapse works run by run: it splits at any point that follows a
      non-space character. */
  lemma {:induction false} CollapseSplits(x: string, y: string)
    requires x == [] || !IsSpace(x[|x| - 1])
    ensures CollapseWhitespace(x + y) == CollapseWhitespace(x) + CollapseWhitespace(y)
    decreases |x|
  {
    if x == [] {
      assert x + y == y;
    } else if !IsSpace(x[0]) {
      var x' := x[1..];
      DropFirst(x, y);
      assert x' == [] || x'[|x'| - 1] == x[|x| - 1];
      CollapseSplits(x', y);
      Associative([x[0]], CollapseWhitespace(x'), CollapseWhitespace(y));
    } else {
      TrimStartOfConcat(x, y);
      var t := TrimStart(x);
      assert |t| < |x|;
      CollapseSplits(t, y);
      Associative(" ", CollapseWhitespace(t), CollapseWhitespace(y));
    }
  }

  /** A whitespace run between two pieces of text becomes exactly one space. */
  lemma CollapseRunBetweenWords(a: string, w: string, b: string)
    requires a == [] || !IsSpace(a[|a| - 1])
    requires w != [] && forall i :: 0 <= i < |w| ==> IsSpace(w[i])
    requires b == [] || !IsSpace(b[0])
    ensures CollapseWhitespace(a + w + b) == CollapseWhitespace(a) + (" " + CollapseWhitespace(b))
  {
    Associative(a, w, b);
    CollapseSplits(a, w + b);
    CollapseLeadingRun(w, b);
  }

  /** A leading whitespace run becomes one space in front of the rest. */
  lemma CollapseLeadingRun(w: string, b: string)
    requires w != [] && forall i :: 0 <= i < |w| ==> IsSpace(w[i])
    requires b == [] || !IsSpace(b[0])
    ensures CollapseWhitespace(w + b) == " " + CollapseWhitespace(b)
  {
    var wb := w + b;
    assert wb[0] == w[0];
    assert TrimStart(wb) == b by {
      assert forall i :: 0 <= i < |w| ==> wb[i] == w[i];
      SpacePrefixIsTrimmed(wb, |w|);
      assert wb[|w|..] == b;
    }
  }

  /** Python's `k.replace(' ', '%20')`. */
  function EncodeSpaces(k: string): (r: string)
    ensures ' ' !in r
    ensures '%' in r <==> '%' in k || ' ' in k
  {
    if k == [] then []
    else (if k[0] == ' ' then "%20" else [k[0]]) + EncodeSpaces(k[1..])
  }

  /** Turns every `%20` back into a space. */
  function DecodeSpaces(u: string): string
  {
    if u == [] then []
    else if |u| >= 3 && u[..3] == "%20" then " " + DecodeSpaces(u[3..])
    else [u[0]] + DecodeSpaces(u[1..])
  }

  /** The encoding is undone by the decoding for keywords with no `%` of their own. */
  lemma {:induction false} DecodeEncodeSpaces(k: string)
    requires '%' !in k
    ensures DecodeSpaces(EncodeSpaces(k)) == k
  {
    if k != [] {
      assert '%' !in k[1..] by { assert forall c :: c in k[1..] ==> c in k; }
      DecodeEncodeSpaces(k[1..]);
      var e := EncodeSpaces(k[1..]);
      if k[0] == ' ' {
        assert ("%20" + e)[3..] == e;
      } else {
        assert ([k[0]] + e)[1..] == e;
        assert k[0] != '%';
      }
    }
  }

  /** `q` occurs in `s` at position `k`. */
  predicate OccursAt(s: string, q: string, k: nat) {
    k + |q| <= |s| && s[k..k + |q|] == q
  }

  /** SQL `s LIKE '%q%'` for a `q` without wildcard characters. */
  predicate Contains(s: string, q: string)
    ensures Contains(s, q) ==> |q| <= |s|
    ensures s == q ==> Contains(s, q)
    decreases |s|
  {
    (|q| <= |s| && s[..|q|] == q) || (s != [] && Contains(s[1..], q))
  }

  lemma {:induction false} ContainsIff(s: string, q: string)
    ensures Contains(s, q) <==> exists k: nat :: OccursAt(s, q, k)
    decreases |s|
  {
    if s != [] {
      ContainsIff(s[1..], q);
      if Contains(s[1..], q) {
        var k: nat :| OccursAt(s[1..], q, k);
        assert s[1..][k..k + |q|] == s[k + 1..k + 1 + |q|];
        assert OccursAt(s, q, k + 1);
      }
      if exists k: nat :: OccursAt(s, q, k) {
        var k: nat :| OccursAt(s, q, k);
        if k > 0 {
          assert s[1..][k - 1..k - 1 + |q|] == s[k..k + |q|];
          assert OccursAt(s[1..], q, k - 1);
        }
      }
    }
    if |q| <= |s| && s[..|q|] == q {
      assert OccursAt(s, q, 0);
    }
    if OccursAt(s, q, 0) {
      assert s[..|q|] == q;
    }
  }

  /** The pattern `'%%'` built from an empty search matches every string. */
  lemma ContainsEmpty(s: string)
    ensures Contains(s, "")
  {
  }
}

/**
 * Character classes and the string operations the handlers apply to request
 * fields: Python's `str.strip()` and the regex class `\s` (which agree on what
 * whitespace is), JavaScript's `String.prototype.trim`, ASCII case mapping and
 * a few searches.
 */
module Text {
  import opened Wrappers

  /** Python's `str.isspace()`: what `str.strip()` removes and what `\s` matches in a str pattern. */
  predicate IsSpace(c: char) {
    || ('\t' <= c <= '\r')
    || ('\U{1c}' <= c <= '\U{1f}')
    || c == ' ' || c == '\U{85}' || c == '\U{a0}' || c == '\U{1680}'
    || ('\U{2000}' <= c <= '\U{200a}')
    || c == '\U{2028}' || c == '\U{2029}' || c == '\U{202f}' || c == '\U{205f}' || c == '\U{3000}'
  }

  /** JavaScript's WhiteSpace and LineTerminator: what `String.prototype.trim` removes. */
  predicate IsJsSpace(c: char) {
    || ('\t' <= c <= '\r')
    || c == ' ' || c == '\U{a0}' || c == '\U{1680}'
    || ('\U{2000}' <= c <= '\U{200a}')
    || c == '\U{2028}' || c == '\U{2029}' || c == '\U{202f}' || c == '\U{205f}' || c == '\U{3000}'
    || c == '\U{feff}'
  }

  predicate IsAsciiLower(c: char) { 'a' <= c <= 'z' }
  predicate IsAsciiUpper(c: char) { 'A' <= c <= 'Z' }
  predicate IsAsciiLetter(c: char) { IsAsciiLower(c) || IsAsciiUpper(c) }
  predicate IsAsciiDigit(c: char) { '0' <= c <= '9' }
  predicate IsAscii(c: char) { c < '\U{80}' }

  /** Every character of `s` satisfies `p`. */
  predicate All(s: string, p: char -> bool) {
    forall i :: 0 <= i < |s| ==> p(s[i])
  }

  /** Some character of `s` satisfies `p` (Python's `re.search` with a one-class pattern). */
  function Any(s: string, p: char -> bool): (r: bool)
    ensures r <==> exists i :: 0 <= i < |s| && p(s[i])
  {
    if s == [] then false
    else p(s[0]) || (assert forall i :: 0 < i < |s| ==> s[i] == s[1..][i - 1]; Any(s[1..], p))
  }

  /** Drops the longest prefix of characters satisfying `ws`. */
  function TrimStart(s: string, ws: char -> bool): (r: string)
    ensures |r| <= |s| && r == s[|s| - |r|..]
    ensures forall i :: 0 <= i < |s| - |r| ==> ws(s[i])
    ensures r != [] ==> !ws(r[0])
  {
    if s == [] || !ws(s[0]) then s else TrimStart(s[1..], ws)
  }

  /** Drops the longest suffix of characters satisfying `ws`. */
  function TrimEnd(s: string, ws: char -> bool): (r: string)
    ensures |r| <= |s| && r == s[..|r|]
    ensures forall i :: |r| <= i < |s| ==> ws(s[i])
    ensures r != [] ==> !ws(r[|r| - 1])
  {
    if s == [] || !ws(s[|s| - 1]) then s else TrimEnd(s[..|s| - 1], ws)
  }

  /** Drops both; the result is empty exactly when every character of `s` satisfies `ws`. */
  function Trim(s: string, ws: char -> bool): (r: string)
    ensures |r| <= |s|
    ensures r != [] ==> !ws(r[0]) && !ws(r[|r| - 1])
    ensures r == [] <==> All(s, ws)
  {
    var t := TrimStart(s, ws);
    assert t != [] ==> !ws(s[|s| - |t|]);
    TrimEnd(t, ws)
  }

  /** What trimming keeps is `s` less a prefix and a suffix made only of trimmed characters. */
  lemma TrimKeepsMiddle(s: string, ws: char -> bool)
    ensures exists p, q :: s == p + Trim(s, ws) + q && All(p, ws) && All(q, ws)
  {
    var p, q := TrimBounds(s, ws);
  }

  /** The prefix and the suffix that trimming removes. */
  lemma TrimBounds(s: string, ws: char -> bool) returns (p: string, q: string)
    ensures s == p + Trim(s, ws) + q && All(p, ws) && All(q, ws)
  {
    var t := TrimStart(s, ws);
    p := TrimStartSplit(s, ws);
    q := TrimEndSplit(t, ws);
    TrimUnfold(s, ws);
    JoinThree(s, p, t, TrimEnd(t, ws), q);
  }

  lemma TrimUnfold(s: string, ws: char -> bool)
    ensures Trim(s, ws) == TrimEnd(TrimStart(s, ws), ws)
  {
  }

  lemma JoinThree(s: string, p: string, t: string, m: string, q: string)
    requires s == p + t && t == m + q
    ensures s == p + m + q
  {
    assert p + (m + q) == p + m + q;
  }

  /** The prefix that TrimStart removes. */
  lemma {:induction false} TrimStartSplit(s: string, ws: char -> bool) returns (p: string)
    ensures s == p + TrimStart(s, ws) && All(p, ws)
  {
    if s == [] || !ws(s[0]) {
      p := [];
      assert s == p + s;
    } else {
      var p' := TrimStartSplit(s[1..], ws);
      p := [s[0]] + p';
      AllOne(s[0], ws);
      AllAppend([s[0]], p', ws);
      assert TrimStart(s, ws) == TrimStart(s[1..], ws);
      Cons(s, p', TrimStart(s[1..], ws));
    }
  }

  lemma AllOne(c: char, p: char -> bool)
    requires p(c)
    ensures All([c], p)
  {
  }

  lemma Cons(s: string, a: string, b: string)
    requires s != [] && s[1..] == a + b
    ensures s == ([s[0]] + a) + b
  {
    assert s == [s[0]] + s[1..];
  }

  lemma Snoc(s: string, a: string, b: string)
    requires s != [] && s[..|s| - 1] == a + b
    ensures s == a + (b + [s[|s| - 1]])
  {
    assert s == s[..|s| - 1] + [s[|s| - 1]];
  }

  /** The suffix that TrimEnd removes. */
  lemma {:induction false} TrimEndSplit(s: string, ws: char -> bool) returns (q: string)
    ensures s == TrimEnd(s, ws) + q && All(q, ws)
  {
    if s == [] || !ws(s[|s| - 1]) {
      q := [];
      assert s == s + q;
    } else {
      var q' := TrimEndSplit(s[..|s| - 1], ws);
      q := q' + [s[|s| - 1]];
      AllOne(s[|s| - 1], ws);
      AllAppend(q', [s[|s| - 1]], ws);
      Snoc(s, TrimEnd(s[..|s| - 1], ws), q');
    }
  }

  /** Python's `str.strip()`. */
  function Strip(s: string): (r: string)
    ensures |r| <= |s|
    ensures r != [] ==> !IsSpace(r[0]) && !IsSpace(r[|r| - 1])
  {
    Trim(s, IsSpace)
  }

  /** JavaScript's `String.prototype.trim()`. */
  function JsTrim(s: string): string {
    Trim(s, IsJsSpace)
  }

  lemma {:induction false} TrimStartSkips(w: string, s: string, ws: char -> bool)
    requires All(w, ws)
    ensures TrimStart(w + s, ws) == TrimStart(s, ws)
  {
    if w != [] {
      assert (w + s)[0] == w[0] && ws(w[0]);
      assert (w + s)[1..] == w[1..] + s;
      assert All(w[1..], ws) by { assert forall i :: 0 <= i < |w| - 1 ==> w[1..][i] == w[i + 1]; }
      TrimStartSkips(w[1..], s, ws);
      assert TrimStart(w + s, ws) == TrimStart((w + s)[1..], ws);
    } else {
      assert w + s == s;
    }
  }

  lemma {:induction false} TrimStartStopsEarly(a: string, b: string, ws: char -> bool)
    requires !All(a, ws)
    ensures TrimStart(a + b, ws) == TrimStart(a, ws) + b
  {
    if ws(a[0]) {
      assert (a + b)[1..] == a[1..] + b;
      TrimStartStopsEarly(a[1..], b, ws);
    }
  }

  lemma {:induction false} TrimEndSkips(s: string, w: string, ws: char -> bool)
    requires All(w, ws)
    ensures TrimEnd(s + w, ws) == TrimEnd(s, ws)
  {
    if w != [] {
      assert (s + w)[|s + w| - 1] == w[|w| - 1] && ws(w[|w| - 1]);
      assert (s + w)[..|s + w| - 1] == s + w[..|w| - 1];
      assert All(w[..|w| - 1], ws) by { assert forall i :: 0 <= i < |w| - 1 ==> w[..|w| - 1][i] == w[i]; }
      TrimEndSkips(s, w[..|w| - 1], ws);
      assert TrimEnd(s + w, ws) == TrimEnd((s + w)[..|s + w| - 1], ws);
    } else {
      assert s + w == s;
    }
  }

  /** Padding made of trimmed characters on either side does not change the trimmed text. */
  lemma {:induction false} TrimIgnoresPadding(s: string, before: string, after: string, ws: char -> bool)
    requires All(before, ws) && All(after, ws)
    ensures Trim(before + s + after, ws) == Trim(s, ws)
  {
    assert before + s + after == before + (s + after);
    TrimStartSkips(before, s + after, ws);
    if All(s, ws) {
      BlankPadding(s, after, ws);
    } else {
      TrimStartStopsEarly(s, after, ws);
      TrimEndSkips(TrimStart(s, ws), after, ws);
    }
  }

  lemma BlankPadding(s: string, after: string, ws: char -> bool)
    requires All(s, ws) && All(after, ws)
    ensures TrimStart(s + after, ws) == [] && TrimStart(s, ws) == []
  {
    AllAppend(s, after, ws);
    TrimStartOfBlank(s + after, ws);
    TrimStartOfBlank(s, ws);
  }

  lemma TrimStartOfBlank(s: string, ws: char -> bool)
    requires All(s, ws)
    ensures TrimStart(s, ws) == []
  {
  }

  lemma AllAppend(a: string, b: string, p: char -> bool)
    requires All(a, p) && All(b, p)
    ensures All(a + b, p)
  {
    forall i | 0 <= i < |a + b|
      ensures p((a + b)[i])
    {
      if i < |a| {
        assert (a + b)[i] == a[i];
      } else {
        assert (a + b)[i] == b[i - |a|];
      }
    }
  }

  /** A text that neither starts nor ends with a trimmed character is left as it is. */
  lemma TrimKeepsWord(s: string, ws: char -> bool)
    requires s != [] && !ws(s[0]) && !ws(s[|s| - 1])
    ensures Trim(s, ws) == s
  {
    assert TrimStart(s, ws) == s;
  }

  /** Stripping twice strips nothing more. */
  lemma TrimIdempotent(s: string, ws: char -> bool)
    ensures Trim(Trim(s, ws), ws) == Trim(s, ws)
  {
    var t := Trim(s, ws);
    if t != [] {
      assert TrimStart(t, ws) == t;
      assert TrimEnd(t, ws) == t;
    }
  }

  /** Python's `str.lower()` and JavaScript's `toUpperCase()`, restricted to ASCII letters. */
  function AsciiLower(s: string): (r: string)
    ensures |r| == |s|
    ensures forall i :: 0 <= i < |s| ==> r[i] == if IsAsciiUpper(s[i]) then (s[i] as int + 32) as char else s[i]
  {
    seq(|s|, i requires 0 <= i < |s| => if IsAsciiUpper(s[i]) then (s[i] as int + 32) as char else s[i])
  }

  function AsciiUpper(s: string): (r: string)
    ensures |r| == |s|
    ensures forall i :: 0 <= i < |s| ==> r[i] == if IsAsciiLower(s[i]) then (s[i] as int - 32) as char else s[i]
  {
    seq(|s|, i requires 0 <= i < |s| => if IsAsciiLower(s[i]) then (s[i] as int - 32) as char else s[i])
  }

  /** Index of the first `c` in `s`. */
  function FirstIndexOf(s: string, c: char): (r: Option<nat>)
    ensures r.Some? ==> r.value < |s| && s[r.value] == c && forall k :: 0 <= k < r.value ==> s[k] != c
    ensures r.None? ==> forall k :: 0 <= k < |s| ==> s[k] != c
  {
    if s == [] then None
    else if s[0] == c then Some(0)
    else match FirstIndexOf(s[1..], c)
      case None => None
      case Some(k) => Some(k + 1)
  }

  /** Index of the last `c` in `s`. */
  function LastIndexOf(s: string, c: char): (r: Option<nat>)
    ensures r.Some? ==> r.value < |s| && s[r.value] == c && forall k :: r.value < k < |s| ==> s[k] != c
    ensures r.None? ==> forall k :: 0 <= k < |s| ==> s[k] != c
  {
    if s == [] then None
    else if s[|s| - 1] == c then Some(|s| - 1)
    else LastIndexOf(s[..|s| - 1], c)
  }

  /** A non-empty run of ASCII digits, as MySQL reads an integer out of a string. */
  predicate IsDecimal(s: string) {
    s != [] && All(s, IsAsciiDigit)
  }

  function DecimalValue(s: string): (n: nat)
    requires All(s, IsAsciiDigit)
  {
    if s == [] then 0 else DecimalValue(s[..|s| - 1]) * 10 + (s[|s| - 1] as int - '0' as int)
  }
}

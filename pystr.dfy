/**
 * The parts of Python's `str` that the deployment scripts rely on, stated on `seq<char>`:
 * whitespace, stripping, searching, `split`, `replace`, `join`, ASCII case mapping, `isdigit`
 * and the decimal conversions `int(...)` and `str(int)`.
 */
module PyStr {
  import opened Wrappers

  // ---------------------------------------------------------------- characters

  /** `str.isspace()` for one character. */
  predicate IsSpace(c: char)
  {
    c == ' ' || ('\t' <= c <= '\r') || ('\U{001C}' <= c <= '\U{001F}')
    || c == '\U{0085}' || c == '\U{00A0}' || c == '\U{1680}'
    || ('\U{2000}' <= c <= '\U{200A}') || c == '\U{2028}' || c == '\U{2029}'
    || c == '\U{202F}' || c == '\U{205F}' || c == '\U{3000}'
  }

  predicate IsDigit(c: char)
  {
    '0' <= c <= '9'
  }

  predicate NotSpace(c: char)
  {
    !IsSpace(c)
  }

  /** `str.isdigit()`: non-empty and every character a decimal digit. */
  predicate IsDigits(s: string)
  {
    s != [] && forall i :: 0 <= i < |s| ==> IsDigit(s[i])
  }

  function UpperChar(c: char): char
  {
    if 'a' <= c <= 'z' then (c as int - 32) as char else c
  }

  function LowerChar(c: char): char
  {
    if 'A' <= c <= 'Z' then (c as int + 32) as char else c
  }

  /** `str.upper()`. */
  function Upper(s: string): (r: string)
    ensures |r| == |s|
  {
    seq(|s|, i requires 0 <= i < |s| => UpperChar(s[i]))
  }

  /** `str.lower()`. */
  function Lower(s: string): (r: string)
    ensures |r| == |s|
  {
    seq(|s|, i requires 0 <= i < |s| => LowerChar(s[i]))
  }

  /** `str.capitalize()`: first character upper-cased, the rest lower-cased. */
  function Capitalize(s: string): string
  {
    if s == [] then [] else [UpperChar(s[0])] + Lower(s[1..])
  }

  /**
   * Equality of two characters under `re.IGNORECASE` for the literal characters the
   * scripts' patterns use: ASCII letters match either case, and `s` also matches U+017F.
   */
  predicate CharEqIgnoreCase(c: char, p: char)
  {
    LowerChar(c) == LowerChar(p) || (LowerChar(p) == 's' && c == '\U{017F}')
  }

  // ---------------------------------------------------------------- stripping

  /** Drops the longest prefix whose characters all satisfy `drop`. */
  function LStrip(s: string, drop: char -> bool): (r: string)
    ensures |r| <= |s| && r == s[|s| - |r|..]
    ensures forall i :: 0 <= i < |s| - |r| ==> drop(s[i])
    ensures r != [] ==> !drop(r[0])
    decreases |s|
  {
    if s != [] && drop(s[0]) then LStrip(s[1..], drop) else s
  }

  /** Drops the longest suffix whose characters all satisfy `drop`. */
  function RStrip(s: string, drop: char -> bool): (r: string)
    ensures |r| <= |s| && r == s[..|r|]
    ensures forall i :: |r| <= i < |s| ==> drop(s[i])
    ensures r != [] ==> !drop(r[|r| - 1])
    decreases |s|
  {
    if s != [] && drop(s[|s| - 1]) then RStrip(s[..|s| - 1], drop) else s
  }

  /** `str.strip(chars)` with the characters given as a predicate. */
  function StripBy(s: string, drop: char -> bool): string
  {
    RStrip(LStrip(s, drop), drop)
  }

  /** `str.strip()`: the leading whitespace dropped, then the trailing whitespace. */
  function Strip(s: string): (r: string)
    ensures |r| <= |s|
    decreases |s|
  {
    if s != [] && IsSpace(s[0]) then Strip(s[1..]) else RStripSpace(s)
  }

  /** `str.rstrip()`. */
  function RStripSpace(s: string): (r: string)
    ensures |r| <= |s|
    decreases |s|
  {
    if s != [] && IsSpace(s[|s| - 1]) then RStripSpace(s[..|s| - 1]) else s
  }

  lemma {:induction false} RStripSpaceIsRStrip(s: string)
    ensures RStripSpace(s) == RStrip(s, IsSpace)
    decreases |s|
  {
    if s != [] && IsSpace(s[|s| - 1]) {
      RStripSpaceIsRStrip(s[..|s| - 1]);
    }
  }

  /** Stripping never introduces a character. */
  lemma StripKeepsAbsent(s: string, x: char)
    requires x !in s
    ensures x !in Strip(s)
  {
    StripIsStripBy(s);
    var l := LStrip(s, IsSpace);
    assert x !in l;
  }

  /** A string that starts with a non-whitespace character does not strip to nothing. */
  lemma StripOfNonSpaceStart(s: string)
    requires s != [] && !IsSpace(s[0])
    ensures Strip(s) != []
  {
    RStripSpaceIsRStrip(s);
  }

  /** `Strip` is `StripBy` with the whitespace test. */
  lemma {:induction false} StripIsStripBy(s: string)
    ensures Strip(s) == StripBy(s, IsSpace)
    decreases |s|
  {
    if s != [] && IsSpace(s[0]) {
      StripIsStripBy(s[1..]);
      assert LStrip(s, IsSpace) == LStrip(s[1..], IsSpace);
    } else {
      assert LStrip(s, IsSpace) == s;
      RStripSpaceIsRStrip(s);
    }
  }

  /** `LStrip` stops at the first character it does not drop. */
  lemma {:induction false} LStripExact(s: string, n: nat, drop: char -> bool)
    requires n <= |s| && (forall k :: 0 <= k < n ==> drop(s[k])) && (n == |s| || !drop(s[n]))
    ensures LStrip(s, drop) == s[n..]
    decreases n
  {
    if n > 0 {
      LStripExact(s[1..], n - 1, drop);
      assert s[1..][n - 1..] == s[n..];
    }
  }

  /** The longest prefix of `s` whose characters all satisfy `keep`. */
  function TakeWhile(s: string, keep: char -> bool): (r: string)
    ensures |r| <= |s| && r == s[..|r|]
    ensures forall i :: 0 <= i < |r| ==> keep(s[i])
    ensures |r| < |s| ==> !keep(s[|r|])
    decreases |s|
  {
    if s != [] && keep(s[0]) then [s[0]] + TakeWhile(s[1..], keep) else []
  }

  /** `TakeWhile` stops exactly at the first character it rejects. */
  lemma {:induction false} TakeWhileUpTo(a: string, b: string, keep: char -> bool)
    requires forall i :: 0 <= i < |a| ==> keep(a[i])
    requires b == [] || !keep(b[0])
    ensures TakeWhile(a + b, keep) == a
    decreases |a|
  {
    if a == [] {
      assert a + b == b;
    } else {
      assert (a + b)[1..] == a[1..] + b;
      TakeWhileUpTo(a[1..], b, keep);
    }
  }

  // ---------------------------------------------------------------- searching

  predicate StartsWith(s: string, p: string)
  {
    |p| <= |s| && s[..|p|] == p
  }

  predicate EndsWith(s: string, p: string)
  {
    |p| <= |s| && s[|s| - |p|..] == p
  }

  /** `p` occurs in `s` at index `i`. */
  predicate At(s: string, i: int, p: string)
  {
    0 <= i && i + |p| <= |s| && s[i..i + |p|] == p
  }

  /** The first occurrence of `p` in `s` at or after `from`. */
  function IndexFrom(s: string, p: string, from: nat): (r: Option<nat>)
    requires from <= |s|
    ensures r.Some? ==> from <= r.value && At(s, r.value, p)
    ensures r.Some? ==> forall j :: from <= j < r.value ==> !At(s, j, p)
    ensures r.None? ==> forall j :: from <= j ==> !At(s, j, p)
    decreases |s| - from
  {
    if from + |p| > |s| then None
    else if s[from..from + |p|] == p then Some(from)
    else IndexFrom(s, p, from + 1)
  }

  /** `str.find`, with `None` for -1. */
  function IndexOf(s: string, p: string): (r: Option<nat>)
    ensures r.Some? ==> At(s, r.value, p) && forall j :: 0 <= j < r.value ==> !At(s, j, p)
    ensures r.None? ==> forall j :: 0 <= j ==> !At(s, j, p)
  {
    IndexFrom(s, p, 0)
  }

  /** Python's `p in s` for strings. */
  predicate Contains(s: string, p: string)
  {
    IndexOf(s, p).Some?
  }

  lemma ContainsAt(s: string, p: string, i: int)
    requires At(s, i, p)
    ensures Contains(s, p)
  {
  }

  // ---------------------------------------------------------------- split, join, replace

  /** The text before the first occurrence of `sep` does not contain `sep`. */
  lemma BeforeFirst(s: string, sep: string, i: nat)
    requires sep != [] && IndexOf(s, sep) == Some(i)
    ensures !Contains(s[..i], sep)
  {
    forall j | 0 <= j ensures !At(s[..i], j, sep) {
      if j + |sep| <= i {
        assert s[..i][j..j + |sep|] == s[j..j + |sep|];
        assert !At(s, j, sep);
      }
    }
  }

  /** `s.split(sep)` for a non-empty separator. */
  function Split(s: string, sep: string): (r: seq<string>)
    requires sep != []
    ensures |r| >= 1
    decreases |s|
  {
    match IndexOf(s, sep)
    case None => [s]
    case Some(i) => [s[..i]] + Split(s[i + |sep|..], sep)
  }

  /** No part of a split contains the separator. */
  lemma {:induction false} SplitPartsLackSep(s: string, sep: string)
    requires sep != []
    ensures forall k :: 0 <= k < |Split(s, sep)| ==> !Contains(Split(s, sep)[k], sep)
    decreases |s|
  {
    match IndexOf(s, sep)
    case None =>
    case Some(i) =>
      BeforeFirst(s, sep, i);
      var rest := s[i + |sep|..];
      SplitPartsLackSep(rest, sep);
      SplitAtFirst(s, sep, i);
      var r := Split(s, sep);
      forall k | 0 <= k < |r| ensures !Contains(r[k], sep) {
        if k > 0 {
          assert r[k] == Split(rest, sep)[k - 1];
        }
      }
  }

  /** `sep.join(parts)`. */
  function Join(parts: seq<string>, sep: string): string
  {
    if parts == [] then []
    else if |parts| == 1 then parts[0]
    else parts[0] + sep + Join(parts[1..], sep)
  }

  /** `s.split(sep)[k]`, or `None` where Python raises IndexError. */
  function SplitPart(s: string, sep: string, k: nat): Option<string>
    requires sep != []
  {
    var parts := Split(s, sep);
    if k < |parts| then Some(parts[k]) else None
  }

  /** `s.split(sep, 1)`. */
  function SplitOnce(s: string, sep: string): (r: seq<string>)
    requires sep != []
    ensures 1 <= |r| <= 2
    ensures |r| == 1 <==> !Contains(s, sep)
  {
    match IndexOf(s, sep)
    case None => [s]
    case Some(i) => [s[..i], s[i + |sep|..]]
  }

  predicate NoSpace(w: string)
  {
    forall i :: 0 <= i < |w| ==> !IsSpace(w[i])
  }

  /** `s.split()`: the maximal runs of non-whitespace characters. */
  function Words(s: string): (r: seq<string>)
    ensures forall k :: 0 <= k < |r| ==> r[k] != [] && NoSpace(r[k])
    decreases |s|
  {
    if s == [] then []
    else if IsSpace(s[0]) then Words(s[1..])
    else
      var w := FirstWord(s);
      [w] + Words(s[|w|..])
  }

  /** The run of non-whitespace characters that starts `t`. */
  function FirstWord(t: string): (w: string)
    requires t != [] && !IsSpace(t[0])
    ensures w != [] && |w| <= |t| && NoSpace(w) && w == t[..|w|]
    ensures |w| < |t| ==> IsSpace(t[|w|])
  {
    var w := TakeWhile(t, NotSpace);
    assert NotSpace(t[0]);
    assert NoSpace(w) by {
      forall i | 0 <= i < |w| ensures !IsSpace(w[i]) {
        assert NotSpace(t[i]);
      }
    }
    w
  }

  /** `s.replace(pat, rep)`: every non-overlapping occurrence, left to right. */
  function Replace(s: string, pat: string, rep: string): string
    requires pat != []
    decreases |s|
  {
    if |s| < |pat| then s
    else if s[..|pat|] == pat then rep + Replace(s[|pat|..], pat, rep)
    else [s[0]] + Replace(s[1..], pat, rep)
  }

  /** `s[:n]`. */
  function Take(s: string, n: nat): (r: string)
    ensures |r| <= n && |r| <= |s| && r == s[..|r|]
    ensures |s| <= n ==> r == s
  {
    if |s| <= n then s else s[..n]
  }

  // ---------------------------------------------------------------- lemmas

  /** Splitting and re-joining gives back the string. */
  lemma {:induction false} JoinSplit(s: string, sep: string)
    requires sep != []
    ensures Join(Split(s, sep), sep) == s
    decreases |s|
  {
    var found := IndexOf(s, sep);
    if found.Some? {
      var i := found.value;
      var rest := s[i + |sep|..];
      JoinSplit(rest, sep);
      SplitAtFirst(s, sep, i);
      JoinCons(s[..i], Split(rest, sep), sep);
      SliceThree(s, i, i + |sep|);
    }
  }

  lemma SliceThree(s: string, i: nat, j: nat)
    requires i <= j <= |s|
    ensures s == s[..i] + s[i..j] + s[j..]
  {
  }

  lemma SplitAtFirst(s: string, sep: string, i: nat)
    requires sep != [] && IndexOf(s, sep) == Some(i)
    ensures i + |sep| <= |s| && s[i..i + |sep|] == sep
    ensures Split(s, sep) == [s[..i]] + Split(s[i + |sep|..], sep)
  {
    assert At(s, i, sep);
  }

  lemma JoinCons(a: string, tail: seq<string>, sep: string)
    requires tail != []
    ensures Join([a] + tail, sep) == a + sep + Join(tail, sep)
  {
    assert ([a] + tail)[1..] == tail;
  }

  /** A string without the separator splits into itself. */
  lemma SplitWithout(s: string, sep: string)
    requires sep != [] && !Contains(s, sep)
    ensures Split(s, sep) == [s]
  {
  }

  /** Splitting at a one-character separator whose first occurrence is known. */
  lemma SplitCons(a: string, c: char, b: string)
    requires c !in a
    ensures Split(a + [c] + b, [c]) == [a] + Split(b, [c])
  {
    var s := a + [c] + b;
    assert At(s, |a|, [c]);
    forall j | 0 <= j < |a| ensures !At(s, j, [c]) {
      assert s[j..j + 1] == [a[j]];
    }
    assert IndexOf(s, [c]) == Some(|a|);
    assert s[..|a|] == a;
    assert s[|a| + 1..] == b;
  }

  /** A string starting with the separator splits into an empty first part and the rest. */
  lemma SplitStartsWith(s: string, sep: string)
    requires sep != [] && StartsWith(s, sep)
    ensures Split(s, sep) == [""] + Split(s[|sep|..], sep)
  {
    assert At(s, 0, sep);
  }

  /** The separator followed by a string without it splits into `""` and that string. */
  lemma SplitPrefixOnce(sep: string, rest: string)
    requires sep != [] && !Contains(rest, sep)
    ensures Split(sep + rest, sep) == ["", rest]
  {
    SplitStartsWith(sep + rest, sep);
    assert (sep + rest)[|sep|..] == rest;
  }

  /** No occurrence of `p` can start inside a prefix that lacks `p`'s first character. */
  lemma NotInPrefix(a: string, b: string, p: string)
    requires p != [] && p[0] !in a && !Contains(b, p)
    ensures !Contains(a + b, p)
  {
    var s := a + b;
    forall j | 0 <= j ensures !At(s, j, p) {
      if j < |a| {
        assert s[j] == a[j] != p[0];
      } else if j + |p| <= |s| {
        assert s[j..j + |p|] == b[j - |a|..j - |a| + |p|];
        assert !At(b, j - |a|, p);
      }
    }
  }

  /** A string without `p` holds no longer pattern that starts with `p`. */
  lemma ContainsExtend(s: string, p: string, q: string)
    requires !Contains(s, p)
    ensures !Contains(s, p + q)
  {
    forall j | 0 <= j ensures !At(s, j, p + q) {
      if j + |p + q| <= |s| {
        assert s[j..j + |p + q|][..|p|] == s[j..j + |p|];
        assert !At(s, j, p);
      }
    }
  }

  /** `strip()` keeps a string whose two ends are not whitespace. */
  lemma StripEdges(r: string)
    requires r != [] && !IsSpace(r[0]) && !IsSpace(r[|r| - 1])
    ensures Strip(r) == r
  {
    assert LStrip(r, IsSpace) == r;
    assert RStrip(r, IsSpace) == r;
  }

  /** `strip()` ignores a leading whitespace character. */
  lemma StripLeadingSpace(c: char, s: string)
    requires IsSpace(c)
    ensures Strip([c] + s) == Strip(s)
  {
    assert ([c] + s)[1..] == s;
  }

  /** A string without a character does not contain it as a one-character pattern. */
  lemma LacksChar(s: string, c: char)
    requires c !in s
    ensures !Contains(s, [c])
  {
    forall j | 0 <= j ensures !At(s, j, [c]) {
      if j < |s| {
        assert s[j] != c;
      }
    }
  }

  /** Splitting two pieces joined by a character neither holds. */
  lemma SplitTwo(a: string, b: string, c: char)
    requires c !in a && c !in b
    ensures Split(a + [c] + b, [c]) == [a, b]
  {
    SplitCons(a, c, b);
    LacksChar(b, c);
    SplitWithout(b, [c]);
  }

  /** Splitting three pieces joined by a character none holds. */
  lemma SplitThree(a: string, b: string, d: string, c: char)
    requires c !in a && c !in b && c !in d
    ensures Split(a + [c] + b + [c] + d, [c]) == [a, b, d]
  {
    var t := b + [c] + d;
    assert a + [c] + b + [c] + d == a + [c] + t;
    SplitCons(a, c, t);
    SplitTwo(b, d, c);
    assert Split(t, [c]) == [b, d];
    assert [a] + [b, d] == [a, b, d];
  }

  /** `Replace` leaves a string without `pat` unchanged. */
  lemma {:induction false} ReplaceAbsent(s: string, pat: string, rep: string)
    requires pat != [] && !Contains(s, pat)
    ensures Replace(s, pat, rep) == s
    decreases |s|
  {
    if |s| >= |pat| {
      assert s[..|pat|] != pat by { assert !At(s, 0, pat); }
      assert !Contains(s[1..], pat) by {
        forall j | 0 <= j ensures !At(s[1..], j, pat) {
          if At(s[1..], j, pat) {
            assert s[j + 1..j + 1 + |pat|] == s[1..][j..j + |pat|];
            assert At(s, j + 1, pat);
          }
        }
      }
      ReplaceAbsent(s[1..], pat, rep);
      assert s == [s[0]] + s[1..];
    }
  }

  /** Replacing every occurrence of one character by text without it leaves none. */
  lemma {:induction false} ReplaceCharGone(s: string, c: char, rep: string)
    requires c !in rep
    ensures c !in Replace(s, [c], rep)
    decreases |s|
  {
    if |s| >= 1 {
      ReplaceCharGone(s[1..], c, rep);
    }
  }

  /** `Replace` introduces no character that neither the string nor the replacement has. */
  lemma {:induction false} ReplaceKeepsAbsent(s: string, pat: string, rep: string, x: char)
    requires pat != [] && x !in s && x !in rep
    ensures x !in Replace(s, pat, rep)
    decreases |s|
  {
    if |s| >= |pat| {
      if s[..|pat|] == pat {
        ReplaceKeepsAbsent(s[|pat|..], pat, rep, x);
      } else {
        ReplaceKeepsAbsent(s[1..], pat, rep, x);
      }
    }
  }

  /** The words of a string are made of its characters. */
  lemma {:induction false} WordsKeepAbsent(s: string, x: char)
    requires x !in s
    ensures forall k :: 0 <= k < |Words(s)| ==> x !in Words(s)[k]
    decreases |s|
  {
    if s != [] && IsSpace(s[0]) {
      assert x !in s[1..];
      WordsKeepAbsent(s[1..], x);
    } else if s != [] {
      var w := FirstWord(s);
      var rest := s[|w|..];
      assert x !in w;
      assert x !in rest;
      WordsKeepAbsent(rest, x);
      var ws := Words(s);
      assert ws == [w] + Words(rest);
      forall k | 0 <= k < |ws| ensures x !in ws[k] {
        if k > 0 {
          assert ws[k] == Words(rest)[k - 1];
        }
      }
    }
  }

  /** Case mapping neither creates nor removes a character that is not an ASCII letter. */
  lemma CapitalizeKeepsAbsent(w: string, x: char)
    requires x !in w && !('a' <= x <= 'z') && !('A' <= x <= 'Z')
    ensures x !in Capitalize(w)
  {
    if w != [] {
      assert forall i :: 0 <= i < |w| - 1 ==> Lower(w[1..])[i] == LowerChar(w[1..][i]);
    }
  }

  /** Joining adds only the separator's characters. */
  lemma {:induction false} JoinKeepsAbsent(parts: seq<string>, sep: string, x: char)
    requires x !in sep && forall k :: 0 <= k < |parts| ==> x !in parts[k]
    ensures x !in Join(parts, sep)
    decreases |parts|
  {
    if |parts| > 1 {
      JoinKeepsAbsent(parts[1..], sep, x);
    }
  }

  /** The text of `s` before the first occurrence of `p`, or all of `s` when `p` does not occur. */
  function TextBefore(s: string, p: string): string
  {
    match IndexOf(s, p)
    case Some(i) => s[..i]
    case None => s
  }

  /** The text of `s` after the first occurrence of `p`. */
  function TextAfter(s: string, p: string): string
    requires Contains(s, p)
  {
    s[IndexOf(s, p).value + |p|..]
  }

  /** The first part of a split is the text before the first separator. */
  lemma SplitHead(s: string, sep: string)
    requires sep != []
    ensures Split(s, sep)[0] == TextBefore(s, sep)
  {
  }

  /** The second part of a split is the text between the first and the second separator. */
  lemma SplitSecond(s: string, sep: string)
    requires sep != []
    ensures |Split(s, sep)| >= 2 <==> Contains(s, sep)
    ensures Contains(s, sep) ==> Split(s, sep)[1] == TextBefore(TextAfter(s, sep), sep)
  {
    if Contains(s, sep) {
      var i := IndexOf(s, sep).value;
      SplitAtFirst(s, sep, i);
      SplitHead(s[i + |sep|..], sep);
    }
  }

  /** A separator that starts after a prefix lacking its first character splits off that prefix. */
  lemma SplitMarkerOnce(a: string, p: string, b: string)
    requires p != [] && p[0] !in a && !Contains(b, p)
    ensures Contains(a + p + b, p) && IndexOf(a + p + b, p) == Some(|a|)
    ensures TextAfter(a + p + b, p) == b
    ensures Split(a + p + b, p) == [a, b]
  {
    var s := a + p + b;
    assert At(s, |a|, p);
    forall j | 0 <= j < |a| ensures !At(s, j, p) {
      assert s[j] == a[j];
    }
    assert IndexOf(s, p) == Some(|a|);
    SplitAtFirst(s, p, |a|);
    assert s[..|a|] == a;
    assert s[|a| + |p|..] == b;
    SplitWithout(b, p);
  }

  /** No occurrence of `p` starts at the first character when `s` does not start with `p`. */
  lemma NotInCons(c: char, s: string, p: string)
    requires p != [] && !StartsWith([c] + s, p) && !Contains(s, p)
    ensures !Contains([c] + s, p)
  {
    var t := [c] + s;
    forall j | 0 <= j ensures !At(t, j, p) {
      if j > 0 && j + |p| <= |t| {
        assert t[j..j + |p|] == s[j - 1..j - 1 + |p|];
        assert !At(s, j - 1, p);
      }
    }
  }

  /** A prefix of a string without `p` does not contain `p`. */
  lemma NotInTake(s: string, n: nat, p: string)
    requires n <= |s| && !Contains(s, p)
    ensures !Contains(s[..n], p)
  {
    forall j | 0 <= j ensures !At(s[..n], j, p) {
      if j + |p| <= n {
        assert s[..n][j..j + |p|] == s[j..j + |p|];
        assert !At(s, j, p);
      }
    }
  }

  /** `Replace` rewrites an occurrence at the start. */
  lemma ReplaceHere(pat: string, rest: string, rep: string)
    requires pat != []
    ensures Replace(pat + rest, pat, rep) == rep + Replace(rest, pat, rep)
  {
    assert (pat + rest)[..|pat|] == pat;
    assert (pat + rest)[|pat|..] == rest;
  }

  /** `Replace` keeps a first character at which no occurrence starts. */
  lemma ReplaceSkip(c: char, rest: string, pat: string, rep: string)
    requires pat != [] && !StartsWith([c] + rest, pat)
    ensures Replace([c] + rest, pat, rep) == [c] + Replace(rest, pat, rep)
  {
    var s := [c] + rest;
    assert s[1..] == rest;
    if |s| < |pat| {
      assert Replace(rest, pat, rep) == rest;
    }
  }

  /** Trailing whitespace after a non-whitespace character is all `rstrip()` removes. */
  lemma {:induction false} RStripSpaceAppend(a: string, y: string)
    requires a != [] && !IsSpace(a[|a| - 1])
    ensures RStripSpace(a + y) == a + RStripSpace(y)
    decreases |y|
  {
    if y == [] {
      assert a + y == a;
    } else if IsSpace(y[|y| - 1]) {
      assert (a + y)[..|a + y| - 1] == a + y[..|y| - 1];
      RStripSpaceAppend(a, y[..|y| - 1]);
    }
  }

  /** `strip()` ignores a trailing whitespace character. */
  lemma {:induction false} StripTrailingSpace(s: string, c: char)
    requires IsSpace(c)
    ensures Strip(s + [c]) == Strip(s)
    decreases |s|
  {
    var t := s + [c];
    if s == [] {
      assert t[1..] == [];
    } else if IsSpace(s[0]) {
      assert t[1..] == s[1..] + [c];
      StripTrailingSpace(s[1..], c);
    } else {
      assert t[..|t| - 1] == s;
    }
  }

  /** Stripping after `rstrip()` is stripping. */
  lemma {:induction false} StripOfRStripSpace(s: string)
    ensures Strip(RStripSpace(s)) == Strip(s)
    decreases |s|
  {
    if s != [] && IsSpace(s[|s| - 1]) {
      var init := s[..|s| - 1];
      StripOfRStripSpace(init);
      assert s == init + [s[|s| - 1]];
      StripTrailingSpace(init, s[|s| - 1]);
    }
  }

  /** `strip()` is idempotent. */
  lemma StripTwice(s: string)
    ensures Strip(Strip(s)) == Strip(s)
  {
    StripIsStripBy(s);
    var l := LStrip(s, IsSpace);
    var r := RStrip(l, IsSpace);
    if r != [] {
      assert r[0] == l[0];
      StripEdges(r);
    }
  }

  /** `rstrip()` introduces no occurrence of a pattern. */
  lemma RStripSpaceKeepsAbsent(s: string, p: string)
    requires !Contains(s, p)
    ensures !Contains(RStripSpace(s), p)
  {
    RStripSpaceIsRStrip(s);
    NotInTake(s, |RStripSpace(s)|, p);
  }

  /** Stripping a space and a text after `rstrip()` is stripping the text. */
  lemma StripOfSpacedRStrip(t: string)
    ensures Strip(RStripSpace(" " + t)) == Strip(t)
  {
    StripOfRStripSpace(" " + t);
    StripLeadingSpace(' ', t);
  }

  /** A leading word followed by whitespace or nothing is the first word. */
  lemma WordsCons(w: string, rest: string)
    requires w != [] && NoSpace(w) && (rest == [] || IsSpace(rest[0]))
    ensures Words(w + rest) == [w] + Words(rest)
  {
    var s := w + rest;
    assert NotSpace(s[0]);
    assert forall i :: 0 <= i < |w| ==> NotSpace(w[i]);
    TakeWhileUpTo(w, rest, NotSpace);
    assert FirstWord(s) == w;
    assert s[|w|..] == rest;
  }

  /** The first occurrence of a pattern is the one after a prefix that lacks its first character. */
  lemma IndexAfterPrefix(a: string, p: string, b: string)
    requires p != [] && p[0] !in a
    ensures IndexOf(a + p + b, p) == Some(|a|)
  {
    var s := a + p + b;
    assert At(s, |a|, p);
    forall j | 0 <= j < |a| ensures !At(s, j, p) {
      assert s[j] == a[j];
    }
  }

  /** A non-empty joined list starts with its first part's first character. */
  lemma JoinFirst(parts: seq<string>, sep: string)
    requires parts != [] && parts[0] != []
    ensures Join(parts, sep) != [] && Join(parts, sep)[0] == parts[0][0]
  {
  }

  /** A joined list ends with its last part's last character. */
  lemma {:induction false} JoinLast(parts: seq<string>, sep: string)
    requires parts != [] && parts[|parts| - 1] != []
    ensures var j := Join(parts, sep); j != [] && j[|j| - 1] == parts[|parts| - 1][|parts[|parts| - 1]| - 1]
    decreases |parts|
  {
    if |parts| > 1 {
      JoinLast(parts[1..], sep);
    }
  }

  /** `Replace` of a one-character pattern after a prefix without that character. */
  lemma {:induction false} ReplaceCharAfter(a: string, c: char, b: string, rep: string)
    requires c !in a
    ensures Replace(a + [c] + b, [c], rep) == a + rep + Replace(b, [c], rep)
    decreases |a|
  {
    if a == [] {
      assert a + [c] + b == [c] + b;
      ReplaceHere([c], b, rep);
    } else {
      var s := a + [c] + b;
      assert s == [a[0]] + (a[1..] + [c] + b);
      ReplaceSkip(a[0], a[1..] + [c] + b, [c], rep);
      ReplaceCharAfter(a[1..], c, b, rep);
      assert a == [a[0]] + a[1..];
    }
  }

  /** Replacing the separator character of a join by another separator re-joins the parts. */
  lemma {:induction false} ReplaceJoinSeparator(parts: seq<string>, c: char, rep: string)
    requires parts != [] && forall k :: 0 <= k < |parts| ==> c !in parts[k]
    ensures Replace(Join(parts, [c]), [c], rep) == Join(parts, rep)
    decreases |parts|
  {
    if |parts| == 1 {
      LacksChar(parts[0], c);
      ReplaceAbsent(parts[0], [c], rep);
    } else {
      ReplaceCharAfter(parts[0], c, Join(parts[1..], [c]), rep);
      ReplaceJoinSeparator(parts[1..], c, rep);
    }
  }

  /** Words joined by single spaces split back into those words. */
  lemma {:induction false} WordsOfJoin(ws: seq<string>)
    requires forall k :: 0 <= k < |ws| ==> ws[k] != [] && NoSpace(ws[k])
    ensures Words(Join(ws, " ")) == ws
    decreases |ws|
  {
    if |ws| == 1 {
      WordsCons(ws[0], []);
      assert ws[0] + [] == ws[0];
    } else if |ws| > 1 {
      var tail := Join(ws[1..], " ");
      assert Join(ws, " ") == ws[0] + (" " + tail);
      WordsCons(ws[0], " " + tail);
      assert (" " + tail)[1..] == tail;
      WordsOfJoin(ws[1..]);
      assert ws == [ws[0]] + ws[1..];
    }
  }

  // ---------------------------------------------------------------- decimal numbers

  function DigitValue(c: char): nat
    requires IsDigit(c)
  {
    c as int - '0' as int
  }

  function DigitChar(d: nat): (c: char)
    requires d < 10
    ensures IsDigit(c) && DigitValue(c) == d
  {
    ('0' as int + d) as char
  }

  /** The number a string of decimal digits denotes. */
  function DigitsValue(s: string): nat
    requires forall i :: 0 <= i < |s| ==> IsDigit(s[i])
  {
    if s == [] then 0 else 10 * DigitsValue(s[..|s| - 1]) + DigitValue(s[|s| - 1])
  }

  /** `str(n)` for a natural number. */
  function NatToString(n: nat): (r: string)
    ensures IsDigits(r)
  {
    if n < 10 then [DigitChar(n)] else NatToString(n / 10) + [DigitChar(n % 10)]
  }

  /** `str(n)`. */
  function IntToString(n: int): (r: string)
    ensures r != [] && (r[0] == '-' || IsDigit(r[0])) && IsDigit(r[|r| - 1])
    ensures forall i :: 0 <= i < |r| ==> r[i] == '-' || IsDigit(r[i])
  {
    if n < 0 then "-" + NatToString(-n) else NatToString(n)
  }

  /**
   * The body of a decimal literal as `int()` accepts it: digits, with single underscores
   * allowed between two digits.
   */
  predicate IsDigitGroups(s: string)
  {
    && s != [] && IsDigit(s[0]) && IsDigit(s[|s| - 1])
    && (forall i :: 0 <= i < |s| ==> IsDigit(s[i]) || s[i] == '_')
    && (forall i :: 0 <= i < |s| - 1 && s[i] == '_' ==> IsDigit(s[i + 1]))
  }

  function DropUnderscores(s: string): (r: string)
    requires forall i :: 0 <= i < |s| ==> IsDigit(s[i]) || s[i] == '_'
    ensures forall i :: 0 <= i < |r| ==> IsDigit(r[i])
  {
    if s == [] then [] else (if s[0] == '_' then [] else [s[0]]) + DropUnderscores(s[1..])
  }

  /**
   * Python's `int(s)` in base 10; `None` where it raises ValueError. Whitespace at either end
   * is ignored: leading whitespace here, trailing whitespace in `ParseUntrailed`.
   */
  function ParseInt(s: string): Option<int>
    decreases |s|
  {
    if s != [] && IsSpace(s[0]) then ParseInt(s[1..]) else ParseUntrailed(s)
  }

  /** `int(s)` for a string that does not start with whitespace. */
  function ParseUntrailed(s: string): Option<int>
    decreases |s|
  {
    if s != [] && IsSpace(s[|s| - 1]) then ParseUntrailed(s[..|s| - 1]) else ParseLiteral(s)
  }

  /** `int(t)` for a string with no whitespace at either end: an optional sign, then digit groups. */
  function ParseLiteral(t: string): Option<int>
  {
    if t == [] then None
    else
      var neg := t[0] == '-';
      var body := if t[0] == '-' || t[0] == '+' then t[1..] else t;
      if IsDigitGroups(body) then
        var n: int := DigitsValue(DropUnderscores(body));
        Some(if neg then -n else n)
      else None
  }

  /** The characters a text `int()` accepts can hold: whitespace, digits, `_` and signs. */
  predicate IntChar(c: char)
  {
    IsSpace(c) || IsDigit(c) || c == '_' || c == '+' || c == '-'
  }

  /** A text `int()` accepts is non-empty and made of `IntChar`s, so it holds no `.` and no letter. */
  lemma {:induction false} ParseIntChars(s: string)
    requires ParseInt(s).Some?
    ensures s != [] && forall i :: 0 <= i < |s| ==> IntChar(s[i])
    decreases |s|
  {
    if s != [] && IsSpace(s[0]) {
      ParseIntChars(s[1..]);
      assert forall i :: 1 <= i < |s| ==> s[i] == s[1..][i - 1];
    } else {
      ParseUntrailedChars(s);
    }
  }

  lemma {:induction false} ParseUntrailedChars(s: string)
    requires ParseUntrailed(s).Some?
    ensures s != [] && forall i :: 0 <= i < |s| ==> IntChar(s[i])
    decreases |s|
  {
    if s != [] && IsSpace(s[|s| - 1]) {
      var init := s[..|s| - 1];
      if init != [] {
        ParseUntrailedChars(init);
      }
      assert forall i :: 0 <= i < |init| ==> s[i] == init[i];
    } else {
      var body := if s[0] == '-' || s[0] == '+' then s[1..] else s;
      assert forall i :: 0 <= i < |body| ==> IsDigit(body[i]) || body[i] == '_';
      assert forall i :: 1 <= i < |s| ==> IntChar(s[i]) by {
        forall i | 1 <= i < |s| ensures IntChar(s[i]) {
          if s[0] == '-' || s[0] == '+' {
            assert s[i] == body[i - 1];
          } else {
            assert s[i] == body[i];
          }
        }
      }
    }
  }

  /** The recursive reading agrees with stripping first. */
  lemma {:induction false} ParseIntIsStripThenParse(s: string)
    ensures ParseInt(s) == ParseLiteral(Strip(s))
    decreases |s|
  {
    if s != [] && IsSpace(s[0]) {
      ParseIntIsStripThenParse(s[1..]);
    } else {
      ParseUntrailedIsRStripThenParse(s);
    }
  }

  lemma {:induction false} ParseUntrailedIsRStripThenParse(s: string)
    ensures ParseUntrailed(s) == ParseLiteral(RStripSpace(s))
    decreases |s|
  {
    if s != [] && IsSpace(s[|s| - 1]) {
      ParseUntrailedIsRStripThenParse(s[..|s| - 1]);
    }
  }

  lemma {:induction false} DigitsOfNat(n: nat)
    ensures DigitsValue(NatToString(n)) == n
  {
    if n >= 10 {
      DigitsOfNat(n / 10);
      var s := NatToString(n);
      assert s[..|s| - 1] == NatToString(n / 10);
    }
  }

  lemma {:induction false} DropUnderscoresDigits(s: string)
    requires forall i :: 0 <= i < |s| ==> IsDigit(s[i])
    ensures DropUnderscores(s) == s
  {
    if s != [] {
      DropUnderscoresDigits(s[1..]);
    }
  }

  /** `int(str(n)) == n`. */
  lemma ParseIntToString(n: int)
    ensures ParseInt(IntToString(n)) == Some(n)
  {
    var r := IntToString(n);
    assert ParseInt(r) == ParseUntrailed(r) == ParseLiteral(r);
    var m: nat := if n < 0 then -n else n;
    var digits := NatToString(m);
    assert r == if n < 0 then "-" + digits else digits;
    var body := if r[0] == '-' || r[0] == '+' then r[1..] else r;
    assert body == digits;
    assert IsDigitGroups(digits);
    DropUnderscoresDigits(digits);
    DigitsOfNat(m);
  }
}

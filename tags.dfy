/**
 * Release tags: the version bump of `increment_tag_version` and the choice of the latest
 * tag in `get_latest_tag` (`version_key` with a descending, stable sort).
 */
module Tags {
  import opened Wrappers
  import opened PyStr

  /** The characters `lstrip('vV')` removes. */
  predicate IsVee(c: char)
  {
    c == 'v' || c == 'V'
  }

  /** The character `lstrip('v')` removes. */
  predicate IsLowerVee(c: char)
  {
    c == 'v'
  }

  /** The version text: `v`, then the three numbers in decimal, separated by dots. */
  function Format(major: int, minor: int, patch: int): string
  {
    "v" + IntToString(major) + "." + IntToString(minor) + "." + IntToString(patch)
  }

  /** The tag the bump falls back to. */
  function DefaultTag(): string
  {
    Format(1, 0, 0)
  }

  lemma DefaultTagText()
    ensures DefaultTag() == "v1.0.0"
  {
    assert IntToString(1) == "1";
    assert IntToString(0) == "0";
  }

  /** `int(p)` for every part, or `None` where one of them raises. */
  function ParseAll(parts: seq<string>): (r: Option<seq<int>>)
    ensures r.Some? ==> |r.value| == |parts| && forall k :: 0 <= k < |parts| ==> ParseInt(parts[k]) == Some(r.value[k])
  {
    if parts == [] then Some([])
    else
      match ParseInt(parts[0])
      case None => None
      case Some(head) =>
        match ParseAll(parts[1..])
        case None => None
        case Some(tail) => Some([head] + tail)
  }

  /** Reading fails exactly when some part is rejected by `int()`. */
  lemma {:induction false} ParseAllFails(parts: seq<string>)
    ensures ParseAll(parts).None? <==> exists k :: 0 <= k < |parts| && ParseInt(parts[k]).None?
  {
    if parts != [] {
      ParseAllFails(parts[1..]);
      if ParseInt(parts[0]).Some? && ParseAll(parts[1..]).None? {
        var k :| 0 <= k < |parts[1..]| && ParseInt(parts[1..][k]).None?;
        assert ParseInt(parts[k + 1]).None?;
      }
      if ParseInt(parts[0]).Some? && ParseAll(parts[1..]).Some? {
        forall k | 0 <= k < |parts| ensures ParseInt(parts[k]).Some? {
          if k > 0 {
            assert parts[k] == parts[1..][k - 1];
          }
        }
      }
    }
  }

  /** The dot-separated parts of a tag once its leading `v`/`V` characters are gone. */
  function VersionParts(tag: string): (parts: seq<string>)
    ensures |parts| >= 1
  {
    Split(LStrip(tag, IsVee), ".")
  }

  /** A tag of the promised shape: `v`, then exactly three parts that `int()` accepts. */
  predicate IsVersionTag(t: string)
  {
    && StartsWith(t, "v")
    && var parts := Split(LStrip(t, IsLowerVee), ".");
    && |parts| == 3
    && ParseAll(parts).Some?
  }

  /** `str(n)` holds no dot and does not start with `v` or `V`. */
  lemma Numeral(n: int)
    ensures IntToString(n) != [] && '.' !in IntToString(n) && !IsVee(IntToString(n)[0])
  {
    var s := IntToString(n);
    assert forall i :: 0 <= i < |s| ==> s[i] != '.';
  }

  /** `lstrip` removes a leading `v` and stops at a character it does not drop. */
  lemma StripVee(body: string, drop: char -> bool)
    requires body != [] && drop('v') && !drop(body[0])
    ensures LStrip("v" + body, drop) == body
  {
    assert ("v" + body)[1..] == body;
  }

  lemma ParseAllOne(a: string, x: int)
    requires ParseInt(a) == Some(x)
    ensures ParseAll([a]) == Some([x])
  {
    assert [a][1..] == [];
    assert ParseAll([a]) == Some([x] + []);
    assert [x] + [] == [x];
  }

  lemma ParseAllTwo(a: string, b: string, x: int, y: int)
    requires ParseInt(a) == Some(x) && ParseInt(b) == Some(y)
    ensures ParseAll([a, b]) == Some([x, y])
  {
    ParseAllOne(b, y);
    assert [a, b][1..] == [b];
    assert ParseAll([a, b]) == Some([x] + [y]);
    assert [x] + [y] == [x, y];
  }

  lemma ParseAllThree(a: string, b: string, c: string, x: int, y: int, z: int)
    requires ParseInt(a) == Some(x) && ParseInt(b) == Some(y) && ParseInt(c) == Some(z)
    ensures ParseAll([a, b, c]) == Some([x, y, z])
  {
    ParseAllTwo(b, c, y, z);
    assert [a, b, c][1..] == [b, c];
    assert ParseAll([a, b, c]) == Some([x] + [y, z]);
    assert [x] + [y, z] == [x, y, z];
  }

  /** Splitting `a.b.c` after the `v` gives back the three numerals. */
  lemma FormatParts(major: int, minor: int, patch: int, drop: char -> bool)
    requires drop('v') && !drop('-') && forall c :: IsDigit(c) ==> !drop(c)
    ensures Split(LStrip(Format(major, minor, patch), drop), ".") ==
      [IntToString(major), IntToString(minor), IntToString(patch)]
  {
    var a, b, c := IntToString(major), IntToString(minor), IntToString(patch);
    Numeral(major);
    Numeral(minor);
    Numeral(patch);
    var body := a + ['.'] + b + ['.'] + c;
    assert Format(major, minor, patch) == "v" + body;
    assert body[0] == a[0];
    StripVee(body, drop);
    SplitThree(a, b, c, '.');
  }

  /** A formatted version has the promised shape and reads back as its three numbers. */
  lemma FormatIsVersionTag(major: int, minor: int, patch: int)
    ensures IsVersionTag(Format(major, minor, patch))
    ensures ParseAll(Split(LStrip(Format(major, minor, patch), IsLowerVee), ".")) == Some([major, minor, patch])
  {
    var t := Format(major, minor, patch);
    var a, b, c := IntToString(major), IntToString(minor), IntToString(patch);
    FormatParts(major, minor, patch, IsLowerVee);
    var parts := Split(LStrip(t, IsLowerVee), ".");
    assert parts == [a, b, c];
    ParseIntToString(major);
    ParseIntToString(minor);
    ParseIntToString(patch);
    ParseAllThree(a, b, c, major, minor, patch);
    FormatStartsWithVee(major, minor, patch);
  }

  lemma FormatStartsWithVee(major: int, minor: int, patch: int)
    ensures StartsWith(Format(major, minor, patch), "v")
  {
    var body := IntToString(major) + "." + IntToString(minor) + "." + IntToString(patch);
    assert Format(major, minor, patch) == "v" + body;
    assert ("v" + body)[..1] == "v";
  }

  /** The three numbers of a version. */
  datatype Version = Version(major: int, minor: int, patch: int)

  function VersionText(v: Version): string
  {
    Format(v.major, v.minor, v.patch)
  }

  /**
   * The numbers `increment_tag_version` formats: `None` and `""` are the falsy inputs. Three or
   * more parts bump the patch, two bump the minor, one gives `.0.1`; any part `int()` rejects
   * gives the default 1.0.0.
   */
  function NextVersion(tag: Option<string>): (v: Version)
    ensures tag.None? || tag.value == [] ==> v == Version(1, 0, 0)
  {
    if tag.None? || tag.value == [] then Version(1, 0, 0)
    else
      match ParseAll(UsedParts(tag.value))
      case None => Version(1, 0, 0)
      case Some(ns) => Bump(ns)
  }

  /** `increment_tag_version`: the next version, formatted. */
  function IncrementTagVersion(tag: Option<string>): (r: string)
    ensures tag.None? || tag.value == [] ==> r == DefaultTag()
  {
    VersionText(NextVersion(tag))
  }

  /** The parts the bump reads: the first three, or all of them when there are fewer. */
  function UsedParts(tag: string): (used: seq<string>)
    ensures 1 <= |used| <= 3 && |used| <= |VersionParts(tag)| && used == VersionParts(tag)[..|used|]
    ensures |used| < 3 ==> used == VersionParts(tag)
  {
    var parts := VersionParts(tag);
    if |parts| >= 3 then parts[..3] else parts
  }

  /** The bumped version for the numbers read from one, two or three parts. */
  function Bump(ns: seq<int>): Version
    requires 1 <= |ns| <= 3
  {
    if |ns| == 3 then Version(ns[0], ns[1], ns[2] + 1)
    else if |ns| == 2 then Version(ns[0], ns[1] + 1, 0)
    else Version(ns[0], 0, 1)
  }

  /** Whatever the input, the bumped tag has the promised `vX.Y.Z` shape. */
  lemma IncrementTagVersionIsVersionTag(tag: Option<string>)
    ensures IsVersionTag(IncrementTagVersion(tag))
  {
    var v := NextVersion(tag);
    FormatIsVersionTag(v.major, v.minor, v.patch);
  }

  /** A non-empty tag whose used parts read as `ns` is bumped according to `ns`. */
  lemma IncrementOfParts(tag: string, ns: seq<int>)
    requires tag != [] && ParseAll(UsedParts(tag)) == Some(ns)
    ensures 1 <= |ns| <= 3 && IncrementTagVersion(Some(tag)) == VersionText(Bump(ns))
  {
    assert NextVersion(Some(tag)) == Bump(ns);
  }

  lemma UsedPartsOfFormat(major: int, minor: int, patch: int)
    ensures UsedParts(Format(major, minor, patch)) == [IntToString(major), IntToString(minor), IntToString(patch)]
  {
    var a, b, c := IntToString(major), IntToString(minor), IntToString(patch);
    FormatParts(major, minor, patch, IsVee);
    assert VersionParts(Format(major, minor, patch)) == [a, b, c];
    assert [a, b, c][..3] == [a, b, c];
  }

  lemma ParseAllOfNumerals3(major: int, minor: int, patch: int)
    ensures ParseAll([IntToString(major), IntToString(minor), IntToString(patch)]) == Some([major, minor, patch])
  {
    ParseIntToString(major);
    ParseIntToString(minor);
    ParseIntToString(patch);
    ParseAllThree(IntToString(major), IntToString(minor), IntToString(patch), major, minor, patch);
  }

  /** Bumping `vX.Y.Z` gives `vX.Y.(Z+1)`. */
  lemma IncrementPatch(major: int, minor: int, patch: int)
    ensures IncrementTagVersion(Some(Format(major, minor, patch))) == Format(major, minor, patch + 1)
  {
    var t := Format(major, minor, patch);
    UsedPartsOfFormat(major, minor, patch);
    ParseAllOfNumerals3(major, minor, patch);
    FormatStartsWithVee(major, minor, patch);
    IncrementOfParts(t, [major, minor, patch]);
  }

  /** The text `vX.Y`. */
  function TwoPartTag(major: int, minor: int): string
  {
    "v" + IntToString(major) + "." + IntToString(minor)
  }

  lemma UsedPartsOfTwo(major: int, minor: int)
    ensures UsedParts(TwoPartTag(major, minor)) == [IntToString(major), IntToString(minor)]
  {
    var a, b := IntToString(major), IntToString(minor);
    Numeral(major);
    Numeral(minor);
    var body := a + ['.'] + b;
    assert TwoPartTag(major, minor) == "v" + body;
    assert body[0] == a[0];
    StripVee(body, IsVee);
    SplitTwo(a, b, '.');
  }

  /** Bumping `vX.Y` gives `vX.(Y+1).0`. */
  lemma IncrementMinor(major: int, minor: int)
    ensures IncrementTagVersion(Some(TwoPartTag(major, minor))) == Format(major, minor + 1, 0)
  {
    UsedPartsOfTwo(major, minor);
    ParseIntToString(major);
    ParseIntToString(minor);
    ParseAllTwo(IntToString(major), IntToString(minor), major, minor);
    IncrementOfParts(TwoPartTag(major, minor), [major, minor]);
  }

  lemma UsedPartsOfOne(major: int)
    ensures UsedParts("v" + IntToString(major)) == [IntToString(major)]
  {
    var a := IntToString(major);
    Numeral(major);
    StripVee(a, IsVee);
    LacksChar(a, '.');
    SplitWithout(a, ".");
  }

  /** Bumping `vX` gives `vX.0.1`. */
  lemma IncrementMajorOnly(major: int)
    ensures IncrementTagVersion(Some("v" + IntToString(major))) == Format(major, 0, 1)
  {
    var a := IntToString(major);
    UsedPartsOfOne(major);
    ParseIntToString(major);
    ParseAllOne(a, major);
    IncrementOfParts("v" + a, [major]);
  }

  /** A tag whose first part is not a number falls back to `v1.0.0`. */
  lemma IncrementNonNumeric(tag: string)
    requires tag != [] && ParseInt(VersionParts(tag)[0]).None?
    ensures IncrementTagVersion(Some(tag)) == DefaultTag()
  {
    assert UsedParts(tag)[0] == VersionParts(tag)[0];
    assert ParseAll(UsedParts(tag)).None?;
  }

  /** A part that `int()` rejects among the first three makes the bump fall back to `v1.0.0`. */
  lemma IncrementRejectedPart(tag: string, k: nat)
    requires tag != [] && k < 3 && k < |VersionParts(tag)| && ParseInt(VersionParts(tag)[k]).None?
    ensures IncrementTagVersion(Some(tag)) == DefaultTag()
  {
    var used := UsedParts(tag);
    assert used[k] == VersionParts(tag)[k];
    ParseAllFails(used);
  }

  /** Splitting `a.b.c` followed by nothing or by `.` and more parts starts with `a`, `b`, `c`. */
  lemma {:induction false} SplitThreeOrMore(a: string, b: string, c: string, rest: string)
    requires '.' !in a && '.' !in b && '.' !in c && (rest == [] || rest[0] == '.')
    ensures |Split(a + "." + b + "." + c + rest, ".")| >= 3
    ensures Split(a + "." + b + "." + c + rest, ".")[..3] == [a, b, c]
  {
    if rest == [] {
      assert a + "." + b + "." + c + rest == a + ['.'] + b + ['.'] + c;
      SplitThree(a, b, c, '.');
    } else {
      assert a + "." + b + "." + c + rest == a + ['.'] + (b + ['.'] + (c + ['.'] + rest[1..]));
      SplitThreeThenMore(a, b, c, rest[1..]);
    }
  }

  lemma {:induction false} SplitThreeThenMore(a: string, b: string, c: string, more: string)
    requires '.' !in a && '.' !in b && '.' !in c
    ensures Split(a + ['.'] + (b + ['.'] + (c + ['.'] + more)), ".") == [a, b, c] + Split(more, ".")
  {
    var t := b + ['.'] + (c + ['.'] + more);
    SplitCons(a, '.', t);
    SplitTwoThenMore(b, c, more);
    assert [a] + ([b, c] + Split(more, ".")) == [a, b, c] + Split(more, ".");
  }

  lemma {:induction false} SplitTwoThenMore(b: string, c: string, more: string)
    requires '.' !in b && '.' !in c
    ensures Split(b + ['.'] + (c + ['.'] + more), ".") == [b, c] + Split(more, ".")
  {
    SplitCons(b, '.', c + ['.'] + more);
    SplitCons(c, '.', more);
    assert [b] + ([c] + Split(more, ".")) == [b, c] + Split(more, ".");
  }

  /**
   * A tag `v<a>.<b>.<c>`, possibly followed by more dot-separated parts, with `a`, `b` and `c`
   * accepted by `int()`: the patch number is bumped and the extra parts are dropped.
   */
  lemma {:induction false} IncrementThreeOrMore(a: string, b: string, c: string, rest: string, x: int, y: int, z: int)
    requires ParseInt(a) == Some(x) && ParseInt(b) == Some(y) && ParseInt(c) == Some(z)
    requires rest == [] || rest[0] == '.'
    ensures IncrementTagVersion(Some("v" + a + "." + b + "." + c + rest)) == Format(x, y, z + 1)
  {
    UsedPartsOfThreeOrMore(a, b, c, rest);
    ParseAllThree(a, b, c, x, y, z);
    IncrementOfParts("v" + a + "." + b + "." + c + rest, [x, y, z]);
  }

  lemma {:induction false} UsedPartsOfThreeOrMore(a: string, b: string, c: string, rest: string)
    requires ParseInt(a).Some? && ParseInt(b).Some? && ParseInt(c).Some?
    requires rest == [] || rest[0] == '.'
    ensures UsedParts("v" + a + "." + b + "." + c + rest) == [a, b, c]
  {
    ParseIntChars(a);
    ParseIntChars(b);
    ParseIntChars(c);
    var body := a + "." + b + "." + c + rest;
    assert "v" + a + "." + b + "." + c + rest == "v" + body;
    assert body[0] == a[0];
    StripVee(body, IsVee);
    SplitThreeOrMore(a, b, c, rest);
  }

  // ---------------------------------------------------------------- the latest tag

  /** Python's `<` on tuples of ints: the first difference decides, and a proper prefix is smaller. */
  predicate LexLess(a: seq<int>, b: seq<int>)
    decreases |a|
  {
    if a == [] then b != []
    else if b == [] then false
    else a[0] < b[0] || (a[0] == b[0] && LexLess(a[1..], b[1..]))
  }

  lemma {:induction false} LexIrreflexive(a: seq<int>)
    ensures !LexLess(a, a)
    decreases |a|
  {
    if a != [] {
      LexIrreflexive(a[1..]);
    }
  }

  lemma {:induction false} LexTransitive(a: seq<int>, b: seq<int>, c: seq<int>)
    requires LexLess(a, b) && LexLess(b, c)
    ensures LexLess(a, c)
    decreases |a|
  {
    if a != [] && b != [] && c != [] && a[0] == b[0] == c[0] {
      LexTransitive(a[1..], b[1..], c[1..]);
    }
  }

  lemma {:induction false} LexTotal(a: seq<int>, b: seq<int>)
    requires a != b
    ensures LexLess(a, b) || LexLess(b, a)
    decreases |a|
  {
    if a != [] && b != [] && a[0] == b[0] {
      assert a == [a[0]] + a[1..] && b == [b[0]] + b[1..];
      LexTotal(a[1..], b[1..]);
    }
  }

  /** `version_key`: the parts as integers, or `(0, 0, 0)` where one of them raises. */
  function VersionKey(tag: string): (k: seq<int>)
    ensures |k| >= 1
  {
    match ParseAll(VersionParts(tag))
    case Some(ns) => ns
    case None => [0, 0, 0]
  }

  /** The key of a formatted version is its three numbers. */
  lemma VersionKeyOfFormat(major: int, minor: int, patch: int)
    ensures VersionKey(Format(major, minor, patch)) == [major, minor, patch]
  {
    FormatParts(major, minor, patch, IsVee);
    Numeral(major);
    ParseIntToString(major);
    Numeral(minor);
    ParseIntToString(minor);
    Numeral(patch);
    ParseIntToString(patch);
    ParseAllThree(IntToString(major), IntToString(minor), IntToString(patch), major, minor, patch);
  }

  /** A bumped three-part tag sorts after the tag it came from. */
  lemma IncrementSortsLater(major: int, minor: int, patch: int)
    ensures LexLess(VersionKey(Format(major, minor, patch)),
                    VersionKey(IncrementTagVersion(Some(Format(major, minor, patch)))))
  {
    IncrementPatch(major, minor, patch);
    VersionKeyOfFormat(major, minor, patch);
    VersionKeyOfFormat(major, minor, patch + 1);
    assert [major, minor, patch][1..][1..] == [patch];
    assert [major, minor, patch + 1][1..][1..] == [patch + 1];
  }

  /**
   * The index of the first of the first `n` keys that no other key exceeds: the head of a
   * descending sort that keeps equal keys in their input order, as Python's `sorted` does.
   */
  function FirstGreatest(keys: seq<seq<int>>, n: nat): (i: nat)
    requires 1 <= n <= |keys|
    ensures i < n
    ensures forall j :: 0 <= j < n ==> !LexLess(keys[i], keys[j])
    ensures forall j :: 0 <= j < i ==> LexLess(keys[j], keys[i])
  {
    if n == 1 then
      LexIrreflexive(keys[0]);
      0
    else
      var b := FirstGreatest(keys, n - 1);
      if LexLess(keys[b], keys[n - 1]) then
        var kb, kn := keys[b], keys[n - 1];
        forall j | 0 <= j < n
          ensures !LexLess(kn, keys[j])
          ensures j < n - 1 ==> LexLess(keys[j], kn)
        {
          var kj := keys[j];
          LexIrreflexive(kn);
          if j < n - 1 {
            if kj != kb {
              LexTotal(kj, kb);
              LexTransitive(kj, kb, kn);
            }
            if LexLess(kn, kj) {
              LexTransitive(kn, kj, kn);
            }
          }
        }
        n - 1
      else
        b
  }

  /** The index of the first element whose key no other key exceeds. */
  function LatestBy<T>(xs: seq<T>, key: T -> seq<int>): (i: nat)
    requires xs != []
    ensures i < |xs|
    ensures forall j :: 0 <= j < |xs| ==> !LexLess(key(xs[i]), key(xs[j]))
    ensures forall j :: 0 <= j < i ==> LexLess(key(xs[j]), key(xs[i]))
  {
    var keys := seq(|xs|, k requires 0 <= k < |xs| => key(xs[k]));
    assert forall k :: 0 <= k < |xs| ==> keys[k] == key(xs[k]);
    FirstGreatest(keys, |xs|)
  }

  /** The index of the latest tag: the first with the greatest `version_key`. */
  function LatestIndex(names: seq<string>): (i: nat)
    requires names != []
    ensures i < |names|
    ensures forall j :: 0 <= j < |names| ==> !LexLess(VersionKey(names[i]), VersionKey(names[j]))
    ensures forall j :: 0 <= j < i ==> LexLess(VersionKey(names[j]), VersionKey(names[i]))
  {
    LatestBy(names, VersionKey)
  }

  /** The tag names of the `refs/tags/...` refs, in the order listed. */
  function TagNames(refs: seq<string>): (names: seq<string>)
    ensures |names| <= |refs|
    decreases |refs|
  {
    if refs == [] then []
    else
      var rest := TagNames(refs[1..]);
      if StartsWith(refs[0], "refs/tags/") then [Replace(refs[0], "refs/tags/", "")] + rest else rest
  }

  lemma {:induction false} TagNamesEmpty(refs: seq<string>)
    ensures TagNames(refs) == [] <==> forall k :: 0 <= k < |refs| ==> !StartsWith(refs[k], "refs/tags/")
    decreases |refs|
  {
    if refs != [] {
      TagNamesEmpty(refs[1..]);
      assert forall k :: 1 <= k < |refs| ==> refs[k] == refs[1..][k - 1];
    }
  }

  /**
   * `get_latest_tag` after its HTTP call: `refs` holds the `name` of every ref the call
   * returned, and is absent when the call failed. `None` when there is no tag.
   */
  function GetLatestTag(refs: Option<seq<string>>): (r: Option<string>)
    ensures r.Some? ==> refs.Some? && r.value in TagNames(refs.value)
    ensures r.Some? ==> forall t :: t in TagNames(refs.value) ==> !LexLess(VersionKey(r.value), VersionKey(t))
    ensures r.None? <==> refs.None? || TagNames(refs.value) == []
  {
    if refs.None? then None
    else
      var names := TagNames(refs.value);
      if names == [] then None
      else Some(names[LatestIndex(names)])
  }

  /** Of two tags with the same greatest key, the one listed first is chosen. */
  lemma LatestIsFirstOfEquals(names: seq<string>, j: nat)
    requires names != [] && j < |names| && VersionKey(names[j]) == VersionKey(names[LatestIndex(names)])
    ensures LatestIndex(names) <= j
  {
    var i := LatestIndex(names);
    LexIrreflexive(VersionKey(names[i]));
  }
}

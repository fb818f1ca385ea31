/** List comprehensions with a condition, `[x for x in s if p(x)]`, and their laws. */
module Seqs {
  import opened Wrappers

  /** `[x for x in s if p(x)]`, defined by the last element so that loops can extend it. */
  function Filter<T>(s: seq<T>, p: T -> bool): (r: seq<T>)
    ensures |r| <= |s|
    ensures forall i :: 0 <= i < |r| ==> p(r[i]) && r[i] in s
    decreases |s|
  {
    if s == [] then []
    else Filter(s[..|s| - 1], p) + (if p(s[|s| - 1]) then [s[|s| - 1]] else [])
  }

  /** Extending a prefix by one element extends the filtered list by at most that element. */
  lemma FilterSnoc<T>(s: seq<T>, i: nat, p: T -> bool)
    requires i < |s|
    ensures Filter(s[..i + 1], p) == Filter(s[..i], p) + (if p(s[i]) then [s[i]] else [])
  {
    assert s[..i + 1][..i] == s[..i];
  }

  /** Filtering distributes over concatenation: the kept elements stay in their input order. */
  lemma {:induction false} FilterAppend<T>(a: seq<T>, b: seq<T>, p: T -> bool)
    ensures Filter(a + b, p) == Filter(a, p) + Filter(b, p)
    decreases |b|
  {
    if b != [] {
      var b' := b[..|b| - 1];
      assert (a + b)[..|a + b| - 1] == a + b';
      FilterAppend(a, b', p);
    } else {
      assert a + b == a;
    }
  }

  /** An element is kept exactly when it occurs in the input and satisfies the condition. */
  lemma {:induction false} FilterMembers<T>(s: seq<T>, p: T -> bool, x: T)
    ensures x in Filter(s, p) <==> x in s && p(x)
    decreases |s|
  {
    if s != [] {
      FilterMembers(s[..|s| - 1], p, x);
      assert s == s[..|s| - 1] + [s[|s| - 1]];
    }
  }

  /** The filtered list is empty exactly when no element satisfies the condition. */
  lemma FilterEmpty<T>(s: seq<T>, p: T -> bool)
    ensures Filter(s, p) == [] <==> forall i :: 0 <= i < |s| ==> !p(s[i])
  {
    if Filter(s, p) == [] {
      forall i | 0 <= i < |s| ensures !p(s[i]) {
        FilterMembers(s, p, s[i]);
      }
    } else {
      var x := Filter(s, p)[0];
      FilterMembers(s, p, x);
    }
  }

  /** The index of the first element satisfying `p`. */
  function FirstIndex<T>(s: seq<T>, p: T -> bool): (r: Option<nat>)
    ensures r.Some? ==> r.value < |s| && p(s[r.value]) && forall j :: 0 <= j < r.value ==> !p(s[j])
    ensures r.None? ==> forall j :: 0 <= j < |s| ==> !p(s[j])
  {
    if s == [] then None
    else if p(s[0]) then Some(0)
    else match FirstIndex(s[1..], p)
      case None => None
      case Some(k) => Some(k + 1)
  }

  /** The head of the filtered list is the first element that satisfies the condition. */
  lemma {:induction false} FilterHead<T>(s: seq<T>, p: T -> bool)
    requires Filter(s, p) != []
    ensures FirstIndex(s, p).Some? && Filter(s, p)[0] == s[FirstIndex(s, p).value]
    decreases |s|
  {
    assert s == [s[0]] + s[1..];
    FilterAppend([s[0]], s[1..], p);
    assert Filter([s[0]], p) == (if p(s[0]) then [s[0]] else []) by {
      assert [s[0]][..0] == [];
    }
    if !p(s[0]) {
      FilterHead(s[1..], p);
    }
  }
}

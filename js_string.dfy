/**
 * The few JavaScript string and array primitives the build scripts rely on,
 * stated over `seq<char>`: `indexOf`, `replace` with a string pattern (which
 * replaces the FIRST occurrence only), `path.join`, the `<` order on strings
 * and the default `Array.prototype.sort`.
 */
module JsString {

  datatype Option<+T> = None | Some(value: T)

  /** `pat` occurs in `s` starting at index `i`. */
  predicate OccursAt(s: string, pat: string, i: nat) {
    i + |pat| <= |s| && s[i..i + |pat|] == pat
  }

  /** `i` is the index that `s.indexOf(pat)` reports: the first occurrence. */
  predicate IsFirstOccurrence(s: string, pat: string, i: nat) {
    OccursAt(s, pat, i) && forall j: nat :: j < i ==> !OccursAt(s, pat, j)
  }

  /** Search for `pat` in `s` from index `from` on. */
  function IndexFrom(s: string, pat: string, from: nat): (r: Option<nat>)
    requires from <= |s|
    ensures r.Some? ==> r.value + |pat| <= |s|
    decreases |s| - from
  {
    if OccursAt(s, pat, from) then Some(from)
    else if from == |s| then None
    else IndexFrom(s, pat, from + 1)
  }

  lemma {:induction false} IndexFromFirst(s: string, pat: string, from: nat)
    requires from <= |s|
    ensures IndexFrom(s, pat, from).Some? ==>
      from <= IndexFrom(s, pat, from).value && OccursAt(s, pat, IndexFrom(s, pat, from).value)
      && forall j: nat :: from <= j < IndexFrom(s, pat, from).value ==> !OccursAt(s, pat, j)
    ensures IndexFrom(s, pat, from).None? ==> forall j: nat :: from <= j ==> !OccursAt(s, pat, j)
    decreases |s| - from
  {
    if !OccursAt(s, pat, from) && from < |s| {
      IndexFromFirst(s, pat, from + 1);
    }
  }

  /** `s.indexOf(pat)`, with `-1` written as `None`. */
  function IndexOf(s: string, pat: string): (r: Option<nat>)
    ensures r.Some? ==> r.value + |pat| <= |s|
  {
    IndexFrom(s, pat, 0)
  }

  /** `indexOf` finds the first occurrence, and reports none only when there is none. */
  lemma IndexOfFirst(s: string, pat: string)
    ensures IndexOf(s, pat).Some? <==> exists j: nat :: OccursAt(s, pat, j)
    ensures IndexOf(s, pat).Some? ==> IsFirstOccurrence(s, pat, IndexOf(s, pat).value)
  {
    IndexFromFirst(s, pat, 0);
  }

  /** `indexOf` reports the first occurrence exactly. */
  lemma IndexOfIs(s: string, pat: string, i: nat)
    requires IsFirstOccurrence(s, pat, i)
    ensures IndexOf(s, pat) == Some(i)
  {
    IndexOfFirst(s, pat);
    var k := IndexOf(s, pat).value;
    assert !(k < i) && !(i < k);
  }

  /** `indexOf` reports `-1` exactly when the pattern occurs nowhere. */
  lemma IndexOfNone(s: string, pat: string)
    requires forall j: nat :: !OccursAt(s, pat, j)
    ensures IndexOf(s, pat) == None
  {
    IndexOfFirst(s, pat);
  }

  /**
   * `s.replace(pat, rep)` with a string pattern: only the first occurrence
   * of `pat` is replaced; without one, `s` comes back unchanged.
   */
  function ReplaceFirst(s: string, pat: string, rep: string): string {
    match IndexOf(s, pat)
    case None => s
    case Some(i) => s[..i] + rep + s[i + |pat|..]
  }

  /** One differing character rules an occurrence out. */
  lemma MismatchAt(s: string, pat: string, i: nat, k: nat)
    requires k < |pat| && i + k < |s| && s[i + k] != pat[k]
    ensures !OccursAt(s, pat, i)
  {
    if i + |pat| <= |s| {
      assert s[i..i + |pat|][k] == s[i + k];
    }
  }

  /**
   * A pattern of two or more characters does not occur before `bound` when
   * no position there starts with its first two characters.
   */
  lemma NoOccurrenceBefore(s: string, pat: string, bound: nat)
    requires |pat| >= 2
    requires forall j :: 0 <= j < bound && j + 1 < |s| ==> s[j] != pat[0] || s[j + 1] != pat[1]
    ensures forall j: nat :: j < bound ==> !OccursAt(s, pat, j)
  {
    forall j: nat | j < bound && j + 1 < |s| ensures !OccursAt(s, pat, j) {
      if s[j] != pat[0] {
        MismatchAt(s, pat, j, 0);
      } else {
        MismatchAt(s, pat, j, 1);
      }
    }
  }

  /** The first occurrence, and only it, is replaced. */
  lemma ReplaceFirstAt(s: string, pat: string, rep: string, i: nat)
    requires IsFirstOccurrence(s, pat, i)
    ensures ReplaceFirst(s, pat, rep) == s[..i] + rep + s[i + |pat|..]
  {
    IndexOfFirst(s, pat);
  }

  /** The pattern occurs right after any prefix it follows. */
  lemma OccursAfter(pre: string, pat: string, post: string)
    ensures OccursAt(pre + pat + post, pat, |pre|)
  {
    var s := pre + pat + post;
    assert s[|pre|..|pre| + |pat|] == pat;
  }

  /** Replacing a first occurrence that follows `pre` keeps `pre` and what follows. */
  lemma ReplaceFirstSplit(pre: string, pat: string, post: string, rep: string)
    requires IndexOf(pre + pat + post, pat) == Some(|pre|)
    ensures ReplaceFirst(pre + pat + post, pat, rep) == pre + rep + post
  {
    var s := pre + pat + post;
    assert s[..|pre|] == pre;
    assert s[|pre| + |pat|..] == post;
  }

  /** Without an occurrence, the string comes back unchanged. */
  lemma ReplaceFirstAbsent(s: string, pat: string, rep: string)
    requires forall j: nat :: !OccursAt(s, pat, j)
    ensures ReplaceFirst(s, pat, rep) == s
  {
    IndexOfFirst(s, pat);
  }

  /** Removing a prefix by replacing its first occurrence gives back the rest. */
  lemma ReplacePrefix(p: string, x: string)
    ensures ReplaceFirst(p + x, p, "") == x
  {
    assert (p + x)[0..|p|] == p;
    ReplaceFirstAt(p + x, p, "", 0);
    assert (p + x)[|p|..] == x;
  }

  /**
   * `path.join(a, b)`, as plain concatenation with one separator. Node's
   * normalisation of `.`, `..` and doubled separators is not part of this model.
   */
  function Join(a: string, b: string): string {
    a + "/" + b
  }

  /** Removing the directory from a joined path leaves the separator and the name. */
  lemma JoinThenStrip(dir: string, name: string)
    ensures ReplaceFirst(Join(dir, name), dir, "") == "/" + name
  {
    assert Join(dir, name) == dir + ("/" + name);
    ReplacePrefix(dir, "/" + name);
  }

  /**
   * JavaScript's `a < b` on strings: code unit by code unit, a proper
   * prefix before any of its extensions.
   */
  predicate Less(a: string, b: string) {
    if a == [] then b != []
    else if b == [] then false
    else if a[0] != b[0] then a[0] < b[0]
    else Less(a[1..], b[1..])
  }

  predicate LessEq(a: string, b: string) {
    a == b || Less(a, b)
  }

  lemma {:induction false} LessIrreflexive(a: string)
    ensures !Less(a, a)
  {
    if a != [] {
      LessIrreflexive(a[1..]);
    }
  }

  lemma {:induction false} LessAsymmetric(a: string, b: string)
    ensures !(Less(a, b) && Less(b, a))
  {
    if a != [] && b != [] && a[0] == b[0] {
      LessAsymmetric(a[1..], b[1..]);
    }
  }

  lemma {:induction false} LessTrichotomy(a: string, b: string)
    ensures Less(a, b) || a == b || Less(b, a)
  {
    if a != [] && b != [] && a[0] == b[0] {
      LessTrichotomy(a[1..], b[1..]);
      if a[1..] == b[1..] {
        assert a == [a[0]] + a[1..] && b == [b[0]] + b[1..];
      }
    }
  }

  lemma {:induction false} LessTransitive(a: string, b: string, c: string)
    requires Less(a, b) && Less(b, c)
    ensures Less(a, c)
  {
    if a != [] && a[0] == b[0] && b[0] == c[0] {
      LessTransitive(a[1..], b[1..], c[1..]);
    }
  }

  lemma LessEqTransitive(a: string, b: string, c: string)
    requires LessEq(a, b) && LessEq(b, c)
    ensures LessEq(a, c)
  {
    if a != b && b != c {
      LessTransitive(a, b, c);
    }
  }

  /** Ordered by `<=`, as `sort()` leaves an array. */
  predicate Sorted(s: seq<string>) {
    forall i, j :: 0 <= i < j < |s| ==> LessEq(s[i], s[j])
  }

  /** Ordered by `<`: sorted and without duplicates. */
  predicate StrictlySorted(s: seq<string>) {
    forall i, j :: 0 <= i < j < |s| ==> Less(s[i], s[j])
  }

  predicate NoDuplicates(s: seq<string>) {
    forall i, j :: 0 <= i < j < |s| ==> s[i] != s[j]
  }

  lemma StrictlySortedIsSortedWithoutDuplicates(s: seq<string>)
    ensures StrictlySorted(s) <==> Sorted(s) && NoDuplicates(s)
  {
    if StrictlySorted(s) {
      forall i, j | 0 <= i < j < |s| ensures s[i] != s[j] {
        LessIrreflexive(s[i]);
      }
    }
  }

  /** Insert `x` into a sorted sequence before the first element not below it. */
  function Insert(x: string, s: seq<string>): (r: seq<string>)
    requires Sorted(s)
    ensures Sorted(r)
    ensures multiset(r) == multiset(s) + multiset{x}
  {
    if s == [] then [x]
    else if LessEq(x, s[0]) then
      assert forall j :: 0 <= j < |s| ==> LessEq(x, s[j]) by {
        forall j | 0 <= j < |s| ensures LessEq(x, s[j]) {
          LessEqTransitive(x, s[0], s[j]);
        }
      }
      [x] + s
    else
      var rest := Insert(x, s[1..]);
      assert s == [s[0]] + s[1..];
      LessTrichotomy(x, s[0]);
      assert forall j :: 0 <= j < |rest| ==> LessEq(s[0], rest[j]) by {
        forall j | 0 <= j < |rest| ensures LessEq(s[0], rest[j]) {
          assert rest[j] in multiset(rest);
          assert rest[j] == x || rest[j] in s[1..];
        }
      }
      [s[0]] + rest
  }

  /**
   * `array.sort()` with no comparator: the strings in ascending `<` order.
   * Any sorting algorithm gives this same result, see SortedPermutationUnique.
   */
  function Sort(s: seq<string>): (r: seq<string>)
    ensures Sorted(r)
    ensures multiset(r) == multiset(s)
  {
    if s == [] then []
    else
      assert s == [s[0]] + s[1..];
      Insert(s[0], Sort(s[1..]))
  }

  /** Two sorted sequences with the same elements start alike. */
  lemma SortedPermutationHead(a: seq<string>, b: seq<string>)
    requires Sorted(a) && Sorted(b) && multiset(a) == multiset(b) && a != []
    ensures b != [] && a[0] == b[0]
  {
    assert a[0] in multiset(b);
    assert b[0] in multiset(a);
    var i :| 0 <= i < |b| && b[i] == a[0];
    var j :| 0 <= j < |a| && a[j] == b[0];
    assert LessEq(a[0], a[j]) && LessEq(b[0], b[i]);
    LessAsymmetric(a[0], b[0]);
  }

  /** Dropping the head removes one copy of it from the multiset. */
  lemma MultisetTail(a: seq<string>)
    requires a != []
    ensures multiset(a[1..]) == multiset(a) - multiset{a[0]}
  {
    assert a == [a[0]] + a[1..];
  }

  /** Two sorted sequences with the same elements are equal. */
  lemma {:induction false} SortedPermutationUnique(a: seq<string>, b: seq<string>)
    requires Sorted(a) && Sorted(b) && multiset(a) == multiset(b)
    ensures a == b
  {
    if a != [] {
      SortedPermutationHead(a, b);
      MultisetTail(a);
      MultisetTail(b);
      SortedPermutationUnique(a[1..], b[1..]);
      assert a == [a[0]] + a[1..] && b == [b[0]] + b[1..];
    } else {
      assert |multiset(b)| == 0;
    }
  }

  /** A permutation of a sequence without duplicates has none either. */
  lemma {:induction false} PermutationKeepsNoDuplicates(a: seq<string>, b: seq<string>)
    requires multiset(a) == multiset(b) && NoDuplicates(a)
    ensures NoDuplicates(b)
  {
    forall i, j | 0 <= i < j < |b| ensures b[i] != b[j] {
      if b[i] == b[j] {
        assert b == b[..i] + [b[i]] + b[i + 1..j] + [b[j]] + b[j + 1..];
        assert multiset(b)[b[i]] >= 2;
        CountAtMostOne(a, b[i]);
      }
    }
  }

  lemma {:induction false} CountAtMostOne(a: seq<string>, x: string)
    requires NoDuplicates(a)
    ensures multiset(a)[x] <= 1
  {
    if a != [] {
      assert a == [a[0]] + a[1..];
      CountAtMostOne(a[1..], x);
      if a[0] == x {
        assert x !in a[1..];
      }
    }
  }
}

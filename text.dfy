/**
 * The `std::string` operations the settings code relies on: searching for a
 * character or a substring, splitting on a separator character, and the
 * replace-first-occurrence-until-none-is-left substitution loop.
 */
module Text {

  /** Index of the first `c` in `s`, or `|s|` when there is none (the `npos` of `find`). */
  function IndexOf(s: string, c: char): (i: nat)
    ensures i <= |s|
    ensures i < |s| ==> s[i] == c
    ensures forall k :: 0 <= k < i ==> s[k] != c
  {
    if s == [] then 0
    else if s[0] == c then 0
    else 1 + IndexOf(s[1..], c)
  }

  /** `s.find(c, from)`: the first index at or after `from` holding `c`, or `|s|`. */
  function IndexOfFrom(s: string, c: char, from: nat): (i: nat)
    requires from <= |s|
    ensures from <= i <= |s|
    ensures i < |s| ==> s[i] == c
    ensures forall k :: from <= k < i ==> s[k] != c
    decreases |s| - from
  {
    if from == |s| then |s|
    else if s[from] == c then from
    else IndexOfFrom(s, c, from + 1)
  }

  /** Any index with the first-occurrence property is the one IndexOf finds. */
  lemma IndexOfIs(s: string, c: char, i: nat)
    requires i <= |s|
    requires i < |s| ==> s[i] == c
    requires forall k :: 0 <= k < i ==> s[k] != c
    ensures IndexOf(s, c) == i
  {
  }

  /** Likewise for the search that starts at `from`. */
  lemma IndexOfFromIs(s: string, c: char, from: nat, i: nat)
    requires from <= i <= |s|
    requires i < |s| ==> s[i] == c
    requires forall k :: from <= k < i ==> s[k] != c
    ensures IndexOfFrom(s, c, from) == i
  {
  }

  /**
   * The segments of `s` between occurrences of `sep`, in order. There is always
   * at least one segment: "" gives [""], "a," gives ["a", ""].
   */
  function Split(s: string, sep: char): (parts: seq<string>)
    ensures |parts| >= 1
    decreases |s|
  {
    var i := IndexOf(s, sep);
    if i == |s| then
      [s]
    else
      [s[..i]] + Split(s[i + 1..], sep)
  }

  /** No segment holds the separator. */
  lemma {:induction false} SplitParts(s: string, sep: char)
    ensures forall k :: 0 <= k < |Split(s, sep)| ==> sep !in Split(s, sep)[k]
    decreases |s|
  {
    var i := IndexOf(s, sep);
    if i < |s| {
      SplitParts(s[i + 1..], sep);
      assert sep !in s[..i] by {
        forall k | 0 <= k < i ensures s[..i][k] != sep { }
      }
    }
  }

  /** Concatenation of `parts` with `sep` between neighbours. */
  function Join(parts: seq<string>, sep: char): string
  {
    if |parts| == 0 then ""
    else if |parts| == 1 then parts[0]
    else parts[0] + [sep] + Join(parts[1..], sep)
  }

  /** Splitting and joining again gives back the input. */
  lemma {:induction false} JoinSplit(s: string, sep: char)
    ensures Join(Split(s, sep), sep) == s
    decreases |s|
  {
    var i := IndexOf(s, sep);
    if i < |s| {
      var rest := Split(s[i + 1..], sep);
      JoinSplit(s[i + 1..], sep);
      assert Split(s, sep) == [s[..i]] + rest;
      assert s == s[..i] + [sep] + s[i + 1..];
    }
  }

  /** Joining separator-free parts and splitting again gives back the parts. */
  lemma {:induction false} SplitJoin(parts: seq<string>, sep: char)
    requires |parts| >= 1
    requires forall k :: 0 <= k < |parts| ==> sep !in parts[k]
    ensures Split(Join(parts, sep), sep) == parts
    decreases |parts|
  {
    if |parts| == 1 {
      IndexOfIs(parts[0], sep, |parts[0]|);
    } else {
      var s := Join(parts, sep);
      var p := parts[0];
      assert s == p + [sep] + Join(parts[1..], sep);
      IndexOfIs(s, sep, |p|);
      assert s[..|p|] == p;
      assert s[|p| + 1..] == Join(parts[1..], sep);
      SplitJoin(parts[1..], sep);
      assert parts == [p] + parts[1..];
    }
  }

  /** A string without the separator is its own single segment. */
  lemma SplitNone(s: string, sep: char)
    requires sep !in s
    ensures Split(s, sep) == [s]
  {
    IndexOfIs(s, sep, |s|);
  }

  /**
   * Reading `s` from `p`: when `s[p..q]` holds no separator and `q` is the end
   * or a separator, the first segment is `s[p..q]` and the others are those
   * that follow position `q`.
   */
  lemma SplitFrom(s: string, sep: char, p: nat, q: nat)
    requires p <= q <= |s|
    requires forall k :: p <= k < q ==> s[k] != sep
    requires q < |s| ==> s[q] == sep
    ensures Split(s[p..], sep) == [s[p..q]] + Split(s[q..], sep)[1..]
  {
    IndexOfIs(s[p..], sep, q - p);
    assert s[p..][..q - p] == s[p..q];
    if q < |s| {
      IndexOfIs(s[q..], sep, 0);
      assert s[p..][q - p + 1..] == s[q + 1..];
      assert s[q..][1..] == s[q + 1..];
      assert Split(s[p..], sep) == [s[p..q]] + Split(s[q + 1..], sep);
      assert Split(s[q..], sep) == [s[q..][..0]] + Split(s[q + 1..], sep);
    } else {
      assert s[p..q] == s[p..];
      IndexOfIs(s[q..], sep, 0);
      assert Split(s[q..], sep) == [s[q..]];
    }
  }

  /** The segments after a separator at `q` are the segments of what follows it. */
  lemma SplitAfterSeparator(s: string, sep: char, q: nat)
    requires q < |s| && s[q] == sep
    ensures Split(s[q..], sep)[1..] == Split(s[q + 1..], sep)
  {
    IndexOfIs(s[q..], sep, 0);
    assert s[q..][1..] == s[q + 1..];
  }

  /** A one-character first segment: the character at `p`, then the segments after the separator at `p + 1`. */
  lemma SeparatorAfterFirst(s: string, sep: char, p: nat)
    requires p + 1 < |s| && s[p] != sep && s[p + 1] == sep
    ensures Split(s[p..], sep) == [[s[p]]] + Split(s[p + 2..], sep)
  {
    SplitFrom(s, sep, p, p + 1);
    SplitAfterSeparator(s, sep, p + 1);
    assert s[p..p + 1] == [s[p]];
  }

  /**
   * Splitting from `from` at the first separator `next` yields the segment
   * before it followed by the segments of what comes after it.
   */
  lemma SplitStep(s: string, sep: char, from: nat, next: nat)
    requires from <= next < |s| && next == IndexOfFrom(s, sep, from)
    ensures Split(s[from..], sep) == [s[from..next]] + Split(s[next + 1..], sep)
  {
    SplitFrom(s, sep, from, next);
    SplitAfterSeparator(s, sep, next);
  }

  /** `pat` occurs in `s` starting at index `i`. */
  predicate OccursAt(s: string, pat: string, i: int)
  {
    0 <= i && i + |pat| <= |s| && s[i..i + |pat|] == pat
  }

  predicate Contains(s: string, pat: string)
  {
    exists i | 0 <= i <= |s| :: OccursAt(s, pat, i)
  }

  /** First index from `from` on where `pat` occurs in `s`, or -1 (the `npos` of `find`). */
  function FindFrom(s: string, pat: string, from: nat): (i: int)
    requires from <= |s|
    ensures -1 <= i
    ensures i >= 0 ==> from <= i && OccursAt(s, pat, i)
    ensures forall j :: from <= j && (i < 0 || j < i) ==> !OccursAt(s, pat, j)
    decreases |s| - from
  {
    if OccursAt(s, pat, from) then from
    else if from + |pat| >= |s| then
      assert forall j :: from < j ==> !OccursAt(s, pat, j);
      -1
    else FindFrom(s, pat, from + 1)
  }

  /** `s.find(pat)`: the first occurrence of `pat` in `s`, or -1 when it does not occur. */
  function Find(s: string, pat: string): (i: int)
    ensures i < 0 <==> !Contains(s, pat)
    ensures i >= 0 ==> OccursAt(s, pat, i) && forall j :: 0 <= j < i ==> !OccursAt(s, pat, j)
  {
    FindFrom(s, pat, 0)
  }

  /** Number of occurrences of `c` in `s`. */
  function Count(s: string, c: char): nat
  {
    if s == [] then 0 else (if s[0] == c then 1 else 0) + Count(s[1..], c)
  }

  lemma {:induction false} CountAppend(a: string, b: string, c: char)
    ensures Count(a + b, c) == Count(a, c) + Count(b, c)
  {
    if a != [] {
      var ab := a + b;
      assert ab[0] == a[0];
      assert ab[1..] == a[1..] + b;
      CountAppend(a[1..], b, c);
      assert Count(ab, c) == (if a[0] == c then 1 else 0) + Count(a[1..] + b, c);
    } else {
      assert a + b == b;
    }
  }

  lemma CountAbsent(s: string, c: char)
    requires c !in s
    ensures Count(s, c) == 0
  {
    if s != [] {
      CountAbsent(s[1..], c);
    }
  }

  /**
   * Replacing an occurrence of `pat` by a `v` that does not contain `pat`'s
   * first character removes one occurrence of that character.
   */
  lemma SpliceCount(c: string, pat: string, v: string, i: nat)
    requires pat != [] && pat[0] !in v
    requires OccursAt(c, pat, i)
    ensures Count(c[..i] + v + c[i + |pat|..], pat[0]) < Count(c, pat[0])
  {
    var pre, post := c[..i], c[i + |pat|..];
    assert c == pre + pat + post;
    CountAppend(pre + pat, post, pat[0]);
    CountAppend(pre, pat, pat[0]);
    CountAppend(pre + v, post, pat[0]);
    CountAppend(pre, v, pat[0]);
    CountAbsent(v, pat[0]);
    assert Count(pat, pat[0]) >= 1;
  }

  /**
   * The source's substitution loop: while `pat` occurs in `c`, replace its first
   * occurrence by `v`. It ends because `v` lacks `pat`'s first character.
   */
  function Substitute(c: string, pat: string, v: string): (r: string)
    requires pat != [] && pat[0] !in v
    ensures !Contains(r, pat)
    decreases Count(c, pat[0])
  {
    var i := Find(c, pat);
    if i < 0 then c
    else
      SpliceCount(c, pat, v, i);
      Substitute(c[..i] + v + c[i + |pat|..], pat, v)
  }

  lemma ConcatAssoc(a: string, b: string, c: string)
    ensures a + (b + c) == a + b + c
  {
  }

  /** Any index with the first-occurrence property is the one Find returns. */
  lemma FindIs(s: string, pat: string, i: nat)
    requires OccursAt(s, pat, i)
    requires forall j :: 0 <= j < i ==> !OccursAt(s, pat, j)
    ensures Find(s, pat) == i
  {
  }

  /** An occurrence of a non-empty `pat` starts with `pat[0]`. */
  lemma OccursAtStart(s: string, pat: string, j: int)
    requires pat != []
    ensures OccursAt(s, pat, j) ==> j < |s| && s[j] == pat[0]
  {
    if OccursAt(s, pat, j) {
      assert s[j..j + |pat|][0] == s[j];
    }
  }

  /** Character `k` of an occurrence. */
  lemma OccursAtChar(s: string, pat: string, j: int, k: nat)
    requires k < |pat|
    ensures OccursAt(s, pat, j) ==> j + k < |s| && s[j + k] == pat[k]
  {
    if OccursAt(s, pat, j) {
      assert s[j..j + |pat|][k] == s[j + k];
    }
  }

  /** An occurrence inside the second part of a concatenation is one in that part. */
  lemma OccursAtShift(a: string, b: string, pat: string, k: nat)
    ensures OccursAt(a + b, pat, |a| + k) ==> OccursAt(b, pat, k)
  {
    if OccursAt(a + b, pat, |a| + k) {
      assert (a + b)[|a| + k..|a| + k + |pat|] == b[k..k + |pat|];
    }
  }

  /** No occurrence can start in `a` when `a` lacks `pat[0]`, so only `b` matters. */
  lemma NoOccurrenceConcat(a: string, b: string, pat: string)
    requires pat != [] && pat[0] !in a
    requires !Contains(b, pat)
    ensures !Contains(a + b, pat)
  {
    forall j | 0 <= j <= |a + b| ensures !OccursAt(a + b, pat, j) {
      if j < |a| {
        OccursAtStart(a + b, pat, j);
        assert (a + b)[j] == a[j];
      } else {
        OccursAtShift(a, b, pat, j - |a|);
      }
    }
  }

  /** A string without `pat[0]` contains no `pat`. */
  lemma NoStartNoOccurrence(s: string, pat: string)
    requires pat != [] && pat[0] !in s
    ensures !Contains(s, pat)
  {
    forall j | 0 <= j <= |s| ensures !OccursAt(s, pat, j) {
      OccursAtStart(s, pat, j);
    }
  }

  /** One round of the loop: the first occurrence is replaced, and the rest is substituted from there. */
  lemma SubstituteStep(c: string, pat: string, v: string, i: nat)
    requires pat != [] && pat[0] !in v
    requires Find(c, pat) == i
    ensures Substitute(c, pat, v) == Substitute(c[..i] + v + c[i + |pat|..], pat, v)
  {
  }

  /** A string without the placeholder is left as it is. */
  lemma SubstituteAbsent(c: string, pat: string, v: string)
    requires pat != [] && pat[0] !in v
    requires !Contains(c, pat)
    ensures Substitute(c, pat, v) == c
  {
  }

  /** The empty string contains no non-empty pattern. */
  lemma EmptyContainsNothing(pat: string)
    requires pat != []
    ensures !Contains("", pat)
  {
  }
}

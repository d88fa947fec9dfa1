/**
 * The parts of Go's `strings` package the core relies on, over `seq<char>`:
 * prefix/suffix tests and trimming, first-occurrence search, `Split`,
 * joining, repetition and byte-wise ordering.
 */
module Strs {
  import opened Wrappers

  predicate HasPrefix(s: string, p: string) {
    |p| <= |s| && s[..|p|] == p
  }

  predicate HasSuffix(s: string, p: string) {
    |p| <= |s| && s[|s| - |p|..] == p
  }

  /** `strings.TrimPrefix`: drops `p` once from the front when present. */
  function TrimPrefix(s: string, p: string): (r: string)
    ensures HasPrefix(s, p) ==> s == p + r
    ensures !HasPrefix(s, p) ==> r == s
  {
    if HasPrefix(s, p) then s[|p|..] else s
  }

  /** `strings.TrimSuffix`: drops `p` once from the end when present. */
  function TrimSuffix(s: string, p: string): (r: string)
    ensures HasSuffix(s, p) ==> s == r + p
    ensures !HasSuffix(s, p) ==> r == s
  {
    if HasSuffix(s, p) then s[..|s| - |p|] else s
  }

  lemma TrimPrefixOf(p: string, r: string)
    ensures TrimPrefix(p + r, p) == r
  {
    assert (p + r)[..|p|] == p;
  }

  lemma TrimSuffixOf(r: string, p: string)
    ensures TrimSuffix(r + p, p) == r
  {
    assert (r + p)[|r|..] == p;
  }

  /** `sep` occurs in `s` starting at index `k`. */
  predicate OccursAt(s: string, sep: string, k: nat) {
    k + |sep| <= |s| && s[k..k + |sep|] == sep
  }

  /** Index of the first occurrence of `sep` in `s` at or after `from`. */
  function IndexFrom(s: string, sep: string, from: nat): (r: Option<nat>)
    requires from <= |s|
    decreases |s| - from
    ensures r.Some? ==> from <= r.value && OccursAt(s, sep, r.value)
    ensures r.Some? ==> forall k :: from <= k < r.value ==> !OccursAt(s, sep, k)
    ensures r.None? ==> forall k :: from <= k <= |s| ==> !OccursAt(s, sep, k)
  {
    if OccursAt(s, sep, from) then Some(from)
    else if from == |s| then None
    else IndexFrom(s, sep, from + 1)
  }

  /** `strings.Index`: the first occurrence of `sep` in `s`. */
  function Index(s: string, sep: string): (r: Option<nat>)
    ensures r.Some? ==> OccursAt(s, sep, r.value)
    ensures r.Some? ==> forall k :: 0 <= k < r.value ==> !OccursAt(s, sep, k)
    ensures r.None? ==> forall k :: 0 <= k <= |s| ==> !OccursAt(s, sep, k)
  {
    IndexFrom(s, sep, 0)
  }

  predicate Contains(s: string, sub: string) {
    Index(s, sub).Some?
  }

  lemma OccursAtChar(s: string, c: char, k: nat)
    ensures OccursAt(s, [c], k) <==> k < |s| && s[k] == c
  {
    if k < |s| && s[k] == c {
      assert s[k..k + 1] == [c];
    }
  }

  /** The first occurrence is the one `Index` reports. */
  lemma IndexIsFirst(s: string, sep: string, k: nat)
    requires OccursAt(s, sep, k)
    requires forall j :: 0 <= j < k ==> !OccursAt(s, sep, j)
    ensures Index(s, sep) == Some(k)
  {
  }

  lemma IndexOfNone(s: string, sep: string)
    requires forall k :: 0 <= k <= |s| ==> !OccursAt(s, sep, k)
    ensures Index(s, sep) == None
  {
  }

  /** Searching for a character behind a prefix free of it finds the same place, shifted by the prefix. */
  lemma IndexShift(p: string, x: string, c: char)
    requires c !in p
    ensures Index(p + x, [c]) == if Index(x, [c]).Some? then Some(|p| + Index(x, [c]).value) else None
  {
    var s := p + x;
    forall k | 0 <= k < |p| ensures !OccursAt(s, [c], k) {
      OccursAtChar(s, c, k);
      assert s[k] == p[k];
    }
    forall k | 0 <= k <= |x| ensures OccursAt(s, [c], |p| + k) <==> OccursAt(x, [c], k) {
      OccursAtChar(s, c, |p| + k);
      OccursAtChar(x, c, k);
      if k < |x| {
        assert s[|p| + k] == x[k];
      }
    }
    match Index(x, [c])
    case None =>
      forall k | 0 <= k <= |s| ensures !OccursAt(s, [c], k) {
        if k >= |p| {
          assert OccursAt(s, [c], |p| + (k - |p|)) <==> OccursAt(x, [c], k - |p|);
        }
      }
      IndexOfNone(s, [c]);
    case Some(i) =>
      forall j | 0 <= j < |p| + i ensures !OccursAt(s, [c], j) {
        if j >= |p| {
          assert OccursAt(s, [c], |p| + (j - |p|)) <==> OccursAt(x, [c], j - |p|);
        }
      }
      IndexIsFirst(s, [c], |p| + i);
  }

  /** `strings.Split(s, sep)` for a non-empty separator. */
  function Split(s: string, sep: string): (r: seq<string>)
    requires sep != ""
    decreases |s|
    ensures |r| >= 1
  {
    match Index(s, sep)
    case None => [s]
    case Some(i) => [s[..i]] + Split(s[i + |sep|..], sep)
  }

  /** `strings.Join(parts, sep)`. */
  function Join(parts: seq<string>, sep: string): string {
    if |parts| == 0 then ""
    else if |parts| == 1 then parts[0]
    else parts[0] + sep + Join(parts[1..], sep)
  }

  /** Splitting and joining again gives back the input. */
  lemma {:induction false} JoinSplit(s: string, sep: string)
    requires sep != ""
    decreases |s|
    ensures Join(Split(s, sep), sep) == s
  {
    match Index(s, sep)
    case None =>
    case Some(i) =>
      var rest := s[i + |sep|..];
      var parts := Split(rest, sep);
      JoinSplit(rest, sep);
      calc {
        Join(Split(s, sep), sep);
        Join([s[..i]] + parts, sep);
        { JoinCons(s[..i], parts, sep); }
        s[..i] + sep + Join(parts, sep);
        s[..i] + sep + rest;
        { assert s[i..i + |sep|] == sep; }
        s;
      }
  }

  lemma JoinCons(p: string, parts: seq<string>, sep: string)
    requires |parts| >= 1
    ensures Join([p] + parts, sep) == p + sep + Join(parts, sep)
  {
    assert ([p] + parts)[1..] == parts;
  }

  /**
   * `sep` does not occur in `p + sep` before the separator itself: no
   * occurrence inside `p` and none that starts in `p` and overlaps the
   * separator that follows it.
   */
  predicate SeparatedCleanly(p: string, sep: string) {
    forall k :: 0 <= k < |p| ==> !OccursAt(p + sep, sep, k)
  }

  lemma FirstIndexAfterCleanPart(p: string, sep: string, tail: string)
    requires sep != "" && SeparatedCleanly(p, sep)
    ensures Index(p + sep + tail, sep) == Some(|p|)
  {
    var s := p + sep + tail;
    assert OccursAt(s, sep, |p|) by { assert s[|p|..|p| + |sep|] == sep; }
    forall k | 0 <= k < |p| ensures !OccursAt(s, sep, k) {
      if OccursAt(s, sep, k) {
        assert (p + sep)[k..k + |sep|] == s[k..k + |sep|];
        assert OccursAt(p + sep, sep, k);
      }
    }
  }

  lemma NoOccurrenceInCleanPart(p: string, sep: string)
    requires sep != "" && SeparatedCleanly(p, sep)
    ensures Index(p, sep).None?
  {
    forall k | 0 <= k <= |p| ensures !OccursAt(p, sep, k) {
      if OccursAt(p, sep, k) {
        assert k < |p|;
        assert (p + sep)[k..k + |sep|] == p[k..k + |sep|];
        assert OccursAt(p + sep, sep, k);
      }
    }
  }

  /** Joining parts that are cleanly separated and splitting gives back the parts. */
  lemma {:induction false} SplitJoin(parts: seq<string>, sep: string)
    requires sep != "" && |parts| >= 1
    requires forall i :: 0 <= i < |parts| ==> SeparatedCleanly(parts[i], sep)
    ensures Split(Join(parts, sep), sep) == parts
  {
    if |parts| == 1 {
      NoOccurrenceInCleanPart(parts[0], sep);
    } else {
      var p, tail := parts[0], Join(parts[1..], sep);
      var s := p + sep + tail;
      assert Join(parts, sep) == s;
      FirstIndexAfterCleanPart(p, sep, tail);
      assert s[..|p|] == p;
      assert s[|p| + |sep|..] == tail;
      assert Split(s, sep) == [p] + Split(tail, sep);
      SplitJoin(parts[1..], sep);
      assert parts == [p] + parts[1..];
    }
  }

  /** A separator of one character not found in `p` separates it cleanly. */
  lemma CharSeparatedCleanly(p: string, c: char)
    requires c !in p
    ensures SeparatedCleanly(p, [c])
  {
    forall k | 0 <= k < |p| ensures !OccursAt(p + [c], [c], k) {
      assert (p + [c])[k] == p[k];
    }
  }

  /** `strings.Repeat(c, n)` for a one-character string. */
  function Repeat(c: char, n: nat): (r: string)
    ensures |r| == n
    ensures forall i :: 0 <= i < n ==> r[i] == c
  {
    if n == 0 then "" else [c] + Repeat(c, n - 1)
  }

  /** `unicode.ToLower` on ASCII letters; every other character is kept. */
  function LowerChar(c: char): char {
    if 'A' <= c <= 'Z' then (c as int + 32) as char else c
  }

  /** `strings.ToLower` for ASCII text. */
  function ToLower(s: string): (r: string)
    ensures |r| == |s|
    ensures forall i :: 0 <= i < |s| ==> r[i] == LowerChar(s[i])
  {
    if |s| == 0 then "" else [LowerChar(s[0])] + ToLower(s[1..])
  }

  /** Go's `<` on strings: byte-wise lexicographic order (by code point here). */
  predicate Less(a: string, b: string) {
    if |b| == 0 then false
    else if |a| == 0 then true
    else if a[0] != b[0] then a[0] < b[0]
    else Less(a[1..], b[1..])
  }

  lemma LessIrreflexive(a: string)
    ensures !Less(a, a)
  {
  }

  lemma {:induction false} LessTransitive(a: string, b: string, c: string)
    requires Less(a, b) && Less(b, c)
    ensures Less(a, c)
  {
    if |a| > 0 && a[0] == b[0] && b[0] == c[0] {
      LessTransitive(a[1..], b[1..], c[1..]);
    }
  }

  /** Two strings neither of which is less than the other are equal. */
  lemma {:induction false} LessTotal(a: string, b: string)
    ensures Less(a, b) || Less(b, a) || a == b
  {
    if |a| > 0 && |b| > 0 && a[0] == b[0] {
      LessTotal(a[1..], b[1..]);
      if a[1..] == b[1..] {
        assert a == [a[0]] + a[1..] && b == [b[0]] + b[1..];
      }
    }
  }
}

/** The inner helper `splitAtDashBeforeDigit` of the image rename callback:
    one match of the regular expression `^(.*?)-(\d.*)$` (no flags) and the
    pair built from its groups. */
module Segmenter {

  datatype Option<T> = None | Some(value: T)

  /** A basename cut in two: `head` becomes the output folder and the first
      word of the new name, `tail` is carried to the end of the new name. */
  datatype Parts = Parts(head: string, tail: string)

  /** `\d` without the `u` flag: the ASCII digits and nothing else. */
  predicate IsDigit(c: char) {
    '0' <= c <= '9'
  }

  /** The characters that `.` refuses to match when the `s` flag is absent. */
  predicate IsLineTerminator(c: char) {
    c == '\n' || c == '\r' || c == '\U{2028}' || c == '\U{2029}'
  }

  predicate NoLineTerminator(s: string) {
    forall i :: 0 <= i < |s| ==> !IsLineTerminator(s[i])
  }

  /** A hyphen at index `i` immediately followed by an ASCII digit. */
  predicate DashDigitAt(s: string, i: int) {
    0 <= i && i + 1 < |s| && s[i] == '-' && IsDigit(s[i + 1])
  }

  predicate HasDashDigit(s: string) {
    exists i :: 0 <= i < |s| && DashDigitAt(s, i)
  }

  /** `i` is the leftmost hyphen-before-digit of `s`. */
  predicate IsFirstDashDigit(s: string, i: int) {
    DashDigitAt(s, i) && forall j :: 0 <= j < i ==> !DashDigitAt(s, j)
  }

  /** Whether the part of the pattern after the lazy group, `-(\d.*)$`,
      matches `s` from index `k` on. */
  predicate RestMatchesAt(s: string, k: nat)
    requires k <= |s|
  {
    DashDigitAt(s, k) && NoLineTerminator(s[k + 2..])
  }

  /** The backtracking search of a JavaScript engine for the lazy group
      `(.*?)`: group 1 is first tried empty, and is grown by one character
      at a time (never over a line terminator) until the rest of the pattern
      matches. The result is the length of group 1, or None when the whole
      match fails. `k` is the length of group 1 being tried. */
  function LazyMatch(s: string, k: nat): (r: Option<nat>)
    requires k <= |s|
    ensures r.Some? ==> k <= r.value && NoLineTerminator(s[k..]) && DashDigitAt(s, r.value)
    ensures r.Some? ==> forall j :: k <= j < r.value ==> !DashDigitAt(s, j)
    ensures r.None? ==> !NoLineTerminator(s[k..]) || forall j :: k <= j ==> !DashDigitAt(s, j)
    decreases |s| - k
  {
    if RestMatchesAt(s, k) then
      Some(k)
    else if k < |s| && !IsLineTerminator(s[k]) then
      var r := LazyMatch(s, k + 1);
      assert s[k..] == [s[k]] + s[k + 1..];
      r
    else
      None
  }

  /** `splitAtDashBeforeDigit`: on a match, group 1 and "-" + group 2;
      otherwise the whole name and "". */
  function SplitAtDashBeforeDigit(name: string): (r: Parts)
    ensures r.head + r.tail == name
    ensures r.tail != [] <==> NoLineTerminator(name) && HasDashDigit(name)
    ensures r.tail != [] ==> IsFirstDashDigit(name, |r.head|)
  {
    match LazyMatch(name, 0)
    case Some(k) =>
      assert name[..k] + ("-" + name[k + 1..]) == name;
      Parts(name[..k], "-" + name[k + 1..])
    case None =>
      assert name[0..] == name;
      Parts(name, "")
  }

  /** Without a hyphen-before-digit, or with a line terminator anywhere,
      the name comes back whole with an empty tail. */
  lemma NoMatchKeepsName(name: string)
    requires !NoLineTerminator(name) || !HasDashDigit(name)
    ensures SplitAtDashBeforeDigit(name) == Parts(name, "")
  {
  }

  /** The head alone: the name up to its first hyphen-before-digit when the
      pattern matches, the whole name otherwise. */
  lemma HeadCharacterised(name: string)
    ensures var r := SplitAtDashBeforeDigit(name);
      && |r.head| <= |name|
      && (|r.head| < |name| <==> NoLineTerminator(name) && HasDashDigit(name))
      && (|r.head| < |name| ==> IsFirstDashDigit(name, |r.head|))
      && (|r.head| == |name| ==> r.head == name)
  {
  }

  /** On a match the tail starts with the hyphen and its digit, and the head
      holds no hyphen-before-digit: the cut is at the first one. */
  lemma {:induction false} MatchCutsAtFirstDashDigit(name: string)
    requires NoLineTerminator(name) && HasDashDigit(name)
    ensures var r := SplitAtDashBeforeDigit(name);
      && |r.tail| >= 2 && r.tail[0] == '-' && IsDigit(r.tail[1])
      && !HasDashDigit(r.head)
  {
    var r := SplitAtDashBeforeDigit(name);
    var k := |r.head|;
    assert IsFirstDashDigit(name, k);
    assert r.head == name[..k] && r.tail == name[k..];
    forall j | 0 <= j < k
      ensures !DashDigitAt(r.head, j)
    {
      assert !DashDigitAt(name, j);
    }
  }

  /** The converse: any cut whose tail starts with a hyphen-before-digit and
      whose head holds none is the one the helper returns. For a name
      `A-123B` where `A` has no hyphen-before-digit this gives `A` and
      `-123B`. */
  lemma {:induction false} FirstCutIsUnique(name: string, h: string, t: string)
    requires NoLineTerminator(name)
    requires h + t == name
    requires DashDigitAt(t, 0)
    requires !HasDashDigit(h)
    ensures SplitAtDashBeforeDigit(name) == Parts(h, t)
  {
    assert DashDigitAt(name, |h|);
    var r := SplitAtDashBeforeDigit(name);
    var k := |r.head|;
    assert IsFirstDashDigit(name, k);
    if k + 1 < |h| {
      assert DashDigitAt(h, k);
      assert false;
    }
    assert k == |h|;
    assert r.head == name[..k] == h;
    assert r.tail == name[k..] == t;
  }
}

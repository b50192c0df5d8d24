/** Python's str.find, str.split and str.join for a non-empty separator, on strings
    modelled as sequences of characters, with the properties the schema chunker relies on:
    the pieces join back to the input, no piece holds the separator, and (for a separator
    that cannot overlap itself) there is one piece more than there are occurrences. */
module PySplit {

  datatype Option<T> = None | Some(value: T)

  /** `sep` occurs in `s` starting at index `i`. */
  predicate OccursAt(s: string, sep: string, i: int) {
    0 <= i && i + |sep| <= |s| && s[i..i + |sep|] == sep
  }

  /** `sep` occurs somewhere in `s` (Python's `sep in s`). */
  predicate Contains(s: string, sep: string) {
    exists i :: 0 <= i <= |s| && OccursAt(s, sep, i)
  }

  /** No proper non-empty prefix of `sep` is also a suffix of it, so two occurrences of
      `sep` in any string can never overlap. */
  predicate NoBorder(sep: string) {
    forall k :: 0 < k < |sep| ==> sep[k..] != sep[..|sep| - k]
  }

  /** Occurrences in a suffix are occurrences in the whole string, shifted. */
  lemma OccursAtDrop(s: string, sep: string, m: int, k: int)
    requires 0 <= m <= |s| && 0 <= k
    ensures OccursAt(s[m..], sep, k) <==> OccursAt(s, sep, m + k)
  {
    if k + |sep| <= |s| - m {
      assert s[m..][k..k + |sep|] == s[m + k..m + k + |sep|];
    }
  }

  /** Occurrences that end inside a prefix are the same in the prefix and in the whole. */
  lemma OccursAtTake(s: string, sep: string, m: int, k: int)
    requires 0 <= m <= |s|
    ensures OccursAt(s[..m], sep, k) <==> k + |sep| <= m && OccursAt(s, sep, k)
  {
    if 0 <= k && k + |sep| <= m {
      assert s[..m][k..k + |sep|] == s[k..k + |sep|];
    }
  }

  /** Python's `s.find(sep)`: the leftmost index where `sep` occurs, or None for -1. */
  function Find(s: string, sep: string): (r: Option<nat>)
    requires sep != []
    ensures r.Some? ==> OccursAt(s, sep, r.value)
    ensures r.Some? ==> forall j :: 0 <= j < r.value ==> !OccursAt(s, sep, j)
    ensures r.None? <==> !Contains(s, sep)
    decreases |s|
  {
    if |s| < |sep| then
      None
    else if s[..|sep|] == sep then
      Some(0)
    else
      var rest := Find(s[1..], sep);
      assert forall j :: 1 <= j ==> (OccursAt(s, sep, j) <==> OccursAt(s[1..], sep, j - 1)) by {
        forall j | 1 <= j ensures OccursAt(s, sep, j) <==> OccursAt(s[1..], sep, j - 1) {
          OccursAtDrop(s, sep, 1, j - 1);
        }
      }
      assert !OccursAt(s, sep, 0);
      match rest
      case None => None
      case Some(i) => Some(i + 1)
  }

  /** Python's `s.split(sep)`: cut `s` at each leftmost, non-overlapping occurrence of
      `sep`, scanning left to right, and drop the separators. The text before the first
      occurrence is always the first piece, even when empty. */
  function Split(s: string, sep: string): (parts: seq<string>)
    requires sep != []
    ensures |parts| >= 1
    decreases |s|
  {
    match Find(s, sep)
    case None => [s]
    case Some(i) => [s[..i]] + Split(s[i + |sep|..], sep)
  }

  /** One step of the split: the text before the leftmost occurrence, then the split of
      what follows it. */
  lemma SplitStep(s: string, sep: string)
    requires sep != [] && Find(s, sep).Some?
    ensures Split(s, sep) ==
      [s[..Find(s, sep).value]] + Split(s[Find(s, sep).value + |sep|..], sep)
  {
  }

  /** Python's `sep.join(parts)`. */
  function Join(parts: seq<string>, sep: string): (r: string) {
    if |parts| == 0 then ""
    else if |parts| == 1 then parts[0]
    else parts[0] + sep + Join(parts[1..], sep)
  }

  /** Number of indices at which `sep` occurs in `s`, overlapping occurrences included.
      This is a definition independent of the left-to-right scan of Split. */
  function OccurrenceCount(s: string, sep: string): (n: nat)
    requires sep != []
  {
    CountFrom(s, sep, 0)
  }

  /** Number of indices from `i` on at which `sep` occurs in `s`. */
  function CountFrom(s: string, sep: string, i: nat): (n: nat)
    requires sep != []
    decreases |s| - i
  {
    if i + |sep| > |s| then 0
    else (if OccursAt(s, sep, i) then 1 else 0) + CountFrom(s, sep, i + 1)
  }

  /** Skipping indices at which `sep` does not start keeps the count. */
  lemma {:induction false} CountSkip(s: string, sep: string, i: nat, j: nat)
    requires sep != [] && i <= j
    requires forall k :: i <= k < j ==> !OccursAt(s, sep, k)
    ensures CountFrom(s, sep, i) == CountFrom(s, sep, j)
    decreases j - i
  {
    if i < j && i + |sep| <= |s| {
      CountSkip(s, sep, i + 1, j);
    } else if i < j {
      CountBeyond(s, sep, j);
    }
  }

  /** Past the last index where `sep` fits, the count is zero. */
  lemma CountBeyond(s: string, sep: string, j: nat)
    requires sep != [] && j + |sep| > |s|
    ensures CountFrom(s, sep, j) == 0
  {
  }

  /** Counting in a suffix is counting in the whole string from the suffix's start. */
  lemma {:induction false} CountShift(s: string, sep: string, m: nat, k: nat)
    requires sep != [] && m <= |s|
    ensures CountFrom(s[m..], sep, k) == CountFrom(s, sep, m + k)
    decreases |s| - m - k
  {
    if k + |sep| <= |s| - m {
      OccursAtDrop(s, sep, m, k);
      CountShift(s, sep, m, k + 1);
    }
  }

  /** Two occurrences of a border-free separator are at least |sep| apart. */
  lemma NoOverlap(s: string, sep: string, i: int, k: int)
    requires NoBorder(sep) && OccursAt(s, sep, i) && 0 < k < |sep|
    ensures !OccursAt(s, sep, i + k)
  {
    var n := |sep|;
    assert s[i + k..i + n] == sep[k..];
    assert sep[k..] != sep[..n - k];
    if i + k + n <= |s| {
      assert s[i + k..i + n] == s[i + k..i + k + n][..n - k];
    }
  }

  /** A string without the separator has no occurrences at all. */
  lemma CountZero(s: string, sep: string)
    requires sep != [] && !Contains(s, sep)
    ensures OccurrenceCount(s, sep) == 0
  {
    CountSkip(s, sep, 0, |s|);
    CountBeyond(s, sep, |s|);
  }

  /** Up to and past the leftmost occurrence of a border-free separator, exactly one
      occurrence has been passed once the scan resumes after it. */
  lemma CountPastFirst(s: string, sep: string, i: nat)
    requires sep != [] && NoBorder(sep)
    requires OccursAt(s, sep, i) && forall j :: 0 <= j < i ==> !OccursAt(s, sep, j)
    ensures OccurrenceCount(s, sep) == 1 + OccurrenceCount(s[i + |sep|..], sep)
  {
    var e := i + |sep|;
    assert CountFrom(s, sep, 0) == CountFrom(s, sep, i) by {
      CountSkip(s, sep, 0, i);
    }
    assert CountFrom(s, sep, i) == 1 + CountFrom(s, sep, i + 1);
    assert CountFrom(s, sep, i + 1) == CountFrom(s, sep, e) by {
      CountInsideOccurrence(s, sep, i);
    }
    assert CountFrom(s[e..], sep, 0) == CountFrom(s, sep, e) by {
      CountShift(s, sep, e, 0);
    }
  }

  /** No occurrence of a border-free separator starts inside another one. */
  lemma CountInsideOccurrence(s: string, sep: string, i: nat)
    requires sep != [] && NoBorder(sep) && OccursAt(s, sep, i)
    ensures CountFrom(s, sep, i + 1) == CountFrom(s, sep, i + |sep|)
  {
    forall k | i + 1 <= k < i + |sep| ensures !OccursAt(s, sep, k) {
      NoOverlap(s, sep, i, k - i);
    }
    CountSkip(s, sep, i + 1, i + |sep|);
  }

  /** Split yields one piece more than there are occurrences of a border-free separator. */
  lemma {:induction false} SplitLength(s: string, sep: string)
    requires sep != [] && NoBorder(sep)
    ensures |Split(s, sep)| == OccurrenceCount(s, sep) + 1
    decreases |s|
  {
    var f := Find(s, sep);
    if f.None? {
      CountZero(s, sep);
    } else {
      var i := f.value;
      SplitStep(s, sep);
      CountPastFirst(s, sep, i);
      SplitLength(s[i + |sep|..], sep);
    }
  }

  /** Joining a list of at least two pieces puts the separator after the first one. */
  lemma JoinCons(head: string, tail: seq<string>, sep: string)
    requires |tail| >= 1
    ensures Join([head] + tail, sep) == head + sep + Join(tail, sep)
  {
    assert ([head] + tail)[1..] == tail;
  }

  /** A string is the text before an occurrence, the separator, and the text after it. */
  lemma CutAt(s: string, sep: string, i: int)
    requires OccursAt(s, sep, i)
    ensures s == s[..i] + sep + s[i + |sep|..]
  {
    assert s == s[..i] + s[i..i + |sep|] + s[i + |sep|..];
  }

  /** Round trip: joining the pieces with the separator gives back the input. */
  lemma {:induction false} JoinSplit(s: string, sep: string)
    requires sep != []
    ensures Join(Split(s, sep), sep) == s
    decreases |s|
  {
    var f := Find(s, sep);
    if f.Some? {
      var i := f.value;
      SplitStep(s, sep);
      var rest := s[i + |sep|..];
      JoinSplit(rest, sep);
      JoinCons(s[..i], Split(rest, sep), sep);
      CutAt(s, sep, i);
    }
  }

  /** No piece of a split contains the separator. */
  lemma {:induction false} SplitPiecesFree(s: string, sep: string)
    requires sep != []
    ensures forall k :: 0 <= k < |Split(s, sep)| ==> !Contains(Split(s, sep)[k], sep)
    decreases |s|
  {
    var f := Find(s, sep);
    if f.Some? {
      var i := f.value;
      SplitStep(s, sep);
      var rest := s[i + |sep|..];
      SplitPiecesFree(rest, sep);
      var head := s[..i];
      forall j | 0 <= j <= |head| ensures !OccursAt(head, sep, j) {
        OccursAtTake(s, sep, i, j);
      }
    }
  }

  /** The split is a single piece, the whole input, exactly when the separator is absent. */
  lemma SplitSingle(s: string, sep: string)
    requires sep != []
    ensures Split(s, sep) == [s] <==> !Contains(s, sep)
  {
    if Find(s, sep).Some? {
      SplitStep(s, sep);
    }
  }

  /** The first piece is the text before the first occurrence of the separator, or the
      whole input when there is none; in particular it is empty when the input starts
      with the separator. */
  lemma LeadingPiece(s: string, sep: string)
    requires sep != []
    ensures Split(s, sep)[0] <= s
    ensures !Contains(Split(s, sep)[0], sep)
    ensures Split(s, sep)[0] == s || OccursAt(s, sep, |Split(s, sep)[0]|)
    ensures forall j :: 0 <= j < |Split(s, sep)[0]| ==> !OccursAt(s, sep, j)
    ensures sep <= s ==> Split(s, sep)[0] == []
  {
    SplitPiecesFree(s, sep);
    if sep <= s {
      assert OccursAt(s, sep, 0);
    }
  }

  /** For a border-free separator the split is the only list of pieces that is free of the
      separator and joins back to the input: the scan makes no arbitrary choice. */
  lemma {:induction false} SplitUnique(s: string, sep: string, parts: seq<string>)
    requires sep != [] && NoBorder(sep)
    requires |parts| >= 1 && Join(parts, sep) == s
    requires forall k :: 0 <= k < |parts| ==> !Contains(parts[k], sep)
    ensures parts == Split(s, sep)
    decreases |parts|
  {
    if |parts| == 1 {
      assert !Contains(s, sep);
    } else {
      var head, rest := parts[0], Join(parts[1..], sep);
      assert s == head + sep + rest;
      assert !Contains(head, sep);
      FirstOccurrenceAfterPiece(head, sep, rest);
      assert s[..|head|] == head;
      assert s[|head| + |sep|..] == rest;
      assert Split(s, sep) == [head] + Split(rest, sep);
      SplitUnique(rest, sep, parts[1..]);
    }
  }

  /** In `head + sep + rest` with `head` free of a border-free `sep`, the leftmost
      occurrence of `sep` is the one right after `head`. */
  lemma FirstOccurrenceAfterPiece(head: string, sep: string, rest: string)
    requires sep != [] && NoBorder(sep) && !Contains(head, sep)
    ensures Find(head + sep + rest, sep) == Some(|head|)
  {
    var s, i, n := head + sep + rest, |head|, |sep|;
    assert s[..i] == head;
    assert s[i..i + n] == sep;
    assert OccursAt(s, sep, i);
    forall j | 0 <= j < i ensures !OccursAt(s, sep, j) {
      OccursAtTake(s, sep, i, j);
      if OccursAt(s, sep, j) && i < j + n {
        NoOverlap(s, sep, j, i - j);
      }
    }
  }
}

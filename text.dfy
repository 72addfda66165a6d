/**
 * The parts of JavaScript's string library that the image utilities rely on:
 * `String.prototype.split` with a non-empty string separator (used for the
 * file extension and for the storage path inside a public URL) and the
 * decimal rendering of a non-negative integer inside a template literal
 * (used for the timestamp in a storage key). `IndexOf` is the search that
 * `split` repeats; `Join` is its inverse, used to state what a split keeps.
 */
module Text {
  import opened Wrappers

  /** `pat` occurs in `s` starting at position `i`. */
  predicate OccursAt(s: string, pat: string, i: nat)
  {
    i + |pat| <= |s| && s[i..i + |pat|] == pat
  }

  /** `pat` occurs nowhere in `s`. */
  ghost predicate Free(s: string, pat: string)
  {
    forall i: nat :: !OccursAt(s, pat, i)
  }

  /** A one-character pattern occurs exactly where that character does. */
  lemma OccursAtChar(s: string, c: char, i: nat)
    ensures OccursAt(s, [c], i) <==> i < |s| && s[i] == c
  {
    if i < |s| {
      assert s[i..i + 1] == [s[i]];
    }
  }

  /** No occurrence of `c` from position `k` on means none in `s[k..]`. */
  lemma CharFreeFrom(s: string, c: char, k: nat)
    requires k <= |s|
    requires forall j: nat :: k <= j ==> !OccursAt(s, [c], j)
    ensures c !in s[k..]
  {
    if c in s[k..] {
      var m :| 0 <= m < |s| - k && s[k..][m] == c;
      OccursAtChar(s, c, k + m);
    }
  }

  /** The occurrences inside a slice of `s` are those of `s` that lie within it. */
  lemma OccursInSlice(s: string, pat: string, a: nat, b: nat, j: nat)
    requires a <= b <= |s|
    ensures OccursAt(s[a..b], pat, j) <==> OccursAt(s, pat, a + j) && a + j + |pat| <= b
  {
    if a + j + |pat| <= b {
      var t := s[a..b][j..j + |pat|];
      assert forall m :: 0 <= m < |pat| ==> t[m] == s[a + j + m];
      assert t == s[a + j..a + j + |pat|];
    }
  }

  /**
   * `s.indexOf(pat, from)`: the first position at or after `from` where
   * `pat` occurs, or None when there is none.
   */
  function IndexOf(s: string, pat: string, from: nat): (r: Option<nat>)
    requires pat != [] && from <= |s|
    ensures r.Some? ==> from <= r.value && OccursAt(s, pat, r.value)
    ensures r.Some? ==> forall j: nat :: from <= j < r.value ==> !OccursAt(s, pat, j)
    ensures r.None? ==> forall j: nat :: from <= j ==> !OccursAt(s, pat, j)
    decreases |s| - from
  {
    if from + |pat| > |s| then None
    else if OccursAt(s, pat, from) then Some(from)
    else IndexOf(s, pat, from + 1)
  }

  /** The search returns any occurrence that has no earlier one from `from` on. */
  lemma {:induction false} IndexOfFirst(s: string, pat: string, from: nat, i: nat)
    requires pat != [] && from <= i
    requires OccursAt(s, pat, i)
    requires forall j: nat :: from <= j < i ==> !OccursAt(s, pat, j)
    ensures IndexOf(s, pat, from) == Some(i)
    decreases i - from
  {
    if from < i {
      IndexOfFirst(s, pat, from + 1, i);
    }
  }

  /**
   * The pieces of `s[from..]` as `split(sep)` produces them for a non-empty
   * separator: search for the next occurrence from the current position,
   * cut there, and continue after the separator.
   */
  function SplitFrom(s: string, sep: string, from: nat): (parts: seq<string>)
    requires sep != [] && from <= |s|
    ensures |parts| >= 1
    decreases |s| - from
  {
    match IndexOf(s, sep, from)
    case None => [s[from..]]
    case Some(i) => [s[from..i]] + SplitFrom(s, sep, i + |sep|)
  }

  /**
   * `s.split(sep)`: at least one piece, no piece holds the separator, and
   * joining the pieces with the separator gives `s` back.
   */
  function Split(s: string, sep: string): (parts: seq<string>)
    requires sep != []
    ensures |parts| >= 1
    ensures forall k :: 0 <= k < |parts| ==> Free(parts[k], sep)
    ensures Join(parts, sep) == s
  {
    SplitJoin(s, sep, 0);
    SplitPiecesFree(s, sep, 0);
    assert s[0..] == s;
    SplitFrom(s, sep, 0)
  }

  /** `parts.join(sep)`. */
  function Join(parts: seq<string>, sep: string): string
    requires |parts| >= 1
  {
    if |parts| == 1 then parts[0] else parts[0] + sep + Join(parts[1..], sep)
  }

  /** After an occurrence, the pieces are what precedes it followed by the split of what follows the separator. */
  lemma SplitStep(s: string, sep: string, from: nat)
    requires sep != [] && from <= |s| && IndexOf(s, sep, from).Some?
    ensures IndexOf(s, sep, from).value + |sep| <= |s|
    ensures SplitFrom(s, sep, from) ==
            [s[from..IndexOf(s, sep, from).value]] + SplitFrom(s, sep, IndexOf(s, sep, from).value + |sep|)
  {
  }

  /** Without an occurrence, the rest of the string is the only piece. */
  lemma SplitEnd(s: string, sep: string, from: nat)
    requires sep != [] && from <= |s| && IndexOf(s, sep, from).None?
    ensures SplitFrom(s, sep, from) == [s[from..]]
  {
  }

  /** There is more than one piece exactly when the separator occurs. */
  lemma SplitCount(s: string, sep: string, from: nat)
    requires sep != [] && from <= |s|
    ensures |SplitFrom(s, sep, from)| > 1 <==> IndexOf(s, sep, from).Some?
  {
    var r := IndexOf(s, sep, from);
  }

  /** With no occurrence from `from` on, the rest of the string is the only piece. */
  lemma SplitNoMore(s: string, sep: string, from: nat)
    requires sep != [] && from <= |s|
    ensures (forall j: nat :: from <= j ==> !OccursAt(s, sep, j)) ==> SplitFrom(s, sep, from) == [s[from..]]
  {
    var r := IndexOf(s, sep, from);
    if r.None? {
      SplitEnd(s, sep, from);
    }
  }

  /** Splitting loses nothing: joining the pieces restores the string. */
  lemma {:induction false} SplitJoin(s: string, sep: string, from: nat)
    requires sep != [] && from <= |s|
    ensures Join(SplitFrom(s, sep, from), sep) == s[from..]
    decreases |s| - from
  {
    var r := IndexOf(s, sep, from);
    if r.Some? {
      SplitJoin(s, sep, r.value + |sep|);
      SplitJoinStep(s, sep, from);
    } else {
      SplitEnd(s, sep, from);
    }
  }

  /** One step of `SplitJoin`: if what follows the first separator joins back, so does the whole. */
  lemma SplitJoinStep(s: string, sep: string, from: nat)
    requires sep != [] && from <= |s| && IndexOf(s, sep, from).Some?
    requires IndexOf(s, sep, from).value + |sep| <= |s|
    requires var next := IndexOf(s, sep, from).value + |sep|;
             Join(SplitFrom(s, sep, next), sep) == s[next..]
    ensures Join(SplitFrom(s, sep, from), sep) == s[from..]
  {
    var i := IndexOf(s, sep, from).value;
    var tail := SplitFrom(s, sep, i + |sep|);
    SplitStep(s, sep, from);
    Reassemble(s, sep, from, i);
    JoinStep(SplitFrom(s, sep, from), s[from..i], sep, tail, s[i + |sep|..], s[from..]);
  }

  /** Joining a piece in front of pieces that join to `rest`. */
  lemma JoinStep(parts: seq<string>, head: string, sep: string, tail: seq<string>, rest: string, whole: string)
    requires parts == [head] + tail
    requires |tail| >= 1 && Join(tail, sep) == rest && head + sep + rest == whole
    ensures Join(parts, sep) == whole
  {
    assert parts[1..] == tail;
  }

  /** Putting an occurrence of the separator back between its two sides. */
  lemma Reassemble(s: string, sep: string, from: nat, i: nat)
    requires from <= i && OccursAt(s, sep, i)
    ensures s[from..i] + sep + s[i + |sep|..] == s[from..]
  {
    assert s[from..] == s[from..i] + s[i..i + |sep|] + s[i + |sep|..];
  }

  /** No piece of a split contains the separator. */
  lemma {:induction false} SplitPiecesFree(s: string, sep: string, from: nat)
    requires sep != [] && from <= |s|
    ensures forall k :: 0 <= k < |SplitFrom(s, sep, from)| ==> Free(SplitFrom(s, sep, from)[k], sep)
    decreases |s| - from
  {
    var r := IndexOf(s, sep, from);
    if r.None? {
      SplitEnd(s, sep, from);
      SliceFree(s, sep, from, |s|);
      assert s[from..] == s[from..|s|];
      SingleFree(SplitFrom(s, sep, from), s[from..], sep);
    } else {
      var i := r.value;
      SplitStep(s, sep, from);
      SliceFree(s, sep, from, i);
      SplitPiecesFree(s, sep, i + |sep|);
      AllFreeCons(SplitFrom(s, sep, from), s[from..i], SplitFrom(s, sep, i + |sep|), sep);
    }
  }

  /** A slice holds no occurrence when `s` has none starting in `[a, b)`. */
  lemma SliceFree(s: string, sep: string, a: nat, b: nat)
    requires sep != [] && a <= b <= |s|
    requires forall j: nat :: a <= j < b ==> !OccursAt(s, sep, j)
    ensures Free(s[a..b], sep)
  {
    forall j: nat ensures !OccursAt(s[a..b], sep, j) {
      OccursInSlice(s, sep, a, b, j);
    }
  }

  lemma AllFreeCons(parts: seq<string>, head: string, tail: seq<string>, sep: string)
    requires parts == [head] + tail
    requires Free(head, sep)
    requires forall k :: 0 <= k < |tail| ==> Free(tail[k], sep)
    ensures forall k :: 0 <= k < |parts| ==> Free(parts[k], sep)
  {
    forall k | 0 <= k < |parts| ensures Free(parts[k], sep) {
      if k > 0 {
        assert parts[k] == tail[k - 1];
      }
    }
  }

  lemma SingleFree(parts: seq<string>, piece: string, sep: string)
    requires parts == [piece] && Free(piece, sep)
    ensures forall k :: 0 <= k < |parts| ==> Free(parts[k], sep)
  {
  }

  lemma LastOfCons<T>(parts: seq<T>, x: T, tail: seq<T>)
    requires |tail| >= 1 && parts == [x] + tail
    ensures |parts| > 1 && parts[|parts| - 1] == tail[|tail| - 1]
  {
  }

  /**
   * The last piece of a split (`split(sep).pop()`) starts at some `k`, runs
   * to the end of the string and has no occurrence of the separator at or
   * after `k`; it is the only piece exactly when `k` is where the split
   * starts, and otherwise the separator comes right before it.
   */
  lemma {:induction false} SplitLast(s: string, sep: string, from: nat) returns (k: nat)
    requires sep != [] && from <= |s|
    ensures from <= k <= |s|
    ensures SplitFrom(s, sep, from)[|SplitFrom(s, sep, from)| - 1] == s[k..]
    ensures forall j: nat :: k <= j ==> !OccursAt(s, sep, j)
    ensures |SplitFrom(s, sep, from)| == 1 <==> k == from
    ensures |SplitFrom(s, sep, from)| > 1 ==> from + |sep| <= k && OccursAt(s, sep, k - |sep|)
    decreases |s| - from
  {
    var r := IndexOf(s, sep, from);
    if r.None? {
      SplitEnd(s, sep, from);
      k := from;
    } else {
      var next := r.value + |sep|;
      SplitStep(s, sep, from);
      LastOfCons(SplitFrom(s, sep, from), s[from..r.value], SplitFrom(s, sep, next));
      k := SplitLast(s, sep, next);
    }
  }

  /**
   * The last piece of `Split(s, sep)`, named `last`, is the suffix of `s`
   * after the last occurrence of the separator, or all of `s` when there is none.
   */
  lemma LastPieceSuffix(s: string, sep: string, last: string)
    requires sep != [] && last == Split(s, sep)[|Split(s, sep)| - 1]
    ensures |last| <= |s| && s[|s| - |last|..] == last
    ensures forall j: nat :: |s| - |last| <= j ==> !OccursAt(s, sep, j)
    ensures |Split(s, sep)| == 1 ==> last == s
    ensures |Split(s, sep)| > 1 ==> |sep| <= |s| - |last| && OccursAt(s, sep, |s| - |last| - |sep|)
  {
    var k := SplitLast(s, sep, 0);
    assert last == s[k..];
    assert |s| - |last| == k;
  }

  /** The first piece runs from `from` to the next occurrence or to the end of `s`. */
  lemma FirstPiece(s: string, sep: string, from: nat) returns (end: nat)
    requires sep != [] && from <= |s|
    ensures from <= end <= |s| && SplitFrom(s, sep, from)[0] == s[from..end]
    ensures end == |s| || OccursAt(s, sep, end)
    ensures forall j: nat :: from <= j < end ==> !OccursAt(s, sep, j)
  {
    var r := IndexOf(s, sep, from);
    if r.Some? {
      SplitStep(s, sep, from);
      FirstOfCons(SplitFrom(s, sep, from), s[from..r.value], SplitFrom(s, sep, r.value + |sep|));
      end := r.value;
    } else {
      SplitEnd(s, sep, from);
      FirstOfCons(SplitFrom(s, sep, from), s[from..], []);
      end := |s|;
    }
  }

  /**
   * Conversely, a stretch from `from` with no occurrence in it that ends at
   * an occurrence or at the end of `s` is the first piece.
   */
  lemma PieceUpTo(s: string, sep: string, from: nat, end: nat)
    requires sep != [] && from <= end <= |s|
    requires forall j: nat :: from <= j < end ==> !OccursAt(s, sep, j)
    requires end == |s| || OccursAt(s, sep, end)
    ensures SplitFrom(s, sep, from)[0] == s[from..end]
  {
    var e := FirstPiece(s, sep, from);
    assert e == end;
  }

  lemma FirstOfCons<T>(parts: seq<T>, x: T, tail: seq<T>)
    requires parts == [x] + tail
    ensures |parts| >= 1 && parts[0] == x
  {
  }

  /**
   * The second piece of a split starts right after the first occurrence `i`
   * of the separator and ends at the next occurrence or at the end of `s`.
   */
  lemma SplitSecond(s: string, sep: string) returns (i: nat, end: nat)
    requires sep != [] && |Split(s, sep)| >= 2
    ensures OccursAt(s, sep, i)
    ensures forall j: nat :: j < i ==> !OccursAt(s, sep, j)
    ensures i + |sep| <= end <= |s| && Split(s, sep)[1] == s[i + |sep|..end]
    ensures end == |s| || OccursAt(s, sep, end)
  {
    SplitCount(s, sep, 0);
    i := IndexOf(s, sep, 0).value;
    SplitStep(s, sep, 0);
    var rest := SplitFrom(s, sep, i + |sep|);
    SecondOfCons(Split(s, sep), s[0..i], rest);
    end := FirstPiece(s, sep, i + |sep|);
  }

  lemma SecondOfCons<T>(parts: seq<T>, x: T, tail: seq<T>)
    requires |tail| >= 1 && parts == [x] + tail
    ensures |parts| >= 2 && parts[1] == tail[0]
  {
  }

  /** The decimal digit for `d`. */
  function DigitChar(d: nat): (c: char)
    requires d < 10
    ensures '0' <= c <= '9' && c as int - '0' as int == d
  {
    "0123456789"[d]
  }

  /** The decimal rendering of `n`, as `${n}` gives it for a non-negative integer. */
  function DecimalString(n: nat): (s: string)
    ensures |s| >= 1
    ensures forall k :: 0 <= k < |s| ==> '0' <= s[k] <= '9'
    ensures |s| > 1 ==> s[0] != '0'
  {
    if n < 10 then [DigitChar(n)] else DecimalString(n / 10) + [DigitChar(n % 10)]
  }

  predicate AllDigits(s: string)
  {
    forall k :: 0 <= k < |s| ==> '0' <= s[k] <= '9'
  }

  /**
   * A string of digits followed by "-" and a tail can be taken apart again:
   * the first "-" ends the digits.
   */
  lemma DigitsThenDash(d1: string, t1: string, d2: string, t2: string)
    requires AllDigits(d1) && AllDigits(d2)
    requires d1 + "-" + t1 == d2 + "-" + t2
    ensures d1 == d2 && t1 == t2
  {
    var w := d1 + "-" + t1;
    FirstDash(w, d1, t1);
    FirstDash(w, d2, t2);
    assert w[..|d1|] == d1 && w[|d1| + 1..] == t1;
    assert w[..|d2|] == d2 && w[|d2| + 1..] == t2;
  }

  lemma FirstDash(w: string, d: string, t: string)
    requires AllDigits(d) && w == d + "-" + t
    ensures IndexOf(w, "-", 0) == Some(|d|)
  {
    OccursAtChar(w, '-', |d|);
    forall j: nat | j < |d|
      ensures !OccursAt(w, "-", j)
    {
      OccursAtChar(w, '-', j);
      assert w[j] == d[j];
    }
    IndexOfFirst(w, "-", 0, |d|);
  }

  /** The number a string of decimal digits denotes. */
  function DecimalValue(s: string): nat
    requires forall k :: 0 <= k < |s| ==> '0' <= s[k] <= '9'
  {
    if s == [] then 0 else DecimalValue(s[..|s| - 1]) * 10 + (s[|s| - 1] as int - '0' as int)
  }

  /** The rendering is faithful: reading the digits back gives the number. */
  lemma {:induction false} DecimalRoundTrip(n: nat)
    ensures DecimalValue(DecimalString(n)) == n
  {
    var s := DecimalString(n);
    if n >= 10 {
      DecimalRoundTrip(n / 10);
      assert s[..|s| - 1] == DecimalString(n / 10);
    } else {
      assert s[..|s| - 1] == [];
    }
  }
}

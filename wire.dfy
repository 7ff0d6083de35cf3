/**
 * The byte-level codec the signature request travels in: Go's `bytes.Split`,
 * `bytes.Count` and `strings.Join`, specialised to the two-byte separator
 * LF LF ("\n\n").
 */
module Wire {
  import opened Wrappers

  newtype byte = x: int | 0 <= x < 256

  type Bytes = seq<byte>

  const LF: byte := 10

  /** The field separator "\n\n". */
  const Sep: Bytes := [LF, LF]

  /** A separator starts at position `i` of `s`. */
  predicate SepAt(s: Bytes, i: int) {
    0 <= i && i + 2 <= |s| && s[i] == LF && s[i + 1] == LF
  }

  predicate ContainsSep(s: Bytes) {
    exists i | 0 <= i < |s| :: SepAt(s, i)
  }

  predicate EndsWithLF(s: Bytes) {
    |s| > 0 && s[|s| - 1] == LF
  }

  /** Go's `bytes.Index(s, sep)`: the leftmost position where a separator starts. */
  function IndexOfSep(s: Bytes): (r: Option<nat>)
    ensures r.Some? ==> SepAt(s, r.value) && forall j :: 0 <= j < r.value ==> !SepAt(s, j)
    ensures r.None? ==> !ContainsSep(s)
    decreases |s|
  {
    if |s| < 2 then None
    else if SepAt(s, 0) then Some(0)
    else
      match IndexOfSep(s[1..])
      case None =>
        assert forall j :: SepAt(s, j) ==> j == 0 || SepAt(s[1..], j - 1);
        None
      case Some(i) =>
        assert forall j :: 1 <= j ==> SepAt(s, j) == SepAt(s[1..], j - 1);
        Some(i + 1)
  }

  /**
   * Go's `bytes.Split(s, sep)`: cut `s` at every separator found by a left-to-right
   * scan for non-overlapping matches; the text after the last one is the final part.
   */
  function Split(s: Bytes): (parts: seq<Bytes>)
    ensures |parts| >= 1
    decreases |s|
  {
    match IndexOfSep(s)
    case None => [s]
    case Some(i) => [s[..i]] + Split(s[i + 2..])
  }

  /** Go's `strings.Join(parts, sep)`. */
  function Join(parts: seq<Bytes>): Bytes {
    if |parts| == 0 then []
    else if |parts| == 1 then parts[0]
    else parts[0] + Sep + Join(parts[1..])
  }

  /** Go's `bytes.Count(s, sep)`: non-overlapping separators, counted stepwise from the left. */
  function CountSeparators(s: Bytes): nat
    decreases |s|
  {
    if |s| < 2 then 0
    else if SepAt(s, 0) then 1 + CountSeparators(s[2..])
    else CountSeparators(s[1..])
  }

  /**
   * The fields that survive a join followed by a split: none contains a separator,
   * and none but the last ends in LF (its LF would pair with the separator's first byte).
   */
  predicate Splittable(parts: seq<Bytes>) {
    && (forall k :: 0 <= k < |parts| ==> !ContainsSep(parts[k]))
    && (forall k :: 0 <= k < |parts| - 1 ==> !EndsWithLF(parts[k]))
  }

  /** `IndexOfSep` finds exactly the first separator. */
  lemma IndexOfSepIs(s: Bytes, i: nat)
    requires SepAt(s, i)
    requires forall j :: 0 <= j < i ==> !SepAt(s, j)
    ensures IndexOfSep(s) == Some(i)
  {
  }

  /** Joining the parts of a split gives back the original bytes. */
  lemma {:induction false} JoinSplit(s: Bytes)
    ensures Join(Split(s)) == s
    decreases |s|
  {
    match IndexOfSep(s)
    case None =>
    case Some(i) =>
      var rest := s[i + 2..];
      JoinSplit(rest);
      var parts := Split(s);
      assert parts == [s[..i]] + Split(rest);
      assert parts[1..] == Split(rest);
      assert Join(parts) == s[..i] + Sep + Join(Split(rest));
      assert s == s[..i] + Sep + rest;
  }

  /** Appending one more field to a join adds a separator and that field. */
  lemma {:induction false} JoinSnoc(parts: seq<Bytes>, last: Bytes)
    requires |parts| >= 1
    ensures Join(parts + [last]) == Join(parts) + Sep + last
    decreases |parts|
  {
    if |parts| > 1 {
      JoinSnoc(parts[1..], last);
      assert (parts + [last])[1..] == parts[1..] + [last];
    }
  }

  /** Every output of a split is splittable. */
  lemma {:induction false} SplitIsSplittable(s: Bytes)
    ensures Splittable(Split(s))
    decreases |s|
  {
    match IndexOfSep(s)
    case None =>
    case Some(i) =>
      var rest := s[i + 2..];
      SplitIsSplittable(rest);
      var head := s[..i];
      assert !ContainsSep(head) by {
        forall j | SepAt(head, j) ensures false {
          assert SepAt(s, j);
        }
      }
      assert !EndsWithLF(head) by {
        if EndsWithLF(head) {
          assert SepAt(s, i - 1);
        }
      }
      var parts := Split(s);
      assert parts == [head] + Split(rest);
      forall k | 0 <= k < |parts| ensures !ContainsSep(parts[k]) {
        if k > 0 { assert parts[k] == Split(rest)[k - 1]; }
      }
      forall k | 0 <= k < |parts| - 1 ensures !EndsWithLF(parts[k]) {
        if k > 0 { assert parts[k] == Split(rest)[k - 1]; }
      }
  }

  /** After a field free of separators and not ending in LF, the first separator is the joining one. */
  lemma FirstSepAfterField(p: Bytes, t: Bytes)
    requires !ContainsSep(p) && !EndsWithLF(p)
    ensures IndexOfSep(p + Sep + t) == Some(|p|)
    ensures (p + Sep + t)[..|p|] == p && (p + Sep + t)[|p| + 2..] == t
  {
    var s := p + Sep + t;
    forall j | 0 <= j < |p| ensures !SepAt(s, j) {
      if j + 1 < |p| {
        assert !SepAt(p, j);
      }
    }
    IndexOfSepIs(s, |p|);
  }

  /** The tail of splittable fields is splittable. */
  lemma SplittableTail(parts: seq<Bytes>)
    requires |parts| >= 1 && Splittable(parts)
    ensures Splittable(parts[1..])
  {
  }

  /** Splitting a join of splittable fields gives back exactly those fields. */
  lemma {:induction false} SplitJoin(parts: seq<Bytes>)
    requires |parts| >= 1 && Splittable(parts)
    ensures Split(Join(parts)) == parts
    decreases |parts|
  {
    if |parts| == 1 {
      assert !ContainsSep(parts[0]);
    } else {
      var p, rest := parts[0], parts[1..];
      SplittableTail(parts);
      SplitJoin(rest);
      assert !ContainsSep(p) && !EndsWithLF(p);
      FirstSepAfterField(p, Join(rest));
      assert Split(Join(parts)) == [p] + Split(Join(rest));
    }
  }

  /** A join followed by a split is the identity exactly on splittable fields. */
  lemma SplitJoinIff(parts: seq<Bytes>)
    requires |parts| >= 1
    ensures Split(Join(parts)) == parts <==> Splittable(parts)
  {
    if Splittable(parts) {
      SplitJoin(parts);
    } else if Split(Join(parts)) == parts {
      SplitIsSplittable(Join(parts));
    }
  }

  /** Counting skips over a prefix that holds no separator start. */
  lemma {:induction false} CountSkip(s: Bytes, k: nat)
    requires k <= |s|
    requires forall j :: 0 <= j < k ==> !SepAt(s, j)
    ensures CountSeparators(s) == CountSeparators(s[k..])
    decreases k
  {
    if k > 0 {
      CountSkip(s, k - 1);
      var t := s[k - 1..];
      assert !SepAt(s, k - 1);
      if |t| >= 2 {
        assert !SepAt(t, 0);
        assert t[1..] == s[k..];
      }
    }
  }

  /** A split yields one part more than there are separators. */
  lemma {:induction false} SplitCount(s: Bytes)
    ensures |Split(s)| == CountSeparators(s) + 1
    decreases |s|
  {
    match IndexOfSep(s)
    case None =>
      CountSkip(s, if |s| < 1 then 0 else |s| - 1);
      var t := s[if |s| < 1 then 0 else |s| - 1..];
      assert |t| < 2;
    case Some(i) =>
      var rest := s[i + 2..];
      SplitCount(rest);
      CountSkip(s, i);
      var t := s[i..];
      assert SepAt(t, 0);
      assert t[2..] == rest;
  }
}

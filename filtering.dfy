/** Read-time selection of records: stream `filter`, `anyMatch` and the `atLogLevel` predicate. */
module Filtering {
  import opened Levels
  import opened Rendering

  /** `atLogLevel(level)`: records whose severity is at or above `level`. */
  function AtLogLevel(level: Level): (p: Event -> bool)
    ensures forall e :: p(e) <==> e.level.IsGreaterOrEqual(level)
  {
    (e: Event) => e.level.IsGreaterOrEqual(level)
  }

  /** Stream `filter(p)`: the elements satisfying `p`, in their original order. */
  function Filter<T>(s: seq<T>, p: T -> bool): (r: seq<T>)
    ensures |r| <= |s|
    ensures forall i :: 0 <= i < |r| ==> p(r[i]) && r[i] in s
  {
    if |s| == 0 then []
    else (if p(s[0]) then [s[0]] else []) + Filter(s[1..], p)
  }

  /** Stream `anyMatch(p)`. */
  function AnyMatch<T>(s: seq<T>, p: T -> bool): (b: bool)
    ensures b <==> exists i :: 0 <= i < |s| && p(s[i])
  {
    if |s| == 0 then false
    else p(s[0]) || (assert forall i :: 1 <= i < |s| ==> s[i] == s[1..][i - 1]; AnyMatch(s[1..], p))
  }

  /** `a` is obtained from `b` by deleting elements. */
  predicate IsSubsequence<T(==)>(a: seq<T>, b: seq<T>) {
    if |a| == 0 then true
    else if |b| == 0 then false
    else if a[0] == b[0] then IsSubsequence(a[1..], b[1..])
    else IsSubsequence(a, b[1..])
  }

  /** Each element occurs in the filtered sequence as often as in the original if it satisfies `p`, else never. */
  lemma {:induction false} FilterCounts<T>(s: seq<T>, p: T -> bool, x: T)
    ensures multiset(Filter(s, p))[x] == if p(x) then multiset(s)[x] else 0
  {
    if |s| > 0 {
      FilterCounts(s[1..], p, x);
      assert s == [s[0]] + s[1..];
      assert multiset(s) == multiset([s[0]]) + multiset(s[1..]);
    }
  }

  /** The filtered sequence keeps the original order. */
  lemma {:induction false} FilterIsSubsequence<T>(s: seq<T>, p: T -> bool)
    ensures IsSubsequence(Filter(s, p), s)
  {
    if |s| > 0 {
      FilterIsSubsequence(s[1..], p);
      var f := Filter(s, p);
      if p(s[0]) {
        assert f[0] == s[0] && f[1..] == Filter(s[1..], p);
      } else {
        assert f == Filter(s[1..], p);
      }
    }
  }

  /** Nothing is selected exactly when no element satisfies `p`. */
  lemma {:induction false} FilterEmpty<T>(s: seq<T>, p: T -> bool)
    ensures Filter(s, p) == [] <==> forall i :: 0 <= i < |s| ==> !p(s[i])
  {
    if |s| > 0 {
      FilterEmpty(s[1..], p);
      assert forall i :: 1 <= i < |s| ==> s[i] == s[1..][i - 1];
    }
  }

  /** Filtering distributes over concatenation, so appending a record only touches the end. */
  lemma {:induction false} FilterAppend<T>(s: seq<T>, t: seq<T>, p: T -> bool)
    ensures Filter(s + t, p) == Filter(s, p) + Filter(t, p)
  {
    if |s| == 0 {
      assert s + t == t;
    } else {
      var head := if p(s[0]) then [s[0]] else [];
      FilterAppend(s[1..], t, p);
      assert (s + t)[0] == s[0];
      assert (s + t)[1..] == s[1..] + t;
      assert Filter(s + t, p) == head + Filter(s[1..] + t, p);
      assert Filter(s, p) == head + Filter(s[1..], p);
    }
  }

  /**
   * The level views nest: the records seen at a higher threshold are a subsequence of
   * those seen at a lower one (the ERROR view sits inside the WARN view, which sits
   * inside the INFO view).
   */
  lemma {:induction false} LevelViewsNest(s: seq<Event>, high: Level, low: Level)
    requires high.IsGreaterOrEqual(low)
    ensures IsSubsequence(Filter(s, AtLogLevel(high)), Filter(s, AtLogLevel(low)))
  {
    if |s| > 0 {
      LevelViewsNest(s[1..], high, low);
      var a := Filter(s, AtLogLevel(high));
      var b := Filter(s, AtLogLevel(low));
      var a' := Filter(s[1..], AtLogLevel(high));
      var b' := Filter(s[1..], AtLogLevel(low));
      if AtLogLevel(high)(s[0]) {
        assert a == [s[0]] + a' && b == [s[0]] + b';
        assert a[1..] == a' && b[1..] == b';
      } else if AtLogLevel(low)(s[0]) {
        assert a == a' && b == [s[0]] + b' && b[1..] == b';
        SubsequenceExtend(a, b);
      } else {
        assert a == a' && b == b';
      }
    }
  }

  /** Rendering maps a subsequence of records to a subsequence of lines. */
  lemma {:induction false} RenderSubsequence(a: seq<Event>, b: seq<Event>, stackDepth: int)
    requires IsSubsequence(a, b)
    requires RenderAll(b, stackDepth).Some?
    ensures RenderAll(a, stackDepth).Some?
    ensures IsSubsequence(RenderAll(a, stackDepth).value, RenderAll(b, stackDepth).value)
    decreases |b|
  {
    var rb := RenderAll(b, stackDepth).value;
    if |a| > 0 {
      assert RenderAll(b[1..], stackDepth).value == rb[1..];
      if a[0] == b[0] {
        RenderSubsequence(a[1..], b[1..], stackDepth);
        var ra := RenderAll(a, stackDepth).value;
        assert ra[0] == rb[0] && ra[1..] == RenderAll(a[1..], stackDepth).value;
      } else {
        RenderSubsequence(a, b[1..], stackDepth);
        var ra := RenderAll(a, stackDepth).value;
        if ra[0] == rb[0] {
          SubsequenceDropHead(ra, rb[1..]);
        }
      }
    }
  }

  /** If `a` is a subsequence of `b`, so is `a` without its first element. */
  lemma {:induction false} SubsequenceDropHead<T>(a: seq<T>, b: seq<T>)
    requires |a| > 0 && IsSubsequence(a, b)
    ensures IsSubsequence(a[1..], b)
    decreases |b|, 1
  {
    if a[0] == b[0] {
      SubsequenceExtend(a[1..], b);
    } else {
      SubsequenceDropHead(a, b[1..]);
      SubsequenceExtend(a[1..], b);
    }
  }

  /** A subsequence of the tail of `b` is a subsequence of `b`. */
  lemma {:induction false} SubsequenceExtend<T>(a: seq<T>, b: seq<T>)
    requires |b| > 0 && IsSubsequence(a, b[1..])
    ensures IsSubsequence(a, b)
    decreases |b|, 0
  {
    if |a| > 0 && a[0] == b[0] {
      SubsequenceDropHead(a, b[1..]);
    }
  }
}

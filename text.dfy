/**
 * The string operations of the JDK that the appender relies on:
 * `String.join`, `String.replace` and decimal formatting of a count,
 * together with `Split`, the inverse of joining.
 */
module Text {

  /** `String.join(sep, parts)`. */
  function Join(parts: seq<string>, sep: string): string {
    if |parts| == 0 then ""
    else if |parts| == 1 then parts[0]
    else parts[0] + sep + Join(parts[1..], sep)
  }

  lemma JoinCons(head: string, tail: seq<string>, sep: string)
    ensures Join([head] + tail, sep) == if |tail| == 0 then head else head + sep + Join(tail, sep)
  {
    assert ([head] + tail)[1..] == tail;
  }

  /** Cuts `s` at every occurrence of `c`; the pieces never contain `c`. */
  function Split(s: string, c: char): (r: seq<string>)
    ensures |r| >= 1
    ensures forall i :: 0 <= i < |r| ==> c !in r[i]
  {
    if |s| == 0 then [""]
    else
      var rest := Split(s[1..], c);
      if s[0] == c then [""] + rest
      else [[s[0]] + rest[0]] + rest[1..]
  }

  /** Joining the pieces of a split restores the text. */
  lemma {:induction false} JoinSplit(s: string, c: char)
    ensures Join(Split(s, c), [c]) == s
  {
    if |s| > 0 {
      var rest := Split(s[1..], c);
      JoinSplit(s[1..], c);
      if s[0] == c {
        JoinCons("", rest, [c]);
        assert s == [c] + s[1..];
      } else {
        JoinCons([s[0]] + rest[0], rest[1..], [c]);
        JoinCons(rest[0], rest[1..], [c]);
        assert rest == [rest[0]] + rest[1..];
        assert s == [s[0]] + s[1..];
      }
    }
  }

  lemma {:induction false} SplitPrefix(a: string, t: string, c: char)
    requires c !in a
    ensures Split(a + t, c) == [a + Split(t, c)[0]] + Split(t, c)[1..]
    decreases |a|
  {
    if |a| == 0 {
      var st := Split(t, c);
      assert a + t == t;
      assert a + st[0] == st[0];
      assert st == [st[0]] + st[1..];
    } else {
      var st := Split(t, c);
      SplitPrefix(a[1..], t, c);
      assert (a + t)[1..] == a[1..] + t;
      var rest := Split(a[1..] + t, c);
      assert rest[0] == a[1..] + st[0] && rest[1..] == st[1..];
      assert Split(a + t, c) == [[a[0]] + rest[0]] + rest[1..];
      assert [a[0]] + (a[1..] + st[0]) == a + st[0];
    }
  }

  /** Splitting a join of pieces free of the separator gives the pieces back. */
  lemma {:induction false} SplitJoin(parts: seq<string>, c: char)
    requires |parts| >= 1
    requires forall i :: 0 <= i < |parts| ==> c !in parts[i]
    ensures Split(Join(parts, [c]), c) == parts
  {
    var head, tail := parts[0], parts[1..];
    assert parts == [head] + tail;
    JoinCons(head, tail, [c]);
    if |tail| == 0 {
      SplitPrefix(head, "", c);
      assert head + "" == head;
    } else {
      SplitJoin(tail, c);
      var j := Join(tail, [c]);
      assert Split([c] + j, c) == [""] + Split(j, c) by {
        assert ([c] + j)[1..] == j;
      }
      SplitPrefix(head, [c] + j, c);
      assert head + [c] + j == head + ([c] + j);
      assert head + "" == head;
    }
  }

  /**
   * `String.replace(target, replacement)`: every non-overlapping occurrence of
   * `target`, scanning left to right, is replaced.
   */
  function Replace(s: string, target: string, replacement: string): string
    requires |target| > 0
    decreases |s|
  {
    if |s| < |target| then s
    else if s[..|target|] == target then replacement + Replace(s[|target|..], target, replacement)
    else [s[0]] + Replace(s[1..], target, replacement)
  }

  /** Replacing a text by itself changes nothing. */
  lemma {:induction false} ReplaceSelf(s: string, target: string)
    requires |target| > 0
    ensures Replace(s, target, target) == s
    decreases |s|
  {
    if |s| >= |target| {
      if s[..|target|] == target {
        ReplaceSelf(s[|target|..], target);
        assert s == s[..|target|] + s[|target|..];
      } else {
        ReplaceSelf(s[1..], target);
        assert s == [s[0]] + s[1..];
      }
    }
  }

  /** A prefix that does not contain the first character of `target` is copied unchanged. */
  lemma {:induction false} ReplaceSkip(a: string, t: string, target: string, replacement: string)
    requires |target| > 0 && target[0] !in a
    ensures Replace(a + t, target, replacement) == a + Replace(t, target, replacement)
    decreases |a|
  {
    var s := a + t;
    if |a| == 0 {
      assert s == t;
    } else if |s| < |target| {
      assert Replace(t, target, replacement) == t;
    } else {
      assert s[..|target|] != target by {
        assert s[..|target|][0] == a[0];
      }
      assert Replace(s, target, replacement) == [a[0]] + Replace(s[1..], target, replacement);
      assert s[1..] == a[1..] + t;
      ReplaceSkip(a[1..], t, target, replacement);
      assert [a[0]] + (a[1..] + Replace(t, target, replacement)) == a + Replace(t, target, replacement);
    }
  }

  /**
   * Joining with `sep` and then replacing `sep` by `replacement` is joining with
   * `replacement`, provided no piece contains the first character of `sep`.
   */
  lemma {:induction false} ReplaceJoin(parts: seq<string>, sep: string, replacement: string)
    requires |sep| > 0
    requires forall i :: 0 <= i < |parts| ==> sep[0] !in parts[i]
    ensures Replace(Join(parts, sep), sep, replacement) == Join(parts, replacement)
  {
    if |parts| == 1 {
      ReplaceSkip(parts[0], "", sep, replacement);
      assert parts[0] + "" == parts[0];
    } else if |parts| > 1 {
      var tail := parts[1..];
      ReplaceJoin(tail, sep, replacement);
      var j := Join(tail, sep);
      ReplaceSkip(parts[0], sep + j, sep, replacement);
      assert (sep + j)[..|sep|] == sep;
      assert (sep + j)[|sep|..] == j;
      assert parts[0] + sep + j == parts[0] + (sep + j);
    }
  }

  /** The decimal digits of `n`, as `Integer.toString` writes them. */
  function Decimal(n: nat): (r: string)
    ensures |r| >= 1
    ensures forall i :: 0 <= i < |r| ==> '0' <= r[i] <= '9'
    ensures n > 0 ==> r[0] != '0'
    decreases n
  {
    var last := ('0' as int + n % 10) as char;
    if n < 10 then [last] else Decimal(n / 10) + [last]
  }

  /** The number a string of decimal digits denotes. */
  function DecimalValue(s: string): nat
    requires forall i :: 0 <= i < |s| ==> '0' <= s[i] <= '9'
  {
    if |s| == 0 then 0
    else DecimalValue(s[..|s| - 1]) * 10 + (s[|s| - 1] as int - '0' as int)
  }

  /** The count in a failure message reads back as the count. */
  lemma {:induction false} DecimalRoundTrip(n: nat)
    ensures DecimalValue(Decimal(n)) == n
    decreases n
  {
    var r := Decimal(n);
    if n >= 10 {
      DecimalRoundTrip(n / 10);
      assert r[..|r| - 1] == Decimal(n / 10);
    }
  }
}

/**
 * The string operations of JavaScript that the HTTP client relies on:
 * `String.prototype.split` with a non-empty string separator,
 * `Array.prototype.join`, and the decimal rendering of a number inside a
 * template literal.
 */
module Strings {
  import opened Wrappers

  /** `sep` occurs in `s` starting at position `p`. */
  predicate Occurs(s: string, sep: string, p: nat)
  {
    p + |sep| <= |s| && s[p..p + |sep|] == sep
  }

  /** `sep` occurs somewhere in `s`. */
  predicate Contains(s: string, sep: string)
  {
    exists p: nat | p <= |s| :: Occurs(s, sep, p)
  }

  /** The leftmost position at or after `from` where `sep` occurs, or `None`. */
  function IndexOf(s: string, sep: string, from: nat): (r: Option<nat>)
    requires |sep| > 0
    ensures r.Some? ==> from <= r.value && Occurs(s, sep, r.value)
    ensures r.Some? ==> forall p: nat :: from <= p < r.value ==> !Occurs(s, sep, p)
    ensures r.None? ==> forall p: nat :: from <= p ==> !Occurs(s, sep, p)
    decreases |s| - from
  {
    if from + |sep| > |s| then None
    else if Occurs(s, sep, from) then Some(from)
    else IndexOf(s, sep, from + 1)
  }

  /**
   * `s.split(sep)`: the pieces between the leftmost non-overlapping
   * occurrences of `sep`, scanning from the left. There is always at least
   * one piece, and no piece contains the separator.
   */
  function Split(s: string, sep: string): (r: seq<string>)
    requires |sep| > 0
    ensures |r| >= 1
    ensures forall i :: 0 <= i < |r| ==> !Contains(r[i], sep)
    decreases |s|
  {
    match IndexOf(s, sep, 0)
    case None => [s]
    case Some(k) =>
      PrefixBeforeFirst(s, sep, k);
      [s[..k]] + Split(s[k + |sep|..], sep)
  }

  /** The text before the leftmost occurrence of `sep` does not contain `sep`. */
  lemma PrefixBeforeFirst(s: string, sep: string, k: nat)
    requires |sep| > 0 && k <= |s|
    requires forall p: nat :: p < k ==> !Occurs(s, sep, p)
    ensures !Contains(s[..k], sep)
  {
    forall p: nat
      ensures !Occurs(s[..k], sep, p)
    {
      if p + |sep| <= k {
        assert s[..k][p..p + |sep|] == s[p..p + |sep|];
        assert !Occurs(s, sep, p);
      }
    }
  }

  /**
   * The first piece of a split is a prefix of the string, and the string
   * is cut at all exactly when the separator occurs in it.
   */
  lemma SplitFirstPiece(s: string, sep: string)
    requires |sep| > 0
    ensures Split(s, sep)[0] <= s
    ensures |Split(s, sep)| == 1 <==> !Contains(s, sep)
  {
    match IndexOf(s, sep, 0)
    case None =>
    case Some(k) =>
      assert Split(s, sep)[0] == s[..k];
  }

  /** `xs.join(sep)`: the result starts with the first piece and ends with the last. */
  function Join(xs: seq<string>, sep: string): (r: string)
    ensures |xs| > 0 ==> xs[0] <= r
  {
    if |xs| == 0 then ""
    else if |xs| == 1 then xs[0]
    else xs[0] + sep + Join(xs[1..], sep)
  }

  /** A string without the separator is one piece. */
  lemma SplitWhole(s: string, sep: string)
    requires |sep| > 0
    requires !Contains(s, sep)
    ensures Split(s, sep) == [s]
  {
    assert IndexOf(s, sep, 0) == None;
  }

  /** When the first occurrence of `sep` is right after `a`, `a` is the first piece. */
  lemma SplitAt(a: string, sep: string, b: string)
    requires |sep| > 0
    requires forall p: nat :: p < |a| ==> !Occurs(a + sep + b, sep, p)
    ensures Split(a + sep + b, sep) == [a] + Split(b, sep)
  {
    var s := a + sep + b;
    assert s[|a|..|a| + |sep|] == sep;
    assert Occurs(s, sep, |a|);
    assert IndexOf(s, sep, 0) == Some(|a|);
    assert s[..|a|] == a;
    assert s[|a| + |sep|..] == b;
  }

  /** Splitting loses nothing: joining the pieces with the separator gives back the string. */
  lemma {:induction false} JoinSplit(s: string, sep: string)
    requires |sep| > 0
    ensures Join(Split(s, sep), sep) == s
    decreases |s|
  {
    match IndexOf(s, sep, 0)
    case None =>
    case Some(k) =>
      var pre, rest := s[..k], s[k + |sep|..];
      assert s == pre + s[k..k + |sep|] + rest;
      JoinSplit(rest, sep);
      JoinCons(pre, Split(rest, sep), sep);
  }

  /** Joining a piece in front of at least one other piece puts the separator between them. */
  lemma JoinCons(x: string, ys: seq<string>, sep: string)
    requires |ys| >= 1
    ensures Join([x] + ys, sep) == x + sep + Join(ys, sep)
  {
    assert ([x] + ys)[1..] == ys;
  }

  /**
   * Joining pieces none of which holds the separator's first character and
   * splitting the result again gives back the pieces.
   */
  lemma {:induction false} SplitJoin(xs: seq<string>, sep: string)
    requires |sep| > 0 && |xs| >= 1
    requires forall i :: 0 <= i < |xs| ==> sep[0] !in xs[i]
    ensures Split(Join(xs, sep), sep) == xs
    decreases |xs|
  {
    if |xs| == 1 {
      NoFirstCharNoOccurrence(xs[0], sep);
      SplitWhole(xs[0], sep);
    } else {
      var rest := Join(xs[1..], sep);
      assert Join(xs, sep) == xs[0] + sep + rest;
      SplitAfterPiece(xs[0], sep, rest);
      SplitJoin(xs[1..], sep);
      assert [xs[0]] + xs[1..] == xs;
    }
  }

  /** A piece without the separator's first character, then the separator, is cut right there. */
  lemma SplitAfterPiece(a: string, sep: string, b: string)
    requires |sep| > 0 && sep[0] !in a
    ensures Split(a + sep + b, sep) == [a] + Split(b, sep)
  {
    var s := a + sep + b;
    forall p: nat | p < |a|
      ensures !Occurs(s, sep, p)
    {
      assert s[p] == a[p];
      if p + |sep| <= |s| {
        assert s[p..p + |sep|][0] == s[p];
      }
    }
    SplitAt(a, sep, b);
  }

  /** A string that lacks the separator's first character does not contain the separator. */
  lemma NoFirstCharNoOccurrence(s: string, sep: string)
    requires |sep| > 0 && sep[0] !in s
    ensures !Contains(s, sep)
  {
    forall p: nat
      ensures !Occurs(s, sep, p)
    {
      if p + |sep| <= |s| {
        assert s[p..p + |sep|][0] == s[p];
      }
    }
  }

  /** The ASCII digit for `d`. */
  function Digit(d: nat): (c: char)
    requires d < 10
    ensures '0' <= c <= '9' && c as int - '0' as int == d
  {
    (d + '0' as int) as char
  }

  /** A non-empty run of decimal digits. */
  predicate IsDigits(s: string)
  {
    |s| > 0 && forall i :: 0 <= i < |s| ==> '0' <= s[i] <= '9'
  }

  /** The value a run of decimal digits denotes. */
  function DigitsValue(s: string): nat
    requires forall i :: 0 <= i < |s| ==> '0' <= s[i] <= '9'
  {
    if s == [] then 0
    else 10 * DigitsValue(s[..|s| - 1]) + (s[|s| - 1] as int - '0' as int)
  }

  /**
   * How a template literal renders a non-negative integer: its decimal
   * digits, without leading zeros.
   */
  function DecimalString(n: nat): (r: string)
    ensures IsDigits(r)
    ensures r[0] == '0' ==> n == 0 && r == "0"
    ensures DigitsValue(r) == n
  {
    if n < 10 then [Digit(n)]
    else
      var front := DecimalString(n / 10);
      assert (front + [Digit(n % 10)])[..|front|] == front;
      front + [Digit(n % 10)]
  }
}

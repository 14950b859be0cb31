/**
 * The few pieces of Python 2 string and list behaviour that the chat client
 * and server rely on: `str.split(sep)` with a non-empty separator,
 * `sep.join(parts)`, `str.strip()` and `list.remove(x)`.
 */
module PyStrings {

  datatype Option<T> = None | Some(value: T)

  /** `sep` occurs in `s` starting at index `i`. */
  predicate OccursAt(s: string, sep: string, i: int)
  {
    0 <= i && i + |sep| <= |s| && s[i..i + |sep|] == sep
  }

  /** Python's `sep in s`. */
  predicate Contains(s: string, sep: string)
  {
    exists i :: 0 <= i <= |s| && OccursAt(s, sep, i)
  }

  /** Python's `s.find(sep)`, with `None` for -1. */
  function Find(s: string, sep: string): (r: Option<nat>)
    requires sep != ""
    ensures r.Some? ==> r.value + |sep| <= |s|
    decreases |s|
  {
    if |s| < |sep| then None
    else if s[..|sep|] == sep then Some(0)
    else
      match Find(s[1..], sep)
      case None => None
      case Some(i) => Some(i + 1)
  }

  /** `Find` returns the leftmost occurrence of `sep`, and `None` exactly when there is none. */
  lemma {:induction false} FindSpec(s: string, sep: string)
    requires sep != ""
    ensures Find(s, sep).Some? ==> OccursAt(s, sep, Find(s, sep).value)
    ensures Find(s, sep).Some? ==> forall j :: 0 <= j < Find(s, sep).value ==> !OccursAt(s, sep, j)
    ensures Find(s, sep).None? <==> !Contains(s, sep)
    decreases |s|
  {
    if |s| >= |sep| && s[..|sep|] != sep {
      FindSpec(s[1..], sep);
      assert !OccursAt(s, sep, 0);
      forall j | 0 < j && j + |sep| <= |s| ensures OccursAt(s, sep, j) <==> OccursAt(s[1..], sep, j - 1) {
        assert s[1..][j - 1..j - 1 + |sep|] == s[j..j + |sep|];
      }
      match Find(s[1..], sep)
      case None =>
      case Some(i) =>
        assert 0 <= i + 1 <= |s| && OccursAt(s, sep, i + 1);
    } else if |s| >= |sep| {
      assert OccursAt(s, sep, 0);
    }
  }

  /** Python's `sep.join(parts)`. */
  function Join(parts: seq<string>, sep: string): string
  {
    if |parts| == 0 then ""
    else if |parts| == 1 then parts[0]
    else parts[0] + sep + Join(parts[1..], sep)
  }

  /**
   * Python's `s.split(sep)` for a non-empty `sep`: cut at every occurrence
   * found scanning left to right, each cut resuming after the separator.
   */
  function Split(s: string, sep: string): (r: seq<string>)
    requires sep != ""
    ensures |r| >= 1
    decreases |s|
  {
    match Find(s, sep)
    case None => [s]
    case Some(i) => [s[..i]] + Split(s[i + |sep|..], sep)
  }

  /** The pieces put back together give `s`, and no piece holds the separator. */
  lemma {:induction false} SplitSpec(s: string, sep: string)
    requires sep != ""
    ensures Join(Split(s, sep), sep) == s
    ensures forall k :: 0 <= k < |Split(s, sep)| ==> !Contains(Split(s, sep)[k], sep)
    decreases |s|
  {
    match Find(s, sep)
    case None =>
      FindSpec(s, sep);
    case Some(i) =>
      var head, tail := s[..i], s[i + |sep|..];
      SplitFirst(s, sep);
      SplitSpec(tail, sep);
      var r := Split(s, sep);
      assert r[0] == head && r[1..] == Split(tail, sep);
      forall k | 0 < k < |r| ensures !Contains(r[k], sep) {
        assert r[k] == Split(tail, sep)[k - 1];
      }
  }

  /** At the leftmost occurrence: the first piece, which holds no separator, then the split of the rest. */
  lemma SplitFirst(s: string, sep: string)
    requires sep != "" && Find(s, sep).Some?
    ensures var i := Find(s, sep).value;
            && s == s[..i] + sep + s[i + |sep|..]
            && !Contains(s[..i], sep)
            && Split(s, sep) == [s[..i]] + Split(s[i + |sep|..], sep)
  {
    FindSpec(s, sep);
    var i := Find(s, sep).value;
    PrefixClean(s, sep, i);
    SliceJoin(s, i, i + |sep|);
  }

  /** The prefix before the leftmost occurrence holds no separator. */
  lemma PrefixClean(s: string, sep: string, i: nat)
    requires sep != "" && i <= |s| && forall j :: 0 <= j < i ==> !OccursAt(s, sep, j)
    ensures !Contains(s[..i], sep)
  {
    var head := s[..i];
    forall j | 0 <= j && j + |sep| <= |head| ensures !OccursAt(head, sep, j) {
      assert !OccursAt(s, sep, j);
      assert s[j..j + |sep|] == head[j..j + |sep|];
    }
  }

  /** Cutting a string twice and gluing the pieces gives it back. */
  lemma SliceJoin(s: string, i: nat, j: nat)
    requires i <= j <= |s|
    ensures s == s[..i] + s[i..j] + s[j..]
  {
  }

  /** Python's `str.strip()` with no argument strips these six characters. */
  predicate IsSpace(c: char)
  {
    c == ' ' || c == '\t' || c == '\n' || c == '\r' || c == '\U{000B}' || c == '\U{000C}'
  }

  predicate AllSpace(s: string)
  {
    forall k :: 0 <= k < |s| ==> IsSpace(s[k])
  }

  /** Python's `s.lstrip()`. */
  function StripLeft(s: string): (r: string)
    ensures |r| <= |s|
    decreases |s|
  {
    if s != "" && IsSpace(s[0]) then StripLeft(s[1..]) else s
  }

  /** `lstrip` drops a whitespace prefix and stops at a non-space character. */
  lemma {:induction false} StripLeftSpec(s: string)
    ensures StripLeft(s) == s[|s| - |StripLeft(s)|..]
    ensures AllSpace(s[..|s| - |StripLeft(s)|])
    ensures StripLeft(s) == "" || !IsSpace(StripLeft(s)[0])
    decreases |s|
  {
    if s != "" && IsSpace(s[0]) {
      StripLeftSpec(s[1..]);
      var r := StripLeft(s[1..]);
      assert s[..|s| - |r|] == [s[0]] + s[1..][..|s| - 1 - |r|];
    }
  }

  /** Python's `s.rstrip()`. */
  function StripRight(s: string): (r: string)
    ensures |r| <= |s|
    decreases |s|
  {
    if s != "" && IsSpace(s[|s| - 1]) then StripRight(s[..|s| - 1]) else s
  }

  /** `rstrip` drops a whitespace suffix and stops at a non-space character. */
  lemma {:induction false} StripRightSpec(s: string)
    ensures StripRight(s) == s[..|StripRight(s)|]
    ensures AllSpace(s[|StripRight(s)|..])
    ensures StripRight(s) == "" || !IsSpace(StripRight(s)[|StripRight(s)| - 1])
    decreases |s|
  {
    if s != "" && IsSpace(s[|s| - 1]) {
      StripRightSpec(s[..|s| - 1]);
      var r := StripRight(s[..|s| - 1]);
      assert s[|r|..] == s[..|s| - 1][|r|..] + [s[|s| - 1]];
    }
  }

  /** Python's `s.strip()`: neither end of the result is whitespace. */
  function Strip(s: string): (r: string)
    ensures r == "" || (!IsSpace(r[0]) && !IsSpace(r[|r| - 1]))
  {
    var left := StripLeft(s);
    StripLeftSpec(s);
    StripRightSpec(left);
    StripRight(left)
  }

  /** The result of `strip` is the slice of `s` left once the whitespace at both ends is removed. */
  lemma StripSpec(s: string)
    ensures exists i :: 0 <= i && i + |Strip(s)| <= |s| && Strip(s) == s[i..i + |Strip(s)|]
                        && AllSpace(s[..i]) && AllSpace(s[i + |Strip(s)|..])
  {
    var left := StripLeft(s);
    StripLeftSpec(s);
    StripRightSpec(left);
    var r := Strip(s);
    var i := |s| - |left|;
    assert r == s[i..i + |r|];
    assert s[i + |r|..] == left[|r|..];
  }

  /** Leading whitespace before a non-space character is what `lstrip` removes. */
  lemma {:induction false} StripLeftPadded(pre: string, x: string)
    requires AllSpace(pre)
    requires x == "" || !IsSpace(x[0])
    ensures StripLeft(pre + x) == x
    decreases |pre|
  {
    if pre != "" {
      assert (pre + x)[1..] == pre[1..] + x;
      StripLeftPadded(pre[1..], x);
    }
  }

  /** Trailing whitespace after a non-space character is what `rstrip` removes. */
  lemma {:induction false} StripRightPadded(x: string, post: string)
    requires AllSpace(post)
    requires x == "" || !IsSpace(x[|x| - 1])
    ensures StripRight(x + post) == x
    decreases |post|
  {
    if post != "" {
      assert (x + post)[..|x + post| - 1] == x + post[..|post| - 1];
      StripRightPadded(x, post[..|post| - 1]);
    }
  }

  /** Stripping `pre + t + post` gives back `t` when the padding is all whitespace and `t` is not padded. */
  lemma StripPadded(pre: string, t: string, post: string)
    requires AllSpace(pre) && AllSpace(post)
    requires t == "" || (!IsSpace(t[0]) && !IsSpace(t[|t| - 1]))
    ensures Strip(pre + t + post) == t
  {
    if t == "" {
      assert pre + t + post == (pre + post) + "";
      StripLeftPadded(pre + post, "");
    } else {
      assert pre + t + post == pre + (t + post);
      StripLeftPadded(pre, t + post);
      StripRightPadded(t, post);
    }
  }

  /** Python's `xs.index(x)`: the position of the first occurrence. */
  function IndexOf(xs: seq<string>, x: string): (i: nat)
    requires x in xs
    ensures i < |xs| && xs[i] == x && x !in xs[..i]
  {
    if xs[0] == x then 0
    else
      var i := IndexOf(xs[1..], x);
      assert xs[..i + 1] == [xs[0]] + xs[1..][..i];
      i + 1
  }

  /** Python's `xs.remove(x)`, which the callers only reach once `x in xs`: the first occurrence goes. */
  function RemoveFirst(xs: seq<string>, x: string): (r: seq<string>)
    requires x in xs
    ensures |r| == |xs| - 1
  {
    xs[..IndexOf(xs, x)] + xs[IndexOf(xs, x) + 1..]
  }

  /** No element occurs twice. */
  predicate NoDup(xs: seq<string>)
  {
    forall i, j :: 0 <= i < j < |xs| ==> xs[i] != xs[j]
  }

  /**
   * In a list without duplicates, removing `x` deletes exactly `x` and keeps
   * the list free of duplicates.
   */
  lemma RemoveFirstNoDup(xs: seq<string>, x: string)
    requires x in xs && NoDup(xs)
    ensures NoDup(RemoveFirst(xs, x))
    ensures x !in RemoveFirst(xs, x)
    ensures forall y :: y in RemoveFirst(xs, x) <==> y in xs && y != x
  {
    var i := IndexOf(xs, x);
    var r := RemoveFirst(xs, x);
    forall k | 0 <= k < |r| ensures r[k] == xs[Skip(i, k)] {
      RemoveFirstAt(xs, x, k);
    }
    forall k, l | 0 <= k < l < |r| ensures r[k] != r[l] {
      assert Skip(i, k) < Skip(i, l);
    }
    forall k | 0 <= k < |r| ensures r[k] != x {
      assert Skip(i, k) != i;
    }
    forall y | y in xs && y != x ensures y in r {
      var m :| 0 <= m < |xs| && xs[m] == y;
      var k := if m < i then m else m - 1;
      assert r[k] == xs[Skip(i, k)];
    }
  }

  /** The index in the original list of the `k`-th element left after removing index `i`. */
  function Skip(i: nat, k: nat): (m: nat)
    ensures m != i && (m < i <==> k < i)
  {
    if k < i then k else k + 1
  }

  /** The `k`-th element left by `RemoveFirst` comes from just before or just after the gap. */
  lemma RemoveFirstAt(xs: seq<string>, x: string, k: nat)
    requires x in xs && k < |RemoveFirst(xs, x)|
    ensures RemoveFirst(xs, x)[k] == xs[Skip(IndexOf(xs, x), k)]
  {
    var i := IndexOf(xs, x);
    var r := RemoveFirst(xs, x);
    assert r == xs[..i] + xs[i + 1..];
    if k < i {
      assert r[k] == xs[..i][k];
    } else {
      assert r[k] == xs[i + 1..][k - i];
    }
  }

  /** Removing the first occurrence keeps only members of the original list. */
  lemma RemoveFirstSubset(xs: seq<string>, x: string)
    requires x in xs
    ensures forall y :: y in RemoveFirst(xs, x) ==> y in xs
  {
    var i := IndexOf(xs, x);
    var r := RemoveFirst(xs, x);
    forall y | y in r ensures y in xs {
      var j :| 0 <= j < |r| && r[j] == y;
      if j < i { assert y == xs[j]; } else { assert y == xs[j + 1]; }
    }
  }

  /**
   * The leftmost occurrence of `sep` in `a + sep + b` is at `|a|` when some
   * character `sep[d]` of the separator never appears in `a` nor earlier in
   * the separator itself.
   */
  lemma FindAfterClean(a: string, sep: string, b: string, d: nat)
    requires d < |sep| && sep[d] !in a && sep[d] !in sep[..d]
    ensures Find(a + sep + b, sep) == Some(|a|)
  {
    var s := a + sep + b;
    FindSpec(s, sep);
    assert OccursAt(s, sep, |a|) by { assert s[|a|..|a| + |sep|] == sep; }
    forall j | 0 <= j < |a| ensures !OccursAt(s, sep, j) {
      if j + |sep| <= |s| {
        assert s[j..j + |sep|][d] == s[j + d];
        if j + d < |a| {
          assert s[j + d] == a[j + d];
        } else {
          assert s[j + d] == sep[j + d - |a|] == sep[..d][j + d - |a|];
        }
      }
    }
  }

  /** A string in which the separator character `sep[d]` never appears does not contain the separator. */
  lemma NotContainsClean(s: string, sep: string, d: nat)
    requires d < |sep| && sep[d] !in s
    ensures !Contains(s, sep)
  {
    forall j | 0 <= j && j + |sep| <= |s| ensures !OccursAt(s, sep, j) {
      assert s[j..j + |sep|][d] == s[j + d];
    }
  }

  /**
   * Two-way unpacking `a, b = s.split(sep)` succeeds exactly when the leftmost
   * occurrence of `sep` is the only one left after it, and then yields the two
   * sides of that occurrence.
   */
  lemma {:induction false} SplitPair(s: string, sep: string, a: string, b: string)
    requires sep != ""
    ensures Split(s, sep) == [a, b] <==>
              s == a + sep + b && Find(s, sep) == Some(|a|) && !Contains(b, sep)
  {
    if s == a + sep + b && Find(s, sep) == Some(|a|) && !Contains(b, sep) {
      SplitFirst(s, sep);
      assert s[..|a|] == a;
      assert s[|a| + |sep|..] == b;
      FindSpec(b, sep);
    }
    if Split(s, sep) == [a, b] && Find(s, sep).Some? {
      var i := Find(s, sep).value;
      SplitFirst(s, sep);
      var rest := s[i + |sep|..];
      assert ([s[..i]] + Split(rest, sep))[1..] == Split(rest, sep);
      assert ([s[..i]] + Split(rest, sep))[0] == s[..i] == Split(s, sep)[0] == a;
      assert Split(rest, sep) == [b];
      FindSpec(rest, sep);
      assert Find(rest, sep).None?;
      assert rest == b;
      assert !Contains(b, sep);
    }
  }

  /** `a + sep + b` splits into `[a, b]` when neither side holds the separator character `sep[d]`. */
  lemma SplitClean(a: string, sep: string, b: string, d: nat)
    requires d < |sep| && sep[d] !in a && sep[d] !in sep[..d] && sep[d] !in b
    ensures Split(a + sep + b, sep) == [a, b]
  {
    FindAfterClean(a, sep, b, d);
    NotContainsClean(b, sep, d);
    SplitPair(a + sep + b, sep, a, b);
  }

  /** For a one-character separator, containment is membership. */
  lemma ContainsChar(s: string, c: char)
    ensures Contains(s, [c]) <==> c in s
  {
    if c in s {
      var i :| 0 <= i < |s| && s[i] == c;
      assert OccursAt(s, [c], i);
    }
    if Contains(s, [c]) {
      var i :| 0 <= i <= |s| && OccursAt(s, [c], i);
      assert s[i..i + 1][0] == s[i];
    }
  }

  /** Before the leftmost occurrence of a one-character separator, that character is absent. */
  lemma FindCharBefore(s: string, c: char)
    requires Find(s, [c]).Some?
    ensures c !in s[..Find(s, [c]).value]
  {
    var i := Find(s, [c]).value;
    forall j | 0 <= j < i ensures s[..i][j] != c {
      assert !OccursAt(s, [c], j);
      assert s[j..j + 1] == [s[j]];
    }
  }

  /** A string whose extension lacks the separator lacks it too. */
  lemma NotContainsPrefix(s: string, t: string, sep: string)
    requires !Contains(s + t, sep)
    ensures !Contains(s, sep)
  {
    forall j | OccursAt(s, sep, j) ensures OccursAt(s + t, sep, j) {
      assert (s + t)[j..j + |sep|] == s[j..j + |sep|];
    }
  }
}

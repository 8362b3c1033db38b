/** Splitting and joining strings on a delimiter character, with the laws that make them inverses. */
module Strings {

  /** The position of the first occurrence of `c` in `s`. */
  function IndexOf(s: string, c: char): (i: nat)
    requires c in s
    ensures i < |s| && s[i] == c
    ensures c !in s[..i]
  {
    if s[0] == c then 0 else 1 + IndexOf(s[1..], c)
  }

  /** Rust's `str::split(delimiter)`: every maximal delimiter-free run, so `n` delimiters give `n + 1` parts. */
  function Split(s: string, d: char): (parts: seq<string>)
    ensures |parts| >= 1
    ensures forall i | 0 <= i < |parts| :: d !in parts[i]
    decreases |s|
  {
    if d in s then
      var i := IndexOf(s, d);
      [s[..i]] + Split(s[i + 1..], d)
    else
      [s]
  }

  /** Rust's `[String]::join`: the parts with one delimiter between neighbours. */
  function Join(parts: seq<string>, d: char): string {
    if |parts| == 0 then []
    else if |parts| == 1 then parts[0]
    else parts[0] + [d] + Join(parts[1..], d)
  }

  predicate StartsWith(s: string, prefix: string) {
    |prefix| <= |s| && s[..|prefix|] == prefix
  }

  /** Splitting off a delimiter-free head yields that head followed by the parts of the rest. */
  lemma SplitCons(head: string, d: char, rest: string)
    requires d !in head
    ensures Split(head + [d] + rest, d) == [head] + Split(rest, d)
  {
    var s := head + [d] + rest;
    assert s[|head|] == d;
    var i := IndexOf(s, d);
    assert s[..|head|] == head;
    assert s[..i] == head;
    assert s[i + 1..] == rest;
  }

  /** Splitting off two delimiter-free heads, one after the other. */
  lemma SplitTwoHeads(a: string, b: string, d: char, rest: string)
    requires d !in a && d !in b
    ensures Split(a + [d] + b + [d] + rest, d) == [a, b] + Split(rest, d)
  {
    var after := b + [d] + rest;
    assert a + [d] + b + [d] + rest == a + [d] + after;
    SplitCons(a, d, after);
    SplitCons(b, d, rest);
  }

  /** Joining the parts of a split gives back the original string. */
  lemma {:induction false} JoinSplit(s: string, d: char)
    ensures Join(Split(s, d), d) == s
    decreases |s|
  {
    if d in s {
      var i := IndexOf(s, d);
      var rest := s[i + 1..];
      JoinSplit(rest, d);
      assert Split(s, d) == [s[..i]] + Split(rest, d);
      assert s == s[..i] + [d] + rest;
    }
  }

  /** Splitting the join of delimiter-free parts gives back the parts. */
  lemma {:induction false} SplitJoin(parts: seq<string>, d: char)
    requires |parts| >= 1
    requires forall i | 0 <= i < |parts| :: d !in parts[i]
    ensures Split(Join(parts, d), d) == parts
  {
    if |parts| > 1 {
      SplitJoin(parts[1..], d);
      SplitCons(parts[0], d, Join(parts[1..], d));
      assert [parts[0]] + parts[1..] == parts;
    }
  }

  /** Splitting off a delimiter-free tail yields the parts of the front followed by that tail. */
  lemma {:induction false} SplitSnoc(front: string, d: char, tail: string)
    requires d !in tail
    ensures Split(front + [d] + tail, d) == Split(front, d) + [tail]
    decreases |front|
  {
    if d in front {
      var i := IndexOf(front, d);
      var rest := front[i + 1..];
      assert front == front[..i] + [d] + rest;
      assert front + [d] + tail == front[..i] + [d] + (rest + [d] + tail);
      SplitCons(front[..i], d, rest + [d] + tail);
      SplitCons(front[..i], d, rest);
      SplitSnoc(rest, d, tail);
    } else {
      SplitCons(front, d, tail);
      assert d !in tail;
    }
  }

  /** The position of the last occurrence of `c` in `s`. */
  function LastIndexOf(s: string, c: char): (i: nat)
    requires c in s
    ensures i < |s| && s[i] == c
    ensures c !in s[i + 1..]
  {
    if s[|s| - 1] == c then |s| - 1 else LastIndexOf(s[..|s| - 1], c)
  }

  /** The last part of a split is empty exactly when the string is empty or ends with the delimiter. */
  lemma LastPartEmpty(s: string, d: char)
    ensures var parts := Split(s, d);
      parts[|parts| - 1] == [] <==> s == [] || s[|s| - 1] == d
  {
    if d in s {
      var j := LastIndexOf(s, d);
      assert s == s[..j] + [d] + s[j + 1..];
      SplitSnoc(s[..j], d, s[j + 1..]);
    }
  }

  /** A string with `n` delimiters splits into `n + 1` parts. */
  lemma {:induction false} SplitLength(s: string, d: char)
    ensures |Split(s, d)| == multiset(s)[d] + 1
    decreases |s|
  {
    if d in s {
      var i := IndexOf(s, d);
      SplitLength(s[i + 1..], d);
      assert s == s[..i] + [d] + s[i + 1..];
      assert multiset(s[..i])[d] == 0;
    } else {
      assert multiset(s)[d] == 0;
    }
  }

  /** A join of two or more parts starts with the first part and a delimiter. */
  lemma JoinCons(parts: seq<string>, d: char)
    requires |parts| >= 2
    ensures Join(parts, d) == parts[0] + [d] + Join(parts[1..], d)
  {
  }

  /** The first delimiter after a delimiter-free head is the one right after it. */
  lemma IndexOfAfterHead(head: string, d: char, rest: string)
    requires d !in head
    ensures IndexOf(head + [d] + rest, d) == |head|
  {
    var s := head + [d] + rest;
    assert s[|head|] == d;
    var i := IndexOf(s, d);
    assert s[..|head|] == head;
    assert s[..i] == head[..i] by {
      if i <= |head| {
        assert s[..i] == s[..|head|][..i];
      }
    }
  }

  /** Two delimiter-free heads that each end where the first delimiter of a string stands are equal. */
  lemma SameHead(u: string, v: string, d: char, x: string, y: string)
    requires d !in u && d !in v
    requires u + [d] + x == v + [d] + y
    ensures u == v
  {
    IndexOfAfterHead(u, d, x);
    IndexOfAfterHead(v, d, y);
    assert u == (u + [d] + x)[..|u|];
  }
}

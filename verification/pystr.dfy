/** The two Python string operations the delete handler applies to a path:
    `s.strip(c)` and `s.split(c)` for a one-character argument `c`, with
    `c.join(parts)` as the inverse of `split`. */
module PyStr {

  /** Every character of `s` is `c` (vacuously true of the empty string). */
  predicate AllOf(s: string, c: char) {
    forall i :: 0 <= i < |s| ==> s[i] == c
  }

  /** `s.lstrip(c)`: drops every leading `c`. The result is a suffix of `s`,
      what was dropped is all `c`, and the result does not start with `c`. */
  function LStrip(s: string, c: char): (r: string)
    ensures |r| <= |s| && r == s[|s| - |r|..]
    ensures AllOf(s[..|s| - |r|], c)
    ensures r == [] || r[0] != c
    decreases |s|
  {
    if |s| > 0 && s[0] == c then
      var r := LStrip(s[1..], c);
      assert s[1..][|s| - 1 - |r|..] == s[|s| - |r|..];
      assert s[..|s| - |r|] == [c] + s[1..][..|s| - 1 - |r|];
      r
    else s
  }

  /** `s.rstrip(c)`: drops every trailing `c`. The result is a prefix of `s`,
      what was dropped is all `c`, and the result does not end with `c`. */
  function RStrip(s: string, c: char): (r: string)
    ensures |r| <= |s| && r == s[..|r|]
    ensures AllOf(s[|r|..], c)
    ensures r == [] || r[|r| - 1] != c
    decreases |s|
  {
    if |s| > 0 && s[|s| - 1] == c then
      var r := RStrip(s[..|s| - 1], c);
      assert s[|r|..] == s[..|s| - 1][|r|..] + [c];
      r
    else s
  }

  /** `s.strip(c)`: drops every leading and every trailing `c`. */
  function Strip(s: string, c: char): (r: string)
    ensures r == [] || (r[0] != c && r[|r| - 1] != c)
  {
    RStrip(LStrip(s, c), c)
  }

  /** Where `Strip` cuts: `s` is a run of `c`, then the stripped text, then
      another run of `c`. */
  lemma StripDecomposes(s: string, c: char) returns (lead: string, trail: string)
    ensures AllOf(lead, c) && AllOf(trail, c)
    ensures s == lead + Strip(s, c) + trail
  {
    var l := LStrip(s, c);
    var r := RStrip(l, c);
    lead := s[..|s| - |l|];
    trail := l[|r|..];
    CutTwice(s, |s| - |l|, |r|);
  }

  /** Cutting `s` at `i` and the remainder at `j` loses nothing. */
  lemma CutTwice(s: string, i: nat, j: nat)
    requires i <= |s| && j <= |s| - i
    ensures s == s[..i] + s[i..][..j] + s[i..][j..]
  {
    assert s[i..] == s[i..][..j] + s[i..][j..];
  }

  /** `Strip` is determined by the decomposition: padding a text that does
      not start or end with `c` by runs of `c` and stripping gives the text
      back. Together with `StripDecomposes` this characterises `Strip`. */
  lemma {:induction false} StripOfPadded(lead: string, m: string, trail: string, c: char)
    requires AllOf(lead, c) && AllOf(trail, c)
    requires m == [] || (m[0] != c && m[|m| - 1] != c)
    ensures Strip(lead + m + trail, c) == m
  {
    if m == [] {
      var l := LStrip(lead + m + trail, c);
      assert AllOf(lead + m + trail, c);
      assert AllOf(l, c) by {
        assert l == (lead + m + trail)[|lead + m + trail| - |l|..];
      }
      RStripOfRun(l, c);
    } else {
      LStripOfPadded(lead, m + trail, c);
      assert lead + m + trail == lead + (m + trail);
      RStripOfPadded(m, trail, c);
    }
  }

  lemma {:induction false} LStripOfPadded(lead: string, rest: string, c: char)
    requires AllOf(lead, c)
    requires rest == [] || rest[0] != c
    ensures LStrip(lead + rest, c) == rest
    decreases |lead|
  {
    if lead == [] {
      assert lead + rest == rest;
    } else {
      assert (lead + rest)[1..] == lead[1..] + rest;
      LStripOfPadded(lead[1..], rest, c);
    }
  }

  lemma {:induction false} RStripOfPadded(m: string, trail: string, c: char)
    requires AllOf(trail, c)
    requires m != [] && m[|m| - 1] != c
    ensures RStrip(m + trail, c) == m
    decreases |trail|
  {
    if trail == [] {
      assert m + trail == m;
    } else {
      var t := trail[..|trail| - 1];
      assert (m + trail)[..|m + trail| - 1] == m + t;
      RStripOfPadded(m, t, c);
    }
  }

  lemma {:induction false} RStripOfRun(trail: string, c: char)
    requires AllOf(trail, c)
    ensures RStrip(trail, c) == []
    decreases |trail|
  {
    if trail != [] {
      RStripOfRun(trail[..|trail| - 1], c);
    }
  }

  /** Position of the first `c` in `s`, or `|s|` when there is none. */
  function FirstIndex(s: string, c: char): (i: nat)
    ensures i <= |s|
    ensures c !in s[..i]
    ensures i < |s| ==> s[i] == c
    decreases |s|
  {
    if |s| == 0 then 0
    else if s[0] == c then 0
    else
      var j := FirstIndex(s[1..], c);
      assert s[..1 + j] == [s[0]] + s[1..][..j];
      1 + j
  }

  /** `c.join(parts)`. */
  function Join(parts: seq<string>, c: char): string
  {
    if |parts| == 0 then ""
    else if |parts| == 1 then parts[0]
    else parts[0] + [c] + Join(parts[1..], c)
  }

  /** `s.split(c)`: the pieces between successive occurrences of `c`, empty
      pieces included. There is always at least one piece, no piece contains
      `c`, and joining the pieces with `c` gives `s` back. */
  function Split(s: string, c: char): (parts: seq<string>)
    ensures |parts| >= 1
    ensures forall k :: 0 <= k < |parts| ==> c !in parts[k]
    ensures Join(parts, c) == s
    decreases |s|
  {
    var i := FirstIndex(s, c);
    if i == |s| then
      assert s[..i] == s;
      [s]
    else
      var rest := Split(s[i + 1..], c);
      var parts := [s[..i]] + rest;
      assert parts[1..] == rest;
      assert s == s[..i] + [c] + s[i + 1..];
      parts
  }

  /** `split` inverts `join` when no part contains the separator. */
  lemma {:induction false} SplitJoin(parts: seq<string>, c: char)
    requires |parts| >= 1
    requires forall k :: 0 <= k < |parts| ==> c !in parts[k]
    ensures Split(Join(parts, c), c) == parts
    decreases |parts|
  {
    if |parts| == 1 {
      SplitNoSeparator(parts[0], c);
    } else {
      SplitJoin(parts[1..], c);
      SplitAtFirst(parts[0], Join(parts[1..], c), c);
      assert parts == [parts[0]] + parts[1..];
    }
  }

  /** A string without the separator splits into itself alone. */
  lemma SplitNoSeparator(s: string, c: char)
    requires c !in s
    ensures Split(s, c) == [s]
  {
    assert FirstIndex(s, c) == |s|;
  }

  /** The first separator ends the first piece. */
  lemma SplitAtFirst(x: string, y: string, c: char)
    requires c !in x
    ensures Split(x + [c] + y, c) == [x] + Split(y, c)
  {
    var s := x + [c] + y;
    var i := FirstIndex(s, c);
    assert s[|x|] == c;
    assert s[..|x|] == x;
    assert i == |x|;
    assert s[..i] == x;
    assert s[i + 1..] == y;
  }

  /** `s.split(c)` has two or more pieces exactly when `c` occurs in `s`. */
  lemma SplitHasSeveral(s: string, c: char)
    ensures |Split(s, c)| >= 2 <==> c in s
  {
    if c in s {
      assert FirstIndex(s, c) < |s|;
    } else {
      SplitNoSeparator(s, c);
    }
  }

  /** The first piece of `k r`, where `r` is empty or starts with the
      separator, is `k`. */
  lemma SplitFirst(k: string, r: string, c: char)
    requires c !in k
    requires r == [] || r[0] == c
    ensures Split(k + r, c)[0] == k
  {
    if r == [] {
      assert k + r == k;
      SplitNoSeparator(k, c);
    } else {
      assert k + r == k + [c] + r[1..];
      SplitAtFirst(k, r[1..], c);
    }
  }

  /** The second piece of `a c k r`, where `r` is empty or starts a new
      piece, is `k`. */
  lemma SplitSecond(a: string, k: string, r: string, c: char)
    requires c !in a && c !in k
    requires r == [] || r[0] == c
    ensures |Split(a + [c] + k + r, c)| >= 2
    ensures Split(a + [c] + k + r, c)[1] == k
  {
    var s := a + [c] + k + r;
    assert s == a + [c] + (k + r);
    SplitAtFirst(a, k + r, c);
    var tail := Split(k + r, c);
    assert Split(s, c) == [a] + tail;
    SplitFirst(k, r, c);
    assert ([a] + tail)[1] == tail[0];
  }

  /** Stripping `lead m r` where `m` neither starts nor ends with `c`,
      `lead` is a run of `c` and `r` is empty or starts with `c`, keeps `m`
      and whatever of `r` is left after removing its trailing `c`s. */
  lemma StripAround(lead: string, m: string, r: string, c: char)
    requires AllOf(lead, c)
    requires m != [] && m[0] != c && m[|m| - 1] != c
    ensures Strip(lead + m + r, c) == m + RStrip(r, c)
  {
    var rs := RStrip(r, c);
    var trail := r[|rs|..];
    assert r == rs + trail;
    var inner := m + rs;
    assert inner[0] == m[0];
    assert inner[|inner| - 1] != c by {
      if rs == [] {
        assert inner == m;
      } else {
        assert inner[|inner| - 1] == rs[|rs| - 1];
      }
    }
    assert lead + m + r == lead + inner + trail;
    StripOfPadded(lead, inner, trail, c);
  }
}

/** The string primitives the log parser is built from: Python's `str.strip()` without
    arguments, and splitting on a literal separator (`str.split(sep)`, and `re.split`
    with a pattern that has no special characters), with joining as its inverse. */
module Text {

  /** Python's `str.isspace()`: exactly the characters `str.strip()` removes. */
  predicate IsSpace(c: char)
  {
    || c == ' '
    || '\t' <= c <= '\r'
    || '\U{1c}' <= c <= '\U{1f}'
    || c == '\U{85}' || c == '\U{a0}' || c == '\U{1680}'
    || '\U{2000}' <= c <= '\U{200a}'
    || c == '\U{2028}' || c == '\U{2029}' || c == '\U{202f}' || c == '\U{205f}' || c == '\U{3000}'
  }

  predicate AllSpace(s: string)
  {
    forall i :: 0 <= i < |s| ==> IsSpace(s[i])
  }

  /** How many whitespace characters `s` starts with. */
  function LeadingSpace(s: string): (n: nat)
    ensures n <= |s| && AllSpace(s[..n])
    ensures n == |s| || !IsSpace(s[n])
  {
    if |s| > 0 && IsSpace(s[0]) then
      var m := LeadingSpace(s[1..]);
      SpaceBefore(s, m + 1);
      1 + m
    else 0
  }

  /** A space followed by spaces is all space. */
  lemma SpaceBefore(s: string, n: nat)
    requires 0 < n <= |s| && IsSpace(s[0]) && AllSpace(s[1..][..n - 1])
    ensures AllSpace(s[..n])
  {
    forall i | 0 < i < n ensures IsSpace(s[i]) {
      assert s[i] == s[1..][..n - 1][i - 1];
    }
  }

  /** How many whitespace characters `s` ends with. */
  function TrailingSpace(s: string): (n: nat)
    ensures n <= |s| && AllSpace(s[|s| - n..])
    ensures n == |s| || !IsSpace(s[|s| - n - 1])
  {
    if |s| > 0 && IsSpace(s[|s| - 1]) then
      var m := TrailingSpace(s[..|s| - 1]);
      SpaceAfter(s, |s| - 1 - m);
      1 + m
    else 0
  }

  /** Spaces followed by a space are all space. */
  lemma SpaceAfter(s: string, n: nat)
    requires n < |s| && IsSpace(s[|s| - 1]) && AllSpace(s[..|s| - 1][n..])
    ensures AllSpace(s[n..])
  {
    forall i | n <= i < |s| - 1 ensures IsSpace(s[i]) {
      assert s[i] == s[..|s| - 1][n..][i - n];
    }
  }

  /** Drops the leading whitespace: the result is the longest suffix that starts
      with a non-space character (or is empty), and what was dropped is all space. */
  function TrimStart(s: string): (r: string)
    ensures |r| <= |s| && r == s[|s| - |r|..]
    ensures AllSpace(s[..|s| - |r|])
    ensures r == [] || !IsSpace(r[0])
  {
    s[LeadingSpace(s)..]
  }

  /** Drops the trailing whitespace. */
  function TrimEnd(s: string): (r: string)
    ensures |r| <= |s| && r == s[..|r|]
    ensures AllSpace(s[|r|..])
    ensures r == [] || !IsSpace(r[|r| - 1])
  {
    s[..|s| - TrailingSpace(s)]
  }

  /** `s.strip()`: what is left once the leading and then the trailing whitespace are
      dropped; it neither starts nor ends with whitespace. */
  function Strip(s: string): (r: string)
    ensures r == [] || (!IsSpace(r[0]) && !IsSpace(r[|r| - 1]))
  {
    var t := TrimStart(s);
    var r := TrimEnd(t);
    assert r == [] || r[0] == t[0];
    r
  }

  /** `s.strip()` is a slice of `s` with only whitespace around it. */
  lemma StripSlice(s: string)
    ensures var r := Strip(s);
      exists a :: 0 <= a <= |s| - |r| && r == s[a..a + |r|] && AllSpace(s[..a]) && AllSpace(s[a + |r|..])
  {
    TrimmedSlice(s, TrimStart(s), Strip(s));
  }

  /** A prefix `r` of a suffix `t` of `s`, with only whitespace cut off at either end, is
      a slice of `s` with only whitespace around it. */
  lemma TrimmedSlice(s: string, t: string, r: string)
    requires |t| <= |s| && t == s[|s| - |t|..] && AllSpace(s[..|s| - |t|])
    requires |r| <= |t| && r == t[..|r|] && AllSpace(t[|r|..])
    ensures exists a :: 0 <= a <= |s| - |r| && r == s[a..a + |r|] && AllSpace(s[..a]) && AllSpace(s[a + |r|..])
  {
    var a := |s| - |t|;
    assert s[a + |r|..] == t[|r|..];
    assert r == s[a..a + |r|];
  }

  /** The whitespace `Strip` removes is exactly the whitespace around the text. */
  lemma {:induction false} StripSurrounded(a: string, b: string, c: string)
    requires AllSpace(a) && AllSpace(c)
    requires b == [] || (!IsSpace(b[0]) && !IsSpace(b[|b| - 1]))
    ensures Strip(a + b + c) == b
  {
    if b == [] {
      assert a + b + c == a + c + [];
      TrimStartSkips(a + c, []);
    } else {
      assert a + b + c == a + (b + c);
      TrimStartSkips(a, b + c);
      TrimEndSkips(b, c);
    }
  }

  lemma TrimStartSkips(a: string, t: string)
    requires AllSpace(a)
    requires t == [] || !IsSpace(t[0])
    ensures TrimStart(a + t) == t
  {
    LeadingSpaceSkips(a, t);
    assert (a + t)[|a|..] == t;
  }

  lemma {:induction false} LeadingSpaceSkips(a: string, t: string)
    requires AllSpace(a)
    requires t == [] || !IsSpace(t[0])
    ensures LeadingSpace(a + t) == |a|
  {
    if a != [] {
      assert (a + t)[1..] == a[1..] + t;
      LeadingSpaceSkips(a[1..], t);
    } else {
      assert a + t == t;
    }
  }

  lemma TrimEndSkips(t: string, c: string)
    requires AllSpace(c)
    requires t == [] || !IsSpace(t[|t| - 1])
    ensures TrimEnd(t + c) == t
  {
    TrailingSpaceSkips(t, c);
    assert (t + c)[..|t|] == t;
  }

  lemma {:induction false} TrailingSpaceSkips(t: string, c: string)
    requires AllSpace(c)
    requires t == [] || !IsSpace(t[|t| - 1])
    ensures TrailingSpace(t + c) == |c|
  {
    if c != [] {
      assert (t + c)[..|t + c| - 1] == t + c[..|c| - 1];
      TrailingSpaceSkips(t, c[..|c| - 1]);
    } else {
      assert t + c == t;
    }
  }

  predicate StartsWith(s: string, prefix: string)
  {
    |prefix| <= |s| && s[..|prefix|] == prefix
  }

  /** `parts[0] + sep + parts[1] + sep + ...`: Python's `sep.join(parts)`. */
  function Join(parts: seq<string>, sep: string): string
    requires |parts| >= 1
  {
    if |parts| == 1 then parts[0] else parts[0] + sep + Join(parts[1..], sep)
  }

  /** `s.split(sep)`: cuts `s` at each occurrence of `sep`, scanning from the left and
      resuming after each occurrence. Joining the pieces with `sep` gives `s` back. */
  function Split(s: string, sep: string): (parts: seq<string>)
    requires sep != []
    ensures |parts| >= 1 && Join(parts, sep) == s
    decreases |s|
  {
    if StartsWith(s, sep) then
      var rest := Split(s[|sep|..], sep);
      assert s == sep + s[|sep|..];
      assert ([""] + rest)[1..] == rest;
      [""] + rest
    else if s == [] then
      [""]
    else
      var rest := Split(s[1..], sep);
      JoinConsHead(s[0], rest, sep);
      assert s == [s[0]] + s[1..];
      [[s[0]] + rest[0]] + rest[1..]
  }

  /** Putting a character in front of the first piece puts it in front of the join. */
  lemma JoinConsHead(c: char, parts: seq<string>, sep: string)
    requires |parts| >= 1
    ensures Join([[c] + parts[0]] + parts[1..], sep) == [c] + Join(parts, sep)
  {
    var cons := [[c] + parts[0]] + parts[1..];
    if |parts| > 1 {
      assert cons[1..] == parts[1..];
    }
  }

  /** The number of positions of `s` at which `sep` occurs. */
  function Count(s: string, sep: string): nat
    decreases |s|
  {
    if s == [] then 0 else (if StartsWith(s, sep) then 1 else 0) + Count(s[1..], sep)
  }

  /** No proper suffix of `sep` is also a prefix of it, so two occurrences of `sep`
      can never overlap. */
  predicate NoSelfOverlap(sep: string)
  {
    forall q :: 0 < q < |sep| ==> sep[q..] != sep[..|sep| - q]
  }

  /** When occurrences cannot overlap, the left-to-right split finds every one of them:
      the number of pieces is one more than the number of occurrences. */
  lemma {:induction false} SplitCount(s: string, sep: string)
    requires sep != [] && NoSelfOverlap(sep)
    ensures |Split(s, sep)| == Count(s, sep) + 1
    decreases |s|
  {
    if StartsWith(s, sep) {
      SplitCount(s[|sep|..], sep);
      CountOccurrence(s, sep);
    } else if s != [] {
      SplitCount(s[1..], sep);
    }
  }

  /** An occurrence at the start counts once, and nothing inside it counts. */
  lemma CountOccurrence(s: string, sep: string)
    requires sep != [] && NoSelfOverlap(sep)
    requires StartsWith(s, sep)
    ensures Count(s, sep) == 1 + Count(s[|sep|..], sep)
  {
    forall q | 0 <= q < |sep| - 1
      ensures !StartsWith(s[1..][q..], sep)
    {
      NoOverlapAfter(s, sep, q + 1);
      assert s[1..][q..] == s[q + 1..];
    }
    CountSkip(s[1..], sep, |sep| - 1);
    assert s[1..][|sep| - 1..] == s[|sep|..];
  }

  /** An occurrence of `sep` at the start of `s` leaves no room for another one that
      starts inside it. */
  lemma NoOverlapAfter(s: string, sep: string, q: nat)
    requires StartsWith(s, sep) && NoSelfOverlap(sep)
    requires 0 < q < |sep|
    ensures !StartsWith(s[q..], sep)
  {
    assert sep[q..] == s[q..|sep|];
    assert sep[q..] != sep[..|sep| - q];
    assert s[q..][..|sep| - q] == s[q..|sep|];
  }

  /** Positions where `sep` does not occur add nothing to the count. */
  lemma {:induction false} CountSkip(s: string, sep: string, k: nat)
    requires k <= |s|
    requires forall q :: 0 <= q < k ==> !StartsWith(s[q..], sep)
    ensures Count(s, sep) == Count(s[k..], sep)
  {
    if k > 0 {
      assert s[0..] == s;
      forall q | 0 <= q < k - 1 ensures !StartsWith(s[1..][q..], sep) {
        assert s[1..][q..] == s[q + 1..];
      }
      CountSkip(s[1..], sep, k - 1);
      assert s[1..][k - 1..] == s[k..];
    }
  }

  /** `s.split("\n")`. */
  function Lines(s: string): (lines: seq<string>)
    ensures |lines| >= 1 && Join(lines, "\n") == s
    ensures |lines| == Count(s, "\n") + 1
  {
    SplitCount(s, "\n");
    Split(s, "\n")
  }

  /** Splitting the joined pieces on a one-character separator they do not contain
      gives the pieces back. */
  lemma {:induction false} SplitJoin(parts: seq<string>, c: char)
    requires |parts| >= 1
    requires forall k :: 0 <= k < |parts| ==> c !in parts[k]
    ensures Split(Join(parts, [c]), [c]) == parts
    decreases |parts|, |parts[0]|
  {
    var s := Join(parts, [c]);
    if parts[0] == [] {
      if |parts| == 1 {
        assert s == [];
      } else {
        assert s == [c] + Join(parts[1..], [c]);
        assert s[1..] == Join(parts[1..], [c]);
        SplitJoin(parts[1..], c);
        assert parts == [""] + parts[1..];
      }
    } else {
      var p0 := parts[0];
      var tail := [p0[1..]] + parts[1..];
      assert tail[1..] == parts[1..];
      assert s == [p0[0]] + Join(tail, [c]) by {
        if |parts| > 1 {
          assert p0 == [p0[0]] + p0[1..];
        }
      }
      assert s[1..] == Join(tail, [c]);
      assert !StartsWith(s, [c]) by { assert s[0] == p0[0]; }
      SplitJoin(tail, c);
      assert [p0[0]] + tail[0] == p0;
      assert parts == [[s[0]] + tail[0]] + tail[1..];
    }
  }

  /** Text with no occurrence of `sep` is one piece. */
  lemma SplitWithout(s: string, sep: string)
    requires sep != [] && NoSelfOverlap(sep) && Count(s, sep) == 0
    ensures Split(s, sep) == [s]
  {
    SplitCount(s, sep);
  }

  /** Text with no occurrence of `sep`, followed by `sep`, is the first piece: nothing in
      it, and (as occurrences cannot overlap) nothing across its end, is a separator. */
  lemma {:induction false} SplitAfter(pre: string, sep: string, rest: string)
    requires sep != [] && NoSelfOverlap(sep) && Count(pre, sep) == 0
    ensures Split(pre + sep + rest, sep) == [pre] + Split(rest, sep)
    decreases |pre|
  {
    var s := pre + sep + rest;
    if pre == [] {
      assert s == sep + rest;
      assert s[..|sep|] == sep && s[|sep|..] == rest;
    } else {
      NoEarlyMatch(pre, sep, rest);
      assert s != [] && s[0] == pre[0];
      assert s[1..] == pre[1..] + sep + rest;
      assert Count(pre[1..], sep) == 0;
      SplitAfter(pre[1..], sep, rest);
      var tail := Split(s[1..], sep);
      assert tail == [pre[1..]] + Split(rest, sep);
      assert Split(s, sep) == [[s[0]] + tail[0]] + tail[1..];
      assert [pre[0]] + pre[1..] == pre;
    }
  }

  /** Splitting pieces joined by a separator that none of them holds, and that cannot
      overlap itself, gives the pieces back. */
  lemma {:induction false} SplitJoinDelimited(parts: seq<string>, sep: string)
    requires |parts| >= 1 && sep != [] && NoSelfOverlap(sep)
    requires forall k :: 0 <= k < |parts| ==> Count(parts[k], sep) == 0
    ensures Split(Join(parts, sep), sep) == parts
    decreases |parts|
  {
    if |parts| == 1 {
      SplitWithout(parts[0], sep);
    } else {
      SplitJoinDelimited(parts[1..], sep);
      SplitAfter(parts[0], sep, Join(parts[1..], sep));
      assert parts == [parts[0]] + parts[1..];
    }
  }

  /** Newlines around a text add no occurrence of a separator without newlines. */
  lemma CountBetweenNewlines(body: string, sep: string)
    requires sep != [] && '\n' !in sep
    ensures Count("\n" + body + "\n", sep) == Count(body, sep)
  {
    CountAcrossNewline(body, [], sep);
    CountAcrossNewline([], body + "\n", sep);
    assert "\n" + body + "\n" == [] + "\n" + (body + "\n" + []);
    assert body + "\n" == body + "\n" + [];
  }

  /** A separator whose first character a text lacks never occurs in it. */
  lemma CountWithoutFirst(s: string, sep: string)
    requires sep != [] && sep[0] !in s
    ensures Count(s, sep) == 0
  {
    CountAfterPrefix(s, [], sep);
    assert s + [] == s;
  }

  /** A separator that cannot overlap itself, and does not occur in a non-empty `pre`,
      does not start `pre + sep + rest`. */
  lemma NoEarlyMatch(pre: string, sep: string, rest: string)
    requires pre != [] && sep != [] && NoSelfOverlap(sep) && Count(pre, sep) == 0
    ensures !StartsWith(pre + sep + rest, sep)
  {
    var s := pre + sep + rest;
    if |sep| <= |pre| {
      assert s[..|sep|] == pre[..|sep|];
      assert !StartsWith(pre, sep);
    } else {
      var m := |pre|;
      assert s[..|sep|][m..] == sep[..|sep| - m];
      assert sep[m..] != sep[..|sep| - m];
    }
  }

  /** A newline between two texts keeps any separator without newlines from straddling
      them. */
  lemma {:induction false} CountAcrossNewline(x: string, y: string, sep: string)
    requires sep != [] && '\n' !in sep
    ensures Count(x + "\n" + y, sep) == Count(x, sep) + Count(y, sep)
    decreases |x|
  {
    var s := x + "\n" + y;
    if x == [] {
      assert s == "\n" + y && s[1..] == y;
      assert !StartsWith(s, sep) by { assert s[0] == '\n'; }
    } else {
      assert StartsWith(s, sep) <==> StartsWith(x, sep) by {
        if |sep| <= |x| {
          assert s[..|sep|] == x[..|sep|];
        } else {
          assert s[|x|] == '\n';
        }
      }
      assert s[1..] == x[1..] + "\n" + y;
      CountAcrossNewline(x[1..], y, sep);
    }
  }

  /** A prefix without the separator's first character holds no occurrence. */
  lemma {:induction false} CountAfterPrefix(x: string, y: string, sep: string)
    requires sep != [] && sep[0] !in x
    ensures Count(x + y, sep) == Count(y, sep)
    decreases |x|
  {
    if x != [] {
      assert (x + y)[1..] == x[1..] + y;
      assert !StartsWith(x + y, sep) by { assert (x + y)[0] == x[0]; }
      CountAfterPrefix(x[1..], y, sep);
    } else {
      assert x + y == y;
    }
  }

  /** Lines without occurrences of a separator that has no newline, joined with newlines,
      hold no occurrence. */
  lemma {:induction false} CountJoinedLines(lines: seq<string>, sep: string)
    requires |lines| >= 1 && sep != [] && '\n' !in sep
    requires forall k :: 0 <= k < |lines| ==> Count(lines[k], sep) == 0
    ensures Count(Join(lines, "\n"), sep) == 0
    decreases |lines|
  {
    if |lines| > 1 {
      CountJoinedLines(lines[1..], sep);
      CountAcrossNewline(lines[0], Join(lines[1..], "\n"), sep);
    }
  }

  /** The joined text starts with the first piece and ends with the last one. */
  lemma {:induction false} JoinEnds(parts: seq<string>, sep: string)
    requires |parts| >= 1
    ensures parts[0] == Join(parts, sep)[..|parts[0]|]
    ensures var last := parts[|parts| - 1]; |last| <= |Join(parts, sep)| && last == Join(parts, sep)[|Join(parts, sep)| - |last|..]
    decreases |parts|
  {
    if |parts| > 1 {
      JoinEnds(parts[1..], sep);
    }
  }
}

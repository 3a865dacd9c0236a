/** The JavaScript string built-ins the app relies on, written out over
    `seq<char>`: `trim`, `split` with a string separator, `Array.join`, and
    `includes` with a string argument. */
module JsString {

  /** WhiteSpace and LineTerminator code points of ECMAScript, the set that
      `String.prototype.trim` strips from both ends. */
  predicate IsWhitespace(c: char) {
    || c == '\t' || c == '\n' || c == '\U{000B}' || c == '\U{000C}' || c == '\r'
    || c == ' ' || c == '\U{00A0}' || c == '\U{1680}'
    || ('\U{2000}' <= c <= '\U{200A}')
    || c == '\U{2028}' || c == '\U{2029}' || c == '\U{202F}' || c == '\U{205F}'
    || c == '\U{3000}' || c == '\U{FEFF}'
  }

  /** Neither end of `s` is whitespace. */
  predicate IsTrimmed(s: string) {
    s == [] || (!IsWhitespace(s[0]) && !IsWhitespace(s[|s| - 1]))
  }

  /** `s` with its leading whitespace removed. */
  function TrimStart(s: string): (r: string)
    ensures |r| <= |s| && r == s[|s| - |r|..]
    ensures r == [] || !IsWhitespace(r[0])
    ensures forall i :: 0 <= i < |s| - |r| ==> IsWhitespace(s[i])
    decreases |s|
  {
    if s != [] && IsWhitespace(s[0]) then
      var r := TrimStart(s[1..]);
      assert s[1..][|s| - 1 - |r|..] == s[|s| - |r|..];
      r
    else s
  }

  /** `s` with its trailing whitespace removed. */
  function TrimEnd(s: string): (r: string)
    ensures |r| <= |s| && r == s[..|r|]
    ensures r == [] || !IsWhitespace(r[|r| - 1])
    ensures forall i :: |r| <= i < |s| ==> IsWhitespace(s[i])
    decreases |s|
  {
    if s != [] && IsWhitespace(s[|s| - 1]) then TrimEnd(s[..|s| - 1]) else s
  }

  /** `s.trim()`: the slice of `s` left once the whitespace before and after
      it is cut off. The result has no whitespace at either end, and it is
      empty exactly when `s` is whitespace only. */
  function Trim(s: string): (r: string)
    ensures IsTrimmed(r)
    ensures |r| <= |s|
    ensures r == [] <==> forall i :: 0 <= i < |s| ==> IsWhitespace(s[i])
    ensures exists i :: TrimmedAt(s, r, i)
  {
    var t := TrimStart(s);
    assert t != [] ==> s[|s| - |t|] == t[0];
    TrimmedSlice(s, t, TrimEnd(t));
    TrimEnd(t)
  }

  /** Cutting whitespace off the front of `s`, giving `t`, and then off
      the back of `t`, giving `r`, leaves `r` as a slice of `s` with only
      whitespace around it. */
  lemma TrimmedSlice(s: string, t: string, r: string)
    requires |t| <= |s| && t == s[|s| - |t|..]
    requires forall i :: 0 <= i < |s| - |t| ==> IsWhitespace(s[i])
    requires |r| <= |t| && r == t[..|r|]
    requires forall i :: |r| <= i < |t| ==> IsWhitespace(t[i])
    ensures TrimmedAt(s, r, |s| - |t|)
  {
    var i := |s| - |t|;
    assert r == s[i..i + |r|];
    assert AllWhitespace(s[..i]) by {
      forall k | 0 <= k < i
        ensures IsWhitespace(s[..i][k])
      {
        assert s[..i][k] == s[k];
      }
    }
    var after := s[i + |r|..];
    assert AllWhitespace(after) by {
      forall k | 0 <= k < |after|
        ensures IsWhitespace(after[k])
      {
        assert after[k] == t[|r| + k];
      }
    }
  }

  /** Every character of `w` is whitespace. */
  predicate AllWhitespace(w: string) {
    forall k :: 0 <= k < |w| ==> IsWhitespace(w[k])
  }

  /** `r` is the slice of `s` at position `i`, with only whitespace before
      and after it. */
  predicate TrimmedAt(s: string, r: string, i: int) {
    && 0 <= i <= |s| - |r| && r == s[i..i + |r|]
    && AllWhitespace(s[..i]) && AllWhitespace(s[i + |r|..])
  }

  /** Trimming leaves a string that is already trimmed as it is, so
      trimming twice is trimming once. */
  lemma TrimFixesTrimmed(s: string)
    ensures Trim(s) == s <==> IsTrimmed(s)
    ensures Trim(Trim(s)) == Trim(s)
  {
    if IsTrimmed(s) && s != [] {
      assert TrimStart(s) == s;
      assert TrimEnd(s) == s;
    }
    var t := Trim(s);
    if t != [] {
      assert TrimStart(t) == t;
      assert TrimEnd(t) == t;
    }
  }

  /** `parts.join(sep)`: the parts with `sep` between neighbours. */
  function Join(parts: seq<string>, sep: string): string
    decreases |parts|
  {
    if |parts| == 0 then ""
    else if |parts| == 1 then parts[0]
    else parts[0] + sep + Join(parts[1..], sep)
  }

  /** Prepending a character to the first part prepends it to the joined string. */
  lemma JoinConsHead(c: char, parts: seq<string>, sep: string)
    requires |parts| >= 1
    ensures Join([[c] + parts[0]] + parts[1..], sep) == [c] + Join(parts, sep)
  {
    var p := [[c] + parts[0]] + parts[1..];
    if |parts| > 1 {
      assert p[1..] == parts[1..];
    }
  }

  /** Joining after appending one part adds the separator and that part. */
  lemma {:induction false} JoinAppend(parts: seq<string>, x: string, sep: string)
    requires |parts| >= 1
    ensures Join(parts + [x], sep) == Join(parts, sep) + sep + x
    decreases |parts|
  {
    if |parts| == 1 {
      assert (parts + [x])[1..] == [x];
    } else {
      assert (parts + [x])[1..] == parts[1..] + [x];
      JoinAppend(parts[1..], x, sep);
    }
  }

  /** The first part is a prefix of the joined string. */
  lemma JoinStartsWithFirst(parts: seq<string>, sep: string)
    requires |parts| >= 1
    ensures parts[0] <= Join(parts, sep)
  {
  }

  /** `s.includes(t)`: `t` occurs somewhere in `s`. */
  predicate Contains(s: string, t: string)
    decreases |s|
  {
    t <= s || (s != [] && Contains(s[1..], t))
  }

  /** `includes` agrees with its direct reading: `t` is found at some
      position of `s`. */
  lemma {:induction false} ContainsAt(s: string, t: string)
    ensures Contains(s, t) <==> exists i :: OccursAt(s, t, i)
    decreases |s|
  {
    if t <= s {
      assert OccursAt(s, t, 0);
    } else if s == [] {
    } else {
      ContainsAt(s[1..], t);
      forall i | 0 <= i
        ensures OccursAt(s[1..], t, i) <==> OccursAt(s, t, i + 1)
      {
        OccursAtShift(s, t, i);
      }
      assert !OccursAt(s, t, 0);
      if exists i :: OccursAt(s, t, i) {
        var i :| OccursAt(s, t, i);
        assert OccursAt(s[1..], t, i - 1);
      }
    }
  }

  /** An occurrence in `s[1..]` is an occurrence in `s` one position later. */
  lemma OccursAtShift(s: string, t: string, i: nat)
    requires s != []
    ensures OccursAt(s[1..], t, i) <==> OccursAt(s, t, i + 1)
  {
    if i + |t| <= |s| - 1 {
      assert s[1..][i..i + |t|] == s[i + 1..i + 1 + |t|];
    }
  }

  /** `t` occurs in `s` starting at position `i`. */
  predicate OccursAt(s: string, t: string, i: int) {
    0 <= i <= |s| - |t| && s[i..i + |t|] == t
  }

  /** A string that lacks the first character of `t` cannot contain `t`. */
  lemma {:induction false} LacksFirstCharNotContains(s: string, t: string)
    requires t != [] && t[0] !in s
    ensures !Contains(s, t)
    decreases |s|
  {
    if s != [] {
      assert s[0] != t[0];
      LacksFirstCharNotContains(s[1..], t);
    }
  }

  /** A prefix without the first character of `t` neither hides nor adds an
      occurrence of `t`. */
  lemma {:induction false} ContainsAfterPrefix(x: string, y: string, t: string)
    requires t != [] && t[0] !in x
    ensures Contains(x + y, t) <==> Contains(y, t)
    decreases |x|
  {
    if x != [] {
      assert (x + y)[1..] == x[1..] + y;
      ContainsAfterPrefix(x[1..], y, t);
    } else {
      assert x + y == y;
    }
  }

  /** `s.split(sep)` for a non-empty `sep`: cuts `s` at every occurrence of
      `sep`, scanning left to right without overlaps. It always yields at
      least one part, and joining the parts with `sep` gives `s` back. */
  function Split(s: string, sep: string): (parts: seq<string>)
    requires sep != []
    ensures |parts| >= 1
    ensures Join(parts, sep) == s
    decreases |s|
  {
    if sep <= s then
      var rest := Split(s[|sep|..], sep);
      assert s == sep + s[|sep|..];
      [""] + rest
    else if s == [] then
      [""]
    else
      var rest := Split(s[1..], sep);
      JoinConsHead(s[0], rest, sep);
      assert s == [s[0]] + s[1..];
      [[s[0]] + rest[0]] + rest[1..]
  }

  /** The number of non-overlapping occurrences of `sep` in `s`, counted
      from the left as `Split` finds them. */
  function Occurrences(s: string, sep: string): nat
    requires sep != []
    decreases |s|
  {
    if sep <= s then 1 + Occurrences(s[|sep|..], sep)
    else if s == [] then 0
    else Occurrences(s[1..], sep)
  }

  /** `k` occurrences of the separator give `k + 1` parts. */
  lemma {:induction false} SplitCount(s: string, sep: string)
    requires sep != []
    ensures |Split(s, sep)| == Occurrences(s, sep) + 1
    decreases |s|
  {
    if sep <= s {
      SplitCount(s[|sep|..], sep);
    } else if s != [] {
      SplitCount(s[1..], sep);
    }
  }

  /** No occurrence is counted exactly when `s` does not contain `sep`. */
  lemma {:induction false} OccurrencesZero(s: string, sep: string)
    requires sep != []
    ensures Occurrences(s, sep) == 0 <==> !Contains(s, sep)
    decreases |s|
  {
    if !(sep <= s) && s != [] {
      OccurrencesZero(s[1..], sep);
    }
  }

  /** A string without the separator splits into itself alone. */
  lemma {:induction false} SplitWithoutSep(s: string, sep: string)
    requires sep != [] && !Contains(s, sep)
    ensures Split(s, sep) == [s]
    decreases |s|
  {
    if s != [] {
      SplitWithoutSep(s[1..], sep);
    }
  }

  /** No part that `Split` produces contains the separator. */
  lemma {:induction false} SplitPartsLackSep(s: string, sep: string)
    requires sep != []
    ensures forall i :: 0 <= i < |Split(s, sep)| ==> !Contains(Split(s, sep)[i], sep)
    decreases |s|
  {
    var parts := Split(s, sep);
    if sep <= s {
      SplitPartsLackSep(s[|sep|..], sep);
      assert !Contains("", sep);
      assert parts[1..] == Split(s[|sep|..], sep);
    } else if s != [] {
      var rest := Split(s[1..], sep);
      SplitPartsLackSep(s[1..], sep);
      var first := [s[0]] + rest[0];
      JoinStartsWithFirst(rest, sep);
      assert first <= s;
      assert first[1..] == rest[0];
      assert !(sep <= first);
      assert !Contains(first, sep);
      assert forall i :: 1 <= i < |parts| ==> parts[i] == rest[i];
    }
  }

  /** No proper prefix of `sep` is also a suffix of it (", " and "\n" are
      such separators, "**" is not). For these separators a part can be
      recovered from the joined string. */
  predicate Borderless(sep: string) {
    forall j :: 0 < j < |sep| ==> sep[j..] != sep[..|sep| - j]
  }

  /** No occurrence of `sep` starts inside `p` and runs on into a copy of
      `sep` that follows `p`. */
  predicate NoStraddle(p: string, sep: string) {
    forall j :: 0 < j < |sep| ==> !StraddlesAt(p, sep, j)
  }

  /** An occurrence of `sep` starts `j` characters before the end of `p` and
      runs on into a copy of `sep` that follows `p`. */
  predicate StraddlesAt(p: string, sep: string, j: int) {
    0 < j < |sep| && j <= |p| && p[|p| - j..] + sep[..|sep| - j] == sep
  }

  /** After any part, a borderless separator cannot straddle. */
  lemma BorderlessNoStraddle(p: string, sep: string)
    requires Borderless(sep)
    ensures NoStraddle(p, sep)
  {
    forall j | 0 < j < |sep| && j <= |p|
      ensures !StraddlesAt(p, sep, j)
    {
      var w := p[|p| - j..] + sep[..|sep| - j];
      assert w[j..] == sep[..|sep| - j];
      assert sep[j..] != sep[..|sep| - j];
    }
  }

  /** A part without the separator, followed by the separator, is cut off
      as the first part, provided no occurrence straddles the cut. */
  lemma {:induction false} SplitAfterPart(p: string, sep: string, rest: string)
    requires sep != [] && !Contains(p, sep) && NoStraddle(p, sep)
    ensures Split(p + sep + rest, sep) == [p] + Split(rest, sep)
    decreases |p|
  {
    var s := p + sep + rest;
    if p == [] {
      assert s == sep + rest;
      assert s[|sep|..] == rest;
    } else {
      NoSeparatorAtStart(p, sep, rest);
      assert s[1..] == p[1..] + sep + rest;
      NoStraddleTail(p, sep);
      SplitAfterPart(p[1..], sep, rest);
      assert [s[0]] + p[1..] == p;
    }
  }

  /** A non-empty part without the separator and without a straddling
      occurrence does not start with the separator, whatever follows it. */
  lemma NoSeparatorAtStart(p: string, sep: string, rest: string)
    requires sep != [] && p != [] && !Contains(p, sep) && NoStraddle(p, sep)
    ensures !(sep <= p + sep + rest)
  {
    var s := p + sep + rest;
    if |sep| <= |p| {
      assert sep <= s ==> sep <= p;
    } else {
      assert s[..|sep|] == p[|p| - |p|..] + sep[..|sep| - |p|];
      assert !StraddlesAt(p, sep, |p|);
    }
  }

  /** Dropping the first character keeps a part free of straddling
      occurrences. */
  lemma NoStraddleTail(p: string, sep: string)
    requires p != [] && NoStraddle(p, sep)
    ensures NoStraddle(p[1..], sep)
  {
    forall j | 0 < j < |sep|
      ensures !StraddlesAt(p[1..], sep, j)
    {
      if j <= |p[1..]| {
        assert p[1..][|p[1..]| - j..] == p[|p| - j..];
        assert !StraddlesAt(p, sep, j);
      }
    }
  }

  /** Putting a character before a part keeps it free of straddling
      occurrences, unless the separator then starts the whole string. */
  lemma PrependNoStraddle(c: char, p: string, sep: string, rest: string)
    requires NoStraddle(p, sep) && !(sep <= [c] + p + sep + rest)
    ensures NoStraddle([c] + p, sep)
  {
    var first := [c] + p;
    forall j | 0 < j < |sep|
      ensures !StraddlesAt(first, sep, j)
    {
      if j <= |p| {
        StraddleInTail(c, p, sep, j);
      } else {
        StraddleOverWhole(first, sep, rest);
      }
    }
  }

  /** An occurrence straddling the end of `[c] + p` that starts inside `p`
      straddles the end of `p`. */
  lemma StraddleInTail(c: char, p: string, sep: string, j: int)
    requires 0 < j <= |p|
    ensures StraddlesAt([c] + p, sep, j) ==> StraddlesAt(p, sep, j)
  {
    assert ([c] + p)[|p| + 1 - j..] == p[|p| - j..];
  }

  /** An occurrence straddling the end of `first` that starts at its first
      character is a copy of `sep` at the start of the whole string. */
  lemma StraddleOverWhole(first: string, sep: string, rest: string)
    ensures StraddlesAt(first, sep, |first|) ==> sep <= first + sep + rest
  {
    if StraddlesAt(first, sep, |first|) {
      assert (first + sep + rest)[..|sep|] == first + sep[..|sep| - |first|];
    }
  }


  /** `Split` cuts at the leftmost occurrence each time: no occurrence of
      the separator starts inside a part and runs into the separator that
      follows it. */
  lemma {:induction false} SplitCutsLeftmost(s: string, sep: string)
    requires sep != []
    ensures forall i :: 0 <= i < |Split(s, sep)| - 1 ==> NoStraddle(Split(s, sep)[i], sep)
    decreases |s|
  {
    var parts := Split(s, sep);
    if sep <= s {
      var rest := Split(s[|sep|..], sep);
      SplitCutsLeftmost(s[|sep|..], sep);
      assert forall i :: 1 <= i < |parts| ==> parts[i] == rest[i - 1];
    } else if s != [] {
      var rest := Split(s[1..], sep);
      SplitCutsLeftmost(s[1..], sep);
      if |rest| >= 2 {
        assert s[1..] == rest[0] + sep + Join(rest[1..], sep);
        assert s == [s[0]] + rest[0] + sep + Join(rest[1..], sep);
        PrependNoStraddle(s[0], rest[0], sep, Join(rest[1..], sep));
      }
      assert forall i :: 1 <= i < |parts| ==> parts[i] == rest[i];
    }
  }

  /** `Split` is the only way to cut: parts without the separator, none of
      which is followed by a straddling occurrence, are exactly what
      splitting their join gives. */
  lemma {:induction false} SplitUnique(parts: seq<string>, sep: string)
    requires sep != [] && |parts| >= 1
    requires forall i :: 0 <= i < |parts| ==> !Contains(parts[i], sep)
    requires forall i :: 0 <= i < |parts| - 1 ==> NoStraddle(parts[i], sep)
    ensures Split(Join(parts, sep), sep) == parts
    decreases |parts|
  {
    if |parts| == 1 {
      SplitWithoutSep(parts[0], sep);
    } else {
      var tail := parts[1..];
      assert forall i :: 0 <= i < |tail| ==> tail[i] == parts[i + 1];
      SplitUnique(tail, sep);
      SplitAfterPart(parts[0], sep, Join(tail, sep));
    }
  }

  /** Splitting undoes joining when no part contains a borderless separator. */
  lemma SplitJoin(parts: seq<string>, sep: string)
    requires sep != [] && Borderless(sep) && |parts| >= 1
    requires forall i :: 0 <= i < |parts| ==> !Contains(parts[i], sep)
    ensures Split(Join(parts, sep), sep) == parts
  {
    forall i | 0 <= i < |parts| - 1
      ensures NoStraddle(parts[i], sep)
    {
      BorderlessNoStraddle(parts[i], sep);
    }
    SplitUnique(parts, sep);
  }

  /** For a one-character separator, the occurrences are the copies of that
      character. */
  lemma {:induction false} OccurrencesOfChar(s: string, c: char)
    ensures Occurrences(s, [c]) == multiset(s)[c]
    decreases |s|
  {
    if s != [] {
      OccurrencesOfChar(s[1..], c);
      assert s == [s[0]] + s[1..];
      assert [c] <= s <==> s[0] == c;
      if [c] <= s {
        assert s[|[c]|..] == s[1..];
      }
    }
  }
}

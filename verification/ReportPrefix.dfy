/** The stack of report prefixes, kept as one NUL-terminated string. */
module ReportPrefix {

  const SIZE: nat := 256
  const NUL: char := '\0'
  const DELIMITER: seq<char> := ": "

  // ---- C strings in a buffer

  /** The string at offset `at` of a buffer is s. */
  predicate HoldsString(buf: seq<char>, at: nat, s: seq<char>) {
    at + |s| < |buf| && buf[at..at + |s|] == s && buf[at + |s|] == NUL && NUL !in s
  }

  predicate OccursAt(s: seq<char>, k: nat, pat: seq<char>) {
    k + |pat| <= |s| && s[k..k + |pat|] == pat
  }

  predicate Contains(s: seq<char>, pat: seq<char>) {
    exists k :: 0 <= k <= |s| && OccursAt(s, k, pat)
  }

  method Strlen(buf: array<char>, at: nat, ghost s: seq<char>) returns (len: nat)
    requires HoldsString(buf[..], at, s)
    ensures len == |s|
  {
    len := 0;
    while buf[at + len] != NUL
      invariant len <= |s|
      decreases |s| - len
    {
      assert buf[..][at..at + |s|][len] == s[len];
      len := len + 1;
    }
  }

  /** memcmp of pat with what the buffer holds at `at`: zero if and only if they are equal. */
  method Memcmp(buf: array<char>, at: nat, pat: seq<char>) returns (ret: int)
    requires at + |pat| <= buf.Length
    ensures ret == 0 <==> buf[at..at + |pat|] == pat
  {
    ret := 0;
    for i := 0 to |pat|
      invariant ret == 0 && forall j :: 0 <= j < i ==> buf[at + j] == pat[j]
    {
      ret := buf[at + i] as int - pat[i] as int;
      if ret != 0 {
        assert buf[at..at + |pat|][i] != pat[i];
        break;
      }
    }
  }

  lemma StringSlice(buf: seq<char>, at: nat, s: seq<char>, k: nat, n: nat)
    requires HoldsString(buf, at, s) && k + n <= |s|
    ensures buf[at + k..at + k + n] == s[k..k + n]
  {
    var held := buf[at..at + |s|];
    var t, u := buf[at + k..at + k + n], s[k..k + n];
    forall i | 0 <= i < n
      ensures t[i] == u[i]
    {
      assert held[k + i] == s[k + i];
    }
  }

  /** strstr in the string s at offset `at`: the offset of the first occurrence of pat, if any. */
  method Strstr(buf: array<char>, at: nat, pat: seq<char>, ghost s: seq<char>) returns (found: bool, where: nat)
    requires HoldsString(buf[..], at, s)
    ensures found <==> Contains(s, pat)
    ensures found ==> at <= where && OccursAt(s, where - at, pat)
    ensures found ==> forall k :: 0 <= k < where - at ==> !OccursAt(s, k, pat)
  {
    if |pat| == 0 {
      assert OccursAt(s, 0, pat);
      return true, at;
    }
    var l1 := Strlen(buf, at, s);
    var s1 := at;
    while l1 >= |pat|
      invariant s1 + l1 == at + |s| && at <= s1
      invariant forall k :: 0 <= k < s1 - at ==> !OccursAt(s, k, pat)
      decreases l1
    {
      l1 := l1 - 1;
      var diff := Memcmp(buf, s1, pat);
      StringSlice(buf[..], at, s, s1 - at, |pat|);
      assert buf[s1..s1 + |pat|] == buf[..][s1..s1 + |pat|];
      if diff == 0 {
        assert OccursAt(s, s1 - at, pat);
        return true, s1;
      }
      s1 := s1 + 1;
    }
    return false, 0;
  }

  // ---- the encoding

  /** The live prefixes, each followed by the delimiter. */
  function Encode(stack: seq<seq<char>>): seq<char> {
    if stack == [] then [] else Encode(stack[..|stack| - 1]) + stack[|stack| - 1] + DELIMITER
  }

  /** One stack on top of another is one text after another, and a prefix alone is its text, a colon and
      a blank. */
  lemma {:induction false} EncodeAppend(a: seq<seq<char>>, b: seq<seq<char>>, p: seq<char>)
    ensures Encode(a + b) == Encode(a) + Encode(b)
    ensures Encode([]) == "" && Encode([p]) == p + ": "
    decreases |b|
  {
    if b == [] {
      assert a + b == a;
    } else {
      var most := b[..|b| - 1];
      EncodeAppend(a, most, p);
      assert (a + b)[..|a + b| - 1] == a + most;
    }
    assert [p][..0] == [];
  }

  predicate IsPrefix(p: seq<char>) { NUL !in p && !Contains(p, DELIMITER) }

  ghost predicate AllPrefixes(stack: seq<seq<char>>) {
    forall i :: 0 <= i < |stack| ==> IsPrefix(stack[i])
  }

  lemma {:induction false} EncodeHasNoNul(stack: seq<seq<char>>)
    requires AllPrefixes(stack)
    ensures NUL !in Encode(stack)
  {
    if stack != [] {
      EncodeHasNoNul(stack[..|stack| - 1]);
    }
  }

  lemma SlicePrefix(s: seq<char>, t: seq<char>, a: nat, n: nat)
    requires s <= t && a + n <= |s|
    ensures t[a..a + n] == s[a..a + n]
  {
  }

  /** Where segment i of the encoding lies. */
  lemma {:induction false} Segment(stack: seq<seq<char>>, i: nat)
    requires i < |stack|
    ensures var a := |Encode(stack[..i])|;
            Encode(stack[..i]) <= Encode(stack) && Encode(stack[..i + 1]) <= Encode(stack) &&
            a + |stack[i]| + 2 == |Encode(stack[..i + 1])| &&
            Encode(stack)[a..a + |stack[i]| + 2] == stack[i] + DELIMITER
    decreases |stack|
  {
    var most := stack[..|stack| - 1];
    if i + 1 == |stack| {
      assert stack[..i + 1] == stack;
    } else {
      assert Encode(most) <= Encode(stack);
      hide Encode;
      Segment(most, i);
      assert most[..i] == stack[..i] && most[..i + 1] == stack[..i + 1];
      SlicePrefix(Encode(most), Encode(stack), |Encode(stack[..i])|, |stack[i]| + 2);
    }
  }

  /** From the start of a segment, the first delimiter is the one that ends the segment, even if the
      prefix ends in ':' or the next one begins with a blank. */
  lemma FirstDelimiter(s: seq<char>, p: seq<char>, k: nat)
    requires IsPrefix(p) && p + DELIMITER <= s && OccursAt(s, k, DELIMITER)
    requires forall j :: 0 <= j < k ==> !OccursAt(s, j, DELIMITER)
    ensures k == |p|
  {
    assert s[|p|..|p| + 2] == DELIMITER;
    assert OccursAt(s, |p|, DELIMITER);
    if k + 2 <= |p| {
      assert p[k..k + 2] == s[k..k + 2];
      assert OccursAt(p, k, DELIMITER);
    }
    assert s[k..k + 2][1] == ' ';
  }

  // ---- the stack

  /** What the three pieces of a push leave in the buffer. */
  lemma Joined(buf: seq<char>, mid: seq<char>, text: seq<char>, prefix: seq<char>)
    requires |buf| == |mid| && |text| + |prefix| + 2 <= |buf|
    requires mid[..|text|] == text && mid[|text|..|text| + |prefix|] == prefix
    requires buf[..|text| + |prefix|] == mid[..|text| + |prefix|]
    requires buf[|text| + |prefix|..|text| + |prefix| + 2] == DELIMITER
    ensures buf[..|text| + |prefix| + 2] == text + prefix + DELIMITER
  {
    var n := |text| + |prefix|;
    assert buf[..n + 2] == buf[..n] + buf[n..n + 2];
    assert mid[..n] == mid[..|text|] + mid[|text|..n];
  }

  class Prefixes {
    const buf: array<char>
    ghost var stack: seq<seq<char>>

    ghost predicate Valid()
      reads this, buf
    {
      buf.Length == SIZE && AllPrefixes(stack) && HoldsString(buf[..], 0, Encode(stack))
    }

    constructor ()
      ensures Valid() && stack == [] && fresh(buf)
    {
      buf := new char[SIZE](_ => NUL);
      stack := [];
    }

    /** snprintf(&prefixes[at], sizeof(prefixes) - at, "%s", s): as much of s as fits, terminated. */
    method Snprintf(at: nat, s: seq<char>) returns (len: nat)
      requires at < buf.Length
      modifies buf
      ensures len == |s|
      ensures buf[..at] == old(buf[..at])
      ensures at + |s| < buf.Length ==> buf[at..at + |s|] == s && buf[at + |s|] == NUL
    {
      var i := 0;
      while i < |s| && at + i + 1 < buf.Length
        invariant i <= |s| && at + i < buf.Length
        invariant buf[..at] == old(buf[..at]) && buf[at..at + i] == s[..i]
        decreases |s| - i
      {
        buf[at + i] := s[i];
        i := i + 1;
      }
      buf[at + i] := NUL;
      len := |s|;
      assert buf[at..at + i] == s[..i];
      assert i == |s| ==> s[..i] == s;
    }

    /** Push a prefix; the run is over (ok is false) exactly if it contains the delimiter or does not
        fit. */
    method Push(prefix: seq<char>) returns (ok: bool)
      requires Valid() && NUL !in prefix
      modifies this, buf
      ensures ok <==> !Contains(prefix, DELIMITER) && |Encode(old(stack))| + |prefix| + 2 < SIZE
      ensures ok ==> Valid() && stack == old(stack) + [prefix]
    {
      ghost var text := Encode(stack);
      var len := Strlen(buf, 0, text);
      var start := len;
      var added := Snprintf(len, prefix);
      len := len + added;
      if !(len < SIZE) {
        return false;
      }
      assert HoldsString(buf[..], start, prefix);
      var found, _ := Strstr(buf, start, DELIMITER, prefix);
      if found {
        return false;
      }
      ghost var mid := buf[..];
      added := Snprintf(len, DELIMITER);
      len := len + added;
      if !(len < SIZE) {
        return false;
      }
      Joined(buf[..], mid, text, prefix);
      stack := stack + [prefix];
      assert stack[..|stack| - 1] == old(stack);
      EncodeHasNoNul(stack);
      ok := true;
    }

    /** Drop the latest prefix; nothing happens on an empty stack. */
    method Pop()
      requires Valid()
      modifies this, buf
      ensures Valid()
      ensures stack == if old(stack) == [] then [] else old(stack)[..|old(stack)| - 1]
    {
      hide Encode, IsPrefix;
      ghost var text := Encode(stack);
      NulEnds(buf[..], text, 0);
      NonEmpty(stack);
      if buf[0] == NUL {
        return;
      }
      ghost var i: nat := 0;
      var p := 0;
      var q := SegmentEnd(p, i);
      while buf[q] != NUL
        invariant Valid() && stack == old(stack) && i < |stack|
        invariant p == |Encode(stack[..i])| && q == |Encode(stack[..i + 1])| <= |text|
        decreases |stack| - i
      {
        NulEnds(buf[..], text, q);
        LastSegment(stack, i);
        p := q;
        i := i + 1;
        q := SegmentEnd(p, i);
      }
      NulEnds(buf[..], text, q);
      LastSegment(stack, i);
      assert stack[..i + 1] == stack;
      Segment(stack, i);
      assert buf[..][0..|text|] == text;
      buf[p] := NUL;
      stack := stack[..i];
      assert buf[..][0..p] == text[..p] == Encode(stack);
      EncodeHasNoNul(stack);
    }

    /** strstr(p, ": ") + 2 from the start of segment i. */
    method SegmentEnd(p: nat, ghost i: nat) returns (q: nat)
      requires Valid() && i < |stack| && p == |Encode(stack[..i])|
      ensures q == |Encode(stack[..i + 1])| <= |Encode(stack)|
    {
      ghost var text := Encode(stack);
      Segment(stack, i);
      ghost var s := text[p..];
      assert HoldsString(buf[..], p, s);
      assert stack[i] + DELIMITER <= s;
      assert OccursAt(s, |stack[i]|, DELIMITER);
      var found, where := Strstr(buf, p, DELIMITER, s);
      FirstDelimiter(s, stack[i], where - p);
      q := where + 2;
    }
  }

  lemma NulEnds(buf: seq<char>, text: seq<char>, q: nat)
    requires HoldsString(buf, 0, text) && q <= |text|
    ensures buf[q] == NUL <==> q == |text|
  {
    if q < |text| {
      assert buf[0..0 + |text|][q] == text[q];
    }
  }

  lemma NonEmpty(stack: seq<seq<char>>)
    ensures stack == [] <==> |Encode(stack)| == 0
    ensures Encode(stack[..0]) == []
  {
  }

  /** A segment ends the string if and only if it is the last one. */
  lemma LastSegment(stack: seq<seq<char>>, i: nat)
    requires i < |stack|
    ensures |Encode(stack[..i + 1])| == |Encode(stack)| <==> i + 1 == |stack|
    ensures |Encode(stack[..i + 1])| <= |Encode(stack)|
  {
    Segment(stack, i);
    if i + 1 < |stack| {
      Segment(stack, i + 1);
      Segment(stack, |stack| - 1);
      assert stack[..|stack| - 1 + 1] == stack;
      assert |Encode(stack[..i + 1])| < |Encode(stack[..i + 2])|;
    } else {
      assert stack[..i + 1] == stack;
    }
  }

  /** A push and the matching pop leave the prefixes as they were. */
  method PushPop(r: Prefixes, prefix: seq<char>) returns (ok: bool)
    requires r.Valid() && NUL !in prefix
    modifies r, r.buf
    ensures ok <==> !Contains(prefix, DELIMITER) && |Encode(old(r.stack))| + |prefix| + 2 < SIZE
    ensures ok ==> r.Valid() && r.stack == old(r.stack)
  {
    ok := r.Push(prefix);
    if ok {
      r.Pop();
      assert (old(r.stack) + [prefix])[..|old(r.stack)|] == old(r.stack);
    }
  }
}

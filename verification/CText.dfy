/** C strings and the byte order of strcmp.

A C string is a `string` whose characters are bytes (code below 256).  Nothing below depends on
that bound, so every statement also holds for wider characters. */
module CText {
  import opened Sequences

  /** strcmp(a, b) < 0, comparing unsigned bytes. */
  predicate Less(a: string, b: string) {
    b != [] && (a == [] || a[0] < b[0] || (a[0] == b[0] && Less(a[1..], b[1..])))
  }

  /** strcmp(a, b) <= 0. */
  predicate AtMost(a: string, b: string) {
    a == b || Less(a, b)
  }

  lemma {:induction false} LessIrreflexive(a: string)
    ensures !Less(a, a)
  {
    if a != [] {
      LessIrreflexive(a[1..]);
    }
  }

  lemma {:induction false} LessTransitive(a: string, b: string, c: string)
    requires Less(a, b) && Less(b, c)
    ensures Less(a, c)
  {
    if a != [] && a[0] == b[0] && b[0] == c[0] {
      LessTransitive(a[1..], b[1..], c[1..]);
    }
  }

  /** Two strings are either equal or ordered one way round. */
  lemma {:induction false} LessTrichotomy(a: string, b: string)
    ensures Less(a, b) || a == b || Less(b, a)
    ensures !(Less(a, b) && Less(b, a))
  {
    if a != [] && b != [] && a[0] == b[0] {
      LessTrichotomy(a[1..], b[1..]);
      assert a == [a[0]] + a[1..] && b == [b[0]] + b[1..];
    }
  }

  lemma AtMostTotalOrder(a: string, b: string, c: string)
    ensures AtMost(a, b) || AtMost(b, a)
    ensures AtMost(a, b) && AtMost(b, c) ==> AtMost(a, c)
    ensures AtMost(a, b) && AtMost(b, a) ==> a == b
  {
    LessTrichotomy(a, b);
    if Less(a, b) && Less(b, c) {
      LessTransitive(a, b, c);
    }
  }

  /** isspace in the "C" locale. */
  predicate IsSpace(c: char) {
    c == ' ' || '\t' <= c <= '\r'
  }

  predicate SpaceFree(s: string) {
    forall i | 0 <= i < |s| :: !IsSpace(s[i])
  }

  predicate AllSpace(s: string) {
    forall i | 0 <= i < |s| :: IsSpace(s[i])
  }

  /** The first white space at or after i. */
  function SpaceAt(s: string, i: nat): (r: nat)
    requires i <= |s|
    ensures i <= r <= |s|
    ensures forall k | i <= k < r :: !IsSpace(s[k])
    ensures r < |s| ==> IsSpace(s[r])
    decreases |s| - i
  {
    if i == |s| || IsSpace(s[i]) then i else SpaceAt(s, i + 1)
  }

  /** The first character at or after i that is not white space. */
  function NonSpaceAt(s: string, i: nat): (r: nat)
    requires i <= |s|
    ensures i <= r <= |s|
    ensures forall k | i <= k < r :: IsSpace(s[k])
    ensures r < |s| ==> !IsSpace(s[r])
    decreases |s| - i
  {
    if i == |s| || !IsSpace(s[i]) then i else NonSpaceAt(s, i + 1)
  }

  lemma SpaceAtExact(s: string, i: nat, k: nat)
    requires i <= k < |s| && IsSpace(s[k]) && forall j | i <= j < k :: !IsSpace(s[j])
    ensures SpaceAt(s, i) == k
  {
  }

  lemma NonSpaceAtExact(s: string, i: nat, k: nat)
    requires i <= k < |s| && !IsSpace(s[k]) && forall j | i <= j < k :: IsSpace(s[j])
    ensures NonSpaceAt(s, i) == k
  {
  }

  lemma WordAt(line: string, from: nat, word: string, rest: string)
    requires from <= |line| && line[from..] == word + rest
    requires SpaceFree(word) && rest != [] && IsSpace(rest[0])
    ensures var end := from + |word|;
      end < |line| && SpaceAt(line, from) == end && line[from..end] == word && line[end..] == rest
  {
    hide SpaceAt;
    var tail, end := line[from..], from + |word|;
    assert line[end] == tail[|word|] == rest[0];
    forall j | from <= j < end ensures !IsSpace(line[j]) {
      assert line[j] == tail[j - from] == word[j - from];
    }
    SpaceAtExact(line, from, end);
    assert line[from..end] == tail[..|word|] && line[end..] == tail[|word|..];
  }

  lemma GapAt(line: string, from: nat, gap: string, rest: string)
    requires from <= |line| && line[from..] == gap + rest
    requires AllSpace(gap) && rest != [] && !IsSpace(rest[0])
    ensures var end := from + |gap|;
      end < |line| && NonSpaceAt(line, from) == end && line[from..end] == gap && line[end..] == rest
  {
    hide NonSpaceAt;
    var tail, end := line[from..], from + |gap|;
    assert line[end] == tail[|gap|] == rest[0];
    forall j | from <= j < end ensures IsSpace(line[j]) {
      assert line[j] == tail[j - from] == gap[j - from];
    }
    NonSpaceAtExact(line, from, end);
    assert line[from..end] == tail[..|gap|] && line[end..] == tail[|gap|..];
  }

  method SkipWord(text: string, from: nat) returns (end: nat)
    requires from <= |text|
    ensures end == SpaceAt(text, from)
  {
    end := from;
    while end < |text| && !IsSpace(text[end])
      invariant from <= end <= |text|
      invariant SpaceAt(text, end) == SpaceAt(text, from)
    {
      end := end + 1;
    }
  }

  method SkipSpaces(text: string, from: nat) returns (end: nat)
    requires from <= |text|
    ensures end == NonSpaceAt(text, from)
  {
    end := from;
    while end < |text| && IsSpace(text[end])
      invariant from <= end <= |text|
      invariant NonSpaceAt(text, end) == NonSpaceAt(text, from)
    {
      end := end + 1;
    }
  }

  predicate IsUpper(c: char) {
    'A' <= c <= 'Z'
  }

  /** tolower in the "C" locale: only ASCII capitals move. */
  function ToLower(c: char): char {
    if IsUpper(c) then (c as int + 32) as char else c
  }

  predicate Lacks(s: string, c: char) {
    forall i | 0 <= i < |s| :: s[i] != c
  }

  /** The tables of isspace, isupper and tolower. */
  lemma SpaceTable(c: char)
    ensures IsSpace(c) <==> c in " \t\n\U{b}\U{c}\r"
  {
    var spaces := " \t\n\U{b}\U{c}\r";
    assert spaces[0] == ' ' && spaces[1] == '\t' && spaces[2] == '\n' && spaces[5] == '\r';
    if '\t' <= c <= '\r' {
      assert spaces[c as int - 8] == c;
    }
  }

  lemma CapitalTable(c: char)
    ensures IsUpper(c) <==> c in "ABCDEFGHIJKLMNOPQRSTUVWXYZ"
    ensures forall i | 0 <= i < 26 :: ToLower("ABCDEFGHIJKLMNOPQRSTUVWXYZ"[i]) == "abcdefghijklmnopqrstuvwxyz"[i]
    ensures c !in "ABCDEFGHIJKLMNOPQRSTUVWXYZ" ==> ToLower(c) == c
  {
    var capitals, small := "ABCDEFGHIJKLMNOPQRSTUVWXYZ", "abcdefghijklmnopqrstuvwxyz";
    assert forall i | 0 <= i < 26 :: capitals[i] as int == 65 + i && small[i] as int == 97 + i;
    if IsUpper(c) {
      assert capitals[c as int - 65] == c;
    }
  }

  lemma CapitalCases(kind: char)
    ensures IsUpper(kind) <==>
      || kind == 'A' || kind == 'B' || kind == 'C' || kind == 'D' || kind == 'E' || kind == 'F' || kind == 'G'
      || kind == 'H' || kind == 'I' || kind == 'J' || kind == 'K' || kind == 'L' || kind == 'M' || kind == 'N'
      || kind == 'O' || kind == 'P' || kind == 'Q' || kind == 'R' || kind == 'S' || kind == 'T' || kind == 'U'
      || kind == 'V' || kind == 'W' || kind == 'X' || kind == 'Y' || kind == 'Z'
  {
  }

  /** a comes before b when they agree up to some place, where a ends first or has the smaller byte. */
  lemma {:induction false} LessExact(a: string, b: string)
    ensures Less(a, b) <==>
      exists i | 0 <= i <= |a| && i <= |b| :: a[..i] == b[..i] && i < |b| && (i == |a| || a[i] < b[i])
  {
    if a != [] && b != [] && a[0] == b[0] {
      LessExact(a[1..], b[1..]);
      if i :| 0 <= i <= |a| - 1 && i < |b| - 1 && a[1..][..i] == b[1..][..i] && (i == |a| - 1 || a[1..][i] < b[1..][i]) {
        assert a[..i + 1] == [a[0]] + a[1..][..i] && b[..i + 1] == [b[0]] + b[1..][..i];
        assert a[..i + 1] == b[..i + 1] && (i + 1 == |a| || a[i + 1] < b[i + 1]);
      }
      if i :| 0 <= i <= |a| && i < |b| && a[..i] == b[..i] && (i == |a| || a[i] < b[i]) {
        assert i > 0;
        assert a[1..][..i - 1] == a[..i][1..] && b[1..][..i - 1] == b[..i][1..];
      }
    } else if Less(a, b) {
      assert a[..0] == b[..0];
    } else if i :| 0 <= i <= |a| && i < |b| && a[..i] == b[..i] && (i == |a| || a[i] < b[i]) {
      if i > 0 {
        SameFirst(a, b, i);
      }
    }
  }

  lemma SameFirst(a: string, b: string, i: nat)
    requires 0 < i <= |a| && i <= |b| && a[..i] == b[..i]
    ensures a[0] == b[0]
  {
    assert a[0] == a[..i][0] && b[0] == b[..i][0];
  }

  /** A right-nested concatenation read left-nested. */
  lemma Assoc<T>(a: seq<T>, b: seq<T>, c: seq<T>)
    ensures a + (b + c) == a + b + c
  {
  }

  /** A C string in a buffer of its own. */
  method Terminated(s: string) returns (buffer: array<char>)
    ensures fresh(buffer) && buffer.Length == |s| + 1
    ensures buffer[..|s|] == s && buffer[|s|] == '\0'
  {
    buffer := new char[|s| + 1](i requires 0 <= i <= |s| => if i < |s| then s[i] else '\0');
  }

  // ---- splitting at a character

  /** memchr from position i; the length when there is none. */
  function ByteAt(s: string, c: char, i: nat): (r: nat)
    requires i <= |s|
    ensures i <= r <= |s|
    ensures forall k | i <= k < r :: s[k] != c
    ensures r < |s| ==> s[r] == c
    decreases |s| - i
  {
    if i == |s| || s[i] == c then i else ByteAt(s, c, i + 1)
  }

  lemma ByteAtExact(s: string, c: char, i: nat, k: nat)
    requires i <= k < |s| && s[k] == c && forall j | i <= j < k :: s[j] != c
    ensures ByteAt(s, c, i) == k
  {
  }

  /** The pieces between occurrences of c, the one after the last included. */
  function Split(s: string, c: char): (r: seq<string>)
    ensures r != []
    decreases |s|
  {
    var i := ByteAt(s, c, 0);
    if i == |s| then [s] else [s[..i]] + Split(s[i + 1..], c)
  }

  lemma HeadEnds(head: string, rest: string, c: char)
    requires Lacks(head, c)
    ensures ByteAt(head + ([c] + rest), c, 0) == |head|
  {
    hide ByteAt;
    var s := head + ([c] + rest);
    assert s[|head|] == c;
    assert forall j | 0 <= j < |head| :: s[j] == head[j];
    ByteAtExact(s, c, 0, |head|);
  }

  lemma SplitApart(head: string, rest: string, c: char)
    requires Lacks(head, c)
    ensures Split(head + ([c] + rest), c) == [head] + Split(rest, c)
  {
    hide ByteAt;
    var s := head + ([c] + rest);
    HeadEnds(head, rest, c);
    assert s[..|head|] == head && s[|head| + 1..] == rest;
  }

  lemma SplitWhole(s: string, c: char)
    requires Lacks(s, c)
    ensures Split(s, c) == [s]
  {
  }

  /** The first piece and what follows it, when there is more than one. */
  lemma SplitHead(s: string, c: char) returns (head: string, rest: string)
    requires !Lacks(s, c)
    ensures Lacks(head, c) && s == head + ([c] + rest) && |rest| < |s|
    ensures Split(s, c) == [head] + Split(rest, c)
  {
    var i := ByteAt(s, c, 0);
    head, rest := s[..i], s[i + 1..];
    assert s == head + ([c] + rest);
  }

  /** Text without c goes into the last piece. */
  lemma {:induction false} SplitAppend(s: string, tail: string, c: char)
    requires Lacks(tail, c)
    ensures Split(s + tail, c) == Front(Split(s, c)) + [Final(Split(s, c)) + tail]
    decreases |s|
  {
    hide Split;
    if Lacks(s, c) {
      SplitWhole(s, c);
      SplitWhole(s + tail, c);
    } else {
      var head, rest := SplitHead(s, c);
      SplitAppend(rest, tail, c);
      assert s + tail == head + ([c] + (rest + tail));
      SplitApart(head, rest + tail, c);
      assert Front([head] + Split(rest, c)) == [head] + Front(Split(rest, c));
    }
  }

  /** A separator and text without another add one piece. */
  lemma {:induction false} SplitExtend(s: string, tail: string, c: char)
    requires Lacks(tail, c)
    ensures Split(s + ([c] + tail), c) == Split(s, c) + [tail]
    decreases |s|
  {
    hide Split;
    if Lacks(s, c) {
      SplitWhole(s, c);
      SplitWhole(tail, c);
      SplitApart(s, tail, c);
    } else {
      var head, rest := SplitHead(s, c);
      SplitExtend(rest, tail, c);
      assert s + ([c] + tail) == head + ([c] + (rest + ([c] + tail)));
      SplitApart(head, rest + ([c] + tail), c);
    }
  }

  /** The last piece is what follows the last separator. */
  lemma {:induction false} SplitFinal(s: string, c: char)
    ensures s == "" ==> Final(Split(s, c)) == ""
    ensures s != "" && s[|s| - 1] == c ==> Final(Split(s, c)) == ""
    ensures s != "" && s[|s| - 1] != c ==>
      Final(Split(s, c)) != "" && Final(Split(s, c))[|Final(Split(s, c))| - 1] == s[|s| - 1]
    decreases |s|
  {
    hide Split;
    if Lacks(s, c) {
      SplitWhole(s, c);
    } else {
      var head, rest := SplitHead(s, c);
      SplitFinal(rest, c);
      SplitFinalOf(head, rest, c);
    }
  }

  lemma SplitFinalOf(head: string, rest: string, c: char)
    requires Split(head + ([c] + rest), c) == [head] + Split(rest, c)
    ensures Final(Split(head + ([c] + rest), c)) == Final(Split(rest, c))
    ensures var s := head + ([c] + rest); s[|s| - 1] == if rest == "" then c else rest[|rest| - 1]
  {
  }
}

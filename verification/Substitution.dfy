/** Replacing every occurrence of a text: str.replace. */
module Substitution {

  /** Every occurrence of a text replaced, from left to right. */
  function Substituted(s: string, before: string, after: string): string
    requires before != ""
    decreases |s|
  {
    if s == "" then ""
    else if before <= s then after + Substituted(s[|before|..], before, after)
    else [s[0]] + Substituted(s[1..], before, after)
  }

  /** Text in which the pattern does not begin is kept; where it begins it is replaced once. */
  lemma {:induction false} SubstitutedNext(head: string, rest: string, before: string, after: string)
    requires before != "" && forall i | 0 <= i < |head| :: !(before <= (head + rest)[i..])
    ensures Substituted(head + rest, before, after) == head + Substituted(rest, before, after)
    ensures before <= rest ==>
      Substituted(rest, before, after) == after + Substituted(rest[|before|..], before, after)
    decreases |head|
  {
    if head == "" {
      assert head + rest == rest;
    } else {
      assert (head + rest)[0..] == head + rest && (head + rest)[1..] == head[1..] + rest;
      forall i | 0 <= i < |head[1..]| ensures !(before <= (head[1..] + rest)[i..]) {
        assert (head[1..] + rest)[i..] == (head + rest)[i + 1..];
      }
      SubstitutedNext(head[1..], rest, before, after);
      assert head == [head[0]] + head[1..];
    }
  }

  // ---- the same, said of the pieces between the occurrences

  /** The pieces with a text between them. */
  function Weave(pieces: seq<string>, between: string): string {
    if pieces == [] then ""
    else if |pieces| == 1 then pieces[0]
    else pieces[0] + (between + Weave(pieces[1..], between))
  }

  /** between begins nowhere in a piece. */
  ghost predicate Leftmost(pieces: seq<string>, between: string) {
    forall i, j | 0 <= i < |pieces| && 0 <= j < |pieces[i]| && j <= |Weave(pieces[i..], between)| ::
      !(between <= Weave(pieces[i..], between)[j..])
  }

  /** t is s with before replaced by after, wherever before is found going from left to right. */
  ghost predicate Replacing(s: string, t: string, before: string, after: string) {
    exists pieces | pieces != [] && Leftmost(pieces, before) :: s == Weave(pieces, before) && t == Weave(pieces, after)
  }

  lemma WeaveStarts(pieces: seq<string>, between: string)
    requires pieces != []
    ensures pieces[0] <= Weave(pieces, between)
  {
  }

  lemma LeftmostTail(pieces: seq<string>, between: string)
    requires |pieces| > 1 && Leftmost(pieces, between)
    ensures Leftmost(pieces[1..], between)
  {
    var tail := pieces[1..];
    forall i, j | 0 <= i < |tail| && 0 <= j < |tail[i]| && j <= |Weave(tail[i..], between)|
      ensures !(between <= Weave(tail[i..], between)[j..])
    {
      assert tail[i..] == pieces[i + 1..] && tail[i] == pieces[i + 1];
    }
  }

  lemma {:induction false} WovenIsSubstituted(pieces: seq<string>, before: string, after: string)
    requires before != "" && pieces != [] && Leftmost(pieces, before)
    ensures Substituted(Weave(pieces, before), before, after) == Weave(pieces, after)
    decreases |pieces|
  {
    hide Substituted;
    var s := Weave(pieces, before);
    WeaveStarts(pieces, before);
    assert pieces[0..] == pieces;
    forall i | 0 <= i < |pieces[0]| ensures !(before <= s[i..]) {
      assert !(before <= Weave(pieces[0..], before)[i..]);
    }
    if |pieces| == 1 {
      assert s == pieces[0] + "";
      SubstitutedNext(pieces[0], "", before, after);
      SubstitutedEmpty(before, after);
      assert pieces[0] + "" == pieces[0];
    } else {
      var rest := Weave(pieces[1..], before);
      SubstitutedNext(pieces[0], before + rest, before, after);
      assert (before + rest)[|before|..] == rest;
      LeftmostTail(pieces, before);
      WovenIsSubstituted(pieces[1..], before, after);
    }
  }

  lemma SubstitutedEmpty(before: string, after: string)
    requires before != ""
    ensures Substituted("", before, after) == ""
  {
  }

  /** The pieces between the occurrences found from left to right. */
  lemma {:induction false} Unwoven(s: string, before: string) returns (pieces: seq<string>)
    requires before != ""
    ensures pieces != [] && s == Weave(pieces, before) && Leftmost(pieces, before)
    decreases |s|
  {
    if s == "" {
      pieces := [""];
    } else if before <= s {
      var tail := Unwoven(s[|before|..], before);
      pieces := [""] + tail;
      assert pieces[1..] == tail && s == before + s[|before|..];
      LeftmostCons(pieces, before);
    } else {
      var tail := Unwoven(s[1..], before);
      pieces := [[s[0]] + tail[0]] + tail[1..];
      LongerHead(s, tail, pieces, before);
    }
  }

  lemma LeftmostCons(pieces: seq<string>, between: string)
    requires |pieces| > 1 && pieces[0] == "" && Leftmost(pieces[1..], between)
    ensures Leftmost(pieces, between)
  {
    var tail := pieces[1..];
    forall i, j | 0 <= i < |pieces| && 0 <= j < |pieces[i]| && j <= |Weave(pieces[i..], between)|
      ensures !(between <= Weave(pieces[i..], between)[j..])
    {
      assert tail[i - 1..] == pieces[i..] && tail[i - 1] == pieces[i];
    }
  }

  lemma LongerHead(s: string, tail: seq<string>, pieces: seq<string>, between: string)
    requires s != "" && tail != [] && pieces == [[s[0]] + tail[0]] + tail[1..]
    requires s[1..] == Weave(tail, between) && Leftmost(tail, between) && !(between <= s)
    ensures s == Weave(pieces, between) && Leftmost(pieces, between)
  {
    hide Leftmost;
    WeaveLonger([s[0]], tail, pieces, between);
    assert s == [s[0]] + s[1..];
    LeftmostLonger(s, tail, pieces, between);
  }

  lemma WeaveLonger(c: string, tail: seq<string>, pieces: seq<string>, between: string)
    requires tail != [] && pieces == [c + tail[0]] + tail[1..]
    ensures Weave(pieces, between) == c + Weave(tail, between)
  {
    assert pieces[1..] == tail[1..];
    if |tail| > 1 {
      var rest := between + Weave(tail[1..], between);
      assert c + (tail[0] + rest) == (c + tail[0]) + rest;
    }
  }

  lemma LeftmostLonger(s: string, tail: seq<string>, pieces: seq<string>, between: string)
    requires s != "" && tail != [] && pieces == [[s[0]] + tail[0]] + tail[1..]
    requires s[1..] == Weave(tail, between) && s == Weave(pieces, between) && Leftmost(tail, between) && !(between <= s)
    ensures Leftmost(pieces, between)
  {
    hide Weave;
    assert pieces[0..] == pieces && tail[0..] == tail && s[0..] == s;
    forall i, j | 0 <= i < |pieces| && 0 <= j < |pieces[i]| && j <= |Weave(pieces[i..], between)|
      ensures !(between <= Weave(pieces[i..], between)[j..])
    {
      if i > 0 {
        assert tail[i..] == pieces[i..] && tail[i] == pieces[i];
      } else if j > 0 {
        assert s[j..] == s[1..][j - 1..];
        assert !(between <= Weave(tail[0..], between)[j - 1..]);
      }
    }
  }

  /** Substitution is replacement, and nothing else is. */
  lemma SubstitutedExact(s: string, t: string, before: string, after: string)
    requires before != ""
    ensures Replacing(s, t, before, after) <==> t == Substituted(s, before, after)
  {
    hide Substituted, Leftmost;
    var pieces := Unwoven(s, before);
    WovenIsSubstituted(pieces, before, after);
    if other :| other != [] && Leftmost(other, before) && s == Weave(other, before) && t == Weave(other, after) {
      WovenIsSubstituted(other, before, after);
    }
  }
}

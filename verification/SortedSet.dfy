/** A sorted set of strings kept in a growing array: tools/def_file_generator/def_file_generator.c. */
module SortedSet {
  import opened CText

  ghost predicate Increasing(s: seq<string>) {
    forall i, j | 0 <= i < j < |s| :: Less(s[i], s[j])
  }

  /** Where string_set_insert stops looking: past every smaller string. */
  function Position(s: seq<string>, value: string, from: nat): (r: nat)
    requires from <= |s|
    ensures from <= r <= |s|
    decreases |s| - from
  {
    if from < |s| && Less(s[from], value) then Position(s, value, from + 1) else from
  }

  function Inserted(s: seq<string>, value: string): seq<string> {
    var p := Position(s, value, 0);
    if p < |s| && s[p] == value then s else s[..p] + [value] + s[p..]
  }

  function InsertedAll(s: seq<string>, values: seq<string>): seq<string>
    decreases |values|
  {
    if values == [] then s else InsertedAll(Inserted(s, values[0]), values[1..])
  }

  lemma {:induction false} PositionSplits(s: seq<string>, value: string, from: nat)
    requires from <= |s| && Increasing(s)
    ensures var p := Position(s, value, from);
      && (forall k | from <= k < p :: Less(s[k], value))
      && (p < |s| ==> !Less(s[p], value))
    decreases |s| - from
  {
    if from < |s| && Less(s[from], value) {
      PositionSplits(s, value, from + 1);
    }
  }

  /** Inserting keeps the array strictly increasing and adds exactly the value. */
  lemma InsertedFacts(s: seq<string>, value: string)
    requires Increasing(s)
    ensures Increasing(Inserted(s, value))
    ensures forall x :: x in Inserted(s, value) <==> x in s || x == value
  {
    var p, r := Position(s, value, 0), Inserted(s, value);
    PositionSplits(s, value, 0);
    if p < |s| {
      LessTrichotomy(s[p], value);
    }
    if r != s {
      forall i, j | 0 <= i < j < |r| ensures Less(r[i], r[j]) {
        if i < p && j > p {
          assert r[i] == s[i] && r[j] == s[j - 1];
        } else if i == p {
          assert r[j] == s[j - 1];
          if j - 1 > p {
            LessTransitive(value, s[p], s[j - 1]);
          }
        }
      }
      forall x ensures x in r <==> x in s || x == value {
        InsertedMembers(s, p, value, x);
      }
    }
  }

  lemma InsertedMembers(s: seq<string>, p: nat, value: string, x: string)
    requires p <= |s|
    ensures x in s[..p] + [value] + s[p..] <==> x in s || x == value
  {
    assert s == s[..p] + s[p..];
  }

  lemma {:induction false} InsertedAllFacts(s: seq<string>, values: seq<string>)
    requires Increasing(s)
    ensures Increasing(InsertedAll(s, values))
    ensures forall x :: x in InsertedAll(s, values) <==> x in s || x in values
    decreases |values|
  {
    hide Inserted, Increasing;
    if values != [] {
      InsertedFacts(s, values[0]);
      InsertedAllFacts(Inserted(s, values[0]), values[1..]);
    }
  }

  /** A strictly increasing list is determined by its elements. */
  lemma {:induction false} IncreasingUnique(s: seq<string>, t: seq<string>)
    requires Increasing(s) && Increasing(t) && forall x :: x in s <==> x in t
    ensures s == t
  {
    assert t != [] ==> t[0] in t;
    if s != [] {
      assert s[0] in t;
      HeadsAgree(s, t);
      forall x ensures x in s[1..] <==> x in t[1..] {
        TailMembers(s, x);
        TailMembers(t, x);
      }
      IncreasingUnique(s[1..], t[1..]);
      assert s == [s[0]] + s[1..] && t == [t[0]] + t[1..];
    }
  }

  lemma TailMembers(s: seq<string>, x: string)
    requires s != [] && Increasing(s)
    ensures x in s[1..] <==> x in s && x != s[0]
  {
    LessIrreflexive(s[0]);
  }

  lemma HeadsAgree(s: seq<string>, t: seq<string>)
    requires s != [] && Increasing(s) && Increasing(t) && s[0] in t && (forall x :: x in t ==> x in s)
    ensures t != [] && s[0] == t[0]
  {
    assert t[0] in s;
    var i :| 0 <= i < |s| && s[i] == t[0];
    var j :| 0 <= j < |t| && t[j] == s[0];
    LessTrichotomy(s[0], t[0]);
  }

  /** Only the set of inserted strings matters, not their order or number. */
  lemma InsertionOrderIrrelevant(values: seq<string>, values': seq<string>)
    requires forall x :: x in values <==> x in values'
    ensures InsertedAll([], values) == InsertedAll([], values')
  {
    InsertedAllFacts([], values);
    InsertedAllFacts([], values');
    IncreasingUnique(InsertedAll([], values), InsertedAll([], values'));
  }

  class StringSet {
    var values: array<string>
    var count: nat

    ghost predicate Valid()
      reads this
    {
      count <= values.Length
    }

    ghost function Contents(): seq<string>
      reads this, values
      requires Valid()
    {
      values[..count]
    }

    constructor ()
      ensures Valid() && Contents() == [] && fresh(values)
    {
      values := new string[0];
      count := 0;
    }

    /** string_set_insert: find the place, grow, shift the tail up by one slot, store. */
    method Insert(value: string)
      requires Valid()
      modifies this, values
      ensures Valid() && (values == old(values) || fresh(values))
      ensures Contents() == Inserted(old(Contents()), value)
    {
      hide Position;
      ghost var s := Contents();
      var position := Locate(value);
      if position < count && values[position] == value {
        return;
      }
      if count == values.Length {
        Grow();
      }
      OpenSlot(position, value);
    }

    /** The tail moves up and the value goes into the free slot. */
    method OpenSlot(position: nat, value: string)
      requires Valid() && position <= count < values.Length
      modifies this`count, values
      ensures Valid()
      ensures Contents() == old(Contents()[..position] + [value] + Contents()[position..])
    {
      ShiftUp(position);
      ghost var moved := values[position + 1..count + 1];
      values[position] := value;
      count := count + 1;
      assert values[position + 1..count] == moved;
      assert values[..count] == values[..position] + [value] + values[position + 1..count];
    }

    method Locate(value: string) returns (position: nat)
      requires Valid()
      ensures position == Position(Contents(), value, 0)
    {
      position := 0;
      while position < count && Less(values[position], value)
        invariant 0 <= position <= count
        invariant Position(Contents(), value, position) == Position(Contents(), value, 0)
      {
        position := position + 1;
      }
    }

    method Grow()
      requires Valid() && count == values.Length
      modifies this`values
      ensures Valid() && count < values.Length && fresh(values)
      ensures Contents() == old(Contents())
    {
      var grown := new string[if values.Length == 0 then 32 else values.Length * 2];
      forall i | 0 <= i < count { grown[i] := values[i]; }
      assert grown[..count] == values[..count];
      values := grown;
    }

    /** memmove of the slots from position on. */
    method ShiftUp(position: nat)
      requires Valid() && position <= count < values.Length
      modifies values
      ensures values[..position] == old(values[..position])
      ensures values[position + 1..count + 1] == old(values[position..count])
    {
      var i := count;
      while i > position
        invariant position <= i <= count
        invariant values[..i] == old(values[..i])
        invariant values[i + 1..count + 1] == old(values[i..count])
      {
        values[i] := values[i - 1];
        assert values[i..count + 1] == [values[i]] + values[i + 1..count + 1];
        i := i - 1;
      }
    }
  }
}

/** Directory listings, case folding and path spelling: tools/case_insensitive_vfs/filesystem.c. */
module CiFilesystem {
  import opened Sequences
  import opened CText
  import opened Results
  import opened Sorting

  /** A name as the disk spells it, next to its folded form. */
  datatype CiEntry = CiEntry(name: string, folded: string)

  // ---- case folding

  function Fold(value: string): (r: string)
    ensures |r| == |value|
  {
    seq(|value|, i requires 0 <= i < |value| => ToLower(value[i]))
  }

  method FoldCase(value: string) returns (result: array<char>)
    ensures result.Length == |value| + 1 && result[..|value|] == Fold(value) && result[|value|] == '\0'
  {
    result := new char[|value| + 1];
    var index := 0;
    while index < |value|
      invariant 0 <= index <= |value|
      invariant result[..index] == Fold(value)[..index]
    {
      result[index] := ToLower(value[index]);
      index := index + 1;
    }
    result[|value|] := '\0';
  }

  lemma FoldIdempotent(value: string)
    ensures Fold(Fold(value)) == Fold(value)
  {
  }

  /** Folding never lowers a byte, so the lowercase spelling closes its class in strcmp order. */
  lemma {:induction false} FoldIsLast(value: string)
    ensures AtMost(value, Fold(value))
  {
    if value != [] {
      FoldIsLast(value[1..]);
      assert Fold(value)[1..] == Fold(value[1..]);
      assert value == [value[0]] + value[1..] && Fold(value) == [Fold(value)[0]] + Fold(value)[1..];
    }
  }

  // ---- sorted listings

  /** compare_entries(a, b) <= 0. */
  predicate EntryAtMost(a: CiEntry, b: CiEntry) {
    Less(a.folded, b.folded) || (a.folded == b.folded && AtMost(a.name, b.name))
  }

  lemma EntryOrderTotal()
    ensures TotalPreorder(EntryAtMost)
    ensures forall a, b | EntryAtMost(a, b) && EntryAtMost(b, a) :: a == b
  {
    forall a, b
      ensures EntryAtMost(a, b) || EntryAtMost(b, a)
      ensures EntryAtMost(a, b) && EntryAtMost(b, a) ==> a == b
    {
      LessTrichotomy(a.folded, b.folded);
      AtMostTotalOrder(a.name, b.name, b.name);
    }
    forall a, b, c | EntryAtMost(a, b) && EntryAtMost(b, c) ensures EntryAtMost(a, c) {
      AtMostTotalOrder(a.name, b.name, c.name);
      if Less(a.folded, b.folded) && Less(b.folded, c.folded) {
        LessTransitive(a.folded, b.folded, c.folded);
      }
    }
  }

  function EntryOf(name: string): CiEntry {
    CiEntry(name, Fold(name))
  }

  function EntriesOf(names: seq<string>): (r: seq<CiEntry>)
    ensures |r| == |names|
  {
    seq(|names|, i requires 0 <= i < |names| => EntryOf(names[i]))
  }

  /** The array as qsort leaves it, whatever order readdir used. */
  function Listing(names: seq<string>): seq<CiEntry> {
    Sort(EntryAtMost, EntriesOf(names))
  }

  /** The end of the fold class that starts at start, of which [start, end) is already known. */
  function ClassEnd(s: seq<CiEntry>, start: nat, end: nat): (r: nat)
    requires start < end <= |s|
    ensures end <= r <= |s|
    ensures forall k | end <= k < r :: s[k].folded == s[start].folded
    ensures r < |s| ==> s[r].folded != s[start].folded
    decreases |s| - end
  {
    if end < |s| && s[start].folded == s[end].folded then ClassEnd(s, start, end + 1) else end
  }

  /** The first entry of [lo, hi) whose spelling is all lowercase, or hi. */
  function FirstLower(s: seq<CiEntry>, lo: nat, hi: nat): (r: nat)
    requires lo <= hi <= |s|
    ensures lo <= r <= hi
    ensures forall k | lo <= k < r :: s[k].name != s[k].folded
    ensures r < hi ==> s[r].name == s[r].folded
    decreases hi - lo
  {
    if lo == hi || s[lo].name == s[lo].folded then lo else FirstLower(s, lo + 1, hi)
  }

  /** The first two spellings of the first class that has several but no lowercase one. */
  function Collision(s: seq<CiEntry>, start: nat): Option<(string, string)>
    requires start <= |s|
    decreases |s| - start
  {
    if start == |s| then None
    else
      var end := ClassEnd(s, start, start + 1);
      if end - start > 1 && FirstLower(s, start, end) == end
      then Some((s[start].name, s[start + 1].name))
      else Collision(s, end)
  }

  /** The slot collapse_sorted_entries keeps out of the class [lo, hi). */
  function Selected(s: seq<CiEntry>, lo: nat, hi: nat): (r: nat)
    requires lo < hi <= |s|
    ensures lo <= r < hi
  {
    var k := FirstLower(s, lo, hi);
    if k == hi then lo else k
  }

  /** One entry a fold class, from read on. */
  function Collapsed(s: seq<CiEntry>, read: nat): seq<CiEntry>
    requires read <= |s|
    decreases |s| - read
  {
    if read == |s| then []
    else
      var end := ClassEnd(s, read, read + 1);
      [s[Selected(s, read, end)]] + Collapsed(s, end)
  }

  // ---- what collapsing means, without the array

  /** Where several names share a folded form, one of them is that form. */
  ghost predicate Unambiguous(names: set<string>) {
    forall a, b | a in names && b in names && a != b && Fold(a) == Fold(b) :: Fold(a) in names
  }

  /** name stands for its fold class: it is the lowercase spelling, or the only one. */
  ghost predicate Preferred(names: set<string>, name: string) {
    && name in names
    && (name == Fold(name) || forall other | other in names && Fold(other) == Fold(name) :: other == name)
  }

  ghost predicate StrictlyFolded(s: seq<CiEntry>) {
    forall i, j | 0 <= i < j < |s| :: Less(s[i].folded, s[j].folded)
  }

  /** s lists the given names, each beside its folded form. */
  ghost predicate Lists(s: seq<CiEntry>, names: set<string>) {
    forall e :: e in s <==> e.name in names && e == EntryOf(e.name)
  }

  ghost predicate ProperListing(s: seq<CiEntry>, names: set<string>) {
    Sorted(EntryAtMost, s) && Distinct(s) && Lists(s, names)
  }

  lemma EntriesOfNames(names: seq<string>)
    requires Distinct(names)
    ensures Distinct(EntriesOf(names)) && Lists(EntriesOf(names), NameSet(names))
  {
    forall e: CiEntry | e.name in names && e == EntryOf(e.name) ensures e in EntriesOf(names) {
      var i :| 0 <= i < |names| && names[i] == e.name;
      assert EntriesOf(names)[i] == e;
    }
  }

  lemma ListingIsProper(names: seq<string>)
    requires Distinct(names)
    ensures ProperListing(Listing(names), NameSet(names))
  {
    EntryOrderTotal();
    EntriesOfNames(names);
    SortIsSort(EntryAtMost, EntriesOf(names));
    DistinctPermutation(EntriesOf(names), Listing(names));
  }

  /** Past the end of a class every folded form is larger. */
  lemma ClassEndLarger(s: seq<CiEntry>, start: nat, k: nat)
    requires start < |s| && Sorted(EntryAtMost, s)
    requires ClassEnd(s, start, start + 1) <= k < |s|
    ensures Less(s[start].folded, s[k].folded)
  {
    var end := ClassEnd(s, start, start + 1);
    assert EntryAtMost(s[start], s[end]);
    if k > end {
      assert EntryAtMost(s[end], s[k]);
      if s[end].folded != s[k].folded {
        LessTransitive(s[start].folded, s[end].folded, s[k].folded);
      }
    }
  }

  ghost predicate LowerFrom(s: seq<CiEntry>, lo: nat, folded: string) {
    exists k | lo <= k < |s| :: s[k].folded == folded && s[k].name == folded
  }

  /** In the sorted array the lowercase spelling, when there is one, is the last of its class. */
  lemma LowercaseClosesClass(s: seq<CiEntry>, names: set<string>, k: nat, j: nat)
    requires ProperListing(s, names) && k < |s| && j < |s|
    requires s[k].name == s[k].folded == s[j].folded
    ensures j <= k
  {
    if k < j {
      assert s[k] in s && s[j] in s;
      LessIrreflexive(s[k].folded);
      FoldIsLast(s[j].name);
      AtMostTotalOrder(s[k].name, s[j].name, s[k].name);
    }
  }

  /** The sorted scan reports a collision exactly when some class of several lacks its lowercase form. */
  lemma {:induction false} CollisionExact(s: seq<CiEntry>, start: nat)
    requires start <= |s| && Sorted(EntryAtMost, s)
    ensures Collision(s, start).None? <==>
      forall i, j | start <= i < j < |s| && s[i].folded == s[j].folded :: LowerFrom(s, start, s[i].folded)
    decreases |s| - start
  {
    if start < |s| {
      var end := ClassEnd(s, start, start + 1);
      forall k | end <= k < |s| ensures s[k].folded != s[start].folded {
        ClassEndLarger(s, start, k);
        LessIrreflexive(s[start].folded);
      }
      assert forall k | start <= k < end :: s[k].folded == s[start].folded;
      CollisionExact(s, end);
      var low := FirstLower(s, start, end);
      if end - start > 1 && low == end {
        assert s[start].folded == s[start + 1].folded;
        assert !LowerFrom(s, start, s[start].folded);
      } else {
        assert end - start > 1 ==> LowerFrom(s, start, s[start].folded);
        assert forall i | end <= i < |s| :: LowerFrom(s, start, s[i].folded) <==> LowerFrom(s, end, s[i].folded);
      }
    }
  }

  lemma {:induction false} CollapsedMembers(s: seq<CiEntry>, read: nat)
    requires read <= |s|
    ensures forall e | e in Collapsed(s, read) :: e in s[read..]
    decreases |s| - read
  {
    if read < |s| {
      CollapsedMembers(s, ClassEnd(s, read, read + 1));
    }
  }

  lemma {:induction false} CollapsedStrict(s: seq<CiEntry>, read: nat)
    requires read <= |s| && Sorted(EntryAtMost, s)
    ensures StrictlyFolded(Collapsed(s, read))
    decreases |s| - read
  {
    if read < |s| {
      var end := ClassEnd(s, read, read + 1);
      var tail := Collapsed(s, end);
      CollapsedStrict(s, end);
      CollapsedMembers(s, end);
      forall j | 0 <= j < |tail| ensures Less(s[read].folded, tail[j].folded) {
        assert tail[j] in s[end..];
        var k :| end <= k < |s| && s[k] == tail[j];
        ClassEndLarger(s, read, k);
      }
    }
  }

  /** Every fold class keeps a member, and it is the lowercase one when the class has it. */
  lemma {:induction false} CollapsedCovers(s: seq<CiEntry>, read: nat, k: nat) returns (e: CiEntry)
    requires read <= k < |s| && Sorted(EntryAtMost, s)
    ensures e in Collapsed(s, read) && e.folded == s[k].folded
    ensures s[k].name == s[k].folded ==> e.name == e.folded
    decreases |s| - read
  {
    var end := ClassEnd(s, read, read + 1);
    if k < end {
      e := s[Selected(s, read, end)];
    } else {
      e := CollapsedCovers(s, end, k);
    }
  }

  lemma StrictMeansUnique(s: seq<CiEntry>, a: CiEntry, b: CiEntry)
    requires StrictlyFolded(s) && a in s && b in s && a.folded == b.folded
    ensures a == b
  {
    var i :| 0 <= i < |s| && s[i] == a;
    var j :| 0 <= j < |s| && s[j] == b;
    LessIrreflexive(a.folded);
  }

  /** An entry survives the collapse exactly when its name stands for its fold class. */
  lemma KeptArePreferred(s: seq<CiEntry>, names: set<string>, e: CiEntry)
    requires ProperListing(s, names) && Unambiguous(names)
    ensures e in Collapsed(s, 0) <==> e == EntryOf(e.name) && Preferred(names, e.name)
  {
    CollapsedMembers(s, 0);
    CollapsedStrict(s, 0);
    if e in Collapsed(s, 0) {
      assert e in s;
      if other :| other in names && Fold(other) == Fold(e.name) && other != e.name {
        var low := EntryOf(Fold(e.name));
        FoldIdempotent(e.name);
        assert low in s;
        var k :| 0 <= k < |s| && s[k] == low;
        var kept := CollapsedCovers(s, 0, k);
        StrictMeansUnique(Collapsed(s, 0), kept, e);
      }
    }
    if e == EntryOf(e.name) && Preferred(names, e.name) {
      assert e in s;
      var k :| 0 <= k < |s| && s[k] == e;
      var kept := CollapsedCovers(s, 0, k);
      assert kept in s;
    }
  }

  lemma LowerIsListed(s: seq<CiEntry>, names: set<string>, folded: string)
    requires Lists(s, names)
    ensures LowerFrom(s, 0, folded) ==> folded in names
  {
    if LowerFrom(s, 0, folded) {
      var k :| 0 <= k < |s| && s[k].folded == folded && s[k].name == folded;
      assert s[k] in s;
    }
  }

  lemma CollisionMeansAmbiguous(s: seq<CiEntry>, names: set<string>)
    requires ProperListing(s, names)
    ensures Collision(s, 0).None? <==> Unambiguous(names)
  {
    CollisionExact(s, 0);
    if Unambiguous(names) {
      forall i, j | 0 <= i < j < |s| && s[i].folded == s[j].folded ensures LowerFrom(s, 0, s[i].folded) {
        assert s[i] in s && s[j] in s;
        FoldIdempotent(s[i].name);
        assert EntryOf(Fold(s[i].name)) in s;
      }
    } else {
      var a, b :| a in names && b in names && a != b && Fold(a) == Fold(b) && Fold(a) !in names;
      assert EntryOf(a) in s && EntryOf(b) in s;
      var i :| 0 <= i < |s| && s[i] == EntryOf(a);
      var j :| 0 <= j < |s| && s[j] == EntryOf(b);
      LowerIsListed(s, names, Fold(a));
      assert s[i].folded == s[j].folded;
    }
  }

  /** The scan objects exactly to ambiguous names; otherwise the collapsed listing is the strictly
      increasing list of exactly the preferred names. */
  lemma PreferredListing(names: seq<string>)
    requires Distinct(names)
    ensures Collision(Listing(names), 0).None? <==> Unambiguous(NameSet(names))
    ensures StrictlyFolded(Collapsed(Listing(names), 0))
    ensures Unambiguous(NameSet(names)) ==>
      forall e :: e in Collapsed(Listing(names), 0) <==> e == EntryOf(e.name) && Preferred(NameSet(names), e.name)
  {
    var s := Listing(names);
    ListingIsProper(names);
    CollisionMeansAmbiguous(s, NameSet(names));
    CollapsedStrict(s, 0);
    if Unambiguous(NameSet(names)) {
      forall e ensures e in Collapsed(s, 0) <==> e == EntryOf(e.name) && Preferred(NameSet(names), e.name) {
        KeptArePreferred(s, NameSet(names), e);
      }
    }
  }

  lemma CollapseStep(s: seq<CiEntry>, read: nat, end: nat, kept: seq<CiEntry>, freed: seq<CiEntry>,
                     released: seq<CiEntry>)
    requires read < |s| && end == ClassEnd(s, read, read + 1)
    requires kept + Collapsed(s, read) == Collapsed(s, 0)
    requires multiset(freed) + multiset(kept) == multiset(s[..read])
    requires multiset(released) + multiset{s[Selected(s, read, end)]} == multiset(s[read..end])
    ensures kept + [s[Selected(s, read, end)]] + Collapsed(s, end) == Collapsed(s, 0)
    ensures multiset(freed + released) + multiset(kept + [s[Selected(s, read, end)]]) == multiset(s[..end])
  {
    hide ClassEnd, Selected, Collapsed;
    var preferred := s[Selected(s, read, end)];
    CollapsedClass(s, read, end);
    Assoc(kept, [preferred], Collapsed(s, end));
    assert s[..end] == s[..read] + s[read..end];
    Conserved(freed, kept, s[..read], released, preferred, s[read..end]);
  }

  lemma CollapsedClass(s: seq<CiEntry>, read: nat, end: nat)
    requires read < |s| && end == ClassEnd(s, read, read + 1)
    ensures Collapsed(s, read) == [s[Selected(s, read, end)]] + Collapsed(s, end)
  {
  }

  lemma Conserved<T>(freed: seq<T>, kept: seq<T>, all: seq<T>, released: seq<T>, selected: T, class': seq<T>)
    requires multiset(freed) + multiset(kept) == multiset(all)
    requires multiset(released) + multiset{selected} == multiset(class')
    ensures multiset(freed + released) + multiset(kept + [selected]) == multiset(all + class')
  {
  }

  // ---- the entries array

  class DirectoryEntries {
    var values: array<CiEntry>
    var count: nat

    ghost predicate Valid()
      reads this
    {
      count <= values.Length
    }

    ghost function Contents(): seq<CiEntry>
      reads this, values
      requires Valid()
    {
      values[..count]
    }

    constructor ()
      ensures Valid() && Contents() == [] && fresh(values)
    {
      values := new CiEntry[0];
      count := 0;
    }

    method Append(name: string)
      requires Valid()
      modifies this, values
      ensures Valid() && (values == old(values) || fresh(values))
      ensures Contents() == old(Contents()) + [EntryOf(name)]
    {
      var buffer := FoldCase(name);
      var folded := buffer[..|name|];
      if count == values.Length {
        var grown := new CiEntry[if values.Length == 0 then 64 else values.Length * 2];
        var i := 0;
        while i < count
          invariant 0 <= i <= count <= values.Length < grown.Length
          invariant grown[..i] == values[..i]
          invariant values == old(values) && values[..count] == old(values[..count])
        {
          grown[i] := values[i];
          i := i + 1;
        }
        values := grown;
      }
      assert values[..count] == old(Contents());
      values[count] := CiEntry(name, folded);
      count := count + 1;
      assert values[..count] == values[..count - 1] + [EntryOf(name)];
    }

    method Validate() returns (collision: Option<(string, string)>)
      requires Valid()
      ensures collision == Collision(Contents(), 0)
    {
      ghost var s := Contents();
      var start := 0;
      while start < count
        invariant 0 <= start <= count
        invariant Collision(s, start) == Collision(s, 0)
      {
        var end := start + 1;
        while end < count && values[start].folded == values[end].folded
          invariant start < end <= count
          invariant ClassEnd(s, start, end) == ClassEnd(s, start, start + 1)
        {
          end := end + 1;
        }
        if end - start > 1 {
          var index := start;
          while index < end && values[index].name != values[index].folded
            invariant start <= index <= end
            invariant FirstLower(s, index, end) == FirstLower(s, start, end)
          {
            index := index + 1;
          }
          if index == end {
            return Some((values[start].name, values[start + 1].name));
          }
        }
        start := end;
      }
      collision := None;
    }

    /** The fold class at read and the slot that is kept from it. */
    method NextClass(read: nat, ghost s: seq<CiEntry>) returns (end: nat, selected: nat)
      requires Valid() && read < count == |s|
      requires forall k | read <= k < count :: values[k] == s[k]
      ensures end == ClassEnd(s, read, read + 1)
      ensures selected == Selected(s, read, end)
    {
      end, selected := read + 1, read;
      while end < count && values[read].folded == values[end].folded
        invariant read < end <= count
        invariant ClassEnd(s, read, end) == ClassEnd(s, read, read + 1)
      {
        end := end + 1;
      }
      var index := read;
      while index < end
        invariant read <= index <= end && selected == read
        invariant FirstLower(s, index, end) == FirstLower(s, read, end)
      {
        if values[index].name == values[index].folded {
          selected := index;
          break;
        }
        index := index + 1;
      }
    }

    /** Moves the kept entry of the class at read to slot write and releases the rest of the class. */
    method CollapseClass(read: nat, write: nat, ghost s: seq<CiEntry>) returns (end: nat, freed: seq<CiEntry>)
      requires Valid() && write <= read < count == |s| && values[read..count] == s[read..]
      modifies values
      ensures end == ClassEnd(s, read, read + 1)
      ensures values[..write + 1] == old(values[..write]) + [s[Selected(s, read, end)]]
      ensures values[end..count] == s[end..]
      ensures multiset(freed) + multiset{s[Selected(s, read, end)]} == multiset(s[read..end])
    {
      var selected;
      assert forall k | read <= k < count :: values[k] == values[read..count][k - read] == s[k];
      end, selected := NextClass(read, s);
      var preferred := values[selected];
      freed := Release(read, end, selected, s);
      values[write] := preferred;
    }

    /** Compaction in place.  freed logs the entries whose two strings were released, in order. */
    method Collapse() returns (freed: seq<CiEntry>)
      requires Valid()
      modifies this`count, values
      ensures Valid() && Contents() == Collapsed(old(Contents()), 0)
      ensures multiset(freed) + multiset(Contents()) == multiset(old(Contents()))
    {
      ghost var s := Contents();
      ghost var kept: seq<CiEntry> := [];
      var read, write := 0, 0;
      freed := [];
      while read < count
        invariant 0 <= write <= read <= count == |s| <= values.Length
        invariant values[read..count] == s[read..]
        invariant values[..write] == kept
        invariant kept + Collapsed(s, read) == Collapsed(s, 0)
        invariant multiset(freed) + multiset(kept) == multiset(s[..read])
      {
        var end, released := CollapseClass(read, write, s);
        CollapseStep(s, read, end, kept, freed, released);
        kept, freed, write, read := values[..write + 1], freed + released, write + 1, end;
      }
      count := write;
      assert s[..read] == s;
      assert kept == kept + Collapsed(s, read);
    }

    /** Releases the strings of a class, all but the selected entry's. */
    method Release(read: nat, end: nat, selected: nat, ghost s: seq<CiEntry>) returns (freed: seq<CiEntry>)
      requires read <= selected < end <= |s| <= values.Length
      requires forall k | read <= k < end :: values[k] == s[k]
      ensures multiset(freed) + multiset{s[selected]} == multiset(s[read..end])
    {
      hide Accounted;
      freed := [];
      var index := read;
      NothingSeen(s, read, s[selected]);
      while index < end
        invariant read <= index <= end
        invariant Accounted(freed, s[selected], index > selected, s[read..index])
      {
        OneMoreAccounted(freed, s, read, index, selected);
        if index != selected {
          freed := freed + [values[index]];
        }
        index := index + 1;
      }
      AllSeen(freed, s[selected], s[read..end]);
    }
  }

  lemma NothingSeen<T>(s: seq<T>, start: nat, selected: T)
    requires start <= |s|
    ensures Accounted([], selected, false, s[start..start])
  {
  }

  lemma AllSeen<T>(freed: seq<T>, selected: T, seen: seq<T>)
    requires Accounted(freed, selected, true, seen)
    ensures multiset(freed) + multiset{selected} == multiset(seen)
  {
  }

  /** The freed elements, and the selected one once it is passed, are those seen. */
  ghost predicate Accounted<T>(freed: seq<T>, selected: T, passed: bool, seen: seq<T>) {
    multiset(freed) + (if passed then multiset{selected} else multiset{}) == multiset(seen)
  }

  lemma OneMoreAccounted<T>(freed: seq<T>, s: seq<T>, start: nat, end: nat, selected: nat)
    requires start <= selected < |s| && start <= end < |s|
    requires Accounted(freed, s[selected], end > selected, s[start..end])
    ensures Accounted(if end == selected then freed else freed + [s[end]], s[selected], end + 1 > selected,
                      s[start..end + 1])
  {
    assert s[start..end + 1] == s[start..end] + [s[end]];
  }

  // ---- paths

  predicate IsSlash(c: char) {
    c == '/' || c == '\\'
  }

  function Join(left: string, right: string): string {
    if left != [] && !IsSlash(left[|left| - 1]) then left + "/" + right else left + right
  }

  method JoinPath(left: string, right: string) returns (result: string)
    ensures result == Join(left, right)
  {
    var separator := left != [] && !IsSlash(left[|left| - 1]);
    var size := |left| + (if separator then 1 else 0);
    var buffer := new char[size + |right| + 1];
    forall i | 0 <= i < |left| { buffer[i] := left[i]; }
    if separator {
      buffer[|left|] := '/';
    }
    forall i | 0 <= i < |right| { buffer[size + i] := right[i]; }
    buffer[size + |right|] := '\0';
    result := buffer[..size + |right|];
    assert result == buffer[..size] + buffer[size..size + |right|];
  }

  function Generic(path: string): (r: string)
    ensures |r| == |path|
  {
    seq(|path|, i requires 0 <= i < |path| => if path[i] == '\\' then '/' else path[i])
  }

  method GenericPath(path: string) returns (result: string)
    ensures result == Generic(path)
  {
    var buffer := new char[|path|](i requires 0 <= i < |path| => path[i]);
    var index := 0;
    while index < |path|
      invariant 0 <= index <= |path|
      invariant buffer[..index] == Generic(path)[..index] && buffer[index..] == path[index..]
    {
      if buffer[index] == '\\' {
        buffer[index] := '/';
      }
      index := index + 1;
    }
    result := buffer[..];
  }

  /** Joining commutes with respelling, so a generic path depends only on generic parts. */
  lemma GenericJoin(left: string, right: string)
    ensures Generic(Join(left, right)) == Join(Generic(left), Generic(right))
  {
    assert Generic("/") == "/";
    GenericConcat(left, right);
    GenericConcat(left + "/", right);
    GenericConcat(left, "/");
  }

  lemma GenericConcat(a: string, b: string)
    ensures Generic(a + b) == Generic(a) + Generic(b)
  {
  }

  // ---- JSON strings

  function HexDigit(n: nat): char
    requires n < 16
  {
    "0123456789abcdef"[n]
  }

  /** The two-character escapes. */
  function ShortEscape(c: char): string {
    match c
    case '"' => "\\\""
    case '\\' => "\\\\"
    case '\U{8}' => "\\b"
    case '\U{c}' => "\\f"
    case '\n' => "\\n"
    case '\r' => "\\r"
    case '\t' => "\\t"
    case _ => ""
  }

  function EscapeChar(c: char): string {
    if ShortEscape(c) != "" then ShortEscape(c)
    else if c < ' ' then ['\\', 'u', '0', '0', HexDigit(c as int / 16), HexDigit(c as int % 16)]
    else [c]
  }

  function Escape(value: string): string {
    if value == [] then [] else EscapeChar(value[0]) + Escape(value[1..])
  }

  function Quoted(value: string): string {
    "\"" + Escape(value) + "\""
  }

  lemma EscapeFrom(value: string, index: nat)
    requires index < |value|
    ensures Escape(value[index..]) == EscapeChar(value[index]) + Escape(value[index + 1..])
  {
    assert value[index..][1..] == value[index + 1..];
  }

  /** The buffer sized by the first pass: every control byte is charged six characters. */
  method EscapedSize(value: string) returns (size: nat)
    ensures size >= |Quoted(value)| + 1
  {
    size := 3;
    var index := 0;
    while index < |value|
      invariant 0 <= index <= |value|
      invariant size + |Escape(value[index..])| >= 3 + |Escape(value)|
    {
      EscapeFrom(value, index);
      var character := value[index];
      size := size + if character < ' ' then 6 else if character == '"' || character == '\\' then 2 else 1;
      index := index + 1;
    }
  }

  method WriteEscaped(result: array<char>, start: nat, character: char) returns (offset: nat)
    requires start + |EscapeChar(character)| <= result.Length
    modifies result
    ensures offset == start + |EscapeChar(character)|
    ensures result[..offset] == old(result[..start]) + EscapeChar(character)
  {
    offset := start;
    var escape := ShortEscape(character);
    if escape != "" {
      result[offset] := escape[0];
      result[offset + 1] := escape[1];
      offset := offset + 2;
    } else if character < ' ' {
      result[offset] := '\\';
      result[offset + 1] := 'u';
      result[offset + 2] := '0';
      result[offset + 3] := '0';
      result[offset + 4] := HexDigit(character as int / 16);
      result[offset + 5] := HexDigit(character as int % 16);
      offset := offset + 6;
    } else {
      result[offset] := character;
      offset := offset + 1;
    }
  }

  /** The second pass never leaves the buffer the first pass sized. */
  method JsonString(value: string) returns (result: array<char>, offset: nat)
    ensures fresh(result) && offset < result.Length
    ensures result[..offset] == Quoted(value) && result[offset] == '\0'
  {
    var size := EscapedSize(value);
    result := new char[size];
    result[0] := '"';
    offset := WriteBody(result, value);
    result[offset] := '"';
    offset := offset + 1;
    result[offset] := '\0';
  }

  method WriteBody(result: array<char>, value: string) returns (offset: nat)
    requires 1 + |Escape(value)| <= result.Length && result[0] == '"'
    modifies result
    ensures offset == 1 + |Escape(value)|
    ensures result[..offset] == "\"" + Escape(value)
  {
    offset := 1;
    var index := 0;
    while index < |value|
      invariant 0 <= index <= |value|
      invariant offset + |Escape(value[index..])| == 1 + |Escape(value)|
      invariant result[..offset] + Escape(value[index..]) == "\"" + Escape(value)
    {
      ghost var done := result[..offset];
      EscapeFrom(value, index);
      offset := WriteEscaped(result, offset, value[index]);
      Assoc(done, EscapeChar(value[index]), Escape(value[index + 1..]));
      index := index + 1;
    }
    assert result[..offset] + "" == result[..offset];
  }
}

/** The path map of src/fcntl.c: POSIX directories mapped to Windows ones, kept longest first in a
    fixed table, and the translation of a path by its first hit. */
module PathMap {
  import opened Options

  const CAPACITY: nat := 20
  const MAX_PATH: nat := 260
  const PATH_MAX: nat := 260

  datatype Entry = Entry(dir: string, dest: string, len: nat)

  /** A call of wpdk_add_mapping. */
  datatype Request = Request(dir: string, dest: Option<string>, prefix: bool)

  /** What wpdk_get_path returns: NULL, the pointer it was given, the caller's buffer, or a pointer to
      the local buffer of wpdk_remap_root_file, which is gone when that has returned. Overrun says that
      it reads past the end of the path; what it then returns is not known. */
  datatype Answer = Null | Itself | Buffer(text: string) | LocalBuffer(text: string) | Overrun

  // ----- directories -----

  predicate DoubleAt(s: string, i: nat) { i + 1 < |s| && s[i] == '/' && s[i + 1] == '/' }

  /** No "//" in it, and not "/". */
  ghost predicate Normal(dir: string) {
    dir != "/" && forall i: nat :: !DoubleAt(dir, i)
  }

  /** Every run of slashes made one. */
  function Squeezed(s: string): string {
    if s == [] then [] else if DoubleAt(s, 0) then Squeezed(s[1..]) else [s[0]] + Squeezed(s[1..])
  }

  /** The directory as it is kept. */
  function Stored(dir: string): string {
    if Squeezed(dir) == "/" then "" else Squeezed(dir)
  }

  lemma {:induction false} SqueezedShape(s: string)
    ensures |Squeezed(s)| <= |s| && (|Squeezed(s)| == |s| ==> Squeezed(s) == s)
    ensures (s == [] <==> Squeezed(s) == []) && (s != [] ==> Squeezed(s)[0] == s[0])
    ensures forall i: nat :: !DoubleAt(Squeezed(s), i)
    ensures Squeezed(s) == s <==> forall i: nat :: !DoubleAt(s, i)
  {
    if s == [] {
    } else {
      SqueezedShape(s[1..]);
      var q := Squeezed(s[1..]);
      if DoubleAt(s, 0) {
        assert Squeezed(s) == q;
      } else {
        assert forall i: nat :: DoubleAt(s, i + 1) <==> DoubleAt(s[1..], i);
        assert forall i: nat :: i > 0 && DoubleAt(s, i) ==> DoubleAt(s[1..], i - 1);
        assert forall i: nat :: i > 0 && DoubleAt([s[0]] + q, i) ==> DoubleAt(q, i - 1);
        assert s == [s[0]] + s[1..];
      }
    }
  }

  /** The directory kept is the one given, and has its length, exactly if that was normal. */
  lemma StoredIff(dir: string)
    ensures Stored(dir) == dir <==> Normal(dir)
    ensures |Stored(dir)| == |dir| <==> Normal(dir)
    ensures |Stored(dir)| <= |dir| && Normal(Stored(dir))
  {
    SqueezedShape(dir);
  }

  /** Up to the first double slash nothing is squeezed. */
  lemma {:induction false} SqueezedFrom(s: string, i: nat)
    requires i <= |s| && forall k: nat :: k < i ==> !DoubleAt(s, k)
    ensures Squeezed(s) == s[..i] + Squeezed(s[i..])
  {
    if i == 0 {
      assert s[0..] == s;
      return;
    }
    var t := s[1..];
    assert forall k: nat :: DoubleAt(t, k) ==> DoubleAt(s, k + 1);
    SqueezedFrom(t, i - 1);
    assert !DoubleAt(s, 0);
    assert Squeezed(s) == [s[0]] + Squeezed(t);
    hide Squeezed;
    assert t[i - 1..] == s[i..] && [s[0]] + t[..i - 1] == s[..i];
  }

  /** strstr(s + from, "//") */
  method FindDouble(s: string, from: nat) returns (i: nat)
    requires from <= |s|
    ensures from <= i <= |s| && (i < |s| ==> DoubleAt(s, i))
    ensures forall k: nat :: from <= k < i ==> !DoubleAt(s, k)
  {
    i := from;
    while i < |s| && !DoubleAt(s, i)
      invariant from <= i <= |s| && forall k: nat :: from <= k < i ==> !DoubleAt(s, k)
      decreases |s| - i
    {
      i := i + 1;
    }
  }

  /** The loop that removes duplicated slashes, resuming each search where the last one stopped. */
  method Squeeze(dir: string) returns (s: string)
    ensures s == Squeezed(dir)
  {
    s := dir;
    var i := FindDouble(s, 0);
    while i < |s|
      invariant i <= |s| && (i < |s| ==> DoubleAt(s, i))
      invariant forall k: nat :: k < i ==> !DoubleAt(s, k)
      invariant Squeezed(s) == Squeezed(dir)
      decreases |s|
    {
      var t := s[..i] + s[i + 1..];
      assert t[i..] == s[i + 1..] == s[i..][1..] && t[..i] == s[..i];
      assert forall k: nat :: k < i && DoubleAt(t, k) ==> DoubleAt(s, k);
      SqueezedFrom(s, i);
      SqueezedFrom(t, i);
      s := t;
      i := FindDouble(s, i);
    }
    SqueezedShape(s);
  }

  // ----- adding a mapping -----

  /** The destination, if strcpy_s and strcat_s can build it. */
  function Target(r: Request): Option<string> {
    if r.dest == None || |r.dest.value| >= MAX_PATH then None
    else if !r.prefix then r.dest
    else if |r.dest.value| + |r.dir| < MAX_PATH then Some(r.dest.value + r.dir)
    else None
  }

  /** The destination can be built and accessed. */
  predicate Usable(r: Request, access: string -> bool) {
    Target(r).Some? && access(Target(r).value)
  }

  predicate HasDir(table: seq<Entry>, dir: string) {
    exists i :: 0 <= i < |table| && table[i].dir == dir
  }

  /** The first entry that is shorter than n, or the end. */
  function Position(table: seq<Entry>, n: nat): (i: nat)
    ensures i <= |table| && (i < |table| ==> |table[i].dir| < n)
    ensures forall k :: 0 <= k < i ==> |table[k].dir| >= n
  {
    if table == [] || |table[0].dir| < n then 0 else 1 + Position(table[1..], n)
  }

  function Placed(table: seq<Entry>, e: Entry): seq<Entry> {
    var i := Position(table, |e.dir|);
    table[..i] + [e] + table[i..]
  }

  /** The entry for a request: the directory as it is kept, with the length of the one given. */
  function EntryOf(r: Request): Entry
    requires Target(r).Some?
  {
    Entry(Stored(r.dir), Target(r).value, |r.dir|)
  }

  /** The request adds an entry: there is room, and no entry has the directory as given. */
  predicate Adds(table: seq<Entry>, r: Request, access: string -> bool) {
    |table| < CAPACITY && !HasDir(table, r.dir) && Usable(r, access)
  }

  /** The table after wpdk_add_mapping. */
  function AddTo(table: seq<Entry>, r: Request, access: string -> bool): seq<Entry> {
    if Adds(table, r, access) then Placed(table, EntryOf(r)) else table
  }

  ghost predicate Sorted(table: seq<Entry>) {
    forall i, j :: 0 <= i < j < |table| ==> |table[i].dir| >= |table[j].dir|
  }

  ghost predicate Distinct(table: seq<Entry>) {
    forall i, j :: 0 <= i < j < |table| ==> table[i].dir != table[j].dir
  }

  /** Each length is that of the directory. */
  ghost predicate Exact(table: seq<Entry>) {
    forall i :: 0 <= i < |table| ==> table[i].len == |table[i].dir|
  }

  /** No length is less than that of the directory. */
  ghost predicate Kept(table: seq<Entry>) {
    forall i :: 0 <= i < |table| ==> |table[i].dir| <= table[i].len
  }

  ghost predicate Valid(table: seq<Entry>) { Sorted(table) && Distinct(table) && Exact(table) }

  lemma PlacedIs(table: seq<Entry>, e: Entry)
    ensures var i := Position(table, |e.dir|); Placed(table, e) == table[..i] + [e] + table[i..]
  {
  }

  lemma PlacedSorted(table: seq<Entry>, e: Entry)
    requires Sorted(table)
    ensures Sorted(Placed(table, e))
  {
  }

  lemma PlacedExact(table: seq<Entry>, e: Entry)
    ensures Exact(Placed(table, e)) <==> Exact(table) && e.len == |e.dir|
  {
    var i, t := Position(table, |e.dir|), Placed(table, e);
    if Exact(t) {
      assert t[i] == e;
      forall k | 0 <= k < |table| ensures table[k].len == |table[k].dir| {
        assert table[k] == if k < i then t[k] else t[k + 1];
      }
    }
  }

  /** The entry is where it was placed, and the others are where they were or one place up. */
  lemma PlacedMembers(table: seq<Entry>, e: Entry)
    ensures forall x :: x in Placed(table, e) <==> x == e || x in table
    ensures |Placed(table, e)| == |table| + 1
  {
    var i := Position(table, |e.dir|);
    assert table == table[..i] + table[i..];
  }

  /** What is at index k after one was placed. */
  lemma PlacedEntry(table: seq<Entry>, e: Entry, k: nat)
    requires k <= |table|
    ensures var t, i := Placed(table, e), Position(table, |e.dir|);
      |t| == |table| + 1 && t[k] == if k < i then table[k] else if k == i then e else table[k - 1]
  {
  }

  /** Where entry k is after one was placed at i. */
  function Up(k: nat, i: nat): nat { if k < i then k else k + 1 }

  lemma DistinctBefore(table: seq<Entry>, e: Entry)
    requires Distinct(Placed(table, e))
    ensures Distinct(table)
  {
    var i, t := Position(table, |e.dir|), Placed(table, e);
    hide Placed, Position;
    forall k, l | 0 <= k < l < |table| ensures table[k].dir != table[l].dir {
      PlacedEntry(table, e, Up(k, i));
      PlacedEntry(table, e, Up(l, i));
      assert t[Up(k, i)].dir != t[Up(l, i)].dir;
    }
  }

  lemma AbsentBefore(table: seq<Entry>, e: Entry)
    requires Distinct(Placed(table, e))
    ensures !HasDir(table, e.dir)
  {
    var i, t := Position(table, |e.dir|), Placed(table, e);
    hide Placed, Position;
    PlacedEntry(table, e, i);
    forall k | 0 <= k < |table| ensures table[k].dir != e.dir {
      PlacedEntry(table, e, Up(k, i));
      assert t[Up(k, i)].dir != t[i].dir;
    }
  }

  lemma DistinctAfter(table: seq<Entry>, e: Entry)
    requires Distinct(table) && !HasDir(table, e.dir)
    ensures Distinct(Placed(table, e))
  {
    var i, t := Position(table, |e.dir|), Placed(table, e);
    PlacedMembers(table, e);
    hide Placed, Position;
    forall k, l | 0 <= k < l < |t| ensures t[k].dir != t[l].dir {
      PlacedEntry(table, e, k);
      PlacedEntry(table, e, l);
    }
  }

  lemma PlacedDistinct(table: seq<Entry>, e: Entry)
    ensures Distinct(Placed(table, e)) <==> Distinct(table) && !HasDir(table, e.dir)
  {
    hide *;
    if Distinct(Placed(table, e)) {
      DistinctBefore(table, e);
      AbsentBefore(table, e);
    }
    if Distinct(table) && !HasDir(table, e.dir) { DistinctAfter(table, e); }
  }

  /** The table stays sorted whatever is added, and a valid one stays valid exactly if what was
      added has a normal directory. */
  lemma AddKeeps(table: seq<Entry>, r: Request, access: string -> bool)
    requires Sorted(table) && |table| <= CAPACITY
    ensures Sorted(AddTo(table, r, access)) && |AddTo(table, r, access)| <= CAPACITY
    ensures Kept(table) ==> Kept(AddTo(table, r, access))
    ensures Valid(table) ==> (Valid(AddTo(table, r, access)) <==> AddTo(table, r, access) == table || Normal(r.dir))
  {
    if Adds(table, r, access) {
      var e := EntryOf(r);
      StoredIff(r.dir);
      PlacedSorted(table, e);
      PlacedExact(table, e);
      PlacedDistinct(table, e);
      PlacedMembers(table, e);
    }
  }

  /** A table without duplicates gets one exactly if something is added and the directory as it is kept
      was in it: the source looks for the directory as given. */
  lemma AddDistinct(table: seq<Entry>, r: Request, access: string -> bool)
    requires Distinct(table)
    ensures Distinct(AddTo(table, r, access)) <==> AddTo(table, r, access) == table || !HasDir(table, Stored(r.dir))
  {
    if Adds(table, r, access) {
      PlacedDistinct(table, EntryOf(r));
      PlacedMembers(table, EntryOf(r));
    }
  }

  class Store {
    const entries: array<Entry>
    var count: nat

    ghost predicate Ok()
      reads this, entries
    {
      entries.Length == CAPACITY && count <= CAPACITY && Sorted(entries[..count])
    }

    constructor (blank: Entry)
      ensures Ok() && fresh(entries) && entries[..count] == []
    {
      entries := new Entry[CAPACITY](_ => blank);
      count := 0;
    }

    /** The comparison with every directory in the table. */
    method Present(dir: string) returns (found: bool)
      requires Ok()
      ensures found <==> HasDir(entries[..count], dir)
    {
      var i := 0;
      while i < count
        invariant i <= count && forall k :: 0 <= k < i ==> entries[k].dir != dir
      {
        if entries[i].dir == dir {
          assert entries[..count][i].dir == dir;
          return true;
        }
        i := i + 1;
      }
      return false;
    }

    /** The search for the first shorter entry. */
    method Place(n: nat) returns (i: nat)
      requires Ok()
      ensures i == Position(entries[..count], n)
    {
      i := 0;
      while i < count && |entries[i].dir| >= n
        invariant i <= count && forall k :: 0 <= k < i ==> |entries[k].dir| >= n
        decreases count - i
      {
        i := i + 1;
      }
      ghost var table, p := entries[..count], Position(entries[..count], n);
      assert i < count ==> |table[i].dir| < n;
      assert p < count ==> |table[p].dir| < n;
    }

    /** The memmove: entries from i on, one place up. */
    method ShiftUp(i: nat)
      requires i <= count < entries.Length
      modifies entries
      ensures entries[..i] == old(entries[..i]) && entries[i + 1..count + 1] == old(entries[i..count])
    {
      var j := count;
      while j > i
        invariant i <= j <= count
        invariant forall k :: 0 <= k < j ==> entries[k] == old(entries[k])
        invariant forall k :: j < k <= count ==> entries[k] == old(entries[k - 1])
      {
        entries[j] := entries[j - 1];
        j := j - 1;
      }
      forall k | i <= k < count ensures entries[k + 1] == old(entries[k]) {
        assert entries[k + 1] == old(entries[k + 1 - 1]);
      }
    }

    /** The insertion, longest first. */
    method Insert(e: Entry)
      requires Ok() && count < CAPACITY
      modifies this, entries
      ensures Ok() && entries[..count] == Placed(old(entries[..count]), e)
    {
      ghost var table := entries[..count];
      PlacedSorted(table, e);
      hide Sorted, Position, Placed;
      var i := Place(|e.dir|);
      ShiftUp(i);
      entries[i] := e;
      count := count + 1;
      assert entries[..i] == table[..i] && entries[i + 1..count] == table[i..];
      assert entries[..count] == entries[..i] + [e] + entries[i + 1..count];
      PlacedIs(table, e);
    }

    /** wpdk_add_mapping; access is what _access finds, memory whether strdup succeeds. */
    method Add(r: Request, access: string -> bool, memory: bool)
      requires Ok()
      modifies this, entries
      ensures Ok()
      ensures entries[..count] == if memory then AddTo(old(entries[..count]), r, access) else old(entries[..count])
    {
      if r.dest == None || count >= entries.Length {
        return;
      }
      var found := Present(r.dir);
      if found || !memory || Target(r) == None || !access(Target(r).value) {
        return;
      }
      hide Sorted, Squeezed, Placed, HasDir;
      var from := Squeeze(r.dir);
      if from == "/" {
        from := "";
      }
      Insert(Entry(from, Target(r).value, |r.dir|));
    }

    /** The loop of wpdk_get_path. */
    method Find(path: string) returns (i: nat)
      requires Ok()
      ensures i == FirstDecision(entries[..count], path)
    {
      i := 0;
      ghost var table := entries[..count];
      while i < count && !Decides(path, entries[i])
        invariant i <= count && forall k :: 0 <= k < i ==> !Decides(path, table[k])
        decreases count - i
      {
        i := i + 1;
      }
      ghost var p := FirstDecision(table, path);
      assert (i < count ==> Decides(path, table[i])) && (p < count ==> Decides(path, table[p]));
    }

    /** wpdk_get_path, with the size of the caller's buffer. */
    method GetPath(path: Option<string>, size: nat) returns (r: Answer)
      requires Ok()
      ensures r == Translated(entries[..count], path, size)
      decreases if path.Some? && RootFile(path.value) then 1 else 0, 1
    {
      if path == None || path.value == "" {
        return Itself;
      }
      if |path.value| >= PATH_MAX {
        return Null;
      }
      if RootFile(path.value) {
        r := RemapRootFile(path.value, size);
        return;
      }
      var i := Find(path.value);
      if i < count {
        var e := entries[i];
        if e.len > |path.value| {
          return Overrun;
        }
        var rest := path.value[e.len..];
        return if |e.dest| < size && |e.dest| + |rest| < size then Buffer(e.dest + rest) else Null;
      }
      return Itself;
    }

    /** wpdk_remap_root_file: the path it builds is not a root file, so it is not remapped again. */
    method RemapRootFile(path: string, size: nat) returns (r: Answer)
      requires Ok() && RootFile(path)
      ensures r == Translated(entries[..count], Some(path), size)
      decreases 1, 0
    {
      if 4 + |path| < MAX_PATH {
        NotRootFile(path);
        r := GetPath(Some("/tmp" + path), size);
        if r == Itself {
          r := LocalBuffer("/tmp" + path);
        }
      } else {
        r := Null;
      }
    }
  }

  // ----- translating a path -----

  /** strncmp finds the first n characters equal. */
  predicate SameStart(a: string, b: string, n: nat) {
    (if n < |a| then a[..n] else a) == (if n < |b| then b[..n] else b)
  }

  predicate Hit(path: string, e: Entry) {
    SameStart(path, e.dir, e.len) && e.len < |path| && path[e.len] == '/'
  }

  /** strncmp finds them equal, terminators included, and the character looked at next is past the end
      of the path. */
  predicate Overruns(path: string, e: Entry) {
    SameStart(path, e.dir, e.len) && e.len > |path|
  }

  predicate Decides(path: string, e: Entry) { Hit(path, e) || Overruns(path, e) }

  function FirstDecision(table: seq<Entry>, path: string): (i: nat)
    ensures i <= |table| && (i < |table| ==> Decides(path, table[i]))
    ensures forall k :: 0 <= k < i ==> !Decides(path, table[k])
  {
    if table == [] || Decides(path, table[0]) then 0 else 1 + FirstDecision(table[1..], path)
  }

  /** Its only slash is the first character, and something follows. */
  predicate RootFile(path: string) {
    |path| > 1 && path[0] == '/' && forall i :: 0 < i < |path| ==> path[i] != '/'
  }

  lemma NotRootFile(path: string)
    requires RootFile(path)
    ensures !RootFile("/tmp" + path)
  {
    assert ("/tmp" + path)[4] == '/';
  }

  function Lookup(table: seq<Entry>, path: string, size: nat): Answer {
    var i := FirstDecision(table, path);
    if i == |table| then Itself
    else if table[i].len > |path| then Overrun
    else
      var text := table[i].dest + path[table[i].len..];
      if |text| < size then Buffer(text) else Null
  }

  function Translated(table: seq<Entry>, path: Option<string>, size: nat): Answer {
    if path == None || path.value == "" then Itself
    else if |path.value| >= PATH_MAX then Null
    else if !RootFile(path.value) then Lookup(table, path.value, size)
    else if 4 + |path.value| >= MAX_PATH then Null
    else
      var r := Lookup(table, "/tmp" + path.value, size);
      if r == Itself then LocalBuffer("/tmp" + path.value) else r
  }

  /** The path that the table is searched for, if it is. */
  function Sought(path: string): string {
    if RootFile(path) then "/tmp" + path else path
  }

  predicate Searched(path: Option<string>) {
    path.Some? && path.value != "" && |path.value| < PATH_MAX && (RootFile(path.value) ==> 4 + |path.value| < MAX_PATH)
  }

  lemma TranslatedBy(table: seq<Entry>, path: Option<string>, size: nat)
    ensures Searched(path) ==>
      var r := Lookup(table, Sought(path.value), size);
      Translated(table, path, size) ==
        if RootFile(path.value) && r == Itself then LocalBuffer(Sought(path.value)) else r
    ensures !Searched(path) ==> Translated(table, path, size) in {Itself, Null}
    ensures Searched(path) ==> 0 < |Sought(path.value)| < PATH_MAX
  {
  }

  // ----- what an entry decides -----

  /** An entry hits the paths below its directory if its length is that of the directory, and no path
      otherwise; then the code looks past the end of the directory itself. */
  lemma DecidesIff(path: string, e: Entry)
    requires |e.dir| <= e.len
    ensures Hit(path, e) <==> e.len == |e.dir| && Above(e.dir, path)
    ensures Overruns(path, e) <==> e.len > |e.dir| && path == e.dir
  {
    if e.len > |e.dir| && |path| > e.len { assert |path[..e.len]| == e.len; }
  }

  /** A mapping can be used for some path exactly if its directory was normal, and short enough for a
      path below it: the length kept is that of the directory as given, and then strncmp also compares
      the terminator. */
  lemma UsedIffNormal(dir: string, dest: string)
    ensures (exists path :: Hit(path, Entry(Stored(dir), dest, |dir|))) <==> Normal(dir)
    ensures (exists path, size: nat :: Translated([Entry(Stored(dir), dest, |dir|)], Some(path), size).Buffer?) <==>
      Normal(dir) && |dir| + 1 < PATH_MAX
  {
    StoredIff(dir);
    var e := Entry(Stored(dir), dest, |dir|);
    if Normal(dir) {
      var p := dir + "/";
      assert Hit(p, e);
      assert p[|dir|] == '/';
      if |dir| + 1 < PATH_MAX {
        assert Decides(p, [e][0]);
        assert Translated([e], Some(p), |dest| + 2).Buffer?;
      }
    }
    forall path, size: nat | Translated([e], Some(path), size).Buffer? ensures Normal(dir) && |dir| + 1 < PATH_MAX {
      TranslatedBy([e], Some(path), size);
      DecidesIff(Sought(path), e);
    }
  }

  /** An entry has the path as its directory, with a greater length. */
  predicate Overlong(table: seq<Entry>, path: string) {
    exists i :: 0 <= i < |table| && table[i].dir == path && table[i].len > |path|
  }

  /** The search looks past the end of the path exactly if there is such an entry: what comes before it
      is at least as long as the path, and hits nothing. */
  lemma LookupOverruns(table: seq<Entry>, path: string, size: nat)
    requires Sorted(table) && Kept(table)
    ensures Lookup(table, path, size) == Overrun <==> Overlong(table, path)
  {
    var i := FirstDecision(table, path);
    forall k | 0 <= k < |table|
      ensures Hit(path, table[k]) ==> |table[k].dir| < |path|
      ensures Overruns(path, table[k]) <==> table[k].dir == path && table[k].len > |path|
    {
      DecidesIff(path, table[k]);
    }
    if Overlong(table, path) {
      var k :| 0 <= k < |table| && table[k].dir == path && table[k].len > |path|;
      assert Decides(path, table[k]);
    }
  }

  /** So does the whole call exactly if it searches the table at all, and there is such an entry for the
      path it looks for, which is not that of a root file. */
  lemma OverrunIff(table: seq<Entry>, path: Option<string>, size: nat)
    requires Sorted(table) && Kept(table)
    ensures Translated(table, path, size) == Overrun <==> Searched(path) && Overlong(table, Sought(path.value))
  {
    TranslatedBy(table, path, size);
    if Searched(path) { LookupOverruns(table, Sought(path.value), size); }
  }

  /** No entry hits the path or makes the code look past its end. */
  ghost predicate Undecided(table: seq<Entry>, path: string) {
    && !Overlong(table, path)
    && forall i :: 0 <= i < |table| && table[i].len == |table[i].dir| ==> !Above(table[i].dir, path)
  }

  /** The pointer that is returned is to a buffer that is gone exactly if the path is a root file that
      is short enough to be remapped, and nothing in the table concerns the remapped path. */
  lemma LocalBufferIff(table: seq<Entry>, path: Option<string>, size: nat)
    requires Kept(table)
    ensures Translated(table, path, size).LocalBuffer? <==>
      Searched(path) && RootFile(path.value) && Undecided(table, Sought(path.value))
  {
    TranslatedBy(table, path, size);
    if Searched(path) {
      var p := Sought(path.value);
      forall k | 0 <= k < |table|
        ensures Decides(p, table[k]) <==>
          if table[k].len == |table[k].dir| then Above(table[k].dir, p) else table[k].dir == p
      {
        DecidesIff(p, table[k]);
      }
    }
  }

  // ----- the longest mapped directory -----

  /** The directory is the path up to one of its slashes. */
  predicate Above(dir: string, path: string) {
    |dir| < |path| && path[..|dir|] == dir && path[|dir|] == '/'
  }

  /** An entry has the directory, and its length. */
  predicate HasExact(table: seq<Entry>, dir: string) {
    exists e :: e in table && e.dir == dir && e.len == |dir|
  }

  /** The mappings that can be used. */
  ghost predicate Represents(table: seq<Entry>, m: map<string, string>) {
    && (forall e :: e in table && e.len == |e.dir| ==> e.dir in m && m[e.dir] == e.dest)
    && (forall d :: d in m ==> HasExact(table, d))
  }

  ghost predicate Longest(m: map<string, string>, path: string, dir: string) {
    dir in m && Above(dir, path) && forall d :: d in m && Above(d, path) ==> |d| <= |dir|
  }

  /** The answer by the longest mapped directory above the path. */
  ghost predicate ByLongest(m: map<string, string>, path: string, size: nat, r: Answer) {
    if exists dir :: Longest(m, path, dir) then
      exists dir :: Longest(m, path, dir) && r == ByDir(m, path, size, dir)
    else r == Itself && forall d :: d in m ==> !Above(d, path)
  }

  ghost function ByDir(m: map<string, string>, path: string, size: nat, dir: string): Answer
    requires dir in m && Above(dir, path)
  {
    var text := m[dir] + path[|dir|..];
    if |text| < size then Buffer(text) else Null
  }

  /** The first decision is by the longest usable mapping above the path, unless the code looks past the
      end of the path. */
  lemma LookupIsLongest(table: seq<Entry>, m: map<string, string>, path: string, size: nat)
    requires Sorted(table) && Kept(table) && Represents(table, m)
    ensures if Overlong(table, path) then Lookup(table, path, size) == Overrun
            else ByLongest(m, path, size, Lookup(table, path, size))
  {
    LookupOverruns(table, path, size);
    if !Overlong(table, path) {
      var i := FirstDecision(table, path);
      forall d | d in m && Above(d, path) ensures i < |table| && |d| <= |table[i].dir| {
        ShortMapped(table, m, path, d);
      }
      if i < |table| {
        DecidesIff(path, table[i]);
        assert table[i] in table;
        hide Above;
        assert Longest(m, path, table[i].dir);
      }
    }
  }

  /** The first decision is at least as long as any mapping above the path. */
  lemma ShortMapped(table: seq<Entry>, m: map<string, string>, path: string, d: string)
    requires Sorted(table) && Kept(table) && Represents(table, m) && d in m && Above(d, path)
    ensures var i := FirstDecision(table, path); i < |table| && |d| <= |table[i].dir|
  {
    var e :| e in table && e.dir == d && e.len == |d|;
    var k :| 0 <= k < |table| && table[k] == e;
    DecidesIff(path, table[k]);
    assert Decides(path, table[k]);
  }

  lemma LongestUnique(m: map<string, string>, path: string, d: string, e: string)
    requires Longest(m, path, d) && Longest(m, path, e)
    ensures d == e
  {
    assert d == path[..|d|] && e == path[..|e|];
  }

  /** Two valid tables with the same mappings answer every path alike. */
  lemma SameLookup(t: seq<Entry>, u: seq<Entry>, m: map<string, string>, path: string, size: nat)
    requires Valid(t) && Represents(t, m) && Valid(u) && Represents(u, m)
    ensures Lookup(t, path, size) == Lookup(u, path, size)
  {
    LookupIsLongest(t, m, path, size);
    LookupIsLongest(u, m, path, size);
    if exists dir :: Longest(m, path, dir) {
      var d :| Longest(m, path, d) && Lookup(t, path, size) == ByDir(m, path, size, d);
      var e :| Longest(m, path, e) && Lookup(u, path, size) == ByDir(m, path, size, e);
      LongestUnique(m, path, d, e);
    }
  }

  // ----- any sequence of requests -----

  function AddAll(rs: seq<Request>, access: string -> bool): seq<Entry> {
    if rs == [] then [] else AddTo(AddAll(rs[..|rs| - 1], access), rs[|rs| - 1], access)
  }

  /** How many of the requests can be honoured. */
  function Honoured(rs: seq<Request>, access: string -> bool): nat {
    if rs == [] then 0 else Honoured(rs[..|rs| - 1], access) + if Usable(rs[|rs| - 1], access) then 1 else 0
  }

  /** Every table that requests build is sorted and within capacity. */
  lemma {:induction false} AddAllSorted(rs: seq<Request>, access: string -> bool)
    ensures Sorted(AddAll(rs, access)) && Kept(AddAll(rs, access)) && |AddAll(rs, access)| <= CAPACITY
  {
    if rs == [] {
    } else {
      AddAllSorted(rs[..|rs| - 1], access);
      AddKeeps(AddAll(rs[..|rs| - 1], access), rs[|rs| - 1], access);
    }
  }

  /** Request k adds an entry. */
  predicate Entered(rs: seq<Request>, access: string -> bool, k: int) {
    0 <= k < |rs| && Adds(AddAll(rs[..k], access), rs[k], access)
  }

  lemma EnteredBefore(rs: seq<Request>, access: string -> bool, k: int)
    requires rs != [] && k < |rs| - 1
    ensures Entered(rs, access, k) <==> Entered(rs[..|rs| - 1], access, k)
  {
    if 0 <= k { assert rs[..|rs| - 1][..k] == rs[..k]; }
  }

  ghost predicate EnteredAs(rs: seq<Request>, access: string -> bool, e: Entry) {
    exists k :: Entered(rs, access, k) && e == EntryOf(rs[k])
  }

  /** The table holds exactly the entries of those requests. */
  lemma {:induction false} AddAllEntries(rs: seq<Request>, access: string -> bool)
    ensures forall e :: e in AddAll(rs, access) <==> EnteredAs(rs, access, e)
  {
    if rs == [] {
      assert forall k :: !Entered(rs, access, k);
    } else {
      var n := |rs| - 1;
      var q, table := rs[..n], AddAll(rs[..n], access);
      AddAllEntries(q, access);
      if Adds(table, rs[n], access) { PlacedMembers(table, EntryOf(rs[n])); }
      hide AddAll, Placed;
      assert Entered(rs, access, n) <==> Adds(table, rs[n], access);
      forall e
        ensures EnteredAs(rs, access, e) <==>
          EnteredAs(q, access, e) || (Adds(table, rs[n], access) && e == EntryOf(rs[n]))
      {
        EnteredAsNext(rs, access, e);
      }
    }
  }

  lemma EnteredAsNext(rs: seq<Request>, access: string -> bool, e: Entry)
    requires rs != []
    ensures var n := |rs| - 1;
      EnteredAs(rs, access, e) <==> EnteredAs(rs[..n], access, e) || (Entered(rs, access, n) && e == EntryOf(rs[n]))
  {
    var n := |rs| - 1;
    hide AddAll, HasDir, Target;
    forall k | k < n ensures Entered(rs, access, k) <==> Entered(rs[..n], access, k) {
      EnteredBefore(rs, access, k);
    }
    if EnteredAs(rs[..n], access, e) {
      var k :| Entered(rs[..n], access, k) && e == EntryOf(rs[..n][k]);
      assert Entered(rs, access, k) && e == EntryOf(rs[k]);
    }
    if EnteredAs(rs, access, e) {
      var k :| Entered(rs, access, k) && e == EntryOf(rs[k]);
      assert k < n ==> Entered(rs[..n], access, k) && e == EntryOf(rs[..n][k]);
    }
  }

  /** A request that entered a directory that is not normal, and is kept as this one. */
  ghost predicate EnteredOverlong(rs: seq<Request>, access: string -> bool, dir: string) {
    exists k :: Entered(rs, access, k) && !Normal(rs[k].dir) && Stored(rs[k].dir) == dir
  }

  lemma OverlongEntries(rs: seq<Request>, access: string -> bool, dir: string)
    ensures Overlong(AddAll(rs, access), dir) <==> EnteredOverlong(rs, access, dir)
  {
    var table := AddAll(rs, access);
    AddAllEntries(rs, access);
    hide AddAll, HasDir, Target, Stored, Normal;
    if Overlong(table, dir) {
      var i :| 0 <= i < |table| && table[i].dir == dir && table[i].len > |dir|;
      assert table[i] in table;
      var k :| Entered(rs, access, k) && table[i] == EntryOf(rs[k]);
      StoredIff(rs[k].dir);
    }
    if EnteredOverlong(rs, access, dir) {
      var k :| Entered(rs, access, k) && !Normal(rs[k].dir) && Stored(rs[k].dir) == dir;
      StoredIff(rs[k].dir);
      assert EnteredAs(rs, access, EntryOf(rs[k]));
      var i :| 0 <= i < |table| && table[i] == EntryOf(rs[k]);
    }
  }

  /** After any requests, a translation looks past the end of a path exactly if it searches the table for
      what is kept of a directory that was entered and not normal. */
  lemma RequestsOverrun(rs: seq<Request>, access: string -> bool, path: Option<string>, size: nat)
    ensures Translated(AddAll(rs, access), path, size) == Overrun <==>
      Searched(path) && EnteredOverlong(rs, access, Sought(path.value))
  {
    AddAllSorted(rs, access);
    OverrunIff(AddAll(rs, access), path, size);
    if Searched(path) { OverlongEntries(rs, access, Sought(path.value)); }
  }

  /** One such: "/a//b" is mapped, and "/a/b" is translated. */
  lemma OverrunExample(dest: string, access: string -> bool, size: nat)
    requires |dest| < MAX_PATH && access(dest)
    ensures Translated(AddAll([Request("/a//b", Some(dest), false)], access), Some("/a/b"), size) == Overrun
  {
    var rs := [Request("/a//b", Some(dest), false)];
    assert rs[..0] == [];
    assert Entered(rs, access, 0);
    assert DoubleAt("/a//b", 2);
    KeptExample();
    assert "/a/b"[2] == '/';
    RequestsOverrun(rs, access, Some("/a/b"), size);
  }

  lemma KeptExample()
    ensures Stored("/a//b") == "/a/b"
  {
    var s := "/a//b";
    assert s[1..] == "a//b" && s[1..][1..] == "//b" && "//b"[1..] == "/b" && "/b"[1..] == "b" && "b"[1..] == "";
    assert Squeezed("b") == "b";
    assert Squeezed("/b") == "/b";
    assert Squeezed("//b") == "/b";
    assert Squeezed("a//b") == "a/b";
  }

  /** The pointer is to a buffer that is gone exactly if a root file that is short enough is translated,
      no normal directory entered is above the remapped path, and none that is not normal is kept as it. */
  lemma RequestsLocalBuffer(rs: seq<Request>, access: string -> bool, path: Option<string>, size: nat)
    ensures Translated(AddAll(rs, access), path, size).LocalBuffer? <==>
      && Searched(path) && RootFile(path.value)
      && var p := Sought(path.value);
      forall k :: Entered(rs, access, k) ==> if Normal(rs[k].dir) then !Above(rs[k].dir, p) else Stored(rs[k].dir) != p
  {
    AddAllSorted(rs, access);
    LocalBufferIff(AddAll(rs, access), path, size);
    if Searched(path) { UndecidedEntries(rs, access, Sought(path.value)); }
  }

  lemma UndecidedEntries(rs: seq<Request>, access: string -> bool, p: string)
    ensures Undecided(AddAll(rs, access), p) <==>
      forall k :: Entered(rs, access, k) ==> if Normal(rs[k].dir) then !Above(rs[k].dir, p) else Stored(rs[k].dir) != p
  {
    var table := AddAll(rs, access);
    AddAllEntries(rs, access);
    OverlongEntries(rs, access, p);
    hide AddAll, HasDir, Target, Stored, Normal, Above, Overlong;
    forall k | Entered(rs, access, k) && Normal(rs[k].dir) && Undecided(table, p) ensures !Above(rs[k].dir, p) {
      StoredIff(rs[k].dir);
      assert EnteredAs(rs, access, EntryOf(rs[k]));
      var i :| 0 <= i < |table| && table[i] == EntryOf(rs[k]);
    }
    if !Overlong(table, p) && !Undecided(table, p) {
      var i :| 0 <= i < |table| && table[i].len == |table[i].dir| && Above(table[i].dir, p);
      assert table[i] in table;
      var k :| Entered(rs, access, k) && table[i] == EntryOf(rs[k]);
      StoredIff(rs[k].dir);
    }
  }

  // ----- directories entered twice, or not at all -----

  ghost predicate EnteredDir(rs: seq<Request>, access: string -> bool, dir: string) {
    exists k :: Entered(rs, access, k) && Stored(rs[k].dir) == dir
  }

  lemma DirsEntered(rs: seq<Request>, access: string -> bool, dir: string)
    ensures HasDir(AddAll(rs, access), dir) <==> EnteredDir(rs, access, dir)
  {
    var table := AddAll(rs, access);
    AddAllEntries(rs, access);
    hide AddAll, Target, Stored;
    if HasDir(table, dir) {
      var i :| 0 <= i < |table| && table[i].dir == dir;
      assert table[i] in table;
    }
    if EnteredDir(rs, access, dir) {
      var k :| Entered(rs, access, k) && Stored(rs[k].dir) == dir;
      assert EnteredAs(rs, access, EntryOf(rs[k]));
      var i :| 0 <= i < |table| && table[i] == EntryOf(rs[k]);
    }
  }

  /** No two requests that were entered are kept alike. */
  ghost predicate KeptApart(rs: seq<Request>, access: string -> bool) {
    forall k, l :: 0 <= k < l && Entered(rs, access, k) && Entered(rs, access, l) ==>
      Stored(rs[k].dir) != Stored(rs[l].dir)
  }

  lemma KeptApartBefore(rs: seq<Request>, access: string -> bool)
    requires rs != [] && KeptApart(rs, access)
    ensures var n := |rs| - 1;
      KeptApart(rs[..n], access) && (Entered(rs, access, n) ==> !EnteredDir(rs[..n], access, Stored(rs[n].dir)))
  {
    var n := |rs| - 1;
    var q := rs[..n];
    hide AddAll, Adds, Stored;
    forall k, l | 0 <= k < l && Entered(q, access, k) && Entered(q, access, l)
      ensures Stored(q[k].dir) != Stored(q[l].dir)
    {
      EnteredBefore(rs, access, k);
      EnteredBefore(rs, access, l);
    }
    forall k | Entered(rs, access, n) && Entered(q, access, k) ensures Stored(q[k].dir) != Stored(rs[n].dir) {
      EnteredBefore(rs, access, k);
    }
  }

  lemma KeptApartAfter(rs: seq<Request>, access: string -> bool)
    requires rs != [] && KeptApart(rs[..|rs| - 1], access)
    requires var n := |rs| - 1; Entered(rs, access, n) ==> !EnteredDir(rs[..n], access, Stored(rs[n].dir))
    ensures KeptApart(rs, access)
  {
    var n := |rs| - 1;
    hide AddAll, Adds, Stored;
    forall k, l | 0 <= k < l && Entered(rs, access, k) && Entered(rs, access, l)
      ensures Stored(rs[k].dir) != Stored(rs[l].dir)
    {
      EnteredBefore(rs, access, k);
      if l < n { EnteredBefore(rs, access, l); }
    }
  }

  /** After any requests the table has no duplicate exactly if no two that were entered are kept alike. */
  lemma {:induction false} RequestsDistinct(rs: seq<Request>, access: string -> bool)
    ensures Distinct(AddAll(rs, access)) <==> KeptApart(rs, access)
  {
    if rs == [] {
    } else {
      var n := |rs| - 1;
      var q, table := rs[..n], AddAll(rs[..n], access);
      RequestsDistinct(q, access);
      if KeptApart(rs, access) { KeptApartBefore(rs, access); }
      DirsEntered(q, access, Stored(rs[n].dir));
      assert Entered(rs, access, n) <==> Adds(table, rs[n], access);
      if Adds(table, rs[n], access) { PlacedDistinct(table, EntryOf(rs[n])); }
      hide Placed, Distinct, KeptApart, EnteredDir, HasDir, Stored;
      if Distinct(AddAll(rs, access)) { KeptApartAfter(rs, access); }
    }
  }

  /** While there is room, a usable request is refused exactly if one that was entered is kept as the
      directory it gives. So a directory that is not normal is entered every time, and a normal one is
      refused after another that is kept like it, even if that one cannot be used. */
  lemma RefusedIff(rs: seq<Request>, r: Request, access: string -> bool)
    requires |AddAll(rs, access)| < CAPACITY && Usable(r, access)
    ensures AddAll(rs + [r], access) == AddAll(rs, access) <==> EnteredDir(rs, access, r.dir)
    ensures !Normal(r.dir) ==> AddAll(rs + [r], access) != AddAll(rs, access)
  {
    assert (rs + [r])[..|rs|] == rs;
    DirsEntered(rs, access, r.dir);
    PlacedMembers(AddAll(rs, access), EntryOf(r));
    hide Stored, Normal;
    forall k | Entered(rs, access, k) ensures Normal(Stored(rs[k].dir)) { StoredIff(rs[k].dir); }
  }

  /** "/a//b" twice is two entries, and keeps "/a/b" from being mapped. */
  lemma TwiceExample(dest: string, access: string -> bool)
    requires |dest| < MAX_PATH && access(dest)
    ensures var r, e := Request("/a//b", Some(dest), false), Entry("/a/b", dest, 5);
      && AddAll([r, r], access) == [e, e]
      && AddAll([r, r.(dir := "/a/b")], access) == [e] != AddAll([r.(dir := "/a/b")], access)
  {
    var r, e := Request("/a//b", Some(dest), false), Entry("/a/b", dest, 5);
    var n := r.(dir := "/a/b");
    KeptExample();
    hide AddAll, Stored, AddTo;
    AddTwo(r, r, access);
    AddTwo(r, n, access);
    AddTwo(n, r, access);
    assert EntryOf(r) == e && EntryOf(n).len == 4;
    AddFirst(r, access);
    AddFirst(n, access);
    AddSecond(e, r, access);
    AddSecond(e, n, access);
  }

  lemma AddFirst(r: Request, access: string -> bool)
    requires Usable(r, access)
    ensures AddTo([], r, access) == [EntryOf(r)]
  {
    hide Stored, Target;
  }

  lemma AddSecond(e: Entry, r: Request, access: string -> bool)
    requires Usable(r, access)
    ensures e.dir == r.dir ==> AddTo([e], r, access) == [e]
    ensures e.dir != r.dir && EntryOf(r) == e ==> AddTo([e], r, access) == [e, e]
  {
    hide Stored, Target;
    assert [e][0].dir == e.dir;
    if e.dir != r.dir && EntryOf(r) == e { assert Position([e], |e.dir|) == 1; }
  }

  lemma AddTwo(q: Request, r: Request, access: string -> bool)
    ensures AddAll([q], access) == AddTo([], q, access)
    ensures AddAll([q, r], access) == AddTo(AddTo([], q, access), r, access)
  {
    assert [q, r][..1] == [q] && [q][..0] == [];
    assert AddAll([], access) == [];
  }

  // ----- the mappings in use -----

  /** The normal directories entered, and where they lead. */
  ghost function Mapped(rs: seq<Request>, access: string -> bool): map<string, string> {
    if rs == [] then map[]
    else
      var m, r := Mapped(rs[..|rs| - 1], access), rs[|rs| - 1];
      if Adds(AddAll(rs[..|rs| - 1], access), r, access) && Normal(r.dir) then m[r.dir := Target(r).value] else m
  }

  lemma PlacedRepresents(table: seq<Entry>, m: map<string, string>, e: Entry)
    requires Represents(table, m) && (e.len == |e.dir| ==> e.dir !in m)
    ensures Represents(Placed(table, e), if e.len == |e.dir| then m[e.dir := e.dest] else m)
  {
    PlacedMembers(table, e);
    hide Placed;
    forall d | d in m ensures HasExact(Placed(table, e), d) {
      var x :| x in table && x.dir == d && x.len == |d|;
      assert x in Placed(table, e);
    }
    assert e in Placed(table, e);
  }

  lemma {:induction false} AddAllMapped(rs: seq<Request>, access: string -> bool)
    ensures Represents(AddAll(rs, access), Mapped(rs, access))
  {
    if rs == [] {
    } else {
      var q, r := rs[..|rs| - 1], rs[|rs| - 1];
      var table := AddAll(q, access);
      AddAllMapped(q, access);
      StoredIff(r.dir);
      hide Normal, Stored, Placed;
      if Adds(table, r, access) { PlacedRepresents(table, Mapped(q, access), EntryOf(r)); }
    }
  }

  /** After any requests whatever, a path is looked up by the longest normal directory entered that is
      above it, unless it is what is kept of one that was not normal. */
  lemma RequestsLookup(rs: seq<Request>, access: string -> bool, path: string, size: nat)
    ensures var r := Lookup(AddAll(rs, access), path, size);
      if EnteredOverlong(rs, access, path) then r == Overrun else ByLongest(Mapped(rs, access), path, size, r)
  {
    AddAllSorted(rs, access);
    AddAllMapped(rs, access);
    OverlongEntries(rs, access, path);
    hide *;
    LookupIsLongest(AddAll(rs, access), Mapped(rs, access), path, size);
  }

  lemma ExactDirs(table: seq<Entry>, m: map<string, string>)
    requires Valid(table) && Represents(table, m)
    ensures forall d :: HasDir(table, d) <==> d in m
  {
    forall d | HasDir(table, d) ensures d in m {
      var i :| 0 <= i < |table| && table[i].dir == d;
      assert table[i] in table;
    }
  }

  /** With normal directories it is valid too, so the first hit is the longest. */
  lemma {:induction false} AddAllValid(rs: seq<Request>, access: string -> bool)
    requires AllNormal(rs)
    ensures Valid(AddAll(rs, access))
  {
    if rs == [] {
    } else {
      assert rs[|rs| - 1] in rs;
      AddAllValid(rs[..|rs| - 1], access);
      AddAllSorted(rs[..|rs| - 1], access);
      AddKeeps(AddAll(rs[..|rs| - 1], access), rs[|rs| - 1], access);
    }
  }

  ghost predicate DistinctDirs(rs: seq<Request>) {
    forall i, j :: 0 <= i < j < |rs| ==> rs[i].dir != rs[j].dir
  }

  /** The mappings asked for. */
  ghost function Asked(rs: seq<Request>, access: string -> bool): map<string, string> {
    if rs == [] then map[]
    else
      var m, r := Asked(rs[..|rs| - 1], access), rs[|rs| - 1];
      if Usable(r, access) then m[r.dir := Target(r).value] else m
  }

  predicate AskedFor(rs: seq<Request>, dir: string) {
    exists i :: 0 <= i < |rs| && rs[i].dir == dir
  }

  lemma {:induction false} AskedMembers(rs: seq<Request>, access: string -> bool)
    requires DistinctDirs(rs)
    ensures forall d :: d in Asked(rs, access) ==> AskedFor(rs, d)
    ensures forall i :: 0 <= i < |rs| ==>
      && (Usable(rs[i], access) <==> rs[i].dir in Asked(rs, access))
      && (Usable(rs[i], access) ==> Asked(rs, access)[rs[i].dir] == Target(rs[i]).value)
  {
    if rs == [] {
    } else {
      var n := |rs| - 1;
      var q, m := rs[..n], Asked(rs[..n], access);
      AskedMembers(q, access);
      forall d | d in Asked(rs, access) ensures AskedFor(rs, d) {
        if d == rs[n].dir {
        } else {
          assert AskedFor(q, d);
          var i :| 0 <= i < n && q[i].dir == d;
          assert rs[i].dir == d;
        }
      }
      NotAskedBefore(rs);
      forall i | 0 <= i < n
        ensures Usable(rs[i], access) <==> rs[i].dir in m
        ensures Usable(rs[i], access) ==> m[rs[i].dir] == Target(rs[i]).value
      {
        assert q[i] == rs[i];
      }
    }
  }

  lemma {:induction false} AskedSize(rs: seq<Request>, access: string -> bool)
    requires DistinctDirs(rs)
    ensures |Asked(rs, access)| == Honoured(rs, access)
  {
    if rs == [] {
    } else {
      AskedSize(rs[..|rs| - 1], access);
      AskedMembers(rs[..|rs| - 1], access);
      NotAskedBefore(rs);
    }
  }

  /** The mappings asked for do not depend on the order. */
  lemma AskedAlike(rs: seq<Request>, qs: seq<Request>, access: string -> bool)
    requires DistinctDirs(rs) && DistinctDirs(qs) && forall r :: r in rs ==> r in qs
    ensures forall d :: d in Asked(rs, access) ==>
      d in Asked(qs, access) && Asked(qs, access)[d] == Asked(rs, access)[d]
  {
    AskedMembers(rs, access);
    AskedMembers(qs, access);
    forall d | d in Asked(rs, access) ensures d in Asked(qs, access) && Asked(qs, access)[d] == Asked(rs, access)[d] {
      assert AskedFor(rs, d);
      var i :| 0 <= i < |rs| && rs[i].dir == d;
      assert rs[i] in rs;
      var k :| 0 <= k < |qs| && qs[k] == rs[i];
    }
  }

  lemma NotAskedBefore(rs: seq<Request>)
    requires rs != [] && DistinctDirs(rs)
    ensures !AskedFor(rs[..|rs| - 1], rs[|rs| - 1].dir)
  {
    var q := rs[..|rs| - 1];
    assert forall i :: 0 <= i < |q| ==> q[i] == rs[i];
  }

  /** Requests with normal and distinct directories that fit are all in the table. */
  lemma {:induction false} AddAllRepresents(rs: seq<Request>, access: string -> bool)
    requires DistinctDirs(rs) && Honoured(rs, access) <= CAPACITY
    requires AllNormal(rs)
    ensures Represents(AddAll(rs, access), Asked(rs, access)) && |AddAll(rs, access)| == Honoured(rs, access)
  {
    if rs == [] {
    } else {
      var q, r := rs[..|rs| - 1], rs[|rs| - 1];
      assert r in rs;
      AddAllRepresents(q, access);
      AskedMembers(rs, access);
      AskedMembers(q, access);
      NotAskedBefore(rs);
      var table, m := AddAll(q, access), Asked(q, access);
      StoredIff(r.dir);
      AddAllValid(q, access);
      hide Honoured, Valid, AskedFor, Usable, Target, Represents, Placed;
      ExactDirs(table, m);
      if Usable(r, access) {
        assert Adds(table, r, access);
        PlacedRepresents(table, m, EntryOf(r));
        PlacedMembers(table, EntryOf(r));
      }
    }
  }

  lemma SameTranslation(t: seq<Entry>, u: seq<Entry>, m: map<string, string>, path: Option<string>, size: nat)
    requires Valid(t) && Represents(t, m) && Valid(u) && Represents(u, m)
    ensures Translated(t, path, size) == Translated(u, path, size)
  {
    hide Valid, Represents, Lookup;
    if path.Some? {
      SameLookup(t, u, m, path.value, size);
      SameLookup(t, u, m, "/tmp" + path.value, size);
    }
  }

  ghost predicate AllNormal(rs: seq<Request>) {
    forall r :: r in rs ==> Normal(r.dir)
  }

  /** The order of the requests does not matter. */
  lemma OrderIndependent(rs: seq<Request>, qs: seq<Request>, access: string -> bool, path: Option<string>, size: nat)
    requires DistinctDirs(rs) && DistinctDirs(qs) && AllNormal(rs) && forall r :: r in rs <==> r in qs
    requires Honoured(rs, access) <= CAPACITY
    ensures Translated(AddAll(rs, access), path, size) == Translated(AddAll(qs, access), path, size)
  {
    assert AllNormal(qs);
    AskedAlike(rs, qs, access);
    AskedAlike(qs, rs, access);
    assert Asked(rs, access) == Asked(qs, access);
    AskedSize(rs, access);
    AskedSize(qs, access);
    hide *;
    AddAllRepresents(rs, access);
    AddAllRepresents(qs, access);
    AddAllValid(rs, access);
    AddAllValid(qs, access);
    SameTranslation(AddAll(rs, access), AddAll(qs, access), Asked(rs, access), path, size);
  }
}

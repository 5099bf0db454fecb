/** The recursive search for 64-bit ELF files over a finite directory tree (src/exe.c:23-78). */
module ElfScan {
  import opened RtTypes

  /** PATH_MAX of the Linux headers. */
  const PATH_MAX: nat := 4096
  const HEADER_SIZE: nat := 64
  const ELFCLASS64: bv8 := 2

  /** What a directory entry is: a regular file (None if it cannot be read), a directory (which may be closed to us),
      the links "." and "..", which also have directory type, or anything else. */
  datatype Node = File(data: Option<seq<bv8>>) | Dir(openable: bool, entries: seq<Entry>) | Dots | Special

  datatype Entry = Entry(name: string, node: Node)

  // ---------------------------------------------------------------- path names

  /** Reading a path: the finished components and the one being read. */
  datatype Cursor = Cursor(finished: seq<string>, current: string)

  function Read(path: string): Cursor {
    if path == "" then Cursor([], "")
    else
      var c, before := path[|path| - 1], Read(path[..|path| - 1]);
      if c != '/' then Cursor(before.finished, before.current + [c]) else Cursor(Finish(before), "")
  }

  function Finish(c: Cursor): seq<string> {
    if c.current == "" then c.finished else c.finished + [c.current]
  }

  /** The components of a path; empty ones do not count. */
  function Split(path: string): seq<string> {
    Finish(Read(path))
  }

  predicate IsName(name: string) {
    name != "" && '/' !in name
  }

  lemma {:induction false} ReadName(path: string, name: string)
    requires '/' !in name
    ensures Read(path + "/" + name) == Cursor(Split(path), name)
  {
    var whole := path + "/" + name;
    if name == "" {
      assert whole == path + "/" && whole[..|whole| - 1] == path;
    } else {
      ReadName(path, name[..|name| - 1]);
      assert whole[..|whole| - 1] == path + "/" + name[..|name| - 1];
      assert name == name[..|name| - 1] + [name[|name| - 1]];
    }
  }

  /** snprintf(..., PATH_MAX, "%s/%s", ...) */
  function Extend(path: string, name: string): string {
    var whole := path + "/" + name;
    if |whole| < PATH_MAX then whole else whole[..PATH_MAX - 1]
  }

  predicate Fits(path: string, name: string) {
    |path| + 1 + |name| < PATH_MAX
  }

  lemma SplitExtended(path: string, name: string)
    requires IsName(name) && Fits(path, name)
    ensures Split(Extend(path, name)) == Split(path) + [name]
  {
    ReadName(path, name);
  }

  /** The path built for an entry names that entry if and only if it fits: a truncated one names something else, and from
      a path of full length it names the same directory again. */
  lemma ExtendedPathNamesEntryIff(path: string, name: string)
    requires IsName(name) && |path| < 4096
    ensures Split(Extend(path, name)) == Split(path) + [name] <==> |path| + 1 + |name| < 4096
    ensures |path| == 4095 ==> Extend(path, name) == path
    ensures |Extend(path, name)| < 4096
  {
    var whole := path + "/" + name;
    if Fits(path, name) {
      ReadName(path, name);
    } else if |path| == PATH_MAX - 1 {
      assert whole[..PATH_MAX - 1] == path;
    } else {
      var part := name[..PATH_MAX - 1 - |path| - 1];
      assert whole[..PATH_MAX - 1] == path + "/" + part;
      ReadName(path, part);
      assert part != name && (Split(path) + [name])[|Split(path)|] == name;
    }
  }

  // ---------------------------------------------------------------- the tree

  function Find(entries: seq<Entry>, name: string): (i: nat)
    ensures i <= |entries| && (i < |entries| ==> entries[i].name == name)
    ensures forall j :: 0 <= j < i ==> entries[j].name != name
  {
    if entries == [] || entries[0].name == name then 0 else 1 + Find(entries[1..], name)
  }

  /** What the system calls open for a path given by its components. */
  function Resolve(node: Node, names: seq<string>): Option<Node>
    decreases |names|
  {
    if names == [] then Some(node)
    else if node.Dir? && node.openable then
      var i := Find(node.entries, names[0]);
      if i < |node.entries| then Resolve(node.entries[i].node, names[1..]) else None
    else None
  }

  /** "." stays and ".." goes up; in a path that the scan builds, everything before them is a directory it has opened. */
  function Normal(names: seq<string>): seq<string> {
    if names == [] then []
    else
      var last, before := names[|names| - 1], Normal(names[..|names| - 1]);
      if last == "." then before
      else if last == ".." then if before == [] then [] else before[..|before| - 1]
      else before + [last]
  }

  predicate IsDots(name: string) {
    name == "." || name == ".."
  }

  predicate NoDots(names: seq<string>) {
    forall k :: 0 <= k < |names| ==> !IsDots(names[k])
  }

  /** What a path opens. */
  function Open(fs: Node, path: string): Option<Node> {
    Resolve(fs, Normal(Split(path)))
  }

  lemma DotsAreFollowed(names: seq<string>, name: string)
    requires !IsDots(name)
    ensures Normal(names + ["."]) == Normal(names) && Normal((names + [name]) + [".."]) == Normal(names)
    ensures Normal([".."]) == []
  {
    assert (names + ["."])[..|names|] == names && (names + [name])[..|names|] == names;
    assert ((names + [name]) + [".."])[..|names| + 1] == names + [name];
    assert [".."][..0] == [];
  }

  lemma {:induction false} PlainIsNormal(names: seq<string>)
    requires NoDots(names)
    ensures Normal(names) == names
  {
    if names != [] {
      PlainIsNormal(names[..|names| - 1]);
    }
  }

  /** Unique slash-free names in every directory, with "." and ".." only for the links, and every path short enough. */
  ghost predicate WellFormed(node: Node, path: string)
    decreases node
  {
    node.Dir? && node.openable ==>
      var entries := node.entries;
      && (forall e :: e in entries ==> IsName(e.name) && Fits(path, e.name) && (e.node.Dots? <==> IsDots(e.name)))
      && (forall i, j :: 0 <= i < j < |entries| ==> entries[i].name != entries[j].name)
      && (forall i :: 0 <= i < |entries| ==> WellFormed(entries[i].node, Extend(path, entries[i].name)))
  }

  /** The header test: all 64 bytes readable, the ELF magic, and class 64. */
  predicate IsElf64(data: seq<bv8>) {
    |data| >= HEADER_SIZE && data[..4] == [0x7F, 0x45, 0x4C, 0x46] && data[4] == ELFCLASS64
  }

  predicate IsElfFile(node: Option<Node>) {
    node.Some? && node.value.File? && node.value.data.Some? && IsElf64(node.value.data.value)
  }

  // ---------------------------------------------------------------- the scan

  /** What the scan of a directory logs, in readdir order with subdirectories in place. */
  function Listing(path: string, node: Node): seq<string>
    decreases node, 1
  {
    if node.Dir? && node.openable then ListingOf(path, node, |node.entries|) else []
  }

  /** The part of it due to the first n entries. */
  function ListingOf(path: string, node: Node, n: nat): seq<string>
    requires node.Dir? && n <= |node.entries|
    decreases node, 0, n
  {
    if n == 0 then [] else ListingOf(path, node, n - 1) + EntryListing(path, node.entries[n - 1])
  }

  function EntryListing(path: string, e: Entry): seq<string>
    decreases e
  {
    match e.node
    case File(_) => if IsElfFile(Some(e.node)) then [Extend(path, e.name)] else []
    case Dir(_, _) => Listing(Extend(path, e.name), e.node)
    case _ => []
  }

  /** What a scan of the directory that path opens logs, in a process that may open fds more files; every level of the
      recursion keeps its directory open. */
  function Scan(fs: Node, path: string, fds: nat): seq<string>
    decreases fds, 0
  {
    var dir := Open(fs, path);
    if fds == 0 || dir.None? || !dir.value.Dir? || !dir.value.openable then []
    else ScanEntries(fs, path, dir.value.entries, |dir.value.entries|, fds - 1)
  }

  function ScanEntries(fs: Node, path: string, entries: seq<Entry>, n: nat, fds: nat): seq<string>
    requires n <= |entries|
    decreases fds, 2, n
  {
    if n == 0 then []
    else ScanEntries(fs, path, entries, n - 1, fds) + ScanOne(fs, path, entries[n - 1], fds)
  }

  function ScanOne(fs: Node, path: string, e: Entry, fds: nat): seq<string>
    decreases fds, 1
  {
    if e.node.File? then Analyzed(fs, Extend(path, e.name), fds)
    else if (e.node.Dir? || e.node.Dots?) && !IsDots(e.name) then Scan(fs, Extend(path, e.name), fds)
    else []
  }

  function Analyzed(fs: Node, filepath: string, fds: nat): seq<string> {
    if fds > 0 && IsElfFile(Open(fs, filepath)) then [filepath] else []
  }

  class Monitor {
    var log: seq<string>

    /** Files are found by path; one that opens nothing readable is skipped. */
    method AnalyzeElf64(fs: Node, filepath: string, fds: nat)
      modifies this
      ensures log == old(log) + Analyzed(fs, filepath, fds)
    {
      var file := Open(fs, filepath);
      if fds == 0 || file.None? || !file.value.File? || file.value.data.None? {
        return;
      }
      var data := file.value.data.value;
      if |data| < HEADER_SIZE {
        return;
      }
      if data[..4] == [0x7F, 0x45, 0x4C, 0x46] && data[4] == ELFCLASS64 {
        log := log + [filepath];
      }
    }

    method ScanDirectory(fs: Node, path: string, fds: nat)
      modifies this
      ensures log == old(log) + Scan(fs, path, fds)
      decreases fds, 0
    {
      var dir := Open(fs, path);
      if fds == 0 || dir.None? || !dir.value.Dir? || !dir.value.openable {
        return;
      }
      var entries := dir.value.entries;
      ghost var start := log;
      var i := 0;
      while i < |entries|
        invariant i <= |entries|
        invariant log == start + ScanEntries(fs, path, entries, i, fds - 1)
      {
        NextEntry(start, fs, path, entries, i, fds - 1);
        ScanEntry(fs, path, entries[i], fds - 1);
        i := i + 1;
      }
    }

    /** The body of the readdir loop. */
    method ScanEntry(fs: Node, path: string, entry: Entry, fds: nat)
      modifies this
      ensures log == old(log) + ScanOne(fs, path, entry, fds)
      decreases fds, 1
    {
      if entry.node.File? {
        var filepath := Extend(path, entry.name);
        AnalyzeElf64(fs, filepath, fds);
      } else if (entry.node.Dir? || entry.node.Dots?) && entry.name != "." && entry.name != ".." {
        var newpath := Extend(path, entry.name);
        ScanDirectory(fs, newpath, fds);
      }
    }
  }

  lemma NextEntry(start: seq<string>, fs: Node, path: string, entries: seq<Entry>, i: nat, fds: nat)
    requires i < |entries|
    ensures start + ScanEntries(fs, path, entries, i + 1, fds) ==
            (start + ScanEntries(fs, path, entries, i, fds)) + ScanOne(fs, path, entries[i], fds)
  {
  }

  /** How many files the scan of a node has open at once. */
  function Need(node: Node): nat
    decreases node, 1
  {
    match node
    case File(_) => 1
    case Dir(openable, _) => if openable then 1 + NeedOf(node, |node.entries|) else 0
    case _ => 0
  }

  /** For the first n entries. */
  function NeedOf(node: Node, n: nat): nat
    requires node.Dir? && n <= |node.entries|
    decreases node, 0, n
  {
    if n == 0 then 0
    else
      var before, last := NeedOf(node, n - 1), Need(node.entries[n - 1].node);
      if before < last then last else before
  }

  lemma {:induction false} NeedCoversEntries(node: Node, n: nat, i: nat)
    requires node.Dir? && i < n <= |node.entries|
    ensures Need(node.entries[i].node) <= NeedOf(node, n)
  {
    if i < n - 1 {
      NeedCoversEntries(node, n - 1, i);
    }
  }

  /** On a well-formed tree, with files enough, the scan logs the listing. */
  lemma {:induction false} ScanIsListing(fs: Node, path: string, dir: Node, fds: nat)
    requires NoDots(Split(path)) && Resolve(fs, Split(path)) == Some(dir) && WellFormed(dir, path) && Need(dir) <= fds
    ensures Scan(fs, path, fds) == Listing(path, dir)
    decreases dir, 1
  {
    ScanOpens(fs, path, dir, fds);
    if dir.Dir? && dir.openable {
      EntriesAreListed(fs, path, dir, |dir.entries|, fds - 1, Scan(fs, path, fds), Listing(path, dir));
    }
  }

  lemma ScanOpens(fs: Node, path: string, dir: Node, fds: nat)
    requires NoDots(Split(path)) && Resolve(fs, Split(path)) == Some(dir) && Need(dir) <= fds
    ensures Scan(fs, path, fds) ==
            if dir.Dir? && dir.openable then ScanEntries(fs, path, dir.entries, |dir.entries|, fds - 1) else []
    ensures dir.Dir? && dir.openable ==> NeedOf(dir, |dir.entries|) <= fds - 1
  {
    PlainIsNormal(Split(path));
  }

  lemma {:induction false} EntriesAreListed(
    fs: Node, path: string, dir: Node, n: nat, fds: nat, scanned: seq<string>, listed: seq<string>)
    requires NoDots(Split(path)) && Resolve(fs, Split(path)) == Some(dir) && WellFormed(dir, path)
    requires dir.Dir? && dir.openable && n <= |dir.entries| && NeedOf(dir, |dir.entries|) <= fds
    requires scanned == ScanEntries(fs, path, dir.entries, n, fds) && listed == ListingOf(path, dir, n)
    ensures scanned == listed
    decreases dir, 0, n
  {
    if n > 0 {
      var before, listedBefore := ScanEntries(fs, path, dir.entries, n - 1, fds), ListingOf(path, dir, n - 1);
      EntriesAreListed(fs, path, dir, n - 1, fds, before, listedBefore);
      EntryIsScanned(fs, path, dir, n - 1, fds, ScanOne(fs, path, dir.entries[n - 1], fds));
    }
  }

  lemma {:induction false} EntryIsScanned(fs: Node, path: string, dir: Node, i: nat, fds: nat, scanned: seq<string>)
    requires NoDots(Split(path)) && Resolve(fs, Split(path)) == Some(dir) && WellFormed(dir, path)
    requires dir.Dir? && dir.openable && i < |dir.entries| && NeedOf(dir, |dir.entries|) <= fds
    requires scanned == ScanOne(fs, path, dir.entries[i], fds)
    ensures scanned == EntryListing(path, dir.entries[i])
    decreases dir, 0, 0
  {
    var e := dir.entries[i];
    NeedCoversEntries(dir, |dir.entries|, i);
    ResolveEntry(fs, path, dir, i);
    if !e.node.Dots? {
      PlainIsNormal(Split(Extend(path, e.name)));
    }
    if e.node.Dir? {
      ScanIsListing(fs, Extend(path, e.name), e.node, fds);
    }
  }

  /** The node is a regular file with that readable content. */
  predicate HasData(node: Option<Node>, d: seq<bv8>) {
    node == Some(File(Some(d)))
  }

  /** The header test, byte by byte. */
  lemma HeaderBytes(d: seq<bv8>)
    ensures IsElf64(d) <==>
            |d| >= 64 && d[0] == 0x7F && d[1] == 0x45 && d[2] == 0x4C && d[3] == 0x46 && d[4] == 2
  {
    if |d| >= 64 {
      assert d[..4] == [d[0], d[1], d[2], d[3]];
    }
  }

  /** A single path is logged exactly if some file can be opened and it opens a readable regular one with those bytes. */
  lemma AnalysisLogsIff(fs: Node, filepath: string, fds: nat)
    ensures Analyzed(fs, filepath, fds) ==
            if fds > 0 && exists d :: HasData(Open(fs, filepath), d) && |d| >= 64
                                      && d[0] == 0x7F && d[1] == 0x45 && d[2] == 0x4C && d[3] == 0x46 && d[4] == 2
            then [filepath] else []
  {
    var file := Open(fs, filepath);
    if file.Some? && file.value.File? && file.value.data.Some? {
      assert HasData(file, file.value.data.value);
      HeaderBytes(file.value.data.value);
    }
  }

  /** On every tree, well-formed or not: a path that a scan logs opens a readable regular file of at least 64 bytes, which
      begin 7F 45 4C 46 02. */
  lemma {:induction false} LoggedOpensElf(fs: Node, path: string, fds: nat, s: string) returns (d: seq<bv8>)
    requires s in Scan(fs, path, fds)
    ensures HasData(Open(fs, s), d) && |d| >= 64 && d[0] == 0x7F && d[1] == 0x45 && d[2] == 0x4C && d[3] == 0x46 && d[4] == 2
    decreases fds, 0
  {
    var entries := Open(fs, path).value.entries;
    d := LoggedEntryOpensElf(fs, path, entries, |entries|, fds - 1, s);
  }

  lemma {:induction false} LoggedEntryOpensElf(fs: Node, path: string, entries: seq<Entry>, n: nat, fds: nat, s: string)
    returns (d: seq<bv8>)
    requires n <= |entries| && s in ScanEntries(fs, path, entries, n, fds)
    ensures HasData(Open(fs, s), d) && |d| >= 64 && d[0] == 0x7F && d[1] == 0x45 && d[2] == 0x4C && d[3] == 0x46 && d[4] == 2
    decreases fds, 1, n
  {
    var e := entries[n - 1];
    if s !in ScanOne(fs, path, e, fds) {
      d := LoggedEntryOpensElf(fs, path, entries, n - 1, fds, s);
    } else if e.node.File? {
      d := Open(fs, s).value.data.value;
      HeaderBytes(d);
    } else {
      d := LoggedOpensElf(fs, Extend(path, e.name), fds, s);
    }
  }

  /** From a path of full length, the path built for a subdirectory opens the same directory again, one level deeper. */
  lemma FullPathIsReopened(fs: Node, path: string, e: Entry, fds: nat)
    requires |path| == 4095 && e.node.Dir? && !IsDots(e.name)
    ensures ScanOne(fs, path, e, fds) == Scan(fs, path, fds)
  {
    assert Extend(path, e.name) == path;
  }

  /** Such a scan logs nothing, whatever the tree: every path it builds is that directory's. */
  lemma {:induction false} FullPathLogsNothing(fs: Node, path: string, fds: nat)
    requires |path| == 4095
    ensures Scan(fs, path, fds) == []
    decreases fds, 0
  {
    var dir := Open(fs, path);
    if fds > 0 && dir.Some? && dir.value.Dir? && dir.value.openable {
      FullPathEntriesLogNothing(fs, path, dir.value.entries, |dir.value.entries|, fds - 1);
    }
  }

  lemma {:induction false} FullPathEntriesLogNothing(fs: Node, path: string, entries: seq<Entry>, n: nat, fds: nat)
    requires |path| == 4095 && n <= |entries| && Open(fs, path).Some? && Open(fs, path).value.Dir?
    ensures ScanEntries(fs, path, entries, n, fds) == []
    decreases fds, 1, n
  {
    if n > 0 {
      FullPathEntriesLogNothing(fs, path, entries, n - 1, fds);
      FullPathEntryLogsNothing(fs, path, entries[n - 1], fds);
    }
  }

  lemma {:induction false} FullPathEntryLogsNothing(fs: Node, path: string, e: Entry, fds: nat)
    requires |path| == 4095 && Open(fs, path).Some? && Open(fs, path).value.Dir?
    ensures ScanOne(fs, path, e, fds) == []
    decreases fds, 1, 0
  {
    assert Extend(path, e.name) == path;
    FullPathLogsNothing(fs, path, fds);
  }

  lemma {:induction false} ResolveStep(node: Node, names: seq<string>, name: string)
    ensures Resolve(node, names + [name]) ==
            if Resolve(node, names).Some? then Resolve(Resolve(node, names).value, [name]) else None
    decreases |names|
  {
    if names != [] && node.Dir? && node.openable {
      var i := Find(node.entries, names[0]);
      if i < |node.entries| {
        ResolveStep(node.entries[i].node, names[1..], name);
      }
      assert (names + [name])[1..] == names[1..] + [name];
    }
  }

  /** The path built for an entry names that entry. */
  lemma ResolveEntry(fs: Node, path: string, dir: Node, i: nat)
    requires Resolve(fs, Split(path)) == Some(dir) && WellFormed(dir, path)
    requires dir.Dir? && dir.openable && i < |dir.entries|
    ensures var e := dir.entries[i];
            && Resolve(fs, Split(Extend(path, e.name))) == Some(e.node) && WellFormed(e.node, Extend(path, e.name))
            && (e.node.Dots? <==> IsDots(e.name))
            && (NoDots(Split(path)) && !e.node.Dots? ==> NoDots(Split(Extend(path, e.name))))
  {
    var e := dir.entries[i];
    assert e in dir.entries;
    SplitExtended(path, e.name);
    ResolveStep(fs, Split(path), e.name);
    ResolveChild(dir, path, i);
  }

  lemma ResolveChild(dir: Node, path: string, i: nat)
    requires WellFormed(dir, path) && dir.Dir? && dir.openable && i < |dir.entries|
    ensures Find(dir.entries, dir.entries[i].name) == i
    ensures Resolve(dir, [dir.entries[i].name]) == Some(dir.entries[i].node)
  {
    var name := dir.entries[i].name;
    assert [name][1..] == [];
  }

  // ---------------------------------------------------------------- what the log means

  /** A logged path belongs below path at the components names. */
  ghost predicate Below(s: string, path: string, names: seq<string>) {
    Split(s) == Split(path) + names
  }

  /** Soundness: everything listed for a directory is the path of a 64-bit ELF file below it. */
  lemma {:induction false} ListedIsElf(path: string, node: Node, s: string) returns (names: seq<string>)
    requires WellFormed(node, path) && s in Listing(path, node)
    ensures names != [] && Below(s, path, names) && IsElfFile(Resolve(node, names))
    decreases node
  {
    var i := ListedInEntry(path, node, |node.entries|, s);
    names := EntryListedIsElf(path, node, i, s);
  }

  lemma {:induction false} ListedInEntry(path: string, node: Node, n: nat, s: string) returns (i: nat)
    requires node.Dir? && n <= |node.entries| && s in ListingOf(path, node, n)
    ensures i < n && s in EntryListing(path, node.entries[i])
  {
    if s in EntryListing(path, node.entries[n - 1]) {
      i := n - 1;
    } else {
      i := ListedInEntry(path, node, n - 1, s);
    }
  }

  lemma {:induction false} EntryListedIsElf(path: string, node: Node, i: nat, s: string) returns (names: seq<string>)
    requires WellFormed(node, path) && node.Dir? && node.openable && i < |node.entries|
    requires s in EntryListing(path, node.entries[i])
    ensures names != [] && names[0] == node.entries[i].name
    ensures Below(s, path, names) && IsElfFile(Resolve(node, names))
    decreases node, 0
  {
    var e := node.entries[i];
    var below := [];
    if e.node.File? {
      assert Split(s) + [] == Split(s);
    } else {
      below := ListedIsElf(Extend(path, e.name), e.node, s);
    }
    names := [e.name] + below;
    BelowEntry(path, node, i, s, below);
  }

  lemma ComponentsAssociate(front: seq<string>, name: string, back: seq<string>)
    ensures front + ([name] + back) == (front + [name]) + back
  {
  }

  lemma BelowEntry(path: string, node: Node, i: nat, s: string, below: seq<string>)
    requires WellFormed(node, path) && node.Dir? && node.openable && i < |node.entries|
    requires var e := node.entries[i]; Below(s, Extend(path, e.name), below) && IsElfFile(Resolve(e.node, below))
    ensures var names := [node.entries[i].name] + below; Below(s, path, names) && IsElfFile(Resolve(node, names))
  {
    var e := node.entries[i];
    assert e in node.entries;
    SplitExtended(path, e.name);
    ResolveChild(node, path, i);
    ResolveThrough(node, i, below);
    ComponentsAssociate(Split(path), e.name, below);
  }

  lemma ResolveThrough(node: Node, i: nat, below: seq<string>)
    requires node.Dir? && node.openable && i < |node.entries| && Find(node.entries, node.entries[i].name) == i
    ensures Resolve(node, [node.entries[i].name] + below) == Resolve(node.entries[i].node, below)
  {
    assert ([node.entries[i].name] + below)[1..] == below;
  }

  /** Completeness: every 64-bit ELF file below a directory is listed under its path. */
  lemma {:induction false} ElfIsListed(path: string, node: Node, names: seq<string>) returns (s: string)
    requires WellFormed(node, path) && node.Dir? && IsElfFile(Resolve(node, names))
    ensures s in Listing(path, node) && Below(s, path, names)
    decreases |names|
  {
    var i, rest := Find(node.entries, names[0]), names[1..];
    var e := node.entries[i];
    assert e in node.entries;
    SplitExtended(path, e.name);
    assert Split(path) + names == Split(Extend(path, e.name)) + rest by {
      assert names == [e.name] + rest;
    }
    assert IsElfFile(Resolve(e.node, rest));
    if e.node.Dir? {
      s := ElfIsListed(Extend(path, e.name), e.node, rest);
    } else {
      s := Extend(path, e.name);
    }
    EntryIsListed(path, node, |node.entries|, i, s);
  }

  lemma {:induction false} EntryIsListed(path: string, node: Node, n: nat, i: nat, s: string)
    requires node.Dir? && i < n <= |node.entries| && s in EntryListing(path, node.entries[i])
    ensures s in ListingOf(path, node, n)
  {
    if i < n - 1 {
      EntryIsListed(path, node, n - 1, i, s);
    }
  }

  /** Traversal order: at the first directory where two component lists part, a's entry comes before b's. */
  predicate Precedes(node: Node, a: seq<string>, b: seq<string>)
    decreases |a|
  {
    && a != [] && b != [] && node.Dir? && node.openable
    && var i, j := Find(node.entries, a[0]), Find(node.entries, b[0]);
       i < j || (i == j < |node.entries| && Precedes(node.entries[i].node, a[1..], b[1..]))
  }

  lemma {:induction false} NothingPrecedesItself(node: Node, a: seq<string>)
    ensures !Precedes(node, a, a)
    decreases |a|
  {
    if a != [] && node.Dir? && Find(node.entries, a[0]) < |node.entries| {
      NothingPrecedesItself(node.entries[Find(node.entries, a[0])].node, a[1..]);
    }
  }

  /** The components of s beyond those of path. */
  function Beyond(path: string, s: string): seq<string> {
    if |Split(path)| <= |Split(s)| then Split(s)[|Split(path)|..] else []
  }

  ghost predicate InOrder(path: string, node: Node, paths: seq<string>) {
    forall j, k :: 0 <= j < k < |paths| ==> Precedes(node, Beyond(path, paths[j]), Beyond(path, paths[k]))
  }

  /** The listing is strictly in traversal order. */
  lemma {:induction false} ListingInOrder(path: string, node: Node)
    requires WellFormed(node, path)
    ensures InOrder(path, node, Listing(path, node))
    decreases node, 1
  {
    if node.Dir? && node.openable {
      ListingOfInOrder(path, node, |node.entries|, Listing(path, node));
    }
  }

  lemma {:induction false} ListingOfInOrder(path: string, node: Node, n: nat, all: seq<string>)
    requires WellFormed(node, path) && node.Dir? && node.openable && n <= |node.entries|
    requires all == ListingOf(path, node, n)
    ensures InOrder(path, node, all)
    decreases node, 0, n
  {
    if n > 0 {
      var front, back := ListingOf(path, node, n - 1), EntryListing(path, node.entries[n - 1]);
      ListingOfInOrder(path, node, n - 1, front);
      EntryListingInOrder(path, node, n - 1, back);
      EarlierEntriesPrecede(path, node, n - 1, front, back);
      OrderConcat(path, node, front, back);
    }
  }

  lemma {:induction false} EntryListingInOrder(path: string, node: Node, i: nat, paths: seq<string>)
    requires WellFormed(node, path) && node.Dir? && node.openable && i < |node.entries|
    requires paths == EntryListing(path, node.entries[i])
    ensures InOrder(path, node, paths)
    decreases node, 0, 0
  {
    var e := node.entries[i];
    if e.node.Dir? {
      ListingInOrder(Extend(path, e.name), e.node);
      EntryInOrder(path, node, i, paths);
    }
  }

  ghost predicate AllPrecede(path: string, node: Node, front: seq<string>, back: seq<string>) {
    forall s, t :: s in front && t in back ==> Precedes(node, Beyond(path, s), Beyond(path, t))
  }

  lemma EarlierEntriesPrecede(path: string, node: Node, n: nat, front: seq<string>, back: seq<string>)
    requires WellFormed(node, path) && node.Dir? && node.openable && n < |node.entries|
    requires front == ListingOf(path, node, n) && back == EntryListing(path, node.entries[n])
    ensures AllPrecede(path, node, front, back)
  {
    forall s, t | s in front && t in back
      ensures Precedes(node, Beyond(path, s), Beyond(path, t))
    {
      EarlierEntryPrecedes(path, node, n, s, t);
    }
  }

  lemma EarlierEntryPrecedes(path: string, node: Node, n: nat, s: string, t: string)
    requires WellFormed(node, path) && node.Dir? && node.openable && n < |node.entries|
    requires s in ListingOf(path, node, n) && t in EntryListing(path, node.entries[n])
    ensures Precedes(node, Beyond(path, s), Beyond(path, t))
  {
    var i := ListedInEntry(path, node, n, s);
    var a := EntryListedIsElf(path, node, i, s);
    var b := EntryListedIsElf(path, node, n, t);
    ResolveChild(node, path, i);
    ResolveChild(node, path, n);
    assert Beyond(path, s) == a && Beyond(path, t) == b;
  }

  lemma BeyondEntry(path: string, node: Node, i: nat, s: string)
    requires WellFormed(node, path) && node.Dir? && node.openable && i < |node.entries| && node.entries[i].node.Dir?
    requires s in EntryListing(path, node.entries[i])
    ensures var name := node.entries[i].name; Beyond(path, s) == [name] + Beyond(Extend(path, name), s)
  {
    var e := node.entries[i];
    assert e in node.entries;
    SplitExtended(path, e.name);
    var below := ListedIsElf(Extend(path, e.name), e.node, s);
    assert Split(s) == Split(path) + ([e.name] + below);
  }

  lemma PrecedesThrough(node: Node, i: nat, a: seq<string>, b: seq<string>)
    requires node.Dir? && node.openable && i < |node.entries| && Find(node.entries, node.entries[i].name) == i
    requires Precedes(node.entries[i].node, a, b)
    ensures Precedes(node, [node.entries[i].name] + a, [node.entries[i].name] + b)
  {
    var name := node.entries[i].name;
    assert ([name] + a)[1..] == a && ([name] + b)[1..] == b;
  }

  /** Order below a subdirectory is order below its parent. */
  lemma {:induction false} EntryInOrder(path: string, node: Node, i: nat, paths: seq<string>)
    requires WellFormed(node, path) && node.Dir? && node.openable && i < |node.entries| && node.entries[i].node.Dir?
    requires paths == EntryListing(path, node.entries[i])
    requires var e := node.entries[i]; InOrder(Extend(path, e.name), e.node, paths)
    ensures InOrder(path, node, paths)
  {
    var below := Extend(path, node.entries[i].name);
    ResolveChild(node, path, i);
    forall j, k | 0 <= j < k < |paths| ensures Precedes(node, Beyond(path, paths[j]), Beyond(path, paths[k])) {
      BeyondEntry(path, node, i, paths[j]);
      BeyondEntry(path, node, i, paths[k]);
      PrecedesThrough(node, i, Beyond(below, paths[j]), Beyond(below, paths[k]));
    }
  }

  lemma OrderConcat(path: string, node: Node, front: seq<string>, back: seq<string>)
    requires InOrder(path, node, front) && InOrder(path, node, back) && AllPrecede(path, node, front, back)
    ensures InOrder(path, node, front + back)
  {
    var all := front + back;
    forall j, k | 0 <= j < k < |all| ensures Precedes(node, Beyond(path, all[j]), Beyond(path, all[k])) {
      if j < |front| <= k {
        assert all[j] in front && all[k] in back;
      }
    }
  }

  /** Every 64-bit ELF file of a tree is in its listing, and no other file is. */
  lemma ElfIsInListing(fs: Node, names: seq<string>, d: seq<bv8>)
    requires fs.Dir? && WellFormed(fs, "/") && HasData(Resolve(fs, names), d)
    ensures (exists k :: 0 <= k < |Listing("/", fs)| && Split(Listing("/", fs)[k]) == names) <==> IsElf64(d)
  {
    RootHasNoComponents();
    var log := Listing("/", fs);
    if IsElf64(d) {
      var s := ElfIsListed("/", fs, names);
      assert [] + names == names;
      var k :| 0 <= k < |log| && log[k] == s;
      assert Split(log[k]) == names;
    }
    if k :| 0 <= k < |log| && Split(log[k]) == names {
      var found := ListedIsElf("/", fs, log[k]);
      assert [] + found == found;
    }
  }

  lemma ListingOrdered(fs: Node, j: nat, k: nat)
    requires WellFormed(fs, "/") && j < k < |Listing("/", fs)|
    ensures var log := Listing("/", fs);
            Precedes(fs, Split(log[j]), Split(log[k])) && Split(log[j]) != Split(log[k])
  {
    var log := Listing("/", fs);
    RootHasNoComponents();
    ListingInOrder("/", fs);
    assert Beyond("/", log[j]) == Split(log[j]) && Beyond("/", log[k]) == Split(log[k]);
    NothingPrecedesItself(fs, Split(log[j]));
  }

  lemma WholeScanIsListing(fs: Node, fds: nat)
    requires fs.Dir? && WellFormed(fs, "/") && Need(fs) <= fds
    ensures Scan(fs, "/", fds) == Listing("/", fs)
  {
    RootHasNoComponents();
    ScanIsListing(fs, "/", fs, fds);
  }

  /** The path with those components is in the log. */
  ghost predicate IsLogged(log: seq<string>, names: seq<string>) {
    exists k :: 0 <= k < |log| && Split(log[k]) == names
  }

  /** The scan of a whole tree from "/", with files enough, is exact: a readable regular file is logged if and only if it has
      at least 64 bytes and begins 7F 45 4C 46 02. */
  lemma ScanIsExact(fs: Node, fds: nat, names: seq<string>, d: seq<bv8>)
    requires fs.Dir? && WellFormed(fs, "/") && Need(fs) <= fds && HasData(Resolve(fs, names), d)
    ensures IsLogged(Scan(fs, "/", fds), names) <==>
            |d| >= 64 && d[0] == 0x7F && d[1] == 0x45 && d[2] == 0x4C && d[3] == 0x46 && d[4] == 2
  {
    WholeScanIsListing(fs, fds);
    ElfIsInListing(fs, names, d);
    HeaderBytes(d);
  }

  /** And its log is strictly in traversal order, so no file is logged twice, under one spelling or two. */
  lemma ScanIsOrdered(fs: Node, fds: nat, j: nat, k: nat)
    requires fs.Dir? && WellFormed(fs, "/") && Need(fs) <= fds && j < k < |Scan(fs, "/", fds)|
    ensures var log := Scan(fs, "/", fds);
            Precedes(fs, Split(log[j]), Split(log[k])) && Split(log[j]) != Split(log[k])
  {
    WholeScanIsListing(fs, fds);
    ListingOrdered(fs, j, k);
  }

  lemma RootHasNoComponents()
    ensures Split("/") == []
  {
    assert "/"[..0] == "";
    assert Read("/") == Cursor([], "");
  }
}

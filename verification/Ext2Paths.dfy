/** Directories and paths of the ext2 image. */
module Ext2Paths {
  import opened Memory
  import opened Bytes
  import opened Ext2

  // ---- directory entries ----

  datatype Entry = Entry(name: seq<byte>, inode: nat)

  /** One record of a directory block: unreadable, of length zero, unused, or an entry. */
  datatype Parsed = Bad | Zero | Unused(len: nat) | Item(len: nat, entry: Entry)

  function Parse(data: seq<byte>, base: nat, isName: NameTest): (p: Parsed)
    ensures p.Unused? || p.Item? ==> p.len > 0
    ensures p.Item? ==> p.entry.inode != 0 && isName(p.entry.name)
  {
    if base + 7 > |data| then Bad else
    var inode, len, nameLen := Read(data, base, 4).value, Read(data, base + 4, 2).value, data[base + 6];
    if len == 0 then Zero
    else if inode == 0 then Unused(len)
    else if base + 8 + nameLen > |data| || !isName(data[base + 8..base + 8 + nameLen]) then Bad
    else Item(len, Entry(data[base + 8..base + 8 + nameLen], inode))
  }

  /** A place in a directory: block, offset in it, and bytes still to go. */
  datatype Cursor = Cursor(block: nat, offset: nat, remaining: nat)

  /** How a walk over a directory ends: at its size, at a hole or a record of length zero,
      or at something unreadable. */
  datatype Ending = Complete | Stopped | Corrupt

  datatype Step = End(ending: Ending) | Move(next: Cursor) | Found(entry: Entry, next: Cursor)

  function Minus(a: nat, b: nat): nat { if a < b then 0 else a - b }

  /** One turn of the loop over the records of a directory. */
  function StepAt(image: seq<byte>, sb: Superblock, dir: Inode, isName: NameTest, c: Cursor): (s: Step)
    requires |dir.blocks| == 15 && Sane(sb)
    ensures !s.End? ==> sb.blockSize > 0
    ensures !s.End? ==>
      s.next.remaining < c.remaining || (s.next.remaining == c.remaining && s.next.offset < sb.blockSize <= c.offset)
  {
    if c.remaining == 0 then End(Complete) else
    var block := DataBlockNumber(image, sb, dir, c.block);
    if block.None? then End(Corrupt)
    else if block.value == 0 then End(Stopped) else
    var data := BlockSlice(image, sb.blockSize, block.value);
    if data.None? then End(Corrupt)
    else if c.offset >= |data.value| then Move(Cursor(c.block + 1, 0, c.remaining)) else
    match Parse(data.value, c.offset, isName)
    case Bad => End(Corrupt)
    case Zero => End(Stopped)
    case Unused(len) => Move(Cursor(c.block, c.offset + len, Minus(c.remaining, len)))
    case Item(len, e) => Found(e, Cursor(c.block, c.offset + len, Minus(c.remaining, len)))
  }

  // ---- the entries of a directory ----

  datatype Listing = Listing(entries: seq<Entry>, ending: Ending)

  type Stepper = Cursor -> Step

  /** Every turn uses up bytes, or moves from past the end of a block to the next one. */
  ghost predicate Advances(step: Stepper, size: nat) {
    forall c :: !step(c).End? ==>
      var next := step(c).next;
      next.remaining < c.remaining || (next.remaining == c.remaining && next.offset < size <= c.offset)
  }

  function PastBlock(size: nat, c: Cursor): nat { if c.offset >= size then 1 else 0 }

  /** The entries from a place in a directory on. */
  ghost function List(step: Stepper, size: nat, c: Cursor): Listing
    requires Advances(step, size)
    decreases c.remaining, PastBlock(size, c)
  {
    match step(c)
    case End(ending) => Listing([], ending)
    case Move(next) => List(step, size, next)
    case Found(e, next) =>
      var rest := List(step, size, next);
      Listing([e] + rest.entries, rest.ending)
  }

  ghost function Steps(image: seq<byte>, sb: Superblock, dir: Inode, isName: NameTest): (step: Stepper)
    requires |dir.blocks| == 15 && Sane(sb)
    ensures Advances(step, sb.blockSize)
  {
    c => StepAt(image, sb, dir, isName, c)
  }

  ghost function Listed(image: seq<byte>, sb: Superblock, dir: Inode, isName: NameTest): Listing
    requires |dir.blocks| == 15 && Sane(sb)
  {
    List(Steps(image, sb, dir, isName), sb.blockSize, Cursor(0, 0, dir.size))
  }

  /** The inode of the first entry of that name. */
  ghost function FirstNamed(es: seq<Entry>, name: seq<byte>): Option<nat> {
    if es == [] then None else if es[0].name == name then Some(es[0].inode) else FirstNamed(es[1..], name)
  }

  const DOT: seq<byte> := [46]
  const DOTS: seq<byte> := [46, 46]

  /** The names of the entries, without "." and "..". */
  ghost function Names(es: seq<Entry>): seq<seq<byte>> {
    if es == [] then [] else
    Shown(es[0]) + Names(es[1..])
  }

  function Shown(e: Entry): seq<seq<byte>> {
    if e.name == DOT || e.name == DOTS then [] else [e.name]
  }

  lemma NamesCons(names: seq<seq<byte>>, e: Entry, es: seq<Entry>)
    ensures names + Names([e] + es) == names + Shown(e) + Names(es)
  {
  }

  lemma {:induction false} NamesAreFound(es: seq<Entry>, name: seq<byte>)
    requires name != DOT && name != DOTS
    ensures name in Names(es) <==> FirstNamed(es, name).Some?
    decreases |es|
  {
    if es != [] {
      NamesAreFound(es[1..], name);
    }
  }

  // ---- the two walks ----

  /** What a directory lookup finds. */
  ghost function Lookup(image: seq<byte>, sb: Superblock, dir: Inode, isName: NameTest, name: seq<byte>): Option<nat>
    requires |dir.blocks| == 15 && Sane(sb)
  {
    if IsDir(dir.mode) then FirstNamed(Listed(image, sb, dir, isName).entries, name) else None
  }

  method FindInodeInDir(image: seq<byte>, sb: Superblock, dir: Inode, isName: NameTest, name: seq<byte>)
    returns (r: Option<nat>)
    requires |dir.blocks| == 15 && Sane(sb)
    ensures r == Lookup(image, sb, dir, isName, name)
  {
    if !IsDir(dir.mode) {
      return None;
    }
    ghost var step := Steps(image, sb, dir, isName);
    var c := Cursor(0, 0, dir.size);
    while true
      invariant Lookup(image, sb, dir, isName, name) == FirstNamed(List(step, sb.blockSize, c).entries, name)
      decreases c.remaining, PastBlock(sb.blockSize, c)
    {
      var s := StepAt(image, sb, dir, isName, c);
      assert s == step(c);
      if s.End? {
        return None;
      }
      if s.Found? && s.entry.name == name {
        return Some(s.entry.inode);
      }
      c := s.next;
    }
  }

  /** Lists a directory: a walk that ends in something unreadable gives nothing. */
  method ListNames(image: seq<byte>, sb: Superblock, dir: Inode, isName: NameTest) returns (r: Option<seq<seq<byte>>>)
    requires |dir.blocks| == 15 && Sane(sb)
    ensures var all := Listed(image, sb, dir, isName);
            r == if all.ending == Corrupt then None else Some(Names(all.entries))
  {
    ghost var step, all := Steps(image, sb, dir, isName), Listed(image, sb, dir, isName);
    var names: seq<seq<byte>> := [];
    var c := Cursor(0, 0, dir.size);
    while true
      invariant all.ending == List(step, sb.blockSize, c).ending
      invariant Names(all.entries) == names + Names(List(step, sb.blockSize, c).entries)
      decreases c.remaining, PastBlock(sb.blockSize, c)
    {
      var s := StepAt(image, sb, dir, isName, c);
      assert s == step(c);
      if s.End? {
        assert names + [] == names;
        return if s.ending == Corrupt then None else Some(names);
      }
      if s.Found? {
        NamesCons(names, s.entry, List(step, sb.blockSize, s.next).entries);
        names := names + Shown(s.entry);
      }
      c := s.next;
    }
  }

  /** The two walks agree on what a directory holds. */
  lemma WalksAgree(image: seq<byte>, sb: Superblock, dir: Inode, isName: NameTest, name: seq<byte>)
    requires |dir.blocks| == 15 && Sane(sb) && IsDir(dir.mode) && name != DOT && name != DOTS
    ensures name in Names(Listed(image, sb, dir, isName).entries) <==> Lookup(image, sb, dir, isName, name).Some?
  {
    NamesAreFound(Listed(image, sb, dir, isName).entries, name);
  }

  // ---- paths ----

  const SLASH: byte := 47

  /** The part of a path up to the next slash. */
  function Component(path: seq<byte>): (c: seq<byte>)
    ensures |c| <= |path| && (path != [] && path[0] != SLASH ==> c != [])
  {
    if path == [] || path[0] == SLASH then [] else [path[0]] + Component(path[1..])
  }

  /** The nonempty components of a path. */
  function Parts(path: seq<byte>): seq<seq<byte>>
    decreases |path|
  {
    if path == [] then []
    else if path[0] == SLASH then Parts(path[1..])
    else [Component(path)] + Parts(path[|Component(path)|..])
  }

  lemma {:induction false} ComponentConcat(a: seq<byte>, b: seq<byte>)
    ensures Component(a + [SLASH] + b) == Component(a)
    decreases |a|
  {
    if a != [] && a[0] != SLASH {
      assert (a + [SLASH] + b)[1..] == a[1..] + [SLASH] + b;
      ComponentConcat(a[1..], b);
    }
  }

  /** Joining with a slash joins the components: repeated, leading and trailing slashes do
      not matter. */
  lemma {:induction false} PartsConcat(a: seq<byte>, b: seq<byte>)
    ensures Parts(a + [SLASH] + b) == Parts(a) + Parts(b)
    decreases |a|
  {
    var ab := a + [SLASH] + b;
    if a == [] {
      assert ab[1..] == b;
    } else if a[0] == SLASH {
      assert ab[1..] == a[1..] + [SLASH] + b;
      PartsConcat(a[1..], b);
    } else {
      var c := Component(a);
      var rest := a[|c|..];
      ComponentConcat(a, b);
      assert ab[|c|..] == rest + [SLASH] + b;
      PartsConcat(rest, b);
      assert Parts(ab) == [c] + Parts(ab[|c|..]) && Parts(a) == [c] + Parts(rest);
    }
  }

  /** A path without its leading and trailing slashes. */
  function Trim(path: seq<byte>): seq<byte>
    decreases |path|
  {
    if path == [] then []
    else if path[0] == SLASH then Trim(path[1..])
    else if path[|path| - 1] == SLASH then Trim(path[..|path| - 1])
    else path
  }

  lemma {:induction false} PartsTrim(path: seq<byte>)
    ensures Parts(Trim(path)) == Parts(path)
    decreases |path|
  {
    if path == [] {
    } else if path[0] == SLASH {
      PartsTrim(path[1..]);
    } else if path[|path| - 1] == SLASH {
      var a := path[..|path| - 1];
      PartsTrim(a);
      assert path == a + [SLASH] + [];
      PartsConcat(a, []);
    }
  }

  predicate Dotted(part: seq<byte>) { part == DOT || part == DOTS }

  /** The inode a directory has under that name, if it is a file. */
  ghost function FileIn(image: seq<byte>, sb: Superblock, isName: NameTest, dir: Inode, name: seq<byte>): Option<nat>
    requires |dir.blocks| == 15 && Sane(sb)
  {
    match Lookup(image, sb, dir, isName, name)
    case None => None
    case Some(number) =>
      var ino := InodeOf(image, sb, number);
      if ino.None? || IsDir(ino.value.mode) then None else Some(number)
  }

  /** The directory inode under that name. */
  ghost function DirIn(image: seq<byte>, sb: Superblock, isName: NameTest, dir: Inode,
                       name: seq<byte>): (r: Option<(nat, Inode)>)
    requires |dir.blocks| == 15 && Sane(sb)
    ensures r.Some? ==> |r.value.1.blocks| == 15 && IsDir(r.value.1.mode)
  {
    match Lookup(image, sb, dir, isName, name)
    case None => None
    case Some(number) =>
      var ino := InodeOf(image, sb, number);
      if ino.None? || !IsDir(ino.value.mode) then None else Some((number, ino.value))
  }

  /** The file a path leads to from a directory; "." and ".." lead nowhere. */
  ghost function ResolveFile(image: seq<byte>, sb: Superblock, isName: NameTest, dir: Inode,
                             parts: seq<seq<byte>>): Option<nat>
    requires |dir.blocks| == 15 && Sane(sb)
    decreases |parts|
  {
    if parts == [] || Dotted(parts[0]) then None
    else if |parts| == 1 then FileIn(image, sb, isName, dir, parts[0])
    else
      match DirIn(image, sb, isName, dir, parts[0])
      case None => None
      case Some(next) => ResolveFile(image, sb, isName, next.1, parts[1..])
  }

  /** The directory a path leads to; "." and ".." are passed over. */
  ghost function ResolveDir(image: seq<byte>, sb: Superblock, isName: NameTest, number: nat, dir: Inode,
                            parts: seq<seq<byte>>): (r: Option<(nat, Inode)>)
    requires |dir.blocks| == 15 && Sane(sb)
    ensures r.Some? ==> |r.value.1.blocks| == 15
    decreases |parts|
  {
    if parts == [] then if IsDir(dir.mode) then Some((number, dir)) else None
    else if Dotted(parts[0]) then ResolveDir(image, sb, isName, number, dir, parts[1..])
    else
      match DirIn(image, sb, isName, dir, parts[0])
      case None => None
      case Some(next) => ResolveDir(image, sb, isName, next.0, next.1, parts[1..])
  }

  lemma {:induction false} NotADirectory(image: seq<byte>, sb: Superblock, isName: NameTest, number: nat, dir: Inode,
                                         parts: seq<seq<byte>>)
    requires |dir.blocks| == 15 && Sane(sb) && !IsDir(dir.mode)
    ensures ResolveDir(image, sb, isName, number, dir, parts).None?
    decreases |parts|
  {
    if parts != [] && Dotted(parts[0]) {
      NotADirectory(image, sb, isName, number, dir, parts[1..]);
    }
  }

  /** Reading a path and listing its parent agree: the file behind `parts/name` is the file
      that the directory behind `parts` holds under `name`. */
  lemma {:induction false} FileIsInItsDirectory(image: seq<byte>, sb: Superblock, isName: NameTest, number: nat,
                                                dir: Inode, parts: seq<seq<byte>>, name: seq<byte>)
    requires |dir.blocks| == 15 && Sane(sb) && !Dotted(name) && forall p :: p in parts ==> !Dotted(p)
    ensures var parent := ResolveDir(image, sb, isName, number, dir, parts);
            ResolveFile(image, sb, isName, dir, parts + [name]) ==
              if parent.None? then None else FileIn(image, sb, isName, parent.value.1, name)
    decreases |parts|
  {
    if parts != [] {
      assert (parts + [name])[1..] == parts[1..] + [name];
      var next := DirIn(image, sb, isName, dir, parts[0]);
      if next.Some? {
        FileIsInItsDirectory(image, sb, isName, next.value.0, next.value.1, parts[1..], name);
      }
    }
  }

  /** An image whose blocks have size zero has no entries. */
  lemma FoundNeedsBlocks(image: seq<byte>, sb: Superblock, isName: NameTest, dir: Inode, name: seq<byte>)
    requires |dir.blocks| == 15 && Sane(sb) && Lookup(image, sb, dir, isName, name).Some?
    ensures sb.blockSize > 0
  {
  }

  /** The file behind a path. */
  ghost function FileAt(image: seq<byte>, isName: NameTest, path: seq<byte>): Option<nat> {
    if SuperblockOf(image).None? then None else
    var sb := SuperblockOf(image).value;
    SuperblockSane(image);
    var root := InodeOf(image, sb, 2);
    if root.None? then None else ResolveFile(image, sb, isName, root.value, Parts(path))
  }

  /** What reading a path gives. */
  ghost function PathContent(image: seq<byte>, isName: NameTest, path: seq<byte>): Option<seq<byte>> {
    match FileAt(image, isName, path)
    case None => None
    case Some(number) =>
      var sb := SuperblockOf(image).value;
      if sb.blockSize == 0 || InodeOf(image, sb, number).None? then None
      else FileContent(image, sb, InodeOf(image, sb, number).value)
  }

  /** Reads the file behind a path. Blocks of size zero are never divided by. */
  method ReadPath(image: seq<byte>, isName: NameTest, path: seq<byte>) returns (r: Option<seq<byte>>)
    ensures r == PathContent(image, isName, path)
  {
    var super := SuperblockOf(image);
    if super.None? {
      return None;
    }
    SuperblockSane(image);
    var sb := super.value;
    var root := ReadInode(image, sb, 2);
    if root.None? {
      return None;
    }
    var file := FindFile(image, sb, isName, root.value, Parts(path));
    if file.None? {
      return None;
    }
    r := ReadInodeData(image, sb, file.value);
  }

  /** Follows the components of a path to a file. */
  method FindFile(image: seq<byte>, sb: Superblock, isName: NameTest, root: Inode, parts: seq<seq<byte>>)
    returns (r: Option<nat>)
    requires |root.blocks| == 15 && Sane(sb)
    ensures r == ResolveFile(image, sb, isName, root, parts)
    ensures r.Some? ==> sb.blockSize > 0 && InodeOf(image, sb, r.value).Some?
  {
    var current, i := root, 0;
    while i < |parts|
      invariant 0 <= i <= |parts| && |current.blocks| == 15
      invariant ResolveFile(image, sb, isName, root, parts) == ResolveFile(image, sb, isName, current, parts[i..])
    {
      if Dotted(parts[i]) {
        return None;
      }
      var number := FindInodeInDir(image, sb, current, isName, parts[i]);
      if number.None? {
        return None;
      }
      FoundNeedsBlocks(image, sb, isName, current, parts[i]);
      var next := ReadInode(image, sb, number.value);
      if next.None? {
        return None;
      }
      if i + 1 == |parts| {
        return if IsDir(next.value.mode) then None else number;
      }
      if !IsDir(next.value.mode) {
        return None;
      }
      assert parts[i..][1..] == parts[i + 1..];
      current, i := next.value, i + 1;
    }
    return None;
  }

  /** Follows the components of a path to a directory. */
  method FindDir(image: seq<byte>, sb: Superblock, isName: NameTest, root: Inode, path: seq<byte>)
    returns (r: Option<(nat, Inode)>)
    requires |root.blocks| == 15 && Sane(sb)
    ensures r == ResolveDir(image, sb, isName, 2, root, Parts(path))
  {
    var trimmed := Trim(path);
    PartsTrim(path);
    var parts := Parts(trimmed);
    var number, current, i := 2, root, 0;
    while i < |parts|
      invariant 0 <= i <= |parts| && |current.blocks| == 15
      invariant ResolveDir(image, sb, isName, 2, root, parts) ==
        ResolveDir(image, sb, isName, number, current, parts[i..])
    {
      assert parts[i..][1..] == parts[i + 1..];
      if !Dotted(parts[i]) {
        var found := FindInodeInDir(image, sb, current, isName, parts[i]);
        if found.None? {
          return None;
        }
        var next := ReadInode(image, sb, found.value);
        if next.None? {
          return None;
        }
        if !IsDir(next.value.mode) {
          NotADirectory(image, sb, isName, found.value, next.value, parts[i + 1..]);
        }
        number, current := found.value, next.value;
      }
      i := i + 1;
    }
    return if IsDir(current.mode) then Some((number, current)) else None;
  }

  /** The directory behind a path. */
  ghost function DirectoryAt(image: seq<byte>, isName: NameTest, path: seq<byte>): (r: Option<Inode>)
    ensures r.Some? ==> SuperblockOf(image).Some? && Sane(SuperblockOf(image).value) && |r.value.blocks| == 15
  {
    if SuperblockOf(image).None? then None else
    var sb := SuperblockOf(image).value;
    SuperblockSane(image);
    var root := InodeOf(image, sb, 2);
    if root.None? then None else
    var dir := ResolveDir(image, sb, isName, 2, root.value, Parts(path));
    if dir.None? then None else Some(dir.value.1)
  }

  /** What listing a path gives. */
  ghost function PathListing(image: seq<byte>, isName: NameTest, path: seq<byte>): Option<seq<seq<byte>>> {
    var dir := DirectoryAt(image, isName, path);
    if dir.None? then None else
    var all := Listed(image, SuperblockOf(image).value, dir.value, isName);
    if all.ending == Corrupt then None else Some(Names(all.entries))
  }

  /** Lists the directory behind a path. */
  method ReadDirPath(image: seq<byte>, isName: NameTest, path: seq<byte>) returns (r: Option<seq<seq<byte>>>)
    ensures r == PathListing(image, isName, path)
  {
    var super := SuperblockOf(image);
    if super.None? {
      return None;
    }
    SuperblockSane(image);
    var root := ReadInode(image, super.value, 2);
    if root.None? {
      return None;
    }
    var dir := FindDir(image, super.value, isName, root.value, path);
    if dir.None? {
      return None;
    }
    r := ListNames(image, super.value, dir.value.1, isName);
  }

  /** Reading below a directory that can be listed: `path/name` leads to a file exactly if
      `name` is listed and its inode is a file. */
  lemma ListedAndRead(image: seq<byte>, isName: NameTest, path: seq<byte>, name: seq<byte>)
    requires Parts(name) == [name] && !Dotted(name) && forall p :: p in Parts(path) ==> !Dotted(p)
    ensures PathListing(image, isName, path).Some? ==>
      var sb, dir := SuperblockOf(image).value, DirectoryAt(image, isName, path).value;
      var number := Lookup(image, sb, dir, isName, name);
      && (name in PathListing(image, isName, path).value <==> number.Some?)
      && FileAt(image, isName, path + [SLASH] + name) ==
           if number.Some? && InodeOf(image, sb, number.value).Some?
             && !IsDir(InodeOf(image, sb, number.value).value.mode)
           then number else None
  {
    if PathListing(image, isName, path).Some? {
      var sb := SuperblockOf(image).value;
      SuperblockSane(image);
      var root, dir := InodeOf(image, sb, 2).value, DirectoryAt(image, isName, path).value;
      PartsConcat(path, name);
      FileIsInItsDirectory(image, sb, isName, 2, root, Parts(path), name);
      ResolvedIsDir(image, sb, isName, 2, root, Parts(path));
      WalksAgree(image, sb, dir, isName, name);
    }
  }

  lemma {:induction false} ResolvedIsDir(image: seq<byte>, sb: Superblock, isName: NameTest, number: nat, dir: Inode,
                                         parts: seq<seq<byte>>)
    requires |dir.blocks| == 15 && Sane(sb)
    ensures var r := ResolveDir(image, sb, isName, number, dir, parts); r.Some? ==> IsDir(r.value.1.mode)
    decreases |parts|
  {
    if parts != [] {
      if Dotted(parts[0]) {
        ResolvedIsDir(image, sb, isName, number, dir, parts[1..]);
      } else {
        var next := DirIn(image, sb, isName, dir, parts[0]);
        if next.Some? {
          ResolvedIsDir(image, sb, isName, next.value.0, next.value.1, parts[1..]);
        }
      }
    }
  }
}
